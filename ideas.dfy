/**
 * The idea tree of a mind map (`BaseIdea` and its root variant
 * `MindMupRootNode` in mindmupgenerator.py), the per-node editing operations,
 * and the depth-first pre-order walk every other component relies on.
 *
 * A node is a value. Its `handle` stands for the identity of the Python
 * object, which is what the link registry and the id table refer to.
 */
module Ideas {
  import opened Wrappers

  /** The identity of a node object. */
  type Handle = nat

  datatype Style = Style(color: Option<string>, lineStyle: Option<string>, background: Option<string>)

  datatype Attachment = Attachment(contentType: Option<string>, content: Option<string>)

  /** `Attributes`: the optional attribute record of a plain node; measurements map a name to its string value. */
  datatype Attributes = Attributes(
    style: Option<Style>,
    collapsed: Option<bool>,
    attachment: Option<Attachment>,
    measurements: Option<map<string, string>>)

  const NoAttributes := Attributes(None, None, None, None)

  /** A resolved link: integer endpoint ids and a style record (name to value). */
  datatype Link = Link(ideaIdFrom: int, ideaIdTo: int, style: map<string, string>)

  /** The style of `Link.defaults`. */
  const DefaultLinkStyle: map<string, string> := map["color" := "#FF0000", "lineStyle" := "dashed"]

  /**
   * The fields only the root variant has. `measurementsConfig` is the
   * `_measurements_config` list of its `rootAttributes`, or None when the
   * root has no attribute record yet.
   */
  datatype RootFields = RootFields(
    formatVersion: Option<int>,
    links: seq<Link>,
    measurementsConfig: Option<seq<string>>)

  /**
   * A node: title, optional integer id, attribute record, ordered children,
   * and (for the root variant) the root fields. On a root node, `attr` holds
   * what `setCollapse` stores on it; the wire form of a root shows only its
   * measurement-name list.
   */
  datatype Idea = Idea(
    handle: Handle,
    title: string,
    id: Option<int>,
    attr: Option<Attributes>,
    ideas: seq<Idea>,
    root: Option<RootFields>)

  /** `BaseIdea(title=...)`: a fresh plain node without id, attributes or children. */
  function NewIdea(handle: Handle, title: string): (r: Idea)
    ensures r.handle == handle && r.title == title
    ensures r.id.None? && r.attr.None? && r.ideas == [] && r.root.None?
  {
    Idea(handle, title, None, None, [], None)
  }

  function AttrOrNew(a: Option<Attributes>): Attributes
  {
    if a.Some? then a.value else NoAttributes
  }

  /** The measurements of a node, empty when it has none. */
  function Measurements(n: Idea): map<string, string>
  {
    if n.attr.Some? && n.attr.value.measurements.Some? then n.attr.value.measurements.value else map[]
  }

  /**
   * `setCollapse`: creates the attribute record if missing and sets its
   * `collapsed` flag; nothing else of the node changes.
   */
  function SetCollapse(n: Idea, state: bool): (r: Idea)
    ensures r.attr.Some? && r.attr.value.collapsed == Some(state)
    ensures r.attr.value.(collapsed := None) == AttrOrNew(n.attr).(collapsed := None)
    ensures r.(attr := n.attr) == n
  {
    n.(attr := Some(AttrOrNew(n.attr).(collapsed := Some(state))))
  }

  /**
   * `addMeasure`: an upsert of `name` into the node's measurements, keeping
   * every other measurement and every other attribute.
   */
  function AddMeasure(n: Idea, name: string, value: string): (r: Idea)
    ensures r.attr.Some? && r.attr.value.measurements.Some?
    ensures Measurements(r).Keys == Measurements(n).Keys + {name}
    ensures Measurements(r)[name] == value
    ensures forall k :: k in Measurements(n) && k != name ==> Measurements(r)[k] == Measurements(n)[k]
    ensures r.attr.value.(measurements := None) == AttrOrNew(n.attr).(measurements := None)
    ensures r.(attr := n.attr) == n
  {
    var a := AttrOrNew(n.attr);
    n.(attr := Some(a.(measurements := Some(Measurements(n)[name := value]))))
  }

  /** `appendIdea`: the child goes last; nothing else of the node changes. */
  function AppendIdea(n: Idea, child: Idea): (r: Idea)
    ensures |r.ideas| == |n.ideas| + 1 && r.ideas[|n.ideas|] == child
    ensures r.ideas[..|n.ideas|] == n.ideas
    ensures r.(ideas := n.ideas) == n
  {
    n.(ideas := n.ideas + [child])
  }

  /** A repeated name overwrites: the second value is the one kept. */
  lemma AddMeasureOverwrites(n: Idea, name: string, v1: string, v2: string)
    ensures AddMeasure(AddMeasure(n, name, v1), name, v2) == AddMeasure(n, name, v2)
  {
    var a := AddMeasure(AddMeasure(n, name, v1), name, v2);
    var b := AddMeasure(n, name, v2);
    assert Measurements(a) == Measurements(b);
  }

  /** Upserts of two different names commute. */
  lemma AddMeasureCommutes(n: Idea, x: string, vx: string, y: string, vy: string)
    requires x != y
    ensures AddMeasure(AddMeasure(n, x, vx), y, vy) == AddMeasure(AddMeasure(n, y, vy), x, vx)
  {
    var a := AddMeasure(AddMeasure(n, x, vx), y, vy);
    var b := AddMeasure(AddMeasure(n, y, vy), x, vx);
    assert Measurements(a) == Measurements(b);
  }

  /** The measurements `addMeasure` leaves after a sequence of (name, value) calls: the last value per name wins. */
  function EntriesMap(es: seq<(string, string)>): map<string, string>
  {
    if es == [] then map[] else EntriesMap(es[..|es| - 1])[es[|es| - 1].0 := es[|es| - 1].1]
  }

  /** Replays `addMeasure` for each entry, in order. */
  function AddMeasures(n: Idea, es: seq<(string, string)>): Idea
  {
    if es == [] then n else var m := AddMeasures(n, es[..|es| - 1]); AddMeasure(m, es[|es| - 1].0, es[|es| - 1].1)
  }

  /** The node with `m` laid over its measurements. */
  function OverlayMeasurements(n: Idea, m: map<string, string>): (r: Idea)
  {
    n.(attr := Some(AttrOrNew(n.attr).(measurements := Some(Measurements(n) + m))))
  }

  /**
   * Replaying a table of measurements entry by entry gives the node with the
   * table laid over its measurements, whatever the order of the entries.
   */
  lemma {:induction false} AddMeasuresIsOverlay(n: Idea, es: seq<(string, string)>)
    requires es != [] || (n.attr.Some? && n.attr.value.measurements.Some?)
    ensures AddMeasures(n, es) == OverlayMeasurements(n, EntriesMap(es))
  {
    if es == [] {
      assert Measurements(n) + map[] == Measurements(n);
    } else {
      var init := es[..|es| - 1];
      var last := es[|es| - 1];
      if init == [] {
        assert EntriesMap(init) == map[];
        assert Measurements(n) + EntriesMap(es) == Measurements(n)[last.0 := last.1];
      } else {
        AddMeasuresIsOverlay(n, init);
        var m := OverlayMeasurements(n, EntriesMap(init));
        assert Measurements(m) == Measurements(n) + EntriesMap(init);
        assert Measurements(n) + EntriesMap(es) == Measurements(m)[last.0 := last.1];
      }
    }
  }

  /** Pre-order listing of a subtree: the node, then each child's subtree in child order. */
  function Preorder(n: Idea): (r: seq<Idea>)
    ensures |r| >= 1 && r[0] == n
    decreases n, 1
  {
    [n] + PreorderAll(n.ideas)
  }

  function PreorderAll(cs: seq<Idea>): seq<Idea>
    decreases cs, 0
  {
    if cs == [] then [] else Preorder(cs[0]) + PreorderAll(cs[1..])
  }

  /** The number of nodes in a subtree. */
  function Size(n: Idea): nat
  {
    |Preorder(n)|
  }

  /** One step of `walkSubTree`: the node, its children and its depth (the root has depth level + 1). */
  datatype Visit = Visit(node: Idea, children: seq<Idea>, depth: nat)

  /**
   * `walkSubTree(root, level)`: depth-first pre-order; every visit carries
   * the node's own children and a depth greater than `level`.
   */
  function WalkSubTree(n: Idea, level: nat): (r: seq<Visit>)
    ensures |r| == |Preorder(n)|
    ensures r[0] == Visit(n, n.ideas, level + 1)
    ensures forall i :: 0 <= i < |r| ==>
      r[i].node == Preorder(n)[i] && r[i].children == r[i].node.ideas && r[i].depth > level
    decreases n, 1
  {
    [Visit(n, n.ideas, level + 1)] + WalkAll(n.ideas, level + 1)
  }

  function WalkAll(cs: seq<Idea>, level: nat): (r: seq<Visit>)
    ensures |r| == |PreorderAll(cs)|
    ensures forall i :: 0 <= i < |r| ==>
      r[i].node == PreorderAll(cs)[i] && r[i].children == r[i].node.ideas && r[i].depth >= level
    decreases cs, 0
  {
    if cs == [] then [] else WalkSubTree(cs[0], level) + WalkAll(cs[1..], level)
  }

  lemma {:induction false} WalkAllAppend(cs: seq<Idea>, c: Idea, level: nat)
    ensures WalkAll(cs + [c], level) == WalkAll(cs, level) + WalkSubTree(c, level)
    decreases |cs|
  {
    if cs == [] {
      assert [c][1..] == [];
    } else {
      assert (cs + [c])[1..] == cs[1..] + [c];
      WalkAllAppend(cs[1..], c, level);
    }
  }

  /**
   * Appending a child appends the walk of its subtree, one level deeper, to
   * the parent's walk; the visits before it are unchanged.
   */
  lemma WalkAppend(n: Idea, c: Idea, level: nat)
    ensures WalkSubTree(AppendIdea(n, c), level)[1..] == WalkSubTree(n, level)[1..] + WalkSubTree(c, level + 1)
  {
    WalkAllAppend(n.ideas, c, level + 1);
  }

  lemma {:induction false} PreorderAllAppend(cs: seq<Idea>, c: Idea)
    ensures PreorderAll(cs + [c]) == PreorderAll(cs) + Preorder(c)
    decreases |cs|
  {
    if cs == [] {
      assert [c][1..] == [];
    } else {
      assert (cs + [c])[1..] == cs[1..] + [c];
      PreorderAllAppend(cs[1..], c);
    }
  }

  /** Appending a child appends its subtree to the pre-order listing. */
  lemma PreorderAppend(n: Idea, c: Idea)
    ensures Preorder(AppendIdea(n, c))[1..] == Preorder(n)[1..] + Preorder(c)
    ensures Size(AppendIdea(n, c)) == Size(n) + Size(c)
  {
    PreorderAllAppend(n.ideas, c);
  }

  /** The measurement names a node contributes; a root's attribute record has no measurements. */
  function NodeMeasurementNames(n: Idea): set<string>
  {
    if n.root.Some? then {} else Measurements(n).Keys
  }

  /** The names found on a sequence of nodes. */
  function MeasurementNamesIn(nodes: seq<Idea>): set<string>
  {
    if nodes == [] then {}
    else MeasurementNamesIn(nodes[..|nodes| - 1]) + NodeMeasurementNames(nodes[|nodes| - 1])
  }

  /** A name is collected exactly when some node of the sequence carries it. */
  lemma {:induction false} MeasurementNamesInIff(nodes: seq<Idea>, x: string)
    ensures x in MeasurementNamesIn(nodes) <==>
      exists i :: 0 <= i < |nodes| && x in NodeMeasurementNames(nodes[i])
  {
    if nodes != [] {
      var init := nodes[..|nodes| - 1];
      MeasurementNamesInIff(init, x);
      if x in MeasurementNamesIn(init) {
        var i :| 0 <= i < |init| && x in NodeMeasurementNames(init[i]);
        assert nodes[i] == init[i];
      }
      if exists i :: 0 <= i < |nodes| && x in NodeMeasurementNames(nodes[i]) {
        var i :| 0 <= i < |nodes| && x in NodeMeasurementNames(nodes[i]);
        if i < |init| { assert init[i] == nodes[i]; }
      }
    }
  }

  /**
   * The tree after `reorderIds`: ids `first`, `first + 1`, ... in pre-order.
   */
  function Renumber(n: Idea, first: int): Idea
    decreases n, 1
  {
    n.(id := Some(first), ideas := RenumberAll(n.ideas, first + 1))
  }

  function RenumberAll(cs: seq<Idea>, first: int): seq<Idea>
    decreases cs, 0
  {
    if cs == [] then [] else [Renumber(cs[0], first)] + RenumberAll(cs[1..], first + Size(cs[0]))
  }

  /** `after` is `before` with id `id` and renumbered children (same number of them). */
  predicate RenumberedAs(before: Idea, after: Idea, id: int)
  {
    after.id == Some(id) && |after.ideas| == |before.ideas| && after.(id := before.id, ideas := before.ideas) == before
  }

  /** Renumbering gives the i-th visited node the id first + i and changes nothing else of it. */
  lemma {:induction false} RenumberPreorder(n: Idea, first: int)
    ensures |Preorder(Renumber(n, first))| == |Preorder(n)|
    ensures forall i :: 0 <= i < |Preorder(n)| ==>
      RenumberedAs(Preorder(n)[i], Preorder(Renumber(n, first))[i], first + i)
    decreases n, 1
  {
    RenumberAllPreorder(n.ideas, first + 1);
    var r := Renumber(n, first);
    assert Preorder(r) == [r] + PreorderAll(RenumberAll(n.ideas, first + 1));
    forall i | 1 <= i < |Preorder(n)|
      ensures RenumberedAs(Preorder(n)[i], Preorder(r)[i], first + i)
    {
      assert Preorder(n)[i] == PreorderAll(n.ideas)[i - 1];
    }
  }

  lemma {:induction false} RenumberAllPreorder(cs: seq<Idea>, first: int)
    ensures |RenumberAll(cs, first)| == |cs|
    ensures |PreorderAll(RenumberAll(cs, first))| == |PreorderAll(cs)|
    ensures forall i :: 0 <= i < |PreorderAll(cs)| ==>
      RenumberedAs(PreorderAll(cs)[i], PreorderAll(RenumberAll(cs, first))[i], first + i)
    decreases cs, 0
  {
    if cs != [] {
      var rn := RenumberAll(cs, first);
      assert rn[0] == Renumber(cs[0], first) && rn[1..] == RenumberAll(cs[1..], first + Size(cs[0]));
      RenumberPreorder(cs[0], first);
      RenumberAllPreorder(cs[1..], first + Size(cs[0]));
    }
  }
}
