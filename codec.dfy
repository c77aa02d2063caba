/**
 * The wire form read by the MindMup viewer and the two recursive builders
 * between it and the idea tree: `parse_to_mindmup` (tree to nested record,
 * with id assignment and the leaf-collapse rule) and `_parseNodes` (nested
 * record back to a tree).
 *
 * A wire object's `ideas` member is modelled as the ordered list of its
 * (rank, child) entries.
 */
module Codec {
  import opened Wrappers
  import opened Strings
  import opened Ideas

  /** The key under which the root's measurement-name list is built, and the key the viewer reads. */
  const InternalConfigKey := "_measurements_config"
  const WireConfigKey := "measurements-config"

  /** A wire `measurements` member: an object of name/value pairs, or anything else. */
  datatype WireMeasurements = Table(entries: map<string, string>) | Malformed

  /** The root's measurement-name list and the key it is stored under. */
  datatype ConfigEntry = ConfigEntry(key: string, names: seq<string>)

  datatype WireAttr = WireAttr(
    style: Option<Style>,
    collapsed: Option<bool>,
    attachment: Option<Attachment>,
    measurements: Option<WireMeasurements>,
    config: Option<ConfigEntry>)

  /** A wire node; `formatVersion` and `links` are present on a root record only. */
  datatype WireNode = WireNode(
    id: Option<int>,
    title: string,
    attr: Option<WireAttr>,
    ideas: WireIdeas,
    formatVersion: Option<int>,
    links: Option<seq<Link>>)

  datatype WireEntry = WireEntry(rank: string, node: WireNode)

  /** A wire object's `ideas` member: absent, or its entries in listed order. */
  datatype WireIdeas = NoIdeas | Ideas(entries: seq<WireEntry>)

  datatype CodecError = MissingId

  function PlainWireAttr(a: Option<Attributes>): Option<WireAttr>
  {
    if a.None? then None
    else
      var m := if a.value.measurements.Some? then Some(Table(a.value.measurements.value)) else None;
      Some(WireAttr(a.value.style, a.value.collapsed, a.value.attachment, m, None))
  }

  function RootWireAttr(r: RootFields): Option<WireAttr>
  {
    if r.measurementsConfig.None? then None
    else Some(WireAttr(None, None, None, None, Some(ConfigEntry(InternalConfigKey, r.measurementsConfig.value))))
  }

  /** `basefields_to_struct`: the node's own fields, without its children. */
  function BaseFields(n: Idea): WireNode
  {
    if n.root.Some? then
      WireNode(n.id, n.title, RootWireAttr(n.root.value), NoIdeas, n.root.value.formatVersion, Some(n.root.value.links))
    else
      WireNode(n.id, n.title, PlainWireAttr(n.attr), NoIdeas, None, None)
  }

  /**
   * The wire form of a subtree as it stands (no id assignment, no collapse):
   * an `ideas` member only when there are children, child k under rank k + 1.
   */
  function Serialize(n: Idea): (w: WireNode)
    ensures w.(ideas := NoIdeas) == BaseFields(n)
    ensures w.ideas.NoIdeas? <==> |n.ideas| == 0
    ensures w.ideas.Ideas? ==>
              |w.ideas.entries| == |n.ideas| &&
              forall k :: 0 <= k < |n.ideas| ==> w.ideas.entries[k] == WireEntry(NatToString(k + 1), Serialize(n.ideas[k]))
    decreases n, 1
  {
    if |n.ideas| == 0 then BaseFields(n) else BaseFields(n).(ideas := Ideas(SerializeAll(n.ideas, 1)))
  }

  function SerializeAll(cs: seq<Idea>, rank: nat): (es: seq<WireEntry>)
    ensures |es| == |cs|
    ensures forall k :: 0 <= k < |cs| ==> es[k] == WireEntry(NatToString(rank + k), Serialize(cs[k]))
    decreases cs, 0
  {
    if cs == [] then [] else [WireEntry(NatToString(rank), Serialize(cs[0]))] + SerializeAll(cs[1..], rank + 1)
  }

  /** The rank keys of a serialized node with children are pairwise distinct. */
  lemma RankKeysDistinct(n: Idea, j: nat, k: nat)
    requires j < k < |n.ideas|
    ensures Serialize(n).ideas.entries[j].rank != Serialize(n).ideas.entries[k].rank
  {
    if NatToString(j + 1) == NatToString(k + 1) {
      NatToStringInjective(j + 1, k + 1);
    }
  }

  /** The updated node, its wire record, and the counter's next value (None when ids are kept). */
  datatype Encoded = Encoded(node: Idea, wire: WireNode, counter: Option<int>)

  datatype EncodedAll = EncodedAll(nodes: seq<Idea>, entries: seq<WireEntry>, counter: Option<int>)

  /**
   * `parse_to_mindmup(reassignId)`: takes the next id from the counter when
   * there is one, forces `collapsed = False` on a node without children,
   * records the node's own fields, then encodes the children in order under
   * ranks "1", "2", ...
   */
  function ParseToMindmup(n: Idea, counter: Option<int>): (r: Encoded)
    ensures r.node.id == (if counter.Some? then Some(counter.value) else n.id)
    ensures r.node.handle == n.handle && r.node.title == n.title && r.node.root == n.root
    ensures |r.node.ideas| == |n.ideas|
    ensures |n.ideas| == 0 ==> r.wire.ideas.NoIdeas? && r.node.attr.Some? && r.node.attr.value.collapsed == Some(false)
    ensures |n.ideas| == 0 && n.root.None? ==> r.wire.attr.Some? && r.wire.attr.value.collapsed == Some(false)
    ensures |n.ideas| > 0 ==>
              r.wire.ideas.Ideas? && |r.wire.ideas.entries| == |n.ideas| &&
              forall k :: 0 <= k < |n.ideas| ==> r.wire.ideas.entries[k].rank == NatToString(k + 1)
    decreases n, 1
  {
    var withId := if counter.Some? then n.(id := Some(counter.value)) else n;
    var next := if counter.Some? then Some(counter.value + 1) else None;
    var updated := if |n.ideas| == 0 then SetCollapse(withId, false) else withId;
    var mm := BaseFields(updated);
    if |n.ideas| == 0 then Encoded(updated, mm, next)
    else
      var kids := ParseAll(n.ideas, next, 1);
      Encoded(updated.(ideas := kids.nodes), mm.(ideas := Ideas(kids.entries)), kids.counter)
  }

  function ParseAll(cs: seq<Idea>, counter: Option<int>, rank: nat): (r: EncodedAll)
    ensures |r.nodes| == |cs| && |r.entries| == |cs|
    ensures forall k :: 0 <= k < |cs| ==> r.entries[k].rank == NatToString(rank + k)
    decreases cs, 0
  {
    if cs == [] then EncodedAll([], [], counter)
    else
      var first := ParseToMindmup(cs[0], counter);
      var rest := ParseAll(cs[1..], first.counter, rank + 1);
      EncodedAll([first.node] + rest.nodes, [WireEntry(NatToString(rank), first.wire)] + rest.entries, rest.counter)
  }

  /** The record `parse_to_mindmup` returns is the serialization of the node it leaves behind. */
  lemma {:induction false} EncodeSerializes(n: Idea, counter: Option<int>)
    ensures ParseToMindmup(n, counter).wire == Serialize(ParseToMindmup(n, counter).node)
    decreases n, 1
  {
    if |n.ideas| > 0 {
      var next := if counter.Some? then Some(counter.value + 1) else None;
      EncodeAllSerializes(n.ideas, next, 1);
    }
  }

  lemma {:induction false} EncodeAllSerializes(cs: seq<Idea>, counter: Option<int>, rank: nat)
    ensures ParseAll(cs, counter, rank).entries == SerializeAll(ParseAll(cs, counter, rank).nodes, rank)
    decreases cs, 0
  {
    if cs != [] {
      var first := ParseToMindmup(cs[0], counter);
      EncodeSerializes(cs[0], counter);
      EncodeAllSerializes(cs[1..], first.counter, rank + 1);
      var r := ParseAll(cs, counter, rank);
      assert r.nodes[1..] == ParseAll(cs[1..], first.counter, rank + 1).nodes;
    }
  }

  /** The id the i-th visited node gets: counter + i, or its own id when ids are kept. */
  function IdAt(before: Idea, counter: Option<int>, i: nat): Option<int>
  {
    if counter.Some? then Some(counter.value + i) else before.id
  }

  /**
   * `after` is `before` with id `id`, collapsed when it has no children, and
   * encoded children (as many); nothing else of it changes.
   */
  predicate EncodedAs(before: Idea, after: Idea, id: Option<int>)
  {
    && after.id == id
    && |after.ideas| == |before.ideas|
    && after.(id := before.id, ideas := before.ideas) == (if |before.ideas| == 0 then SetCollapse(before, false) else before)
  }

  /**
   * `after` is the tree `parse_to_mindmup(counter)` leaves of `before`,
   * node by node in pre-order: the i-th node takes the id `IdAt(.., i)`,
   * a node without children is left uncollapsed, and nothing else changes.
   */
  predicate EncodedTree(before: Idea, after: Idea, counter: Option<int>)
  {
    && |Preorder(after)| == |Preorder(before)|
    && forall i :: 0 <= i < |Preorder(before)| ==>
         EncodedAs(Preorder(before)[i], Preorder(after)[i], IdAt(Preorder(before)[i], counter, i))
  }

  /** Encoding keeps every node's handle, title and measurements. */
  lemma EncodedKeepsContent(before: Idea, after: Idea, counter: Option<int>, i: nat)
    requires EncodedTree(before, after, counter) && i < |Preorder(before)|
    ensures Preorder(after)[i].handle == Preorder(before)[i].handle
    ensures Preorder(after)[i].title == Preorder(before)[i].title
    ensures Measurements(Preorder(after)[i]) == Measurements(Preorder(before)[i])
  {
    var b := Preorder(before)[i];
    var a := Preorder(after)[i];
    assert EncodedAs(b, a, IdAt(b, counter, i));
    assert a.(id := b.id, ideas := b.ideas).attr == a.attr;
  }

  /** Giving both trees the same root fields keeps one the encoding of the other. */
  lemma EncodedTreeWithRoot(before: Idea, after: Idea, counter: Option<int>, rf: Option<RootFields>)
    requires EncodedTree(before, after, counter)
    ensures EncodedTree(before.(root := rf), after.(root := rf), counter)
  {
    var b := before.(root := rf);
    var a := after.(root := rf);
    assert Preorder(b) == [b] + PreorderAll(before.ideas);
    assert Preorder(before) == [before] + PreorderAll(before.ideas);
    assert Preorder(a) == [a] + PreorderAll(after.ideas);
    assert Preorder(after) == [after] + PreorderAll(after.ideas);
    assert EncodedAs(before, after, IdAt(before, counter, 0));
    forall i | 0 < i < |Preorder(b)|
      ensures Preorder(b)[i] == Preorder(before)[i] && Preorder(a)[i] == Preorder(after)[i]
    {
    }
  }

  function Advance(counter: Option<int>, steps: nat): Option<int>
  {
    if counter.Some? then Some(counter.value + steps) else None
  }

  /**
   * With a counter, the i-th node in pre-order gets id counter + i, and the
   * counter advances by the size of the tree; without one ids are kept.
   * Every node keeps its handle, title, attributes and root fields, except
   * that a node without children ends with `collapsed == False`.
   */
  lemma {:induction false} EncodePreorder(n: Idea, counter: Option<int>)
    ensures ParseToMindmup(n, counter).counter == Advance(counter, Size(n))
    ensures |Preorder(ParseToMindmup(n, counter).node)| == |Preorder(n)|
    ensures forall i :: 0 <= i < |Preorder(n)| ==>
      EncodedAs(Preorder(n)[i], Preorder(ParseToMindmup(n, counter).node)[i], IdAt(Preorder(n)[i], counter, i))
    decreases n, 1
  {
    var r := ParseToMindmup(n, counter);
    var next := Advance(counter, 1);
    if |n.ideas| == 0 {
      assert Preorder(n) == [n];
      assert Preorder(r.node) == [r.node];
    } else {
      EncodeAllPreorder(n.ideas, next);
      var kids := ParseAll(n.ideas, next, 1);
      assert r.node.ideas == kids.nodes;
      assert Preorder(r.node) == [r.node] + PreorderAll(kids.nodes);
      assert EncodedAs(n, r.node, IdAt(n, counter, 0));
      EncodedConcat([n], [r.node], PreorderAll(n.ideas), PreorderAll(kids.nodes), counter, next);
    }
  }

  lemma {:induction false} EncodeAllPreorder(cs: seq<Idea>, counter: Option<int>)
    ensures forall rank: nat :: ParseAll(cs, counter, rank).nodes == ParseAll(cs, counter, 1).nodes
    ensures forall rank: nat :: ParseAll(cs, counter, rank).counter == Advance(counter, |PreorderAll(cs)|)
    ensures |PreorderAll(ParseAll(cs, counter, 1).nodes)| == |PreorderAll(cs)|
    ensures forall i :: 0 <= i < |PreorderAll(cs)| ==>
      EncodedAs(PreorderAll(cs)[i], PreorderAll(ParseAll(cs, counter, 1).nodes)[i], IdAt(PreorderAll(cs)[i], counter, i))
    decreases cs, 0
  {
    if cs != [] {
      var first := ParseToMindmup(cs[0], counter);
      EncodePreorder(cs[0], counter);
      EncodeAllPreorder(cs[1..], first.counter);
      EncodeAllRanks(cs, counter);
      EncodeAllJoin(cs, counter);
    }
  }

  /** The ids and the final counter of a sibling list do not depend on the rank it starts at. */
  lemma EncodeAllRanks(cs: seq<Idea>, counter: Option<int>)
    requires cs != []
    requires ParseToMindmup(cs[0], counter).counter == Advance(counter, Size(cs[0]))
    requires var c := ParseToMindmup(cs[0], counter).counter;
      forall rank: nat :: ParseAll(cs[1..], c, rank).nodes == ParseAll(cs[1..], c, 1).nodes
    requires var c := ParseToMindmup(cs[0], counter).counter;
      forall rank: nat :: ParseAll(cs[1..], c, rank).counter == Advance(c, |PreorderAll(cs[1..])|)
    ensures forall rank: nat :: ParseAll(cs, counter, rank).nodes == ParseAll(cs, counter, 1).nodes
    ensures forall rank: nat :: ParseAll(cs, counter, rank).counter == Advance(counter, |PreorderAll(cs)|)
  {
    var first := ParseToMindmup(cs[0], counter);
    forall rank: nat
      ensures ParseAll(cs, counter, rank).nodes == ParseAll(cs, counter, 1).nodes
      ensures ParseAll(cs, counter, rank).counter == Advance(counter, |PreorderAll(cs)|)
    {
      assert ParseAll(cs[1..], first.counter, rank + 1).nodes == ParseAll(cs[1..], first.counter, 1).nodes;
      assert ParseAll(cs[1..], first.counter, 2).nodes == ParseAll(cs[1..], first.counter, 1).nodes;
      assert ParseAll(cs[1..], first.counter, rank + 1).counter == Advance(first.counter, |PreorderAll(cs[1..])|);
    }
  }

  /** The pre-order of an encoded sibling list is the first sibling's followed by the rest's. */
  lemma EncodeAllJoin(cs: seq<Idea>, counter: Option<int>)
    requires cs != []
    requires var first := ParseToMindmup(cs[0], counter);
      && first.counter == Advance(counter, Size(cs[0]))
      && |Preorder(first.node)| == |Preorder(cs[0])|
      && forall i :: 0 <= i < |Preorder(cs[0])| ==>
        EncodedAs(Preorder(cs[0])[i], Preorder(first.node)[i], IdAt(Preorder(cs[0])[i], counter, i))
    requires var c := ParseToMindmup(cs[0], counter).counter;
      && ParseAll(cs[1..], c, 2).nodes == ParseAll(cs[1..], c, 1).nodes
      && |PreorderAll(ParseAll(cs[1..], c, 1).nodes)| == |PreorderAll(cs[1..])|
      && forall i :: 0 <= i < |PreorderAll(cs[1..])| ==>
        EncodedAs(PreorderAll(cs[1..])[i], PreorderAll(ParseAll(cs[1..], c, 1).nodes)[i], IdAt(PreorderAll(cs[1..])[i], c, i))
    ensures |PreorderAll(ParseAll(cs, counter, 1).nodes)| == |PreorderAll(cs)|
    ensures forall i :: 0 <= i < |PreorderAll(cs)| ==>
      EncodedAs(PreorderAll(cs)[i], PreorderAll(ParseAll(cs, counter, 1).nodes)[i], IdAt(PreorderAll(cs)[i], counter, i))
  {
    var first := ParseToMindmup(cs[0], counter);
    var nodes := ParseAll(cs, counter, 1).nodes;
    assert nodes[0] == first.node && nodes[1..] == ParseAll(cs[1..], first.counter, 1).nodes;
    assert PreorderAll(cs) == Preorder(cs[0]) + PreorderAll(cs[1..]);
    assert PreorderAll(nodes) == Preorder(first.node) + PreorderAll(nodes[1..]);
    EncodedConcat(Preorder(cs[0]), Preorder(first.node), PreorderAll(cs[1..]), PreorderAll(nodes[1..]), counter, first.counter);
  }

  /** Encoding two runs of nodes, the second numbered on from where the first stopped, encodes the whole run. */
  lemma EncodedConcat(a: seq<Idea>, a2: seq<Idea>, b: seq<Idea>, b2: seq<Idea>, counter: Option<int>, next: Option<int>)
    requires |a| == |a2| && |b| == |b2| && next == Advance(counter, |a|)
    requires forall i :: 0 <= i < |a| ==> EncodedAs(a[i], a2[i], IdAt(a[i], counter, i))
    requires forall j :: 0 <= j < |b| ==> EncodedAs(b[j], b2[j], IdAt(b[j], next, j))
    ensures forall i :: 0 <= i < |a + b| ==> EncodedAs((a + b)[i], (a2 + b2)[i], IdAt((a + b)[i], counter, i))
  {
    forall i | 0 <= i < |a + b|
      ensures EncodedAs((a + b)[i], (a2 + b2)[i], IdAt((a + b)[i], counter, i))
    {
      if i >= |a| {
        var j := i - |a|;
        assert (a + b)[i] == b[j] && (a2 + b2)[i] == b2[j];
        assert IdAt(b[j], next, j) == IdAt(b[j], counter, i);
      }
    }
  }

  /**
   * With a counter, `parse_to_mindmup` numbers the tree first, first + 1, ...
   * in walk order (so the ids are pairwise distinct), and every node without
   * children is left with `collapsed == False`.
   */
  lemma NumbersAndCollapses(n: Idea, first: int)
    ensures var t := ParseToMindmup(n, Some(first)).node;
      |Preorder(t)| == Size(n) &&
      (forall i :: 0 <= i < |Preorder(t)| ==> Preorder(t)[i].id == Some(first + i)) &&
      (forall i :: 0 <= i < |Preorder(t)| ==> Preorder(t)[i].handle == Preorder(n)[i].handle) &&
      (forall i :: 0 <= i < |Preorder(t)| && |Preorder(t)[i].ideas| == 0 ==>
         Preorder(t)[i].attr.Some? && Preorder(t)[i].attr.value.collapsed == Some(false))
  {
    EncodePreorder(n, Some(first));
    var t := ParseToMindmup(n, Some(first)).node;
    forall i | 0 <= i < |Preorder(t)|
      ensures Preorder(t)[i].handle == Preorder(n)[i].handle
      ensures |Preorder(t)[i].ideas| == 0 ==> Preorder(t)[i].attr.Some? && Preorder(t)[i].attr.value.collapsed == Some(false)
    {
      assert EncodedAs(Preorder(n)[i], Preorder(t)[i], Some(first + i));
    }
  }

  /** Every node of the subtree has no children only if it is not collapsed. */
  predicate LeavesUncollapsed(n: Idea)
  {
    forall x :: x in Preorder(n) && |x.ideas| == 0 ==> x.attr.Some? && x.attr.value.collapsed == Some(false)
  }

  /**
   * After `parse_to_mindmup`, with or without a counter, no node without
   * children is collapsed, and every node keeps its handle in pre-order.
   */
  lemma EncodeUncollapsesLeaves(n: Idea, counter: Option<int>)
    ensures LeavesUncollapsed(ParseToMindmup(n, counter).node)
    ensures |Preorder(ParseToMindmup(n, counter).node)| == |Preorder(n)|
    ensures forall i :: 0 <= i < |Preorder(n)| ==>
      Preorder(ParseToMindmup(n, counter).node)[i].handle == Preorder(n)[i].handle
  {
    EncodePreorder(n, counter);
    var t := ParseToMindmup(n, counter).node;
    forall i | 0 <= i < |Preorder(t)|
      ensures |Preorder(t)[i].ideas| == 0 ==> Preorder(t)[i].attr.Some? && Preorder(t)[i].attr.value.collapsed == Some(false)
      ensures Preorder(t)[i].handle == Preorder(n)[i].handle
    {
      assert EncodedAs(Preorder(n)[i], Preorder(t)[i], IdAt(Preorder(n)[i], counter, i));
    }
    forall x | x in Preorder(t) && |x.ideas| == 0
      ensures x.attr.Some? && x.attr.value.collapsed == Some(false)
    {
      var i :| 0 <= i < |Preorder(t)| && Preorder(t)[i] == x;
    }
  }

  /**
   * Encoding without a counter changes nothing on a tree whose ids are set
   * and whose leaves are not collapsed: the second `parse_to_mindmup` of
   * `to_mindmup` leaves the tree as the first one made it.
   */
  lemma EncodeKeepsPrepared(n: Idea)
    requires LeavesUncollapsed(n)
    ensures ParseToMindmup(n, None).node == n
  {
    EncodePreorder(n, None);
    var t := ParseToMindmup(n, None).node;
    forall i | 0 <= i < |Preorder(n)|
      ensures Preorder(t)[i].(ideas := []) == Preorder(n)[i].(ideas := [])
    {
      var x := Preorder(n)[i];
      assert EncodedAs(x, Preorder(t)[i], x.id);
      if |x.ideas| == 0 {
        assert x in Preorder(n);
        assert SetCollapse(x, false) == x;
      }
    }
    PreorderLocalEq(t, n);
  }

  /** Two trees with the same shape and the same nodes in pre-order (children aside) are equal. */
  lemma {:induction false} PreorderLocalEq(a: Idea, b: Idea)
    requires |Preorder(a)| == |Preorder(b)|
    requires forall i :: 0 <= i < |Preorder(a)| ==>
      |Preorder(a)[i].ideas| == |Preorder(b)[i].ideas| && Preorder(a)[i].(ideas := []) == Preorder(b)[i].(ideas := [])
    ensures a == b
    decreases a, 1
  {
    assert Preorder(a)[0] == a && Preorder(b)[0] == b;
    forall i | 0 <= i < |PreorderAll(a.ideas)|
      ensures |PreorderAll(a.ideas)[i].ideas| == |PreorderAll(b.ideas)[i].ideas|
      ensures PreorderAll(a.ideas)[i].(ideas := []) == PreorderAll(b.ideas)[i].(ideas := [])
    {
      assert PreorderAll(a.ideas)[i] == Preorder(a)[i + 1];
      assert PreorderAll(b.ideas)[i] == Preorder(b)[i + 1];
    }
    PreorderAllLocalEq(a.ideas, b.ideas);
    assert a.(ideas := []) == b.(ideas := []);
  }

  lemma {:induction false} PreorderAllLocalEq(as_: seq<Idea>, bs: seq<Idea>)
    requires |as_| == |bs|
    requires |PreorderAll(as_)| == |PreorderAll(bs)|
    requires forall i :: 0 <= i < |PreorderAll(as_)| ==>
      |PreorderAll(as_)[i].ideas| == |PreorderAll(bs)[i].ideas| &&
      PreorderAll(as_)[i].(ideas := []) == PreorderAll(bs)[i].(ideas := [])
    ensures as_ == bs
    decreases as_, 0
  {
    if as_ != [] {
      var pa, pb := Preorder(as_[0]), Preorder(bs[0]);
      var ra, rb := PreorderAll(as_[1..]), PreorderAll(bs[1..]);
      assert PreorderAll(as_) == pa + ra && PreorderAll(bs) == pb + rb;
      ShapesAgree(as_[0], bs[0], ra, rb);
      forall i | 0 <= i < |pa|
        ensures |pa[i].ideas| == |pb[i].ideas| && pa[i].(ideas := []) == pb[i].(ideas := [])
      {
        assert pa[i] == PreorderAll(as_)[i] && pb[i] == PreorderAll(bs)[i];
      }
      PreorderLocalEq(as_[0], bs[0]);
      forall i | 0 <= i < |ra|
        ensures |ra[i].ideas| == |rb[i].ideas| && ra[i].(ideas := []) == rb[i].(ideas := [])
      {
        assert ra[i] == PreorderAll(as_)[|pa| + i] && rb[i] == PreorderAll(bs)[|pa| + i];
      }
      PreorderAllLocalEq(as_[1..], bs[1..]);
      assert as_ == [as_[0]] + as_[1..] && bs == [bs[0]] + bs[1..];
    }
  }

  /**
   * A subtree whose pre-order listing starts like another's, child counts
   * equal node by node, has the same size.
   */
  lemma {:induction false} ShapesAgree(a: Idea, b: Idea, ra: seq<Idea>, rb: seq<Idea>)
    requires |Preorder(a) + ra| == |Preorder(b) + rb|
    requires forall i :: 0 <= i < |Preorder(a) + ra| ==> |(Preorder(a) + ra)[i].ideas| == |(Preorder(b) + rb)[i].ideas|
    ensures |Preorder(a)| == |Preorder(b)|
    decreases a, 1
  {
    assert (Preorder(a) + ra)[0] == a && (Preorder(b) + rb)[0] == b;
    assert Preorder(a) + ra == [a] + (PreorderAll(a.ideas) + ra);
    assert Preorder(b) + rb == [b] + (PreorderAll(b.ideas) + rb);
    forall i | 0 <= i < |PreorderAll(a.ideas) + ra|
      ensures |(PreorderAll(a.ideas) + ra)[i].ideas| == |(PreorderAll(b.ideas) + rb)[i].ideas|
    {
      assert (PreorderAll(a.ideas) + ra)[i] == (Preorder(a) + ra)[i + 1];
      assert (PreorderAll(b.ideas) + rb)[i] == (Preorder(b) + rb)[i + 1];
    }
    ShapesAgreeAll(a.ideas, b.ideas, ra, rb);
  }

  lemma {:induction false} ShapesAgreeAll(as_: seq<Idea>, bs: seq<Idea>, ra: seq<Idea>, rb: seq<Idea>)
    requires |as_| == |bs|
    requires |PreorderAll(as_) + ra| == |PreorderAll(bs) + rb|
    requires forall i :: 0 <= i < |PreorderAll(as_) + ra| ==>
      |(PreorderAll(as_) + ra)[i].ideas| == |(PreorderAll(bs) + rb)[i].ideas|
    ensures |PreorderAll(as_)| == |PreorderAll(bs)|
    decreases as_, 0
  {
    if as_ != [] {
      var ta, tb := PreorderAll(as_[1..]) + ra, PreorderAll(bs[1..]) + rb;
      assert PreorderAll(as_) + ra == Preorder(as_[0]) + ta;
      assert PreorderAll(bs) + rb == Preorder(bs[0]) + tb;
      ShapesAgree(as_[0], bs[0], ta, tb);
      var k := |Preorder(as_[0])|;
      forall i | 0 <= i < |ta|
        ensures |ta[i].ideas| == |tb[i].ideas|
      {
        assert ta[i] == (PreorderAll(as_) + ra)[k + i];
        assert tb[i] == (PreorderAll(bs) + rb)[k + i];
      }
      assert PreorderAll(as_[1..]) + ra == ta && PreorderAll(bs[1..]) + rb == tb;
      ShapesAgreeAll(as_[1..], bs[1..], ra, rb);
    }
  }

  /** Whether every record of a wire subtree has an `id` member (the decoder reads `node['id']`). */
  predicate IdsPresent(w: WireNode)
    decreases w, 1
  {
    w.id.Some? &&
    match w.ideas
    case NoIdeas => true
    case Ideas(es) => EntriesIdsPresent(es)
  }

  predicate EntriesIdsPresent(es: seq<WireEntry>)
    decreases es, 0
  {
    es == [] || (IdsPresent(es[0].node) && EntriesIdsPresent(es[1..]))
  }

  /**
   * The attribute record the plain constructor builds from a wire `attr`:
   * an object-valued `measurements` member becomes an empty measurement
   * record (its entries are replayed afterwards); anything else is dropped.
   */
  function AttrFromWire(a: Option<WireAttr>): Option<Attributes>
  {
    if a.None? then None
    else
      var m := if a.value.measurements.Some? && a.value.measurements.value.Table? then Some(map[]) else None;
      Some(Attributes(a.value.style, a.value.collapsed, a.value.attachment, m))
  }

  /** The measurement table a wire `attr` offers for replay, if any. */
  function WireTable(a: Option<WireAttr>): Option<map<string, string>>
  {
    if a.Some? && a.value.measurements.Some? && a.value.measurements.value.Table? then
      Some(a.value.measurements.value.entries)
    else None
  }

  /**
   * `BaseIdea(**node)` followed by the guarded replay of `addMeasure` over
   * `attr.measurements`: a missing or malformed member is skipped, never fatal.
   */
  function PlainFromWire(w: WireNode, h: Handle): Idea
  {
    var node := Idea(h, w.title, w.id, AttrFromWire(w.attr), [], None);
    var table := WireTable(w.attr);
    if table.Some? then OverlayMeasurements(node, table.value) else node
  }

  /**
   * `MindMupRootNode(**node)`: only the root attribute record's own list is
   * read (under its internal key); measurement replay on it always fails and
   * is skipped.
   */
  function RootFromWire(w: WireNode, h: Handle): Idea
  {
    var config :=
      if w.attr.None? then None
      else if w.attr.value.config.Some? && w.attr.value.config.value.key == InternalConfigKey then
        Some(w.attr.value.config.value.names)
      else Some([]);
    var links := if w.links.Some? then w.links.value else [];
    Idea(h, w.title, w.id, None, [], Some(RootFields(w.formatVersion, links, config)))
  }

  /** The childless node a wire record describes: the root variant for id 1. */
  function NodeFromWire(w: WireNode, h: Handle): (r: Idea)
    requires w.id.Some?
    ensures r.handle == h && r.id == w.id && r.title == w.title && r.ideas == []
    ensures r.root.Some? <==> w.id.value == 1
  {
    if w.id.value == 1 then RootFromWire(w, h) else PlainFromWire(w, h)
  }

  datatype Decoded = Decoded(node: Idea, next: Handle)

  datatype DecodedAll = DecodedAll(nodes: seq<Idea>, next: Handle)

  /**
   * `_parseNodes`: takes the children out first (none when `ideas` is
   * missing), builds the root variant for id 1 and a plain node otherwise,
   * then decodes each entry into one child, in order. New nodes get handles
   * h, h + 1, ... in pre-order; a record without `id` fails.
   */
  function ParseNodes(w: WireNode, h: Handle): (r: Result<Decoded, CodecError>)
    ensures r.Ok? <==> IdsPresent(w)
    ensures r.Ok? ==>
              var d := r.value;
              d.node.handle == h && d.node.id == w.id && d.node.title == w.title &&
              (d.node.root.Some? <==> w.id == Some(1)) &&
              |d.node.ideas| == (if w.ideas.Ideas? then |w.ideas.entries| else 0) &&
              d.next == h + Size(d.node)
    decreases w, 1
  {
    if w.id.None? then Err(MissingId)
    else
      var node := NodeFromWire(w, h);
      match w.ideas
      case NoIdeas =>
        assert Preorder(node) == [node] + PreorderAll([]);
        Ok(Decoded(node, h + 1))
      case Ideas(children) =>
        match ParseEntries(children, h + 1)
        case Err(e) => Err(e)
        case Ok(kids) => Ok(Decoded(node.(ideas := kids.nodes), kids.next))
  }

  function ParseEntries(es: seq<WireEntry>, h: Handle): (r: Result<DecodedAll, CodecError>)
    ensures r.Ok? <==> EntriesIdsPresent(es)
    ensures r.Ok? ==> |r.value.nodes| == |es| && r.value.next == h + |PreorderAll(r.value.nodes)|
    decreases es, 0
  {
    if es == [] then Ok(DecodedAll([], h))
    else
      match ParseNodes(es[0].node, h)
      case Err(e) => Err(e)
      case Ok(first) =>
        match ParseEntries(es[1..], first.next)
        case Err(e) => Err(e)
        case Ok(rest) =>
          assert PreorderAll([first.node] + rest.nodes) == Preorder(first.node) + PreorderAll(rest.nodes) by {
            assert ([first.node] + rest.nodes)[1..] == rest.nodes;
          }
          Ok(DecodedAll([first.node] + rest.nodes, rest.next))
  }

  /** Decoded nodes get consecutive handles in pre-order, so no two share one. */
  lemma {:induction false} DecodeHandles(w: WireNode, h: Handle)
    requires ParseNodes(w, h).Ok?
    ensures forall i :: 0 <= i < |Preorder(ParseNodes(w, h).value.node)| ==>
      Preorder(ParseNodes(w, h).value.node)[i].handle == h + i
    decreases w, 1
  {
    var t := ParseNodes(w, h).value.node;
    match w.ideas {
      case NoIdeas =>
        assert Preorder(t) == [t] + PreorderAll([]);
      case Ideas(children) =>
        var kids := ParseEntries(children, h + 1).value;
        DecodeAllHandles(children, h + 1);
        assert t.ideas == kids.nodes;
        assert Preorder(t) == [t] + PreorderAll(kids.nodes);
    }
  }

  lemma {:induction false} DecodeAllHandles(es: seq<WireEntry>, h: Handle)
    requires ParseEntries(es, h).Ok?
    ensures forall i :: 0 <= i < |PreorderAll(ParseEntries(es, h).value.nodes)| ==>
      PreorderAll(ParseEntries(es, h).value.nodes)[i].handle == h + i
    decreases es, 0
  {
    if es != [] {
      var first := ParseNodes(es[0].node, h).value;
      DecodeHandles(es[0].node, h);
      DecodeAllHandles(es[1..], first.next);
      var nodes := ParseEntries(es, h).value.nodes;
      assert nodes[1..] == ParseEntries(es[1..], first.next).value.nodes;
      assert PreorderAll(nodes) == Preorder(first.node) + PreorderAll(nodes[1..]);
    }
  }

  /** The tree with handles h, h + 1, ... given in pre-order. */
  function Rehandle(n: Idea, h: Handle): Idea
    decreases n, 1
  {
    n.(handle := h, ideas := RehandleAll(n.ideas, h + 1))
  }

  function RehandleAll(cs: seq<Idea>, h: Handle): seq<Idea>
    decreases cs, 0
  {
    if cs == [] then [] else [Rehandle(cs[0], h)] + RehandleAll(cs[1..], h + Size(cs[0]))
  }

  /**
   * A node survives the wire unchanged when it has an id, is the root
   * variant exactly when its id is 1, and (as a root) has no plain
   * attributes, which the root's wire form does not carry.
   */
  predicate NodeRoundTrips(x: Idea)
  {
    x.id.Some? && (x.id.value == 1 <==> x.root.Some?) && (x.root.Some? ==> x.attr.None?)
  }

  predicate RoundTrippable(n: Idea)
  {
    forall x :: x in Preorder(n) ==> NodeRoundTrips(x)
  }

  /**
   * Decoding the wire form of a tree gives the tree back, with fresh handles
   * h, h + 1, ... in pre-order: titles, ids, attributes, measurements, child
   * order and root fields all survive.
   */
  lemma {:induction false} DecodeSerialize(n: Idea, h: Handle)
    requires RoundTrippable(n)
    ensures ParseNodes(Serialize(n), h) == Ok(Decoded(Rehandle(n, h), h + Size(n)))
    decreases n, 1
  {
    var w := Serialize(n);
    assert Preorder(n) == [n] + PreorderAll(n.ideas);
    NodeFromSerialized(n, h);
    DecodeSerializeAll(n.ideas, 1, h + 1);
    if |n.ideas| == 0 {
      assert RehandleAll(n.ideas, h + 1) == [];
    }
  }

  /** One record's own fields survive the wire. */
  lemma NodeFromSerialized(n: Idea, h: Handle)
    requires NodeRoundTrips(n)
    ensures NodeFromWire(Serialize(n), h) == n.(handle := h, ideas := [])
  {
    if n.root.None? && n.attr.Some? && n.attr.value.measurements.Some? {
      assert map[] + n.attr.value.measurements.value == n.attr.value.measurements.value;
    }
  }

  lemma {:induction false} DecodeSerializeAll(cs: seq<Idea>, rank: nat, h: Handle)
    requires forall x :: x in PreorderAll(cs) ==> NodeRoundTrips(x)
    ensures ParseEntries(SerializeAll(cs, rank), h) == Ok(DecodedAll(RehandleAll(cs, h), h + |PreorderAll(cs)|))
    decreases cs, 0
  {
    if cs != [] {
      var es := SerializeAll(cs, rank);
      assert PreorderAll(cs) == Preorder(cs[0]) + PreorderAll(cs[1..]);
      assert RoundTrippable(cs[0]);
      assert es[0].node == Serialize(cs[0]);
      assert es[1..] == SerializeAll(cs[1..], rank + 1);
      DecodeSerialize(cs[0], h);
      DecodeSerializeAll(cs[1..], rank + 1, h + Size(cs[0]));
      ParseEntriesCons(es, h);
    }
  }

  /** Decoding a non-empty entry list is decoding its head, then its tail from the next handle. */
  lemma ParseEntriesCons(es: seq<WireEntry>, h: Handle)
    requires es != [] && ParseNodes(es[0].node, h).Ok?
    requires ParseEntries(es[1..], ParseNodes(es[0].node, h).value.next).Ok?
    ensures ParseEntries(es, h) ==
      var first := ParseNodes(es[0].node, h).value;
      var rest := ParseEntries(es[1..], first.next).value;
      Ok(DecodedAll([first.node] + rest.nodes, rest.next))
  {
  }

  /**
   * `to_mindmup`'s last step: the root record's measurement-name list moves
   * from the key it is built under to the key the viewer reads; every other
   * part of the record stays as it is.
   */
  function RenameConfig(w: WireNode): (r: WireNode)
    ensures r.(attr := w.attr) == w
    ensures w.attr.Some? <==> r.attr.Some?
    ensures w.attr.Some? ==> r.attr.value.(config := w.attr.value.config) == w.attr.value
    ensures w.attr.Some? && w.attr.value.config.Some? ==>
              r.attr.value.config.Some? && r.attr.value.config.value.names == w.attr.value.config.value.names &&
              (w.attr.value.config.value.key == InternalConfigKey ==> r.attr.value.config.value.key == WireConfigKey)
  {
    if w.attr.Some? && w.attr.value.config.Some? && w.attr.value.config.value.key == InternalConfigKey then
      w.(attr := Some(w.attr.value.(config := Some(ConfigEntry(WireConfigKey, w.attr.value.config.value.names)))))
    else w
  }
}
