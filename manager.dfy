/**
 * `MindMupManager`: the root of a mind map together with its id table and
 * its link registry. The manager is itself the root node; `root` holds its
 * node fields (title, id, children and the root-only fields).
 */
module Manager {
  import opened Wrappers
  import opened Strings
  import opened Ideas
  import opened Codec
  import opened Links
  import opened IdTable

  /** The root's measurement-name list, empty when the root has none yet. */
  function RootConfig(n: Idea): seq<string>
  {
    if n.root.Some? && n.root.value.measurementsConfig.Some? then n.root.value.measurementsConfig.value else []
  }

  /** The links stored on the root. */
  function RootLinks(n: Idea): seq<Link>
  {
    if n.root.Some? then n.root.value.links else []
  }

  /** The first walked node with the given handle, if any. */
  function NodeWithHandle(nodes: seq<Idea>, h: Handle): (r: Option<Idea>)
    ensures r.Some? <==> exists i :: 0 <= i < |nodes| && nodes[i].handle == h
    ensures r.Some? ==> exists i :: 0 <= i < |nodes| && nodes[i] == r.value && r.value.handle == h
  {
    if nodes == [] then None
    else if nodes[0].handle == h then Some(nodes[0])
    else
      var r := NodeWithHandle(nodes[1..], h);
      assert forall i :: 0 < i < |nodes| ==> nodes[i] == nodes[1..][i - 1];
      if r.Some? then
        var j :| 0 <= j < |nodes[1..]| && nodes[1..][j] == r.value && r.value.handle == h;
        assert nodes[j + 1] == r.value;
        r
      else r
  }

  /**
   * The id `idea.id` reads for a link endpoint: the id of the endpoint node
   * in the tree. An endpoint that is not in the tree, or has no id, cannot
   * be exported.
   */
  function EndpointId(nodes: seq<Idea>, h: Handle): (r: Result<int, ManagerError>)
    ensures r.Ok? <==> NodeWithHandle(nodes, h).Some? && NodeWithHandle(nodes, h).value.id.Some?
    ensures r.Ok? ==> exists i :: 0 <= i < |nodes| && nodes[i].handle == h && nodes[i].id == Some(r.value)
  {
    match NodeWithHandle(nodes, h)
    case None => Err(EndpointNotInTree(h))
    case Some(n) => if n.id.None? then Err(EndpointWithoutId(h)) else Ok(n.id.value)
  }

  /**
   * `updateLinkList`'s loop: one link per registry entry, in registry
   * order, from the endpoints' ids. The link is built without a style, so
   * it carries the default one whatever style the entry holds.
   */
  function ResolveLinks(nodes: seq<Idea>, reg: seq<LinkEntry>): (r: Result<seq<Link>, ManagerError>)
    ensures r.Ok? <==> forall k :: 0 <= k < |reg| ==> EndpointId(nodes, reg[k].from).Ok? && EndpointId(nodes, reg[k].to).Ok?
    ensures r.Ok? ==> |r.value| == |reg|
    ensures r.Ok? ==> forall k :: 0 <= k < |reg| ==>
      r.value[k] == Link(EndpointId(nodes, reg[k].from).value, EndpointId(nodes, reg[k].to).value, DefaultLinkStyle)
  {
    if reg == [] then Ok([])
    else
      var last := reg[|reg| - 1];
      var init := reg[..|reg| - 1];
      assert forall k :: 0 <= k < |init| ==> init[k] == reg[k];
      match ResolveLinks(nodes, init)
      case Err(e) => Err(e)
      case Ok(links) =>
        match EndpointId(nodes, last.from)
        case Err(e) => Err(e)
        case Ok(a) =>
          match EndpointId(nodes, last.to)
          case Err(e) => Err(e)
          case Ok(b) => Ok(links + [Link(a, b, DefaultLinkStyle)])
  }

  /** Both endpoints of the entry have an id in the tree. */
  predicate Resolves(nodes: seq<Idea>, e: LinkEntry)
  {
    EndpointId(nodes, e.from).Ok? && EndpointId(nodes, e.to).Ok?
  }

  /** The number of registry entries before the first one that does not resolve. */
  function FirstUnresolved(nodes: seq<Idea>, reg: seq<LinkEntry>): (k: nat)
    ensures k <= |reg|
    ensures forall j :: 0 <= j < k ==> Resolves(nodes, reg[j])
    ensures k < |reg| ==> !Resolves(nodes, reg[k])
  {
    if reg == [] || !Resolves(nodes, reg[0]) then 0
    else
      var k := FirstUnresolved(nodes, reg[1..]);
      assert forall j :: 1 <= j < k + 1 ==> reg[j] == reg[1..][j - 1];
      k + 1
  }

  /**
   * The links `updateLinkList` leaves on the root: the list is emptied and
   * then filled one registry entry at a time, so when an entry cannot be
   * resolved the root keeps the links of the entries before it, and
   * otherwise all of them.
   */
  function ResolvedPrefix(nodes: seq<Idea>, reg: seq<LinkEntry>): (r: seq<Link>)
    ensures |r| == FirstUnresolved(nodes, reg) && ResolveLinks(nodes, reg[..|r|]) == Ok(r)
    ensures ResolveLinks(nodes, reg).Ok? ==> r == ResolveLinks(nodes, reg).value
  {
    var k := FirstUnresolved(nodes, reg);
    assert forall j :: 0 <= j < k ==> reg[..k][j] == reg[j];
    assert k == |reg| ==> reg[..k] == reg;
    ResolveLinks(nodes, reg[..k]).value
  }

  /** When the first k entries resolve to `links` and entry k does not, `links` is the resolvable prefix's links. */
  lemma PrefixBeforeUnresolved(nodes: seq<Idea>, reg: seq<LinkEntry>, k: nat, links: seq<Link>)
    requires k < |reg| && ResolveLinks(nodes, reg[..k]) == Ok(links) && !Resolves(nodes, reg[k])
    ensures ResolvedPrefix(nodes, reg) == links
  {
    forall j | 0 <= j < k
      ensures Resolves(nodes, reg[j])
    {
      assert reg[..k][j] == reg[j];
    }
    FirstUnresolvedAt(nodes, reg, k);
  }

  /** When the first k entries resolve and entry k does not, k entries precede the first unresolvable one. */
  lemma FirstUnresolvedAt(nodes: seq<Idea>, reg: seq<LinkEntry>, k: nat)
    requires k < |reg| && (forall j :: 0 <= j < k ==> Resolves(nodes, reg[j])) && !Resolves(nodes, reg[k])
    ensures FirstUnresolved(nodes, reg) == k
  {
  }

  /**
   * When the strict id table was built and the links resolved, every
   * exported link names two ids filed in the table, under the very
   * endpoints the registry entry holds, with the default style.
   */
  lemma LinkEndpointsIndexed(nodes: seq<Idea>, reg: seq<LinkEntry>, k: nat)
    requires StrictScan(nodes).error.None? && ResolveLinks(nodes, reg).Ok? && k < |reg|
    ensures var l := ResolveLinks(nodes, reg).value[k];
      var t := StrictScan(nodes).table;
      PlainKey(Some(l.ideaIdFrom)) in t && t[PlainKey(Some(l.ideaIdFrom))] == reg[k].from &&
      PlainKey(Some(l.ideaIdTo)) in t && t[PlainKey(Some(l.ideaIdTo))] == reg[k].to &&
      l.style == DefaultLinkStyle
  {
    var l := ResolveLinks(nodes, reg).value[k];
    var i :| 0 <= i < |nodes| && nodes[i].handle == reg[k].from && nodes[i].id == Some(l.ideaIdFrom);
    StrictScanFiles(nodes, i);
    var j :| 0 <= j < |nodes| && nodes[j].handle == reg[k].to && nodes[j].id == Some(l.ideaIdTo);
    StrictScanFiles(nodes, j);
  }

  /**
   * The link rebuild after loading a document: each stored link's ids are
   * looked up in the id table and the pair of nodes found is stored in the
   * registry with the link's style; an id that is not in the table fails.
   */
  function RebuildLinks(reg: seq<LinkEntry>, links: seq<Link>, table: map<IdKey, Handle>): (r: Result<seq<LinkEntry>, ManagerError>)
    ensures r.Ok? <==> forall k :: 0 <= k < |links| ==>
      PlainKey(Some(links[k].ideaIdFrom)) in table && PlainKey(Some(links[k].ideaIdTo)) in table
    ensures r.Ok? ==> KeysOf(r.value) == KeysOf(reg) + LinkPairs(links, table)
  {
    if links == [] then Ok(reg)
    else
      var last := links[|links| - 1];
      var init := links[..|links| - 1];
      assert forall k :: 0 <= k < |init| ==> init[k] == links[k];
      match RebuildLinks(reg, init, table)
      case Err(e) => Err(e)
      case Ok(r) =>
        if PlainKey(Some(last.ideaIdFrom)) !in table then Err(UnknownLinkId(last.ideaIdFrom))
        else if PlainKey(Some(last.ideaIdTo)) !in table then Err(UnknownLinkId(last.ideaIdTo))
        else
          var e := LinkEntry(table[PlainKey(Some(last.ideaIdFrom))], table[PlainKey(Some(last.ideaIdTo))], last.style);
          Ok(PutLink(r, e))
  }

  /** The node pairs the links name through the table (links naming a missing id are skipped). */
  function LinkPairs(links: seq<Link>, table: map<IdKey, Handle>): set<(Handle, Handle)>
  {
    if links == [] then {}
    else
      var last := links[|links| - 1];
      var from := PlainKey(Some(last.ideaIdFrom));
      var to := PlainKey(Some(last.ideaIdTo));
      LinkPairs(links[..|links| - 1], table) + (if from in table && to in table then {(table[from], table[to])} else {})
  }

  /** The rebuild keeps the registry a dictionary. */
  lemma {:induction false} RebuildKeepsPairsDistinct(reg: seq<LinkEntry>, links: seq<Link>, table: map<IdKey, Handle>)
    requires PairsDistinct(reg) && RebuildLinks(reg, links, table).Ok?
    ensures PairsDistinct(RebuildLinks(reg, links, table).value)
  {
    if links != [] {
      var init := links[..|links| - 1];
      RebuildKeepsPairsDistinct(reg, init, table);
      var last := links[|links| - 1];
      var e := LinkEntry(table[PlainKey(Some(last.ideaIdFrom))], table[PlainKey(Some(last.ideaIdTo))], last.style);
      PutLinkSets(RebuildLinks(reg, init, table).value, e);
    }
  }

  /** The pair of nodes a stored link names through the id table. */
  function LinkPair(l: Link, table: map<IdKey, Handle>): (Handle, Handle)
    requires PlainKey(Some(l.ideaIdFrom)) in table && PlainKey(Some(l.ideaIdTo)) in table
  {
    (table[PlainKey(Some(l.ideaIdFrom))], table[PlainKey(Some(l.ideaIdTo))])
  }

  /**
   * The rebuild stores each link's style under its pair; when several links
   * name the same pair, the last one wins.
   */
  lemma {:induction false} RebuildLastWins(reg: seq<LinkEntry>, links: seq<Link>, table: map<IdKey, Handle>, k: nat)
    requires PairsDistinct(reg) && RebuildLinks(reg, links, table).Ok? && k < |links|
    requires forall j :: k < j < |links| ==> LinkPair(links[j], table) != LinkPair(links[k], table)
    ensures LinkPair(links[k], table) in LinkMap(RebuildLinks(reg, links, table).value)
    ensures LinkMap(RebuildLinks(reg, links, table).value)[LinkPair(links[k], table)] == links[k].style
  {
    var init := links[..|links| - 1];
    var last := links[|links| - 1];
    var e := LinkEntry(LinkPair(last, table).0, LinkPair(last, table).1, last.style);
    assert RebuildLinks(reg, links, table) == Ok(PutLink(RebuildLinks(reg, init, table).value, e));
    RebuildKeepsPairsDistinct(reg, init, table);
    PutLinkSets(RebuildLinks(reg, init, table).value, e);
    if k < |links| - 1 {
      assert init[k] == links[k];
      assert forall j :: k < j < |init| ==> init[j] == links[j];
      RebuildLastWins(reg, init, table, k);
    }
  }

  /** A pair no link names keeps the style the registry held for it. */
  lemma {:induction false} RebuildKeepsOthers(reg: seq<LinkEntry>, links: seq<Link>, table: map<IdKey, Handle>, p: (Handle, Handle))
    requires PairsDistinct(reg) && RebuildLinks(reg, links, table).Ok? && p in LinkMap(reg)
    requires forall j :: 0 <= j < |links| ==> LinkPair(links[j], table) != p
    ensures p in LinkMap(RebuildLinks(reg, links, table).value)
    ensures LinkMap(RebuildLinks(reg, links, table).value)[p] == LinkMap(reg)[p]
  {
    if links != [] {
      var init := links[..|links| - 1];
      var last := links[|links| - 1];
      var e := LinkEntry(LinkPair(last, table).0, LinkPair(last, table).1, last.style);
      assert RebuildLinks(reg, links, table) == Ok(PutLink(RebuildLinks(reg, init, table).value, e));
      RebuildKeepsPairsDistinct(reg, init, table);
      PutLinkSets(RebuildLinks(reg, init, table).value, e);
      assert forall j :: 0 <= j < |init| ==> init[j] == links[j];
      RebuildKeepsOthers(reg, init, table, p);
    }
  }

  /**
   * The links `to_mindmup` leaves on the root as written: they are rebuilt
   * only when the registry is non-empty, so emptying the registry keeps the
   * links of the previous export.
   */
  function ExportedLinksAsWritten(current: seq<Link>, nodes: seq<Idea>, reg: seq<LinkEntry>): (r: Result<seq<Link>, ManagerError>)
    ensures r == ExportedLinks(nodes, reg) <==> reg != [] || current == []
  {
    if reg != [] then ResolveLinks(nodes, reg) else Ok(current)
  }

  /** The corrected export: the links are always rebuilt from the registry. */
  function ExportedLinks(nodes: seq<Idea>, reg: seq<LinkEntry>): (r: Result<seq<Link>, ManagerError>)
    ensures r.Ok? ==> |r.value| == |reg|
  {
    ResolveLinks(nodes, reg)
  }

  /**
   * Adding a link between two nodes with ids, exporting, removing the link
   * and exporting again: as written the second export still carries the
   * link although the registry is empty; the corrected export has none.
   */
  lemma StaleLinkAfterRemoval(nodes: seq<Idea>, a: Handle, b: Handle)
    requires EndpointId(nodes, a).Ok? && EndpointId(nodes, b).Ok?
    ensures var added := PutLink([], LinkEntry(a, b, AddedStyle(map[])));
      var first := ExportedLinksAsWritten([], nodes, added);
      var removed := DropLink(added, (a, b));
      && first == Ok([Link(EndpointId(nodes, a).value, EndpointId(nodes, b).value, DefaultLinkStyle)])
      && removed == []
      && ExportedLinksAsWritten(first.value, nodes, removed) == first
      && ExportedLinks(nodes, removed) == Ok([])
  {
    var added := PutLink([], LinkEntry(a, b, AddedStyle(map[])));
    assert added == [LinkEntry(a, b, AddedStyle(map[]))];
    assert added[..|added| - 1] == [];
    assert ResolveLinks(nodes, added[..|added| - 1]) == Ok([]);
    var link := Link(EndpointId(nodes, a).value, EndpointId(nodes, b).value, DefaultLinkStyle);
    assert ResolveLinks(nodes, added) == Ok([] + [link]);
    assert [] + [link] == [link];
    assert ExportedLinksAsWritten([], nodes, added) == ResolveLinks(nodes, added);
    assert DropLink(added, (a, b)) == [];
  }

  class MindMupManager {
    /** The manager's own node fields: it is the root of the map. */
    var root: Idea
    /** `idList`: id key to the node filed under it. */
    var idList: map<IdKey, Handle>
    /** `_linksManager`: ordered node pair to style. */
    var linksManager: seq<LinkEntry>

    /** The manager is the root variant, and its registry holds each pair once. */
    predicate Valid()
      reads this
    {
      root.root.Some? && PairsDistinct(linksManager)
    }

    /** A new manager: format version 2, no children, empty id table and registry. */
    constructor(h: Handle, title: string)
      ensures Valid()
      ensures root == Idea(h, title, None, None, [], Some(RootFields(Some(2), [], None)))
      ensures idList == map[] && linksManager == []
    {
      root := Idea(h, title, None, None, [], Some(RootFields(Some(2), [], None)));
      idList := map[];
      linksManager := [];
    }

    /** `_ideas.append(idea)` on the manager: the child goes last. */
    method AppendIdea(child: Idea)
      requires Valid()
      modifies this
      ensures Valid()
      ensures root == Ideas.AppendIdea(old(root), child)
      ensures Preorder(root)[1..] == Preorder(old(root))[1..] + Preorder(child)
      ensures idList == old(idList) && linksManager == old(linksManager)
    {
      PreorderAppend(root, child);
      root := Ideas.AppendIdea(root, child);
    }

    /**
     * `manageLink(a, b, action, **kw)`: "add" stores the default style
     * overlaid with kw for the ordered pair, replacing an earlier entry;
     * "remove" deletes the pair if present; any other action does nothing.
     */
    method ManageLink(a: Handle, b: Handle, action: string, kw: map<string, string>)
      requires Valid()
      modifies this
      ensures Valid()
      ensures root == old(root) && idList == old(idList)
      ensures action == "add" ==>
        linksManager == PutLink(old(linksManager), LinkEntry(a, b, AddedStyle(kw))) &&
        LinkMap(linksManager) == LinkMap(old(linksManager))[(a, b) := AddedStyle(kw)]
      ensures action == "remove" ==>
        linksManager == DropLink(old(linksManager), (a, b)) &&
        LinkMap(linksManager) == LinkMap(old(linksManager)) - {(a, b)}
      ensures action != "add" && action != "remove" ==> linksManager == old(linksManager)
    {
      if action == "add" {
        PutLinkSets(linksManager, LinkEntry(a, b, AddedStyle(kw)));
        linksManager := PutLink(linksManager, LinkEntry(a, b, AddedStyle(kw)));
      } else if action == "remove" {
        DropLinkRemoves(linksManager, (a, b));
        linksManager := DropLink(linksManager, (a, b));
      }
    }

    /** The set `updateMeasurements` collects: every measurement name on a walked node. */
    method CollectMeasurementNames() returns (names: set<string>)
      ensures names == MeasurementNamesIn(Preorder(root))
      ensures forall x :: x in names <==> exists i :: 0 <= i < |Preorder(root)| && x in NodeMeasurementNames(Preorder(root)[i])
    {
      var walk := WalkSubTree(root, 0);
      ghost var nodes := Preorder(root);
      names := {};
      var i := 0;
      while i < |walk|
        invariant 0 <= i <= |walk|
        invariant names == MeasurementNamesIn(nodes[..i])
      {
        assert nodes[..i + 1][..i] == nodes[..i];
        names := names + NodeMeasurementNames(walk[i].node);
        i := i + 1;
      }
      assert nodes[..i] == nodes;
      forall x
        ensures x in names <==> exists i :: 0 <= i < |nodes| && x in NodeMeasurementNames(nodes[i])
      {
        MeasurementNamesInIff(nodes, x);
      }
    }

    /**
     * `updateMeasurements`: the names found on the walked nodes are appended
     * to the root's list (created empty if missing), in ascending order; the
     * list is not cleared first.
     */
    method UpdateMeasurements()
      requires Valid()
      modifies this
      ensures Valid()
      ensures idList == old(idList) && linksManager == old(linksManager)
      ensures root == old(root).(root := Some(old(root).root.value.(measurementsConfig := Some(RootConfig(root)))))
      ensures |RootConfig(root)| >= |RootConfig(old(root))|
      ensures RootConfig(root)[..|RootConfig(old(root))|] == RootConfig(old(root))
      ensures StrictlySorted(RootConfig(root)[|RootConfig(old(root))|..])
      ensures forall x :: x in RootConfig(root)[|RootConfig(old(root))|..] <==> x in MeasurementNamesIn(Preorder(old(root)))
    {
      var names := CollectMeasurementNames();
      var added := SortedNames(names);
      var config := RootConfig(root) + added;
      assert config[..|RootConfig(root)|] == RootConfig(root);
      assert config[|RootConfig(root)|..] == added;
      root := root.(root := Some(root.root.value.(measurementsConfig := Some(config))));
    }

    /**
     * `updateIdList(raiseOnDuplicate)`: the table is cleared and refilled by
     * a walk. In strict mode the first repeated id raises, leaving the table
     * as filled so far; in lenient mode a colliding node is filed under a
     * '_'-prefixed key. No node changes.
     */
    method UpdateIdList(raiseOnDuplicate: bool) returns (err: Option<ManagerError>)
      modifies this
      ensures root == old(root) && linksManager == old(linksManager)
      ensures raiseOnDuplicate ==> idList == StrictScan(Preorder(root)).table && err == StrictScan(Preorder(root)).error
      ensures !raiseOnDuplicate ==> idList == LenientTable(Preorder(root)) && err.None?
    {
      var walk := WalkSubTree(root, 0);
      ghost var nodes := Preorder(root);
      idList := map[];
      var i := 0;
      while i < |walk|
        invariant 0 <= i <= |walk| && root == old(root) && linksManager == old(linksManager)
        invariant raiseOnDuplicate ==> idList == StrictScan(nodes[..i]).table && StrictScan(nodes[..i]).error.None?
        invariant !raiseOnDuplicate ==> idList == LenientTable(nodes[..i])
      {
        var idea := walk[i].node;
        var cur := PlainKey(idea.id);
        while cur in idList
          invariant cur.id == idea.id
          invariant raiseOnDuplicate ==> cur == PlainKey(idea.id)
          invariant forall j :: 0 <= j < cur.underscores ==> IdKey(j, idea.id) in idList
          decreases TakenFrom(idList, idea.id, cur.underscores)
        {
          if raiseOnDuplicate {
            StrictRaise(nodes, i);
            err := Some(DuplicateId(idea.id));
            return;
          }
          assert cur in TakenFrom(idList, idea.id, cur.underscores) - TakenFrom(idList, idea.id, cur.underscores + 1);
          cur := IdKey(cur.underscores + 1, idea.id);
        }
        if raiseOnDuplicate {
          StrictStep(nodes, i);
        } else {
          FreeKeyIsFirstFree(idList, idea.id, 0, cur);
          LenientStep(nodes, i);
        }
        idList := idList[cur := idea.handle];
        i := i + 1;
      }
      assert nodes[..i] == nodes;
      err := None;
    }

    /**
     * `reorderIds`: the walk gives the nodes ids 1, 2, ... in pre-order and
     * files each under its new id; nothing else of the tree changes.
     */
    method ReorderIds()
      modifies this
      ensures root == Renumber(old(root), 1)
      ensures linksManager == old(linksManager)
      ensures |Preorder(root)| == |Preorder(old(root))|
      ensures forall i :: 0 <= i < |Preorder(root)| ==> RenumberedAs(Preorder(old(root))[i], Preorder(root)[i], i + 1)
      ensures |idList| == |Preorder(root)|
      ensures forall n :: 1 <= n <= |Preorder(root)| ==>
        PlainKey(Some(n)) in idList && idList[PlainKey(Some(n))] == Preorder(root)[n - 1].handle
    {
      var walk := WalkSubTree(root, 0);
      ghost var nodes := Preorder(root);
      idList := NumberingTable(walk);
      RenumberPreorder(root, 1);
      root := Renumber(root, 1);
      forall i | 0 <= i < |Preorder(root)|
        ensures Preorder(root)[i].handle == nodes[i].handle
      {
        assert RenumberedAs(nodes[i], Preorder(root)[i], 1 + i);
        assert walk[i].node == nodes[i];
      }
    }

    /**
     * `updateLinkList`: the strict id table is rebuilt (a repeated id
     * raises), then the root's links are replaced by one link per registry
     * entry from the endpoints' ids, each with the default style; an
     * unresolvable endpoint raises after the links before it were added.
     */
    method UpdateLinkList() returns (err: Option<ManagerError>)
      requires Valid()
      modifies this
      ensures Valid()
      ensures linksManager == old(linksManager)
      ensures idList == StrictScan(Preorder(old(root))).table
      ensures StrictScan(Preorder(old(root))).error.Some? ==>
        err == StrictScan(Preorder(old(root))).error && root == old(root)
      ensures StrictScan(Preorder(old(root))).error.None? ==>
        root == old(root).(root := Some(old(root).root.value.(links := ResolvedPrefix(Preorder(old(root)), linksManager))))
      ensures StrictScan(Preorder(old(root))).error.None? && ResolveLinks(Preorder(old(root)), linksManager).Err? ==>
        err == Some(ResolveLinks(Preorder(old(root)), linksManager).error)
      ensures StrictScan(Preorder(old(root))).error.None? && ResolveLinks(Preorder(old(root)), linksManager).Ok? ==>
        err.None? && RootLinks(root) == ResolveLinks(Preorder(old(root)), linksManager).value
    {
      err := UpdateIdList(true);
      if err.Some? {
        return;
      }
      err := RelinkRoot();
    }

    /**
     * The second half of `updateLinkList`: the root's links are emptied and
     * refilled from the registry's entries resolved against the tree. The
     * first unresolvable endpoint raises, leaving the links of the entries
     * before it.
     */
    method RelinkRoot() returns (err: Option<ManagerError>)
      requires Valid()
      modifies this
      ensures Valid()
      ensures linksManager == old(linksManager) && idList == old(idList)
      ensures root == old(root).(root := Some(old(root).root.value.(links := ResolvedPrefix(Preorder(old(root)), linksManager))))
      ensures ResolveLinks(Preorder(old(root)), linksManager).Err? ==>
        err == Some(ResolveLinks(Preorder(old(root)), linksManager).error)
      ensures ResolveLinks(Preorder(old(root)), linksManager).Ok? ==> err.None?
    {
      var walk := WalkSubTree(root, 0);
      WalkVisitsPreorder(root, 0);
      var links, done := ResolveRegistry(walk, linksManager);
      root := root.(root := Some(root.root.value.(links := done)));
      assert linksManager == old(linksManager) && idList == old(idList);
      err := if links.Err? then Some(links.error) else None;
    }

    /**
     * The loop of `updateLinkList`: each registry entry's endpoints are
     * looked up among the walked nodes, in registry order, stopping at the
     * first endpoint that is missing or has no id.
     */
    static method ResolveRegistry(walk: seq<Visit>, reg: seq<LinkEntry>) returns (r: Result<seq<Link>, ManagerError>, done: seq<Link>)
      ensures r == ResolveLinks(VisitedNodes(walk), reg)
      ensures done == ResolvedPrefix(VisitedNodes(walk), reg)
    {
      ghost var nodes := VisitedNodes(walk);
      var links: seq<Link> := [];
      var k := 0;
      while k < |reg|
        invariant 0 <= k <= |reg|
        invariant ResolveLinks(nodes, reg[..k]) == Ok(links)
      {
        ResolveStep(nodes, reg, k);
        var a := FindEndpoint(walk, reg[k].from);
        if a.Err? {
          ResolveStops(nodes, reg, k + 1);
          PrefixBeforeUnresolved(nodes, reg, k, links);
          return Err(a.error), links;
        }
        var b := FindEndpoint(walk, reg[k].to);
        if b.Err? {
          ResolveStops(nodes, reg, k + 1);
          PrefixBeforeUnresolved(nodes, reg, k, links);
          return Err(b.error), links;
        }
        links := links + [Link(a.value, b.value, DefaultLinkStyle)];
        k := k + 1;
      }
      assert reg[..k] == reg;
      return Ok(links), links;
    }

    /**
     * `to_mindmup(autoIncrement)`: the measurement names are collected, the
     * tree is encoded (numbering the nodes 1, 2, ... in pre-order when
     * autoIncrement is set), the strict id table is rebuilt, the root's
     * links are rebuilt from the registry and the tree is encoded again;
     * finally the measurement-name list is put under the viewer's key.
     * The links are rebuilt whether or not the registry is empty (see
     * `ExportedLinksAsWritten`).
     *
     * The tree left behind is the old one, with the collected names added
     * to the root's list and its links rebuilt, encoded node by node: ids
     * from the counter (or kept), childless nodes uncollapsed, titles,
     * attributes, measurements and children as they were.
     */
    method ToMindmup(autoIncrement: bool) returns (r: Result<WireNode, ManagerError>)
      requires Valid()
      modifies this
      ensures Valid()
      ensures linksManager == old(linksManager)
      ensures |RootConfig(root)| >= |RootConfig(old(root))|
      ensures RootConfig(root)[..|RootConfig(old(root))|] == RootConfig(old(root))
      ensures StrictlySorted(RootConfig(root)[|RootConfig(old(root))|..])
      ensures forall x :: x in RootConfig(root)[|RootConfig(old(root))|..] <==> x in MeasurementNamesIn(Preorder(old(root)))
      ensures root.root == Some(old(root).root.value.(measurementsConfig := Some(RootConfig(root)), links := RootLinks(root)))
      ensures EncodedTree(old(root).(root := root.root), root, if autoIncrement then Some(1) else None)
      ensures SameHandles(Preorder(root), Preorder(old(root)))
      ensures autoIncrement ==> forall i :: 0 <= i < |Preorder(root)| ==> Preorder(root)[i].id == Some(i + 1)
      ensures LeavesUncollapsed(root)
      ensures !IdsDistinct(Preorder(root)) ==> r.Err? && RootLinks(root) == RootLinks(old(root))
      ensures IdsDistinct(Preorder(root)) ==> RootLinks(root) == ResolvedPrefix(Preorder(root), linksManager)
      ensures r.Ok? ==> r.value == RenameConfig(Serialize(root))
      ensures r.Ok? ==>
        IdsDistinct(Preorder(root)) && idList == StrictScan(Preorder(root)).table &&
        ResolveLinks(Preorder(root), linksManager) == Ok(RootLinks(root))
      ensures autoIncrement && (forall e :: e in linksManager ==> HasHandle(Preorder(old(root)), e.from) && HasHandle(Preorder(old(root)), e.to)) ==>
        r.Ok?
      ensures IdsDistinct(Preorder(root)) && ResolveLinks(Preorder(root), linksManager).Ok? ==> r.Ok?
    {
      ghost var t0 := root;
      EncodeForExport(autoIncrement);
      ghost var t2 := root;
      NumberedExport(Preorder(t2), linksManager, Preorder(t0), autoIncrement);
      r := FinishExport();
      assert linksManager == old(linksManager);
      ExportComposes(t0, t2, root, if autoIncrement then Some(1) else None);
      SameKeysPrefix(Preorder(root), Preorder(t2), linksManager);
      SameKeysAgree(Preorder(root), Preorder(t2), linksManager);
      SameHandlesTrans(Preorder(root), Preorder(t2), Preorder(t0));
    }

    /**
     * The second half of `to_mindmup`: the strict id table is rebuilt, the
     * root's links are rebuilt from the registry, the tree is encoded again
     * without renumbering, and the measurement-name list is put under the
     * viewer's key. The export fails exactly when an id repeats or a
     * registry endpoint cannot be resolved. Only the root's links change:
     * not at all when an id repeats, otherwise to the links resolved before
     * the first unresolvable entry.
     */
    method FinishExport() returns (r: Result<WireNode, ManagerError>)
      requires Valid() && LeavesUncollapsed(root)
      modifies this
      ensures Valid()
      ensures linksManager == old(linksManager)
      ensures root == old(root).(root := Some(old(root).root.value.(links := RootLinks(root))))
      ensures !IdsDistinct(Preorder(old(root))) ==> RootLinks(root) == RootLinks(old(root))
      ensures IdsDistinct(Preorder(old(root))) ==> RootLinks(root) == ResolvedPrefix(Preorder(old(root)), linksManager)
      ensures SameKeys(Preorder(root), Preorder(old(root)))
      ensures LeavesUncollapsed(root)
      ensures r.Ok? <==> IdsDistinct(Preorder(old(root))) && ResolveLinks(Preorder(old(root)), linksManager).Ok?
      ensures !IdsDistinct(Preorder(old(root))) ==> r == Err(StrictScan(Preorder(old(root))).error.value)
      ensures IdsDistinct(Preorder(old(root))) && ResolveLinks(Preorder(old(root)), linksManager).Err? ==>
        r == Err(ResolveLinks(Preorder(old(root)), linksManager).error)
      ensures r.Ok? ==> r.value == RenameConfig(Serialize(root))
      ensures r.Ok? ==>
        IdsDistinct(Preorder(root)) && idList == StrictScan(Preorder(root)).table &&
        ResolveLinks(Preorder(root), linksManager) == Ok(RootLinks(root))
    {
      ghost var t2 := root;
      var e := UpdateIdList(true);
      if e.Some? {
        WithRootFields(t2, t2.root);
        return Err(e.value);
      }
      e := UpdateLinkList();
      assert linksManager == old(linksManager);
      ghost var t3 := root;
      WithRootFields(t2, t3.root);
      if e.Some? {
        return Err(e.value);
      }
      SameKeysAgree(Preorder(t3), Preorder(t2), linksManager);
      var w := EncodeAgain();
      return Ok(w);
    }

    /**
     * The second `parse_to_mindmup` of `to_mindmup` and the renaming of the
     * name list: on a tree whose leaves are uncollapsed, the tree is left as
     * it is and the record is its serialization under the viewer's key.
     */
    method EncodeAgain() returns (w: WireNode)
      requires LeavesUncollapsed(root)
      modifies this
      ensures root == old(root) && idList == old(idList) && linksManager == old(linksManager)
      ensures w == RenameConfig(Serialize(root))
    {
      var again := ParseToMindmup(root, None);
      EncodeKeepsPrepared(root);
      EncodeSerializes(root, None);
      root := again.node;
      w := RenameConfig(again.wire);
    }

    /**
     * The first half of `to_mindmup`: the measurement names are collected
     * and appended to the root's list, and the tree is encoded once,
     * numbering the nodes 1, 2, ... in pre-order when autoIncrement is set.
     */
    method EncodeForExport(autoIncrement: bool)
      requires Valid()
      modifies this
      ensures Valid()
      ensures linksManager == old(linksManager)
      ensures |RootConfig(root)| >= |RootConfig(old(root))|
      ensures RootConfig(root)[..|RootConfig(old(root))|] == RootConfig(old(root))
      ensures StrictlySorted(RootConfig(root)[|RootConfig(old(root))|..])
      ensures forall x :: x in RootConfig(root)[|RootConfig(old(root))|..] <==> x in MeasurementNamesIn(Preorder(old(root)))
      ensures root.root == Some(old(root).root.value.(measurementsConfig := Some(RootConfig(root))))
      ensures EncodedTree(old(root).(root := root.root), root, if autoIncrement then Some(1) else None)
      ensures SameHandles(Preorder(root), Preorder(old(root)))
      ensures autoIncrement ==> forall i :: 0 <= i < |Preorder(root)| ==> Preorder(root)[i].id == Some(i + 1)
      ensures LeavesUncollapsed(root)
    {
      ghost var t0 := root;
      UpdateMeasurements();
      ghost var t1 := root;
      WithRootFields(t0, t1.root);
      var counter := if autoIncrement then Some(1) else None;
      var enc := ParseToMindmup(root, counter);
      EncodeKeepsHandles(root, counter);
      EncodePreorder(root, counter);
      if autoIncrement {
        NumbersAndCollapses(root, 1);
      }
      root := enc.node;
      assert linksManager == old(linksManager);
      SameHandlesTrans(Preorder(root), Preorder(t1), Preorder(t0));
    }

    /**
     * The table `reorderIds` fills: each visited node, in walk order, under
     * the next id, which is the table's size plus one.
     */
    static method NumberingTable(walk: seq<Visit>) returns (table: map<IdKey, Handle>)
      ensures |table| == |walk|
      ensures forall n :: 1 <= n <= |walk| ==> PlainKey(Some(n)) in table && table[PlainKey(Some(n))] == walk[n - 1].node.handle
      ensures forall k :: k in table ==> k.underscores == 0 && k.id.Some? && 1 <= k.id.value <= |walk|
    {
      table := map[];
      var i := 0;
      while i < |walk|
        invariant 0 <= i <= |walk|
        invariant |table| == i
        invariant forall k :: k in table ==> k.underscores == 0 && k.id.Some? && 1 <= k.id.value <= i
        invariant forall n :: 1 <= n <= i ==> PlainKey(Some(n)) in table && table[PlainKey(Some(n))] == walk[n - 1].node.handle
      {
        var newId := |table| + 1;
        assert PlainKey(Some(newId)) !in table;
        table := table[PlainKey(Some(newId)) := walk[i].node.handle];
        i := i + 1;
      }
    }

    /**
     * `idea.id` for a registry endpoint, found by walking the tree: the id of
     * the first visited node with that handle.
     */
    static method FindEndpoint(walk: seq<Visit>, h: Handle) returns (r: Result<int, ManagerError>)
      ensures r == EndpointId(VisitedNodes(walk), h)
    {
      var i := 0;
      while i < |walk|
        invariant 0 <= i <= |walk|
        invariant NodeWithHandle(VisitedNodes(walk), h) == NodeWithHandle(VisitedNodes(walk)[i..], h)
      {
        if walk[i].node.handle == h {
          if walk[i].node.id.None? {
            return Err(EndpointWithoutId(h));
          }
          return Ok(walk[i].node.id.value);
        }
        assert VisitedNodes(walk)[i..][1..] == VisitedNodes(walk)[i + 1..];
        i := i + 1;
      }
      return Err(EndpointNotInTree(h));
    }
  }

  /** Some walked node has the handle. */
  predicate HasHandle(nodes: seq<Idea>, h: Handle)
  {
    exists i :: 0 <= i < |nodes| && nodes[i].handle == h
  }

  /** Two walks visit nodes with the same handles, position by position. */
  predicate SameHandles(a: seq<Idea>, b: seq<Idea>)
  {
    |a| == |b| && forall i :: 0 <= i < |a| ==> a[i].handle == b[i].handle
  }

  /** Two walks visit nodes with the same handles and ids, position by position. */
  predicate SameKeys(a: seq<Idea>, b: seq<Idea>)
  {
    SameHandles(a, b) && forall i :: 0 <= i < |a| ==> a[i].id == b[i].id
  }

  lemma SameHandlesTrans(a: seq<Idea>, b: seq<Idea>, c: seq<Idea>)
    requires SameHandles(a, b) && SameHandles(b, c)
    ensures SameHandles(a, c)
  {
  }

  /** Changing the root-only fields changes the root record and nothing below it. */
  lemma WithRootFields(n: Idea, rf: Option<RootFields>)
    ensures SameKeys(Preorder(n.(root := rf)), Preorder(n))
    ensures LeavesUncollapsed(n) ==> LeavesUncollapsed(n.(root := rf))
  {
    var m := n.(root := rf);
    assert Preorder(m) == [m] + PreorderAll(n.ideas);
    assert Preorder(n) == [n] + PreorderAll(n.ideas);
    if LeavesUncollapsed(n) {
      forall x | x in Preorder(m) && |x.ideas| == 0
        ensures x.attr.Some? && x.attr.value.collapsed == Some(false)
      {
        if x != m {
          assert x in Preorder(n);
        } else {
          assert n in Preorder(n);
        }
      }
    }
  }

  /** Encoding keeps every node's handle in pre-order, and leaves no childless node collapsed. */
  lemma EncodeKeepsHandles(n: Idea, counter: Option<int>)
    ensures SameHandles(Preorder(ParseToMindmup(n, counter).node), Preorder(n))
    ensures LeavesUncollapsed(ParseToMindmup(n, counter).node)
  {
    EncodeUncollapsesLeaves(n, counter);
  }

  /** The first node with a handle is found at the same place in walks with the same handles and ids. */
  lemma {:induction false} SameKeysFind(a: seq<Idea>, b: seq<Idea>, h: Handle)
    requires SameKeys(a, b)
    ensures EndpointId(a, h) == EndpointId(b, h)
  {
    if a != [] && a[0].handle != h {
      assert SameKeys(a[1..], b[1..]);
      SameKeysFind(a[1..], b[1..], h);
    }
  }

  /** The strict table, and the resolved links, depend only on the walked handles and ids. */
  lemma {:induction false} SameKeysAgree(a: seq<Idea>, b: seq<Idea>, reg: seq<LinkEntry>)
    requires SameKeys(a, b)
    ensures StrictScan(a) == StrictScan(b)
    ensures ResolveLinks(a, reg) == ResolveLinks(b, reg)
  {
    SameKeysScan(a, b);
    SameKeysResolve(a, b, reg);
  }

  lemma {:induction false} SameKeysScan(a: seq<Idea>, b: seq<Idea>)
    requires SameKeys(a, b)
    ensures StrictScan(a) == StrictScan(b)
  {
    if a != [] {
      assert SameKeys(a[..|a| - 1], b[..|b| - 1]);
      SameKeysScan(a[..|a| - 1], b[..|b| - 1]);
    }
  }

  lemma {:induction false} SameKeysResolve(a: seq<Idea>, b: seq<Idea>, reg: seq<LinkEntry>)
    requires SameKeys(a, b)
    ensures ResolveLinks(a, reg) == ResolveLinks(b, reg)
  {
    if reg != [] {
      SameKeysResolve(a, b, reg[..|reg| - 1]);
      SameKeysFind(a, b, reg[|reg| - 1].from);
      SameKeysFind(a, b, reg[|reg| - 1].to);
    }
  }

  /** The links left by a failed relink depend only on the walked handles and ids. */
  lemma {:induction false} SameKeysPrefix(a: seq<Idea>, b: seq<Idea>, reg: seq<LinkEntry>)
    requires SameKeys(a, b)
    ensures ResolvedPrefix(a, reg) == ResolvedPrefix(b, reg)
  {
    SameKeysFirstUnresolved(a, b, reg);
    var k := FirstUnresolved(a, reg);
    SameKeysResolve(a, b, reg[..k]);
  }

  lemma {:induction false} SameKeysFirstUnresolved(a: seq<Idea>, b: seq<Idea>, reg: seq<LinkEntry>)
    requires SameKeys(a, b)
    ensures FirstUnresolved(a, reg) == FirstUnresolved(b, reg)
  {
    if reg != [] {
      SameKeysFind(a, b, reg[0].from);
      SameKeysFind(a, b, reg[0].to);
      SameKeysFirstUnresolved(a, b, reg[1..]);
    }
  }

  /**
   * Composing the two halves of `to_mindmup`: the first encodes the old
   * tree (with its new name list), the second changes only the root's
   * links, so the result is the old tree with both root changes, encoded.
   */
  lemma ExportComposes(t0: Idea, t2: Idea, t4: Idea, counter: Option<int>)
    requires t0.root.Some?
    requires t2.root == Some(t0.root.value.(measurementsConfig := Some(RootConfig(t2))))
    requires EncodedTree(t0.(root := t2.root), t2, counter)
    requires t4 == t2.(root := Some(t2.root.value.(links := RootLinks(t4))))
    ensures t4.root == Some(t0.root.value.(measurementsConfig := Some(RootConfig(t4)), links := RootLinks(t4)))
    ensures EncodedTree(t0.(root := t4.root), t4, counter)
    ensures RootConfig(t4) == RootConfig(t2)
  {
    EncodedTreeWithRoot(t0.(root := t2.root), t2, counter, t4.root);
    assert t0.(root := t2.root).(root := t4.root) == t0.(root := t4.root);
    assert t2.(root := t4.root) == t4;
  }

  /**
   * After a numbering encode, the ids are distinct and every registry
   * entry whose endpoints were in the tree resolves.
   */
  lemma NumberedExport(nodes: seq<Idea>, reg: seq<LinkEntry>, before: seq<Idea>, numbered: bool)
    requires SameHandles(nodes, before)
    requires numbered ==> forall i :: 0 <= i < |nodes| ==> nodes[i].id == Some(i + 1)
    ensures numbered ==> IdsDistinct(nodes)
    ensures numbered && (forall e :: e in reg ==> HasHandle(before, e.from) && HasHandle(before, e.to)) ==>
      ResolveLinks(nodes, reg).Ok?
  {
    if numbered {
      NumberedIdsDistinct(nodes);
      if forall e :: e in reg ==> HasHandle(before, e.from) && HasHandle(before, e.to) {
        NumberedResolves(nodes, reg, before);
      }
    }
  }

  lemma NumberedIdsDistinct(nodes: seq<Idea>)
    requires forall i :: 0 <= i < |nodes| ==> nodes[i].id == Some(i + 1)
    ensures IdsDistinct(nodes)
  {
    IdsDistinctPairwise(nodes);
  }

  /**
   * When every node has an id and every registry endpoint is a node of the
   * tree (by the same handles as before numbering), every link resolves.
   */
  lemma NumberedResolves(nodes: seq<Idea>, reg: seq<LinkEntry>, before: seq<Idea>)
    requires SameHandles(nodes, before)
    requires forall i :: 0 <= i < |nodes| ==> nodes[i].id == Some(i + 1)
    requires forall e :: e in reg ==> HasHandle(before, e.from) && HasHandle(before, e.to)
    ensures ResolveLinks(nodes, reg).Ok?
  {
    forall k | 0 <= k < |reg|
      ensures EndpointId(nodes, reg[k].from).Ok? && EndpointId(nodes, reg[k].to).Ok?
    {
      assert reg[k] in reg;
      var i :| 0 <= i < |before| && before[i].handle == reg[k].from;
      assert nodes[i].handle == reg[k].from;
      var j :| 0 <= j < |before| && before[j].handle == reg[k].to;
      assert nodes[j].handle == reg[k].to;
      var a := NodeWithHandle(nodes, reg[k].from).value;
      var b := NodeWithHandle(nodes, reg[k].to).value;
      assert a in nodes && b in nodes;
    }
  }

  /** The nodes a walk visits, in order. */
  function VisitedNodes(walk: seq<Visit>): (r: seq<Idea>)
    ensures |r| == |walk| && forall i :: 0 <= i < |walk| ==> r[i] == walk[i].node
  {
    if walk == [] then [] else [walk[0].node] + VisitedNodes(walk[1..])
  }

  /** The walk of a tree visits exactly its pre-order. */
  lemma WalkVisitsPreorder(n: Idea, level: nat)
    ensures VisitedNodes(WalkSubTree(n, level)) == Preorder(n)
  {
  }

  /** Resolving one more registry entry. */
  lemma ResolveStep(nodes: seq<Idea>, reg: seq<LinkEntry>, k: nat)
    requires k < |reg| && ResolveLinks(nodes, reg[..k]).Ok?
    ensures ResolveLinks(nodes, reg[..k + 1]) ==
      match EndpointId(nodes, reg[k].from)
      case Err(e) => Err(e)
      case Ok(a) =>
        match EndpointId(nodes, reg[k].to)
        case Err(e) => Err(e)
        case Ok(b) => Ok(ResolveLinks(nodes, reg[..k]).value + [Link(a, b, DefaultLinkStyle)])
  {
    assert reg[..k + 1][..k] == reg[..k];
  }

  /** Once resolving a prefix of the registry fails, resolving the whole fails the same way. */
  lemma {:induction false} ResolveStops(nodes: seq<Idea>, reg: seq<LinkEntry>, k: nat)
    requires k <= |reg|
    requires ResolveLinks(nodes, reg[..k]).Err?
    ensures ResolveLinks(nodes, reg) == ResolveLinks(nodes, reg[..k])
    decreases |reg| - k
  {
    if k < |reg| {
      assert reg[..k + 1][..k] == reg[..k];
      ResolveStops(nodes, reg, k + 1);
    } else {
      assert reg[..k] == reg;
    }
  }
}
