/**
 * The manager's `idList`: the table from an id key to the node filed under
 * it, rebuilt by a walk of the tree. In strict mode the walk stops at the
 * first id seen twice; in lenient mode a colliding node is filed under its
 * id prefixed with as many '_' characters as it takes to find a free key.
 */
module IdTable {
  import opened Wrappers
  import opened Ideas

  /**
   * A key of `idList`: the node's id itself when `underscores` is 0, and
   * otherwise the string made of `underscores` '_' characters followed by
   * the id's decimal form.
   */
  datatype IdKey = IdKey(underscores: nat, id: Option<int>)

  /** The key a node is filed under when its id is free. */
  function PlainKey(id: Option<int>): IdKey
  {
    IdKey(0, id)
  }

  datatype ManagerError =
    | DuplicateId(id: Option<int>)
    | EndpointNotInTree(handle: Handle)
    | EndpointWithoutId(handle: Handle)
    | UnknownLinkId(linkId: int)
    | MissingIdInDocument

  /** The ids carried by the nodes. */
  function IdsOf(nodes: seq<Idea>): set<Option<int>>
  {
    if nodes == [] then {} else IdsOf(nodes[..|nodes| - 1]) + {nodes[|nodes| - 1].id}
  }

  /** No node repeats an id carried by an earlier one. */
  predicate IdsDistinct(nodes: seq<Idea>)
  {
    nodes == [] || (IdsDistinct(nodes[..|nodes| - 1]) && nodes[|nodes| - 1].id !in IdsOf(nodes[..|nodes| - 1]))
  }

  lemma {:induction false} IdsOfIndex(nodes: seq<Idea>, x: Option<int>)
    ensures x in IdsOf(nodes) <==> exists i :: 0 <= i < |nodes| && nodes[i].id == x
  {
    if nodes != [] {
      var init := nodes[..|nodes| - 1];
      IdsOfIndex(init, x);
      if exists i :: 0 <= i < |init| && init[i].id == x {
        var i :| 0 <= i < |init| && init[i].id == x;
        assert nodes[i].id == x;
      }
      if exists i :: 0 <= i < |nodes| && nodes[i].id == x {
        var i :| 0 <= i < |nodes| && nodes[i].id == x;
        if i < |init| {
          assert init[i].id == x;
        }
      }
    }
  }

  /** Distinct ids in the pairwise sense: no two positions carry the same id. */
  lemma {:induction false} IdsDistinctPairwise(nodes: seq<Idea>)
    ensures IdsDistinct(nodes) <==> forall i, j :: 0 <= i < j < |nodes| ==> nodes[i].id != nodes[j].id
  {
    if nodes != [] {
      var init := nodes[..|nodes| - 1];
      var last := nodes[|nodes| - 1];
      IdsDistinctPairwise(init);
      IdsOfIndex(init, last.id);
      if IdsDistinct(nodes) {
        forall i, j | 0 <= i < j < |nodes|
          ensures nodes[i].id != nodes[j].id
        {
          assert init[i] == nodes[i];
          if j < |init| {
            assert init[j] == nodes[j];
          }
        }
      }
      if forall i, j :: 0 <= i < j < |nodes| ==> nodes[i].id != nodes[j].id {
        forall i, j | 0 <= i < j < |init|
          ensures init[i].id != init[j].id
        {
          assert init[i] == nodes[i] && init[j] == nodes[j];
        }
      }
    }
  }

  /** The keys for `id` with at least `u` underscores that are taken. */
  function TakenFrom(table: map<IdKey, Handle>, id: Option<int>, u: nat): set<IdKey>
  {
    set k | k in table && k.id == id && k.underscores >= u
  }

  /**
   * The key the lenient walk files a node under, starting from `u`
   * underscores: the first free one, all the ones before it being taken.
   */
  function FreeKey(table: map<IdKey, Handle>, id: Option<int>, u: nat): (k: IdKey)
    ensures k.id == id && k.underscores >= u && k !in table
    ensures forall j :: u <= j < k.underscores ==> IdKey(j, id) in table
    decreases TakenFrom(table, id, u)
  {
    if IdKey(u, id) in table then
      assert IdKey(u, id) in TakenFrom(table, id, u) - TakenFrom(table, id, u + 1);
      FreeKey(table, id, u + 1)
    else IdKey(u, id)
  }

  /** The free key is the only free key with every key before it taken. */
  lemma {:induction false} FreeKeyIsFirstFree(table: map<IdKey, Handle>, id: Option<int>, u: nat, k: IdKey)
    requires k.id == id && k.underscores >= u && k !in table
    requires forall j :: u <= j < k.underscores ==> IdKey(j, id) in table
    ensures FreeKey(table, id, u) == k
    decreases TakenFrom(table, id, u)
  {
    if k.underscores > u {
      assert IdKey(u, id) in table;
      assert IdKey(u, id) in TakenFrom(table, id, u) - TakenFrom(table, id, u + 1);
      FreeKeyIsFirstFree(table, id, u + 1, k);
    }
  }

  /** `updateIdList(raiseOnDuplicate=False)` over the walked nodes, in walk order. */
  function LenientTable(nodes: seq<Idea>): (t: map<IdKey, Handle>)
    ensures |t| == |nodes|
  {
    if nodes == [] then map[]
    else
      var prev := LenientTable(nodes[..|nodes| - 1]);
      var last := nodes[|nodes| - 1];
      prev[FreeKey(prev, last.id, 0) := last.handle]
  }

  /**
   * Every walked node ends up in the lenient table, under a key made from
   * its own id.
   */
  lemma {:induction false} LenientFilesEveryNode(nodes: seq<Idea>, i: nat)
    requires i < |nodes|
    ensures exists k :: k in LenientTable(nodes) && k.id == nodes[i].id && LenientTable(nodes)[k] == nodes[i].handle
  {
    var prev := LenientTable(nodes[..|nodes| - 1]);
    var last := nodes[|nodes| - 1];
    var newKey := FreeKey(prev, last.id, 0);
    if i < |nodes| - 1 {
      LenientFilesEveryNode(nodes[..|nodes| - 1], i);
      var k :| k in prev && k.id == nodes[..|nodes| - 1][i].id && prev[k] == nodes[..|nodes| - 1][i].handle;
      assert k != newKey;
      assert LenientTable(nodes)[k] == nodes[i].handle;
    } else {
      assert LenientTable(nodes)[newKey] == nodes[i].handle;
    }
  }

  /** The result of the strict walk: the table built so far and the error that stopped it. */
  datatype Scan = Scan(table: map<IdKey, Handle>, error: Option<ManagerError>)

  /**
   * `updateIdList(raiseOnDuplicate=True)` over the walked nodes: each node is
   * filed under its own id; the first id already present raises, leaving
   * the table as filled so far. The walk succeeds exactly when the ids are
   * distinct, and then the keys are exactly the plain keys of those ids.
   */
  function StrictScan(nodes: seq<Idea>): (r: Scan)
    ensures r.error.None? <==> IdsDistinct(nodes)
    ensures r.error.None? ==> |r.table| == |nodes|
    ensures r.error.None? ==> forall k :: k in r.table <==> k.underscores == 0 && k.id in IdsOf(nodes)
    ensures r.error.Some? ==> r.error.value.DuplicateId?
  {
    if nodes == [] then Scan(map[], None)
    else
      var prev := StrictScan(nodes[..|nodes| - 1]);
      var last := nodes[|nodes| - 1];
      if prev.error.Some? then prev
      else if PlainKey(last.id) in prev.table then Scan(prev.table, Some(DuplicateId(last.id)))
      else Scan(prev.table[PlainKey(last.id) := last.handle], None)
  }

  /** Once the strict walk has raised, the rest of the walk is not looked at. */
  lemma {:induction false} StrictScanStops(nodes: seq<Idea>, i: nat)
    requires i <= |nodes| && StrictScan(nodes[..i]).error.Some?
    ensures StrictScan(nodes) == StrictScan(nodes[..i])
    decreases |nodes| - i
  {
    if i < |nodes| {
      assert nodes[..i + 1][..i] == nodes[..i];
      StrictScanStops(nodes, i + 1);
    } else {
      assert nodes[..i] == nodes;
    }
  }

  /** When the strict walk succeeds, every node is filed under its own id. */
  lemma {:induction false} StrictScanFiles(nodes: seq<Idea>, i: nat)
    requires StrictScan(nodes).error.None? && i < |nodes|
    ensures PlainKey(nodes[i].id) in StrictScan(nodes).table
    ensures StrictScan(nodes).table[PlainKey(nodes[i].id)] == nodes[i].handle
  {
    var init := nodes[..|nodes| - 1];
    if i < |init| {
      StrictScanFiles(init, i);
      assert init[i] == nodes[i];
    }
  }

  /** A raised walk names an id that two walked nodes share. */
  lemma {:induction false} StrictScanNamesDuplicate(nodes: seq<Idea>)
    requires StrictScan(nodes).error.Some?
    ensures exists i, j :: 0 <= i < j < |nodes| && nodes[i].id == nodes[j].id == StrictScan(nodes).error.value.id
  {
    var init := nodes[..|nodes| - 1];
    var last := nodes[|nodes| - 1];
    if StrictScan(init).error.Some? {
      StrictScanNamesDuplicate(init);
      var i, j :| 0 <= i < j < |init| && init[i].id == init[j].id == StrictScan(init).error.value.id;
      assert StrictScan(nodes) == StrictScan(init);
      assert nodes[i] == init[i] && nodes[j] == init[j];
    } else {
      assert StrictScan(nodes).error == Some(DuplicateId(last.id));
      IdsOfIndex(init, last.id);
      var i :| 0 <= i < |init| && init[i].id == last.id;
      assert nodes[i] == init[i];
      assert 0 <= i < |nodes| - 1 < |nodes| && nodes[i].id == nodes[|nodes| - 1].id == StrictScan(nodes).error.value.id;
    }
  }

  /** With distinct ids the two modes build the same table. */
  lemma {:induction false} LenientAgreesWhenDistinct(nodes: seq<Idea>)
    requires IdsDistinct(nodes)
    ensures LenientTable(nodes) == StrictScan(nodes).table
  {
    if nodes != [] {
      var init := nodes[..|nodes| - 1];
      var last := nodes[|nodes| - 1];
      LenientAgreesWhenDistinct(init);
      FreeKeyIsFirstFree(LenientTable(init), last.id, 0, PlainKey(last.id));
    }
  }

  /** One step of the lenient walk: the next node is filed under the first free key for its id. */
  lemma LenientStep(nodes: seq<Idea>, i: nat)
    requires i < |nodes|
    ensures LenientTable(nodes[..i + 1]) ==
      LenientTable(nodes[..i])[FreeKey(LenientTable(nodes[..i]), nodes[i].id, 0) := nodes[i].handle]
  {
    assert nodes[..i + 1][..i] == nodes[..i];
  }

  /** One step of the strict walk that finds the next id free. */
  lemma StrictStep(nodes: seq<Idea>, i: nat)
    requires i < |nodes| && StrictScan(nodes[..i]).error.None?
    requires PlainKey(nodes[i].id) !in StrictScan(nodes[..i]).table
    ensures StrictScan(nodes[..i + 1]) ==
      Scan(StrictScan(nodes[..i]).table[PlainKey(nodes[i].id) := nodes[i].handle], None)
  {
    assert nodes[..i + 1][..i] == nodes[..i];
  }

  /** The strict walk raising at the next node: the result is final. */
  lemma StrictRaise(nodes: seq<Idea>, i: nat)
    requires i < |nodes| && StrictScan(nodes[..i]).error.None?
    requires PlainKey(nodes[i].id) in StrictScan(nodes[..i]).table
    ensures StrictScan(nodes) == Scan(StrictScan(nodes[..i]).table, Some(DuplicateId(nodes[i].id)))
  {
    assert nodes[..i + 1][..i] == nodes[..i];
    StrictScanStops(nodes, i + 1);
  }
}
