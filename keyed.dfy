/**
 * `KeyIndexedModelCollection`: a list that also keeps a forward index from
 * a key to a stored value and a reverse index from a list position to that
 * position's key. The collection's state is described by the value `Coll`,
 * the operations by functions on it, and the class's methods are proved to
 * perform them.
 */
module Keyed {
  import opened Wrappers

  /**
   * A key of the forward index: the generated keys are integers; a caller
   * may pass any other hashable value, stood for here by a name.
   */
  datatype Key = Num(n: int) | Named(name: string)

  datatype CollectionError =
    | NoPosition(position: int)          // `_reverseIndex.pop(index)` finds no entry
    | UnindexedKey(key: Key)             // `_index.pop(key)` finds no entry
    | PositionOutOfRange(position: int)  // the list's own `pop(index)` fails
    | IndexSizeMismatch                  // the length check ending `_syncReverseIndex` fails
    | KeyNotInReverseIndex(key: Key)     // `_reverseIndex.values().index(key)` fails

  /** The three parts of the collection's state. */
  datatype Coll<V> = Coll(items: seq<V>, index: map<Key, V>, reverse: map<nat, Key>)

  /** What a pop leaves behind, and what it returns or raises. */
  datatype PopOutcome<V> = PopOutcome(state: Coll<V>, result: Result<V, CollectionError>)

  /** The reverse index has an entry for each list position and no other. */
  ghost predicate PositionsExact<V>(c: Coll<V>)
  {
    forall i: nat :: i in c.reverse <==> i < |c.items|
  }

  /** Each position's key is indexed to the element at that position. */
  ghost predicate KeysIndexed<V>(c: Coll<V>)
  {
    forall i: nat :: i in c.reverse ==> i < |c.items| && c.reverse[i] in c.index && c.index[c.reverse[i]] == c.items[i]
  }

  /** No two positions share a key. */
  ghost predicate KeysDistinct<V>(c: Coll<V>)
  {
    forall i: nat, j: nat :: i in c.reverse && j in c.reverse && i != j ==> c.reverse[i] != c.reverse[j]
  }

  /** Every indexed key belongs to some position. */
  ghost predicate KeysOwned<V>(c: Coll<V>)
  {
    forall k :: k in c.index ==> k in c.reverse.Values
  }

  /** The indices agree with the list. */
  ghost predicate Consistent<V>(c: Coll<V>)
  {
    PositionsExact(c) && KeysIndexed(c) && KeysDistinct(c) && KeysOwned(c) && |c.index| == |c.items|
  }

  /** No value is stored twice. */
  ghost predicate Distinct<V>(s: seq<V>)
  {
    forall i, j :: 0 <= i < j < |s| ==> s[i] != s[j]
  }

  /** The integer keys from `from` on that are taken. */
  function TakenNums<V>(index: map<Key, V>, from: int): set<Key>
  {
    set k | k in index && k.Num? && k.n >= from
  }

  /**
   * The key the default generator is meant to produce: counting up from
   * `from`, the first integer that is not an indexed key.
   */
  function FirstFreeKey<V>(index: map<Key, V>, from: int): (r: int)
    ensures r >= from && Num(r) !in index
    ensures forall j :: from <= j < r ==> Num(j) in index
    decreases TakenNums(index, from)
  {
    if Num(from) in index then
      assert Num(from) in TakenNums(index, from) - TakenNums(index, from + 1);
      FirstFreeKey(index, from + 1)
    else from
  }

  /**
   * `_defaultKeyGenerator` as written: it counts up from the index's size
   * while the count is `in self`, which tests the count against the stored
   * models rather than against the keys; no model equals an integer, so it
   * yields the index's size.
   */
  function DefaultKeyAsWritten<V>(c: Coll<V>): int
  {
    |c.index|
  }

  /** The key `append(value, _key)` files the value under, with the corrected generator. */
  function AppendKey<V>(c: Coll<V>, key: Option<Key>): Key
  {
    if key.Some? then key.value else Num(FirstFreeKey(c.index, |c.index|))
  }

  /** The value goes last, filed under `k` in both indices. */
  function Extended<V>(c: Coll<V>, v: V, k: Key): Coll<V>
  {
    Coll(c.items + [v], c.index[k := v], c.reverse[|c.items| := k])
  }

  /** `append(value, _key)` with the corrected generator. */
  function Appended<V>(c: Coll<V>, v: V, key: Option<Key>): Coll<V>
  {
    Extended(c, v, AppendKey(c, key))
  }

  /** `append(value)` with the generator as written. */
  function AppendedAsWritten<V>(c: Coll<V>, v: V): Coll<V>
  {
    Extended(c, v, Num(DefaultKeyAsWritten(c)))
  }

  /** The position `pop(index)` works on: the last one when none is given. */
  function PopPosition<V>(c: Coll<V>, position: Option<int>): int
  {
    if position.Some? then position.value else |c.items| - 1
  }

  /**
   * `pop(index)` as written: the position's key leaves the reverse index
   * (raising if absent), then the forward index (raising if absent), then
   * the list drops the element (raising if out of range). The reverse
   * entries of the later positions are not moved down.
   */
  function PoppedAsWritten<V>(c: Coll<V>, position: Option<int>): PopOutcome<V>
  {
    var i := PopPosition(c, position);
    if i < 0 || i !in c.reverse then PopOutcome(c, Err(NoPosition(i)))
    else
      var k := c.reverse[i];
      var rest := c.reverse - {i};
      if k !in c.index then PopOutcome(c.(reverse := rest), Err(UnindexedKey(k)))
      else if i >= |c.items| then PopOutcome(Coll(c.items, c.index - {k}, rest), Err(PositionOutOfRange(i)))
      else PopOutcome(Coll(c.items[..i] + c.items[i + 1..], c.index - {k}, rest), Ok(c.items[i]))
  }

  /** The position that lands at `j` once position `i` has gone. */
  function Source(j: nat, i: nat): nat
  {
    if j < i then j else j + 1
  }

  /** The reverse entries of a list of `n` positions after position `i` has gone: later ones move down by one. */
  function ShiftDown(r: map<nat, Key>, i: nat, n: nat): map<nat, Key>
  {
    map j: nat | j < n && Source(j, i) in r :: r[Source(j, i)]
  }

  /** `pop(index)` corrected: a successful pop also moves the later reverse entries down. */
  function Popped<V>(c: Coll<V>, position: Option<int>): PopOutcome<V>
  {
    var o := PoppedAsWritten(c, position);
    if o.result.Ok? then
      o.(state := o.state.(reverse := ShiftDown(o.state.reverse, PopPosition(c, position), |o.state.items|)))
    else o
  }

  /** Filing a value last under a key not yet indexed keeps the indices in step. */
  lemma ExtendedKeepsConsistent<V>(c: Coll<V>, v: V, k: Key)
    requires Consistent(c) && k !in c.index
    ensures Consistent(Extended(c, v, k))
  {
    ExtendedPositions(c, v, k);
    ExtendedIndexed(c, v, k);
    ExtendedDistinct(c, v, k);
    ExtendedOwned(c, v, k);
  }

  lemma ExtendedPositions<V>(c: Coll<V>, v: V, k: Key)
    requires PositionsExact(c)
    ensures PositionsExact(Extended(c, v, k))
  {
  }

  lemma ExtendedIndexed<V>(c: Coll<V>, v: V, k: Key)
    requires KeysIndexed(c) && k !in c.index
    ensures KeysIndexed(Extended(c, v, k))
  {
  }

  lemma ExtendedDistinct<V>(c: Coll<V>, v: V, k: Key)
    requires KeysDistinct(c) && KeysIndexed(c) && k !in c.index
    ensures KeysDistinct(Extended(c, v, k))
  {
  }

  lemma ExtendedOwned<V>(c: Coll<V>, v: V, k: Key)
    requires KeysOwned(c) && PositionsExact(c)
    ensures KeysOwned(Extended(c, v, k))
  {
    var d := Extended(c, v, k);
    forall x | x in d.index
      ensures x in d.reverse.Values
    {
      if x == k {
        assert d.reverse[|c.items|] == x;
      } else {
        var i :| i in c.reverse && c.reverse[i] == x;
        assert d.reverse[i] == x;
      }
    }
  }

  /**
   * Appending under the generated key, or a fresh key of the caller's,
   * keeps the indices in step; the generated key is one not yet indexed.
   */
  lemma AppendedKeepsConsistent<V>(c: Coll<V>, v: V, key: Option<Key>)
    requires Consistent(c)
    requires key.None? || key.value !in c.index
    ensures Consistent(Appended(c, v, key))
    ensures AppendKey(c, key) !in c.index
  {
    ExtendedKeepsConsistent(c, v, AppendKey(c, key));
  }

  /** The collection once position `i` and its key are gone and the later reverse entries moved down. */
  function Removed<V>(c: Coll<V>, i: nat): Coll<V>
    requires i in c.reverse && i < |c.items|
  {
    Coll(c.items[..i] + c.items[i + 1..], c.index - {c.reverse[i]}, ShiftDown(c.reverse - {i}, i, |c.items| - 1))
  }

  /** Removing a position of a consistent collection keeps the indices in step. */
  lemma RemovedKeepsConsistent<V>(c: Coll<V>, i: nat)
    requires Consistent(c) && i < |c.items|
    ensures Consistent(Removed(c, i))
  {
    RemovedPositions(c, i);
    RemovedIndexed(c, i);
    RemovedDistinct(c, i);
    RemovedOwned(c, i);
    RemovedSize(c, i);
  }

  lemma RemovedPositions<V>(c: Coll<V>, i: nat)
    requires PositionsExact(c) && i < |c.items|
    ensures PositionsExact(Removed(c, i))
  {
  }

  lemma RemovedIndexed<V>(c: Coll<V>, i: nat)
    requires PositionsExact(c) && KeysIndexed(c) && KeysDistinct(c) && i < |c.items|
    ensures KeysIndexed(Removed(c, i))
  {
    var d := Removed(c, i);
    forall j: nat | j in d.reverse
      ensures j < |d.items| && d.reverse[j] in d.index && d.index[d.reverse[j]] == d.items[j]
    {
      assert d.reverse[j] == c.reverse[Source(j, i)];
      assert d.items[j] == c.items[Source(j, i)];
    }
  }

  lemma RemovedDistinct<V>(c: Coll<V>, i: nat)
    requires PositionsExact(c) && KeysDistinct(c) && i < |c.items|
    ensures KeysDistinct(Removed(c, i))
  {
    var d := Removed(c, i);
    forall a: nat, b: nat | a in d.reverse && b in d.reverse && a != b
      ensures d.reverse[a] != d.reverse[b]
    {
      assert d.reverse[a] == c.reverse[Source(a, i)] && d.reverse[b] == c.reverse[Source(b, i)];
    }
  }

  lemma RemovedOwned<V>(c: Coll<V>, i: nat)
    requires PositionsExact(c) && KeysOwned(c) && i < |c.items|
    ensures KeysOwned(Removed(c, i))
  {
    var d := Removed(c, i);
    forall x | x in d.index
      ensures x in d.reverse.Values
    {
      var m :| m in c.reverse && c.reverse[m] == x;
      var j: nat := if m < i then m else m - 1;
      assert Source(j, i) == m;
      assert d.reverse[j] == x;
    }
  }

  lemma RemovedSize<V>(c: Coll<V>, i: nat)
    requires PositionsExact(c) && KeysIndexed(c) && |c.index| == |c.items| && i < |c.items|
    ensures |Removed(c, i).index| == |Removed(c, i).items|
  {
    assert Removed(c, i).index.Keys == c.index.Keys - {c.reverse[i]};
  }

  /**
   * On a consistent collection, the corrected pop (later reverse entries
   * moved down) of a valid position returns its element and leaves the
   * collection with that position and its key removed, in step; any other
   * position raises and changes nothing.
   */
  lemma PoppedKeepsConsistent<V>(c: Coll<V>, position: Option<int>)
    requires Consistent(c)
    ensures var i := PopPosition(c, position);
      0 <= i < |c.items| ==>
        Popped(c, position) == PopOutcome(Removed(c, i), Ok(c.items[i])) && Consistent(Removed(c, i))
    ensures var i := PopPosition(c, position);
      !(0 <= i < |c.items|) ==> Popped(c, position) == PopOutcome(c, Err(NoPosition(i)))
  {
    var i := PopPosition(c, position);
    if 0 <= i < |c.items| {
      PoppedIsRemoved(c, position);
      RemovedKeepsConsistent(c, i);
    } else {
      PoppedOutOfRange(c, position);
    }
  }

  lemma PoppedIsRemoved<V>(c: Coll<V>, position: Option<int>)
    requires PositionsExact(c) && KeysIndexed(c)
    requires 0 <= PopPosition(c, position) < |c.items|
    ensures Popped(c, position) == PopOutcome(Removed(c, PopPosition(c, position)), Ok(c.items[PopPosition(c, position)]))
  {
  }

  lemma PoppedOutOfRange<V>(c: Coll<V>, position: Option<int>)
    requires PositionsExact(c)
    requires !(0 <= PopPosition(c, position) < |c.items|)
    ensures Popped(c, position) == PopOutcome(c, Err(NoPosition(PopPosition(c, position))))
  {
  }

  /** What a valid pop removes: the element at the position, and exactly its key. */
  lemma RemovedContents<V>(c: Coll<V>, i: nat)
    requires Consistent(c) && i < |c.items|
    ensures |Removed(c, i).items| == |c.items| - 1
    ensures forall j :: 0 <= j < |Removed(c, i).items| ==> Removed(c, i).items[j] == c.items[Source(j, i)]
    ensures Removed(c, i).index.Keys == c.index.Keys - {c.reverse[i]}
    ensures forall x :: x in Removed(c, i).index ==> Removed(c, i).index[x] == c.index[x]
  {
  }

  /** Popping the last element right after appending it gives back the value and the collection as it was. */
  lemma PopUndoesAppend<V>(c: Coll<V>, v: V)
    requires PositionsExact(c)
    ensures Popped(Appended(c, v, None), None) == PopOutcome(c, Ok(v))
  {
    var k := AppendKey(c, None);
    var d := Appended(c, v, None);
    var n := |c.items|;
    assert PopPosition(d, None) == n;
    assert d.reverse[n] == k;
    assert d.items[..n] + d.items[n + 1..] == c.items;
    assert d.index - {k} == c.index;
    assert d.reverse - {n} == c.reverse;
    assert ShiftDown(c.reverse, n, n) == c.reverse;
  }

  /** `len(_reverseIndex) == len(_index) == len(self)` holds of a consistent collection. */
  lemma ConsistentSizes<V>(c: Coll<V>)
    requires Consistent(c)
    ensures |c.reverse| == |c.index| == |c.items|
  {
    PositionsCount(c.reverse, |c.items|);
  }

  /** A reverse index whose positions are exactly 0 .. n-1 has n entries. */
  lemma {:induction false} PositionsCount(r: map<nat, Key>, n: nat)
    requires forall i: nat :: i in r <==> i < n
    ensures |r| == n
  {
    if n > 0 {
      PositionsCount(r - {n - 1}, n - 1);
    } else {
      assert r.Keys == {};
    }
  }

  /**
   * A resync that gives each position some key indexed to its element
   * rebuilds the reverse index of a consistent collection of distinct
   * elements exactly.
   */
  lemma SyncRecovers<V>(c: Coll<V>, r: map<nat, Key>)
    requires PositionsExact(c) && KeysIndexed(c) && KeysOwned(c) && Distinct(c.items)
    requires forall j: nat :: j in r <==> j < |c.items|
    requires forall j: nat :: j in r ==> r[j] in c.index && c.index[r[j]] == c.items[j]
    ensures r == c.reverse
  {
    forall j: nat | j in r
      ensures r[j] == c.reverse[j]
    {
      var m :| m in c.reverse && c.reverse[m] == r[j];
      assert c.items[m] == c.items[j];
    }
  }

  /** The empty collection is consistent. */
  lemma EmptyConsistent<V>(e: Coll<V>)
    requires e == Coll([], map[], map[])
    ensures Consistent(e)
  {
    assert e.index.Keys == {};
  }

  /** Appending 10 and 20 to an empty collection files them under keys 0 and 1. */
  lemma TwoAppended()
    ensures Appended(Appended(Coll([], map[], map[]), 10, None), 20, None) ==
      Coll([10, 20], map[Num(0) := 10, Num(1) := 20], map[0 := Num(0), 1 := Num(1)])
  {
    var e: Coll<int> := Coll([], map[], map[]);
    assert FirstFreeKey(e.index, 0) == 0;
    var a := Appended(e, 10, None);
    assert a == Coll([10], map[Num(0) := 10], map[0 := Num(0)]);
    assert FirstFreeKey(a.index, 1) == 1;
  }

  /** Appending 30 next files it under key 2. */
  lemma ThreeAppended()
    ensures Appended(Appended(Appended(Coll([], map[], map[]), 10, None), 20, None), 30, None) ==
      Coll([10, 20, 30], map[Num(0) := 10, Num(1) := 20, Num(2) := 30], map[0 := Num(0), 1 := Num(1), 2 := Num(2)])
  {
    TwoAppended();
    var b: Coll<int> := Coll([10, 20], map[Num(0) := 10, Num(1) := 20], map[0 := Num(0), 1 := Num(1)]);
    assert FirstFreeKey(b.index, 2) == 2;
  }

  /** A collection built by the corrected operations from the empty one stays consistent. */
  lemma ScenarioConsistent()
    ensures Consistent(Appended(Popped(Appended(Appended(Coll([], map[], map[]), 10, None), 20, None), Some(0)).state, 30, None))
    ensures Consistent(Popped(Popped(Appended(Appended(Appended(Coll([], map[], map[]), 10, None), 20, None), 30, None), Some(0)).state, None).state)
  {
    var e: Coll<int> := Coll([], map[], map[]);
    EmptyConsistent(e);
    var a := Appended(e, 10, None);
    AppendedKeepsConsistent(e, 10, None);
    var b := Appended(a, 20, None);
    AppendedKeepsConsistent(a, 20, None);
    var c0 := Popped(b, Some(0)).state;
    PoppedKeepsConsistent(b, Some(0));
    AppendedKeepsConsistent(c0, 30, None);
    var s := Appended(b, 30, None);
    AppendedKeepsConsistent(b, 30, None);
    var c1 := Popped(s, Some(0)).state;
    PoppedKeepsConsistent(s, Some(0));
    PoppedKeepsConsistent(c1, None);
  }

  /** Popping position 0 of [10, 20] leaves 20 filed under key 1 at position 0. */
  lemma FirstOfTwoPopped()
    ensures Popped(Coll([10, 20], map[Num(0) := 10, Num(1) := 20], map[0 := Num(0), 1 := Num(1)]), Some(0)).state ==
      Coll([20], map[Num(1) := 20], map[0 := Num(1)])
  {
    var c := Coll([10, 20], map[Num(0) := 10, Num(1) := 20], map[0 := Num(0), 1 := Num(1)]);
    assert c.items[..0] + c.items[1..] == [20];
    assert c.index - {Num(0)} == map[Num(1) := 20];
    assert c.reverse - {0} == map[1 := Num(1)];
    assert PoppedAsWritten(c, Some(0)) == PopOutcome(Coll([20], map[Num(1) := 20], map[1 := Num(1)]), Ok(10));
    assert ShiftDown(map[1 := Num(1)], 0, 1) == map[0 := Num(1)];
  }

  /**
   * After 10, 20 are appended and the first is popped, appending 30 with
   * the generator as written reuses the key of 20: the forward index then
   * holds 30 under the key of position 0, where the list holds 20.
   */
  lemma DefaultKeyCollides()
    ensures var c0 := Popped(Appended(Appended(Coll([], map[], map[]), 10, None), 20, None), Some(0)).state;
      var c1 := AppendedAsWritten(c0, 30);
      c1.items == [20, 30] && c1.index == map[Num(1) := 30] && c1.index[c1.reverse[0]] != c1.items[0]
  {
    TwoAppended();
    FirstOfTwoPopped();
  }

  /** In the same scenario the corrected generator takes the next free key, 2, and the indices stay in step. */
  lemma DefaultKeyCorrected()
    ensures var c0 := Popped(Appended(Appended(Coll([], map[], map[]), 10, None), 20, None), Some(0)).state;
      var c1 := Appended(c0, 30, None);
      c1.items == [20, 30] && c1.index == map[Num(1) := 20, Num(2) := 30] && Consistent(c1)
  {
    TwoAppended();
    FirstOfTwoPopped();
    ThirtyAfterPop();
    ScenarioConsistent();
  }

  /** Appending 30 to [20], filed under key 1, takes key 2. */
  lemma ThirtyAfterPop()
    ensures Appended(Coll([20], map[Num(1) := 20], map[0 := Num(1)]), 30, None) ==
      Coll([20, 30], map[Num(1) := 20, Num(2) := 30], map[0 := Num(1), 1 := Num(2)])
  {
    var c0: Coll<int> := Coll([20], map[Num(1) := 20], map[0 := Num(1)]);
    assert FirstFreeKey(c0.index, 2) == 2;
  }

  /** Popping position 0 of [10, 20, 30], as written and corrected. */
  lemma FirstOfThreePopped()
    ensures PoppedAsWritten(Coll([10, 20, 30], map[Num(0) := 10, Num(1) := 20, Num(2) := 30], map[0 := Num(0), 1 := Num(1), 2 := Num(2)]), Some(0)).state ==
      Coll([20, 30], map[Num(1) := 20, Num(2) := 30], map[1 := Num(1), 2 := Num(2)])
    ensures Popped(Coll([10, 20, 30], map[Num(0) := 10, Num(1) := 20, Num(2) := 30], map[0 := Num(0), 1 := Num(1), 2 := Num(2)]), Some(0)).state ==
      Coll([20, 30], map[Num(1) := 20, Num(2) := 30], map[0 := Num(1), 1 := Num(2)])
  {
    var c := Coll([10, 20, 30], map[Num(0) := 10, Num(1) := 20, Num(2) := 30], map[0 := Num(0), 1 := Num(1), 2 := Num(2)]);
    assert c.items[..0] + c.items[1..] == [20, 30];
    assert c.index - {Num(0)} == map[Num(1) := 20, Num(2) := 30];
    assert c.reverse - {0} == map[1 := Num(1), 2 := Num(2)];
    assert PoppedAsWritten(c, Some(0)) ==
      PopOutcome(Coll([20, 30], map[Num(1) := 20, Num(2) := 30], map[1 := Num(1), 2 := Num(2)]), Ok(10));
    assert ShiftDown(map[1 := Num(1), 2 := Num(2)], 0, 2) == map[0 := Num(1), 1 := Num(2)];
  }

  /** Popping the last of [20, 30] as written drops the key of position 1, which is 2 after a corrected pop and 1 after the pop as written. */
  lemma LastOfTwoPopped()
    ensures PoppedAsWritten(Coll([20, 30], map[Num(1) := 20, Num(2) := 30], map[1 := Num(1), 2 := Num(2)]), None) ==
      PopOutcome(Coll([20], map[Num(2) := 30], map[2 := Num(2)]), Ok(30))
    ensures Popped(Coll([20, 30], map[Num(1) := 20, Num(2) := 30], map[0 := Num(1), 1 := Num(2)]), None) ==
      PopOutcome(Coll([20], map[Num(1) := 20], map[0 := Num(1)]), Ok(30))
  {
    LastOfTwoPoppedAsWritten();
    LastOfTwoPoppedCorrected();
  }

  lemma LastOfTwoPoppedAsWritten()
    ensures PoppedAsWritten(Coll([20, 30], map[Num(1) := 20, Num(2) := 30], map[1 := Num(1), 2 := Num(2)]), None) ==
      PopOutcome(Coll([20], map[Num(2) := 30], map[2 := Num(2)]), Ok(30))
  {
    var w := Coll([20, 30], map[Num(1) := 20, Num(2) := 30], map[1 := Num(1), 2 := Num(2)]);
    assert w.items[..1] + w.items[2..] == [20];
    assert w.index - {Num(1)} == map[Num(2) := 30];
    assert w.reverse - {1} == map[2 := Num(2)];
  }

  lemma LastOfTwoPoppedCorrected()
    ensures Popped(Coll([20, 30], map[Num(1) := 20, Num(2) := 30], map[0 := Num(1), 1 := Num(2)]), None) ==
      PopOutcome(Coll([20], map[Num(1) := 20], map[0 := Num(1)]), Ok(30))
  {
    var c := Coll([20, 30], map[Num(1) := 20, Num(2) := 30], map[0 := Num(1), 1 := Num(2)]);
    assert c.items[..1] + c.items[2..] == [20];
    assert c.index - {Num(2)} == map[Num(1) := 20];
    assert c.reverse - {1} == map[0 := Num(1)];
    assert PoppedAsWritten(c, None) == PopOutcome(Coll([20], map[Num(1) := 20], map[0 := Num(1)]), Ok(30));
    assert ShiftDown(map[0 := Num(1)], 1, 1) == map[0 := Num(1)];
  }

  /**
   * After 10, 20, 30 are appended and the first is popped, the plain
   * `pop()` as written removes 30 from the list but the key of 20 from
   * the forward index, which then still holds 30 and no longer holds the
   * remaining 20.
   */
  lemma PopDriftsReverseIndex()
    ensures var s := Appended(Appended(Appended(Coll([], map[], map[]), 10, None), 20, None), 30, None);
      var p := PoppedAsWritten(PoppedAsWritten(s, Some(0)).state, None);
      p.result == Ok(30) && p.state.items == [20] && p.state.index == map[Num(2) := 30]
  {
    ThreeAppended();
    FirstOfThreePopped();
    LastOfTwoPopped();
  }

  /** In the same scenario the corrected pop removes the key of 30, and the indices stay in step. */
  lemma PopCorrected()
    ensures var s := Appended(Appended(Appended(Coll([], map[], map[]), 10, None), 20, None), 30, None);
      var p := Popped(Popped(s, Some(0)).state, None);
      p.result == Ok(30) && p.state.items == [20] && p.state.index == map[Num(1) := 20] && Consistent(p.state)
  {
    ThreeAppended();
    FirstOfThreePopped();
    LastOfTwoPopped();
    ScenarioConsistent();
  }

  /**
   * What `_syncReverseIndex` leaves: each position whose element is
   * indexed under some key has one such key, and no other position has an
   * entry.
   */
  ghost predicate Resynced<V>(c: Coll<V>)
  {
    (forall j: nat :: j in c.reverse ==> j < |c.items| && c.reverse[j] in c.index && c.index[c.reverse[j]] == c.items[j]) &&
    (forall j :: 0 <= j < |c.items| ==> (j in c.reverse <==> c.items[j] in c.index.Values))
  }

  /**
   * A resync of a consistent collection gives every position an entry,
   * so the closing length check passes; with distinct elements it gives
   * back the reverse index it started from.
   */
  lemma ResyncedFacts<V>(c: Coll<V>, r: map<nat, Key>)
    requires Resynced(c.(reverse := r))
    ensures Consistent(c) ==> |r| == |c.index| == |c.items|
    ensures Consistent(c) && Distinct(c.items) ==> r == c.reverse
  {
    if Consistent(c) {
      ResyncedConsistent(c, r);
    }
  }

  lemma ResyncedConsistent<V>(c: Coll<V>, r: map<nat, Key>)
    requires Consistent(c) && Resynced(c.(reverse := r))
    ensures |r| == |c.index| == |c.items|
    ensures Distinct(c.items) ==> r == c.reverse
  {
    ResyncCovers(c, r);
    PositionsCount(r, |c.items|);
    if Distinct(c.items) {
      SyncRecovers(c, r);
    }
  }

  /** On a consistent collection every element is indexed, so the resync gives every position an entry. */
  lemma ResyncCovers<V>(c: Coll<V>, r: map<nat, Key>)
    requires PositionsExact(c) && KeysIndexed(c) && Resynced(c.(reverse := r))
    ensures forall j: nat :: j in r <==> j < |c.items|
  {
    forall j: nat | j < |c.items|
      ensures j in r
    {
      assert c.reverse[j] in c.index;
    }
  }

  /** On a consistent collection an indexed key is the key of some position. */
  lemma IndexedKeyHasPosition<V>(c: Coll<V>, key: Key)
    ensures Consistent(c) && key in c.index ==> exists m: nat :: m in c.reverse && m < |c.items| && c.reverse[m] == key
  {
    if Consistent(c) && key in c.index {
      assert key in c.reverse.Values;
    }
  }

  /** On a consistent collection, the one position whose key is `key`. */
  ghost function KeyPosition<V>(c: Coll<V>, key: Key): (p: nat)
    requires Consistent(c) && key in c.index
    ensures p in c.reverse && p < |c.items| && c.reverse[p] == key
    ensures forall q: nat :: q in c.reverse && c.reverse[q] == key ==> q == p
  {
    IndexedKeyHasPosition(c, key);
    var m: nat :| m in c.reverse && m < |c.items| && c.reverse[m] == key;
    m
  }

  /**
   * One pop at the position a key search found, with the corrected pop
   * (later reverse entries moved down): on a consistent collection that
   * the search left as it was, the pop succeeds, returns the key's value
   * and removes the key's position.
   */
  lemma KeyPopStep<V>(before: Coll<V>, mid: Coll<V>, p: nat, key: Key, after: Coll<V>, v: Result<V, CollectionError>)
    requires PopOutcome(after, v) == Popped(mid, Some(p))
    ensures Consistent(before) && mid == before && p in before.reverse && before.reverse[p] == key ==>
      key in before.index && p == KeyPosition(before, key) &&
      after == Removed(before, p) && v == Ok(before.index[key]) && Consistent(after)
  {
    if Consistent(before) && mid == before && p in before.reverse && before.reverse[p] == key {
      PoppedKeepsConsistent(before, Some(p));
    }
  }

  class KeyIndexedModelCollection<V(==)> {
    /** The list itself. */
    var items: seq<V>
    /** `_index`: key to stored value. */
    var index: map<Key, V>
    /** `_reverseIndex`: list position to key. */
    var reverse: map<nat, Key>

    function State(): Coll<V>
      reads this
    {
      Coll(items, index, reverse)
    }

    ghost predicate Valid()
      reads this
    {
      Consistent(State())
    }

    /** An empty collection with empty indices. */
    constructor()
      ensures State() == Coll([], map[], map[]) && Valid()
    {
      items := [];
      index := map[];
      reverse := map[];
    }

    /** `_defaultKeyGenerator`, corrected to skip the keys already indexed. */
    method DefaultKey() returns (key: int)
      ensures key == FirstFreeKey(index, |index|)
      ensures key >= |index| && Num(key) !in index
    {
      key := |index|;
      while Num(key) in index
        invariant key >= |index|
        invariant FirstFreeKey(index, key) == FirstFreeKey(index, |index|)
        decreases TakenNums(index, key)
      {
        assert Num(key) in TakenNums(index, key) - TakenNums(index, key + 1);
        key := key + 1;
      }
    }

    /** `append(value, _key)`: the value goes last, filed under the given or the generated key. */
    method Append(value: V, key: Option<Key>)
      modifies this
      ensures State() == Appended(old(State()), value, key)
      ensures old(Valid()) && (key.None? || key.value !in old(index)) ==> Valid()
    {
      var k: Key;
      if key.None? {
        var n := DefaultKey();
        k := Num(n);
      } else {
        k := key.value;
      }
      if old(Valid()) && (key.None? || key.value !in old(index)) {
        AppendedKeepsConsistent(State(), value, key);
      }
      reverse := reverse[|items| := k];
      index := index[k := value];
      items := items + [value];
    }

    /**
     * `pop(index)`, with the later reverse entries moved down after a
     * successful pop; `PoppedKeepsConsistent` states what it returns and
     * that it keeps the indices in step.
     */
    method Pop(position: Option<int>) returns (r: Result<V, CollectionError>)
      modifies this
      ensures PopOutcome(State(), r) == Popped(old(State()), position)
    {
      var i := if position.Some? then position.value else |items| - 1;
      if i < 0 || i !in reverse {
        return Err(NoPosition(i));
      }
      var k := reverse[i];
      reverse := reverse - {i};
      if k !in index {
        return Err(UnindexedKey(k));
      }
      index := index - {k};
      if i >= |items| {
        return Err(PositionOutOfRange(i));
      }
      var v := items[i];
      items := items[..i] + items[i + 1..];
      reverse := ShiftDown(reverse, i, |items|);
      return Ok(v);
    }

    /**
     * `_syncReverseIndex`: the reverse index is cleared and, for each
     * position, filled with some key whose indexed value equals the
     * element there; `ok` is the closing length check. On a consistent
     * collection the check passes, and with distinct elements the reverse
     * index comes back unchanged.
     */
    method SyncReverseIndex() returns (ok: bool)
      modifies this
      ensures items == old(items) && index == old(index)
      ensures Resynced(State())
      ensures ok <==> |reverse| == |index| == |items|
      ensures old(Valid()) ==> ok
      ensures old(Valid()) && Distinct(items) ==> reverse == old(reverse)
    {
      ghost var before := State();
      reverse := map[];
      var i := 0;
      while i < |items|
        invariant 0 <= i <= |items|
        invariant items == old(items) && index == old(index)
        invariant forall j: nat :: j in reverse ==> j < i && reverse[j] in index && index[reverse[j]] == items[j]
        invariant forall j :: 0 <= j < i ==> (j in reverse <==> items[j] in index.Values)
      {
        var k := KeyOf(items[i]);
        if k.Some? {
          reverse := reverse[i := k.value];
        }
        i := i + 1;
      }
      ResyncedFacts(before, reverse);
      ok := |reverse| == |index| && |index| == |items|;
    }

    /**
     * The inner search of `_syncReverseIndex`: the forward index is
     * scanned in no particular order for a key whose value equals `v`,
     * stopping at the first one found.
     */
    method KeyOf(v: V) returns (r: Option<Key>)
      ensures r.Some? ==> r.value in index && index[r.value] == v
      ensures r.None? <==> forall k :: k in index ==> index[k] != v
    {
      var keys := index.Keys;
      while keys != {}
        invariant keys <= index.Keys
        invariant forall k :: k in index && k !in keys ==> index[k] != v
        decreases |keys|
      {
        var k :| k in keys;
        if index[k] == v {
          return Some(k);
        }
        keys := keys - {k};
      }
      return None;
    }

    /**
     * `searchIndexFromKey`: after a resync, an unindexed key gives None and
     * an indexed one the first position whose reverse entry is that key.
     * On a consistent collection of distinct elements the search succeeds,
     * finding a position exactly for the indexed keys, and leaves the
     * reverse index as it was.
     */
    method SearchIndexFromKey(key: Key) returns (r: Result<Option<nat>, CollectionError>)
      modifies this
      ensures items == old(items) && index == old(index) && Resynced(State())
      ensures r.Ok? && r.value.None? ==> key !in index
      ensures r.Ok? && r.value.Some? ==>
        r.value.value in reverse && reverse[r.value.value] == key &&
        forall q: nat :: q < r.value.value && q in reverse ==> reverse[q] != key
      ensures r.Err? ==> r.error == IndexSizeMismatch || (r.error == KeyNotInReverseIndex(key) && key in index)
      ensures old(Valid()) && Distinct(items) ==>
        reverse == old(reverse) && r.Ok? && (r.value.Some? <==> key in index)
    {
      ghost var before := State();
      IndexedKeyHasPosition(before, key);
      var ok := SyncReverseIndex();
      if !ok {
        return Err(IndexSizeMismatch);
      }
      if key !in index {
        return Ok(None);
      }
      var p := 0;
      while p < |items|
        invariant 0 <= p <= |items|
        invariant forall q: nat :: q < p && q in reverse ==> reverse[q] != key
      {
        if p in reverse && reverse[p] == key {
          return Ok(Some(p));
        }
        p := p + 1;
      }
      return Err(KeyNotInReverseIndex(key));
    }

    /**
     * `popFromKey`, popping through the corrected `Pop` (later reverse
     * entries moved down): None for an unindexed key; otherwise the element
     * at the key's position is popped and returned. On a consistent
     * collection of distinct elements it succeeds, and an indexed key's
     * element and key are removed with the indices kept in step.
     */
    method PopFromKey(key: Key) returns (r: Result<Option<V>, CollectionError>)
      modifies this
      ensures r.Ok? && r.value.None? ==> items == old(items) && index == old(index) && key !in index
      ensures old(Valid()) && Distinct(old(items)) ==> r.Ok? && (r.value.None? <==> key !in old(index))
      ensures old(Valid()) && Distinct(old(items)) && key in old(index) ==>
        r == Ok(Some(old(index)[key])) && State() == Removed(old(State()), KeyPosition(old(State()), key)) && Valid()
    {
      ghost var before := State();
      var s := SearchIndexFromKey(key);
      ghost var mid := State();
      if s.Err? {
        return Err(s.error);
      }
      if s.value.None? {
        return Ok(None);
      }
      var p := s.value.value;
      var v := Pop(Some(p));
      KeyPopStep(before, mid, p, key, State(), v);
      if v.Err? {
        return Err(v.error);
      }
      return Ok(Some(v.value));
    }
  }
}
