/**
 * The manager's link registry: a dictionary from an ordered pair of nodes to
 * a style dictionary. It is modelled as the list of its entries in insertion
 * order (a replaced entry keeps its place, as a Python dictionary does), and
 * `LinkMap` is the dictionary it stands for.
 */
module Links {
  import opened Ideas

  /** One registry entry: the pair (from, to) of node handles and its style. */
  datatype LinkEntry = LinkEntry(from: Handle, to: Handle, style: map<string, string>)

  function Key(e: LinkEntry): (Handle, Handle)
  {
    (e.from, e.to)
  }

  /** The pairs the entries are stored under. */
  function KeysOf(r: seq<LinkEntry>): set<(Handle, Handle)>
  {
    if r == [] then {} else {Key(r[0])} + KeysOf(r[1..])
  }

  /** A dictionary holds each key once. */
  predicate PairsDistinct(r: seq<LinkEntry>)
  {
    r == [] || (Key(r[0]) !in KeysOf(r[1..]) && PairsDistinct(r[1..]))
  }

  /** The dictionary the entry list stands for. */
  function LinkMap(r: seq<LinkEntry>): (m: map<(Handle, Handle), map<string, string>>)
    ensures m.Keys == KeysOf(r)
  {
    if r == [] then map[] else LinkMap(r[1..])[Key(r[0]) := r[0].style]
  }

  /** A key is stored exactly when some entry carries it. */
  lemma {:induction false} KeysOfIndex(r: seq<LinkEntry>, k: (Handle, Handle))
    ensures k in KeysOf(r) <==> exists i :: 0 <= i < |r| && Key(r[i]) == k
  {
    if r != [] {
      KeysOfIndex(r[1..], k);
      if exists i :: 0 <= i < |r[1..]| && Key(r[1..][i]) == k {
        var i :| 0 <= i < |r[1..]| && Key(r[1..][i]) == k;
        assert Key(r[i + 1]) == k;
      }
      if exists i :: 0 <= i < |r| && Key(r[i]) == k {
        var i :| 0 <= i < |r| && Key(r[i]) == k;
        if i > 0 {
          assert Key(r[1..][i - 1]) == k;
        }
      }
    }
  }

  /** With distinct keys, each entry's style is what the dictionary holds for its pair. */
  lemma {:induction false} LinkMapLookup(r: seq<LinkEntry>, i: nat)
    requires PairsDistinct(r) && i < |r|
    ensures Key(r[i]) in LinkMap(r) && LinkMap(r)[Key(r[i])] == r[i].style
  {
    if i > 0 {
      assert r[1..][i - 1] == r[i];
      LinkMapLookup(r[1..], i - 1);
      KeysOfIndex(r[1..], Key(r[i]));
    }
  }

  /**
   * `_linksManager[a, b] = style`: a present pair keeps its place and takes
   * the new style; a new pair is added last.
   */
  function PutLink(r: seq<LinkEntry>, e: LinkEntry): (r': seq<LinkEntry>)
    ensures KeysOf(r') == KeysOf(r) + {Key(e)}
    ensures |r'| == |r| || |r'| == |r| + 1
  {
    if r == [] then [e]
    else if Key(r[0]) == Key(e) then [e] + r[1..]
    else [r[0]] + PutLink(r[1..], e)
  }

  /** `_linksManager.pop((a, b), None)`: the entry goes, an absent pair is a no-op. */
  function DropLink(r: seq<LinkEntry>, k: (Handle, Handle)): (r': seq<LinkEntry>)
    ensures KeysOf(r') == KeysOf(r) - {k}
    ensures |r'| <= |r|
  {
    if r == [] then []
    else if Key(r[0]) == k then DropLink(r[1..], k)
    else [r[0]] + DropLink(r[1..], k)
  }

  /**
   * Storing a pair sets its style and leaves every other pair as it was, and
   * keeps the keys distinct.
   */
  lemma {:induction false} PutLinkSets(r: seq<LinkEntry>, e: LinkEntry)
    requires PairsDistinct(r)
    ensures PairsDistinct(PutLink(r, e))
    ensures LinkMap(PutLink(r, e)) == LinkMap(r)[Key(e) := e.style]
  {
    if r == [] {
      assert PutLink(r, e) == [e];
      assert [e][1..] == [];
    } else if Key(r[0]) == Key(e) {
      assert PutLink(r, e)[1..] == r[1..];
    } else {
      PutLinkSets(r[1..], e);
      assert PutLink(r, e)[1..] == PutLink(r[1..], e);
    }
  }

  /** Removing a pair removes exactly that key, keeps the others' styles, and keeps the keys distinct. */
  lemma {:induction false} DropLinkRemoves(r: seq<LinkEntry>, k: (Handle, Handle))
    requires PairsDistinct(r)
    ensures PairsDistinct(DropLink(r, k))
    ensures LinkMap(DropLink(r, k)) == LinkMap(r) - {k}
  {
    if r != [] {
      DropLinkRemoves(r[1..], k);
      if Key(r[0]) != k {
        assert DropLink(r, k)[1..] == DropLink(r[1..], k);
      }
    }
  }

  /** Removing a pair that is not stored changes nothing. */
  lemma {:induction false} DropAbsentLink(r: seq<LinkEntry>, k: (Handle, Handle))
    requires k !in KeysOf(r)
    ensures DropLink(r, k) == r
  {
    if r != [] {
      DropAbsentLink(r[1..], k);
    }
  }

  /** The style `manageLink(a, b, "add", **kw)` stores: the default link style overlaid with kw. */
  function AddedStyle(kw: map<string, string>): (s: map<string, string>)
    ensures s.Keys == DefaultLinkStyle.Keys + kw.Keys
    ensures forall name :: name in kw ==> s[name] == kw[name]
    ensures forall name :: name in DefaultLinkStyle && name !in kw ==> s[name] == DefaultLinkStyle[name]
  {
    DefaultLinkStyle + kw
  }
}
