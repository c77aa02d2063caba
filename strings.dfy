/**
 * Decimal rendering of ranks (Python's `str(rank)`) and the lexicographic
 * order used to list measurement names deterministically.
 */
module Strings {

  predicate IsDigit(c: char) { '0' <= c <= '9' }

  function DigitChar(d: nat): (c: char)
    requires d < 10
    ensures IsDigit(c) && c as int - '0' as int == d
  {
    ('0' as int + d) as char
  }

  /** `str(n)` for a natural number: its decimal digits, most significant first. */
  function NatToString(n: nat): (s: string)
    ensures |s| >= 1
    ensures forall i :: 0 <= i < |s| ==> IsDigit(s[i])
  {
    if n < 10 then [DigitChar(n)] else NatToString(n / 10) + [DigitChar(n % 10)]
  }

  /** The value of a string of decimal digits. */
  function ParseNat(s: string): nat
    requires forall i :: 0 <= i < |s| ==> IsDigit(s[i])
  {
    if s == [] then 0
    else
      assert IsDigit(s[|s| - 1]);
      ParseNat(s[..|s| - 1]) * 10 + (s[|s| - 1] as int - '0' as int)
  }

  /** Reading back the decimal rendering of `n` gives `n`. */
  lemma {:induction false} ParseNatToString(n: nat)
    ensures ParseNat(NatToString(n)) == n
  {
    if n >= 10 {
      var s := NatToString(n);
      assert s[..|s| - 1] == NatToString(n / 10);
      ParseNatToString(n / 10);
    }
  }

  /** Distinct ranks render as distinct keys. */
  lemma NatToStringInjective(a: nat, b: nat)
    requires NatToString(a) == NatToString(b)
    ensures a == b
  {
    ParseNatToString(a);
    ParseNatToString(b);
  }

  /** Strict lexicographic order on strings (code point by code point, a proper prefix first). */
  predicate LexLess(a: string, b: string)
  {
    if a == [] then b != []
    else b != [] && (a[0] < b[0] || (a[0] == b[0] && LexLess(a[1..], b[1..])))
  }

  lemma {:induction false} LexLessIrreflexive(a: string)
    ensures !LexLess(a, a)
  {
    if a != [] { LexLessIrreflexive(a[1..]); }
  }

  lemma {:induction false} LexLessTransitive(a: string, b: string, c: string)
    requires LexLess(a, b) && LexLess(b, c)
    ensures LexLess(a, c)
  {
    if a != [] && a[0] == b[0] && b[0] == c[0] {
      LexLessTransitive(a[1..], b[1..], c[1..]);
    }
  }

  lemma {:induction false} LexLessTotal(a: string, b: string)
    requires a != b
    ensures LexLess(a, b) || LexLess(b, a)
  {
    if a != [] && b != [] && a[0] == b[0] {
      assert a == [a[0]] + a[1..] && b == [b[0]] + b[1..];
      LexLessTotal(a[1..], b[1..]);
    }
  }

  lemma LexLessAsymmetric(a: string, b: string)
    requires LexLess(a, b)
    ensures !LexLess(b, a)
  {
    if LexLess(b, a) {
      LexLessTransitive(a, b, a);
      LexLessIrreflexive(a);
    }
  }

  /** Every element of `s` is strictly smaller than every later one. */
  predicate StrictlySorted(s: seq<string>)
  {
    forall i, j :: 0 <= i < j < |s| ==> LexLess(s[i], s[j])
  }

  predicate IsLeast(m: string, names: set<string>)
  {
    m in names && forall x :: x in names && x != m ==> LexLess(m, x)
  }

  /** A finite non-empty set of names has a least element. */
  lemma {:induction false} LeastExists(names: set<string>)
    requires names != {}
    ensures exists m :: IsLeast(m, names)
    decreases |names|
  {
    var x :| x in names;
    var rest := names - {x};
    if rest == {} {
      assert names == {x};
      assert IsLeast(x, names);
    } else {
      LeastExists(rest);
      var m :| IsLeast(m, rest);
      if LexLess(m, x) {
        assert IsLeast(m, names);
      } else {
        LexLessTotal(m, x);
        forall y | y in names && y != x
          ensures LexLess(x, y)
        {
          if y != m { LexLessTransitive(x, m, y); }
        }
        assert IsLeast(x, names);
      }
    }
  }

  /** A strictly sorted listing of a set has exactly as many entries as the set. */
  lemma {:induction false} SortedListingLength(a: seq<string>, names: set<string>)
    requires StrictlySorted(a)
    requires forall x :: x in a <==> x in names
    ensures |a| == |names|
    decreases |a|
  {
    if a == [] {
      assert names == {};
    } else {
      var rest := names - {a[0]};
      LexLessIrreflexive(a[0]);
      forall x
        ensures x in a[1..] <==> x in rest
      {
        if x in a[1..] {
          var i :| 1 <= i < |a| && a[i] == x;
          assert LexLess(a[0], a[i]);
        }
        if x in rest {
          var i :| 0 <= i < |a| && a[i] == x;
          assert a[1..][i - 1] == x;
        }
      }
      SortedListingLength(a[1..], rest);
      assert a[0] in a;
    }
  }

  /** A strictly sorted listing of a set is unique: two of them are equal. */
  lemma {:induction false} SortedListingUnique(a: seq<string>, b: seq<string>)
    requires StrictlySorted(a) && StrictlySorted(b)
    requires |a| == |b|
    requires forall x :: x in a <==> x in b
    ensures a == b
    decreases |a|
  {
    if a != [] {
      assert a[0] == b[0] by {
        if a[0] != b[0] {
          assert b[0] in a && a[0] in b;
          var i :| 0 <= i < |a| && a[i] == b[0];
          var j :| 0 <= j < |b| && b[j] == a[0];
          assert LexLess(a[0], b[0]);
          assert LexLess(b[0], a[0]);
          LexLessAsymmetric(a[0], b[0]);
        }
      }
      forall x
        ensures x in a[1..] <==> x in b[1..]
      {
        if x in a[1..] {
          var i :| 1 <= i < |a| && a[i] == x;
          LexLessIrreflexive(a[0]);
          assert x != a[0];
          assert x in b;
        }
        if x in b[1..] {
          var j :| 1 <= j < |b| && b[j] == x;
          LexLessIrreflexive(b[0]);
          assert x != b[0];
          assert x in a;
        }
      }
      SortedListingUnique(a[1..], b[1..]);
      assert a == [a[0]] + a[1..] && b == [b[0]] + b[1..];
    }
  }

  /**
   * Lists a finite set of names in ascending order, taking the least
   * remaining name each round.
   */
  method SortedNames(names: set<string>) returns (r: seq<string>)
    ensures StrictlySorted(r)
    ensures forall x :: x in r <==> x in names
    ensures |r| == |names|
  {
    r := [];
    var rest := names;
    while rest != {}
      invariant rest <= names
      invariant forall x :: x in r <==> x in names && x !in rest
      invariant StrictlySorted(r)
      invariant forall i, y :: 0 <= i < |r| && y in rest ==> LexLess(r[i], y)
      invariant |r| + |rest| == |names|
      decreases |rest|
    {
      LeastExists(rest);
      var m :| IsLeast(m, rest);
      r := r + [m];
      rest := rest - {m};
    }
  }
}
