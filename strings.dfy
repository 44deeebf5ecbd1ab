/**
 * Code-point ordering of strings, as Python's `sorted` applies it to variant
 * and dependency names when a spec is rendered.
 */
module Strings {

  /** `a` sorts strictly before `b`: first differing character, or `a` a proper prefix of `b`. */
  predicate StrLess(a: string, b: string)
  {
    if a == [] then b != []
    else if b == [] then false
    else a[0] < b[0] || (a[0] == b[0] && StrLess(a[1..], b[1..]))
  }

  lemma {:induction false} StrLessIrreflexive(a: string)
    ensures !StrLess(a, a)
  {
    if a != [] {
      StrLessIrreflexive(a[1..]);
    }
  }

  lemma {:induction false} StrLessTransitive(a: string, b: string, c: string)
    requires StrLess(a, b) && StrLess(b, c)
    ensures StrLess(a, c)
  {
    if a != [] && b != [] && c != [] && a[0] == b[0] && b[0] == c[0] {
      StrLessTransitive(a[1..], b[1..], c[1..]);
    }
  }

  lemma {:induction false} StrLessTrichotomy(a: string, b: string)
    ensures a == b || StrLess(a, b) || StrLess(b, a)
  {
    if a != [] && b != [] && a[0] == b[0] {
      StrLessTrichotomy(a[1..], b[1..]);
      if a[1..] == b[1..] {
        assert a == [a[0]] + a[1..] && b == [b[0]] + b[1..];
      }
    }
  }

  lemma StrLessAsymmetric(a: string, b: string)
    requires StrLess(a, b)
    ensures !StrLess(b, a)
  {
    if StrLess(b, a) {
      StrLessTransitive(a, b, a);
      StrLessIrreflexive(a);
    }
  }

  /** `m` is the least element of `s`. */
  predicate IsLeast(m: string, s: set<string>)
  {
    m in s && forall x :: x in s && x != m ==> StrLess(m, x)
  }

  /** Every non-empty finite set of strings has a least element. */
  lemma {:induction false} LeastExists(s: set<string>)
    requires s != {}
    ensures exists m :: IsLeast(m, s)
    decreases |s|
  {
    var y :| y in s;
    if s == {y} {
      assert IsLeast(y, s);
    } else {
      LeastExists(s - {y});
      var m :| IsLeast(m, s - {y});
      StrLessTrichotomy(m, y);
      if StrLess(m, y) {
        assert IsLeast(m, s);
      } else {
        forall x | x in s && x != y
          ensures StrLess(y, x)
        {
          if x != m {
            StrLessTransitive(y, m, x);
          }
        }
        assert IsLeast(y, s);
      }
    }
  }

  /** The least element of a set under StrLess is unique. */
  lemma LeastUnique(s: set<string>, m1: string, m2: string)
    requires IsLeast(m1, s) && IsLeast(m2, s)
    ensures m1 == m2
  {
    if m1 != m2 {
      StrLessAsymmetric(m1, m2);
    }
  }

  /** The least string of a non-empty set. */
  function Least(s: set<string>): (m: string)
    requires s != {}
    ensures m in s
    ensures forall x :: x in s && x != m ==> StrLess(m, x)
  {
    LeastExists(s);
    forall m1, m2 | IsLeast(m1, s) && IsLeast(m2, s)
      ensures m1 == m2
    {
      LeastUnique(s, m1, m2);
    }
    var m :| IsLeast(m, s);
    m
  }

  predicate StrictlySorted(r: seq<string>)
  {
    forall i, j :: 0 <= i < j < |r| ==> StrLess(r[i], r[j])
  }

  /** The elements of a finite set of names in ascending order, as `sorted(d.keys())`. */
  function SortedKeys(s: set<string>): (r: seq<string>)
    ensures |r| == |s|
    ensures forall x :: x in r <==> x in s
    ensures StrictlySorted(r)
    decreases |s|
  {
    if s == {} then []
    else
      var m := Least(s);
      [m] + SortedKeys(s - {m})
  }

  /** A scan that met none of the keys of `s` among all of `keys` proves `s` empty. */
  lemma NoneFound(keys: seq<string>, s: set<string>)
    requires forall x :: x in s ==> x in keys
    requires forall j :: 0 <= j < |keys| ==> keys[j] !in s
    ensures s == {}
  {
    forall x | x in keys ensures x !in s {
      var p :| 0 <= p < |keys| && keys[p] == x;
    }
  }

  /**
   * Scanning a sorted sequence that holds every element of `s`, the first
   * element found in `s` is the least element of `s`.
   */
  lemma FirstFoundIsLeast(keys: seq<string>, s: set<string>, i: int)
    requires StrictlySorted(keys) && 0 <= i < |keys| && keys[i] in s
    requires forall x :: x in s ==> x in keys
    requires forall j :: 0 <= j < i ==> keys[j] !in s
    ensures Least(s) == keys[i]
  {
    var m := Least(s);
    if m != keys[i] {
      var p :| 0 <= p < |keys| && keys[p] == m;
      assert StrLess(m, keys[i]);
      if p < i {
        assert false;
      } else {
        assert StrLess(keys[i], m);
        StrLessAsymmetric(m, keys[i]);
      }
    }
  }
}
