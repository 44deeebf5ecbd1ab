/**
 * Version lists: the comma-separated alternatives after `@`. A list is kept
 * normalized (non-empty ranges in ascending order, each strictly below the
 * next), adding a range merges it with every range it overlaps, and the
 * intersection of two lists intersects every pair of ranges and adds the
 * non-empty results, in the order of the two nested loops.
 */
module VersionLists {
  import opened Wrappers
  import opened Versions

  predicate Normalized(l: seq<Range>)
  {
    && (forall i :: 0 <= i < |l| ==> NonEmpty(l[i]))
    && (forall i, j :: 0 <= i < j < |l| ==> Below(l[i], l[j]))
  }

  /** A well-formed version list: normalized and not empty. `[AnyRange]` is "any version". */
  predicate ValidList(l: seq<Range>)
  {
    |l| > 0 && Normalized(l)
  }

  predicate Contains(l: seq<Range>, v: Version)
  {
    exists i :: 0 <= i < |l| && InRange(l[i], v)
  }

  /** Some range of `a` shares a version with some range of `b`. */
  predicate ListsOverlap(a: seq<Range>, b: seq<Range>)
  {
    exists i, j :: 0 <= i < |a| && 0 <= j < |b| && Overlaps(a[i], b[j])
  }

  lemma NormalizedTail(l: seq<Range>)
    requires Normalized(l) && l != []
    ensures Normalized(l[1..])
  {
    assert forall i, j :: 0 <= i < j < |l| - 1 ==> l[1..][i] == l[i + 1] && l[1..][j] == l[j + 1];
  }

  lemma NormalizedConcat(x: seq<Range>, y: seq<Range>)
    requires Normalized(x) && Normalized(y)
    requires forall i, j :: 0 <= i < |x| && 0 <= j < |y| ==> Below(x[i], y[j])
    ensures Normalized(x + y)
  {
    var xy := x + y;
    forall i, j | 0 <= i < j < |xy|
      ensures Below(xy[i], xy[j])
    {
      if j < |x| {
        assert xy[i] == x[i] && xy[j] == x[j];
      } else if i < |x| {
        assert xy[i] == x[i] && xy[j] == y[j - |x|];
      } else {
        assert xy[i] == y[i - |x|] && xy[j] == y[j - |x|];
      }
    }
  }

  lemma ContainsConcat(x: seq<Range>, y: seq<Range>)
    ensures forall v :: Contains(x + y, v) <==> Contains(x, v) || Contains(y, v)
  {
    forall v ensures Contains(x + y, v) <==> Contains(x, v) || Contains(y, v) {
      if Contains(x + y, v) {
        var i :| 0 <= i < |x + y| && InRange((x + y)[i], v);
        if i < |x| { assert (x + y)[i] == x[i]; } else { assert (x + y)[i] == y[i - |x|]; }
      }
      if Contains(x, v) {
        var i :| 0 <= i < |x| && InRange(x[i], v);
        assert (x + y)[i] == x[i];
      }
      if Contains(y, v) {
        var i :| 0 <= i < |y| && InRange(y[i], v);
        assert (x + y)[i + |x|] == y[i];
      }
    }
  }

  lemma ContainsSingle(r: Range)
    ensures forall v :: Contains([r], v) <==> InRange(r, v)
  {
    assert [r][0] == r;
  }

  /**
   * A range below `r` and below every range of `l` is below every range of
   * the list that adding `r` to `l` produces.
   */
  lemma {:induction false} AddAbove(b: Range, l: seq<Range>, r: Range)
    requires Normalized(l) && NonEmpty(r)
    requires Below(b, r) && forall i :: 0 <= i < |l| ==> Below(b, l[i])
    ensures forall k :: 0 <= k < |Add(l, r)| ==> Below(b, Add(l, r)[k])
    decreases |l|, 1
  {
    if l == [] {
    } else if Below(l[0], r) {
      NormalizedTail(l);
      AddAbove(b, l[1..], r);
    } else if Below(r, l[0]) {
    } else {
      NormalizedTail(l);
      BelowHull(b, l[0], r);
      HullNonEmpty(l[0], r);
      AddAbove(b, l[1..], Hull(l[0], r));
    }
  }

  /**
   * Adds one range to a normalized list, merging it with every range it
   * overlaps; the list stays normalized and covers exactly the versions of
   * the old list and of the range.
   */
  function Add(l: seq<Range>, r: Range): (res: seq<Range>)
    requires Normalized(l) && NonEmpty(r)
    ensures Normalized(res)
    ensures forall v :: Contains(res, v) <==> Contains(l, v) || InRange(r, v)
    ensures (forall i :: 0 <= i < |l| ==> !Overlaps(l[i], r)) ==> (forall z :: z in res <==> z in l || z == r)
    decreases |l|, 0
  {
    if l == [] then
      ContainsSingle(r);
      [r]
    else if Below(l[0], r) then
      NormalizedTail(l);
      var rest := Add(l[1..], r);
      AddAbove(l[0], l[1..], r);
      AddKeepsFirst(l, r, rest);
      [l[0]] + rest
    else if Below(r, l[0]) then
      forall i | 0 < i < |l| ensures Below(r, l[i]) {
        BelowTransitive(r, l[0], l[i]);
      }
      NormalizedConcat([r], l);
      ContainsConcat([r], l);
      ContainsSingle(r);
      [r] + l
    else
      OverlapsIffNotBelow(l[0], r);
      NormalizedTail(l);
      HullNonEmpty(l[0], r);
      var res := Add(l[1..], Hull(l[0], r));
      AddMerged(l, r, res);
      res
  }

  /** `Add` past a first range that lies below the new one keeps that range in front. */
  lemma AddKeepsFirst(l: seq<Range>, r: Range, rest: seq<Range>)
    requires Normalized(l) && l != [] && Below(l[0], r)
    requires Normalized(rest) && forall k :: 0 <= k < |rest| ==> Below(l[0], rest[k])
    requires forall v :: Contains(rest, v) <==> Contains(l[1..], v) || InRange(r, v)
    requires (forall i :: 0 <= i < |l[1..]| ==> !Overlaps(l[1..][i], r)) ==> (forall z :: z in rest <==> z in l[1..] || z == r)
    ensures Normalized([l[0]] + rest)
    ensures forall v :: Contains([l[0]] + rest, v) <==> Contains(l, v) || InRange(r, v)
    ensures (forall i :: 0 <= i < |l| ==> !Overlaps(l[i], r)) ==> (forall z :: z in [l[0]] + rest <==> z in l || z == r)
  {
    NormalizedConcat([l[0]], rest);
    assert l == [l[0]] + l[1..];
    ContainsConcat([l[0]], l[1..]);
    ContainsConcat([l[0]], rest);
    ContainsSingle(l[0]);
    if forall i :: 0 <= i < |l| ==> !Overlaps(l[i], r) {
      assert forall i :: 0 <= i < |l[1..]| ==> l[1..][i] == l[i + 1];
    }
  }

  /** Merging an overlapping first range into the new one covers the same versions. */
  lemma AddMerged(l: seq<Range>, r: Range, res: seq<Range>)
    requires l != [] && NonEmpty(l[0]) && NonEmpty(r) && Overlaps(l[0], r)
    requires forall v :: Contains(res, v) <==> Contains(l[1..], v) || InRange(Hull(l[0], r), v)
    ensures forall v :: Contains(res, v) <==> Contains(l, v) || InRange(r, v)
  {
    forall v ensures InRange(Hull(l[0], r), v) <==> InRange(l[0], v) || InRange(r, v) {
      HullInRange(l[0], r, v);
    }
    assert l == [l[0]] + l[1..];
    ContainsConcat([l[0]], l[1..]);
    ContainsSingle(l[0]);
  }

  /** Adds the ranges one after another, as parsing `@r1,r2,...` does. */
  function AddAll(l: seq<Range>, rs: seq<Range>): (res: seq<Range>)
    requires Normalized(l) && forall i :: 0 <= i < |rs| ==> NonEmpty(rs[i])
    ensures Normalized(res)
    ensures forall v :: Contains(res, v) <==> Contains(l, v) || exists i :: 0 <= i < |rs| && InRange(rs[i], v)
    decreases |rs|
  {
    if rs == [] then l
    else
      var res := AddAll(Add(l, rs[0]), rs[1..]);
      assert forall v :: (exists i :: 0 <= i < |rs| && InRange(rs[i], v))
                     <==> InRange(rs[0], v) || exists i :: 0 <= i < |rs| - 1 && InRange(rs[1..][i], v) by {
        forall v | exists i :: 0 <= i < |rs| && InRange(rs[i], v)
          ensures InRange(rs[0], v) || exists i :: 0 <= i < |rs| - 1 && InRange(rs[1..][i], v)
        {
          var i :| 0 <= i < |rs| && InRange(rs[i], v);
          if i > 0 { assert rs[1..][i - 1] == rs[i]; }
        }
        forall v, i | 0 <= i < |rs| - 1 && InRange(rs[1..][i], v)
          ensures exists i :: 0 <= i < |rs| && InRange(rs[i], v)
        {
          assert rs[i + 1] == rs[1..][i];
        }
      }
      res
  }

  /** Adding two runs of ranges one after the other is adding their concatenation. */
  lemma {:induction false} AddAllConcat(l: seq<Range>, a: seq<Range>, b: seq<Range>)
    requires Normalized(l)
    requires forall i :: 0 <= i < |a| ==> NonEmpty(a[i])
    requires forall i :: 0 <= i < |b| ==> NonEmpty(b[i])
    ensures forall i :: 0 <= i < |a + b| ==> NonEmpty((a + b)[i])
    ensures AddAll(l, a + b) == AddAll(AddAll(l, a), b)
    decreases |a|
  {
    assert forall i :: 0 <= i < |a + b| ==> (a + b)[i] == if i < |a| then a[i] else b[i - |a|];
    if a == [] {
      assert a + b == b;
    } else {
      assert (a + b)[0] == a[0] && (a + b)[1..] == a[1..] + b;
      assert forall i :: 0 <= i < |a| - 1 ==> a[1..][i] == a[i + 1];
      AddAllConcat(Add(l, a[0]), a[1..], b);
    }
  }

  /** `z` is the non-empty intersection of a range of `a` and a range of `b`. */
  predicate IsPairMeet(z: Range, a: seq<Range>, b: seq<Range>)
  {
    exists i, j :: 0 <= i < |a| && 0 <= j < |b| && Overlaps(a[i], b[j]) && z == Meet(a[i], b[j])
  }

  /** The non-empty intersections of `x` with the ranges of `b`, in the order of `b`. */
  function MeetsOne(x: Range, b: seq<Range>): (res: seq<Range>)
    ensures forall z :: z in res <==> exists j :: 0 <= j < |b| && Overlaps(x, b[j]) && z == Meet(x, b[j])
    decreases |b|
  {
    if b == [] then []
    else
      var rest := MeetsOne(x, b[1..]);
      assert forall j :: 0 < j < |b| ==> b[j] == b[1..][j - 1];
      assert forall j :: 0 <= j < |b| - 1 ==> b[1..][j] == b[j + 1];
      (if Overlaps(x, b[0]) then [Meet(x, b[0])] else []) + rest
  }

  /** The inner and outer loops of the intersection: every pair, in nested order. */
  function Meets(a: seq<Range>, b: seq<Range>): (res: seq<Range>)
    ensures forall z :: z in res <==> IsPairMeet(z, a, b)
    decreases |a|
  {
    if a == [] then []
    else
      var rest := Meets(a[1..], b);
      forall z | IsPairMeet(z, a, b) ensures z in MeetsOne(a[0], b) + rest {
        var i, j :| 0 <= i < |a| && 0 <= j < |b| && Overlaps(a[i], b[j]) && z == Meet(a[i], b[j]);
        if i > 0 { assert a[1..][i - 1] == a[i]; }
      }
      forall z | z in rest ensures IsPairMeet(z, a, b) {
        var i, j :| 0 <= i < |a| - 1 && 0 <= j < |b| && Overlaps(a[1..][i], b[j]) && z == Meet(a[1..][i], b[j]);
        assert a[1..][i] == a[i + 1];
      }
      MeetsOne(a[0], b) + rest
  }

  lemma MeetsNonEmpty(a: seq<Range>, b: seq<Range>)
    ensures forall k :: 0 <= k < |Meets(a, b)| ==> NonEmpty(Meets(a, b)[k])
  {
    var m := Meets(a, b);
    forall k | 0 <= k < |m| ensures NonEmpty(m[k]) {
      assert m[k] in m;
    }
  }

  /** The pairwise intersections admit exactly the versions both lists admit. */
  lemma MeetsContains(a: seq<Range>, b: seq<Range>, v: Version)
    ensures Contains(Meets(a, b), v) <==> Contains(a, v) && Contains(b, v)
  {
    var m := Meets(a, b);
    if Contains(m, v) {
      var k :| 0 <= k < |m| && InRange(m[k], v);
      assert m[k] in m;
      var i, j :| 0 <= i < |a| && 0 <= j < |b| && Overlaps(a[i], b[j]) && m[k] == Meet(a[i], b[j]);
      MeetInRange(a[i], b[j], v);
    }
    if Contains(a, v) && Contains(b, v) {
      var i :| 0 <= i < |a| && InRange(a[i], v);
      var j :| 0 <= j < |b| && InRange(b[j], v);
      MeetInRange(a[i], b[j], v);
      InRangeNonEmpty(Meet(a[i], b[j]), v);
      assert IsPairMeet(Meet(a[i], b[j]), a, b);
      var k :| 0 <= k < |m| && m[k] == Meet(a[i], b[j]);
    }
  }

  /**
   * The intersection of two version lists: every pair of ranges is
   * intersected and the non-empty results are added to an initially empty
   * list. It admits exactly the versions both lists admit.
   */
  function Intersect(a: seq<Range>, b: seq<Range>): (res: seq<Range>)
    ensures Normalized(res)
    ensures forall v :: Contains(res, v) <==> Contains(a, v) && Contains(b, v)
  {
    var m := Meets(a, b);
    MeetsNonEmpty(a, b);
    forall v ensures Contains(AddAll([], m), v) <==> Contains(a, v) && Contains(b, v) {
      MeetsContains(a, b, v);
    }
    AddAll([], m)
  }

  /** Two lists overlap exactly when some version is admitted by both. */
  lemma ListsOverlapIffCommonVersion(a: seq<Range>, b: seq<Range>)
    ensures ListsOverlap(a, b) <==> exists v :: Contains(a, v) && Contains(b, v)
  {
    if ListsOverlap(a, b) {
      var i, j :| 0 <= i < |a| && 0 <= j < |b| && Overlaps(a[i], b[j]);
      var v := NonEmptyHasVersion(Meet(a[i], b[j]));
      MeetInRange(a[i], b[j], v);
      assert Contains(a, v) && Contains(b, v);
    }
    if v :| Contains(a, v) && Contains(b, v) {
      var i :| 0 <= i < |a| && InRange(a[i], v);
      var j :| 0 <= j < |b| && InRange(b[j], v);
      MeetInRange(a[i], b[j], v);
      InRangeNonEmpty(Meet(a[i], b[j]), v);
    }
  }

  /** The intersection is empty exactly when no range of one list overlaps a range of the other. */
  lemma IntersectEmptyIffDisjoint(a: seq<Range>, b: seq<Range>)
    ensures Intersect(a, b) != [] <==> ListsOverlap(a, b)
  {
    var res := Intersect(a, b);
    ListsOverlapIffCommonVersion(a, b);
    if res != [] {
      var v := NonEmptyHasVersion(res[0]);
      assert Contains(res, v);
    }
  }

  lemma ListsOverlapSymmetric(a: seq<Range>, b: seq<Range>)
    ensures ListsOverlap(a, b) <==> ListsOverlap(b, a)
  {
    ListsOverlapIffCommonVersion(a, b);
    ListsOverlapIffCommonVersion(b, a);
  }

  lemma MeetsOneNormalized(x: Range, b: seq<Range>)
    requires Normalized(b)
    ensures Normalized(MeetsOne(x, b))
    decreases |b|
  {
    if b != [] {
      NormalizedTail(b);
      MeetsOneNormalized(x, b[1..]);
      var rest := MeetsOne(x, b[1..]);
      if Overlaps(x, b[0]) {
        var m0 := Meet(x, b[0]);
        MeetWithin(x, b[0]);
        forall k | 0 <= k < |rest| ensures Below(m0, rest[k]) {
          assert rest[k] in rest;
          var j :| 0 <= j < |b[1..]| && Overlaps(x, b[1..][j]) && rest[k] == Meet(x, b[1..][j]);
          assert b[1..][j] == b[j + 1];
          MeetWithin(x, b[1..][j]);
          WithinBelow(m0, b[0], rest[k], b[1..][j]);
        }
        NormalizedConcat([m0], rest);
      }
    }
  }

  /** The pairwise intersections of two normalized lists are already normalized, in nested-loop order. */
  lemma {:induction false} MeetsNormalized(a: seq<Range>, b: seq<Range>)
    requires Normalized(a) && Normalized(b)
    ensures Normalized(Meets(a, b))
    decreases |a|
  {
    if a != [] {
      NormalizedTail(a);
      MeetsNormalized(a[1..], b);
      MeetsOneNormalized(a[0], b);
      var head := MeetsOne(a[0], b);
      var rest := Meets(a[1..], b);
      forall p, q | 0 <= p < |head| && 0 <= q < |rest| ensures Below(head[p], rest[q]) {
        assert head[p] in head;
        var j :| 0 <= j < |b| && Overlaps(a[0], b[j]) && head[p] == Meet(a[0], b[j]);
        MeetWithin(a[0], b[j]);
        assert rest[q] in rest;
        var i, k :| 0 <= i < |a[1..]| && 0 <= k < |b| && Overlaps(a[1..][i], b[k]) && rest[q] == Meet(a[1..][i], b[k]);
        assert a[1..][i] == a[i + 1];
        MeetWithin(a[1..][i], b[k]);
        WithinBelow(head[p], a[0], rest[q], a[1..][i]);
      }
      NormalizedConcat(head, rest);
    }
  }

  /** Adding a range above every range of the list appends it. */
  lemma {:induction false} AddAtEnd(l: seq<Range>, r: Range)
    requires Normalized(l) && NonEmpty(r)
    requires forall i :: 0 <= i < |l| ==> Below(l[i], r)
    ensures Add(l, r) == l + [r]
    decreases |l|
  {
    if l != [] {
      NormalizedTail(l);
      AddAtEnd(l[1..], r);
      assert [l[0]] + (l[1..] + [r]) == l + [r];
    }
  }

  /** Adding an ascending run of ranges above a list appends the run unchanged. */
  lemma {:induction false} AddAllSorted(l: seq<Range>, rs: seq<Range>)
    requires Normalized(l) && Normalized(rs)
    requires forall i, j :: 0 <= i < |l| && 0 <= j < |rs| ==> Below(l[i], rs[j])
    ensures AddAll(l, rs) == l + rs
    decreases |rs|
  {
    if rs != [] {
      AddAtEnd(l, rs[0]);
      var l' := l + [rs[0]];
      assert AddAll(l, rs) == AddAll(l', rs[1..]);
      AppendAbove(l, rs);
      NormalizedTail(rs);
      AddAllSorted(l', rs[1..]);
      ConcatShift(l, rs);
    }
  }

  lemma ConcatShift<T>(l: seq<T>, rs: seq<T>)
    requires rs != []
    ensures (l + [rs[0]]) + rs[1..] == l + rs
  {
    assert [rs[0]] + rs[1..] == rs;
  }

  /** Moving the first range of an ascending run onto the end of the list below it keeps both ascending. */
  lemma AppendAbove(l: seq<Range>, rs: seq<Range>)
    requires Normalized(l) && Normalized(rs) && rs != []
    requires forall i, j :: 0 <= i < |l| && 0 <= j < |rs| ==> Below(l[i], rs[j])
    ensures Normalized(l + [rs[0]])
    ensures forall i, j :: 0 <= i < |l| + 1 && 0 <= j < |rs| - 1 ==> Below((l + [rs[0]])[i], rs[1..][j])
  {
    NormalizedConcat(l, [rs[0]]);
    var l' := l + [rs[0]];
    forall i, j | 0 <= i < |l'| && 0 <= j < |rs| - 1 ensures Below(l'[i], rs[1..][j]) {
      assert rs[1..][j] == rs[j + 1];
      if i == |l| {
        assert l'[i] == rs[0];
      } else {
        assert l'[i] == l[i];
      }
    }
  }

  /** For normalized inputs no merging happens: the intersection is the list of pairwise intersections. */
  lemma IntersectIsMeets(a: seq<Range>, b: seq<Range>)
    requires Normalized(a) && Normalized(b)
    ensures Intersect(a, b) == Meets(a, b)
  {
    MeetsNormalized(a, b);
    AddAllSorted([], Meets(a, b));
    assert [] + Meets(a, b) == Meets(a, b);
  }

  /** The ranges of the intersection of normalized lists are exactly the non-empty pairwise intersections. */
  lemma IntersectMembers(a: seq<Range>, b: seq<Range>)
    requires Normalized(a) && Normalized(b)
    ensures forall z :: z in Intersect(a, b) <==> IsPairMeet(z, a, b)
  {
    IntersectIsMeets(a, b);
  }

  /** The ranges after the first are the ranges other than the first. */
  lemma TailMembers(x: seq<Range>)
    requires Normalized(x) && x != []
    ensures forall z :: z in x[1..] <==> z in x && z != x[0]
  {
    forall z | z in x[1..] ensures z != x[0] {
      var i :| 0 <= i < |x[1..]| && x[1..][i] == z;
      assert x[i + 1] == z;
      BelowAsymmetric(x[0], x[i + 1]);
    }
    forall z | z in x && z != x[0] ensures z in x[1..] {
      var j :| 0 <= j < |x| && x[j] == z;
      assert x[1..][j - 1] == z;
    }
  }

  /** Two normalized lists with the same ranges start with the same range. */
  lemma SameFirst(x: seq<Range>, y: seq<Range>)
    requires Normalized(x) && Normalized(y) && x != [] && y != []
    requires forall z :: z in x <==> z in y
    ensures x[0] == y[0]
  {
    assert x[0] in x && y[0] in y;
    var k :| 0 <= k < |y| && y[k] == x[0];
    var m :| 0 <= m < |x| && x[m] == y[0];
    if x[0] != y[0] {
      assert 0 < k && 0 < m;
      assert Below(y[0], y[k]) && Below(x[0], x[m]);
      BelowAsymmetric(y[0], x[0]);
      assert false;
    }
  }

  /** A normalized list is determined by the set of its ranges. */
  lemma {:induction false} NormalizedUnique(x: seq<Range>, y: seq<Range>)
    requires Normalized(x) && Normalized(y)
    requires forall z :: z in x <==> z in y
    ensures x == y
    decreases |x|
  {
    assert x == [] <==> y == [] by {
      if x != [] { assert x[0] in y; }
      if y != [] { assert y[0] in x; }
    }
    if x != [] {
      SameFirst(x, y);
      NormalizedTail(x);
      NormalizedTail(y);
      TailMembers(x);
      TailMembers(y);
      NormalizedUnique(x[1..], y[1..]);
      assert x == [x[0]] + x[1..] && y == [y[0]] + y[1..];
    }
  }

  lemma IntersectCommutes(a: seq<Range>, b: seq<Range>)
    requires Normalized(a) && Normalized(b)
    ensures Intersect(a, b) == Intersect(b, a)
  {
    IntersectMembers(a, b);
    IntersectMembers(b, a);
    forall z ensures IsPairMeet(z, a, b) <==> IsPairMeet(z, b, a) {
      if IsPairMeet(z, a, b) {
        var i, j :| 0 <= i < |a| && 0 <= j < |b| && Overlaps(a[i], b[j]) && z == Meet(a[i], b[j]);
        MeetCommutes(a[i], b[j]);
      }
      if IsPairMeet(z, b, a) {
        var j, i :| 0 <= j < |b| && 0 <= i < |a| && Overlaps(b[j], a[i]) && z == Meet(b[j], a[i]);
        MeetCommutes(a[i], b[j]);
      }
    }
    NormalizedUnique(Intersect(a, b), Intersect(b, a));
  }

  /** `[AnyRange]`, the list of an unconstrained version, is the identity of intersection. */
  lemma IntersectAny(b: seq<Range>)
    requires Normalized(b)
    ensures Intersect([AnyRange], b) == b
  {
    IntersectMembers([AnyRange], b);
    forall z ensures IsPairMeet(z, [AnyRange], b) <==> z in b {
      if z in b {
        var j :| 0 <= j < |b| && b[j] == z;
        MeetCommutes(AnyRange, z);
        MeetOfWithin(z, AnyRange);
        assert [AnyRange][0] == AnyRange;
      }
      if IsPairMeet(z, [AnyRange], b) {
        var i, j :| 0 <= i < 1 && 0 <= j < |b| && Overlaps([AnyRange][i], b[j]) && z == Meet([AnyRange][i], b[j]);
        MeetCommutes(AnyRange, b[j]);
        MeetOfWithin(b[j], AnyRange);
      }
    }
    NormalizedUnique(Intersect([AnyRange], b), b);
  }

  lemma SelfPairMeet(a: seq<Range>, z: Range)
    requires Normalized(a)
    ensures IsPairMeet(z, a, a) <==> z in a
  {
    if z in a {
      var i :| 0 <= i < |a| && a[i] == z;
      MeetIdempotent(z);
      assert Overlaps(a[i], a[i]) && z == Meet(a[i], a[i]);
    }
    if IsPairMeet(z, a, a) {
      var i, j :| 0 <= i < |a| && 0 <= j < |a| && Overlaps(a[i], a[j]) && z == Meet(a[i], a[j]);
      DiagonalOverlap(a, i, j);
      MeetIdempotent(a[i]);
    }
  }

  /** In a normalized list a range overlaps only itself. */
  lemma DiagonalOverlap(a: seq<Range>, i: int, j: int)
    requires Normalized(a) && 0 <= i < |a| && 0 <= j < |a|
    requires Overlaps(a[i], a[j])
    ensures i == j
  {
    if i < j { BelowAsymmetric(a[i], a[j]); }
    if j < i { BelowAsymmetric(a[j], a[i]); MeetCommutes(a[i], a[j]); }
  }

  /** Intersecting a normalized list with itself gives it back. */
  lemma IntersectSelf(a: seq<Range>)
    requires Normalized(a)
    ensures Intersect(a, a) == a
  {
    IntersectMembers(a, a);
    forall z ensures z in Intersect(a, a) <==> z in a {
      SelfPairMeet(a, z);
    }
    NormalizedUnique(Intersect(a, a), a);
  }

  /** `z` is a non-empty intersection of one range from each of three lists. */
  predicate IsTripleMeet(z: Range, a: seq<Range>, b: seq<Range>, c: seq<Range>)
  {
    exists i, j, k :: 0 <= i < |a| && 0 <= j < |b| && 0 <= k < |c|
      && NonEmpty(Meet(Meet(a[i], b[j]), c[k])) && z == Meet(Meet(a[i], b[j]), c[k])
  }

  lemma TripleAt(z: Range, a: seq<Range>, b: seq<Range>, c: seq<Range>, i: int, j: int, k: int)
    requires 0 <= i < |a| && 0 <= j < |b| && 0 <= k < |c|
    requires NonEmpty(Meet(Meet(a[i], b[j]), c[k])) && z == Meet(Meet(a[i], b[j]), c[k])
    ensures IsTripleMeet(z, a, b, c)
  {
  }

  lemma PairInTriple(a: seq<Range>, b: seq<Range>, c: seq<Range>, z: Range)
    requires Normalized(a) && Normalized(b)
    requires IsPairMeet(z, Intersect(a, b), c)
    ensures IsTripleMeet(z, a, b, c)
  {
    var ab := Intersect(a, b);
    var m, k :| 0 <= m < |ab| && 0 <= k < |c| && Overlaps(ab[m], c[k]) && z == Meet(ab[m], c[k]);
    IntersectMembers(a, b);
    assert ab[m] in ab;
    var i, j :| 0 <= i < |a| && 0 <= j < |b| && Overlaps(a[i], b[j]) && ab[m] == Meet(a[i], b[j]);
    TripleAt(z, a, b, c, i, j, k);
  }

  lemma TripleMember(a: seq<Range>, b: seq<Range>, c: seq<Range>, z: Range)
    requires Normalized(a) && Normalized(b) && Normalized(c)
    ensures z in Intersect(Intersect(a, b), c) <==> IsTripleMeet(z, a, b, c)
  {
    IntersectMembers(Intersect(a, b), c);
    if IsPairMeet(z, Intersect(a, b), c) {
      PairInTriple(a, b, c, z);
    }
    if IsTripleMeet(z, a, b, c) {
      var i, j, k :| 0 <= i < |a| && 0 <= j < |b| && 0 <= k < |c|
        && NonEmpty(Meet(Meet(a[i], b[j]), c[k])) && z == Meet(Meet(a[i], b[j]), c[k]);
      TripleInPair(a, b, c, i, j, k);
    }
  }

  lemma TripleInPair(a: seq<Range>, b: seq<Range>, c: seq<Range>, i: int, j: int, k: int)
    requires Normalized(a) && Normalized(b)
    requires 0 <= i < |a| && 0 <= j < |b| && 0 <= k < |c| && NonEmpty(Meet(Meet(a[i], b[j]), c[k]))
    ensures IsPairMeet(Meet(Meet(a[i], b[j]), c[k]), Intersect(a, b), c)
  {
    var ab := Intersect(a, b);
    var w := Meet(a[i], b[j]);
    MeetWithin(w, c[k]);
    WithinNonEmpty(Meet(w, c[k]), w);
    IntersectMembers(a, b);
    assert IsPairMeet(w, a, b);
    var m :| 0 <= m < |ab| && ab[m] == w;
    assert Overlaps(ab[m], c[k]);
  }

  /** Constraining by `b` and then `c` gives the same list as by `c` and then `b`. */
  lemma IntersectSwap(a: seq<Range>, b: seq<Range>, c: seq<Range>)
    requires Normalized(a) && Normalized(b) && Normalized(c)
    ensures Intersect(Intersect(a, b), c) == Intersect(Intersect(a, c), b)
  {
    forall z ensures z in Intersect(Intersect(a, b), c) <==> z in Intersect(Intersect(a, c), b) {
      TripleMember(a, b, c, z);
      TripleMember(a, c, b, z);
      TripleSwap(a, b, c, z);
    }
    NormalizedUnique(Intersect(Intersect(a, b), c), Intersect(Intersect(a, c), b));
  }

  lemma MeetSwap(x: Range, y: Range, w: Range)
    ensures Meet(Meet(x, y), w) == Meet(Meet(x, w), y)
  {
    MeetAssociates(x, y, w);
    MeetCommutes(y, w);
    MeetAssociates(x, w, y);
  }

  lemma TripleSwapOne(a: seq<Range>, b: seq<Range>, c: seq<Range>, z: Range)
    requires IsTripleMeet(z, a, b, c)
    ensures IsTripleMeet(z, a, c, b)
  {
    var i, j, k :| 0 <= i < |a| && 0 <= j < |b| && 0 <= k < |c|
      && NonEmpty(Meet(Meet(a[i], b[j]), c[k])) && z == Meet(Meet(a[i], b[j]), c[k]);
    MeetSwap(a[i], b[j], c[k]);
    TripleAt(z, a, c, b, i, k, j);
  }

  lemma TripleSwap(a: seq<Range>, b: seq<Range>, c: seq<Range>, z: Range)
    ensures IsTripleMeet(z, a, b, c) <==> IsTripleMeet(z, a, c, b)
  {
    if IsTripleMeet(z, a, b, c) {
      TripleSwapOne(a, b, c, z);
    }
    if IsTripleMeet(z, a, c, b) {
      TripleSwapOne(a, c, b, z);
    }
  }

  lemma IntersectAssociates(a: seq<Range>, b: seq<Range>, c: seq<Range>)
    requires Normalized(a) && Normalized(b) && Normalized(c)
    ensures Intersect(Intersect(a, b), c) == Intersect(a, Intersect(b, c))
  {
    IntersectSwap(a, b, c);
    IntersectCommutes(a, c);
    IntersectSwap(c, a, b);
    IntersectCommutes(c, b);
    IntersectCommutes(Intersect(b, c), a);
  }

  /** Constraining twice by the same list changes nothing the second time. */
  lemma IntersectAbsorbs(a: seq<Range>, b: seq<Range>)
    requires Normalized(a) && Normalized(b)
    ensures Intersect(Intersect(a, b), b) == Intersect(a, b)
  {
    IntersectAssociates(a, b, b);
    IntersectSelf(b);
  }

  /** Intersecting two single ranges gives their meet, or nothing when they are disjoint. */
  lemma IntersectSingletons(r: Range, s: Range)
    requires NonEmpty(r) && NonEmpty(s)
    ensures Intersect([r], [s]) == if Overlaps(r, s) then [Meet(r, s)] else []
  {
    IntersectIsMeets([r], [s]);
    assert [r][1..] == [];
    assert [s][1..] == [];
    assert MeetsOne(r, [s]) == (if Overlaps(r, s) then [Meet(r, s)] else []) + [];
    assert Meets([r], [s]) == MeetsOne(r, [s]) + Meets([], [s]);
  }
}
