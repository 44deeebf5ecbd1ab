/**
 * Version values and version ranges.
 *
 * A version keeps the text it was written with (that is what a spec renders)
 * and is ordered by the segments that text splits into: runs of digits compare
 * as integers, other runs compare as strings, a numeric segment is greater than
 * a non-numeric one at the same position, and a version that is a proper prefix
 * of another is smaller. Two different texts with the same segments ("1.2",
 * "1-2") are ordered by their text, so the order is a strict total order on
 * versions and equal versions are equal values.
 */
module Versions {
  import opened Wrappers
  import opened Strings

  datatype Segment = Num(value: nat) | Word(text: string)

  predicate IsDigit(c: char) { '0' <= c <= '9' }

  predicate IsSeparator(c: char) { c == '.' || c == '-' || c == '_' }

  /** Length of the leading run of non-separator characters whose digit-ness is `digits`. */
  function RunLength(s: string, digits: bool): (n: nat)
    ensures n <= |s|
    ensures forall i :: 0 <= i < n ==> !IsSeparator(s[i]) && IsDigit(s[i]) == digits
    ensures n < |s| ==> IsSeparator(s[n]) || IsDigit(s[n]) != digits
    ensures s != [] && !IsSeparator(s[0]) && IsDigit(s[0]) == digits ==> n >= 1
  {
    if s == [] || IsSeparator(s[0]) || IsDigit(s[0]) != digits then 0
    else 1 + RunLength(s[1..], digits)
  }

  /** The integer that a string of decimal digits denotes. */
  function DecimalValue(ds: string): nat
    requires forall i :: 0 <= i < |ds| ==> IsDigit(ds[i])
  {
    if ds == [] then 0
    else
      var last := ds[|ds| - 1];
      assert IsDigit(last);
      DecimalValue(ds[..|ds| - 1]) * 10 + (last as int - '0' as int)
  }

  /**
   * The segments of a version string: split at '.', '-', '_' and at every
   * change between digits and non-digits.
   */
  function Segments(text: string): seq<Segment>
    decreases |text|
  {
    if text == [] then []
    else if IsSeparator(text[0]) then Segments(text[1..])
    else
      var digits := IsDigit(text[0]);
      var n := RunLength(text, digits);
      [if digits then Num(DecimalValue(text[..n])) else Word(text[..n])] + Segments(text[n..])
  }

  predicate SegmentLess(a: Segment, b: Segment)
  {
    match (a, b)
    case (Num(x), Num(y)) => x < y
    case (Word(x), Word(y)) => StrLess(x, y)
    case (Word(_), Num(_)) => true
    case (Num(_), Word(_)) => false
  }

  /** Segment-wise comparison; running out of segments first means smaller. */
  predicate SegmentsLess(a: seq<Segment>, b: seq<Segment>)
  {
    if a == [] then b != []
    else if b == [] then false
    else SegmentLess(a[0], b[0]) || (a[0] == b[0] && SegmentsLess(a[1..], b[1..]))
  }

  lemma SegmentLessIsStrictTotal(a: Segment, b: Segment, c: Segment)
    ensures !SegmentLess(a, a)
    ensures SegmentLess(a, b) && SegmentLess(b, c) ==> SegmentLess(a, c)
    ensures a == b || SegmentLess(a, b) || SegmentLess(b, a)
  {
    if a.Word? {
      StrLessIrreflexive(a.text);
      if b.Word? {
        StrLessTrichotomy(a.text, b.text);
        if c.Word? && SegmentLess(a, b) && SegmentLess(b, c) {
          StrLessTransitive(a.text, b.text, c.text);
        }
      }
    }
  }

  lemma {:induction false} SegmentsLessIrreflexive(a: seq<Segment>)
    ensures !SegmentsLess(a, a)
  {
    if a != [] {
      SegmentLessIsStrictTotal(a[0], a[0], a[0]);
      SegmentsLessIrreflexive(a[1..]);
    }
  }

  lemma {:induction false} SegmentsLessTransitive(a: seq<Segment>, b: seq<Segment>, c: seq<Segment>)
    requires SegmentsLess(a, b) && SegmentsLess(b, c)
    ensures SegmentsLess(a, c)
  {
    if a != [] && b != [] && c != [] {
      SegmentLessIsStrictTotal(a[0], b[0], c[0]);
      if a[0] == b[0] && b[0] == c[0] {
        SegmentsLessTransitive(a[1..], b[1..], c[1..]);
      }
    }
  }

  lemma {:induction false} SegmentsLessTrichotomy(a: seq<Segment>, b: seq<Segment>)
    ensures a == b || SegmentsLess(a, b) || SegmentsLess(b, a)
  {
    if a != [] && b != [] {
      SegmentLessIsStrictTotal(a[0], b[0], b[0]);
      if a[0] == b[0] {
        SegmentsLessTrichotomy(a[1..], b[1..]);
        if a[1..] == b[1..] {
          assert a == [a[0]] + a[1..] && b == [b[0]] + b[1..];
        }
      }
    }
  }

  datatype Version = Version(text: string)

  /** The version order: by segments, then by text. */
  predicate Less(a: Version, b: Version)
  {
    var sa, sb := Segments(a.text), Segments(b.text);
    SegmentsLess(sa, sb) || (sa == sb && StrLess(a.text, b.text))
  }

  predicate LessEq(a: Version, b: Version)
  {
    a == b || Less(a, b)
  }

  lemma LessIrreflexive(a: Version)
    ensures !Less(a, a)
  {
    SegmentsLessIrreflexive(Segments(a.text));
    StrLessIrreflexive(a.text);
  }

  lemma LessTransitive(a: Version, b: Version, c: Version)
    requires Less(a, b) && Less(b, c)
    ensures Less(a, c)
  {
    var sa, sb, sc := Segments(a.text), Segments(b.text), Segments(c.text);
    if SegmentsLess(sa, sb) && SegmentsLess(sb, sc) {
      SegmentsLessTransitive(sa, sb, sc);
    } else if SegmentsLess(sa, sb) || SegmentsLess(sb, sc) {
    } else {
      StrLessTransitive(a.text, b.text, c.text);
    }
  }

  lemma LessTrichotomy(a: Version, b: Version)
    ensures a == b || Less(a, b) || Less(b, a)
  {
    SegmentsLessTrichotomy(Segments(a.text), Segments(b.text));
    StrLessTrichotomy(a.text, b.text);
  }

  /** The version order is a strict total order. */
  lemma VersionOrder()
    ensures forall a :: !Less(a, a)
    ensures forall a, b, c :: Less(a, b) && Less(b, c) ==> Less(a, c)
    ensures forall a, b :: a == b || Less(a, b) || Less(b, a)
  {
    forall a ensures !Less(a, a) { LessIrreflexive(a); }
    forall a, b, c | Less(a, b) && Less(b, c) ensures Less(a, c) { LessTransitive(a, b, c); }
    forall a, b ensures a == b || Less(a, b) || Less(b, a) { LessTrichotomy(a, b); }
  }

  /**
   * An inclusive version range; a missing bound is unbounded on that side.
   * A single version is the range whose two bounds are that version.
   */
  datatype Range = Range(lo: Option<Version>, hi: Option<Version>)

  /** The range `:` that admits every version. */
  const AnyRange := Range(None, None)

  function Exact(v: Version): Range
  {
    Range(Some(v), Some(v))
  }

  predicate NonEmpty(r: Range)
  {
    r.lo.Some? && r.hi.Some? ==> LessEq(r.lo.value, r.hi.value)
  }

  predicate InRange(r: Range, v: Version)
  {
    (r.lo.Some? ==> LessEq(r.lo.value, v)) && (r.hi.Some? ==> LessEq(v, r.hi.value))
  }

  function MaxLow(a: Option<Version>, b: Option<Version>): Option<Version>
  {
    if a.None? then b else if b.None? then a else if Less(a.value, b.value) then b else a
  }

  function MinHigh(a: Option<Version>, b: Option<Version>): Option<Version>
  {
    if a.None? then b else if b.None? then a else if Less(a.value, b.value) then a else b
  }

  function MinLow(a: Option<Version>, b: Option<Version>): Option<Version>
  {
    if a.None? || b.None? then None else if Less(a.value, b.value) then a else b
  }

  function MaxHigh(a: Option<Version>, b: Option<Version>): Option<Version>
  {
    if a.None? || b.None? then None else if Less(a.value, b.value) then b else a
  }

  /** The intersection of two ranges (possibly empty). */
  function Meet(r: Range, s: Range): Range
  {
    Range(MaxLow(r.lo, s.lo), MinHigh(r.hi, s.hi))
  }

  /** The smallest range covering both ranges. */
  function Hull(r: Range, s: Range): Range
  {
    Range(MinLow(r.lo, s.lo), MaxHigh(r.hi, s.hi))
  }

  /** Two ranges share a version. */
  predicate Overlaps(r: Range, s: Range)
  {
    NonEmpty(Meet(r, s))
  }

  /** Every version of `r` is below every version of `s`. */
  predicate Below(r: Range, s: Range)
  {
    r.hi.Some? && s.lo.Some? && Less(r.hi.value, s.lo.value)
  }

  /** `r` lies inside `s`. */
  predicate Within(r: Range, s: Range)
  {
    && (s.lo.Some? ==> r.lo.Some? && LessEq(s.lo.value, r.lo.value))
    && (s.hi.Some? ==> r.hi.Some? && LessEq(r.hi.value, s.hi.value))
  }

  /** A range that admits some version is not empty. */
  lemma InRangeNonEmpty(r: Range, v: Version)
    requires InRange(r, v)
    ensures NonEmpty(r)
  {
    VersionOrder();
  }

  /** A non-empty range admits some version. */
  lemma NonEmptyHasVersion(r: Range) returns (v: Version)
    requires NonEmpty(r)
    ensures InRange(r, v)
  {
    VersionOrder();
    v := if r.lo.Some? then r.lo.value else if r.hi.Some? then r.hi.value else Version("");
  }

  lemma MeetInRange(r: Range, s: Range, v: Version)
    ensures InRange(Meet(r, s), v) <==> InRange(r, v) && InRange(s, v)
  {
    VersionOrder();
  }

  lemma MeetCommutes(r: Range, s: Range)
    ensures Meet(r, s) == Meet(s, r)
  {
    VersionOrder();
  }

  lemma MeetAssociates(r: Range, s: Range, t: Range)
    ensures Meet(Meet(r, s), t) == Meet(r, Meet(s, t))
  {
    VersionOrder();
  }

  lemma MeetIdempotent(r: Range)
    ensures Meet(r, r) == r
  {
    VersionOrder();
  }

  lemma MeetWithin(r: Range, s: Range)
    ensures Within(Meet(r, s), r) && Within(Meet(r, s), s)
  {
    VersionOrder();
  }

  lemma WithinNonEmpty(r: Range, s: Range)
    requires Within(r, s) && NonEmpty(r)
    ensures NonEmpty(s)
  {
    VersionOrder();
  }

  lemma WithinBelow(z1: Range, p: Range, z2: Range, q: Range)
    requires Within(z1, p) && Within(z2, q) && Below(p, q)
    ensures Below(z1, z2)
  {
    VersionOrder();
  }

  lemma WithinSelf(r: Range)
    ensures Within(r, r)
  {
  }

  lemma WithinTransitive(a: Range, b: Range, c: Range)
    requires Within(a, b) && Within(b, c)
    ensures Within(a, c)
  {
    VersionOrder();
  }

  lemma MeetOfWithin(r: Range, s: Range)
    requires Within(r, s)
    ensures Meet(r, s) == r
  {
    VersionOrder();
  }

  /** For non-empty ranges, sharing a version is the same as neither lying below the other. */
  lemma OverlapsIffNotBelow(r: Range, s: Range)
    requires NonEmpty(r) && NonEmpty(s)
    ensures Overlaps(r, s) <==> !Below(r, s) && !Below(s, r)
  {
    VersionOrder();
  }

  lemma BelowTransitive(a: Range, b: Range, c: Range)
    requires Below(a, b) && Below(b, c) && NonEmpty(b)
    ensures Below(a, c)
  {
    VersionOrder();
  }

  lemma BelowAsymmetric(a: Range, b: Range)
    requires Below(a, b) && NonEmpty(a) && NonEmpty(b)
    ensures !Below(b, a) && !Overlaps(a, b) && a != b
  {
    VersionOrder();
  }

  /** The hull of two overlapping ranges contains exactly the versions of the two. */
  lemma HullInRange(r: Range, s: Range, v: Version)
    requires NonEmpty(r) && NonEmpty(s) && Overlaps(r, s)
    ensures InRange(Hull(r, s), v) <==> InRange(r, v) || InRange(s, v)
  {
    VersionOrder();
  }

  lemma HullNonEmpty(r: Range, s: Range)
    requires NonEmpty(r) && NonEmpty(s)
    ensures NonEmpty(Hull(r, s))
  {
    VersionOrder();
  }

  /** A range below both `r` and `s` is below their hull. */
  lemma BelowHull(b: Range, r: Range, s: Range)
    requires Below(b, r) && Below(b, s)
    ensures Below(b, Hull(r, s))
  {
  }

  /** A range that lies below a range is below every range inside it. */
  lemma BelowWithin(p: Range, q: Range, z: Range)
    requires Below(p, q) && Within(z, q)
    ensures Below(p, z)
  {
    VersionOrder();
  }

  /** Two staggered ranges `a:b` and `c:d` with a <= c <= b <= d meet in `c:b`. */
  lemma MeetStaggered(a: Version, b: Version, c: Version, d: Version)
    requires LessEq(a, c) && LessEq(c, b) && LessEq(b, d)
    ensures Meet(Range(Some(a), Some(b)), Range(Some(c), Some(d))) == Range(Some(c), Some(b))
    ensures Overlaps(Range(Some(a), Some(b)), Range(Some(c), Some(d)))
  {
    VersionOrder();
  }

  /** Ranges `a:b` and `c:d` with b < c share no version. */
  lemma SeparatedDisjoint(a: Version, b: Version, c: Version, d: Version)
    requires Less(b, c)
    ensures !Overlaps(Range(Some(a), Some(b)), Range(Some(c), Some(d)))
    ensures !Overlaps(Range(Some(c), Some(d)), Range(Some(a), Some(b)))
  {
    VersionOrder();
  }
}
