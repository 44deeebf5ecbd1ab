/**
 * The satisfaction and constraint cases of the spec test suite, stated on
 * spec values: a version inside a range, staggered ranges, variants set on
 * one or both sides, and architectures set on one or both sides.
 */
module SpecExamples {
  import opened Wrappers
  import opened Strings
  import opened Versions
  import opened VersionLists
  import opened Specs

  function V(text: string): Version
  {
    Version(text)
  }

  function Between(lo: string, hi: string): Range
  {
    Range(Some(V(lo)), Some(V(hi)))
  }

  // The order on the short versions the examples use, stated on their
  // digits so that each comparison is a call rather than an evaluation.

  lemma DigitSegments(d: char)
    requires IsDigit(d)
    ensures Segments([d]) == [Num(d as int - '0' as int)]
  {
    assert [d][..1] == [d] && [d][1..] == [];
    assert DecimalValue([d]) == d as int - '0' as int by {
      assert [d][..0] == [];
    }
  }

  lemma LeadingDigit(d: char, rest: string)
    requires IsDigit(d)
    ensures Segments([d, '.'] + rest) == [Num(d as int - '0' as int)] + Segments(rest)
  {
    var s := [d, '.'] + rest;
    assert RunLength(s, true) == 1;
    assert s[..1] == [d] && s[1..][1..] == rest && s[1..] == ['.'] + rest;
    assert DecimalValue([d]) == d as int - '0' as int by {
      assert [d][..0] == [];
    }
  }

  lemma DottedSegments(d: char, e: char)
    requires IsDigit(d) && IsDigit(e)
    ensures Segments([d, '.', e]) == [Num(d as int - '0' as int), Num(e as int - '0' as int)]
  {
    LeadingDigit(d, [e]);
    DigitSegments(e);
    assert [d, '.', e] == [d, '.'] + [e];
  }

  /** `a` < `c` when a < c. */
  lemma SingleBelowSingle(a: char, c: char)
    requires IsDigit(a) && IsDigit(c) && a < c
    ensures Less(V([a]), V([c]))
  {
    DigitSegments(a);
    DigitSegments(c);
  }

  /** `a` < `c.d` when a <= c. */
  lemma SingleBelowDotted(a: char, c: char, d: char)
    requires IsDigit(a) && IsDigit(c) && IsDigit(d) && a <= c
    ensures Less(V([a]), V([c, '.', d]))
  {
    DigitSegments(a);
    DottedSegments(c, d);
  }

  /** `a.b` < `c` when a < c. */
  lemma DottedBelowSingle(a: char, b: char, c: char)
    requires IsDigit(a) && IsDigit(b) && IsDigit(c) && a < c
    ensures Less(V([a, '.', b]), V([c]))
  {
    DottedSegments(a, b);
    DigitSegments(c);
  }

  /** `a.b` < `c.d` when (a, b) < (c, d). */
  lemma DottedBelowDotted(a: char, b: char, c: char, d: char)
    requires IsDigit(a) && IsDigit(b) && IsDigit(c) && IsDigit(d)
    requires a < c || (a == c && b < d)
    ensures Less(V([a, '.', b]), V([c, '.', d]))
  {
    DottedSegments(a, b);
    DottedSegments(c, d);
  }

  /** `a` < `a.b...` < `c` when a < c, for a version `a.b...` of more than one segment. */
  lemma LongerVersion(s: string, c: char)
    requires |s| > 2 && IsDigit(s[0]) && s[1] == '.' && IsDigit(s[2]) && IsDigit(c) && s[0] < c
    ensures Less(V([s[0]]), V(s)) && Less(V(s), V([c]))
  {
    DigitSegments(s[0]);
    DigitSegments(c);
    assert s == [s[0], '.'] + s[2..];
    LeadingDigit(s[0], s[2..]);
    assert Segments(s[2..]) != [];
  }

  /** A spec `name@r1,r2,...` with nothing else set. */
  function Versioned(name: string, versions: seq<Range>): Spec
  {
    Spec(name, versions, None, map[], None, map[])
  }

  /** A spec `name^dep` with nothing else set. */
  function Depending(name: string, dep: Spec): (s: Spec)
    ensures WfTree(dep) ==> WfTree(s)
  {
    Spec(name, [AnyRange], None, map[], None, map[dep.name := dep])
  }

  /**
   * A spec pinned to a version inside a range and the spec with that range
   * satisfy each other, and constraining either by the other pins the version.
   */
  lemma ExactWithinRange(name: string, v: Version, r: Range)
    requires InRange(r, v)
    ensures Satisfies(Versioned(name, [Exact(v)]), Versioned(name, [r]))
    ensures Satisfies(Versioned(name, [r]), Versioned(name, [Exact(v)]))
    ensures ConstrainSpec(Versioned(name, [Exact(v)]), Versioned(name, [r])) == Success(Versioned(name, [Exact(v)]))
    ensures ConstrainSpec(Versioned(name, [r]), Versioned(name, [Exact(v)])) == Success(Versioned(name, [Exact(v)]))
  {
    var x, y := Versioned(name, [Exact(v)]), Versioned(name, [r]);
    VersionOrder();
    InRangeNonEmpty(r, v);
    assert Overlaps(Exact(v), r);
    assert Meet(Exact(v), r) == Exact(v);
    assert Meet(r, Exact(v)) == Exact(v);
    IntersectSingletons(Exact(v), r);
    IntersectSingletons(r, Exact(v));
    IntersectEmptyIffDisjoint(x.versions, y.versions);
    IntersectEmptyIffDisjoint(y.versions, x.versions);
    ConstrainSucceedsIffSatisfies(x, y);
    ConstrainSucceedsIffSatisfies(y, x);
    assert MergeDependencies(x, y) == map[];
    assert MergeDependencies(y, x) == map[];
  }

  /** Two dependencies that satisfy each other make their dependents satisfy each other. */
  lemma ThroughDependency(name: string, x: Spec, y: Spec)
    requires x.name == y.name && Satisfies(x, y)
    ensures Satisfies(Depending(name, x), Depending(name, y))
    ensures Satisfies(Depending(name, y), Depending(name, x))
    ensures ConstrainSpec(Depending(name, x), Depending(name, y)).Success?
    ensures ConstrainSpec(Depending(name, y), Depending(name, x)).Success?
  {
    var p, q := Depending(name, x), Depending(name, y);
    SatisfiesSymmetric(x, y);
    IntersectSelf([AnyRange]);
    IntersectEmptyIffDisjoint([AnyRange], [AnyRange]);
    assert Satisfies(p, q);
    SatisfiesSymmetric(p, q);
    ConstrainSucceedsIffSatisfies(p, q);
    ConstrainSucceedsIffSatisfies(q, p);
  }

  /** `libelf@0.8.13` and `libelf@0:1` satisfy each other, also as dependencies of `libdwarf`. */
  lemma LibelfSatisfies()
    ensures Satisfies(Versioned("libelf", [Exact(V("0.8.13"))]), Versioned("libelf", [Between("0", "1")]))
    ensures Satisfies(Versioned("libelf", [Between("0", "1")]), Versioned("libelf", [Exact(V("0.8.13"))]))
    ensures Satisfies(Depending("libdwarf", Versioned("libelf", [Exact(V("0.8.13"))])),
                      Depending("libdwarf", Versioned("libelf", [Between("0", "1")])))
    ensures ConstrainSpec(Depending("libdwarf", Versioned("libelf", [Between("0", "1")])),
                          Depending("libdwarf", Versioned("libelf", [Exact(V("0.8.13"))]))).Success?
  {
    LongerVersion("0.8.13", '1');
    ExactWithinRange("libelf", V("0.8.13"), Between("0", "1"));
    ThroughDependency("libdwarf", Versioned("libelf", [Exact(V("0.8.13"))]), Versioned("libelf", [Between("0", "1")]));
  }

  /** Constraining `name@a:b` by `name@c:d` with a <= c <= b <= d gives `name@c:b`. */
  lemma StaggeredRanges(name: string, a: Version, b: Version, c: Version, d: Version)
    requires LessEq(a, c) && LessEq(c, b) && LessEq(b, d)
    ensures ConstrainSpec(Versioned(name, [Range(Some(a), Some(b))]), Versioned(name, [Range(Some(c), Some(d))]))
         == Success(Versioned(name, [Range(Some(c), Some(b))]))
  {
    var x, y := Versioned(name, [Range(Some(a), Some(b))]), Versioned(name, [Range(Some(c), Some(d))]);
    VersionOrder();
    MeetStaggered(a, b, c, d);
    IntersectSingletons(Range(Some(a), Some(b)), Range(Some(c), Some(d)));
    assert MergeDependencies(x, y) == map[];
  }

  /** Constraining `name@a:b` by `name@c:d` with b < c fails on the versions. */
  lemma SeparatedRanges(name: string, a: Version, b: Version, c: Version, d: Version)
    requires LessEq(a, b) && Less(b, c) && LessEq(c, d)
    ensures ConstrainSpec(Versioned(name, [Range(Some(a), Some(b))]), Versioned(name, [Range(Some(c), Some(d))]))
         == Failure(UnsatisfiableVersions([Range(Some(a), Some(b))], [Range(Some(c), Some(d))]))
  {
    SeparatedDisjoint(a, b, c, d);
    IntersectSingletons(Range(Some(a), Some(b)), Range(Some(c), Some(d)));
  }

  lemma LibelfOrder()
    ensures Less(V("0"), V("2.1")) && Less(V("2.1"), V("2.5")) && Less(V("2.5"), V("3"))
  {
    SingleBelowDotted('0', '2', '1');
    DottedBelowDotted('2', '1', '2', '5');
    DottedBelowSingle('2', '5', '3');
  }

  lemma GccOrder()
    ensures Less(V("2"), V("4.5")) && Less(V("4.5"), V("4.6")) && Less(V("4.6"), V("4.7"))
  {
    SingleBelowDotted('2', '4', '5');
    DottedBelowDotted('4', '5', '4', '6');
    DottedBelowDotted('4', '6', '4', '7');
  }

  /** `libelf@0:2.5` constrained by `libelf@2.1:3` is `libelf@2.1:2.5`. */
  lemma StaggeredVersions()
    ensures ConstrainSpec(Versioned("libelf", [Between("0", "2.5")]), Versioned("libelf", [Between("2.1", "3")]))
         == Success(Versioned("libelf", [Between("2.1", "2.5")]))
  {
    LibelfOrder();
    StaggeredRanges("libelf", V("0"), V("2.5"), V("2.1"), V("3"));
  }

  /** `libelf@0:2.0` cannot be constrained by `libelf@2.1:3`. */
  lemma SeparatedVersions()
    ensures ConstrainSpec(Versioned("libelf", [Between("0", "2.0")]), Versioned("libelf", [Between("2.1", "3")]))
         == Failure(UnsatisfiableVersions([Between("0", "2.0")], [Between("2.1", "3")]))
  {
    SingleBelowDotted('0', '2', '0');
    DottedBelowDotted('2', '0', '2', '1');
    DottedBelowSingle('2', '1', '3');
    SeparatedRanges("libelf", V("0"), V("2.0"), V("2.1"), V("3"));
  }

  /** Constraining `name@a:b%c@e:f` by `name@c':d%c@g:h` intersects both version lists. */
  lemma StaggeredCompilers(name: string, compiler: string, a: Version, b: Version, c: Version, d: Version,
                           e: Version, f: Version, g: Version, h: Version)
    requires LessEq(a, c) && LessEq(c, b) && LessEq(b, d)
    requires LessEq(e, g) && LessEq(g, f) && LessEq(f, h)
    ensures ConstrainSpec(
              Spec(name, [Range(Some(a), Some(b))], Some(CompilerSpec(compiler, [Range(Some(e), Some(f))])), map[], None, map[]),
              Spec(name, [Range(Some(c), Some(d))], Some(CompilerSpec(compiler, [Range(Some(g), Some(h))])), map[], None, map[]))
         == Success(Spec(name, [Range(Some(c), Some(b))], Some(CompilerSpec(compiler, [Range(Some(g), Some(f))])), map[], None, map[]))
  {
    var x := Spec(name, [Range(Some(a), Some(b))], Some(CompilerSpec(compiler, [Range(Some(e), Some(f))])), map[], None, map[]);
    var y := Spec(name, [Range(Some(c), Some(d))], Some(CompilerSpec(compiler, [Range(Some(g), Some(h))])), map[], None, map[]);
    VersionOrder();
    MeetStaggered(a, b, c, d);
    MeetStaggered(e, f, g, h);
    IntersectSingletons(Range(Some(a), Some(b)), Range(Some(c), Some(d)));
    IntersectSingletons(Range(Some(e), Some(f)), Range(Some(g), Some(h)));
    assert MergeDependencies(x, y) == map[];
  }

  /** Constraining by a spec whose compiler versions are separated fails on the compiler. */
  lemma SeparatedCompilers(name: string, compiler: string, a: Version, b: Version, c: Version, d: Version,
                           e: Version, f: Version, g: Version, h: Version)
    requires LessEq(a, c) && LessEq(c, b) && LessEq(b, d)
    requires LessEq(g, h) && Less(h, e) && LessEq(e, f)
    ensures ConstrainSpec(
              Spec(name, [Range(Some(a), Some(b))], Some(CompilerSpec(compiler, [Range(Some(e), Some(f))])), map[], None, map[]),
              Spec(name, [Range(Some(c), Some(d))], Some(CompilerSpec(compiler, [Range(Some(g), Some(h))])), map[], None, map[]))
         == Failure(UnsatisfiableCompiler(CompilerSpec(compiler, [Range(Some(e), Some(f))]),
                                          CompilerSpec(compiler, [Range(Some(g), Some(h))])))
  {
    VersionOrder();
    MeetStaggered(a, b, c, d);
    IntersectSingletons(Range(Some(a), Some(b)), Range(Some(c), Some(d)));
    SeparatedDisjoint(g, h, e, f);
    IntersectSingletons(Range(Some(e), Some(f)), Range(Some(g), Some(h)));
  }

  /** `libelf@0:2.5%gcc@2:4.6` constrained by `libelf@2.1:3%gcc@4.5:4.7` is `libelf@2.1:2.5%gcc@4.5:4.6`. */
  lemma LibelfCompilers()
    ensures ConstrainSpec(
              Spec("libelf", [Between("0", "2.5")], Some(CompilerSpec("gcc", [Between("2", "4.6")])), map[], None, map[]),
              Spec("libelf", [Between("2.1", "3")], Some(CompilerSpec("gcc", [Between("4.5", "4.7")])), map[], None, map[]))
         == Success(Spec("libelf", [Between("2.1", "2.5")], Some(CompilerSpec("gcc", [Between("4.5", "4.6")])), map[], None, map[]))
  {
    LibelfOrder();
    GccOrder();
    StaggeredCompilers("libelf", "gcc", V("0"), V("2.5"), V("2.1"), V("3"), V("2"), V("4.6"), V("4.5"), V("4.7"));
  }

  /** `libelf@0:2.5%gcc@4.8:4.9` cannot be constrained by `libelf@2.1:3%gcc@4.5:4.7`. */
  lemma LibelfCompilerConflict()
    ensures ConstrainSpec(
              Spec("libelf", [Between("0", "2.5")], Some(CompilerSpec("gcc", [Between("4.8", "4.9")])), map[], None, map[]),
              Spec("libelf", [Between("2.1", "3")], Some(CompilerSpec("gcc", [Between("4.5", "4.7")])), map[], None, map[]))
         == Failure(UnsatisfiableCompiler(CompilerSpec("gcc", [Between("4.8", "4.9")]), CompilerSpec("gcc", [Between("4.5", "4.7")])))
  {
    LibelfOrder();
    GccConflictOrder();
    SeparatedCompilers("libelf", "gcc", V("0"), V("2.5"), V("2.1"), V("3"), V("4.8"), V("4.9"), V("4.5"), V("4.7"));
  }

  lemma GccConflictOrder()
    ensures Less(V("4.5"), V("4.7")) && Less(V("4.7"), V("4.8")) && Less(V("4.8"), V("4.9"))
  {
    DottedBelowDotted('4', '5', '4', '7');
    DottedBelowDotted('4', '7', '4', '8');
    DottedBelowDotted('4', '8', '4', '9');
  }

  /** A spec `name` with the given variants and architecture and nothing else set. */
  function Flagged(name: string, variants: map<string, bool>, architecture: Option<string>): Spec
  {
    Spec(name, [AnyRange], None, variants, architecture, map[])
  }

  /**
   * Constraining specs that differ only in variants and architecture merges
   * the variants key-wise and adopts a missing architecture; a variant set
   * both ways or two different architectures are the errors.
   */
  lemma FlagsMerge(name: string, m1: map<string, bool>, m2: map<string, bool>, a1: Option<string>, a2: Option<string>)
    ensures ConstrainSpec(Flagged(name, m1, a1), Flagged(name, m2, a2)) ==
      if VariantConflicts(m1, m2) != {} then Failure(UnsatisfiableVariant(Least(VariantConflicts(m1, m2))))
      else if !ArchitecturesAgree(a1, a2) then Failure(UnsatisfiableArchitecture(a1.value, a2.value))
      else Success(Flagged(name, m1 + m2, if a1.Some? then a1 else a2))
  {
    var x, y := Flagged(name, m1, a1), Flagged(name, m2, a2);
    IntersectSelf([AnyRange]);
    if VariantConflicts(m1, m2) == {} && ArchitecturesAgree(a1, a2) {
      assert MergeDependencies(x, y) == map[];
    }
  }

  /** Constraining `libelf+debug` adds the other side's `+foo`. */
  lemma LibelfVariantsOn()
    ensures ConstrainSpec(Flagged("libelf", map["debug" := true], None), Flagged("libelf", map["foo" := true], None))
         == Success(Flagged("libelf", map["debug" := true, "foo" := true], None))
    ensures ConstrainSpec(Flagged("libelf", map["debug" := true], None), Flagged("libelf", map["debug" := true, "foo" := true], None))
         == Success(Flagged("libelf", map["debug" := true, "foo" := true], None))
  {
    FlagsMerge("libelf", map["debug" := true], map["foo" := true], None, None);
    assert VariantConflicts(map["debug" := true], map["foo" := true]) == {};
    assert map["debug" := true] + map["foo" := true] == map["debug" := true, "foo" := true];
    FlagsMerge("libelf", map["debug" := true], map["debug" := true, "foo" := true], None, None);
    assert VariantConflicts(map["debug" := true], map["debug" := true, "foo" := true]) == {};
    assert map["debug" := true] + map["debug" := true, "foo" := true] == map["debug" := true, "foo" := true];
  }

  /** Constraining `libelf+debug` adds the other side's `~foo`. */
  lemma LibelfVariantsOff()
    ensures ConstrainSpec(Flagged("libelf", map["debug" := true], None), Flagged("libelf", map["foo" := false], None))
         == Success(Flagged("libelf", map["debug" := true, "foo" := false], None))
    ensures ConstrainSpec(Flagged("libelf", map["debug" := true], None), Flagged("libelf", map["debug" := true, "foo" := false], None))
         == Success(Flagged("libelf", map["debug" := true, "foo" := false], None))
  {
    FlagsMerge("libelf", map["debug" := true], map["foo" := false], None, None);
    assert VariantConflicts(map["debug" := true], map["foo" := false]) == {};
    assert map["debug" := true] + map["foo" := false] == map["debug" := true, "foo" := false];
    FlagsMerge("libelf", map["debug" := true], map["debug" := true, "foo" := false], None, None);
    assert VariantConflicts(map["debug" := true], map["debug" := true, "foo" := false]) == {};
    assert map["debug" := true] + map["debug" := true, "foo" := false] == map["debug" := true, "foo" := false];
  }

  /** An unset architecture adopts the other side's; an equal one stays. */
  lemma LibelfArchitecture()
    ensures ConstrainSpec(Flagged("libelf", map[], Some("bgqos_0")), Flagged("libelf", map[], Some("bgqos_0")))
         == Success(Flagged("libelf", map[], Some("bgqos_0")))
    ensures ConstrainSpec(Flagged("libelf", map[], None), Flagged("libelf", map[], Some("bgqos_0")))
         == Success(Flagged("libelf", map[], Some("bgqos_0")))
  {
    FlagsMerge("libelf", map[], map[], Some("bgqos_0"), Some("bgqos_0"));
    FlagsMerge("libelf", map[], map[], None, Some("bgqos_0"));
    assert VariantConflicts(map[], map[]) == {};
    var none: map<string, bool> := map[];
    assert none + none == none;
  }

  /** A variant set both ways, or two different architectures, cannot be constrained. */
  lemma LibelfConflicts()
    ensures ConstrainSpec(Flagged("libelf", map["debug" := true], None), Flagged("libelf", map["debug" := false], None))
         == Failure(UnsatisfiableVariant("debug"))
    ensures ConstrainSpec(Flagged("libelf", map["debug" := true, "foo" := false], None), Flagged("libelf", map["debug" := true, "foo" := true], None))
         == Failure(UnsatisfiableVariant("foo"))
    ensures ConstrainSpec(Flagged("libelf", map[], Some("bgqos_0")), Flagged("libelf", map[], Some("x86_54")))
         == Failure(UnsatisfiableArchitecture("bgqos_0", "x86_54"))
  {
    FlagsMerge("libelf", map["debug" := true], map["debug" := false], None, None);
    assert VariantConflicts(map["debug" := true], map["debug" := false]) == {"debug"};
    FlagsMerge("libelf", map["debug" := true, "foo" := false], map["debug" := true, "foo" := true], None, None);
    assert VariantConflicts(map["debug" := true, "foo" := false], map["debug" := true, "foo" := true]) == {"foo"};
    FlagsMerge("libelf", map[], map[], Some("bgqos_0"), Some("x86_54"));
    assert VariantConflicts(map[], map[]) == {};
  }
}
