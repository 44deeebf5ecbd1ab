/**
 * The canonicalization case of the spec tests with options of every kind:
 * `x ^y~f+e~d+c~b+a@4,2:3,1%intel@4,3,2,1` parses as the canonical
 * `x^y@1,2:3,4%intel@1,2,3,4+a~b+c~d+e~f`.
 *
 * The argument is made once for any run of variants and any four
 * increasing versions, and then applied to the test's own.
 */
module OptionOrderExamples {
  import opened Wrappers
  import opened Versions
  import opened VersionLists
  import opened SpecLexer
  import opened Specs
  import opened SpecParser
  import opened Canonical
  import opened SpecExamples
  import opened OptionOrder

  predicate Increasing(v1: Version, v2: Version, v3: Version, v4: Version)
  {
    Less(v1, v2) && Less(v2, v3) && Less(v3, v4) && Less(v1, v3) && Less(v1, v4) && Less(v2, v4)
  }

  /** `fl` and `sfl` are the same variants, and `sfl` names each once. */
  predicate Reordered(fl: seq<Opt>, sfl: seq<Opt>)
  {
    AllVariants(fl) && AllVariants(sfl) && multiset(fl) == multiset(sfl) && DistinctNames(sfl)
  }

  predicate AllVariants(os: seq<Opt>)
  {
    forall i :: 0 <= i < |os| ==> os[i].VariantOpt?
  }

  predicate DistinctNames(os: seq<Opt>)
    requires AllVariants(os)
  {
    forall i, j :: 0 <= i < j < |os| ==> os[i].variant != os[j].variant
  }

  /** `@v4,v2:v3,v1` */
  function Listed(v1: Version, v2: Version, v3: Version, v4: Version): Opt
  {
    VersionOpt([Exact(v4), Range(Some(v2), Some(v3)), Exact(v1)])
  }

  /** `@v1,v2:v3,v4` */
  function SortedListed(v1: Version, v2: Version, v3: Version, v4: Version): Opt
  {
    VersionOpt([Exact(v1), Range(Some(v2), Some(v3)), Exact(v4)])
  }

  /** `%intel@v4,v3,v2,v1` */
  function Intel(v1: Version, v2: Version, v3: Version, v4: Version): Opt
  {
    CompilerOpt("intel", [Exact(v4), Exact(v3), Exact(v2), Exact(v1)])
  }

  /** `%intel@v1,v2,v3,v4` */
  function SortedIntel(v1: Version, v2: Version, v3: Version, v4: Version): Opt
  {
    CompilerOpt("intel", [Exact(v1), Exact(v2), Exact(v3), Exact(v4)])
  }

  /** The options as the test writes them: variants, then versions, then the compiler. */
  function Written(fl: seq<Opt>, v1: Version, v2: Version, v3: Version, v4: Version): seq<Opt>
  {
    fl + [Listed(v1, v2, v3, v4), Intel(v1, v2, v3, v4)]
  }

  /** The same options in the canonical order. */
  function InOrder(sfl: seq<Opt>, v1: Version, v2: Version, v3: Version, v4: Version): seq<Opt>
  {
    [SortedListed(v1, v2, v3, v4), SortedIntel(v1, v2, v3, v4)] + sfl
  }

  /** The node `y` starts from. */
  function Fresh(): Draft
  {
    Draft(Spec("y", [], None, map[], None, map[]), false)
  }

  /** Four exact versions in increasing order share no version. */
  lemma ExactsDisjoint(a: Version, b: Version, c: Version, d: Version)
    requires Increasing(a, b, c, d)
    ensures PairwiseDisjoint([Exact(a), Exact(b), Exact(c), Exact(d)])
  {
    SeparatedDisjoint(a, a, b, b);
    SeparatedDisjoint(a, a, c, c);
    SeparatedDisjoint(a, a, d, d);
    SeparatedDisjoint(b, b, c, c);
    SeparatedDisjoint(b, b, d, d);
    SeparatedDisjoint(c, c, d, d);
  }

  /** The same four listed from the top down. */
  lemma ExactsDisjointDown(a: Version, b: Version, c: Version, d: Version)
    requires Increasing(a, b, c, d)
    ensures PairwiseDisjoint([Exact(d), Exact(c), Exact(b), Exact(a)])
  {
    SeparatedDisjoint(a, a, b, b);
    SeparatedDisjoint(a, a, c, c);
    SeparatedDisjoint(a, a, d, d);
    SeparatedDisjoint(b, b, c, c);
    SeparatedDisjoint(b, b, d, d);
    SeparatedDisjoint(c, c, d, d);
  }

  /** An exact version, a range above it and an exact version above that share no version. */
  lemma SpreadDisjoint(a: Version, b: Version, c: Version, d: Version)
    requires Less(a, b) && Less(c, d) && Less(a, d)
    ensures PairwiseDisjoint([Exact(d), Range(Some(b), Some(c)), Exact(a)])
    ensures PairwiseDisjoint([Exact(a), Range(Some(b), Some(c)), Exact(d)])
  {
    SeparatedDisjoint(a, a, b, c);
    SeparatedDisjoint(b, c, d, d);
    SeparatedDisjoint(a, a, d, d);
  }

  /** A run of variants only: its shape is its multiset and it writes no ranges. */
  lemma {:induction false} VariantsOnly(os: seq<Opt>)
    requires forall i :: 0 <= i < |os| ==> os[i].VariantOpt?
    ensures WfOpts(os) && Shape(os) == multiset(os) && Alternatives(os) == []
    decreases |os|
  {
    if os != [] {
      assert os == [os[0]] + os[1..];
      VariantsOnly(os[1..]);
    }
  }

  /** Variants of distinct names, none set yet, all apply. */
  lemma {:induction false} VariantsApply(os: seq<Opt>, d: Draft)
    requires WfDraft(d)
    requires forall i :: 0 <= i < |os| ==> os[i].VariantOpt? && os[i].variant !in d.spec.variants
    requires forall i, j :: 0 <= i < j < |os| ==> os[i].variant != os[j].variant
    ensures WfOpts(os) && ApplyAll(os, d).Success?
    decreases |os|
  {
    VariantsOnly(os);
    if os != [] {
      var n, on := os[0].variant, os[0].on;
      var d1 := d.(spec := d.spec.(variants := d.spec.variants[n := on]));
      assert Apply(os[0], d) == Success(d1);
      assert forall i :: 0 <= i < |os| - 1 ==> os[1..][i] == os[i + 1];
      VariantsApply(os[1..], d1);
    }
  }

  /** Two options: their shape and ranges one after the other. */
  lemma TwoShape(o1: Opt, o2: Opt)
    requires WfOpt(o1) && WfOpt(o2)
    ensures WfOpts([o1, o2])
    ensures Shape([o1, o2]) == multiset{Canon(o1), Canon(o2)}
    ensures Alternatives([o1, o2]) == OwnAlternatives(o1) + OwnAlternatives(o2)
  {
    var x := [o1, o2];
    assert WfOpts(x);
    assert x[0] == o1 && x[1..] == [o2];
    OneShape(o2);
  }

  /** The compiler's versions merge alike in both orders. */
  lemma CompilerListsAgree(v1: Version, v2: Version, v3: Version, v4: Version)
    requires Increasing(v1, v2, v3, v4)
    ensures WfOpt(Intel(v1, v2, v3, v4)) && WfOpt(SortedIntel(v1, v2, v3, v4))
    ensures Canon(Intel(v1, v2, v3, v4)) == Canon(SortedIntel(v1, v2, v3, v4))
  {
    ExactsDisjoint(v1, v2, v3, v4);
    ExactsDisjointDown(v1, v2, v3, v4);
    VersionOrderIrrelevant([Exact(v4), Exact(v3), Exact(v2), Exact(v1)], [Exact(v1), Exact(v2), Exact(v3), Exact(v4)]);
  }

  /** Both runs are well formed, have one shape and write the same three ranges. */
  lemma WrittenFacts(fl: seq<Opt>, sfl: seq<Opt>, v1: Version, v2: Version, v3: Version, v4: Version)
    requires Reordered(fl, sfl) && Increasing(v1, v2, v3, v4)
    ensures WfOpts(Written(fl, v1, v2, v3, v4)) && WfOpts(InOrder(sfl, v1, v2, v3, v4))
    ensures Shape(Written(fl, v1, v2, v3, v4)) == Shape(InOrder(sfl, v1, v2, v3, v4))
    ensures Alternatives(Written(fl, v1, v2, v3, v4)) == [Exact(v4), Range(Some(v2), Some(v3)), Exact(v1)]
    ensures Alternatives(InOrder(sfl, v1, v2, v3, v4)) == [Exact(v1), Range(Some(v2), Some(v3)), Exact(v4)]
  {
    var l, i := Listed(v1, v2, v3, v4), Intel(v1, v2, v3, v4);
    var sl, si := SortedListed(v1, v2, v3, v4), SortedIntel(v1, v2, v3, v4);
    CompilerListsAgree(v1, v2, v3, v4);
    VariantsOnly(fl);
    VariantsOnly(sfl);
    TwoShape(l, i);
    TwoShape(sl, si);
    WfOptsConcat(fl, [l, i]);
    WfOptsConcat([sl, si], sfl);
    ShapeConcat(fl, [l, i]);
    ShapeConcat([sl, si], sfl);
    AlternativesConcat(fl, [l, i]);
    AlternativesConcat([sl, si], sfl);
    assert OwnAlternatives(i) == [] && OwnAlternatives(si) == [];
  }

  /** Applying a run that starts with two options that apply. */
  lemma ApplyPair(o1: Opt, o2: Opt, rest: seq<Opt>, d: Draft)
    requires WfDraft(d) && WfOpt(o1) && WfOpt(o2) && WfOpts(rest)
    requires Apply(o1, d).Success? && Apply(o2, Apply(o1, d).value).Success?
    ensures WfOpts([o1, o2] + rest)
    ensures ApplyAll([o1, o2] + rest, d) == ApplyAll(rest, Apply(o2, Apply(o1, d).value).value)
  {
    var c := [o1, o2] + rest;
    assert c[0] == o1 && c[1..][0] == o2 && c[1..][1..] == rest;
    assert WfOpts(c);
  }

  /** Every option of the canonical order applies. */
  lemma InOrderApplies(sfl: seq<Opt>, v1: Version, v2: Version, v3: Version, v4: Version)
    requires Reordered(sfl, sfl) && Increasing(v1, v2, v3, v4)
    ensures WfOpts(InOrder(sfl, v1, v2, v3, v4))
    ensures ApplyAll(InOrder(sfl, v1, v2, v3, v4), Fresh()).Success?
  {
    var sl, si := SortedListed(v1, v2, v3, v4), SortedIntel(v1, v2, v3, v4);
    CompilerListsAgree(v1, v2, v3, v4);
    VariantsOnly(sfl);
    assert WfOpt(sl);
    var r1 := Apply(sl, Fresh());
    assert r1.Success? && r1.value.spec.compiler.None? && r1.value.spec.variants == map[];
    var r2 := Apply(si, r1.value);
    assert r2.Success? && r2.value.spec.variants == map[];
    ApplyPair(sl, si, sfl, Fresh());
    VariantsApply(sfl, r2.value);
  }

  /** A run with no compiler written bare is separated from anything after it. */
  lemma NoBareCompiler(os: seq<Opt>, t: seq<Token>)
    requires forall i :: 0 <= i < |os| ==> !BareCompiler(os[i])
    ensures Separated(os, t)
  {
  }

  lemma WrittenNotBare(fl: seq<Opt>, sfl: seq<Opt>, v1: Version, v2: Version, v3: Version, v4: Version)
    requires Reordered(fl, sfl)
    ensures forall i :: 0 <= i < |Written(fl, v1, v2, v3, v4)| ==> !BareCompiler(Written(fl, v1, v2, v3, v4)[i])
    ensures forall i :: 0 <= i < |InOrder(sfl, v1, v2, v3, v4)| ==> !BareCompiler(InOrder(sfl, v1, v2, v3, v4)[i])
  {
  }

  /** A run whose options all apply parses, to the node `y` they make. */
  lemma AppliedParses(os: seq<Opt>)
    requires WfOpts(os) && Separated(os, []) && ApplyAll(os, Fresh()).Success?
    ensures ParseOptions(OptsTokens(os) + [], Fresh()).Success?
    ensures ParseNode([Id("y")] + OptsTokens(os)).Success?
  {
    OptionsParse(os, [], Fresh());
    assert OptsTokens(os) + [] == OptsTokens(os);
    OptionsEnd([], ApplyAll(os, Fresh()).value);
    assert ([Id("y")] + OptsTokens(os))[1..] == OptsTokens(os);
  }

  /** Two runs that parse alike as options of `y` make the same node. */
  lemma SameOptionsSameNode(os: seq<Opt>, ps: seq<Opt>)
    requires WfOpts(os) && WfOpts(ps)
    requires ParseOptions(OptsTokens(os) + [], Fresh()) == ParseOptions(OptsTokens(ps) + [], Fresh())
    ensures ParseNode([Id("y")] + OptsTokens(os)) == ParseNode([Id("y")] + OptsTokens(ps))
  {
    assert OptsTokens(os) + [] == OptsTokens(os) && OptsTokens(ps) + [] == OptsTokens(ps);
    assert ([Id("y")] + OptsTokens(os))[1..] == OptsTokens(os);
    assert ([Id("y")] + OptsTokens(ps))[1..] == OptsTokens(ps);
  }

  /** Two runs of one shape whose `@` ranges are the same, none overlapping, make the same node of `y`. */
  lemma ReorderedNode(os: seq<Opt>, ps: seq<Opt>)
    requires WfOpts(os) && WfOpts(ps) && Separated(os, []) && Separated(ps, [])
    requires Shape(os) == Shape(ps)
    requires PairwiseDisjoint(Alternatives(os)) && PairwiseDisjoint(Alternatives(ps))
    requires forall z :: z in Alternatives(os) <==> z in Alternatives(ps)
    requires ApplyAll(ps, Fresh()).Success?
    ensures ParseNode([Id("y")] + OptsTokens(os)).Success?
    ensures ParseNode([Id("y")] + OptsTokens(os)) == ParseNode([Id("y")] + OptsTokens(ps))
  {
    var d := Fresh();
    assert WfDraft(d) && d.spec.versions == [] && Break([]);
    AppliedParses(ps);
    DisjointOptionOrderIrrelevant(os, ps, [], d);
    assert ParseOptions(OptsTokens(os) + [], d) == ParseOptions(OptsTokens(ps) + [], d);
    SameOptionsSameNode(os, ps);
  }

  /**
   * For any variants and any four increasing versions, the options of `y`
   * written as variants, `@v4,v2:v3,v1`, `%intel@v4,v3,v2,v1` and in the
   * canonical order `@v1,v2:v3,v4%intel@v1,v2,v3,v4` and sorted variants
   * parse to the same node, and do parse.
   */
  lemma WrittenParsesAsInOrder(fl: seq<Opt>, sfl: seq<Opt>, v1: Version, v2: Version, v3: Version, v4: Version)
    requires Reordered(fl, sfl) && Increasing(v1, v2, v3, v4)
    ensures WfOpts(Written(fl, v1, v2, v3, v4)) && WfOpts(InOrder(sfl, v1, v2, v3, v4))
    ensures ParseNode([Id("y")] + OptsTokens(Written(fl, v1, v2, v3, v4))).Success?
    ensures ParseNode([Id("y")] + OptsTokens(Written(fl, v1, v2, v3, v4)))
         == ParseNode([Id("y")] + OptsTokens(InOrder(sfl, v1, v2, v3, v4)))
  {
    var w, c := Written(fl, v1, v2, v3, v4), InOrder(sfl, v1, v2, v3, v4);
    WrittenFacts(fl, sfl, v1, v2, v3, v4);
    SpreadDisjoint(v1, v2, v3, v4);
    WrittenNotBare(fl, sfl, v1, v2, v3, v4);
    NoBareCompiler(w, []);
    NoBareCompiler(c, []);
    assert Reordered(sfl, sfl);
    InOrderApplies(sfl, v1, v2, v3, v4);
    ReorderedNode(w, c);
  }

  /** The variants of `y` as the test writes them. */
  function Flags(): seq<Opt>
  {
    [VariantOpt("f", false), VariantOpt("e", true), VariantOpt("d", false),
     VariantOpt("c", true), VariantOpt("b", false), VariantOpt("a", true)]
  }

  /** The same variants sorted by name. */
  function SortedFlags(): seq<Opt>
  {
    [VariantOpt("a", true), VariantOpt("b", false), VariantOpt("c", true),
     VariantOpt("d", false), VariantOpt("e", true), VariantOpt("f", false)]
  }

  lemma FlagsPermuted()
    ensures multiset(Flags()) == multiset(SortedFlags())
  {
  }

  lemma FlagsDistinct()
    ensures AllVariants(SortedFlags()) && DistinctNames(SortedFlags())
  {
    var n := ["a", "b", "c", "d", "e", "f"];
    assert forall i :: 0 <= i < 6 ==> SortedFlags()[i].variant == n[i] && |n[i]| == 1 && n[i][0] == 'a' + i as char;
  }

  lemma FlagsAreVariants()
    ensures AllVariants(Flags())
  {
  }

  lemma FlagsReordered()
    ensures Reordered(Flags(), SortedFlags())
  {
    FlagsAreVariants();
    FlagsPermuted();
    FlagsDistinct();
  }

  lemma DigitOrder()
    ensures Increasing(V("1"), V("2"), V("3"), V("4"))
  {
    SingleBelowSingle('1', '2');
    SingleBelowSingle('2', '3');
    SingleBelowSingle('3', '4');
    SingleBelowSingle('1', '3');
    SingleBelowSingle('1', '4');
    SingleBelowSingle('2', '4');
  }

  /** Under a root `x`, the written and the canonical options of the dependency `y` parse alike. */
  lemma DependencyParsesAsInOrder(fl: seq<Opt>, sfl: seq<Opt>, v1: Version, v2: Version, v3: Version, v4: Version)
    requires Reordered(fl, sfl) && Increasing(v1, v2, v3, v4)
    ensures WfOpts(Written(fl, v1, v2, v3, v4)) && WfOpts(InOrder(sfl, v1, v2, v3, v4))
    ensures ParseSpecs([Id("x"), Dep, Id("y")] + OptsTokens(Written(fl, v1, v2, v3, v4)), [])
         == ParseSpecs([Id("x"), Dep, Id("y")] + OptsTokens(InOrder(sfl, v1, v2, v3, v4)), [])
  {
    WrittenParsesAsInOrder(fl, sfl, v1, v2, v3, v4);
    SameDependencyNode("x", "y", OptsTokens(Written(fl, v1, v2, v3, v4)), OptsTokens(InOrder(sfl, v1, v2, v3, v4)));
  }

  /**
   * The test's spec `x ^y~f+e~d+c~b+a@4,2:3,1%intel@4,3,2,1` parses as its
   * canonical `x^y@1,2:3,4%intel@1,2,3,4+a~b+c~d+e~f`, stated on the tokens of the two.
   */
  lemma CanonicalizesOptions()
    ensures WfOpts(Written(Flags(), V("1"), V("2"), V("3"), V("4")))
    ensures WfOpts(InOrder(SortedFlags(), V("1"), V("2"), V("3"), V("4")))
    ensures ParseSpecs([Id("x"), Dep, Id("y")] + OptsTokens(Written(Flags(), V("1"), V("2"), V("3"), V("4"))), [])
         == ParseSpecs([Id("x"), Dep, Id("y")] + OptsTokens(InOrder(SortedFlags(), V("1"), V("2"), V("3"), V("4"))), [])
  {
    DigitOrder();
    FlagsReordered();
    DependencyParsesAsInOrder(Flags(), SortedFlags(), V("1"), V("2"), V("3"), V("4"));
  }
}
