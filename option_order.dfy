/**
 * The options after a spec's name may be written in any order. The parser
 * files each option into a field of its own, so the spec depends only on
 * which options are written: the variants as a set, at most one compiler
 * and at most one architecture. Two things do depend on position. Several
 * `@` lists are merged in the order written. A compiler written without
 * versions takes an `@` that comes straight after it as its own list.
 */
module OptionOrder {
  import opened Wrappers
  import opened Versions
  import opened VersionLists
  import opened SpecLexer
  import opened Specs
  import opened SpecParser
  import opened SpecRender
  import opened Canonical

  /** One option as written: `@list`, `+name` or `~name`, `%name` with an optional `@list`, `=name`. */
  datatype Opt =
    | VersionOpt(alternatives: seq<Range>)
    | VariantOpt(variant: string, on: bool)
    | CompilerOpt(compiler: string, compilerVersions: seq<Range>)
    | ArchitectureOpt(architecture: string)

  predicate AllNonEmpty(rs: seq<Range>)
  {
    forall i :: 0 <= i < |rs| ==> NonEmpty(rs[i])
  }

  /** Every version alternative written is a non-empty range, and `@` has at least one. */
  predicate WfOpt(o: Opt)
  {
    match o
    case VersionOpt(l) => l != [] && AllNonEmpty(l)
    case CompilerOpt(_, l) => AllNonEmpty(l)
    case _ => true
  }

  predicate WfOpts(os: seq<Opt>)
  {
    forall i :: 0 <= i < |os| ==> WfOpt(os[i])
  }

  /** The tokens of one option; a compiler's list is left out when none is written. */
  function OptTokens(o: Opt): seq<Token>
    requires WfOpt(o)
  {
    match o
    case VersionOpt(l) => [At] + ListTokens(l)
    case VariantOpt(n, on) => [if on then On else Off, Id(n)]
    case CompilerOpt(c, l) => [Pct, Id(c)] + (if l == [] then [] else [At] + ListTokens(l))
    case ArchitectureOpt(a) => [Eq, Id(a)]
  }

  function OptsTokens(os: seq<Opt>): seq<Token>
    requires WfOpts(os)
  {
    if os == [] then [] else OptTokens(os[0]) + OptsTokens(os[1..])
  }

  /** A compiler written without versions, which an `@` right after it would extend. */
  predicate BareCompiler(o: Opt)
  {
    o.CompilerOpt? && o.compilerVersions == []
  }

  /** What may follow the last option: anything that cannot continue a version list. */
  predicate Break(t: seq<Token>)
  {
    t == [] || (t[0] !in {Colon, Comma} && !t[0].Id?)
  }

  /** No compiler written without versions is followed by `@`. */
  predicate Separated(os: seq<Opt>, t: seq<Token>)
  {
    && (forall i :: 0 <= i < |os| - 1 && BareCompiler(os[i]) ==> !os[i + 1].VersionOpt?)
    && (os != [] && BareCompiler(os[|os| - 1]) ==> t == [] || t[0] != At)
  }

  /** The version list a compiler option gives its compiler. */
  function CompilerList(l: seq<Range>): (r: seq<Range>)
    requires AllNonEmpty(l)
    ensures ValidList(r)
  {
    if l == [] then [AnyRange] else Collect(l)
  }

  /**
   * What the parser does with one option: versions are merged into the
   * node's, and a variant, compiler or architecture already set is an error.
   */
  function Apply(o: Opt, d: Draft): (r: Result<Draft, ParseError>)
    requires WfDraft(d) && WfOpt(o)
    ensures r.Success? ==> WfDraft(r.value) && r.value.spec.name == d.spec.name
  {
    match o
    case VersionOpt(l) =>
      AddAllNonEmpty(d.spec.versions, l);
      Success(Draft(d.spec.(versions := AddAll(d.spec.versions, l)), true))
    case VariantOpt(n, on) =>
      if n in d.spec.variants then Failure(DuplicateVariant(n))
      else Success(d.(spec := d.spec.(variants := d.spec.variants[n := on])))
    case CompilerOpt(c, l) =>
      if d.spec.compiler.Some? then Failure(DuplicateCompiler(d.spec.name))
      else Success(d.(spec := d.spec.(compiler := Some(CompilerSpec(c, CompilerList(l))))))
    case ArchitectureOpt(a) =>
      if d.spec.architecture.Some? then Failure(DuplicateArchitecture(d.spec.name))
      else Success(d.(spec := d.spec.(architecture := Some(a))))
  }

  /** The options applied in the order written, stopping at the first error. */
  function ApplyAll(os: seq<Opt>, d: Draft): (r: Result<Draft, ParseError>)
    requires WfDraft(d) && WfOpts(os)
    ensures r.Success? ==> WfDraft(r.value) && r.value.spec.name == d.spec.name
  {
    if os == [] then Success(d)
    else
      var d1 :- Apply(os[0], d);
      ApplyAll(os[1..], d1)
  }

  /** Parsing what follows the options, after they were applied. */
  function Then(r: Result<Draft, ParseError>, t: seq<Token>): Result<Parsed<Draft>, ParseError>
    requires r.Success? ==> WfDraft(r.value)
  {
    match r
    case Success(d) => ParseOptions(t, d)
    case Failure(e) => Failure(e)
  }

  lemma VersionOptStep(l: seq<Range>, t: seq<Token>, d: Draft)
    requires WfDraft(d) && WfOpt(VersionOpt(l)) && Break(t)
    ensures ParseOptions(OptTokens(VersionOpt(l)) + t, d) == Then(Apply(VersionOpt(l), d), t)
  {
    var ts := [At] + (ListTokens(l) + t);
    assert OptTokens(VersionOpt(l)) + t == ts;
    assert ts[1..] == ListTokens(l) + t;
    ParseList(l, t);
    OptionsVersionStep(ts, d, Parsed(l, t));
  }

  lemma VariantOptStep(n: string, on: bool, t: seq<Token>, d: Draft)
    requires WfDraft(d)
    ensures ParseOptions(OptTokens(VariantOpt(n, on)) + t, d) == Then(Apply(VariantOpt(n, on), d), t)
  {
    var s := if on then On else Off;
    var ts := [s, Id(n)] + t;
    assert OptTokens(VariantOpt(n, on)) + t == ts;
    assert ts[1..][0] == Id(n) && ts[2..] == t;
    if n !in d.spec.variants {
      OptionsVariantStep(ts, d);
    }
  }

  /** A compiler without `@` admits any version. */
  lemma ParseCompilerBare(c: string, t: seq<Token>)
    requires t == [] || t[0] != At
    ensures ParseCompiler([Id(c)] + t) == Success(Parsed(CompilerSpec(c, [AnyRange]), t))
  {
    assert ([Id(c)] + t)[1..] == t;
  }

  /** A compiler with `@` gets its list merged. */
  lemma ParseCompilerListed(c: string, l: seq<Range>, t: seq<Token>)
    requires l != [] && AllNonEmpty(l) && Break(t)
    ensures ParseCompiler([Id(c), At] + (ListTokens(l) + t)) == Success(Parsed(CompilerSpec(c, Collect(l)), t))
  {
    var after := [Id(c), At] + (ListTokens(l) + t);
    assert after[2..] == ListTokens(l) + t;
    ParseList(l, t);
  }

  /** The tokens of a compiler option are `%`, then what `ParseCompiler` reads as that compiler. */
  lemma CompilerOptParses(c: string, l: seq<Range>, t: seq<Token>, after: seq<Token>)
    requires WfOpt(CompilerOpt(c, l)) && Break(t)
    requires l == [] ==> t == [] || t[0] != At
    requires after == if l == [] then [Id(c)] + t else [Id(c), At] + (ListTokens(l) + t)
    ensures OptTokens(CompilerOpt(c, l)) + t == [Pct] + after
    ensures ParseCompiler(after) == Success(Parsed(CompilerSpec(c, CompilerList(l)), t))
  {
    if l == [] {
      ParseCompilerBare(c, t);
    } else {
      ParseCompilerListed(c, l, t);
    }
  }

  /** `%` and a compiler that parses: an error where a compiler is set, else the compiler is filed. */
  lemma CompilerTokensStep(after: seq<Token>, cs: CompilerSpec, t: seq<Token>, d: Draft)
    requires WfDraft(d) && ParseCompiler(after) == Success(Parsed(cs, t))
    ensures ParseOptions([Pct] + after, d)
         == Then(if d.spec.compiler.Some? then Failure(DuplicateCompiler(d.spec.name))
                 else Success(d.(spec := d.spec.(compiler := Some(cs)))), t)
  {
    assert ([Pct] + after)[1..] == after;
    if d.spec.compiler.None? {
      OptionsCompilerStep([Pct] + after, d, Parsed(cs, t));
    }
  }

  lemma CompilerOptStep(c: string, l: seq<Range>, t: seq<Token>, d: Draft)
    requires WfDraft(d) && WfOpt(CompilerOpt(c, l)) && Break(t)
    requires l == [] ==> t == [] || t[0] != At
    ensures ParseOptions(OptTokens(CompilerOpt(c, l)) + t, d) == Then(Apply(CompilerOpt(c, l), d), t)
  {
    var after := if l == [] then [Id(c)] + t else [Id(c), At] + (ListTokens(l) + t);
    CompilerOptParses(c, l, t, after);
    CompilerTokensStep(after, CompilerSpec(c, CompilerList(l)), t, d);
  }

  lemma ArchitectureOptStep(a: string, t: seq<Token>, d: Draft)
    requires WfDraft(d)
    ensures ParseOptions(OptTokens(ArchitectureOpt(a)) + t, d) == Then(Apply(ArchitectureOpt(a), d), t)
  {
    var ts := [Eq, Id(a)] + t;
    assert OptTokens(ArchitectureOpt(a)) + t == ts;
    assert ts[1..][0] == Id(a) && ts[2..] == t;
    if d.spec.architecture.None? {
      OptionsArchitectureStep(ts, d);
    }
  }

  /** The parser reads one option as `Apply` says. */
  lemma OptStep(o: Opt, t: seq<Token>, d: Draft)
    requires WfDraft(d) && WfOpt(o) && Break(t)
    requires BareCompiler(o) ==> t == [] || t[0] != At
    ensures ParseOptions(OptTokens(o) + t, d) == Then(Apply(o, d), t)
  {
    match o
    case VersionOpt(l) => VersionOptStep(l, t, d);
    case VariantOpt(n, on) => VariantOptStep(n, on, t, d);
    case CompilerOpt(c, l) => CompilerOptStep(c, l, t, d);
    case ArchitectureOpt(a) => ArchitectureOptStep(a, t, d);
  }

  /** The first token of a non-empty run of options starts an option, and is `@` only for a version list. */
  lemma OptsTokensStart(os: seq<Opt>, t: seq<Token>)
    requires WfOpts(os) && os != []
    ensures OptsTokens(os) + t != []
    ensures (OptsTokens(os) + t)[0] in {At, On, Off, Pct, Eq}
    ensures (OptsTokens(os) + t)[0] == At <==> os[0].VersionOpt?
  {
    assert WfOpt(os[0]);
    assert (OptsTokens(os) + t)[0] == OptTokens(os[0])[0];
  }

  lemma SeparatedTail(os: seq<Opt>, t: seq<Token>)
    requires os != [] && Separated(os, t)
    ensures Separated(os[1..], t)
  {
    forall i | 0 <= i < |os| - 2 && BareCompiler(os[1..][i]) ensures !os[1..][i + 1].VersionOpt? {
      assert os[1..][i] == os[i + 1] && os[1..][i + 1] == os[i + 2];
    }
  }

  /** The parser reads a run of options as `ApplyAll` says. */
  lemma {:induction false} OptionsParse(os: seq<Opt>, t: seq<Token>, d: Draft)
    requires WfDraft(d) && WfOpts(os) && Break(t) && Separated(os, t)
    ensures ParseOptions(OptsTokens(os) + t, d) == Then(ApplyAll(os, d), t)
    decreases |os|
  {
    if os != [] {
      var o, rest := os[0], os[1..];
      var u := OptsTokens(rest) + t;
      assert WfOpt(o) && WfOpts(rest);
      assert OptsTokens(os) + t == OptTokens(o) + u;
      if rest != [] {
        OptsTokensStart(rest, t);
      }
      OptStep(o, u, d);
      SeparatedTail(os, t);
      var r := Apply(o, d);
      if r.Success? {
        assert ApplyAll(os, d) == ApplyAll(rest, r.value);
        OptionsParse(rest, t, r.value);
      } else {
        assert ApplyAll(os, d) == Failure(r.error);
      }
    } else {
      assert OptsTokens(os) + t == t;
    }
  }

  /**
   * An option as the parser files it. An `@` list counts only as "versions
   * were written", since its ranges go into one shared list. A compiler
   * counts with its merged list.
   */
  function Canon(o: Opt): Opt
    requires WfOpt(o)
  {
    match o
    case VersionOpt(_) => VersionOpt([])
    case CompilerOpt(c, l) => CompilerOpt(c, CompilerList(l))
    case _ => o
  }

  /** Which options are written, with their counts but not their order. */
  function Shape(os: seq<Opt>): multiset<Opt>
    requires WfOpts(os)
  {
    if os == [] then multiset{} else multiset{Canon(os[0])} + Shape(os[1..])
  }

  /** The ranges of all `@` lists, in the order written. */
  function Alternatives(os: seq<Opt>): (rs: seq<Range>)
    requires WfOpts(os)
    ensures AllNonEmpty(rs)
  {
    if os == [] then []
    else
      assert WfOpt(os[0]);
      var rs := OwnAlternatives(os[0]) + Alternatives(os[1..]);
      AllNonEmptyConcat(OwnAlternatives(os[0]), Alternatives(os[1..]));
      rs
  }

  /** The ranges of one option's `@` list, if it is one. */
  function OwnAlternatives(o: Opt): (rs: seq<Range>)
    requires WfOpt(o)
    ensures AllNonEmpty(rs) && (rs == [] <==> !o.VersionOpt?)
  {
    if o.VersionOpt? then o.alternatives else []
  }

  lemma AllNonEmptyConcat(a: seq<Range>, b: seq<Range>)
    requires AllNonEmpty(a) && AllNonEmpty(b)
    ensures AllNonEmpty(a + b)
  {
    forall i | 0 <= i < |a + b| ensures NonEmpty((a + b)[i]) {
      if i >= |a| { assert (a + b)[i] == b[i - |a|]; }
    }
  }

  /** The field of the node an option is filed into. */
  datatype Field = VersionField | VariantField | CompilerField | ArchitectureField

  function FieldOf(o: Opt): Field
  {
    match o
    case VersionOpt(_) => VersionField
    case VariantOpt(_, _) => VariantField
    case CompilerOpt(_, _) => CompilerField
    case ArchitectureOpt(_) => ArchitectureField
  }

  /** No two options of `m` file into the same variant. */
  ghost predicate DistinctVariants(m: multiset<Opt>)
  {
    forall o, p :: o in m && p in m && o.VariantOpt? && p.VariantOpt? && o.variant == p.variant ==> o == p
  }

  /** Each variant of `m` is written once, and none is among `vs`. */
  ghost predicate VariantsFit(m: multiset<Opt>, vs: map<string, bool>)
  {
    && (forall o :: o in m && o.VariantOpt? ==> o.variant !in vs)
    && (forall o, p :: o in m && p in m && o.VariantOpt? && p.VariantOpt? && o.variant == p.variant ==> o == p && m[o] == 1)
  }

  /** At most one option of `m` is filed into `f`, and only if the field is `free`. */
  ghost predicate OneOf(m: multiset<Opt>, f: Field, free: bool)
  {
    forall o, p :: o in m && p in m && FieldOf(o) == f && FieldOf(p) == f ==> free && o == p && m[o] == 1
  }

  /**
   * The options can all be filed at `d`: no variant is written twice or is
   * already set, and at most one compiler and one architecture are written,
   * each only where none is set.
   */
  ghost predicate Fits(m: multiset<Opt>, d: Draft)
  {
    && VariantsFit(m, d.spec.variants)
    && OneOf(m, CompilerField, d.spec.compiler.None?)
    && OneOf(m, ArchitectureField, d.spec.architecture.None?)
  }

  lemma VariantsFitDistinct(m: multiset<Opt>, vs: map<string, bool>)
    requires VariantsFit(m, vs)
    ensures DistinctVariants(m)
  {
  }

  /** The variants the options of `m` set. */
  ghost function VariantNames(m: multiset<Opt>): set<string>
  {
    set o | o in m && o.VariantOpt? :: o.variant
  }

  ghost function VariantsOf(m: multiset<Opt>): map<string, bool>
  {
    map n | n in VariantNames(m) :: var o :| o in m && o.VariantOpt? && o.variant == n; o.on
  }

  /** The compiler an option of `m` sets, if any. */
  ghost function CompilerOf(m: multiset<Opt>): Option<CompilerSpec>
  {
    if exists o :: o in m && o.CompilerOpt? then
      var o :| o in m && o.CompilerOpt?;
      Some(CompilerSpec(o.compiler, o.compilerVersions))
    else None
  }

  /** The architecture an option of `m` sets, if any. */
  ghost function ArchitectureOf(m: multiset<Opt>): Option<string>
  {
    if exists o :: o in m && o.ArchitectureOpt? then
      var o :| o in m && o.ArchitectureOpt?;
      Some(o.architecture)
    else None
  }

  /**
   * The node after the options of `m`, with `alts` the ranges of its `@`
   * lists: each option in its own field, whatever the order it came in.
   */
  ghost function Settled(m: multiset<Opt>, alts: seq<Range>, d: Draft): Draft
    requires WfDraft(d) && AllNonEmpty(alts)
  {
    var c := CompilerOf(m);
    var a := ArchitectureOf(m);
    Draft(d.spec.(versions := AddAll(d.spec.versions, alts),
                  variants := d.spec.variants + VariantsOf(m),
                  compiler := if c.Some? then c else d.spec.compiler,
                  architecture := if a.Some? then a else d.spec.architecture),
          d.versioned || VersionOpt([]) in m)
  }

  lemma OneOfOther(x: Opt, m: multiset<Opt>, f: Field, free: bool)
    requires FieldOf(x) != f
    ensures OneOf(multiset{x} + m, f, free) <==> OneOf(m, f, free)
  {
    var big := multiset{x} + m;
    assert forall o :: o in big && FieldOf(o) == f ==> o in m && big[o] == m[o];
  }

  lemma OneOfAdd(x: Opt, m: multiset<Opt>, f: Field, free: bool)
    requires FieldOf(x) == f
    ensures OneOf(multiset{x} + m, f, free) <==> free && OneOf(m, f, false)
  {
    var big := multiset{x} + m;
    assert x in big && big[x] == m[x] + 1;
    assert forall o :: o in m ==> o in big;
    if OneOf(big, f, free) {
      assert free;
      assert forall q :: q in m && FieldOf(q) == f ==> q == x;
    }
    if free && OneOf(m, f, false) {
      assert forall q :: q in m ==> FieldOf(q) != f;
    }
  }

  lemma VariantsFitOther(x: Opt, m: multiset<Opt>, vs: map<string, bool>)
    requires !x.VariantOpt?
    ensures VariantsFit(multiset{x} + m, vs) <==> VariantsFit(m, vs)
  {
    var big := multiset{x} + m;
    assert forall o :: o in big && o.VariantOpt? ==> o in m && big[o] == m[o];
  }

  lemma VariantsFitAdd(x: Opt, m: multiset<Opt>, vs: map<string, bool>)
    requires x.VariantOpt?
    ensures VariantsFit(multiset{x} + m, vs) <==> x.variant !in vs && VariantsFit(m, vs[x.variant := x.on])
  {
    var big := multiset{x} + m;
    var vs1 := vs[x.variant := x.on];
    assert x in big && big[x] == m[x] + 1;
    assert forall o :: o in m ==> o in big;
    if VariantsFit(big, vs) {
      assert forall o :: o in m && o.VariantOpt? && o.variant == x.variant ==> o == x;
    }
    if x.variant !in vs && VariantsFit(m, vs1) {
      assert x.variant in vs1;
      assert forall q :: q in m && q.VariantOpt? ==> q.variant != x.variant;
      forall o | o in big && o.VariantOpt? ensures o.variant !in vs {
        if o != x { assert o in m; }
      }
      forall o, p | o in big && p in big && o.VariantOpt? && p.VariantOpt? && o.variant == p.variant
        ensures o == p && big[o] == 1
      {
        if o != x && p != x {
          assert o in m && p in m;
        }
      }
    }
  }

  /** The options fit exactly when the first one applies and the rest fit after it. */
  lemma FitsStep(o: Opt, m: multiset<Opt>, d: Draft)
    requires WfDraft(d) && WfOpt(o)
    ensures Fits(multiset{Canon(o)} + m, d) <==> Apply(o, d).Success? && Fits(m, Apply(o, d).value)
  {
    var x := Canon(o);
    var dc, da := d.spec.compiler.None?, d.spec.architecture.None?;
    match o
    case VersionOpt(_) =>
      VariantsFitOther(x, m, d.spec.variants);
      OneOfOther(x, m, CompilerField, dc);
      OneOfOther(x, m, ArchitectureField, da);
    case VariantOpt(_, _) =>
      VariantsFitAdd(x, m, d.spec.variants);
      OneOfOther(x, m, CompilerField, dc);
      OneOfOther(x, m, ArchitectureField, da);
    case CompilerOpt(_, _) =>
      VariantsFitOther(x, m, d.spec.variants);
      OneOfAdd(x, m, CompilerField, dc);
      OneOfOther(x, m, ArchitectureField, da);
    case ArchitectureOpt(_) =>
      VariantsFitOther(x, m, d.spec.variants);
      OneOfOther(x, m, CompilerField, dc);
      OneOfAdd(x, m, ArchitectureField, da);
  }

  lemma VariantsOfOther(x: Opt, m: multiset<Opt>)
    requires !x.VariantOpt? && DistinctVariants(multiset{x} + m)
    ensures VariantsOf(multiset{x} + m) == VariantsOf(m)
  {
    var big := multiset{x} + m;
    assert forall o :: o in big && o.VariantOpt? <==> o in m && o.VariantOpt?;
  }

  /** Each variant option of `m` is found in `VariantsOf(m)` with its polarity. */
  lemma VariantsOfAt(m: multiset<Opt>, o: Opt)
    requires DistinctVariants(m) && o in m && o.VariantOpt?
    ensures o.variant in VariantsOf(m) && VariantsOf(m)[o.variant] == o.on
  {
    assert o.variant in VariantNames(m);
  }

  lemma VariantsOfAddNames(x: Opt, m: multiset<Opt>)
    requires x.VariantOpt? && x !in m && DistinctVariants(multiset{x} + m)
    ensures DistinctVariants(m)
    ensures x.variant !in VariantNames(m)
    ensures VariantNames(multiset{x} + m) == VariantNames(m) + {x.variant}
  {
    var big := multiset{x} + m;
    assert forall o :: o in m ==> o in big;
    assert forall o :: o in m && o.VariantOpt? ==> o.variant != x.variant;
  }

  lemma VariantsOfKept(x: Opt, m: multiset<Opt>, n: string)
    requires DistinctVariants(multiset{x} + m) && DistinctVariants(m) && n in VariantNames(m)
    ensures n in VariantsOf(multiset{x} + m) && VariantsOf(multiset{x} + m)[n] == VariantsOf(m)[n]
  {
    var o :| o in m && o.VariantOpt? && o.variant == n;
    assert o in multiset{x} + m;
    VariantsOfAt(multiset{x} + m, o);
    VariantsOfAt(m, o);
  }

  lemma VariantsOfAdd(x: Opt, m: multiset<Opt>)
    requires x.VariantOpt? && x !in m && DistinctVariants(multiset{x} + m)
    ensures x.variant !in VariantsOf(m)
    ensures VariantsOf(multiset{x} + m) == VariantsOf(m)[x.variant := x.on]
  {
    var big := multiset{x} + m;
    VariantsOfAddNames(x, m);
    VariantsOfAt(big, x);
    var left, right := VariantsOf(big), VariantsOf(m)[x.variant := x.on];
    assert left.Keys == right.Keys;
    forall n | n in VariantNames(m) ensures left[n] == right[n] {
      VariantsOfKept(x, m, n);
    }
  }

  lemma CompilerOfOther(x: Opt, m: multiset<Opt>, free: bool)
    requires !x.CompilerOpt? && OneOf(multiset{x} + m, CompilerField, free)
    ensures CompilerOf(multiset{x} + m) == CompilerOf(m)
  {
    var big := multiset{x} + m;
    assert forall o :: o in big && o.CompilerOpt? <==> o in m && o.CompilerOpt?;
  }

  lemma CompilerOfAdd(x: Opt, m: multiset<Opt>)
    requires x.CompilerOpt? && OneOf(m, CompilerField, false)
    ensures CompilerOf(multiset{x} + m) == Some(CompilerSpec(x.compiler, x.compilerVersions))
    ensures CompilerOf(m) == None
  {
    var big := multiset{x} + m;
    assert forall o :: o in big && o.CompilerOpt? ==> o == x;
  }

  lemma ArchitectureOfOther(x: Opt, m: multiset<Opt>, free: bool)
    requires !x.ArchitectureOpt? && OneOf(multiset{x} + m, ArchitectureField, free)
    ensures ArchitectureOf(multiset{x} + m) == ArchitectureOf(m)
  {
    var big := multiset{x} + m;
    assert forall o :: o in big && o.ArchitectureOpt? <==> o in m && o.ArchitectureOpt?;
  }

  lemma ArchitectureOfAdd(x: Opt, m: multiset<Opt>)
    requires x.ArchitectureOpt? && OneOf(m, ArchitectureField, false)
    ensures ArchitectureOf(multiset{x} + m) == Some(x.architecture)
    ensures ArchitectureOf(m) == None
  {
    var big := multiset{x} + m;
    assert forall o :: o in big && o.ArchitectureOpt? ==> o == x;
  }

  lemma SettledVersion(l: seq<Range>, m: multiset<Opt>, alts: seq<Range>, d: Draft)
    requires WfDraft(d) && WfOpt(VersionOpt(l)) && AllNonEmpty(alts) && Fits(multiset{VersionOpt([])} + m, d)
    requires Apply(VersionOpt(l), d).Success?
    ensures AllNonEmpty(l + alts)
    ensures Settled(multiset{VersionOpt([])} + m, l + alts, d) == Settled(m, alts, Apply(VersionOpt(l), d).value)
  {
    var x := VersionOpt([]);
    VariantsOfOther(x, m);
    CompilerOfOther(x, m, d.spec.compiler.None?);
    ArchitectureOfOther(x, m, d.spec.architecture.None?);
    AddAllConcat(d.spec.versions, l, alts);
  }

  lemma SettledVariant(x: Opt, m: multiset<Opt>, alts: seq<Range>, d: Draft)
    requires WfDraft(d) && x.VariantOpt? && AllNonEmpty(alts) && Fits(multiset{x} + m, d)
    requires Apply(x, d).Success?
    ensures Settled(multiset{x} + m, alts, d) == Settled(m, alts, Apply(x, d).value)
  {
    assert x !in m by {
      assert (multiset{x} + m)[x] == m[x] + 1;
    }
    VariantsOfAdd(x, m);
    CompilerOfOther(x, m, d.spec.compiler.None?);
    ArchitectureOfOther(x, m, d.spec.architecture.None?);
    assert VersionOpt([]) in multiset{x} + m <==> VersionOpt([]) in m;
    UnionUpdate(d.spec.variants, VariantsOf(m), x.variant, x.on);
  }

  /** Setting a key the right-hand map lacks may come before or after the union. */
  lemma UnionUpdate<K, V>(a: map<K, V>, b: map<K, V>, k: K, v: V)
    requires k !in b
    ensures a + b[k := v] == a[k := v] + b
  {
  }

  lemma SettledCompiler(o: Opt, m: multiset<Opt>, alts: seq<Range>, d: Draft)
    requires WfDraft(d) && WfOpt(o) && o.CompilerOpt? && AllNonEmpty(alts) && Fits(multiset{Canon(o)} + m, d)
    requires Apply(o, d).Success? && Fits(m, Apply(o, d).value)
    ensures Settled(multiset{Canon(o)} + m, alts, d) == Settled(m, alts, Apply(o, d).value)
  {
    var x := Canon(o);
    VariantsOfOther(x, m);
    CompilerOfAdd(x, m);
    ArchitectureOfOther(x, m, d.spec.architecture.None?);
  }

  lemma SettledArchitecture(x: Opt, m: multiset<Opt>, alts: seq<Range>, d: Draft)
    requires WfDraft(d) && x.ArchitectureOpt? && AllNonEmpty(alts) && Fits(multiset{x} + m, d)
    requires Apply(x, d).Success? && Fits(m, Apply(x, d).value)
    ensures Settled(multiset{x} + m, alts, d) == Settled(m, alts, Apply(x, d).value)
  {
    VariantsOfOther(x, m);
    CompilerOfOther(x, m, d.spec.compiler.None?);
    ArchitectureOfAdd(x, m);
  }

  /** Filing the first option and then the rest settles the node as filing them all at once. */
  lemma SettledStep(o: Opt, m: multiset<Opt>, alts: seq<Range>, d: Draft)
    requires WfDraft(d) && WfOpt(o) && AllNonEmpty(alts) && Fits(multiset{Canon(o)} + m, d)
    ensures Apply(o, d).Success? && Fits(m, Apply(o, d).value)
    ensures AllNonEmpty(OwnAlternatives(o) + alts)
    ensures Settled(multiset{Canon(o)} + m, OwnAlternatives(o) + alts, d) == Settled(m, alts, Apply(o, d).value)
  {
    FitsStep(o, m, d);
    AllNonEmptyConcat(OwnAlternatives(o), alts);
    if !o.VersionOpt? {
      assert OwnAlternatives(o) + alts == alts;
    }
    match o
    case VersionOpt(l) => SettledVersion(l, m, alts, d);
    case VariantOpt(_, _) => SettledVariant(o, m, alts, d);
    case CompilerOpt(_, _) => SettledCompiler(o, m, alts, d);
    case ArchitectureOpt(_) => SettledArchitecture(o, m, alts, d);
  }

  /**
   * Applying options in the order written succeeds exactly when they fit,
   * and then gives the settled node, which depends only on which options
   * were written and on the ranges of the `@` lists.
   */
  lemma {:induction false} ApplyAllSettles(os: seq<Opt>, d: Draft)
    requires WfDraft(d) && WfOpts(os)
    ensures ApplyAll(os, d).Success? <==> Fits(Shape(os), d)
    ensures Fits(Shape(os), d) ==> ApplyAll(os, d) == Success(Settled(Shape(os), Alternatives(os), d))
    decreases |os|
  {
    if os == [] {
      assert VariantNames(multiset{}) == {};
      assert Settled(multiset{}, [], d) == d;
    } else {
      var o, rest := os[0], os[1..];
      assert WfOpt(o) && WfOpts(rest);
      var m := Shape(rest);
      FitsStep(o, m, d);
      var r := Apply(o, d);
      if r.Success? {
        assert ApplyAll(os, d) == ApplyAll(rest, r.value);
        ApplyAllSettles(rest, r.value);
        if Fits(Shape(os), d) {
          SettledStep(o, m, Alternatives(rest), d);
        }
      } else {
        assert ApplyAll(os, d) == Failure(r.error);
      }
    }
  }

  /**
   * A run of options either clashes, and then parsing fails, or it fits,
   * and then parsing continues from the settled node.
   */
  lemma OptionsSettle(os: seq<Opt>, t: seq<Token>, d: Draft)
    requires WfDraft(d) && WfOpts(os) && Break(t) && Separated(os, t)
    ensures !Fits(Shape(os), d) ==> ParseOptions(OptsTokens(os) + t, d).Failure?
    ensures Fits(Shape(os), d) ==> WfDraft(Settled(Shape(os), Alternatives(os), d))
    ensures Fits(Shape(os), d) ==> ParseOptions(OptsTokens(os) + t, d) == ParseOptions(t, Settled(Shape(os), Alternatives(os), d))
  {
    OptionsParse(os, t, d);
    ApplyAllSettles(os, d);
  }

  /**
   * Two runs of the same options, in any order, parse alike: to the same
   * node when either succeeds, and both fail otherwise. The `@` lists must
   * merge to the same versions, which holds whenever they are one list.
   */
  lemma OptionOrderIrrelevant(os: seq<Opt>, ps: seq<Opt>, t: seq<Token>, d: Draft)
    requires WfDraft(d) && WfOpts(os) && WfOpts(ps) && Break(t)
    requires Separated(os, t) && Separated(ps, t)
    requires Shape(os) == Shape(ps)
    requires AddAll(d.spec.versions, Alternatives(os)) == AddAll(d.spec.versions, Alternatives(ps))
    ensures ParseOptions(OptsTokens(os) + t, d).Failure? <==> ParseOptions(OptsTokens(ps) + t, d).Failure?
    ensures ParseOptions(OptsTokens(os) + t, d).Success? ==> ParseOptions(OptsTokens(os) + t, d) == ParseOptions(OptsTokens(ps) + t, d)
  {
    OptionsSettle(os, t, d);
    OptionsSettle(ps, t, d);
    if Fits(Shape(os), d) {
      assert Settled(Shape(os), Alternatives(os), d) == Settled(Shape(ps), Alternatives(ps), d);
    }
  }

  /**
   * The same with `@` lists whose ranges share no version, on a node
   * without versions yet: only which ranges are written matters.
   */
  lemma DisjointOptionOrderIrrelevant(os: seq<Opt>, ps: seq<Opt>, t: seq<Token>, d: Draft)
    requires WfDraft(d) && d.spec.versions == [] && WfOpts(os) && WfOpts(ps) && Break(t)
    requires Separated(os, t) && Separated(ps, t)
    requires Shape(os) == Shape(ps)
    requires PairwiseDisjoint(Alternatives(os)) && PairwiseDisjoint(Alternatives(ps))
    requires forall z :: z in Alternatives(os) <==> z in Alternatives(ps)
    ensures ParseOptions(OptsTokens(os) + t, d).Failure? <==> ParseOptions(OptsTokens(ps) + t, d).Failure?
    ensures ParseOptions(OptsTokens(os) + t, d).Success? ==> ParseOptions(OptsTokens(os) + t, d) == ParseOptions(OptsTokens(ps) + t, d)
  {
    VersionOrderIrrelevant(Alternatives(os), Alternatives(ps));
    OptionOrderIrrelevant(os, ps, t, d);
  }

  lemma WfOptsConcat(a: seq<Opt>, b: seq<Opt>)
    requires WfOpts(a) && WfOpts(b)
    ensures WfOpts(a + b)
  {
    forall i | 0 <= i < |a + b| ensures WfOpt((a + b)[i]) {
      if i >= |a| { assert (a + b)[i] == b[i - |a|]; }
    }
  }

  lemma {:induction false} ShapeConcat(a: seq<Opt>, b: seq<Opt>)
    requires WfOpts(a) && WfOpts(b) && WfOpts(a + b)
    ensures Shape(a + b) == Shape(a) + Shape(b)
    decreases |a|
  {
    if a == [] {
      assert a + b == b;
    } else {
      var c, r := a[0], a[1..];
      assert (a + b)[0] == c && (a + b)[1..] == r + b;
      assert WfOpt(c) && WfOpts(r) && WfOpts(r + b);
      ShapeConcat(r, b);
      calc {
        Shape(a + b);
        multiset{Canon(c)} + Shape(r + b);
        multiset{Canon(c)} + (Shape(r) + Shape(b));
        (multiset{Canon(c)} + Shape(r)) + Shape(b);
        Shape(a) + Shape(b);
      }
    }
  }

  lemma {:induction false} AlternativesConcat(a: seq<Opt>, b: seq<Opt>)
    requires WfOpts(a) && WfOpts(b) && WfOpts(a + b)
    ensures Alternatives(a + b) == Alternatives(a) + Alternatives(b)
    decreases |a|
  {
    if a == [] {
      assert a + b == b;
    } else {
      var c, r := a[0], a[1..];
      assert (a + b)[0] == c && (a + b)[1..] == r + b;
      assert WfOpt(c) && WfOpts(r) && WfOpts(r + b);
      AlternativesConcat(r, b);
      assert OwnAlternatives(c) + (Alternatives(r) + Alternatives(b)) == (OwnAlternatives(c) + Alternatives(r)) + Alternatives(b);
    }
  }

  /** The shape and ranges of a run with a middle part, piece by piece. */
  lemma ThreeParts(pre: seq<Opt>, x: seq<Opt>, post: seq<Opt>)
    requires WfOpts(pre) && WfOpts(x) && WfOpts(post)
    ensures WfOpts(pre + x + post)
    ensures Shape(pre + x + post) == Shape(pre) + Shape(x) + Shape(post)
    ensures Alternatives(pre + x + post) == Alternatives(pre) + Alternatives(x) + Alternatives(post)
  {
    WfOptsConcat(pre, x);
    WfOptsConcat(pre + x, post);
    ShapeConcat(pre, x);
    ShapeConcat(pre + x, post);
    AlternativesConcat(pre, x);
    AlternativesConcat(pre + x, post);
  }

  /** Swapping two neighbours that are not both `@` lists keeps the shape and the ranges. */
  lemma SwapShape(pre: seq<Opt>, o1: Opt, o2: Opt, post: seq<Opt>)
    requires WfOpts(pre) && WfOpt(o1) && WfOpt(o2) && WfOpts(post)
    requires !(o1.VersionOpt? && o2.VersionOpt?)
    ensures WfOpts(pre + [o1, o2] + post) && WfOpts(pre + [o2, o1] + post)
    ensures Shape(pre + [o1, o2] + post) == Shape(pre + [o2, o1] + post)
    ensures Alternatives(pre + [o1, o2] + post) == Alternatives(pre + [o2, o1] + post)
  {
    PairSwap(o1, o2);
    ThreeParts(pre, [o1, o2], post);
    ThreeParts(pre, [o2, o1], post);
  }

  lemma PairSwap(o1: Opt, o2: Opt)
    requires WfOpt(o1) && WfOpt(o2) && !(o1.VersionOpt? && o2.VersionOpt?)
    ensures WfOpts([o1, o2]) && WfOpts([o2, o1])
    ensures Shape([o1, o2]) == Shape([o2, o1])
    ensures Alternatives([o1, o2]) == Alternatives([o2, o1])
  {
    var x, y := [o1, o2], [o2, o1];
    assert WfOpts(x) && WfOpts(y);
    assert x[0] == o1 && x[1..] == [o2] && y[0] == o2 && y[1..] == [o1];
    OneShape(o1);
    OneShape(o2);
    assert Shape(x) == multiset{Canon(o1)} + Shape([o2]);
    assert Shape(y) == multiset{Canon(o2)} + Shape([o1]);
    assert Alternatives(x) == OwnAlternatives(o1) + Alternatives([o2]);
    assert Alternatives(y) == OwnAlternatives(o2) + Alternatives([o1]);
  }

  lemma OneShape(o: Opt)
    requires WfOpt(o)
    ensures WfOpts([o]) && Shape([o]) == multiset{Canon(o)} && Alternatives([o]) == OwnAlternatives(o)
  {
    assert [o][0] == o && [o][1..] == [];
    assert OwnAlternatives(o) + [] == OwnAlternatives(o);
  }

  /**
   * Two neighbouring options that are not both `@` lists may be swapped:
   * a variant against a version list, a compiler or an architecture, and
   * any two of different kinds or of different variant names.
   */
  lemma SwapNeighbours(pre: seq<Opt>, o1: Opt, o2: Opt, post: seq<Opt>, t: seq<Token>, d: Draft)
    requires WfDraft(d) && WfOpts(pre) && WfOpt(o1) && WfOpt(o2) && WfOpts(post) && Break(t)
    requires !(o1.VersionOpt? && o2.VersionOpt?)
    requires Separated(pre + [o1, o2] + post, t) && Separated(pre + [o2, o1] + post, t)
    ensures WfOpts(pre + [o1, o2] + post) && WfOpts(pre + [o2, o1] + post)
    ensures ParseOptions(OptsTokens(pre + [o1, o2] + post) + t, d).Failure?
        <==> ParseOptions(OptsTokens(pre + [o2, o1] + post) + t, d).Failure?
    ensures ParseOptions(OptsTokens(pre + [o1, o2] + post) + t, d).Success?
        ==> ParseOptions(OptsTokens(pre + [o1, o2] + post) + t, d) == ParseOptions(OptsTokens(pre + [o2, o1] + post) + t, d)
  {
    SwapShape(pre, o1, o2, post);
    OptionOrderIrrelevant(pre + [o1, o2] + post, pre + [o2, o1] + post, t, d);
  }
}
