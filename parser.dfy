/**
 * The spec parser: recursive descent over the token stream. A spec is an
 * identifier followed by any number of options — `@` and a version list,
 * `+`/`-`/`~` and a variant name, `%` and a compiler with an optional
 * version list, `=` and an architecture — and `^` attaches the spec after
 * it as a dependency of the last top-level spec.
 */
module SpecParser {
  import opened Wrappers
  import opened Strings
  import opened Versions
  import opened VersionLists
  import opened SpecLexer
  import opened Specs

  datatype ParseError =
    | LexFailure(error: LexError)
    | UnexpectedToken(token: Token)
    | UnexpectedEnd
    | InvalidVersion
    | InvertedRange(lo: Version, hi: Version)
    | DependencyWithoutPackage
    | DuplicateVariant(variant: string)
    | DuplicateCompiler(spec: string)
    | DuplicateArchitecture(spec: string)
    | DuplicateDependency(dependency: string)

  /** A parsed value and the tokens after it. */
  datatype Parsed<T> = Parsed(value: T, rest: seq<Token>)

  /** The text of the identifier that must come next. */
  function ExpectId(ts: seq<Token>): (r: Result<string, ParseError>)
    ensures r.Success? <==> ts != [] && ts[0].Id?
    ensures r.Success? ==> r.value == ts[0].text
  {
    if ts == [] then Failure(UnexpectedEnd)
    else if ts[0].Id? then Success(ts[0].text)
    else Failure(UnexpectedToken(ts[0]))
  }

  /**
   * One version alternative: `v`, `v:`, `:w`, `v:w` or `:`. Neither a
   * version nor a colon is an error, and so is a range whose low end is
   * above its high end.
   */
  function ParseVersion(ts: seq<Token>): (r: Result<Parsed<Range>, ParseError>)
    ensures r.Success? ==> |r.value.rest| < |ts| && NonEmpty(r.value.value)
  {
    var start := if ts != [] && ts[0].Id? then Some(Version(ts[0].text)) else None;
    var afterStart := if start.Some? then ts[1..] else ts;
    if afterStart != [] && afterStart[0] == Colon then
      var afterColon := afterStart[1..];
      var end := if afterColon != [] && afterColon[0].Id? then Some(Version(afterColon[0].text)) else None;
      var rest := if end.Some? then afterColon[1..] else afterColon;
      if !NonEmpty(Range(start, end)) then Failure(InvertedRange(start.value, end.value))
      else Success(Parsed(Range(start, end), rest))
    else if start.Some? then
      VersionOrder();
      Success(Parsed(Exact(start.value), afterStart))
    else Failure(InvalidVersion)
  }

  /** Comma-separated version alternatives, in the order written. */
  function ParseVersionList(ts: seq<Token>): (r: Result<Parsed<seq<Range>>, ParseError>)
    ensures r.Success? ==> |r.value.rest| < |ts| && r.value.value != []
    ensures r.Success? ==> forall i :: 0 <= i < |r.value.value| ==> NonEmpty(r.value.value[i])
    decreases |ts|
  {
    var first :- ParseVersion(ts);
    if first.rest != [] && first.rest[0] == Comma then
      var more :- ParseVersionList(first.rest[1..]);
      Success(Parsed([first.value] + more.value, more.rest))
    else Success(Parsed([first.value], first.rest))
  }

  lemma AddAllNonEmpty(l: seq<Range>, rs: seq<Range>)
    requires Normalized(l) && forall i :: 0 <= i < |rs| ==> NonEmpty(rs[i])
    ensures rs != [] ==> AddAll(l, rs) != []
  {
    if rs != [] {
      var v := NonEmptyHasVersion(rs[0]);
      assert Contains(AddAll(l, rs), v);
    }
  }

  /** The versions a parsed list admits, merged into a normalized list. */
  function Collect(rs: seq<Range>): (l: seq<Range>)
    requires forall i :: 0 <= i < |rs| ==> NonEmpty(rs[i])
    ensures Normalized(l)
    ensures rs != [] ==> l != []
    ensures forall v :: Contains(l, v) <==> exists i :: 0 <= i < |rs| && InRange(rs[i], v)
  {
    AddAllNonEmpty([], rs);
    AddAll([], rs)
  }

  /** A compiler after `%`: its name, then its versions if `@` follows, else any version. */
  function ParseCompiler(ts: seq<Token>): (r: Result<Parsed<CompilerSpec>, ParseError>)
    ensures r.Success? ==> |r.value.rest| < |ts| && ValidList(r.value.value.versions)
  {
    var name :- ExpectId(ts);
    if |ts| > 1 && ts[1] == At then
      var vl :- ParseVersionList(ts[2..]);
      Success(Parsed(CompilerSpec(name, Collect(vl.value)), vl.rest))
    else Success(Parsed(CompilerSpec(name, [AnyRange]), ts[1..]))
  }

  /** A spec under construction: `versioned` records whether any `@` was seen. */
  datatype Draft = Draft(spec: Spec, versioned: bool)

  predicate WfDraft(d: Draft)
  {
    && Normalized(d.spec.versions)
    && (d.versioned ==> d.spec.versions != [])
    && WfCompiler(d.spec.compiler)
    && d.spec.dependencies == map[]
  }

  /**
   * The options after a spec's name, one after another, until a token that
   * starts no option. A second variant of a name, a second compiler or a
   * second architecture is an error; a second `@` adds more versions.
   */
  function ParseOptions(ts: seq<Token>, d: Draft): (r: Result<Parsed<Draft>, ParseError>)
    requires WfDraft(d)
    ensures r.Success? ==> |r.value.rest| <= |ts| && WfDraft(r.value.value)
    ensures r.Success? ==> r.value.value.spec.name == d.spec.name
    ensures r.Success? ==> r.value.rest == [] || r.value.rest[0] !in {At, On, Off, Pct, Eq}
    decreases |ts|
  {
    if ts == [] then Success(Parsed(d, ts))
    else if ts[0] == At then
      var vl :- ParseVersionList(ts[1..]);
      var versions := AddAll(d.spec.versions, vl.value);
      AddAllNonEmpty(d.spec.versions, vl.value);
      ParseOptions(vl.rest, Draft(d.spec.(versions := versions), true))
    else if ts[0] == On || ts[0] == Off then
      var name :- ExpectId(ts[1..]);
      if name in d.spec.variants then Failure(DuplicateVariant(name))
      else ParseOptions(ts[2..], d.(spec := d.spec.(variants := d.spec.variants[name := ts[0] == On])))
    else if ts[0] == Pct then
      var c :- ParseCompiler(ts[1..]);
      if d.spec.compiler.Some? then Failure(DuplicateCompiler(d.spec.name))
      else ParseOptions(c.rest, d.(spec := d.spec.(compiler := Some(c.value))))
    else if ts[0] == Eq then
      var arch :- ExpectId(ts[1..]);
      if d.spec.architecture.Some? then Failure(DuplicateArchitecture(d.spec.name))
      else ParseOptions(ts[2..], d.(spec := d.spec.(architecture := Some(arch))))
    else Success(Parsed(d, ts))
  }

  /** `@` and a version list that parsed: the versions are added to the draft's. */
  lemma OptionsVersionStep(ts: seq<Token>, d: Draft, vl: Parsed<seq<Range>>)
    requires WfDraft(d) && ts != [] && ts[0] == At && ParseVersionList(ts[1..]) == Success(vl)
    ensures forall i :: 0 <= i < |vl.value| ==> NonEmpty(vl.value[i])
    ensures AddAll(d.spec.versions, vl.value) != []
    ensures ParseOptions(ts, d) == ParseOptions(vl.rest, Draft(d.spec.(versions := AddAll(d.spec.versions, vl.value)), true))
  {
    AddAllNonEmpty(d.spec.versions, vl.value);
  }

  /** A variant not yet at the node is recorded with its polarity. */
  lemma OptionsVariantStep(ts: seq<Token>, d: Draft)
    requires WfDraft(d) && |ts| > 1 && ts[0] in {On, Off} && ts[1].Id? && ts[1].text !in d.spec.variants
    ensures ParseOptions(ts, d) == ParseOptions(ts[2..], d.(spec := d.spec.(variants := d.spec.variants[ts[1].text := ts[0] == On])))
  {
    assert ts[1..][0] == ts[1];
  }

  /** `%` and a compiler that parsed, at a node without one. */
  lemma OptionsCompilerStep(ts: seq<Token>, d: Draft, c: Parsed<CompilerSpec>)
    requires WfDraft(d) && ts != [] && ts[0] == Pct && d.spec.compiler.None? && ParseCompiler(ts[1..]) == Success(c)
    ensures ParseOptions(ts, d) == ParseOptions(c.rest, d.(spec := d.spec.(compiler := Some(c.value))))
  {
  }

  /** `=` and an architecture, at a node without one. */
  lemma OptionsArchitectureStep(ts: seq<Token>, d: Draft)
    requires WfDraft(d) && |ts| > 1 && ts[0] == Eq && ts[1].Id? && d.spec.architecture.None?
    ensures ParseOptions(ts, d) == ParseOptions(ts[2..], d.(spec := d.spec.(architecture := Some(ts[1].text))))
  {
    assert ts[1..][0] == ts[1];
  }

  /** The options end at a token that starts none. */
  lemma OptionsEnd(ts: seq<Token>, d: Draft)
    requires WfDraft(d) && (ts == [] || ts[0] !in {At, On, Off, Pct, Eq})
    ensures ParseOptions(ts, d) == Success(Parsed(d, ts))
  {
  }

  /** A version list continues after a comma and ends anywhere else. */
  lemma VersionListStep(ts: seq<Token>, first: Parsed<Range>)
    requires ParseVersion(ts) == Success(first)
    ensures first.rest != [] && first.rest[0] == Comma ==>
              ParseVersionList(ts) == (match ParseVersionList(first.rest[1..])
                                       case Success(more) => Success(Parsed([first.value] + more.value, more.rest))
                                       case Failure(e) => Failure(e))
    ensures !(first.rest != [] && first.rest[0] == Comma) ==> ParseVersionList(ts) == Success(Parsed([first.value], first.rest))
  {
  }

  /** The spec a finished draft stands for: no `@` at all means any version. */
  function Finish(d: Draft): (s: Spec)
    requires WfDraft(d)
    ensures WfTree(s) && s.dependencies == map[] && s.name == d.spec.name
  {
    d.spec.(versions := if d.versioned then d.spec.versions else [AnyRange])
  }

  /** The spec an identifier starts, without dependencies. */
  function ParseNode(ts: seq<Token>): (r: Result<Parsed<Spec>, ParseError>)
    requires ts != [] && ts[0].Id?
    ensures r.Success? ==> |r.value.rest| < |ts|
    ensures r.Success? ==> WfTree(r.value.value) && r.value.value.dependencies == map[] && r.value.value.name == ts[0].text
    ensures r.Success? ==> r.value.rest == [] || r.value.rest[0] !in {At, On, Off, Pct, Eq}
  {
    var opts :- ParseOptions(ts[1..], Draft(Spec(ts[0].text, [], None, map[], None, map[]), false));
    Success(Parsed(Finish(opts.value), opts.rest))
  }

  /** A node whose options parsed. */
  lemma NodeStep(ts: seq<Token>, opts: Parsed<Draft>)
    requires ts != [] && ts[0].Id?
    requires ParseOptions(ts[1..], Draft(Spec(ts[0].text, [], None, map[], None, map[]), false)) == Success(opts)
    ensures WfDraft(opts.value)
    ensures ParseNode(ts) == Success(Parsed(Finish(opts.value), opts.rest))
  {
  }

  /** The dependency specs of `s` are leaves filed under their names. */
  predicate Flat(s: Spec)
  {
    WfTree(s) && forall k :: k in s.dependencies ==> s.dependencies[k].dependencies == map[]
  }

  /** Files `dep` as a dependency of the last spec of `acc`. */
  function Attach(acc: seq<Spec>, dep: Spec): (r: seq<Spec>)
    requires acc != []
    ensures |r| == |acc|
  {
    var last := acc[|acc| - 1];
    acc[..|acc| - 1] + [last.(dependencies := last.dependencies[dep.name := dep])]
  }

  lemma AttachFlat(acc: seq<Spec>, dep: Spec)
    requires acc != [] && forall i :: 0 <= i < |acc| ==> Flat(acc[i])
    requires WfTree(dep) && dep.dependencies == map[]
    ensures forall i :: 0 <= i < |acc| ==> Flat(Attach(acc, dep)[i])
  {
    var last := acc[|acc| - 1];
    var last' := last.(dependencies := last.dependencies[dep.name := dep]);
    assert Flat(last');
    forall i | 0 <= i < |acc| ensures Flat(Attach(acc, dep)[i]) {
      if i < |acc| - 1 {
        assert Attach(acc, dep)[i] == acc[i];
      }
    }
  }

  /**
   * The top-level loop: an identifier starts a new spec; `^` and a spec add
   * a dependency to the last spec, which must not already have one of that
   * name; anything else is unexpected.
   */
  function ParseSpecs(ts: seq<Token>, acc: seq<Spec>): (r: Result<seq<Spec>, ParseError>)
    requires forall i :: 0 <= i < |acc| ==> Flat(acc[i])
    ensures r.Success? ==> |r.value| >= |acc| && forall i :: 0 <= i < |r.value| ==> Flat(r.value[i])
    decreases |ts|
  {
    if ts == [] then Success(acc)
    else if ts[0].Id? then
      var node :- ParseNode(ts);
      ParseSpecs(node.rest, acc + [node.value])
    else if ts[0] == Dep then
      if acc == [] then Failure(DependencyWithoutPackage)
      else
        var _ :- ExpectId(ts[1..]);
        var node :- ParseNode(ts[1..]);
        var last := acc[|acc| - 1];
        if node.value.name in last.dependencies then Failure(DuplicateDependency(node.value.name))
        else
          AttachFlat(acc, node.value);
          ParseSpecs(node.rest, Attach(acc, node.value))
    else Failure(UnexpectedToken(ts[0]))
  }

  /** Lexes and parses a string of specs. */
  function Parse(s: string): (r: Result<seq<Spec>, ParseError>)
    ensures r.Success? ==> forall i :: 0 <= i < |r.value| ==> Flat(r.value[i])
  {
    match Lex(s)
    case Failure(e) => Failure(LexFailure(e))
    case Success(ts) => ParseSpecs(ts, [])
  }

  /** Any way of writing a token stream out parses as the stream itself. */
  lemma ParseLayout(ts: seq<Token>, gaps: seq<string>, dashes: seq<bool>)
    requires IsLayout(ts, gaps, dashes) && IdentTokens(ts)
    ensures Parse(Layout(ts, gaps, dashes)) == ParseSpecs(ts, [])
  {
    LexLayout(ts, gaps, dashes);
  }

  /** The top-level loop after a spec that parsed. */
  lemma SpecsNodeStep(ts: seq<Token>, acc: seq<Spec>, node: Parsed<Spec>)
    requires forall i :: 0 <= i < |acc| ==> Flat(acc[i])
    requires ts != [] && ts[0].Id? && ParseNode(ts) == Success(node)
    ensures ParseSpecs(ts, acc) == ParseSpecs(node.rest, acc + [node.value])
  {
  }

  /** The top-level loop after a dependency that parsed and is new to the last spec. */
  lemma SpecsDependencyStep(ts: seq<Token>, acc: seq<Spec>, node: Parsed<Spec>)
    requires acc != [] && forall i :: 0 <= i < |acc| ==> Flat(acc[i])
    requires |ts| > 1 && ts[0] == Dep && ts[1].Id? && ParseNode(ts[1..]) == Success(node)
    requires node.value.name !in acc[|acc| - 1].dependencies
    ensures ParseSpecs(ts, acc) == ParseSpecs(node.rest, Attach(acc, node.value))
  {
  }

  /** A dependency whose name the last spec already has is an error. */
  lemma SpecsDependencyRepeated(ts: seq<Token>, acc: seq<Spec>, node: Parsed<Spec>)
    requires acc != [] && forall i :: 0 <= i < |acc| ==> Flat(acc[i])
    requires |ts| > 1 && ts[0] == Dep && ts[1].Id? && ParseNode(ts[1..]) == Success(node)
    requires node.value.name in acc[|acc| - 1].dependencies
    ensures ParseSpecs(ts, acc) == Failure(DuplicateDependency(node.value.name))
  {
  }

  /** An error inside a dependency is the error of the whole parse. */
  lemma SpecsDependencyFails(ts: seq<Token>, acc: seq<Spec>)
    requires acc != [] && forall i :: 0 <= i < |acc| ==> Flat(acc[i])
    requires |ts| > 1 && ts[0] == Dep && ts[1].Id? && ParseNode(ts[1..]).Failure?
    ensures ParseSpecs(ts, acc) == Failure(ParseNode(ts[1..]).error)
  {
  }

  // ---------------------------------------------------------------------
  // Malformed specs
  // ---------------------------------------------------------------------

  /** A node whose version list starts with a second `@`. */
  lemma NodeDoubleAt(x: string, w: string, rest: seq<Token>)
    ensures ParseNode([Id(x), At, At, Id(w)] + rest) == Failure(InvalidVersion)
  {
    var ts := [Id(x), At, At, Id(w)] + rest;
    assert ts[1..][1..] == [At, Id(w)] + rest;
  }

  /** `x@@w`: an `@` where a version must start. */
  lemma DoubleAt(x: string, w: string, rest: seq<Token>)
    ensures ParseSpecs([Id(x), At, At, Id(w)] + rest, []) == Failure(InvalidVersion)
  {
    NodeDoubleAt(x, w, rest);
  }

  /** `x ^y@@w`: the same inside a dependency. */
  lemma DependencyDoubleAt(x: string, y: string, w: string, rest: seq<Token>)
    ensures ParseSpecs([Id(x), Dep, Id(y), At, At, Id(w)] + rest, []) == Failure(InvalidVersion)
  {
    var e := [Id(y), At, At, Id(w)] + rest;
    assert [Id(x), Dep, Id(y), At, At, Id(w)] + rest == [Id(x), Dep] + e;
    NodeDoubleAt(y, w, rest);
    BareThenFailingDependency(x, e, InvalidVersion);
  }

  /** `x@v::`: a range ends at its first colon, and the second one is stray. */
  lemma DoubleColonAfterVersion(x: string, v: string, rest: seq<Token>)
    ensures ParseSpecs([Id(x), At, Id(v), Colon, Colon] + rest, []) == Failure(UnexpectedToken(Colon))
  {
    var ts := [Id(x), At, Id(v), Colon, Colon] + rest;
    var tail := [Colon] + rest;
    var r := Range(Some(Version(v)), None);
    assert ts[1..][1..] == [Id(v), Colon, Colon] + rest;
    assert ts[1..][1..][1..] == [Colon, Colon] + rest;
    assert ts[1..][1..][1..][1..] == tail;
    assert ParseVersion(ts[1..][1..]) == Success(Parsed(r, tail));
    assert ParseVersionList(ts[1..][1..]) == Success(Parsed([r], tail));
    var d := Draft(Spec(x, [], None, map[], None, map[]), false);
    var d' := Draft(d.spec.(versions := AddAll([], [r])), true);
    AddAllNonEmpty([], [r]);
    assert ParseOptions(tail, d') == Success(Parsed(d', tail));
    assert ParseOptions(ts[1..], d) == Success(Parsed(d', tail));
    assert ParseNode(ts) == Success(Parsed(Finish(d'), tail));
  }

  /** `x::`: a colon cannot follow a name. */
  lemma DoubleColonAfterName(x: string, rest: seq<Token>)
    ensures ParseSpecs([Id(x), Colon, Colon] + rest, []) == Failure(UnexpectedToken(Colon))
  {
    var ts := [Id(x), Colon, Colon] + rest;
    assert ts[1..] == [Colon, Colon] + rest;
  }

  /** A variant whose name the draft already has is an error, whatever follows. */
  lemma VariantRepeated(s: Token, n: string, rest: seq<Token>, d: Draft)
    requires WfDraft(d) && s in {On, Off} && n in d.spec.variants
    ensures ParseOptions([s, Id(n)] + rest, d) == Failure(DuplicateVariant(n))
  {
    assert ([s, Id(n)] + rest)[1..] == [Id(n)] + rest;
  }

  /** A second compiler that itself parses is an error, reported for the node. */
  lemma CompilerRepeated(c: string, rest: seq<Token>, d: Draft)
    requires WfDraft(d) && d.spec.compiler.Some? && ParseCompiler([Id(c)] + rest).Success?
    ensures ParseOptions([Pct, Id(c)] + rest, d) == Failure(DuplicateCompiler(d.spec.name))
  {
    assert ([Pct, Id(c)] + rest)[1..] == [Id(c)] + rest;
  }

  /**
   * The options never take back what the draft holds: every variant keeps
   * its polarity and a compiler stays, so a later repeat of either meets it.
   */
  lemma {:induction false} OptionsKeep(ts: seq<Token>, d: Draft)
    requires WfDraft(d) && ParseOptions(ts, d).Success?
    ensures forall k :: k in d.spec.variants ==>
              k in ParseOptions(ts, d).value.value.spec.variants && ParseOptions(ts, d).value.value.spec.variants[k] == d.spec.variants[k]
    ensures d.spec.compiler.Some? ==> ParseOptions(ts, d).value.value.spec.compiler == d.spec.compiler
    decreases |ts|
  {
    if ts == [] {
    } else if ts[0] == At {
      var vl := ParseVersionList(ts[1..]).value;
      AddAllNonEmpty(d.spec.versions, vl.value);
      OptionsKeep(vl.rest, Draft(d.spec.(versions := AddAll(d.spec.versions, vl.value)), true));
    } else if ts[0] == On || ts[0] == Off {
      var name := ExpectId(ts[1..]).value;
      OptionsKeep(ts[2..], d.(spec := d.spec.(variants := d.spec.variants[name := ts[0] == On])));
    } else if ts[0] == Pct {
      var c := ParseCompiler(ts[1..]).value;
      OptionsKeep(c.rest, d.(spec := d.spec.(compiler := Some(c.value))));
    } else if ts[0] == Eq {
      var arch := ExpectId(ts[1..]).value;
      OptionsKeep(ts[2..], d.(spec := d.spec.(architecture := Some(arch))));
    }
  }

  /** A node with one variant name twice, whatever the polarities. */
  lemma NodeDuplicateVariant(x: string, n: string, first: Token, second: Token, rest: seq<Token>)
    requires first in {On, Off} && second in {On, Off}
    ensures ParseNode([Id(x), first, Id(n), second, Id(n)] + rest) == Failure(DuplicateVariant(n))
  {
    var ts := [Id(x), first, Id(n), second, Id(n)] + rest;
    var d := Draft(Spec(x, [], None, map[], None, map[]), false);
    var d' := d.(spec := d.spec.(variants := map[n := first == On]));
    assert ts[1..] == [first, Id(n), second, Id(n)] + rest;
    assert ts[1..][2..] == [second, Id(n)] + rest;
    OptionsVariantStep(ts[1..], d);
    VariantRepeated(second, n, rest, d');
  }

  /** One version followed by neither `:` nor `,` is that version alone. */
  lemma SingleVersion(v: string, t: seq<Token>)
    requires t == [] || (t[0] != Colon && t[0] != Comma)
    ensures ParseVersionList([Id(v)] + t) == Success(Parsed([Exact(Version(v))], t))
  {
    assert ([Id(v)] + t)[1..] == t;
    assert ParseVersion([Id(v)] + t) == Success(Parsed(Exact(Version(v)), t));
  }

  /** A node fails with the error its options fail with. */
  lemma NodeFails(x: string, t: seq<Token>, err: ParseError)
    requires ParseOptions(t, Draft(Spec(x, [], None, map[], None, map[]), false)) == Failure(err)
    ensures ParseNode([Id(x)] + t) == Failure(err)
  {
    assert ([Id(x)] + t)[1..] == t;
  }

  /** A run of six tokens, taken apart in pairs. */
  lemma InPairs(a: Token, b: Token, c: Token, e: Token, f: Token, g: Token, rest: seq<Token>)
    ensures [a, b, c, e, f, g] + rest == [a, b] + ([c, e] + ([f, g] + rest))
    ensures ([a, b] + rest)[2..] == rest && ([a, b] + rest)[1..] == [b] + rest
  {
  }

  /** `@v+n+n`: a version, then one variant name twice. */
  lemma VersionThenRepeat(v: string, n: string, first: Token, second: Token, rest: seq<Token>, d: Draft)
    requires WfDraft(d) && n !in d.spec.variants && first in {On, Off} && second in {On, Off}
    ensures ParseOptions([At, Id(v), first, Id(n), second, Id(n)] + rest, d) == Failure(DuplicateVariant(n))
  {
    var tail := [second, Id(n)] + rest;
    var opts := [first, Id(n)] + tail;
    var ts := [At, Id(v)] + opts;
    InPairs(At, Id(v), first, Id(n), second, Id(n), rest);
    InPairs(At, Id(v), first, Id(n), second, Id(n), opts);
    InPairs(first, Id(n), second, Id(n), second, Id(n), tail);
    var vl := Parsed([Exact(Version(v))], opts);
    SingleVersion(v, opts);
    OptionsVersionStep(ts, d, vl);
    var d1 := Draft(d.spec.(versions := AddAll(d.spec.versions, vl.value)), true);
    OptionsVariantStep(opts, d1);
    VariantRepeated(second, n, rest, d1.(spec := d1.spec.(variants := d1.spec.variants[n := first == On])));
  }

  /** `x@v+n+n`: the same after a version. */
  lemma VersionedDuplicateVariant(x: string, v: string, n: string, first: Token, second: Token, rest: seq<Token>)
    requires first in {On, Off} && second in {On, Off}
    ensures ParseNode([Id(x), At, Id(v), first, Id(n), second, Id(n)] + rest) == Failure(DuplicateVariant(n))
  {
    var t := [At, Id(v), first, Id(n), second, Id(n)] + rest;
    assert [Id(x), At, Id(v), first, Id(n), second, Id(n)] + rest == [Id(x)] + t;
    VersionThenRepeat(v, n, first, second, rest, Draft(Spec(x, [], None, map[], None, map[]), false));
    NodeFails(x, t, DuplicateVariant(n));
  }

  /** `x+n+n` and `x+n~n`: one variant name twice at a node is an error. */
  lemma DuplicateVariantRejected(x: string, n: string, first: Token, second: Token, rest: seq<Token>)
    requires first in {On, Off} && second in {On, Off}
    ensures ParseSpecs([Id(x), first, Id(n), second, Id(n)] + rest, []) == Failure(DuplicateVariant(n))
  {
    NodeDuplicateVariant(x, n, first, second, rest);
  }

  /** `x@v+n+n`, the test's `x@1.2+debug+debug`. */
  lemma VersionedDuplicateVariantRejected(x: string, v: string, n: string, first: Token, second: Token, rest: seq<Token>)
    requires first in {On, Off} && second in {On, Off}
    ensures ParseSpecs([Id(x), At, Id(v), first, Id(n), second, Id(n)] + rest, []) == Failure(DuplicateVariant(n))
  {
    VersionedDuplicateVariant(x, v, n, first, second, rest);
  }

  /** `x ^y+n+n`: the same at a dependency. */
  lemma DependencyDuplicateVariant(x: string, y: string, n: string, rest: seq<Token>)
    ensures ParseSpecs([Id(x), Dep, Id(y), On, Id(n), On, Id(n)] + rest, []) == Failure(DuplicateVariant(n))
  {
    var e := [Id(y), On, Id(n), On, Id(n)] + rest;
    assert [Id(x), Dep, Id(y), On, Id(n), On, Id(n)] + rest == [Id(x), Dep] + e;
    NodeDuplicateVariant(y, n, On, On, rest);
    BareThenFailingDependency(x, e, DuplicateVariant(n));
  }

  /** `x ^y@v+n+n`, the test's `x ^y@1.2+debug+debug`. */
  lemma DependencyVersionedDuplicateVariant(x: string, y: string, v: string, n: string, rest: seq<Token>)
    ensures ParseSpecs([Id(x), Dep, Id(y), At, Id(v), On, Id(n), On, Id(n)] + rest, []) == Failure(DuplicateVariant(n))
  {
    var e := [Id(y), At, Id(v), On, Id(n), On, Id(n)] + rest;
    assert [Id(x), Dep, Id(y), At, Id(v), On, Id(n), On, Id(n)] + rest == [Id(x), Dep] + e;
    VersionedDuplicateVariant(y, v, n, On, On, rest);
    BareThenFailingDependency(x, e, DuplicateVariant(n));
  }

  /** A node with a second compiler, named the same or not, with or without versions. */
  lemma NodeDuplicateCompiler(x: string, c: string, d: string, rest: seq<Token>)
    requires ParseCompiler([Id(d)] + rest).Success?
    ensures ParseNode([Id(x), Pct, Id(c), Pct, Id(d)] + rest) == Failure(DuplicateCompiler(x))
  {
    var ts := [Id(x), Pct, Id(c), Pct, Id(d)] + rest;
    var dr := Draft(Spec(x, [], None, map[], None, map[]), false);
    var dr' := dr.(spec := dr.spec.(compiler := Some(CompilerSpec(c, [AnyRange]))));
    assert ts[1..] == [Pct, Id(c), Pct, Id(d)] + rest;
    assert ts[1..][1..] == [Id(c), Pct, Id(d)] + rest;
    assert ts[1..][1..][1..] == [Pct, Id(d)] + rest;
    assert ParseCompiler(ts[1..][1..]) == Success(Parsed(CompilerSpec(c, [AnyRange]), ts[1..][1..][1..]));
    assert ValidList([AnyRange]);
    OptionsCompilerStep(ts[1..], dr, Parsed(CompilerSpec(c, [AnyRange]), ts[1..][1..][1..]));
    CompilerRepeated(d, rest, dr');
  }

  /** `x%c%d` and `x%c%d@v`: a second compiler at a node is an error, with the same name or another. */
  lemma DuplicateCompilerRejected(x: string, c: string, d: string, rest: seq<Token>)
    requires ParseCompiler([Id(d)] + rest).Success?
    ensures ParseSpecs([Id(x), Pct, Id(c), Pct, Id(d)] + rest, []) == Failure(DuplicateCompiler(x))
  {
    NodeDuplicateCompiler(x, c, d, rest);
  }

  /** A name followed by no option is the bare spec of that name. */
  lemma NodeBare(x: string, rest: seq<Token>)
    requires rest == [] || rest[0] !in {At, On, Off, Pct, Eq}
    ensures ParseNode([Id(x)] + rest) == Success(Parsed(Bare(x), rest))
  {
    assert ([Id(x)] + rest)[1..] == rest;
  }

  /** `x ^y%c%d`: the same at a dependency, reported for the dependency. */
  lemma DependencyDuplicateCompiler(x: string, y: string, c: string, d: string, rest: seq<Token>)
    requires ParseCompiler([Id(d)] + rest).Success?
    ensures ParseSpecs([Id(x), Dep, Id(y), Pct, Id(c), Pct, Id(d)] + rest, []) == Failure(DuplicateCompiler(y))
  {
    var e := [Id(y), Pct, Id(c), Pct, Id(d)] + rest;
    assert [Id(x), Dep, Id(y), Pct, Id(c), Pct, Id(d)] + rest == [Id(x), Dep] + e;
    NodeDuplicateCompiler(y, c, d, rest);
    BareThenFailingDependency(x, e, DuplicateCompiler(y));
  }

  /** A bare spec followed by a dependency that does not parse fails with the dependency's error. */
  lemma BareThenFailingDependency(x: string, e: seq<Token>, err: ParseError)
    requires e != [] && e[0].Id? && ParseNode(e) == Failure(err)
    ensures ParseSpecs([Id(x), Dep] + e, []) == Failure(err)
  {
    var d1 := [Dep] + e;
    assert d1[1..] == e;
    BareThenDependency(x, e);
    SpecsDependencyFails(d1, [Bare(x)]);
  }

  /** `x ^e`: the bare `x` is the first spec and the dependency comes next. */
  lemma BareThenDependency(x: string, e: seq<Token>)
    ensures forall i :: 0 <= i < 1 ==> Flat([Bare(x)][i])
    ensures ParseSpecs([Id(x), Dep] + e, []) == ParseSpecs([Dep] + e, [Bare(x)])
  {
    var d1 := [Dep] + e;
    var ts := [Id(x)] + d1;
    assert ts == [Id(x), Dep] + e;
    BareFlat(x);
    NodeBare(x, d1);
    SpecsNodeStep(ts, [], Parsed(Bare(x), d1));
    assert [] + [Bare(x)] == [Bare(x)];
  }

  /** `x ^e` with a dependency that parses: `x`, the dependency filed under it, then the rest. */
  lemma DependencyAfterBare(x: string, e: seq<Token>, node: Parsed<Spec>)
    requires e != [] && e[0].Id? && ParseNode(e) == Success(node)
    ensures ParseSpecs([Id(x), Dep] + e, []) == ParseSpecs(node.rest, Attach([Bare(x)], node.value))
  {
    var d1 := [Dep] + e;
    assert d1[1..] == e;
    BareThenDependency(x, e);
    SpecsDependencyStep(d1, [Bare(x)], node);
  }

  /** `x ^y` with options `r1` and with options `r2` parse alike when `y` parses to the same node with either. */
  lemma SameDependencyNode(x: string, y: string, r1: seq<Token>, r2: seq<Token>)
    requires ParseNode([Id(y)] + r1) == ParseNode([Id(y)] + r2)
    ensures ParseSpecs([Id(x), Dep, Id(y)] + r1, []) == ParseSpecs([Id(x), Dep, Id(y)] + r2, [])
  {
    var e1, e2 := [Id(y)] + r1, [Id(y)] + r2;
    assert [Id(x), Dep] + e1 == [Id(x), Dep, Id(y)] + r1;
    assert [Id(x), Dep] + e2 == [Id(x), Dep, Id(y)] + r2;
    match ParseNode(e1)
    case Failure(err) =>
      BareThenFailingDependency(x, e1, err);
      BareThenFailingDependency(x, e2, err);
    case Success(node) =>
      DependencyAfterBare(x, e1, node);
      DependencyAfterBare(x, e2, node);
  }

  lemma BareFlat(x: string)
    ensures Flat(Bare(x)) && WfTree(Bare(x)) && Bare(x).dependencies == map[]
  {
    assert ValidList([AnyRange]);
  }

  /** `x ^y` and more tokens: `x` with `y` filed under it, then the rest. */
  lemma BareWithDependency(x: string, y: string, rest: seq<Token>)
    requires rest == [] || rest[0] !in {At, On, Off, Pct, Eq}
    ensures forall i :: 0 <= i < 1 ==> Flat(Attach([Bare(x)], Bare(y))[i])
    ensures ParseSpecs([Id(x), Dep, Id(y)] + rest, []) == ParseSpecs(rest, Attach([Bare(x)], Bare(y)))
  {
    var e := [Id(y)] + rest;
    assert [Id(x), Dep, Id(y)] + rest == [Id(x), Dep] + e;
    assert ([Dep] + e)[1..] == e;
    BareFlat(y);
    AttachFlat([Bare(x)], Bare(y));
    NodeBare(y, rest);
    BareThenDependency(x, e);
    SpecsDependencyStep([Dep] + e, [Bare(x)], Parsed(Bare(y), rest));
  }

  /** `x ^y ^y`: a second dependency of one name. */
  lemma DuplicateDependencyRejected(x: string, y: string, rest: seq<Token>)
    requires rest == [] || rest[0] !in {At, On, Off, Pct, Eq}
    ensures ParseSpecs([Id(x), Dep, Id(y), Dep, Id(y)] + rest, []) == Failure(DuplicateDependency(y))
  {
    var d2 := [Dep, Id(y)] + rest;
    assert [Id(x), Dep, Id(y), Dep, Id(y)] + rest == [Id(x), Dep, Id(y)] + d2;
    assert d2[1..] == [Id(y)] + rest;
    var acc := Attach([Bare(x)], Bare(y));
    assert y in acc[0].dependencies;
    NodeBare(y, rest);
    BareWithDependency(x, y, d2);
    SpecsDependencyRepeated(d2, acc, Parsed(Bare(y), rest));
  }

  /** `^y` with no spec before it. */
  lemma DependencyFirst(y: string, rest: seq<Token>)
    ensures ParseSpecs([Dep, Id(y)] + rest, []) == Failure(DependencyWithoutPackage)
  {
  }
}
