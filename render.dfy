/**
 * The canonical text of a spec, as `str(spec)` writes it: the name, then
 * `@` and the version alternatives in ascending order (nothing when any
 * version will do), `%` and the compiler with its versions, the variants
 * in name order as `+name` or `~name`, `=` and the architecture, and then
 * each dependency, in name order, as `^` and its own node.
 */
module SpecRender {
  import opened Wrappers
  import opened Strings
  import opened Versions
  import opened VersionLists
  import opened SpecLexer
  import opened Specs
  import opened SpecParser

  function BoundTokens(b: Option<Version>): seq<Token>
  {
    if b.Some? then [Id(b.value.text)] else []
  }

  /** A single version as itself; any other range as its bounds around a colon. */
  function RangeTokens(r: Range): seq<Token>
  {
    if r.lo.Some? && r.lo == r.hi then [Id(r.lo.value.text)]
    else BoundTokens(r.lo) + [Colon] + BoundTokens(r.hi)
  }

  /** The alternatives of a list, separated by commas. */
  function ListTokens(l: seq<Range>): seq<Token>
    requires l != []
    decreases |l|
  {
    if |l| == 1 then RangeTokens(l[0])
    else RangeTokens(l[0]) + [Comma] + ListTokens(l[1..])
  }

  /** `@` and the list, or nothing for the list that admits any version. */
  function VersionTokens(l: seq<Range>): seq<Token>
    requires l != []
  {
    if l == [AnyRange] then [] else [At] + ListTokens(l)
  }

  function CompilerTokens(c: Option<CompilerSpec>): seq<Token>
    requires WfCompiler(c)
  {
    if c.None? then [] else [Pct, Id(c.value.name)] + VersionTokens(c.value.versions)
  }

  function VariantTokens(keys: seq<string>, variants: map<string, bool>): seq<Token>
    requires forall i :: 0 <= i < |keys| ==> keys[i] in variants
    decreases |keys|
  {
    if keys == [] then []
    else [if variants[keys[0]] then On else Off, Id(keys[0])] + VariantTokens(keys[1..], variants)
  }

  function ArchitectureTokens(a: Option<string>): seq<Token>
  {
    if a.Some? then [Eq, Id(a.value)] else []
  }

  /** One node without its dependencies. */
  function NodeTokens(s: Spec): seq<Token>
    requires WfTree(s)
  {
    [Id(s.name)]
      + VersionTokens(s.versions)
      + CompilerTokens(s.compiler)
      + VariantTokens(SortedKeys(s.variants.Keys), s.variants)
      + ArchitectureTokens(s.architecture)
  }

  function DependencyTokens(keys: seq<string>, deps: map<string, Spec>): seq<Token>
    requires forall i :: 0 <= i < |keys| ==> keys[i] in deps && WfTree(deps[keys[i]])
    decreases |keys|
  {
    if keys == [] then []
    else [Dep] + NodeTokens(deps[keys[0]]) + DependencyTokens(keys[1..], deps)
  }

  /** A spec: its node, then `^` and the node of each dependency in name order. */
  function SpecTokens(s: Spec): seq<Token>
    requires WfTree(s)
  {
    NodeTokens(s) + DependencyTokens(SortedKeys(s.dependencies.Keys), s.dependencies)
  }

  function Render(s: Spec): string
    requires WfTree(s)
  {
    Spell(SpecTokens(s))
  }

  // ---------------------------------------------------------------------
  // Which specs have a canonical text
  // ---------------------------------------------------------------------

  predicate IdentBound(b: Option<Version>)
  {
    b.Some? ==> IsIdent(b.value.text)
  }

  predicate IdentList(l: seq<Range>)
  {
    forall i :: 0 <= i < |l| ==> IdentBound(l[i].lo) && IdentBound(l[i].hi)
  }

  /** Every name, version, variant and architecture of the node is an identifier. */
  predicate IdentNode(s: Spec)
  {
    && IsIdent(s.name)
    && IdentList(s.versions)
    && (s.compiler.Some? ==> IsIdent(s.compiler.value.name) && IdentList(s.compiler.value.versions))
    && (forall k :: k in s.variants ==> IsIdent(k))
    && (s.architecture.Some? ==> IsIdent(s.architecture.value))
  }

  /**
   * The specs the text syntax can write: well formed, dependencies are
   * leaves, and every text is an identifier.
   */
  predicate Printable(s: Spec)
  {
    && Flat(s)
    && IdentNode(s)
    && forall k :: k in s.dependencies ==> IdentNode(s.dependencies[k])
  }

  // ---------------------------------------------------------------------
  // The rendered tokens lex back
  // ---------------------------------------------------------------------

  lemma IdentTokensConcat(a: seq<Token>, b: seq<Token>)
    requires IdentTokens(a) && IdentTokens(b)
    ensures IdentTokens(a + b)
  {
    forall i | 0 <= i < |a + b| && (a + b)[i].Id? ensures IsIdent((a + b)[i].text) {
      if i < |a| {
        assert (a + b)[i] == a[i];
      } else {
        assert (a + b)[i] == b[i - |a|];
      }
    }
  }

  lemma {:induction false} ListIdents(l: seq<Range>)
    requires l != [] && IdentList(l)
    ensures IdentTokens(ListTokens(l))
    decreases |l|
  {
    if |l| > 1 {
      ListIdents(l[1..]);
      IdentTokensConcat(RangeTokens(l[0]), [Comma]);
      IdentTokensConcat(RangeTokens(l[0]) + [Comma], ListTokens(l[1..]));
    }
  }

  lemma VersionIdents(l: seq<Range>)
    requires l != [] && IdentList(l)
    ensures IdentTokens(VersionTokens(l))
  {
    if l != [AnyRange] {
      ListIdents(l);
      IdentTokensConcat([At], ListTokens(l));
    }
  }

  lemma {:induction false} VariantIdents(keys: seq<string>, variants: map<string, bool>)
    requires forall i :: 0 <= i < |keys| ==> keys[i] in variants && IsIdent(keys[i])
    ensures IdentTokens(VariantTokens(keys, variants))
    decreases |keys|
  {
    if keys != [] {
      VariantIdents(keys[1..], variants);
      IdentTokensConcat([if variants[keys[0]] then On else Off, Id(keys[0])], VariantTokens(keys[1..], variants));
    }
  }

  lemma CompilerIdents(c: Option<CompilerSpec>)
    requires WfCompiler(c) && (c.Some? ==> IsIdent(c.value.name) && IdentList(c.value.versions))
    ensures IdentTokens(CompilerTokens(c))
  {
    if c.Some? {
      VersionIdents(c.value.versions);
      IdentTokensConcat([Pct, Id(c.value.name)], VersionTokens(c.value.versions));
    }
  }

  lemma NodeIdents(s: Spec)
    requires WfTree(s) && IdentNode(s)
    ensures IdentTokens(NodeTokens(s))
  {
    var v := VersionTokens(s.versions);
    var c := CompilerTokens(s.compiler);
    var f := VariantTokens(SortedKeys(s.variants.Keys), s.variants);
    var e := ArchitectureTokens(s.architecture);
    VersionIdents(s.versions);
    CompilerIdents(s.compiler);
    VariantIdents(SortedKeys(s.variants.Keys), s.variants);
    assert IdentTokens(e);
    IdentTokensConcat([Id(s.name)], v);
    IdentTokensConcat([Id(s.name)] + v, c);
    IdentTokensConcat([Id(s.name)] + v + c, f);
    IdentTokensConcat([Id(s.name)] + v + c + f, e);
  }

  lemma {:induction false} DependencyIdents(keys: seq<string>, deps: map<string, Spec>)
    requires forall i :: 0 <= i < |keys| ==> keys[i] in deps && WfTree(deps[keys[i]]) && IdentNode(deps[keys[i]])
    ensures IdentTokens(DependencyTokens(keys, deps))
    decreases |keys|
  {
    if keys != [] {
      DependencyIdents(keys[1..], deps);
      NodeIdents(deps[keys[0]]);
      IdentTokensConcat([Dep], NodeTokens(deps[keys[0]]));
      IdentTokensConcat([Dep] + NodeTokens(deps[keys[0]]), DependencyTokens(keys[1..], deps));
    }
  }

  /** The canonical text of a printable spec lexes to its tokens. */
  lemma LexRender(s: Spec)
    requires Printable(s)
    ensures Lex(Render(s)) == Success(SpecTokens(s))
  {
    NodeIdents(s);
    DependencyIdents(SortedKeys(s.dependencies.Keys), s.dependencies);
    IdentTokensConcat(NodeTokens(s), DependencyTokens(SortedKeys(s.dependencies.Keys), s.dependencies));
    LexSpell(SpecTokens(s));
  }

  // ---------------------------------------------------------------------
  // The rendered tokens parse back, piece by piece
  // ---------------------------------------------------------------------

  /** What may follow a node's options: another option, a dependency, or the end. */
  predicate Follows(t: seq<Token>)
  {
    t == [] || t[0] in {Pct, On, Off, Eq, Dep}
  }

  lemma ParseRange(r: Range, t: seq<Token>)
    requires NonEmpty(r)
    requires t == [] || (t[0] != Colon && !t[0].Id?)
    ensures ParseVersion(RangeTokens(r) + t) == Success(Parsed(r, t))
  {
    var ts := RangeTokens(r) + t;
    if r.lo.Some? && r.lo == r.hi {
      assert ts[1..] == t;
    } else if r.lo.Some? {
      assert ts[1..] == [Colon] + BoundTokens(r.hi) + t;
      assert ts[1..][1..] == BoundTokens(r.hi) + t;
      if r.hi.Some? {
        assert ts[1..][1..][1..] == t;
      }
    } else {
      assert ts[1..] == BoundTokens(r.hi) + t;
      if r.hi.Some? {
        assert ts[1..][1..] == t;
      }
    }
  }

  lemma ListTokensCons(x: Range, rs: seq<Range>, t: seq<Token>)
    requires rs != []
    ensures ListTokens([x] + rs) + t == RangeTokens(x) + ([Comma] + (ListTokens(rs) + t))
  {
    var l := [x] + rs;
    assert l[0] == x && l[1..] == rs;
  }

  /** One more alternative in front of a list that parses. */
  lemma ParseListCons(r: Range, rs: seq<Range>, more: seq<Token>, t: seq<Token>)
    requires NonEmpty(r)
    requires ParseVersionList(more) == Success(Parsed(rs, t))
    ensures ParseVersionList(RangeTokens(r) + ([Comma] + more)) == Success(Parsed([r] + rs, t))
  {
    var rest := [Comma] + more;
    ParseRange(r, rest);
    assert rest[1..] == more;
    VersionListStep(RangeTokens(r) + rest, Parsed(r, rest));
  }

  lemma ParseListMore(x: Range, rs: seq<Range>, t: seq<Token>)
    requires rs != [] && NonEmpty(x)
    requires ParseVersionList(ListTokens(rs) + t) == Success(Parsed(rs, t))
    ensures ParseVersionList(ListTokens([x] + rs) + t) == Success(Parsed([x] + rs, t))
  {
    ListTokensCons(x, rs, t);
    ParseListCons(x, rs, ListTokens(rs) + t, t);
  }

  /** Any list of non-empty alternatives, in any order, parses back as written. */
  lemma {:induction false} ParseList(l: seq<Range>, t: seq<Token>)
    requires l != [] && forall i :: 0 <= i < |l| ==> NonEmpty(l[i])
    requires t == [] || (t[0] !in {Colon, Comma} && !t[0].Id?)
    ensures ParseVersionList(ListTokens(l) + t) == Success(Parsed(l, t))
    decreases |l|
  {
    if |l| == 1 {
      ParseRange(l[0], t);
      VersionListStep(ListTokens(l) + t, Parsed(l[0], t));
      assert [l[0]] == l;
    } else {
      assert forall i :: 0 <= i < |l| - 1 ==> l[1..][i] == l[i + 1];
      ParseList(l[1..], t);
      ParseListMore(l[0], l[1..], t);
      assert [l[0]] + l[1..] == l;
    }
  }

  /** A normalized list parsed back is kept as it is. */
  lemma CollectNormalized(l: seq<Range>)
    requires Normalized(l)
    ensures AddAll([], l) == l
  {
    AddAllSorted([], l);
    assert [] + l == l;
  }

  lemma OptionsVersions(l: seq<Range>, t: seq<Token>, d: Draft)
    requires WfDraft(d) && d.spec.versions == [] && !d.versioned
    requires ValidList(l) && Follows(t)
    ensures ParseOptions(VersionTokens(l) + t, d)
         == ParseOptions(t, if l == [AnyRange] then d else Draft(d.spec.(versions := l), true))
  {
    if l != [AnyRange] {
      var ts := [At] + (ListTokens(l) + t);
      assert VersionTokens(l) + t == ts;
      assert ts[1..] == ListTokens(l) + t;
      ParseList(l, t);
      OptionsVersionStep(ts, d, Parsed(l, t));
      CollectNormalized(l);
    } else {
      assert VersionTokens(l) + t == t;
    }
  }

  lemma CompilerBack(c: CompilerSpec, t: seq<Token>)
    requires ValidList(c.versions) && Follows(t)
    ensures ParseCompiler([Id(c.name)] + VersionTokens(c.versions) + t) == Success(Parsed(c, t))
  {
    var after := [Id(c.name)] + VersionTokens(c.versions) + t;
    if c.versions == [AnyRange] {
      assert after[1..] == t;
    } else {
      assert after[1] == At && after[2..] == ListTokens(c.versions) + t;
      ParseList(c.versions, t);
      CollectNormalized(c.versions);
    }
  }

  lemma OptionsCompiler(c: Option<CompilerSpec>, t: seq<Token>, d: Draft)
    requires WfDraft(d) && d.spec.compiler.None?
    requires WfCompiler(c) && Follows(t)
    ensures ParseOptions(CompilerTokens(c) + t, d) == ParseOptions(t, d.(spec := d.spec.(compiler := c)))
  {
    if c.Some? {
      var after := [Id(c.value.name)] + VersionTokens(c.value.versions) + t;
      var ts := [Pct] + after;
      assert CompilerTokens(c) + t == ts;
      assert ts[1..] == after;
      CompilerBack(c.value, t);
      OptionsCompilerStep(ts, d, Parsed(c.value, t));
      assert d.(spec := d.spec.(compiler := Some(c.value))) == d.(spec := d.spec.(compiler := c));
    } else {
      assert CompilerTokens(c) + t == t;
      assert d.(spec := d.spec.(compiler := c)) == d;
    }
  }

  /**
   * `keys` lists, once each, exactly the variants of `m` the draft still
   * lacks, and the draft agrees with `m` on the others.
   */
  predicate VariantsToGo(keys: seq<string>, m: map<string, bool>, d: Draft)
  {
    && (forall i, j :: 0 <= i < j < |keys| ==> keys[i] != keys[j])
    && (forall i :: 0 <= i < |keys| ==> keys[i] in m)
    && (forall k :: k in m ==> (k in d.spec.variants <==> k !in keys))
    && (forall k :: k in d.spec.variants ==> k in m && d.spec.variants[k] == m[k])
  }

  lemma VariantsToGoTail(keys: seq<string>, m: map<string, bool>, d: Draft)
    requires keys != [] && VariantsToGo(keys, m, d)
    ensures keys[0] !in d.spec.variants
    ensures VariantsToGo(keys[1..], m, d.(spec := d.spec.(variants := d.spec.variants[keys[0] := m[keys[0]]])))
  {
    forall j | 0 <= j < |keys[1..]| ensures keys[1..][j] != keys[0] && keys[1..][j] == keys[j + 1] {
      assert keys[1..][j] == keys[j + 1];
    }
  }

  lemma VariantsDone(m: map<string, bool>, d: Draft)
    requires VariantsToGo([], m, d)
    ensures d.(spec := d.spec.(variants := m)) == d
  {
    assert d.spec.variants == m;
  }

  lemma {:induction false} OptionsVariants(keys: seq<string>, m: map<string, bool>, t: seq<Token>, d: Draft)
    requires WfDraft(d) && Follows(t) && VariantsToGo(keys, m, d)
    ensures ParseOptions(VariantTokens(keys, m) + t, d) == ParseOptions(t, d.(spec := d.spec.(variants := m)))
    decreases |keys|
  {
    if keys == [] {
      VariantsDone(m, d);
      assert VariantTokens(keys, m) + t == t;
    } else {
      var k := keys[0];
      var more := VariantTokens(keys[1..], m) + t;
      var ts := [if m[k] then On else Off, Id(k)] + more;
      assert VariantTokens(keys, m) + t == ts;
      assert ts[2..] == more;
      var d' := d.(spec := d.spec.(variants := d.spec.variants[k := m[k]]));
      VariantsToGoTail(keys, m, d);
      OptionsVariantStep(ts, d);
      OptionsVariants(keys[1..], m, t, d');
      assert d'.(spec := d'.spec.(variants := m)) == d.(spec := d.spec.(variants := m));
    }
  }

  lemma OptionsArchitecture(a: Option<string>, t: seq<Token>, d: Draft)
    requires WfDraft(d) && d.spec.architecture.None? && Follows(t)
    ensures ParseOptions(ArchitectureTokens(a) + t, d) == ParseOptions(t, d.(spec := d.spec.(architecture := a)))
  {
    if a.Some? {
      var ts := [Eq, Id(a.value)] + t;
      assert ArchitectureTokens(a) + t == ts;
      assert ts[2..] == t;
      OptionsArchitectureStep(ts, d);
    } else {
      assert ArchitectureTokens(a) + t == t;
      assert d.(spec := d.spec.(architecture := a)) == d;
    }
  }

  lemma FollowsPrefix(p: seq<Token>, t: seq<Token>)
    requires (p == [] || p[0] in {Pct, On, Off, Eq, Dep}) && Follows(t)
    ensures Follows(p + t)
  {
    if p == [] {
      assert p + t == t;
    }
  }

  /** The names of a map in order list each missing name once. */
  lemma SortedVariantsToGo(m: map<string, bool>, d: Draft)
    requires d.spec.variants == map[]
    ensures VariantsToGo(SortedKeys(m.Keys), m, d)
  {
    var keys := SortedKeys(m.Keys);
    forall i, j | 0 <= i < j < |keys| ensures keys[i] != keys[j] {
      StrLessIrreflexive(keys[i]);
    }
  }

  /** The options of a node, nested to the right as the parser meets them. */
  function OptionTokens(s: Spec, t: seq<Token>): seq<Token>
    requires WfTree(s)
  {
    VersionTokens(s.versions)
      + (CompilerTokens(s.compiler)
      + (VariantTokens(SortedKeys(s.variants.Keys), s.variants)
      + (ArchitectureTokens(s.architecture) + t)))
  }

  lemma NodeTokensShape(s: Spec, t: seq<Token>)
    requires WfTree(s)
    ensures NodeTokens(s) + t == [Id(s.name)] + OptionTokens(s, t)
  {
  }

  /** The draft the parser holds after the options of `s`: no versions yet when none were written. */
  function Unfinished(s: Spec): Draft
  {
    if s.versions == [AnyRange] then Draft(s.(versions := []), false) else Draft(s, true)
  }

  /** The variants and the architecture of a node parse back onto a draft that has neither. */
  lemma OptionsRear(s: Spec, t: seq<Token>, d: Draft)
    requires WfDraft(d) && d.spec.variants == map[] && d.spec.architecture.None?
    requires t == [] || t[0] == Dep
    ensures ParseOptions(VariantTokens(SortedKeys(s.variants.Keys), s.variants) + (ArchitectureTokens(s.architecture) + t), d)
         == Success(Parsed(d.(spec := d.spec.(variants := s.variants, architecture := s.architecture)), t))
  {
    var keys := SortedKeys(s.variants.Keys);
    var A := ArchitectureTokens(s.architecture) + t;
    FollowsPrefix(ArchitectureTokens(s.architecture), t);
    SortedVariantsToGo(s.variants, d);
    OptionsVariants(keys, s.variants, A, d);
    var d3 := d.(spec := d.spec.(variants := s.variants));
    OptionsArchitecture(s.architecture, t, d3);
    var d4 := d3.(spec := d3.spec.(architecture := s.architecture));
    OptionsEnd(t, d4);
    assert d4 == d.(spec := d.spec.(variants := s.variants, architecture := s.architecture));
  }

  /** The draft once a node's versions and compiler are read. */
  function FrontDraft(s: Spec): Draft
  {
    Draft(Spec(s.name, if s.versions == [AnyRange] then [] else s.versions, s.compiler, map[], None, map[]),
          s.versions != [AnyRange])
  }

  /** The versions and the compiler of a node parse back onto a fresh draft. */
  lemma OptionsFront(s: Spec, f: seq<Token>)
    requires WfTree(s) && Follows(f)
    ensures ParseOptions(VersionTokens(s.versions) + (CompilerTokens(s.compiler) + f),
                         Draft(Spec(s.name, [], None, map[], None, map[]), false))
         == ParseOptions(f, FrontDraft(s))
  {
    FollowsPrefix(CompilerTokens(s.compiler), f);
    var d0 := Draft(Spec(s.name, [], None, map[], None, map[]), false);
    var d1 := if s.versions == [AnyRange] then d0 else Draft(d0.spec.(versions := s.versions), true);
    OptionsVersions(s.versions, CompilerTokens(s.compiler) + f, d0);
    OptionsCompiler(s.compiler, f, d1);
    assert d1.(spec := d1.spec.(compiler := s.compiler)) == FrontDraft(s);
  }

  /** The options of a node parse back to the node's own fields. */
  lemma OptionsBack(s: Spec, t: seq<Token>)
    requires WfTree(s) && s.dependencies == map[]
    requires t == [] || t[0] == Dep
    ensures ParseOptions(OptionTokens(s, t), Draft(Spec(s.name, [], None, map[], None, map[]), false))
         == Success(Parsed(Unfinished(s), t))
  {
    var keys := SortedKeys(s.variants.Keys);
    var a := ArchitectureTokens(s.architecture) + t;
    FollowsPrefix(ArchitectureTokens(s.architecture), t);
    FollowsPrefix(VariantTokens(keys, s.variants), a);
    OptionsFront(s, VariantTokens(keys, s.variants) + a);
    var d := FrontDraft(s);
    OptionsRear(s, t, d);
    assert d.(spec := d.spec.(variants := s.variants, architecture := s.architecture)) == Unfinished(s);
  }

  /** A node's tokens parse back to the node, whatever dependency follows. */
  lemma NodeBack(s: Spec, t: seq<Token>)
    requires WfTree(s) && s.dependencies == map[]
    requires t == [] || t[0] == Dep
    ensures ParseNode(NodeTokens(s) + t) == Success(Parsed(s, t))
  {
    var ts := NodeTokens(s) + t;
    NodeTokensShape(s, t);
    assert ts[1..] == OptionTokens(s, t);
    OptionsBack(s, t);
    NodeStep(ts, Parsed(Unfinished(s), t));
  }

  /**
   * `keys` lists, once each, exactly the dependencies of `deps` the spec
   * still lacks, and the spec agrees with `deps` on the others.
   */
  predicate DependenciesToGo(keys: seq<string>, deps: map<string, Spec>, x: Spec)
  {
    && (forall i, j :: 0 <= i < j < |keys| ==> keys[i] != keys[j])
    && (forall i :: 0 <= i < |keys| ==> keys[i] in deps)
    && (forall k :: k in deps ==> (k in x.dependencies <==> k !in keys))
    && (forall k :: k in x.dependencies ==> k in deps && x.dependencies[k] == deps[k])
  }

  /** Dependencies that `Flat` admits: leaves filed under their own names. */
  predicate LeafDependencies(deps: map<string, Spec>)
  {
    forall k :: k in deps ==> deps[k].name == k && WfTree(deps[k]) && deps[k].dependencies == map[]
  }

  lemma DependenciesToGoTail(keys: seq<string>, deps: map<string, Spec>, x: Spec)
    requires keys != [] && DependenciesToGo(keys, deps, x)
    ensures keys[0] !in x.dependencies
    ensures DependenciesToGo(keys[1..], deps, x.(dependencies := x.dependencies[keys[0] := deps[keys[0]]]))
  {
    forall j | 0 <= j < |keys[1..]| ensures keys[1..][j] != keys[0] && keys[1..][j] == keys[j + 1] {
      assert keys[1..][j] == keys[j + 1];
    }
  }

  lemma FlatAdd(x: Spec, dep: Spec)
    requires Flat(x) && WfTree(dep) && dep.dependencies == map[]
    ensures Flat(x.(dependencies := x.dependencies[dep.name := dep]))
  {
  }

  /** `^` and the node of a new dependency parse back and file it under its name. */
  lemma ParseDependency(x: Spec, dep: Spec, more: seq<Token>)
    requires Flat(x) && WfTree(dep) && dep.dependencies == map[] && dep.name !in x.dependencies
    requires more == [] || more[0] == Dep
    ensures ParseSpecs([Dep] + (NodeTokens(dep) + more), [x]) == ParseSpecs(more, Attach([x], dep))
  {
    var ts := [Dep] + (NodeTokens(dep) + more);
    assert ts[1..] == NodeTokens(dep) + more && ts[1] == Id(dep.name);
    NodeBack(dep, more);
    SpecsDependencyStep(ts, [x], Parsed(dep, more));
  }

  lemma DependencyTokensFirst(keys: seq<string>, deps: map<string, Spec>)
    requires keys != [] && forall i :: 0 <= i < |keys| ==> keys[i] in deps && WfTree(deps[keys[i]])
    ensures DependencyTokens(keys, deps) == [Dep] + (NodeTokens(deps[keys[0]]) + DependencyTokens(keys[1..], deps))
  {
  }

  /** The tokens of one more dependency parse back and file it under its name. */
  lemma DependencyBack(keys: seq<string>, deps: map<string, Spec>, x: Spec)
    requires keys != [] && (forall i :: 0 <= i < |keys| ==> keys[i] in deps) && keys[0] !in x.dependencies
    requires Flat(x) && LeafDependencies(deps)
    requires Flat(x.(dependencies := x.dependencies[keys[0] := deps[keys[0]]]))
    ensures ParseSpecs(DependencyTokens(keys, deps), [x])
         == ParseSpecs(DependencyTokens(keys[1..], deps), [x.(dependencies := x.dependencies[keys[0] := deps[keys[0]]])])
  {
    var dep := deps[keys[0]];
    var more := DependencyTokens(keys[1..], deps);
    DependencyTokensFirst(keys, deps);
    ParseDependency(x, dep, more);
    assert Attach([x], dep) == [x.(dependencies := x.dependencies[keys[0] := dep])];
  }

  lemma {:induction false} DependenciesBack(keys: seq<string>, deps: map<string, Spec>, x: Spec)
    requires Flat(x) && LeafDependencies(deps) && DependenciesToGo(keys, deps, x)
    ensures ParseSpecs(DependencyTokens(keys, deps), [x]) == Success([x.(dependencies := deps)])
    decreases |keys|
  {
    if keys == [] {
      assert x.dependencies == deps;
      assert x.(dependencies := deps) == x;
    } else {
      var x' := x.(dependencies := x.dependencies[keys[0] := deps[keys[0]]]);
      DependenciesToGoTail(keys, deps, x);
      FlatAdd(x, deps[keys[0]]);
      DependencyBack(keys, deps, x);
      DependenciesBack(keys[1..], deps, x');
      assert x'.(dependencies := deps) == x.(dependencies := deps);
    }
  }

  /**
   * Parsing the canonical text of a printable spec gives back that spec:
   * the parser inverts the renderer.
   */
  lemma RenderRoundTrip(s: Spec)
    requires Printable(s)
    ensures Parse(Render(s)) == Success([s])
  {
    LexRender(s);
    var keys := SortedKeys(s.dependencies.Keys);
    var deps := DependencyTokens(keys, s.dependencies);
    var s0 := s.(dependencies := map[]);
    assert NodeTokens(s0) == NodeTokens(s);
    NodeBack(s0, deps);
    assert SpecTokens(s) == NodeTokens(s0) + deps;
    SpecsNodeStep(SpecTokens(s), [], Parsed(s0, deps));
    assert [] + [s0] == [s0];
    forall i, j | 0 <= i < j < |keys| ensures keys[i] != keys[j] {
      StrLessIrreflexive(keys[i]);
    }
    DependenciesBack(keys, s.dependencies, s0);
    assert s0.(dependencies := s.dependencies) == s;
  }

  /**
   * A canonical text parses to one spec whose canonical text is the text
   * itself: rendering what was parsed reproduces the input exactly.
   */
  lemma CanonicalTextRoundTrip(s: Spec, text: string)
    requires Printable(s) && text == Render(s)
    ensures Parse(text).Success? && |Parse(text).value| == 1
    ensures WfTree(Parse(text).value[0]) && Render(Parse(text).value[0]) == text
  {
    RenderRoundTrip(s);
  }
}
