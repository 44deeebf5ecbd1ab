/**
 * Why the rendered text is canonical: the parser builds the same spec
 * whatever order the version alternatives, the variants and the
 * dependencies are written in, and an unbounded `@:` adds nothing, so the
 * renderer, which writes each part in its own fixed order, gives one text
 * for all of these inputs.
 */
module Canonical {
  import opened Wrappers
  import opened Strings
  import opened Versions
  import opened VersionLists
  import opened SpecLexer
  import opened Specs
  import opened SpecParser
  import opened SpecRender

  /** No two of the ranges share a version. */
  predicate PairwiseDisjoint(rs: seq<Range>)
  {
    forall i, j :: 0 <= i < |rs| && 0 <= j < |rs| && i != j ==> !Overlaps(rs[i], rs[j])
  }

  /** No range of `l` shares a version with a range of `rs`. */
  predicate Apart(l: seq<Range>, rs: seq<Range>)
  {
    forall i, j :: 0 <= i < |l| && 0 <= j < |rs| ==> !Overlaps(l[i], rs[j])
  }

  lemma DisjointTail(rs: seq<Range>)
    requires rs != [] && PairwiseDisjoint(rs)
    ensures PairwiseDisjoint(rs[1..])
  {
    forall i, j | 0 <= i < |rs| - 1 && 0 <= j < |rs| - 1 && i != j ensures !Overlaps(rs[1..][i], rs[1..][j]) {
      assert rs[1..][i] == rs[i + 1] && rs[1..][j] == rs[j + 1];
    }
  }

  /** The members of `Add(l, r)`, when `r` overlaps no range of `l`. */
  lemma AddApartMembers(l: seq<Range>, r: Range)
    requires Normalized(l) && NonEmpty(r) && Apart(l, [r])
    ensures forall z :: z in Add(l, r) <==> z in l || z == r
  {
    forall i | 0 <= i < |l| ensures !Overlaps(l[i], r) {
      assert [r][0] == r;
    }
  }

  /** A range that shares no version with any of `rs[1..]`. */
  lemma ApartFromTail(z: Range, l: seq<Range>, rs: seq<Range>)
    requires rs != [] && PairwiseDisjoint(rs) && Apart(l, rs)
    requires z == rs[0] || z in l
    ensures forall j :: 0 <= j < |rs| - 1 ==> !Overlaps(z, rs[1..][j])
  {
    forall j | 0 <= j < |rs| - 1 ensures !Overlaps(z, rs[1..][j]) {
      assert rs[1..][j] == rs[j + 1];
      if z == rs[0] {
        assert 0 != j + 1;
      } else {
        var k :| 0 <= k < |l| && l[k] == z;
      }
    }
  }

  /** Adding the first alternative keeps the rest apart from the list. */
  lemma AddFirstKeepsApart(l: seq<Range>, rs: seq<Range>)
    requires Normalized(l) && rs != [] && NonEmpty(rs[0])
    requires PairwiseDisjoint(rs) && Apart(l, rs)
    ensures Apart(Add(l, rs[0]), rs[1..])
  {
    var l' := Add(l, rs[0]);
    assert Apart(l, [rs[0]]) by {
      forall i, j | 0 <= i < |l| && 0 <= j < 1 ensures !Overlaps(l[i], [rs[0]][j]) {
        assert [rs[0]][j] == rs[0];
      }
    }
    AddApartMembers(l, rs[0]);
    forall i | 0 <= i < |l'| ensures forall j :: 0 <= j < |rs| - 1 ==> !Overlaps(l'[i], rs[1..][j]) {
      ApartFromTail(l'[i], l, rs);
    }
  }

  /**
   * Adding alternatives that share no version with each other or with the
   * list keeps each of them as it is, next to the list's own ranges.
   */
  lemma {:induction false} AddAllKeepsDisjoint(l: seq<Range>, rs: seq<Range>)
    requires Normalized(l) && (forall i :: 0 <= i < |rs| ==> NonEmpty(rs[i])) && PairwiseDisjoint(rs)
    requires Apart(l, rs)
    ensures forall z :: z in AddAll(l, rs) <==> z in l || z in rs
    decreases |rs|
  {
    if rs != [] {
      AddFirstKeepsApart(l, rs);
      DisjointTail(rs);
      var l' := Add(l, rs[0]);
      AddAllKeepsDisjoint(l', rs[1..]);
      assert rs == [rs[0]] + rs[1..];
    }
  }

  /**
   * Version alternatives that share no version parse to the same list in
   * any order: `@1.6,1.2:1.4` and `@1.2:1.4,1.6` give one spec.
   */
  lemma VersionOrderIrrelevant(rs: seq<Range>, qs: seq<Range>)
    requires forall i :: 0 <= i < |rs| ==> NonEmpty(rs[i])
    requires forall i :: 0 <= i < |qs| ==> NonEmpty(qs[i])
    requires PairwiseDisjoint(rs) && PairwiseDisjoint(qs)
    requires forall z :: z in rs <==> z in qs
    ensures AddAll([], rs) == AddAll([], qs)
  {
    AddAllKeepsDisjoint([], rs);
    AddAllKeepsDisjoint([], qs);
    NormalizedUnique(AddAll([], rs), AddAll([], qs));
  }

  /** Updates of two different keys commute. */
  lemma UpdatesCommute<K, V>(m: map<K, V>, j: K, u: V, k: K, w: V)
    requires j != k
    ensures m[j := u][k := w] == m[k := w][j := u]
  {
  }

  /** Two variants of different names may come in either order. */
  lemma VariantOrderIrrelevant(s1: Token, a: string, s2: Token, b: string, t: seq<Token>, d: Draft)
    requires WfDraft(d) && s1 in {On, Off} && s2 in {On, Off}
    requires a != b && a !in d.spec.variants && b !in d.spec.variants
    ensures ParseOptions([s1, Id(a), s2, Id(b)] + t, d) == ParseOptions([s2, Id(b), s1, Id(a)] + t, d)
  {
    var ab := [s1, Id(a), s2, Id(b)] + t;
    var ba := [s2, Id(b), s1, Id(a)] + t;
    var da := d.(spec := d.spec.(variants := d.spec.variants[a := s1 == On]));
    var db := d.(spec := d.spec.(variants := d.spec.variants[b := s2 == On]));
    OptionsVariantStep(ab, d);
    assert ab[2..] == [s2, Id(b)] + t && ab[2..][2..] == t;
    OptionsVariantStep(ab[2..], da);
    OptionsVariantStep(ba, d);
    assert ba[2..] == [s1, Id(a)] + t && ba[2..][2..] == t;
    OptionsVariantStep(ba[2..], db);
    UpdatesCommute(d.spec.variants, a, s1 == On, b, s2 == On);
  }

  /** Two new dependencies one after the other are both filed under their names. */
  lemma TwoDependencies(x: Spec, a: Spec, b: Spec, t: seq<Token>)
    requires Flat(x) && WfTree(a) && WfTree(b) && a.dependencies == map[] && b.dependencies == map[]
    requires a.name != b.name && a.name !in x.dependencies && b.name !in x.dependencies
    requires t == [] || t[0] == Dep
    ensures ParseSpecs([Dep] + (NodeTokens(a) + ([Dep] + (NodeTokens(b) + t))), [x])
         == ParseSpecs(t, [x.(dependencies := x.dependencies[a.name := a][b.name := b])])
  {
    var xa := x.(dependencies := x.dependencies[a.name := a]);
    assert Attach([x], a) == [xa];
    FlatAdd(x, a);
    ParseDependency(x, a, [Dep] + (NodeTokens(b) + t));
    ParseDependency(xa, b, t);
    assert Attach([xa], b) == [x.(dependencies := x.dependencies[a.name := a][b.name := b])];
  }

  /** Two dependencies of different names may come in either order. */
  lemma DependencyOrderIrrelevant(x: Spec, a: Spec, b: Spec, t: seq<Token>)
    requires Flat(x) && WfTree(a) && WfTree(b) && a.dependencies == map[] && b.dependencies == map[]
    requires a.name != b.name && a.name !in x.dependencies && b.name !in x.dependencies
    requires t == [] || t[0] == Dep
    ensures ParseSpecs([Dep] + (NodeTokens(a) + ([Dep] + (NodeTokens(b) + t))), [x])
         == ParseSpecs([Dep] + (NodeTokens(b) + ([Dep] + (NodeTokens(a) + t))), [x])
  {
    TwoDependencies(x, a, b, t);
    TwoDependencies(x, b, a, t);
    UpdatesCommute(x.dependencies, a.name, a, b.name, b);
  }

  /** `@:` admits every version, so a node written with it is the node written without it. */
  lemma UnboundedIsNothing(x: string, t: seq<Token>)
    requires t == [] || t[0] == Dep
    ensures ParseNode([Id(x), At, Colon] + t) == ParseNode([Id(x)] + t)
  {
    var ts := [Id(x), At, Colon] + t;
    assert ts[1..] == [At, Colon] + t && ts[1..][1..] == [Colon] + t && ts[1..][1..][1..] == t;
    var d := Draft(Spec(x, [], None, map[], None, map[]), false);
    assert ParseVersion([Colon] + t) == Success(Parsed(AnyRange, t));
    VersionListStep([Colon] + t, Parsed(AnyRange, t));
    OptionsVersionStep(ts[1..], d, Parsed([AnyRange], t));
    CollectNormalized([AnyRange]);
    var d' := Draft(d.spec.(versions := [AnyRange]), true);
    OptionsEnd(t, d');
    OptionsEnd(t, d);
    NodeStep(ts, Parsed(d', t));
    NodeStep([Id(x)] + t, Parsed(d, t));
    assert ([Id(x)] + t)[1..] == t;
  }

  /** `x@: ^y@:` parses to `x` depending on `y`. */
  lemma UnboundedParsesBare(x: string, y: string)
    ensures ParseSpecs([Id(x), At, Colon, Dep, Id(y), At, Colon], [])
         == Success([Bare(x).(dependencies := map[y := Bare(y)])])
  {
    var ts := [Id(x), At, Colon, Dep, Id(y), At, Colon];
    var rest := [Dep, Id(y), At, Colon];
    assert ts == [Id(x), At, Colon] + rest;
    UnboundedIsNothing(x, rest);
    NodeBare(x, rest);
    SpecsNodeStep(ts, [], Parsed(Bare(x), rest));
    assert rest[1..] == [Id(y), At, Colon] + [];
    UnboundedIsNothing(y, []);
    NodeBare(y, []);
    assert [Id(y)] + [] == [Id(y)];
    var s := Bare(x).(dependencies := map[y := Bare(y)]);
    assert Attach([Bare(x)], Bare(y)) == [s];
    SpecsDependencyStep(rest, [Bare(x)], Parsed(Bare(y), []));
  }

  /** ... and that spec renders as `x^y`, without any `@`. */
  lemma BareRendersPlain(x: string, y: string)
    ensures SpecTokens(Bare(x).(dependencies := map[y := Bare(y)])) == [Id(x), Dep, Id(y)]
  {
    var s := Bare(x).(dependencies := map[y := Bare(y)]);
    assert s.dependencies.Keys == {y};
    assert SortedKeys({y}) == [y];
    assert SortedKeys(Bare(y).dependencies.Keys) == [];
    assert NodeTokens(Bare(y)) == [Id(y)];
    assert NodeTokens(s) == [Id(x)];
    assert DependencyTokens([y], s.dependencies) == [Dep, Id(y)];
  }
}
