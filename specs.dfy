/**
 * Specs: a package name with constraints on its version, compiler, build
 * variants and architecture, and the specs of its dependencies keyed by
 * name. `Satisfies` says whether two specs are compatible and
 * `ConstrainSpec` merges one spec into another, failing when they are not.
 */
module Specs {
  import opened Wrappers
  import opened Strings
  import opened Versions
  import opened VersionLists

  datatype CompilerSpec = CompilerSpec(name: string, versions: seq<Range>)

  datatype Spec = Spec(
    name: string,
    versions: seq<Range>,
    compiler: Option<CompilerSpec>,
    variants: map<string, bool>,
    architecture: Option<string>,
    dependencies: map<string, Spec>)

  /** A spec that names a package and constrains nothing else. */
  function Bare(name: string): (s: Spec)
    ensures s.name == name && s.versions == [AnyRange]
  {
    Spec(name, [AnyRange], None, map[], None, map[])
  }

  predicate WfCompiler(c: Option<CompilerSpec>)
  {
    c.Some? ==> ValidList(c.value.versions)
  }

  /** Version lists are normalized and non-empty, and each dependency is filed under its own name. */
  predicate WfTree(s: Spec)
    decreases s
  {
    && ValidList(s.versions)
    && WfCompiler(s.compiler)
    && forall k :: k in s.dependencies ==> s.dependencies[k].name == k && WfTree(s.dependencies[k])
  }

  // ---------------------------------------------------------------------
  // Satisfaction
  // ---------------------------------------------------------------------

  predicate CompilersCompatible(a: Option<CompilerSpec>, b: Option<CompilerSpec>)
  {
    a.Some? && b.Some? ==> a.value.name == b.value.name && ListsOverlap(a.value.versions, b.value.versions)
  }

  predicate VariantsAgree(a: map<string, bool>, b: map<string, bool>)
  {
    forall k :: k in a && k in b ==> a[k] == b[k]
  }

  predicate ArchitecturesAgree(a: Option<string>, b: Option<string>)
  {
    a.Some? && b.Some? ==> a.value == b.value
  }

  /**
   * `a` satisfies `b` when nothing they both constrain disagrees: same
   * name, overlapping versions, compatible compilers, equal values of the
   * variants and architecture both set, and dependencies of the same name
   * satisfying each other.
   */
  predicate Satisfies(a: Spec, b: Spec)
    decreases a
  {
    && a.name == b.name
    && ListsOverlap(a.versions, b.versions)
    && CompilersCompatible(a.compiler, b.compiler)
    && VariantsAgree(a.variants, b.variants)
    && ArchitecturesAgree(a.architecture, b.architecture)
    && forall k :: k in a.dependencies && k in b.dependencies ==> Satisfies(a.dependencies[k], b.dependencies[k])
  }

  // ---------------------------------------------------------------------
  // Constraining
  // ---------------------------------------------------------------------

  datatype ConstrainError =
    | UnsatisfiableName(name: string, otherName: string)
    | UnsatisfiableVersions(versions: seq<Range>, otherVersions: seq<Range>)
    | UnsatisfiableCompiler(compiler: CompilerSpec, otherCompiler: CompilerSpec)
    | UnsatisfiableVariant(variant: string)
    | UnsatisfiableArchitecture(architecture: string, otherArchitecture: string)
    | UnsatisfiableDependency(dependency: string, cause: ConstrainError)

  /** Merges two compiler constraints: an absent one adopts the other, two present ones must agree. */
  function ConstrainCompiler(a: Option<CompilerSpec>, b: Option<CompilerSpec>): (r: Result<Option<CompilerSpec>, ConstrainError>)
    ensures r.Success? <==> CompilersCompatible(a, b)
  {
    if a.None? then Success(b)
    else if b.None? then Success(a)
    else
      var vs := Intersect(a.value.versions, b.value.versions);
      IntersectEmptyIffDisjoint(a.value.versions, b.value.versions);
      if a.value.name != b.value.name || vs == [] then Failure(UnsatisfiableCompiler(a.value, b.value))
      else Success(Some(CompilerSpec(a.value.name, vs)))
  }

  /** The variants the two maps set in opposite ways: none exactly when the maps agree. */
  function VariantConflicts(a: map<string, bool>, b: map<string, bool>): (r: set<string>)
    ensures forall k :: k in r <==> k in a && k in b && a[k] != b[k]
    ensures r == {} <==> VariantsAgree(a, b)
  {
    var r := set k | k in a && k in b && a[k] != b[k];
    if !VariantsAgree(a, b) then
      var k :| k in a && k in b && a[k] != b[k];
      assert k in r;
      r
    else r
  }

  /** The dependencies named by both specs that cannot be constrained by each other. */
  function DependencyConflicts(a: Spec, b: Spec): (r: set<string>)
    ensures forall k :: k in r <==>
      k in a.dependencies && k in b.dependencies && ConstrainSpec(a.dependencies[k], b.dependencies[k]).Failure?
    decreases a, 0
  {
    set k | k in a.dependencies && k in b.dependencies && ConstrainSpec(a.dependencies[k], b.dependencies[k]).Failure?
  }

  /** The dependencies of both specs, those named by both merged recursively. */
  function MergeDependencies(a: Spec, b: Spec): map<string, Spec>
    requires DependencyConflicts(a, b) == {}
    decreases a, 1
  {
    map k | k in a.dependencies.Keys + b.dependencies.Keys ::
      if k in a.dependencies && k in b.dependencies then
        assert k !in DependencyConflicts(a, b);
        ConstrainSpec(a.dependencies[k], b.dependencies[k]).value
      else if k in a.dependencies then a.dependencies[k]
      else b.dependencies[k]
  }

  /**
   * Constrains `a` by `b`. Names must match, the version lists and
   * compiler constraints must intersect, no variant may be set both ways,
   * architectures set on both sides must be equal, and dependencies named
   * by both must constrain each other; the first violation in this order is
   * the error (the least offending name for variants and dependencies).
   * The result takes the intersections, the variants of both, the
   * architecture of either and the dependencies of both.
   */
  function ConstrainSpec(a: Spec, b: Spec): (r: Result<Spec, ConstrainError>)
    ensures r.Success? ==> r.value.name == a.name
    decreases a, 2
  {
    if a.name != b.name then Failure(UnsatisfiableName(a.name, b.name))
    else
      var versions := Intersect(a.versions, b.versions);
      if versions == [] then Failure(UnsatisfiableVersions(a.versions, b.versions))
      else
        var compiler :- ConstrainCompiler(a.compiler, b.compiler);
        var variantConflicts := VariantConflicts(a.variants, b.variants);
        if variantConflicts != {} then Failure(UnsatisfiableVariant(Least(variantConflicts)))
        else if !ArchitecturesAgree(a.architecture, b.architecture) then
          Failure(UnsatisfiableArchitecture(a.architecture.value, b.architecture.value))
        else
          var depConflicts := DependencyConflicts(a, b);
          if depConflicts != {} then
            var k := Least(depConflicts);
            Failure(UnsatisfiableDependency(k, ConstrainSpec(a.dependencies[k], b.dependencies[k]).error))
          else
            Success(Spec(a.name, versions, compiler, a.variants + b.variants,
                         if a.architecture.Some? then a.architecture else b.architecture,
                         MergeDependencies(a, b)))
  }

  // ---------------------------------------------------------------------
  // Properties of satisfaction and constraining
  // ---------------------------------------------------------------------

  /** Compatibility does not depend on which spec is asked. */
  lemma {:induction false} SatisfiesSymmetric(a: Spec, b: Spec)
    ensures Satisfies(a, b) <==> Satisfies(b, a)
    decreases a
  {
    ListsOverlapSymmetric(a.versions, b.versions);
    if a.compiler.Some? && b.compiler.Some? {
      ListsOverlapSymmetric(a.compiler.value.versions, b.compiler.value.versions);
    }
    forall k | k in a.dependencies && k in b.dependencies
      ensures Satisfies(a.dependencies[k], b.dependencies[k]) <==> Satisfies(b.dependencies[k], a.dependencies[k])
    {
      SatisfiesSymmetric(a.dependencies[k], b.dependencies[k]);
    }
  }

  lemma ValidListOverlapsItself(l: seq<Range>)
    requires ValidList(l)
    ensures ListsOverlap(l, l)
  {
    MeetIdempotent(l[0]);
    assert Overlaps(l[0], l[0]);
  }

  /** Every well-formed spec satisfies itself. */
  lemma {:induction false} SatisfiesReflexive(a: Spec)
    requires WfTree(a)
    ensures Satisfies(a, a)
    decreases a
  {
    ValidListOverlapsItself(a.versions);
    if a.compiler.Some? {
      ValidListOverlapsItself(a.compiler.value.versions);
    }
    forall k | k in a.dependencies ensures Satisfies(a.dependencies[k], a.dependencies[k]) {
      SatisfiesReflexive(a.dependencies[k]);
    }
  }

  lemma NoDependencyConflicts(a: Spec, b: Spec)
    ensures DependencyConflicts(a, b) == {} <==>
      forall k :: k in a.dependencies && k in b.dependencies ==> ConstrainSpec(a.dependencies[k], b.dependencies[k]).Success?
  {
    var r := DependencyConflicts(a, b);
    if r != {} {
      var k :| k in r;
      assert ConstrainSpec(a.dependencies[k], b.dependencies[k]).Failure?;
    } else {
      forall k | k in a.dependencies && k in b.dependencies
        ensures ConstrainSpec(a.dependencies[k], b.dependencies[k]).Success?
      {
        assert k !in r;
      }
    }
  }

  /** Constraining succeeds exactly when the two specs satisfy each other. */
  lemma {:induction false} ConstrainSucceedsIffSatisfies(a: Spec, b: Spec)
    ensures ConstrainSpec(a, b).Success? <==> Satisfies(a, b)
    decreases a
  {
    IntersectEmptyIffDisjoint(a.versions, b.versions);
    NoDependencyConflicts(a, b);
    forall k | k in a.dependencies && k in b.dependencies
      ensures ConstrainSpec(a.dependencies[k], b.dependencies[k]).Success? <==> Satisfies(a.dependencies[k], b.dependencies[k])
    {
      ConstrainSucceedsIffSatisfies(a.dependencies[k], b.dependencies[k]);
    }
  }

  /** No dependency conflict exactly when the dependencies both specs name satisfy each other. */
  lemma DependencyConflictsIffUnsatisfied(a: Spec, b: Spec)
    ensures DependencyConflicts(a, b) == {} <==>
      forall k :: k in a.dependencies && k in b.dependencies ==> Satisfies(a.dependencies[k], b.dependencies[k])
  {
    NoDependencyConflicts(a, b);
    forall k | k in a.dependencies && k in b.dependencies
      ensures ConstrainSpec(a.dependencies[k], b.dependencies[k]).Success? <==> Satisfies(a.dependencies[k], b.dependencies[k])
    {
      ConstrainSucceedsIffSatisfies(a.dependencies[k], b.dependencies[k]);
    }
  }


  /** Every version `c` admits, `a` admits. */
  ghost predicate VersionsWithin(c: seq<Range>, a: seq<Range>)
  {
    forall v :: Contains(c, v) ==> Contains(a, v)
  }

  ghost predicate CompilerRefines(c: Option<CompilerSpec>, a: Option<CompilerSpec>)
  {
    a.Some? ==> c.Some? && c.value.name == a.value.name && VersionsWithin(c.value.versions, a.value.versions)
  }

  /**
   * `c` is at least as constrained as `a`: every build `c` admits, `a`
   * admits. Same name, fewer versions, the compiler, variants and
   * architecture `a` sets are set the same way, and every dependency of `a`
   * is a dependency of `c` refining it.
   */
  ghost predicate Refines(c: Spec, a: Spec)
    decreases c
  {
    && c.name == a.name
    && VersionsWithin(c.versions, a.versions)
    && CompilerRefines(c.compiler, a.compiler)
    && (forall k :: k in a.variants ==> k in c.variants && c.variants[k] == a.variants[k])
    && (a.architecture.Some? ==> c.architecture == a.architecture)
    && forall k :: k in a.dependencies ==> k in c.dependencies && Refines(c.dependencies[k], a.dependencies[k])
  }

  lemma {:induction false} RefinesReflexive(a: Spec)
    ensures Refines(a, a)
    decreases a
  {
    forall k | k in a.dependencies ensures Refines(a.dependencies[k], a.dependencies[k]) {
      RefinesReflexive(a.dependencies[k]);
    }
  }

  /** The result of a successful constrain refines both of its inputs. */
  lemma {:induction false} ConstrainRefinesBoth(a: Spec, b: Spec)
    requires ConstrainSpec(a, b).Success?
    ensures Refines(ConstrainSpec(a, b).value, a) && Refines(ConstrainSpec(a, b).value, b)
    decreases a
  {
    var c := ConstrainSpec(a, b).value;
    NoDependencyConflicts(a, b);
    if a.compiler.Some? && b.compiler.Some? {
      assert c.compiler.value.versions == Intersect(a.compiler.value.versions, b.compiler.value.versions);
    }
    forall k | k in a.dependencies ensures k in c.dependencies && Refines(c.dependencies[k], a.dependencies[k]) {
      if k in b.dependencies {
        ConstrainRefinesBoth(a.dependencies[k], b.dependencies[k]);
      } else {
        RefinesReflexive(a.dependencies[k]);
      }
    }
    forall k | k in b.dependencies ensures k in c.dependencies && Refines(c.dependencies[k], b.dependencies[k]) {
      if k in a.dependencies {
        ConstrainRefinesBoth(a.dependencies[k], b.dependencies[k]);
      } else {
        RefinesReflexive(b.dependencies[k]);
      }
    }
  }

  lemma ValidListHasVersion(l: seq<Range>) returns (v: Version)
    requires ValidList(l)
    ensures Contains(l, v)
  {
    v := NonEmptyHasVersion(l[0]);
  }

  /** Two specs that a well-formed spec refines satisfy each other. */
  lemma {:induction false} CommonRefinementSatisfies(a: Spec, b: Spec, d: Spec)
    requires WfTree(d) && Refines(d, a) && Refines(d, b)
    ensures Satisfies(a, b)
    decreases a
  {
    var v := ValidListHasVersion(d.versions);
    ListsOverlapIffCommonVersion(a.versions, b.versions);
    if a.compiler.Some? && b.compiler.Some? {
      var w := ValidListHasVersion(d.compiler.value.versions);
      ListsOverlapIffCommonVersion(a.compiler.value.versions, b.compiler.value.versions);
    }
    forall k | k in a.dependencies && k in b.dependencies ensures Satisfies(a.dependencies[k], b.dependencies[k]) {
      CommonRefinementSatisfies(a.dependencies[k], b.dependencies[k], d.dependencies[k]);
    }
  }

  /**
   * A well-formed spec refining both `a` and `b` makes constraining `a` by
   * `b` succeed and refines the result: the result is the greatest spec
   * below both.
   */
  lemma {:induction false} ConstrainGreatest(a: Spec, b: Spec, d: Spec)
    requires WfTree(d) && Refines(d, a) && Refines(d, b)
    ensures ConstrainSpec(a, b).Success? && Refines(d, ConstrainSpec(a, b).value)
    decreases a
  {
    CommonRefinementSatisfies(a, b, d);
    ConstrainSucceedsIffSatisfies(a, b);
    var c := ConstrainSpec(a, b).value;
    GreatestFields(a, b, d, c);
    ConstrainValue(a, b);
    forall k | k in c.dependencies ensures k in d.dependencies && Refines(d.dependencies[k], c.dependencies[k]) {
      MergeAt(a, b, k);
      if k in a.dependencies && k in b.dependencies {
        ConstrainGreatest(a.dependencies[k], b.dependencies[k], d.dependencies[k]);
      }
    }
  }

  /** A common refinement lies below a successful constrain in every field but the dependencies. */
  lemma GreatestFields(a: Spec, b: Spec, d: Spec, c: Spec)
    requires Refines(d, a) && Refines(d, b) && ConstrainSpec(a, b) == Success(c)
    ensures d.name == c.name && VersionsWithin(d.versions, c.versions) && CompilerRefines(d.compiler, c.compiler)
    ensures forall k :: k in c.variants ==> k in d.variants && d.variants[k] == c.variants[k]
    ensures c.architecture.Some? ==> d.architecture == c.architecture
  {
    ConstrainFields(a, b, c);
  }

  /** A well-formed spec satisfies every spec it refines. */
  lemma {:induction false} RefinesSatisfies(x: Spec, b: Spec)
    requires WfTree(x) && Refines(x, b)
    ensures Satisfies(x, b)
    decreases x
  {
    var v := ValidListHasVersion(x.versions);
    ListsOverlapIffCommonVersion(x.versions, b.versions);
    if x.compiler.Some? && b.compiler.Some? {
      var w := ValidListHasVersion(x.compiler.value.versions);
      ListsOverlapIffCommonVersion(x.compiler.value.versions, b.compiler.value.versions);
    }
    forall k | k in x.dependencies && k in b.dependencies ensures Satisfies(x.dependencies[k], b.dependencies[k]) {
      RefinesSatisfies(x.dependencies[k], b.dependencies[k]);
    }
  }

  /**
   * Every spec of a package refines the bare spec of that package, so a
   * `when` spec left out holds for every build of the package.
   */
  lemma RefinesBare(s: Spec, name: string)
    requires s.name == name
    ensures Refines(s, Bare(name))
  {
    forall v | Contains(s.versions, v) ensures Contains([AnyRange], v) {
      assert InRange([AnyRange][0], v);
    }
  }

  /** A well-formed spec of a package and the bare spec of that package satisfy each other. */
  lemma SatisfiesBare(s: Spec, name: string)
    requires WfTree(s) && s.name == name
    ensures Satisfies(s, Bare(name)) && Satisfies(Bare(name), s)
  {
    RefinesBare(s, name);
    RefinesSatisfies(s, Bare(name));
    SatisfiesSymmetric(s, Bare(name));
  }

  lemma {:induction false} RefinesTransitive(x: Spec, y: Spec, z: Spec)
    requires Refines(x, y) && Refines(y, z)
    ensures Refines(x, z)
    decreases x
  {
    forall k | k in z.dependencies ensures k in x.dependencies && Refines(x.dependencies[k], z.dependencies[k]) {
      RefinesTransitive(x.dependencies[k], y.dependencies[k], z.dependencies[k]);
    }
  }

  /** Constraining well-formed specs gives a well-formed spec. */
  lemma {:induction false} ConstrainWf(a: Spec, b: Spec)
    requires WfTree(a) && WfTree(b) && ConstrainSpec(a, b).Success?
    ensures WfTree(ConstrainSpec(a, b).value)
    decreases a
  {
    var c := ConstrainSpec(a, b).value;
    NoDependencyConflicts(a, b);
    assert c.dependencies == MergeDependencies(a, b);
    forall k | k in a.dependencies && k in b.dependencies ensures WfTree(c.dependencies[k]) {
      ConstrainWf(a.dependencies[k], b.dependencies[k]);
    }
  }

  lemma MapUnionCommutes(x: map<string, bool>, y: map<string, bool>)
    requires VariantsAgree(x, y)
    ensures x + y == y + x
  {
  }

  /** The fields of a successful constrain: the checks all passed and each field is merged. */
  lemma ConstrainValue(a: Spec, b: Spec)
    requires ConstrainSpec(a, b).Success?
    ensures a.name == b.name
    ensures CompilersCompatible(a.compiler, b.compiler) && VariantsAgree(a.variants, b.variants)
    ensures ArchitecturesAgree(a.architecture, b.architecture) && DependencyConflicts(a, b) == {}
    ensures ConstrainSpec(a, b).value ==
      Spec(a.name, Intersect(a.versions, b.versions), ConstrainCompiler(a.compiler, b.compiler).value,
           a.variants + b.variants, if a.architecture.Some? then a.architecture else b.architecture,
           MergeDependencies(a, b))
  {
  }

  /**
   * What each field of a successful constrain holds: exactly the versions
   * both sides admit, a compiler whenever either side names one, limited
   * to the versions of each side that names one, every variant either side
   * sets with that side's value, the architecture of whichever side sets
   * one, and the dependencies of both sides.
   */
  lemma ConstrainFields(a: Spec, b: Spec, r: Spec)
    requires ConstrainSpec(a, b) == Success(r)
    ensures r.name == a.name == b.name
    ensures forall v :: Contains(r.versions, v) <==> Contains(a.versions, v) && Contains(b.versions, v)
    ensures r.compiler.Some? <==> a.compiler.Some? || b.compiler.Some?
    ensures a.compiler.Some? ==> r.compiler.Some? && r.compiler.value.name == a.compiler.value.name
    ensures b.compiler.Some? ==> r.compiler.Some? && r.compiler.value.name == b.compiler.value.name
    ensures r.compiler.Some? ==> forall v :: Contains(r.compiler.value.versions, v) <==>
              (a.compiler.Some? ==> Contains(a.compiler.value.versions, v)) &&
              (b.compiler.Some? ==> Contains(b.compiler.value.versions, v))
    ensures forall k :: k in r.variants <==> k in a.variants || k in b.variants
    ensures forall k :: k in a.variants ==> r.variants[k] == a.variants[k]
    ensures forall k :: k in b.variants ==> r.variants[k] == b.variants[k]
    ensures a.architecture.Some? ==> r.architecture == a.architecture
    ensures b.architecture.Some? ==> r.architecture == b.architecture
    ensures r.architecture.Some? <==> a.architecture.Some? || b.architecture.Some?
    ensures forall k :: k in r.dependencies <==> k in a.dependencies || k in b.dependencies
  {
    ConstrainValue(a, b);
    forall k ensures k in r.dependencies <==> k in a.dependencies || k in b.dependencies {
      MergeAt(a, b, k);
    }
  }

  lemma CompilerSelf(c: Option<CompilerSpec>)
    requires WfCompiler(c)
    ensures ConstrainCompiler(c, c) == Success(c)
  {
    if c.Some? {
      IntersectSelf(c.value.versions);
    }
  }

  lemma {:induction false} MergeSelf(a: Spec)
    requires WfTree(a) && DependencyConflicts(a, a) == {}
    ensures MergeDependencies(a, a) == a.dependencies
    decreases a, 0
  {
    forall k | k in a.dependencies ensures MergeDependencies(a, a)[k] == a.dependencies[k] {
      ConstrainSelf(a.dependencies[k]);
    }
  }

  /** A well-formed spec constrained by itself is unchanged. */
  lemma {:induction false} ConstrainSelf(a: Spec)
    requires WfTree(a)
    ensures ConstrainSpec(a, a) == Success(a)
    decreases a, 1
  {
    SatisfiesReflexive(a);
    ConstrainSucceedsIffSatisfies(a, a);
    ConstrainValue(a, a);
    IntersectSelf(a.versions);
    CompilerSelf(a.compiler);
    MergeSelf(a);
    assert a.variants + a.variants == a.variants;
  }

  lemma CompilerCommutes(x: Option<CompilerSpec>, y: Option<CompilerSpec>)
    requires WfCompiler(x) && WfCompiler(y) && CompilersCompatible(x, y)
    ensures ConstrainCompiler(x, y) == ConstrainCompiler(y, x)
  {
    if x.Some? && y.Some? {
      IntersectCommutes(x.value.versions, y.value.versions);
    }
  }

  lemma {:induction false} MergeCommutes(a: Spec, b: Spec)
    requires WfTree(a) && WfTree(b) && DependencyConflicts(a, b) == {} && DependencyConflicts(b, a) == {}
    ensures MergeDependencies(a, b) == MergeDependencies(b, a)
    decreases a, 0
  {
    NoDependencyConflicts(a, b);
    forall k | k in a.dependencies && k in b.dependencies
      ensures MergeDependencies(a, b)[k] == MergeDependencies(b, a)[k]
    {
      ConstrainCommutes(a.dependencies[k], b.dependencies[k]);
    }
  }

  /** Constraining `a` by `b` and `b` by `a` give the same spec when they succeed. */
  lemma {:induction false} ConstrainCommutes(a: Spec, b: Spec)
    requires WfTree(a) && WfTree(b) && ConstrainSpec(a, b).Success?
    ensures ConstrainSpec(a, b) == ConstrainSpec(b, a)
    decreases a, 1
  {
    ConstrainSucceedsIffSatisfies(a, b);
    ConstrainSucceedsIffSatisfies(b, a);
    SatisfiesSymmetric(a, b);
    ConstrainValue(a, b);
    ConstrainValue(b, a);
    IntersectCommutes(a.versions, b.versions);
    CompilerCommutes(a.compiler, b.compiler);
    MapUnionCommutes(a.variants, b.variants);
    MergeCommutes(a, b);
  }

  lemma CompilerAbsorbs(x: Option<CompilerSpec>, y: Option<CompilerSpec>)
    requires WfCompiler(x) && WfCompiler(y) && ConstrainCompiler(x, y).Success?
    ensures ConstrainCompiler(ConstrainCompiler(x, y).value, y) == ConstrainCompiler(x, y)
  {
    if x.Some? && y.Some? {
      IntersectAbsorbs(x.value.versions, y.value.versions);
    } else if x.None? {
      CompilerSelf(y);
    }
  }

  lemma MapExtensional<K, V>(m1: map<K, V>, m2: map<K, V>)
    requires forall k :: k in m1 <==> k in m2
    requires forall k :: k in m1 ==> m1[k] == m2[k]
    ensures m1 == m2
  {
  }

  /** The entry of the merged dependency map under `k`. */
  lemma MergeAt(a: Spec, b: Spec, k: string)
    requires DependencyConflicts(a, b) == {}
    ensures k in MergeDependencies(a, b) <==> k in a.dependencies || k in b.dependencies
    ensures k in a.dependencies && k in b.dependencies ==>
      ConstrainSpec(a.dependencies[k], b.dependencies[k]).Success? &&
      MergeDependencies(a, b)[k] == ConstrainSpec(a.dependencies[k], b.dependencies[k]).value
    ensures k in a.dependencies && k !in b.dependencies ==> MergeDependencies(a, b)[k] == a.dependencies[k]
    ensures k !in a.dependencies && k in b.dependencies ==> MergeDependencies(a, b)[k] == b.dependencies[k]
  {
    NoDependencyConflicts(a, b);
  }

  lemma {:induction false} MergeAbsorbsAt(a: Spec, b: Spec, k: string)
    requires WfTree(a) && WfTree(b) && ConstrainSpec(a, b).Success?
    requires DependencyConflicts(ConstrainSpec(a, b).value, b) == {}
    requires k in ConstrainSpec(a, b).value.dependencies
    ensures MergeDependencies(ConstrainSpec(a, b).value, b)[k] == ConstrainSpec(a, b).value.dependencies[k]
    decreases a, 0
  {
    var c := ConstrainSpec(a, b).value;
    ConstrainValue(a, b);
    MergeAt(a, b, k);
    MergeAt(c, b, k);
    if k in b.dependencies {
      if k in a.dependencies {
        ConstrainIdempotent(a.dependencies[k], b.dependencies[k]);
      } else {
        ConstrainSelf(b.dependencies[k]);
      }
    }
  }

  lemma {:induction false} MergeAbsorbs(a: Spec, b: Spec)
    requires WfTree(a) && WfTree(b) && ConstrainSpec(a, b).Success?
    requires DependencyConflicts(ConstrainSpec(a, b).value, b) == {}
    ensures MergeDependencies(ConstrainSpec(a, b).value, b) == ConstrainSpec(a, b).value.dependencies
    decreases a, 1
  {
    var c := ConstrainSpec(a, b).value;
    var m := MergeDependencies(c, b);
    forall k ensures k in m <==> k in c.dependencies {
      ConstrainValue(a, b);
      MergeAt(a, b, k);
      MergeAt(c, b, k);
    }
    forall k | k in m ensures m[k] == c.dependencies[k] {
      MergeAbsorbsAt(a, b, k);
    }
    MapExtensional(m, c.dependencies);
  }

  /** Constraining again by the same spec changes nothing. */
  lemma {:induction false} ConstrainIdempotent(a: Spec, b: Spec)
    requires WfTree(a) && WfTree(b) && ConstrainSpec(a, b).Success?
    ensures ConstrainSpec(ConstrainSpec(a, b).value, b) == ConstrainSpec(a, b)
    decreases a, 2
  {
    var c := ConstrainSpec(a, b).value;
    ConstrainWf(a, b);
    ConstrainRefinesBoth(a, b);
    RefinesSatisfies(c, b);
    ConstrainSucceedsIffSatisfies(c, b);
    ConstrainValue(a, b);
    ConstrainValue(c, b);
    IntersectAbsorbs(a.versions, b.versions);
    CompilerAbsorbs(a.compiler, b.compiler);
    assert (a.variants + b.variants) + b.variants == a.variants + b.variants;
    MergeAbsorbs(a, b);
  }

  lemma CompilerSwap(x: Option<CompilerSpec>, y: Option<CompilerSpec>, z: Option<CompilerSpec>)
    requires WfCompiler(x) && WfCompiler(y) && WfCompiler(z)
    requires ConstrainCompiler(x, y).Success? && ConstrainCompiler(ConstrainCompiler(x, y).value, z).Success?
    requires ConstrainCompiler(x, z).Success? && ConstrainCompiler(ConstrainCompiler(x, z).value, y).Success?
    ensures ConstrainCompiler(ConstrainCompiler(x, y).value, z) == ConstrainCompiler(ConstrainCompiler(x, z).value, y)
  {
    if x.None? {
      CompilerCommutes(y, z);
    } else if y.Some? && z.Some? {
      IntersectSwap(x.value.versions, y.value.versions, z.value.versions);
    }
  }

  lemma VariantsSwap(x: map<string, bool>, y: map<string, bool>, z: map<string, bool>)
    requires VariantsAgree(x + y, z)
    ensures (x + y) + z == (x + z) + y
  {
  }

  lemma {:induction false} MergeSwapAt(a: Spec, b: Spec, c: Spec, ab: Spec, ac: Spec, k: string)
    requires WfTree(a) && WfTree(b) && WfTree(c)
    requires ConstrainSpec(a, b) == Success(ab) && ConstrainSpec(a, c) == Success(ac)
    requires ConstrainSpec(ab, c).Success? && ConstrainSpec(ac, b).Success?
    requires DependencyConflicts(ab, c) == {} && DependencyConflicts(ac, b) == {}
    ensures k in MergeDependencies(ab, c) <==> k in MergeDependencies(ac, b)
    ensures k in MergeDependencies(ab, c) ==> MergeDependencies(ab, c)[k] == MergeDependencies(ac, b)[k]
    decreases a, 0
  {
    ConstrainValue(a, b);
    ConstrainValue(a, c);
    MergeAt(a, b, k);
    MergeAt(a, c, k);
    MergeAt(ab, c, k);
    MergeAt(ac, b, k);
    if k in a.dependencies && k in b.dependencies && k in c.dependencies {
      ConstrainOrderIndependent(a.dependencies[k], b.dependencies[k], c.dependencies[k]);
    } else if k !in a.dependencies && k in b.dependencies && k in c.dependencies {
      ConstrainCommutes(b.dependencies[k], c.dependencies[k]);
    }
  }

  lemma {:induction false} MergeSwap(a: Spec, b: Spec, c: Spec, ab: Spec, ac: Spec)
    requires WfTree(a) && WfTree(b) && WfTree(c)
    requires ConstrainSpec(a, b) == Success(ab) && ConstrainSpec(a, c) == Success(ac)
    requires ConstrainSpec(ab, c).Success? && ConstrainSpec(ac, b).Success?
    requires DependencyConflicts(ab, c) == {} && DependencyConflicts(ac, b) == {}
    ensures MergeDependencies(ab, c) == MergeDependencies(ac, b)
    decreases a, 1
  {
    var m1 := MergeDependencies(ab, c);
    var m2 := MergeDependencies(ac, b);
    forall k ensures (k in m1 <==> k in m2) && (k in m1 ==> m1[k] == m2[k]) {
      MergeSwapAt(a, b, c, ab, ac, k);
    }
    MapExtensional(m1, m2);
  }

  /**
   * Constraining by `b` then by `c` gives the same spec as constraining by
   * `c` then by `b`, and one order succeeds exactly when the other does.
   */
  lemma {:induction false} ConstrainOrderIndependent(a: Spec, b: Spec, c: Spec)
    requires WfTree(a) && WfTree(b) && WfTree(c)
    requires ConstrainSpec(a, b).Success? && ConstrainSpec(ConstrainSpec(a, b).value, c).Success?
    ensures ConstrainSpec(a, c).Success?
    ensures ConstrainSpec(ConstrainSpec(a, c).value, b) == ConstrainSpec(ConstrainSpec(a, b).value, c)
    decreases a, 2
  {
    var ab := ConstrainSpec(a, b).value;
    ConstrainWf(a, b);
    var abc := ConstrainSpec(ab, c).value;
    ConstrainWf(ab, c);
    ConstrainRefinesBoth(a, b);
    ConstrainRefinesBoth(ab, c);
    RefinesTransitive(abc, ab, a);
    RefinesTransitive(abc, ab, b);
    ConstrainGreatest(a, c, abc);
    var ac := ConstrainSpec(a, c).value;
    ConstrainWf(a, c);
    ConstrainGreatest(ac, b, abc);
    ConstrainValue(a, b);
    ConstrainValue(a, c);
    ConstrainValue(ab, c);
    ConstrainValue(ac, b);
    IntersectSwap(a.versions, b.versions, c.versions);
    CompilerSwap(a.compiler, b.compiler, c.compiler);
    VariantsSwap(a.variants, b.variants, c.variants);
    MergeSwap(a, b, c, ab, ac);
  }
}
