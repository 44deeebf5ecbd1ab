/**
 * A spec held in a mutable object, as the parser builds it, and the
 * in-place `constrain` that merges another spec into it. The whole merge is
 * validated before any field is written, so a failed constrain leaves the
 * object as it was.
 */
module SpecNodes {
  import opened Wrappers
  import opened Strings
  import opened Versions
  import opened VersionLists
  import opened Specs

  /**
   * Checks the variants both maps set, in name order; the first one set
   * both ways is the error, which is the least such name.
   */
  method CheckVariants(mine: map<string, bool>, theirs: map<string, bool>) returns (outcome: Outcome<ConstrainError>)
    ensures VariantConflicts(mine, theirs) == {} ==> outcome == Pass
    ensures VariantConflicts(mine, theirs) != {} ==> outcome == Fail(UnsatisfiableVariant(Least(VariantConflicts(mine, theirs))))
  {
    var names := SortedKeys(theirs.Keys);
    var conflicts := VariantConflicts(mine, theirs);
    var i := 0;
    while i < |names|
      invariant 0 <= i <= |names|
      invariant forall j :: 0 <= j < i ==> names[j] !in conflicts
    {
      var k := names[i];
      if k in mine && mine[k] != theirs[k] {
        FirstFoundIsLeast(names, conflicts, i);
        return Fail(UnsatisfiableVariant(k));
      }
      i := i + 1;
    }
    NoneFound(names, conflicts);
    return Pass;
  }

  /**
   * Constrains the dependencies both specs name, in name order; the first
   * that fails is the error, which is the least such name.
   */
  method CheckDependencies(a: Spec, b: Spec) returns (outcome: Outcome<ConstrainError>)
    ensures DependencyConflicts(a, b) == {} ==> outcome == Pass
    ensures DependencyConflicts(a, b) != {} ==>
      var k := Least(DependencyConflicts(a, b));
      outcome == Fail(UnsatisfiableDependency(k, ConstrainSpec(a.dependencies[k], b.dependencies[k]).error))
  {
    var names := SortedKeys(b.dependencies.Keys);
    var conflicts := DependencyConflicts(a, b);
    assert forall x :: x in conflicts ==> x in names;
    var i := 0;
    while i < |names|
      invariant 0 <= i <= |names|
      invariant forall j :: 0 <= j < i ==> names[j] !in conflicts
    {
      var k := names[i];
      assert k in b.dependencies;
      if k in a.dependencies {
        var sub := ConstrainSpec(a.dependencies[k], b.dependencies[k]);
        if sub.Failure? {
          assert k in conflicts;
          FirstFoundIsLeast(names, conflicts, i);
          return Fail(UnsatisfiableDependency(k, sub.error));
        }
      }
      assert k !in conflicts;
      i := i + 1;
    }
    NoneFound(names, conflicts);
    return Pass;
  }

  /** Runs every check of `ConstrainSpec` in its order without changing anything. */
  method Check(a: Spec, b: Spec) returns (outcome: Outcome<ConstrainError>)
    ensures ConstrainSpec(a, b).Success? ==> outcome == Pass
    ensures ConstrainSpec(a, b).Failure? ==> outcome == Fail(ConstrainSpec(a, b).error)
  {
    if a.name != b.name {
      return Fail(UnsatisfiableName(a.name, b.name));
    }
    if Intersect(a.versions, b.versions) == [] {
      return Fail(UnsatisfiableVersions(a.versions, b.versions));
    }
    var compiler := ConstrainCompiler(a.compiler, b.compiler);
    if compiler.Failure? {
      return Fail(compiler.error);
    }
    outcome := CheckVariants(a.variants, b.variants);
    if outcome.Fail? {
      return;
    }
    if !ArchitecturesAgree(a.architecture, b.architecture) {
      return Fail(UnsatisfiableArchitecture(a.architecture.value, b.architecture.value));
    }
    outcome := CheckDependencies(a, b);
  }

  /** Adds each entry of `other` whose key `mine` lacks; the entries `mine` has stay. */
  method AddMissing(mine: map<string, bool>, other: map<string, bool>) returns (merged: map<string, bool>)
    ensures merged == other + mine
  {
    merged := mine;
    var todo := other.Keys;
    while todo != {}
      invariant todo <= other.Keys
      invariant merged == (other - todo) + mine
      decreases |todo|
    {
      var k :| k in todo;
      if k !in merged {
        merged := merged[k := other[k]];
      }
      assert (other - (todo - {k})) + mine == merged;
      todo := todo - {k};
    }
    assert other - {} == other;
  }

  /**
   * Constrains each dependency both specs name by the other's and adds the
   * dependencies only `b` names.
   */
  method MergeDependencyMaps(a: Spec, b: Spec) returns (merged: map<string, Spec>)
    requires DependencyConflicts(a, b) == {}
    ensures merged == MergeDependencies(a, b)
  {
    merged := a.dependencies;
    var todo := b.dependencies.Keys;
    while todo != {}
      invariant todo <= b.dependencies.Keys && MergedSoFar(a, b, todo, merged)
      decreases |todo|
    {
      var k :| k in todo;
      MergeAt(a, b, k);
      var v := if k in merged then ConstrainSpec(merged[k], b.dependencies[k]).value else b.dependencies[k];
      MergeStep(a, b, todo, merged, k, v);
      merged := merged[k := v];
      todo := todo - {k};
    }
    MergeDone(a, b, merged);
  }

  /**
   * `merged` holds the dependencies of `a` and those of `b` outside `todo`,
   * the latter already as the full merge has them.
   */
  ghost predicate MergedSoFar(a: Spec, b: Spec, todo: set<string>, merged: map<string, Spec>)
    requires DependencyConflicts(a, b) == {}
  {
    && (forall k :: k in merged <==> k in a.dependencies || (k in b.dependencies && k !in todo))
    && (forall k :: k in merged ==>
          merged[k] == if k in b.dependencies && k !in todo then MergeDependencies(a, b)[k] else a.dependencies[k])
  }

  lemma MergeStep(a: Spec, b: Spec, todo: set<string>, merged: map<string, Spec>, k: string, v: Spec)
    requires DependencyConflicts(a, b) == {}
    requires todo <= b.dependencies.Keys && k in todo && MergedSoFar(a, b, todo, merged)
    requires k in MergeDependencies(a, b) && v == MergeDependencies(a, b)[k]
    ensures MergedSoFar(a, b, todo - {k}, merged[k := v])
  {
    var rest := todo - {k};
    forall j | j in merged[k := v]
      ensures merged[k := v][j] == if j in b.dependencies && j !in rest then MergeDependencies(a, b)[j] else a.dependencies[j]
    {
      if j != k {
        assert merged[k := v][j] == merged[j];
      }
    }
  }

  lemma MergeDone(a: Spec, b: Spec, merged: map<string, Spec>)
    requires DependencyConflicts(a, b) == {} && MergedSoFar(a, b, {}, merged)
    ensures merged == MergeDependencies(a, b)
  {
    var target := MergeDependencies(a, b);
    forall k ensures k in merged <==> k in target {
      MergeAt(a, b, k);
    }
    MapExtensional(merged, target);
  }

  class SpecNode {
    var name: string
    var versions: seq<Range>
    var compiler: Option<CompilerSpec>
    var variants: map<string, bool>
    var architecture: Option<string>
    var dependencies: map<string, Spec>

    /** The spec this object currently holds. */
    function Value(): Spec
      reads this
    {
      Spec(name, versions, compiler, variants, architecture, dependencies)
    }

    constructor(s: Spec)
      ensures Value() == s
    {
      name := s.name;
      versions := s.versions;
      compiler := s.compiler;
      variants := s.variants;
      architecture := s.architecture;
      dependencies := s.dependencies;
    }

    /**
     * Constrains this spec by `other` in place. On success every field holds
     * the merge; on failure the error is the one `ConstrainSpec` reports and
     * nothing has changed.
     */
    method Constrain(other: Spec) returns (outcome: Outcome<ConstrainError>)
      modifies this
      ensures ConstrainSpec(old(Value()), other).Success? ==>
        outcome == Pass && Value() == ConstrainSpec(old(Value()), other).value
      ensures ConstrainSpec(old(Value()), other).Failure? ==>
        outcome == Fail(ConstrainSpec(old(Value()), other).error) && Value() == old(Value())
    {
      var self := Value();
      outcome := Check(self, other);
      if outcome.Fail? {
        return;
      }
      ConstrainValue(self, other);
      var newVariants := AddMissing(variants, other.variants);
      MapUnionCommutes(self.variants, other.variants);
      var newDependencies := MergeDependencyMaps(self, other);
      versions := Intersect(versions, other.versions);
      compiler := ConstrainCompiler(compiler, other.compiler).value;
      variants := newVariants;
      if architecture.None? {
        architecture := other.architecture;
      }
      dependencies := newDependencies;
    }
  }
}
