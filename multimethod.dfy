/**
 * Multimethod dispatch: a package method declared several times, each
 * declaration guarded by a `when` spec, plus an optional unguarded default.
 * A call on a package instance runs the first declaration, in declaration
 * order, whose guard the instance's spec satisfies; failing that the
 * default; failing that it raises NoSuchMethodError.
 */
module Multimethod {
  import opened Wrappers
  import opened Versions
  import opened VersionLists
  import opened Specs

  /** One guarded declaration; `body` stands for what the declaration returns when called. */
  datatype Candidate<R> = Candidate(guard: Spec, body: R)

  /** All declarations of one method name, in the order the package declares them. */
  datatype MultiMethod<R> = MultiMethod(name: string, candidates: seq<Candidate<R>>, default: Option<R>)

  /** Which declaration a call runs. */
  datatype Choice = Guarded(index: nat) | Default

  /** NoSuchMethodError: the method name, the spec that matched nothing, and the guards tried. */
  datatype NoSuchMethod = NoSuchMethod(methodName: string, spec: Spec, guards: seq<Spec>)

  /** `s` satisfies the guard of candidate `i`. */
  predicate Matches<R>(cs: seq<Candidate<R>>, s: Spec, i: int)
  {
    0 <= i < |cs| && Satisfies(s, cs[i].guard)
  }

  function Guards<R>(cs: seq<Candidate<R>>): (gs: seq<Spec>)
    ensures |gs| == |cs| && forall i :: 0 <= i < |cs| ==> gs[i] == cs[i].guard
  {
    if cs == [] then [] else [cs[0].guard] + Guards(cs[1..])
  }

  /** The position of the first candidate whose guard `s` satisfies. */
  function FirstMatch<R>(cs: seq<Candidate<R>>, s: Spec): (r: Option<nat>)
    ensures r.Some? ==> Matches(cs, s, r.value) && forall j :: 0 <= j < r.value ==> !Matches(cs, s, j)
    ensures r.None? <==> forall j :: 0 <= j < |cs| ==> !Matches(cs, s, j)
  {
    if cs == [] then None
    else if Satisfies(s, cs[0].guard) then assert Matches(cs, s, 0); Some(0)
    else
      assert forall j :: 1 <= j < |cs| ==> (Matches(cs, s, j) <==> Matches(cs[1..], s, j - 1));
      match FirstMatch(cs[1..], s)
      case None => None
      case Some(i) => Some(i + 1)
  }

  /** The declaration a call with spec `s` runs, or the error it raises. */
  function Resolve<R>(m: MultiMethod<R>, s: Spec): (r: Result<Choice, NoSuchMethod>)
    ensures r.Success? && r.value.Guarded? ==> Matches(m.candidates, s, r.value.index)
    ensures r.Failure? ==> r.error == NoSuchMethod(m.name, s, Guards(m.candidates))
  {
    match FirstMatch(m.candidates, s)
    case Some(i) => Success(Guarded(i))
    case None => if m.default.Some? then Success(Default) else Failure(NoSuchMethod(m.name, s, Guards(m.candidates)))
  }

  /** What the call returns: the chosen declaration's body, or the error. */
  function Invoke<R>(m: MultiMethod<R>, s: Spec): (r: Result<R, NoSuchMethod>)
    ensures r.Success? <==> Resolve(m, s).Success?
  {
    match Resolve(m, s)
    case Success(Guarded(i)) => Success(m.candidates[i].body)
    case Success(Default) => Success(m.default.value)
    case Failure(e) => Failure(e)
  }

  /** The call fails exactly when no guard matches and there is no default. */
  lemma ResolveFailsIff<R>(m: MultiMethod<R>, s: Spec)
    ensures Resolve(m, s).Failure? <==> m.default.None? && forall j :: 0 <= j < |m.candidates| ==> !Matches(m.candidates, s, j)
  {
  }

  /** The default runs exactly when it exists and no guard matches. */
  lemma ResolveDefaultIff<R>(m: MultiMethod<R>, s: Spec)
    ensures Resolve(m, s) == Success(Default) <==> m.default.Some? && forall j :: 0 <= j < |m.candidates| ==> !Matches(m.candidates, s, j)
  {
  }

  /** Candidate `i` runs exactly when its guard is the first one `s` satisfies. */
  lemma ResolveGuardedIff<R>(m: MultiMethod<R>, s: Spec, i: nat)
    ensures Resolve(m, s) == Success(Guarded(i)) <==> Matches(m.candidates, s, i) && forall j :: 0 <= j < i ==> !Matches(m.candidates, s, j)
  {
    if Matches(m.candidates, s, i) && forall j :: 0 <= j < i ==> !Matches(m.candidates, s, j) {
      var r := FirstMatch(m.candidates, s);
      assert r.Some?;
      assert !(r.value < i);
      assert !(r.value > i);
    }
  }

  /** The first matching declaration's body is what the call returns. */
  lemma InvokeFirstMatch<R>(m: MultiMethod<R>, s: Spec, i: nat)
    requires Matches(m.candidates, s, i) && forall j :: 0 <= j < i ==> !Matches(m.candidates, s, j)
    ensures Invoke(m, s) == Success(m.candidates[i].body)
  {
    ResolveGuardedIff(m, s, i);
  }

  /** No match and a default: the call returns the default's body. */
  lemma InvokeDefault<R>(m: MultiMethod<R>, s: Spec)
    requires m.default.Some? && forall j :: 0 <= j < |m.candidates| ==> !Matches(m.candidates, s, j)
    ensures Invoke(m, s) == Success(m.default.value)
  {
    ResolveDefaultIff(m, s);
  }

  /** No match and no default: the call raises NoSuchMethodError naming the method, the spec and every guard. */
  lemma InvokeNoSuchMethod<R>(m: MultiMethod<R>, s: Spec)
    requires m.default.None? && forall j :: 0 <= j < |m.candidates| ==> !Matches(m.candidates, s, j)
    ensures Invoke(m, s) == Failure(NoSuchMethod(m.name, s, Guards(m.candidates)))
  {
    ResolveFailsIff(m, s);
  }

  // ---------------------------------------------------------------------
  // "Most specific guard, first declared among ties"
  // ---------------------------------------------------------------------

  /** Guard `g1` is strictly more specific than `g2`. */
  predicate MoreSpecific(g1: Spec, g2: Spec)
  {
    Satisfies(g1, g2) && !Satisfies(g2, g1)
  }

  /** Matching candidate `i` has no matching candidate strictly more specific than it. */
  predicate Maximal<R>(cs: seq<Candidate<R>>, s: Spec, i: int)
  {
    Matches(cs, s, i) && forall j :: 0 <= j < |cs| && Matches(cs, s, j) ==> !MoreSpecific(cs[j].guard, cs[i].guard)
  }

  /** Candidate `i` is the most specific match, ties going to the one declared first. */
  predicate MostSpecificChoice<R>(cs: seq<Candidate<R>>, s: Spec, i: int)
  {
    Maximal(cs, s, i) && forall j :: 0 <= j < i ==> !Maximal(cs, s, j)
  }

  /** No guard is ever strictly more specific than another, since satisfaction is symmetric. */
  lemma NeverMoreSpecific(g1: Spec, g2: Spec)
    ensures !MoreSpecific(g1, g2)
  {
    if Satisfies(g1, g2) {
      SatisfiesSymmetric(g1, g2);
    }
  }

  /**
   * The "most specific, then first declared" rule picks the same
   * declaration as first-match dispatch.
   */
  lemma MostSpecificIsFirstMatch<R>(m: MultiMethod<R>, s: Spec, i: nat)
    ensures MostSpecificChoice(m.candidates, s, i) <==> Resolve(m, s) == Success(Guarded(i))
  {
    var cs := m.candidates;
    forall j ensures Maximal(cs, s, j) <==> Matches(cs, s, j) {
      if Matches(cs, s, j) {
        forall k | Matches(cs, s, k) ensures !MoreSpecific(cs[k].guard, cs[j].guard) {
          NeverMoreSpecific(cs[k].guard, cs[j].guard);
        }
      }
    }
    ResolveGuardedIff(m, s, i);
  }

  /**
   * Two neighbouring declarations may be swapped without changing what any
   * call returns whose spec does not satisfy both of their guards; only the
   * order of the guards listed by the error changes.
   */
  lemma SwapUnambiguous<R>(m: MultiMethod<R>, s: Spec, k: nat)
    requires k + 1 < |m.candidates|
    requires !(Matches(m.candidates, s, k) && Matches(m.candidates, s, k + 1))
    ensures Invoke(m, s).Success? <==> Invoke(m.(candidates := Swapped(m.candidates, k)), s).Success?
    ensures Invoke(m, s).Success? ==> Invoke(m, s) == Invoke(m.(candidates := Swapped(m.candidates, k)), s)
  {
    var cs := m.candidates;
    var sw := Swapped(cs, k);
    var m' := m.(candidates := sw);
    assert forall j :: Matches(sw, s, j) <==> Matches(cs, s, if j == k then k + 1 else if j == k + 1 then k else j);
    var r := FirstMatch(cs, s);
    if r.None? {
      assert forall j :: 0 <= j < |sw| ==> !Matches(sw, s, j);
      ResolveFailsIff(m', s);
    } else {
      var i := r.value;
      var i' := if i == k then k + 1 else if i == k + 1 then k else i;
      assert sw[i'] == cs[i];
      assert forall j :: 0 <= j < i' ==> !Matches(sw, s, j);
      ResolveGuardedIff(m, s, i);
      ResolveGuardedIff(m', s, i');
    }
  }

  function Swapped<T>(xs: seq<T>, k: nat): (ys: seq<T>)
    requires k + 1 < |xs|
    ensures |ys| == |xs| && ys[k] == xs[k + 1] && ys[k + 1] == xs[k]
    ensures forall j :: 0 <= j < |xs| && j != k && j != k + 1 ==> ys[j] == xs[j]
  {
    xs[k := xs[k + 1]][k + 1 := xs[k]]
  }

}

/**
 * The dispatch cases of the multimethod test suite. The test package's
 * `when` guards are written out here as the tests imply them; each guard
 * is a spec of the package itself (`@1.0` guards `multimethod@1.0`).
 */
module MultimethodExamples {
  import opened Wrappers
  import opened Versions
  import opened VersionLists
  import opened Specs
  import opened SpecExamples
  import opened Multimethod

  const Package := "multimethod"

  /** The second declaration runs when it matches and the first does not. */
  lemma InvokeSecond<R>(m: MultiMethod<R>, s: Spec)
    requires !Matches(m.candidates, s, 0) && Matches(m.candidates, s, 1)
    ensures Invoke(m, s) == Success(m.candidates[1].body)
  {
    InvokeFirstMatch(m, s, 1);
  }

  /** The third declaration runs when it matches and the first two do not. */
  lemma InvokeThird<R>(m: MultiMethod<R>, s: Spec)
    requires !Matches(m.candidates, s, 0) && !Matches(m.candidates, s, 1) && Matches(m.candidates, s, 2)
    ensures Invoke(m, s) == Success(m.candidates[2].body)
  {
    InvokeFirstMatch(m, s, 2);
  }

  /** Two specs with one version range each satisfy each other when the ranges overlap. */
  lemma SingleRanges(n: string, r1: Range, r2: Range)
    ensures Satisfies(Versioned(n, [r1]), Versioned(n, [r2])) <==> Overlaps(r1, r2)
  {
    if Overlaps(r1, r2) {
      assert [r1][0] == r1 && [r2][0] == r2;
    }
  }

  /** Two exact versions overlap only when they are the same version. */
  lemma ExactOverlaps(a: Version, b: Version)
    ensures Overlaps(Exact(a), Exact(b)) <==> a == b
  {
    VersionOrder();
  }

  function At(v: string): Spec
  {
    Versioned(Package, [Exact(V(v))])
  }

  /** `no_version_2`: declared for 1.0, 3.0 and 4.0, without a default. */
  function NoVersion2(): MultiMethod<int>
  {
    MultiMethod("no_version_2", [Candidate(At("1.0"), 1), Candidate(At("3.0"), 3), Candidate(At("4.0"), 4)], None)
  }

  lemma ExactMatch(v: string, w: string)
    ensures Satisfies(At(v), At(w)) <==> v == w
  {
    SingleRanges(Package, Exact(V(v)), Exact(V(w)));
    ExactOverlaps(V(v), V(w));
  }

  /** `multimethod@2.0` has no `no_version_2`. */
  lemma NoVersion2Missing()
    ensures Invoke(NoVersion2(), At("2.0")) == Failure(NoSuchMethod("no_version_2", At("2.0"), Guards(NoVersion2().candidates)))
  {
    var m := NoVersion2();
    ExactMatch("2.0", "1.0");
    ExactMatch("2.0", "3.0");
    ExactMatch("2.0", "4.0");
    assert !Matches(m.candidates, At("2.0"), 0) && !Matches(m.candidates, At("2.0"), 1) && !Matches(m.candidates, At("2.0"), 2);
    InvokeNoSuchMethod(m, At("2.0"));
  }

  /** 1.0 runs the first declaration. */
  lemma NoVersion2First()
    ensures Invoke(NoVersion2(), At("1.0")) == Success(1)
  {
    ExactMatch("1.0", "1.0");
    InvokeFirstMatch(NoVersion2(), At("1.0"), 0);
  }

  /** 3.0 runs the second declaration. */
  lemma NoVersion2Second()
    ensures Invoke(NoVersion2(), At("3.0")) == Success(3)
  {
    var m := NoVersion2();
    ExactMatch("3.0", "1.0");
    ExactMatch("3.0", "3.0");
    InvokeSecond(m, At("3.0"));
  }

  /** 4.0 runs the third declaration. */
  lemma NoVersion2Third()
    ensures Invoke(NoVersion2(), At("4.0")) == Success(4)
  {
    var m := NoVersion2();
    ExactMatch("4.0", "1.0");
    ExactMatch("4.0", "3.0");
    ExactMatch("4.0", "4.0");
    InvokeThird(m, At("4.0"));
  }

  /** `version_overlap`: `@:4` returns 1 and `@2:` returns 2. */
  function VersionOverlap(): MultiMethod<int>
  {
    MultiMethod("version_overlap", [Candidate(Versioned(Package, [Range(None, Some(V("4")))]), 1),
                                    Candidate(Versioned(Package, [Range(Some(V("2")), None)]), 2)], None)
  }

  lemma TwoBelowFour()
    ensures Less(V("2.0"), V("4"))
  {
    DottedBelowSingle('2', '0', '4');
  }

  lemma FourBelowFive()
    ensures Less(V("4"), V("5.0"))
  {
    SingleBelowDotted('4', '5', '0');
  }

  /** A version below a lower bound is outside the range it opens. */
  lemma BelowLowerBound(v: Version, lo: Version)
    requires Less(v, lo)
    ensures !Overlaps(Exact(v), Range(Some(lo), None))
  {
    VersionOrder();
  }

  /** A version at or above a lower bound is inside the range it opens. */
  lemma AboveLowerBound(v: Version, lo: Version)
    requires LessEq(lo, v)
    ensures Overlaps(Exact(v), Range(Some(lo), None))
  {
    VersionOrder();
  }

  /** A version above an upper bound is outside the range it closes. */
  lemma AboveUpperBound(v: Version, hi: Version)
    requires Less(hi, v)
    ensures !Overlaps(Exact(v), Range(None, Some(hi)))
  {
    VersionOrder();
  }

  /** Version 2.0 satisfies both guards and gets the first. */
  lemma VersionOverlapFirst()
    ensures Invoke(VersionOverlap(), At("2.0")) == Success(1)
  {
    TwoBelowFour();
    SingleRanges(Package, Exact(V("2.0")), Range(None, Some(V("4"))));
    InvokeFirstMatch(VersionOverlap(), At("2.0"), 0);
  }

  /** A version above 4 only satisfies the second guard. */
  lemma VersionOverlapAbove(v: Version)
    requires Less(V("4"), v)
    ensures Invoke(VersionOverlap(), Versioned(Package, [Exact(v)])) == Success(2)
  {
    var m := VersionOverlap();
    SingleBelowSingle('2', '4');
    LessTransitive(V("2"), V("4"), v);
    AboveUpperBound(v, V("4"));
    AboveLowerBound(v, V("2"));
    SingleRanges(Package, Exact(v), Range(None, Some(V("4"))));
    SingleRanges(Package, Exact(v), Range(Some(V("2")), None));
    InvokeSecond(m, Versioned(Package, [Exact(v)]));
  }

  /** Version 5.0 only satisfies the second guard. */
  lemma VersionOverlapSecond()
    ensures Invoke(VersionOverlap(), At("5.0")) == Success(2)
  {
    FourBelowFive();
    VersionOverlapAbove(V("5.0"));
  }

  /** `multimethod%c`. */
  function Compiled(c: string): Spec
  {
    Spec(Package, [AnyRange], Some(CompilerSpec(c, [AnyRange])), map[], None, map[])
  }

  lemma AnyOverlapsAny()
    ensures ListsOverlap([AnyRange], [AnyRange])
  {
    assert Overlaps([AnyRange][0], [AnyRange][0]);
  }

  lemma CompilerMatch(c: string, d: string)
    ensures Satisfies(Compiled(c), Compiled(d)) <==> c == d
  {
    AnyOverlapsAny();
  }

  /** `has_a_default`: `%gcc` and `%intel` declarations and an unguarded default. */
  function HasADefault(): MultiMethod<string>
  {
    MultiMethod("has_a_default", [Candidate(Compiled("gcc"), "gcc"), Candidate(Compiled("intel"), "intel")], Some("default"))
  }

  /** The compiler picks its declaration; `%pgi` matches none and gets the default. */
  lemma HasADefaultDispatch()
    ensures Invoke(HasADefault(), Compiled("gcc")) == Success("gcc")
    ensures Invoke(HasADefault(), Compiled("intel")) == Success("intel")
    ensures Invoke(HasADefault(), Compiled("pgi")) == Success("default")
  {
    var m := HasADefault();
    CompilerMatch("gcc", "gcc");
    InvokeFirstMatch(m, Compiled("gcc"), 0);
    CompilerMatch("intel", "gcc");
    CompilerMatch("intel", "intel");
    InvokeFirstMatch(m, Compiled("intel"), 1);
    CompilerMatch("pgi", "gcc");
    CompilerMatch("pgi", "intel");
    assert !Matches(m.candidates, Compiled("pgi"), 0) && !Matches(m.candidates, Compiled("pgi"), 1);
    InvokeDefault(m, Compiled("pgi"));
  }

  /** `multimethod=a`. */
  function Targeted(a: string): Spec
  {
    Flagged(Package, map[], Some(a))
  }

  lemma ArchitectureMatch(a: string, b: string)
    ensures Satisfies(Targeted(a), Targeted(b)) <==> a == b
  {
    AnyOverlapsAny();
  }

  /** `different_by_architecture`: one declaration per architecture, no default. */
  function DifferentByArchitecture(): MultiMethod<string>
  {
    MultiMethod("different_by_architecture",
      [Candidate(Targeted("x86_64"), "x86_64"), Candidate(Targeted("ppc64"), "ppc64"),
       Candidate(Targeted("ppc32"), "ppc32"), Candidate(Targeted("arm64"), "arm64")], None)
  }

  /** Each listed architecture runs its own declaration. */
  lemma ArchitectureFound(k: nat)
    requires k < 4
    ensures Invoke(DifferentByArchitecture(), DifferentByArchitecture().candidates[k].guard)
         == Success(DifferentByArchitecture().candidates[k].body)
  {
    var m := DifferentByArchitecture();
    var a := m.candidates[k].body;
    assert m.candidates[k].guard == Targeted(a);
    forall j | 0 <= j < 4 ensures Matches(m.candidates, Targeted(a), j) <==> j == k {
      ArchitectureMatch(a, m.candidates[j].body);
      assert m.candidates[j].guard == Targeted(m.candidates[j].body);
    }
    InvokeFirstMatch(m, Targeted(a), k);
  }

  /** `=macos` matches no declaration and there is no default. */
  lemma ArchitectureMissing()
    ensures Invoke(DifferentByArchitecture(), Targeted("macos")).Failure?
  {
    var m := DifferentByArchitecture();
    forall j | 0 <= j < 4 ensures !Matches(m.candidates, Targeted("macos"), j) {
      ArchitectureMatch("macos", m.candidates[j].body);
      assert m.candidates[j].guard == Targeted(m.candidates[j].body);
    }
    InvokeNoSuchMethod(m, Targeted("macos"));
  }

  /** `different_by_dep`: `^mpich` first, then `^zmpi`. */
  function DifferentByDep(): MultiMethod<string>
  {
    MultiMethod("different_by_dep", [Candidate(Depending(Package, Bare("mpich")), "mpich"),
                                     Candidate(Depending(Package, Bare("zmpi")), "zmpi")], None)
  }

  /**
   * A spec depending on `mpich`, or on a package no guard names, satisfies
   * the `^mpich` guard, which is declared first.
   */
  lemma DifferentByDepDispatch(d: string)
    requires d == "mpich" || d != "zmpi"
    ensures Invoke(DifferentByDep(), Depending(Package, Bare(d))) == Success("mpich")
  {
    AnyOverlapsAny();
    var s := Depending(Package, Bare(d));
    if d == "mpich" {
      assert Satisfies(Bare(d), Bare("mpich"));
    }
    assert Satisfies(s, Depending(Package, Bare("mpich")));
    InvokeFirstMatch(DifferentByDep(), s, 0);
  }

  /** `multimethod^mpich@r`. */
  function WithMpich(r: Range): Spec
  {
    Depending(Package, Versioned("mpich", [r]))
  }

  lemma MpichMatch(r1: Range, r2: Range)
    ensures Satisfies(WithMpich(r1), WithMpich(r2)) <==> Overlaps(r1, r2)
  {
    var a, b := WithMpich(r1), WithMpich(r2);
    AnyOverlapsAny();
    SingleRanges("mpich", r1, r2);
    assert a.dependencies["mpich"] == Versioned("mpich", [r1]) && b.dependencies["mpich"] == Versioned("mpich", [r2]);
    assert Satisfies(a, b) <==> Satisfies(a.dependencies["mpich"], b.dependencies["mpich"]);
  }

  function From(v: string): Range
  {
    Range(Some(V(v)), None)
  }

  /** `mpi_version`: `^mpich@3:`, `^mpich@2:`, `^mpich@1:` in that order, default 0. */
  function MpiVersion(): MultiMethod<int>
  {
    MultiMethod("mpi_version", [Candidate(WithMpich(From("3")), 3), Candidate(WithMpich(From("2")), 2),
                                Candidate(WithMpich(From("1")), 1)], Some(0))
  }

  lemma ThreeBelowPatch()
    ensures Less(V("3"), V("3.0.4"))
  {
    LongerVersion("3.0.4", '4');
  }

  /** `^mpich@3.0.4` takes the `@3:` declaration. */
  lemma MpiVersionThree()
    ensures Invoke(MpiVersion(), WithMpich(Exact(V("3.0.4")))) == Success(3)
  {
    ThreeBelowPatch();
    MpichMatch(Exact(V("3.0.4")), From("3"));
    InvokeFirstMatch(MpiVersion(), WithMpich(Exact(V("3.0.4"))), 0);
  }

  lemma OneBelowTwo()
    ensures Less(V("1.0"), V("2"))
  {
    DottedBelowSingle('1', '0', '2');
  }

  lemma OneBelowOne()
    ensures Less(V("1"), V("1.0"))
  {
    SingleBelowDotted('1', '1', '0');
  }

  /** The `k`-th guard of `mpi_version`, `^mpich@lo:`, matches the versions from `lo` on. */
  lemma MpiGuardMatches(v: Version, k: nat, lo: string)
    requires k < 3 && MpiVersion().candidates[k].guard == WithMpich(From(lo))
    ensures Matches(MpiVersion().candidates, WithMpich(Exact(v)), k) <==> Overlaps(Exact(v), From(lo))
  {
    MpichMatch(Exact(v), From(lo));
  }

  /** A version of mpich from 1 up to, not including, 2 skips `@3:` and `@2:` and takes `@1:`. */
  lemma MpiVersionFromOne(v: Version)
    requires LessEq(V("1"), v) && Less(v, V("2"))
    ensures Invoke(MpiVersion(), WithMpich(Exact(v))) == Success(1)
  {
    var m, s := MpiVersion(), WithMpich(Exact(v));
    SingleBelowSingle('2', '3');
    LessTransitive(v, V("2"), V("3"));
    BelowLowerBound(v, V("3"));
    BelowLowerBound(v, V("2"));
    AboveLowerBound(v, V("1"));
    MpiGuardMatches(v, 0, "3");
    MpiGuardMatches(v, 1, "2");
    MpiGuardMatches(v, 2, "1");
    InvokeThird(m, s);
  }

  /** `^mpich@1.0` skips `@3:` and `@2:` and takes `@1:`. */
  lemma MpiVersionOne()
    ensures Invoke(MpiVersion(), WithMpich(Exact(V("1.0")))) == Success(1)
  {
    OneBelowTwo();
    OneBelowOne();
    MpiVersionFromOne(V("1.0"));
  }
}
