/**
 * Package relations: the directives a package class body calls to declare
 * its versions, dependencies, provided virtual packages and patches. Each
 * directive fetches a dictionary of the class body with `setdefault`,
 * creating it empty the first time, and updates it in place. The class
 * body is modelled as a `PackageRelations` object whose fields are those
 * dictionaries (`None` until first created) and whose `name` is the
 * package the directives are called from.
 */
module Relations {
  import opened Wrappers
  import opened Versions
  import opened Specs
  import opened SpecParser

  /** The checksum and optional download URL of one version. */
  datatype VersionDescriptor = VersionDescriptor(checksum: string, url: Option<string>)

  /** A patch of package `pkg`, read from `path`, applied with strip level `level`. */
  datatype Patch = Patch(pkg: string, path: string, level: int)

  datatype RelationError =
    | CircularReference(relation: string, package: string)
    | ScopeError(relation: string)
    | SpecSyntax(error: ParseError)

  /**
   * The message each relation error carries: CircularReferenceError names
   * the package between quotes after "Package " and ends with the relation
   * and a full stop; ScopeError names the relation between quotes after
   * "Must invoke ".
   */
  function Message(e: RelationError): (msg: string)
    ensures e.CircularReference? ==>
              && |msg| == 34 + |e.package| + |e.relation|
              && msg[..9] == "Package '" && msg[9..9 + |e.package|] == e.package
              && msg[|msg| - 1 - |e.relation|..] == e.relation + "."
    ensures e.ScopeError? ==>
              && |msg| == 46 + |e.relation|
              && msg[..13] == "Must invoke '" && msg[13..13 + |e.relation|] == e.relation
  {
    match e
    case CircularReference(relation, package) => "Package '" + package + "' cannot pass itself to " + relation + "."
    case ScopeError(relation) => "Must invoke '" + relation + "' from inside a class definition!"
    case SpecSyntax(_) => "Invalid spec"
  }

  // ---------------------------------------------------------------------
  // The specs a relation accepts
  // ---------------------------------------------------------------------

  /** The position of the first spec named `pkg`, or `|ss|` when there is none. */
  function FirstNamed(ss: seq<Spec>, pkg: string): (k: nat)
    ensures k <= |ss|
    ensures k < |ss| ==> ss[k].name == pkg
    ensures forall i :: 0 <= i < k ==> ss[i].name != pkg
  {
    if ss == [] then 0
    else if ss[0].name == pkg then 0
    else 1 + FirstNamed(ss[1..], pkg)
  }

  /** The specs a relation records, in order, and the error that stopped it, if any. */
  datatype Accepted = Accepted(specs: seq<Spec>, error: Option<RelationError>)

  /** The result a relation stops with, or finishes with, on the list `all` of parsed specs. */
  function Expected(pkg: string, all: seq<Spec>): Accepted
  {
    var k := FirstNamed(all, pkg);
    if k < |all| then Accepted(all[..k], Some(CircularReference("depends_on", pkg))) else Accepted(all, None)
  }

  /** How one string of a relation's arguments parses. */
  type SpecsOrError = Result<seq<Spec>, ParseError>

  /** How each string of a relation's arguments parses, in order. */
  function ParseAll(strings: seq<string>): (rs: seq<SpecsOrError>)
    ensures |rs| == |strings|
  {
    seq(|strings|, i requires 0 <= i < |strings| => Parse(strings[i]))
  }

  /**
   * What a relation takes from one string, given how it parses: its specs
   * up to the first one that names the package itself, which raises
   * CircularReferenceError for `depends_on`; nothing, and the parse error,
   * when the string does not parse.
   */
  function AcceptOne(pkg: string, r: SpecsOrError): (a: Accepted)
    ensures forall i :: 0 <= i < |a.specs| ==> a.specs[i].name != pkg
    ensures a.error.None? || a.error == Some(CircularReference("depends_on", pkg)) || a.error.value.SpecSyntax?
  {
    match r
    case Failure(e) => Accepted([], Some(SpecSyntax(e)))
    case Success(ss) => Expected(pkg, ss)
  }

  /** What a relation takes from each string in turn, stopping at the first error. */
  function Accept(pkg: string, rs: seq<SpecsOrError>): (a: Accepted)
    ensures forall i :: 0 <= i < |a.specs| ==> a.specs[i].name != pkg
    ensures a.error.None? || a.error == Some(CircularReference("depends_on", pkg)) || a.error.value.SpecSyntax?
  {
    if rs == [] then Accepted([], None)
    else
      var one := AcceptOne(pkg, rs[0]);
      if one.error.Some? then one
      else
        var rest := Accept(pkg, rs[1..]);
        Accepted(one.specs + rest.specs, rest.error)
  }

  /** The specs of all the strings, in order, when every one parses. */
  function AllSpecs(rs: seq<SpecsOrError>): Option<seq<Spec>>
  {
    if rs == [] then Some([])
    else
      match rs[0]
      case Failure(_) => None
      case Success(ss) =>
        match AllSpecs(rs[1..])
        case None => None
        case Some(rest) => Some(ss + rest)
  }

  /** Taking a first list that stops nothing, then a second, is taking both. */
  lemma ExpectedConcat(pkg: string, a: seq<Spec>, b: seq<Spec>)
    requires FirstNamed(a, pkg) == |a|
    ensures Expected(pkg, a + b) == Accepted(a + Expected(pkg, b).specs, Expected(pkg, b).error)
  {
    FirstNamedConcat(a, b, pkg);
    var j := FirstNamed(b, pkg);
    if j < |b| {
      assert (a + b)[..|a| + j] == a + b[..j];
    }
  }

  /**
   * When every string parses, a relation takes every spec, or stops with
   * CircularReferenceError exactly when one of them names the package,
   * after taking all the specs before it.
   */
  lemma {:induction false} AcceptParsed(pkg: string, rs: seq<SpecsOrError>)
    requires AllSpecs(rs).Some?
    ensures Accept(pkg, rs) == Expected(pkg, AllSpecs(rs).value)
  {
    if rs != [] {
      var ss, rest := rs[0].value, AllSpecs(rs[1..]).value;
      var k := FirstNamed(ss, pkg);
      FirstNamedConcat(ss, rest, pkg);
      if k < |ss| {
        assert (ss + rest)[..k] == ss[..k];
      } else {
        AcceptParsed(pkg, rs[1..]);
        ExpectedConcat(pkg, ss, rest);
      }
    }
  }

  /** The first spec named `pkg` in `a + b`. */
  lemma {:induction false} FirstNamedConcat(a: seq<Spec>, b: seq<Spec>, pkg: string)
    ensures FirstNamed(a + b, pkg) == if FirstNamed(a, pkg) < |a| then FirstNamed(a, pkg) else |a| + FirstNamed(b, pkg)
  {
    if a == [] {
      assert a + b == b;
    } else {
      assert (a + b)[0] == a[0];
      if a[0].name != pkg {
        assert (a + b)[1..] == a[1..] + b;
        FirstNamedConcat(a[1..], b, pkg);
      }
    }
  }

  /** After taking `taken` from `rs[..i]`, what remains to take is what `rs[i..]` gives. */
  predicate Remaining(pkg: string, rs: seq<SpecsOrError>, taken: seq<Spec>, i: nat)
    requires i <= |rs|
  {
    var rest := Accept(pkg, rs[i..]);
    Accept(pkg, rs) == Accepted(taken + rest.specs, rest.error)
  }

  lemma RemainingStart(pkg: string, rs: seq<SpecsOrError>)
    ensures Remaining(pkg, rs, [], 0)
  {
    assert rs[0..] == rs;
  }

  lemma RemainingNext(pkg: string, rs: seq<SpecsOrError>, taken: seq<Spec>, i: nat)
    requires i < |rs| && Remaining(pkg, rs, taken, i)
    requires AcceptOne(pkg, rs[i]).error.None?
    ensures Remaining(pkg, rs, taken + AcceptOne(pkg, rs[i]).specs, i + 1)
  {
    assert rs[i..][1..] == rs[i + 1..];
  }

  lemma RemainingStop(pkg: string, rs: seq<SpecsOrError>, taken: seq<Spec>, i: nat)
    requires i < |rs| && Remaining(pkg, rs, taken, i)
    requires AcceptOne(pkg, rs[i]).error.Some?
    ensures Accept(pkg, rs) == Accepted(taken + AcceptOne(pkg, rs[i]).specs, AcceptOne(pkg, rs[i]).error)
  {
  }

  lemma RemainingDone(pkg: string, rs: seq<SpecsOrError>, taken: seq<Spec>)
    requires Remaining(pkg, rs, taken, |rs|)
    ensures Accept(pkg, rs) == Accepted(taken, None)
  {
    assert rs[|rs|..] == [];
    assert taken + [] == taken;
  }

  // ---------------------------------------------------------------------
  // What each relation records
  // ---------------------------------------------------------------------

  /** `dependencies` after filing each spec under its name, in order. */
  function Record(d: map<string, Spec>, ss: seq<Spec>): map<string, Spec>
  {
    if ss == [] then d
    else
      var last := ss[|ss| - 1];
      Record(d, ss[..|ss| - 1])[last.name := last]
  }

  /** The position of the last spec named `k`, which must exist. */
  function LastNamed(ss: seq<Spec>, k: string): (i: nat)
    requires exists j :: 0 <= j < |ss| && ss[j].name == k
    ensures i < |ss| && ss[i].name == k
    ensures forall j :: i < j < |ss| ==> ss[j].name != k
  {
    if ss[|ss| - 1].name == k then |ss| - 1
    else
      var init := ss[..|ss| - 1];
      assert exists j :: 0 <= j < |init| && init[j].name == k by {
        var j :| 0 <= j < |ss| && ss[j].name == k;
        assert init[j] == ss[j];
      }
      LastNamed(init, k)
  }

  /**
   * After `depends_on`, each name is filed with the last spec of that name,
   * and the names no spec mentions keep their earlier entry.
   */
  lemma {:induction false} RecordLookup(d: map<string, Spec>, ss: seq<Spec>, k: string)
    ensures k in Record(d, ss) <==> k in d || exists j :: 0 <= j < |ss| && ss[j].name == k
    ensures k in Record(d, ss) ==>
              Record(d, ss)[k] == if exists j :: 0 <= j < |ss| && ss[j].name == k then ss[LastNamed(ss, k)] else d[k]
  {
    if ss != [] {
      var init := ss[..|ss| - 1];
      RecordLookup(d, init, k);
      forall j | 0 <= j < |init| ensures init[j] == ss[j] { }
      if ss[|ss| - 1].name != k {
        if exists j :: 0 <= j < |ss| && ss[j].name == k {
          var j :| 0 <= j < |ss| && ss[j].name == k;
          assert init[j].name == k;
          assert LastNamed(ss, k) == LastNamed(init, k);
        }
      }
    }
  }

  lemma RecordAppend(d: map<string, Spec>, ss: seq<Spec>, s: Spec)
    ensures Record(d, ss + [s]) == Record(d, ss)[s.name := s]
  {
    assert (ss + [s])[..|ss|] == ss;
  }

  /** `provided` after mapping each provided spec, in order, to the provider spec. */
  function Provide(p: map<Spec, Spec>, ss: seq<Spec>, provider: Spec): map<Spec, Spec>
  {
    if ss == [] then p
    else Provide(p, ss[..|ss| - 1], provider)[ss[|ss| - 1] := provider]
  }

  /** After `provides`, every provided spec maps to the provider and every other entry is kept. */
  lemma {:induction false} ProvideLookup(p: map<Spec, Spec>, ss: seq<Spec>, provider: Spec, s: Spec)
    ensures s in Provide(p, ss, provider) <==> s in p || s in ss
    ensures s in Provide(p, ss, provider) ==> Provide(p, ss, provider)[s] == if s in ss then provider else p[s]
  {
    if ss != [] {
      var init := ss[..|ss| - 1];
      ProvideLookup(p, init, provider, s);
      assert ss == init + [ss[|ss| - 1]];
    }
  }

  lemma ProvideAppend(p: map<Spec, Spec>, ss: seq<Spec>, s: Spec, provider: Spec)
    ensures Provide(p, ss + [s], provider) == Provide(p, ss, provider)[s := provider]
  {
    assert (ss + [s])[..|ss|] == ss;
  }

  lemma {:induction false} RecordConcat(d: map<string, Spec>, a: seq<Spec>, b: seq<Spec>)
    ensures Record(d, a + b) == Record(Record(d, a), b)
    decreases |b|
  {
    if b == [] {
      assert a + b == a;
    } else {
      var init := b[..|b| - 1];
      RecordConcat(d, a, init);
      assert (a + b)[..|a + b| - 1] == a + init;
    }
  }

  lemma {:induction false} ProvideConcat(p: map<Spec, Spec>, a: seq<Spec>, b: seq<Spec>, provider: Spec)
    ensures Provide(p, a + b, provider) == Provide(Provide(p, a, provider), b, provider)
    decreases |b|
  {
    if b == [] {
      assert a + b == a;
    } else {
      var init := b[..|b| - 1];
      ProvideConcat(p, a, init, provider);
      assert (a + b)[..|a + b| - 1] == a + init;
    }
  }

  /** `patches` after one more patch for `when`: a new one-element list, or the old list and the patch. */
  function AppendPatch(m: map<Spec, seq<Patch>>, when: Spec, p: Patch): (r: map<Spec, seq<Patch>>)
    ensures r.Keys == m.Keys + {when}
    ensures r[when] == (if when in m then m[when] else []) + [p]
    ensures forall w :: w in m && w != when ==> r[w] == m[w]
  {
    if when !in m then m[when := [p]] else m[when := m[when] + [p]]
  }

  /** `patches` after declaring each of `ps` in turn for the same spec. */
  function AddPatches(m: map<Spec, seq<Patch>>, when: Spec, ps: seq<Patch>): (r: map<Spec, seq<Patch>>)
    ensures forall w :: w in m && w != when ==> w in r && r[w] == m[w]
  {
    if ps == [] then m else AppendPatch(AddPatches(m, when, ps[..|ps| - 1]), when, ps[|ps| - 1])
  }

  /** Patches declared one after another for a new spec are kept in call order. */
  lemma {:induction false} PatchesInCallOrder(m: map<Spec, seq<Patch>>, when: Spec, ps: seq<Patch>)
    requires when !in m && ps != []
    ensures when in AddPatches(m, when, ps) && AddPatches(m, when, ps)[when] == ps
  {
    var init, last := ps[..|ps| - 1], ps[|ps| - 1];
    var before := AddPatches(m, when, init);
    assert AddPatches(m, when, ps) == AppendPatch(before, when, last);
    if init == [] {
      assert before == m;
      assert [] + [last] == ps;
    } else {
      PatchesInCallOrder(m, when, init);
      assert init + [last] == ps;
    }
  }

  // ---------------------------------------------------------------------
  // The class body the relations update
  // ---------------------------------------------------------------------

  class PackageRelations {
    /** The name of the package whose class body calls the relations. */
    const name: string
    var versions: Option<map<Version, VersionDescriptor>>
    var patches: Option<map<Spec, seq<Patch>>>
    var dependencies: Option<map<string, Spec>>
    var provided: Option<map<Spec, Spec>>

    /** A class body that has declared nothing yet. */
    constructor (name: string)
      ensures this.name == name
      ensures versions.None? && patches.None? && dependencies.None? && provided.None?
    {
      this.name := name;
      versions, patches, dependencies, provided := None, None, None, None;
    }

    function Versions(): map<Version, VersionDescriptor>
      reads this
    {
      if versions.Some? then versions.value else map[]
    }

    function Patches(): map<Spec, seq<Patch>>
      reads this
    {
      if patches.Some? then patches.value else map[]
    }

    function Dependencies(): map<string, Spec>
      reads this
    {
      if dependencies.Some? then dependencies.value else map[]
    }

    function Provided(): map<Spec, Spec>
      reads this
    {
      if provided.Some? then provided.value else map[]
    }

    /** `version(ver, checksum, url=...)`: stores the descriptor under the version and makes sure `patches` exists. */
    method AddVersion(ver: string, checksum: string, url: Option<string>)
      modifies this
      ensures versions == Some(old(Versions())[Version(ver) := VersionDescriptor(checksum, url)])
      ensures patches == Some(old(Patches()))
      ensures dependencies == old(dependencies) && provided == old(provided)
    {
      if versions.None? {
        versions := Some(map[]);
      }
      if patches.None? {
        patches := Some(map[]);
      }
      versions := Some(versions.value[Version(ver) := VersionDescriptor(checksum, url)]);
    }

    /**
     * `version` called twice for one version: the second descriptor replaces
     * the first, the other versions stay as they were and `patches` exists.
     */
    method VersionRedeclared(ver: string, checksum: string, url: Option<string>, checksum2: string, url2: Option<string>)
      modifies this
      ensures versions == Some(old(Versions())[Version(ver) := VersionDescriptor(checksum2, url2)])
      ensures Versions()[Version(ver)] == VersionDescriptor(checksum2, url2)
      ensures forall v :: v != Version(ver) && v in old(Versions()) ==> v in Versions() && Versions()[v] == old(Versions())[v]
      ensures patches == Some(old(Patches()))
      ensures dependencies == old(dependencies) && provided == old(provided)
    {
      ghost var before := Versions();
      var v, first, second := Version(ver), VersionDescriptor(checksum, url), VersionDescriptor(checksum2, url2);
      AddVersion(ver, checksum, url);
      AddVersion(ver, checksum2, url2);
      assert before[v := first][v := second] == before[v := second];
    }

    /**
     * `depends_on(*specs)`: files each parsed spec under its name, raising
     * CircularReferenceError at the first spec that names this package.
     * The specs filed before the error stay filed.
     */
    method DependsOn(strings: seq<string>) returns (err: Option<RelationError>)
      modifies this
      ensures dependencies == Some(Record(old(Dependencies()), Accept(name, ParseAll(strings)).specs))
      ensures err == Accept(name, ParseAll(strings)).error
      ensures versions == old(versions) && patches == old(patches) && provided == old(provided)
    {
      if dependencies.None? {
        dependencies := Some(map[]);
      }
      ghost var d0 := dependencies.value;
      ghost var taken: seq<Spec> := [];
      ghost var rs := ParseAll(strings);
      RemainingStart(name, rs);
      var i := 0;
      err := None;
      while i < |strings| && err.None?
        invariant 0 <= i <= |strings|
        invariant dependencies == Some(Record(d0, taken))
        invariant err.None? ==> Remaining(name, rs, taken, i)
        invariant err.Some? ==> Accept(name, rs) == Accepted(taken, err)
        invariant versions == old(versions) && patches == old(patches) && provided == old(provided)
      {
        err, taken := FileNext(strings, i, d0, taken);
        i := i + 1;
      }
      if err.None? {
        RemainingDone(name, rs, taken);
      }
    }

    /**
     * `provides(*specs, when=...)`: maps each parsed spec to the provider
     * spec, which defaults to the bare package; a spec naming this package
     * raises CircularReferenceError reporting the relation `depends_on`.
     */
    method Provides(strings: seq<string>, when: Option<Spec>) returns (err: Option<RelationError>)
      modifies this
      ensures provided == Some(Provide(old(Provided()), Accept(name, ParseAll(strings)).specs, if when.Some? then when.value else Bare(name)))
      ensures err == Accept(name, ParseAll(strings)).error
      ensures versions == old(versions) && patches == old(patches) && dependencies == old(dependencies)
    {
      var provider := if when.Some? then when.value else Bare(name);
      if provided.None? {
        provided := Some(map[]);
      }
      ghost var p0 := provided.value;
      ghost var taken: seq<Spec> := [];
      assert Provide(p0, taken, provider) == p0;
      ghost var rs := ParseAll(strings);
      RemainingStart(name, rs);
      var i := 0;
      err := None;
      while i < |strings| && err.None?
        invariant 0 <= i <= |strings|
        invariant provided == Some(Provide(p0, taken, provider))
        invariant err.None? ==> Remaining(name, rs, taken, i)
        invariant err.Some? ==> Accept(name, rs) == Accepted(taken, err)
        invariant versions == old(versions) && patches == old(patches) && dependencies == old(dependencies)
      {
        err, taken := ProvideNext(strings, i, provider, p0, taken);
        i := i + 1;
      }
      if err.None? {
        RemainingDone(name, rs, taken);
      }
    }

    /** The `i`-th string of `depends_on`, after the specs `taken` from the strings before it. */
    method FileNext(strings: seq<string>, i: nat, ghost d0: map<string, Spec>, ghost taken: seq<Spec>)
      returns (err: Option<RelationError>, ghost taken': seq<Spec>)
      requires i < |strings| && Remaining(name, ParseAll(strings), taken, i)
      requires dependencies == Some(Record(d0, taken))
      modifies this
      ensures dependencies == Some(Record(d0, taken'))
      ensures err.None? ==> Remaining(name, ParseAll(strings), taken', i + 1)
      ensures err.Some? ==> Accept(name, ParseAll(strings)) == Accepted(taken', err)
      ensures versions == old(versions) && patches == old(patches) && provided == old(provided)
    {
      ghost var rs := ParseAll(strings);
      ghost var one := AcceptOne(name, rs[i]);
      err := FileString(strings[i]);
      RecordConcat(d0, taken, one.specs);
      if err.Some? {
        RemainingStop(name, rs, taken, i);
      } else {
        RemainingNext(name, rs, taken, i);
      }
      taken' := taken + one.specs;
    }

    /** The `i`-th string of `provides`, after the specs `taken` from the strings before it. */
    method ProvideNext(strings: seq<string>, i: nat, provider: Spec, ghost p0: map<Spec, Spec>, ghost taken: seq<Spec>)
      returns (err: Option<RelationError>, ghost taken': seq<Spec>)
      requires i < |strings| && Remaining(name, ParseAll(strings), taken, i)
      requires provided == Some(Provide(p0, taken, provider))
      modifies this
      ensures provided == Some(Provide(p0, taken', provider))
      ensures err.None? ==> Remaining(name, ParseAll(strings), taken', i + 1)
      ensures err.Some? ==> Accept(name, ParseAll(strings)) == Accepted(taken', err)
      ensures versions == old(versions) && patches == old(patches) && dependencies == old(dependencies)
    {
      ghost var rs := ParseAll(strings);
      ghost var one := AcceptOne(name, rs[i]);
      err := ProvideString(strings[i], provider);
      ProvideConcat(p0, taken, one.specs, provider);
      if err.Some? {
        RemainingStop(name, rs, taken, i);
      } else {
        RemainingNext(name, rs, taken, i);
      }
      taken' := taken + one.specs;
    }

    /** One string of `depends_on`: parses it and files its specs. */
    method FileString(s: string) returns (err: Option<RelationError>)
      requires dependencies.Some?
      modifies this
      ensures dependencies == Some(Record(old(dependencies.value), AcceptOne(name, Parse(s)).specs))
      ensures err == AcceptOne(name, Parse(s)).error
      ensures versions == old(versions) && patches == old(patches) && provided == old(provided)
    {
      var parsed := Parse(s);
      if parsed.Failure? {
        return Some(SpecSyntax(parsed.error));
      }
      err := FileSpecs(parsed.value);
    }

    /** The specs of one string of `depends_on`, filed in order up to the first one that names this package. */
    method FileSpecs(ss: seq<Spec>) returns (err: Option<RelationError>)
      requires dependencies.Some?
      modifies this
      ensures dependencies == Some(Record(old(dependencies.value), Expected(name, ss).specs))
      ensures err == Expected(name, ss).error
      ensures versions == old(versions) && patches == old(patches) && provided == old(provided)
    {
      ghost var d0 := dependencies.value;
      var k := 0;
      while k < |ss|
        invariant 0 <= k <= FirstNamed(ss, name)
        invariant dependencies == Some(Record(d0, ss[..k]))
        invariant versions == old(versions) && patches == old(patches) && provided == old(provided)
      {
        if ss[k].name == name {
          return Some(CircularReference("depends_on", name));
        }
        RecordAppend(d0, ss[..k], ss[k]);
        assert ss[..k + 1] == ss[..k] + [ss[k]];
        dependencies := Some(dependencies.value[ss[k].name := ss[k]]);
        k := k + 1;
      }
      assert ss[..k] == ss;
      err := None;
    }

    /** One string of `provides`: parses it and maps its specs to the provider. */
    method ProvideString(s: string, provider: Spec) returns (err: Option<RelationError>)
      requires provided.Some?
      modifies this
      ensures provided == Some(Provide(old(provided.value), AcceptOne(name, Parse(s)).specs, provider))
      ensures err == AcceptOne(name, Parse(s)).error
      ensures versions == old(versions) && patches == old(patches) && dependencies == old(dependencies)
    {
      var parsed := Parse(s);
      if parsed.Failure? {
        return Some(SpecSyntax(parsed.error));
      }
      err := ProvideSpecs(parsed.value, provider);
    }

    /** The specs of one string of `provides`, mapped in order to the provider up to the first one that names this package. */
    method ProvideSpecs(ss: seq<Spec>, provider: Spec) returns (err: Option<RelationError>)
      requires provided.Some?
      modifies this
      ensures provided == Some(Provide(old(provided.value), Expected(name, ss).specs, provider))
      ensures err == Expected(name, ss).error
      ensures versions == old(versions) && patches == old(patches) && dependencies == old(dependencies)
    {
      ghost var p0 := provided.value;
      var k := 0;
      assert Provide(p0, ss[..0], provider) == p0;
      while k < |ss|
        invariant 0 <= k <= FirstNamed(ss, name)
        invariant provided == Some(Provide(p0, ss[..k], provider))
        invariant versions == old(versions) && patches == old(patches) && dependencies == old(dependencies)
      {
        if ss[k].name == name {
          return Some(CircularReference("depends_on", name));
        }
        ProvideAppend(p0, ss[..k], ss[k], provider);
        assert ss[..k + 1] == ss[..k] + [ss[k]];
        provided := Some(provided.value[ss[k] := provider]);
        k := k + 1;
      }
      assert ss[..k] == ss;
      err := None;
    }

    /**
     * `patch(url_or_filename, level=1, when=...)`: appends a patch of this
     * package to the list kept for the when-spec, which defaults to the bare
     * package.
     */
    method AddPatch(urlOrFilename: string, level: Option<int>, when: Option<Spec>)
      modifies this
      ensures patches == Some(AppendPatch(old(Patches()), if when.Some? then when.value else Bare(name),
                                       Patch(name, urlOrFilename, if level.Some? then level.value else 1)))
      ensures versions == old(versions) && dependencies == old(dependencies) && provided == old(provided)
    {
      var lvl := if level.Some? then level.value else 1;
      var whenSpec := if when.Some? then when.value else Bare(name);
      if patches.None? {
        patches := Some(map[]);
      }
      var p := Patch(name, urlOrFilename, lvl);
      if whenSpec !in patches.value {
        patches := Some(patches.value[whenSpec := [p]]);
      } else {
        patches := Some(patches.value[whenSpec := patches.value[whenSpec] + [p]]);
      }
    }

    /** `conflicts(*specs)`: declared but not implemented; it changes nothing. */
    method Conflicts(specs: seq<string>)
      modifies this
      ensures unchanged(this)
    {
    }
  }
}
