# Spack spec core in Dafny

This project models three pieces of Spack's package-description core:

- **The spec language.** A spec is a package name with constraints on its version, compiler, build
  variants and target architecture, plus the specs of its dependencies. The model covers the lexer,
  the recursive-descent parser, the canonical renderer, `satisfies`, and the in-place `constrain`.
- **Multimethod dispatch.** A package declares one method several times, each time with a `when`
  guard, and may add an unguarded default. A call runs the declaration that matches the concrete spec
  of the package instance.
- **Package relations.** These are the directives a package class body calls: `version`,
  `depends_on`, `provides`, `patch` and `conflicts`. Each one updates a dictionary of the class body.

The implementations of `spack.spec`, `spack.parse`, `spack.version` and `spack.multimethod` are not
part of this model. Their behaviour is rebuilt from what the test suites
`lib/spack/spack/test/spec_syntax.py` and `lib/spack/spack/test/multimethod.py` assert. The
relations are modelled from `lib/spack/spack/relations.py` itself.

Modules, one per component:

| file | module | what it holds |
|---|---|---|
| `wrappers.dfy` | `Wrappers` | `Option`, `Result` and `Outcome` for the error paths |
| `strings.dfy` | `Strings` | code-point string order and `sorted(keys)` |
| `versions.dfy` | `Versions` | versions split into segments, their order, and inclusive version ranges |
| `version_lists.dfy` | `VersionLists` | normalized lists of ranges, plus `Add` and `Intersect` |
| `lexer.dfy` | `SpecLexer` | the tokens and the scanner |
| `specs.dfy` | `Specs` | the `Spec` value, `Satisfies`, `ConstrainSpec`, and the algebra of constrain |
| `parser.dfy` | `SpecParser` | recursive descent and the parse-error cases |
| `render.dfy` | `SpecRender` | the canonical text, and the proof that parsing inverts it |
| `canonical.dfy` | `Canonical` | input-order independence of the canonical form |
| `option_order.dfy` | `OptionOrder` | options after a name in any order: what a node depends on, and what it does not |
| `option_order_examples.dfy` | `OptionOrderExamples` | the reordered-options case of the spec tests |
| `spec_node.dfy` | `SpecNodes` | a mutable spec object, with `Constrain` done as validate-then-commit |
| `spec_examples.dfy` | `SpecExamples` | the satisfaction and constraint cases of the spec tests |
| `multimethod.dfy` | `Multimethod`, `MultimethodExamples` | dispatch and the dispatch test cases |
| `relations.dfy` | `Relations` | the relation directives over a class-body object |

The main facts proved:

- Parsing the canonical text of a spec gives that spec back.
- The options after a package name may be written in any order: the node depends only on which
  options are written, except that several `@` lists merge in the order written.
- A repeated variant or a second compiler at one node is an error wherever it is written.
- Whitespace between tokens does not change the token stream, and ` -` scans like `~`.
- `constrain` succeeds exactly when the two specs satisfy each other. Its result is the greatest
  spec below both inputs. It is commutative, idempotent and independent of the order of application,
  and a spec constrained by itself is unchanged.
- Dispatch picks the first guard the spec satisfies, then the default, and otherwise raises
  NoSuchMethodError.
- `depends_on` and `provides` stop at the first spec that names the package itself, and keep what
  they recorded before it.

## Model

| member | source | states |
|---|---|---|
| `Versions.VersionOrder` | lib/spack/spack/test/spec_syntax.py:128-130 | The version order that sorts alternatives is a strict total order: irreflexive, transitive and total. |
| `Versions.MeetInRange` | lib/spack/spack/test/spec_syntax.py:164-167 | A version lies in the intersection of two ranges iff it lies in both. |
| `Versions.MeetCommutes` | lib/spack/spack/test/spec_syntax.py:68-70 | Range intersection does not depend on operand order. |
| `Versions.HullInRange` | lib/spack/spack/test/spec_syntax.py:119-122 | Merging two overlapping ranges admits exactly the versions of either. |
| `Versions.MeetStaggered` | lib/spack/spack/test/spec_syntax.py:165 | `a:b` meets `c:d` with a <= c <= b <= d in `c:b`, which is not empty. |
| `Versions.SeparatedDisjoint` | lib/spack/spack/test/spec_syntax.py:180 | Ranges `a:b` and `c:d` with b < c share no version, in either order. |
| `VersionLists.Add` | lib/spack/spack/test/spec_syntax.py:119-122 | Adding a range keeps a list normalized. The new list admits exactly the old versions and those of the range. A range overlapping nothing is inserted unchanged. |
| `VersionLists.AddAll` | lib/spack/spack/test/spec_syntax.py:116-117 | Adding `r1,r2,...` one after another gives a normalized list that admits exactly the old versions and those of every `ri`. |
| `VersionLists.Intersect` | lib/spack/spack/test/spec_syntax.py:164-167 | The intersection of two lists is normalized and admits exactly the versions both lists admit. |
| `VersionLists.IntersectEmptyIffDisjoint` | lib/spack/spack/test/spec_syntax.py:179-181 | The intersection is empty iff no range of one list overlaps a range of the other. |
| `VersionLists.ListsOverlapIffCommonVersion` | lib/spack/spack/test/spec_syntax.py:63-66 | Two lists overlap iff some version is admitted by both. |
| `VersionLists.IntersectCommutes` | lib/spack/spack/test/spec_syntax.py:68-70 | Intersecting normalized lists commutes. |
| `VersionLists.IntersectAssociates` | lib/spack/spack/test/spec_syntax.py:84-89 | Intersecting normalized lists is associative. |
| `VersionLists.IntersectAny` | lib/spack/spack/test/spec_syntax.py:132 | The unconstrained list `@:` is the identity of intersection. |
| `VersionLists.IntersectSelf` | lib/spack/spack/test/spec_syntax.py:175 | A normalized list intersected with itself is unchanged. |
| `VersionLists.IntersectAbsorbs` | lib/spack/spack/test/spec_syntax.py:170 | Intersecting a second time with the same list changes nothing. |
| `VersionLists.IntersectSingletons` | lib/spack/spack/test/spec_syntax.py:165 | Two single ranges intersect to their meet, or to nothing when they are disjoint. |
| `VersionLists.NormalizedUnique` | lib/spack/spack/test/spec_syntax.py:119-130 | A normalized list is determined by its set of ranges, so the canonical list of alternatives is unique. |
| `SpecLexer.PunctToken` | lib/spack/spack/test/spec_syntax.py:7-29 | The single-character tokens. `-` and `~` are both OFF, and none of them is whitespace or a word character. |
| `SpecLexer.IdentLength` | lib/spack/spack/test/spec_syntax.py:7-29 | An identifier runs over word characters, dots and dashes as far as possible, and the character after it cannot extend it. |
| `SpecLexer.Lex` | lib/spack/spack/test/spec_syntax.py:7-29 | On success every ID token is a whole identifier. On failure the error carries the unscanned rest, which starts with a character no token matches. |
| `SpecLexer.LexAppend` | lib/spack/spack/test/spec_syntax.py:209-225 | Two pieces joined where no identifier can continue lex as the two token streams one after the other. |
| `SpecLexer.LexSkipsSpace` | lib/spack/spack/test/spec_syntax.py:222-225 | Leading whitespace produces no token. |
| `SpecLexer.LexLayout` | lib/spack/spack/test/spec_syntax.py:209-225 | Any spacing of a token stream, with `-` or `~` for OFF, lexes back to that stream, provided a blank separates an identifier from a following identifier or `-`. |
| `SpecLexer.LexSpell` | lib/spack/spack/test/spec_syntax.py:201-207 | The minimal-space spelling of a token stream lexes back to it. |
| `SpecLexer.LexOff` | lib/spack/spack/test/spec_syntax.py:24 | `-` and `~` at the start of the input both give the OFF token. |
| `SpecLexer.LexSpacedDash` | lib/spack/spack/test/spec_syntax.py:199-207 | `p -q` lexes exactly as `p~q`, whatever `p` and `q` are. |
| `SpecLexer.LexGluedFirst` | lib/spack/spack/test/spec_syntax.py:192-197 | `w-q` with `w` an identifier scans a first identifier longer than `w`. |
| `SpecLexer.LexGluedDash` | lib/spack/spack/test/spec_syntax.py:192-197 | `p w-q` gives a different token stream from `p w~q`, so the test's ambiguous input does not give the reference stream. |
| `SpecParser.ExpectId` | lib/spack/spack/test/spec_syntax.py:101-104 | Succeeds iff the next token is an identifier, with its text. |
| `SpecParser.ParseVersion` | lib/spack/spack/test/spec_syntax.py:110-114 | One alternative `v`, `v:`, `:w`, `v:w` or `:` gives a non-empty range and consumes tokens. |
| `SpecParser.ParseVersionList` | lib/spack/spack/test/spec_syntax.py:116-117 | Comma-separated alternatives give a non-empty list of non-empty ranges. |
| `SpecParser.Collect` | lib/spack/spack/test/spec_syntax.py:119-122 | The parsed alternatives merge into a normalized, non-empty list admitting exactly their versions. |
| `SpecParser.ParseCompiler` | lib/spack/spack/test/spec_syntax.py:116-117 | `%name` and optional `@list` give a compiler with a valid version list. |
| `SpecParser.ParseOptions` | lib/spack/spack/test/spec_syntax.py:140-153 | Options keep the draft well formed and its name unchanged, and stop at a token that starts no option. |
| `SpecParser.Finish` | lib/spack/spack/test/spec_syntax.py:132 | A node with no `@` admits any version, and the finished node is well formed. |
| `SpecParser.ParseNode` | lib/spack/spack/test/spec_syntax.py:101-104 | A node is well formed, named by its identifier, without dependencies, and followed by the end or a token that starts no option. |
| `SpecParser.ParseSpecs` | lib/spack/spack/test/spec_syntax.py:106-108 | The top-level loop yields specs whose dependencies are leaves filed under their names. |
| `SpecParser.Parse` | lib/spack/spack/test/spec_syntax.py:47 | Lexing then parsing yields well-formed flat specs. |
| `SpecParser.ParseLayout` | lib/spack/spack/test/spec_syntax.py:209-225 | Every spacing of a token stream parses like the stream itself. |
| `SpecParser.DoubleAt` | lib/spack/spack/test/spec_syntax.py:135 | `x@@v` is a parse error. |
| `SpecParser.DependencyDoubleAt` | lib/spack/spack/test/spec_syntax.py:136 | `x ^y@@v` is a parse error. |
| `SpecParser.DoubleColonAfterVersion` | lib/spack/spack/test/spec_syntax.py:137 | `x@v::` is a parse error: the second colon is unexpected. |
| `SpecParser.DoubleColonAfterName` | lib/spack/spack/test/spec_syntax.py:138 | `x::` is a parse error. |
| `SpecParser.VariantRepeated` | lib/spack/spack/test/spec_syntax.py:140-142 | Once a node has a variant, writing that variant again, with either polarity, is DuplicateVariantError. |
| `SpecParser.OptionsKeep` | lib/spack/spack/test/spec_syntax.py:140-153 | Parsing more options never drops or changes a recorded variant, and never replaces a recorded compiler. |
| `SpecParser.CompilerRepeated` | lib/spack/spack/test/spec_syntax.py:147-153 | Once a node has a compiler, a second `%name`, with or without its own `@` list, is DuplicateCompilerError for that node. |
| `SpecParser.DuplicateVariantRejected` | lib/spack/spack/test/spec_syntax.py:140-141 | `x+n+n`, with any two polarities, is DuplicateVariantError. |
| `SpecParser.VersionedDuplicateVariantRejected` | lib/spack/spack/test/spec_syntax.py:141 | `x@v+n+n`, the test's `x@1.2+debug+debug` for any x, v and n and with any two polarities, is DuplicateVariantError. |
| `SpecParser.DependencyDuplicateVariant` | lib/spack/spack/test/spec_syntax.py:142 | The same inside a dependency: `x ^y+n+n`. |
| `SpecParser.DependencyVersionedDuplicateVariant` | lib/spack/spack/test/spec_syntax.py:142 | `x ^y@v+n+n`, the test's `x ^y@1.2+debug+debug`, is DuplicateVariantError. |
| `SpecParser.DuplicateCompilerRejected` | lib/spack/spack/test/spec_syntax.py:148-150 | A second `%` at a node is DuplicateCompilerError for that node, with the same compiler name or another, and whether or not the second has an `@` list. |
| `SpecParser.DependencyDuplicateCompiler` | lib/spack/spack/test/spec_syntax.py:151-153 | The same inside a dependency, reported for the dependency. |
| `SpecParser.SameDependencyNode` | lib/spack/spack/test/spec_syntax.py:124-130 | Two texts for the dependency `y` that parse to the same node give the same `x ^y` specs. |
| `SpecParser.DuplicateDependencyRejected` | lib/spack/spack/test/spec_syntax.py:145 | `x ^y ^y` is DuplicateDependencyError. |
| `SpecParser.BareWithDependency` | lib/spack/spack/test/spec_syntax.py:107 | `x ^y` files `y` as the dependency of `x`. |
| `SpecParser.DependencyFirst` | lib/spack/spack/test/spec_syntax.py:106-108 | `^y` with no package before it is an error. |
| `SpecRender.LexRender` | lib/spack/spack/test/spec_syntax.py:45-49 | `Render`, the canonical text of a printable spec, lexes to the spec's canonical tokens. |
| `SpecRender.RenderRoundTrip` | lib/spack/spack/test/spec_syntax.py:36-49 | Parsing `Render(s)`, the canonical text of a printable spec, gives exactly that one spec. |
| `SpecRender.CanonicalTextRoundTrip` | lib/spack/spack/test/spec_syntax.py:36-49 | A canonical text parses to one spec whose canonical text is the input itself, as `check_parse` compares `str(spec)` with its expected text. |
| `SpecRender.ParseList` | lib/spack/spack/test/spec_syntax.py:116-117 | The tokens of any list of non-empty alternatives parse back to that list, in the order written, and stop before a token that does not continue it. |
| `Canonical.VersionOrderIrrelevant` | lib/spack/spack/test/spec_syntax.py:119-122 | Disjoint alternatives written in any order merge to the same normalized list. |
| `Canonical.VariantOrderIrrelevant` | lib/spack/spack/test/spec_syntax.py:124-130 | Two variants of different names may be written in either order. `OptionOrder` covers options of different kinds. |
| `Canonical.DependencyOrderIrrelevant` | lib/spack/spack/test/spec_syntax.py:124-126 | Two dependencies of different names may be written in either order. |
| `Canonical.AddAllKeepsDisjoint` | lib/spack/spack/test/spec_syntax.py:119-122 | Adding pairwise-disjoint alternatives keeps exactly those ranges. |
| `Canonical.UnboundedIsNothing` | lib/spack/spack/test/spec_syntax.py:132 | A node written with `@:` is the node written without it. |
| `Canonical.UnboundedParsesBare` | lib/spack/spack/test/spec_syntax.py:132 | `x@: ^y@:` parses to `x` depending on the bare `y`. |
| `Canonical.BareRendersPlain` | lib/spack/spack/test/spec_syntax.py:132 | That spec renders as the tokens of `x^y`. |
| `OptionOrder.OptionsParse` | lib/spack/spack/test/spec_syntax.py:124-130 | Parsing the tokens of well-formed options one after another is applying the options in turn to the draft node, and stops where they end. |
| `OptionOrder.ApplyAllSettles` | lib/spack/spack/test/spec_syntax.py:124-130 | Applying options succeeds iff they fit the node: no variant twice, at most one compiler and one architecture. The node then depends only on the multiset of options and the `@` alternatives in written order. |
| `OptionOrder.OptionsSettle` | lib/spack/spack/test/spec_syntax.py:124-130 | Options that do not fit fail to parse. Options that fit parse to the settled node, which is well formed. |
| `OptionOrder.OptionOrderIrrelevant` | lib/spack/spack/test/spec_syntax.py:124-130 | Two option sequences with the same options and `@` alternatives that merge to the same list fail together or parse to the same node. |
| `OptionOrder.DisjointOptionOrderIrrelevant` | lib/spack/spack/test/spec_syntax.py:128-130 | The same when the `@` alternatives are disjoint and are the same set, in any order. |
| `OptionOrder.SwapNeighbours` | lib/spack/spack/test/spec_syntax.py:124-130 | Swapping two neighbouring options that are not both `@` lists never changes what the node parses to, or whether it fails. |
| `OptionOrderExamples.WrittenParsesAsInOrder` | lib/spack/spack/test/spec_syntax.py:129-130 | For any variants of distinct names, written in two orders, and any four increasing versions: `y` followed by the variants, `@v4,v2:v3,v1` and `%intel@v4,v3,v2,v1` parses, and parses like `y@v1,v2:v3,v4%intel@v1,v2,v3,v4` followed by the variants in the other order. |
| `OptionOrderExamples.DependencyParsesAsInOrder` | lib/spack/spack/test/spec_syntax.py:129-130 | The same under a root `x`, as the dependency `x ^y...`. |
| `OptionOrderExamples.CanonicalizesOptions` | lib/spack/spack/test/spec_syntax.py:129-130 | The tokens of `x ^y~f+e~d+c~b+a@4,2:3,1%intel@4,3,2,1` parse like those of `x^y@1,2:3,4%intel@1,2,3,4+a~b+c~d+e~f`. |
| `Specs.RefinesBare` | lib/spack/spack/relations.py:129-130 | Every spec of a package refines the bare spec of that package, so a `provides` without `when` applies to every build of the package. |
| `Specs.SatisfiesBare` | lib/spack/spack/relations.py:141-148 | A well-formed spec of a package and the bare spec of that package satisfy each other, so a `patch` without `when` applies to every build. |
| `Specs.ConstrainCompiler` | lib/spack/spack/test/spec_syntax.py:166-167 | Merging compiler constraints succeeds iff they are compatible: one is absent, or the names match and the versions overlap. |
| `Specs.VariantConflicts` | lib/spack/spack/test/spec_syntax.py:183-184 | The variants in conflict are empty exactly when the variants both sides set agree. Otherwise they are the names set both ways. |
| `Specs.DependencyConflictsIffUnsatisfied` | lib/spack/spack/test/spec_syntax.py:161 | No dependency is in conflict exactly when every dependency both sides name satisfies its counterpart. |
| `Specs.ConstrainSpec` | lib/spack/spack/test/spec_syntax.py:84-95 | A successful constrain keeps the name of the receiver. |
| `Specs.ConstrainFields` | lib/spack/spack/test/spec_syntax.py:84-89 | A successful constrain admits exactly the versions both sides admit. It has a compiler iff either side names one, with that name and only versions each naming side admits. It sets every variant either side sets, with that side's value, takes the architecture of whichever side sets one, and has the dependencies of both sides. |
| `Specs.MergeSelf` | lib/spack/spack/test/spec_syntax.py:175 | Merging a spec's dependencies with themselves changes nothing. |
| `Specs.MergeCommutes` | lib/spack/spack/test/spec_syntax.py:68-70 | Merging dependencies does not depend on the order of the two sides. |
| `Specs.SatisfiesSymmetric` | lib/spack/spack/test/spec_syntax.py:63-66 | `Satisfies(a, b)`, the model of `a.satisfies(b)`, holds iff `Satisfies(b, a)` does. |
| `Specs.SatisfiesReflexive` | lib/spack/spack/test/spec_syntax.py:63-66 | Every well-formed spec satisfies itself. |
| `Specs.ConstrainSucceedsIffSatisfies` | lib/spack/spack/test/spec_syntax.py:63-72 | Constrain raises UnsatisfiableSpecError iff the specs do not satisfy each other. |
| `Specs.ConstrainRefinesBoth` | lib/spack/spack/test/spec_syntax.py:84-89 | The result of a constrain is at least as constrained as each input. |
| `Specs.ConstrainGreatest` | lib/spack/spack/test/spec_syntax.py:84-89 | Any well-formed spec below both inputs makes constrain succeed and lies below its result. |
| `Specs.CommonRefinementSatisfies` | lib/spack/spack/test/spec_syntax.py:63-66 | Two specs with a common well-formed refinement satisfy each other. |
| `Specs.RefinesSatisfies` | lib/spack/spack/test/spec_syntax.py:159-161 | A well-formed spec satisfies every spec it refines. |
| `Specs.RefinesReflexive` | lib/spack/spack/test/spec_syntax.py:84-89 | Every spec refines itself. |
| `Specs.RefinesTransitive` | lib/spack/spack/test/spec_syntax.py:84-89 | Refinement is transitive. |
| `Specs.ConstrainWf` | lib/spack/spack/test/spec_syntax.py:84-89 | Constraining well-formed specs gives a well-formed spec. |
| `Specs.ConstrainSelf` | lib/spack/spack/test/spec_syntax.py:175 | A well-formed spec constrained by itself is unchanged. |
| `Specs.ConstrainCommutes` | lib/spack/spack/test/spec_syntax.py:68-70 | `l.constrain(r)` and `r.constrain(l)` give the same spec. |
| `Specs.ConstrainIdempotent` | lib/spack/spack/test/spec_syntax.py:169-173 | Constraining again by the same spec changes nothing. |
| `Specs.ConstrainOrderIndependent` | lib/spack/spack/test/spec_syntax.py:84-89 | Constraining by `b` then `c` succeeds iff by `c` then `b` does, and the two results are equal. |
| `SpecNodes.CheckVariants` | lib/spack/spack/test/spec_syntax.py:183-184 | A loop over the other side's variant names passes iff no variant is set both ways, and otherwise reports the least conflicting name. |
| `SpecNodes.CheckDependencies` | lib/spack/spack/test/spec_syntax.py:161 | A loop over the dependency names passes iff every shared dependency constrains, and otherwise reports the least failing one with its cause. |
| `SpecNodes.Check` | lib/spack/spack/test/spec_syntax.py:92-95 | Running the checks without changing anything reports exactly the error `ConstrainSpec` would, or passes. |
| `SpecNodes.AddMissing` | lib/spack/spack/test/spec_syntax.py:169-173 | The loop adds the other side's variants that are missing and keeps the receiver's own. |
| `SpecNodes.MergeDependencyMaps` | lib/spack/spack/test/spec_syntax.py:161 | The loop builds exactly the merged dependency map. |
| `SpecNodes.SpecNode.constructor` | lib/spack/spack/test/spec_syntax.py:85-87 | A new node holds the given spec. |
| `SpecNodes.SpecNode.Constrain` | lib/spack/spack/test/spec_syntax.py:84-95 | In-place constrain. On success the object holds `ConstrainSpec(old, other)`. On failure it reports that error and nothing changes. |
| `SpecExamples.ExactWithinRange` | lib/spack/spack/test/spec_syntax.py:159-160 | A version inside a range and that range satisfy each other, and either constrain pins the version. |
| `SpecExamples.ThroughDependency` | lib/spack/spack/test/spec_syntax.py:161 | Dependencies that satisfy each other make their dependents satisfy and constrain each other, in both directions. |
| `SpecExamples.LibelfSatisfies` | lib/spack/spack/test/spec_syntax.py:159-161 | `libelf@0.8.13` and `libelf@0:1` satisfy each other, also under `libdwarf`. |
| `SpecExamples.StaggeredRanges` | lib/spack/spack/test/spec_syntax.py:165 | `@a:b` constrained by `@c:d` with a <= c <= b <= d is `@c:b`. |
| `SpecExamples.SeparatedRanges` | lib/spack/spack/test/spec_syntax.py:180 | `@a:b` constrained by `@c:d` with b < c fails on the versions. |
| `SpecExamples.StaggeredVersions` | lib/spack/spack/test/spec_syntax.py:165 | `libelf@0:2.5` constrained by `libelf@2.1:3` is `libelf@2.1:2.5`. |
| `SpecExamples.SeparatedVersions` | lib/spack/spack/test/spec_syntax.py:180 | `libelf@0:2.0` cannot be constrained by `libelf@2.1:3`. |
| `SpecExamples.StaggeredCompilers` | lib/spack/spack/test/spec_syntax.py:166-167 | Package and compiler version ranges are both intersected. |
| `SpecExamples.SeparatedCompilers` | lib/spack/spack/test/spec_syntax.py:181 | Disjoint compiler versions fail on the compiler. |
| `SpecExamples.LibelfCompilers` | lib/spack/spack/test/spec_syntax.py:166-167 | `libelf@0:2.5%gcc@2:4.6` constrained by `libelf@2.1:3%gcc@4.5:4.7` is `libelf@2.1:2.5%gcc@4.5:4.6`. |
| `SpecExamples.LibelfCompilerConflict` | lib/spack/spack/test/spec_syntax.py:181 | `libelf@0:2.5%gcc@4.8:4.9` cannot be constrained by `libelf@2.1:3%gcc@4.5:4.7`. |
| `SpecExamples.FlagsMerge` | lib/spack/spack/test/spec_syntax.py:169-186 | For variants and architecture alone: constrain unites the variants key-wise and adopts a missing architecture. It fails on a variant set both ways, or on two different architectures. |
| `SpecExamples.LibelfVariantsOn` | lib/spack/spack/test/spec_syntax.py:169-170 | `libelf+debug` constrained by `+foo` or `+debug+foo` is `libelf+debug+foo`. |
| `SpecExamples.LibelfVariantsOff` | lib/spack/spack/test/spec_syntax.py:172-173 | `libelf+debug` constrained by `~foo` or `+debug~foo` is `libelf+debug~foo`. |
| `SpecExamples.LibelfArchitecture` | lib/spack/spack/test/spec_syntax.py:175-176 | `=bgqos_0` is kept, or adopted by an unset architecture. |
| `SpecExamples.LibelfConflicts` | lib/spack/spack/test/spec_syntax.py:183-186 | `+debug` against `~debug`, `~foo` against `+foo`, and `=bgqos_0` against `=x86_54` are unsatisfiable. |
| `Multimethod.FirstMatch` | lib/spack/spack/test/multimethod.py:56-61 | The first declaration whose guard the spec satisfies, or none iff no guard is satisfied. |
| `Multimethod.Resolve` | lib/spack/spack/test/multimethod.py:40-53 | A chosen declaration is satisfied by the spec. The error names the method, the spec and every guard. |
| `Multimethod.Invoke` | lib/spack/spack/test/multimethod.py:40-53 | The call returns a value iff resolution succeeds. |
| `Multimethod.ResolveFailsIff` | lib/spack/spack/test/multimethod.py:40-42 | NoSuchMethodError iff there is no default and no guard is satisfied. |
| `Multimethod.ResolveDefaultIff` | lib/spack/spack/test/multimethod.py:83-91 | The default runs iff it exists and no guard is satisfied. |
| `Multimethod.ResolveGuardedIff` | lib/spack/spack/test/multimethod.py:56-61 | Declaration `i` runs iff its guard is the first one satisfied. |
| `Multimethod.InvokeFirstMatch` | lib/spack/spack/test/multimethod.py:45-53 | The first satisfied declaration's result is returned. |
| `Multimethod.InvokeDefault` | lib/spack/spack/test/multimethod.py:90-91 | With no guard satisfied, the default's result is returned. |
| `Multimethod.InvokeNoSuchMethod` | lib/spack/spack/test/multimethod.py:107-108 | With no guard satisfied and no default, the call raises NoSuchMethodError. |
| `Multimethod.NeverMoreSpecific` | lib/spack/spack/test/multimethod.py:118-121 | No guard is strictly more specific than another, because satisfaction is symmetric. |
| `Multimethod.MostSpecificIsFirstMatch` | lib/spack/spack/test/multimethod.py:118-121 | The rule "most specific guard, first declared among ties" picks the same declaration as first-match dispatch. |
| `Multimethod.SwapUnambiguous` | lib/spack/spack/test/multimethod.py:45-53 | Swapping two neighbouring declarations changes no call whose spec does not satisfy both of them. |
| `MultimethodExamples.InvokeSecond` | lib/spack/spack/test/multimethod.py:49-50 | The second declaration runs when it matches and the first does not. |
| `MultimethodExamples.InvokeThird` | lib/spack/spack/test/multimethod.py:52-53 | The third declaration runs when it is the first that matches. |
| `MultimethodExamples.SingleRanges` | lib/spack/spack/test/multimethod.py:45-61 | Specs with one range each satisfy each other iff the ranges overlap. |
| `MultimethodExamples.ExactOverlaps` | lib/spack/spack/test/multimethod.py:45-53 | Two exact versions overlap iff they are equal. |
| `MultimethodExamples.ExactMatch` | lib/spack/spack/test/multimethod.py:45-53 | `multimethod@v` satisfies `multimethod@w` iff v = w. |
| `MultimethodExamples.NoVersion2Missing` | lib/spack/spack/test/multimethod.py:40-42 | `no_version_2` on `@2.0` raises NoSuchMethodError. |
| `MultimethodExamples.NoVersion2First` | lib/spack/spack/test/multimethod.py:46-47 | `@1.0` returns 1. |
| `MultimethodExamples.NoVersion2Second` | lib/spack/spack/test/multimethod.py:49-50 | `@3.0` returns 3. |
| `MultimethodExamples.NoVersion2Third` | lib/spack/spack/test/multimethod.py:52-53 | `@4.0` returns 4. |
| `MultimethodExamples.VersionOverlapFirst` | lib/spack/spack/test/multimethod.py:57-58 | `@2.0` satisfies both overlapping guards and gets the first, so it returns 1. |
| `MultimethodExamples.VersionOverlapAbove` | lib/spack/spack/test/multimethod.py:60-61 | Any version above 4 gets the second guard, so it returns 2. |
| `MultimethodExamples.VersionOverlapSecond` | lib/spack/spack/test/multimethod.py:60-61 | `@5.0` returns 2. |
| `MultimethodExamples.CompilerMatch` | lib/spack/spack/test/multimethod.py:83-91 | `%c` satisfies `%d` iff c = d. |
| `MultimethodExamples.HasADefaultDispatch` | lib/spack/spack/test/multimethod.py:83-91 | `%gcc` returns 'gcc', `%intel` returns 'intel' and `%pgi` returns 'default'. |
| `MultimethodExamples.ArchitectureMatch` | lib/spack/spack/test/multimethod.py:94-105 | `=a` satisfies `=b` iff a = b. |
| `MultimethodExamples.ArchitectureFound` | lib/spack/spack/test/multimethod.py:94-105 | Each declared architecture returns its own name. |
| `MultimethodExamples.ArchitectureMissing` | lib/spack/spack/test/multimethod.py:107-108 | `=macos` raises NoSuchMethodError. |
| `MultimethodExamples.DifferentByDepDispatch` | lib/spack/spack/test/multimethod.py:115-121 | `^mpich`, or a dependency no guard names, returns 'mpich', the first declared option. |
| `MultimethodExamples.MpichMatch` | lib/spack/spack/test/multimethod.py:64-72 | `^mpich@r1` satisfies `^mpich@r2` iff the ranges overlap. |
| `MultimethodExamples.MpiVersionThree` | lib/spack/spack/test/multimethod.py:65-66 | `^mpich@3.0.4` returns 3. |
| `MultimethodExamples.MpiGuardMatches` | lib/spack/spack/test/multimethod.py:64-72 | The guard `^mpich@lo:` matches exactly the versions from `lo` on. |
| `MultimethodExamples.MpiVersionFromOne` | lib/spack/spack/test/multimethod.py:71-72 | Any mpich version from 1 up to, but not including, 2 returns 1. |
| `MultimethodExamples.MpiVersionOne` | lib/spack/spack/test/multimethod.py:71-72 | `^mpich@1.0` returns 1. |
| `Relations.Message` | lib/spack/spack/relations.py:176-190 | CircularReferenceError's message is `Package '<pkg>' cannot pass itself to <relation>.`. ScopeError's message is `Must invoke '<relation>' from inside a class definition!`. |
| `Relations.FirstNamed` | lib/spack/spack/relations.py:117-119 | The position of the first spec naming the package, with no such spec before it. |
| `Relations.AcceptOne` | lib/spack/spack/relations.py:116-120 | One string gives its specs up to the first one naming the package. Such a spec raises CircularReferenceError('depends_on'), and a bad string raises its parse error. |
| `Relations.Accept` | lib/spack/spack/relations.py:116-120 | The strings are taken in turn up to the first error. No spec taken names the package. |
| `Relations.AcceptParsed` | lib/spack/spack/relations.py:116-120 | When every string parses, all specs are taken, or the call stops at the first spec naming the package after taking those before it. |
| `Relations.ExpectedConcat` | lib/spack/spack/relations.py:116-120 | Specs from earlier strings stay taken when a later one raises. |
| `Relations.RecordLookup` | lib/spack/spack/relations.py:115-120 | After `depends_on`, each name maps to the last spec of that name, and names no spec mentions keep their earlier entry. |
| `Relations.RecordConcat` | lib/spack/spack/relations.py:116-120 | Recording one list after another is recording their concatenation. |
| `Relations.ProvideLookup` | lib/spack/spack/relations.py:132-137 | After `provides`, every provided spec maps to the provider spec and every other entry is kept. |
| `Relations.ProvideConcat` | lib/spack/spack/relations.py:133-137 | Providing one list after another is providing their concatenation. |
| `Relations.AppendPatch` | lib/spack/spack/relations.py:150-156 | One patch creates a one-element list for a new when-spec, or is appended to the existing list. Other entries are kept. |
| `Relations.AddPatches` | lib/spack/spack/relations.py:150-156 | Declaring patches for one when-spec leaves the other when-specs' lists untouched. |
| `Relations.PatchesInCallOrder` | lib/spack/spack/relations.py:150-156 | Patches declared one after another for a new when-spec are kept in call order. |
| `Relations.PackageRelations.VersionRedeclared` | lib/spack/spack/relations.py:97-107 | Two `version` calls for the same version leave the second descriptor in `versions`, and keep every other version, the patches, dependencies and provided. |
| `Relations.PackageRelations.constructor` | lib/spack/spack/relations.py:99-102 | A class body that has declared nothing yet has none of the dictionaries. |
| `Relations.PackageRelations.AddVersion` | lib/spack/spack/relations.py:97-107 | `versions[Version(ver)]` becomes the descriptor (checksum, url). `patches` is created if missing, and nothing else changes. |
| `Relations.PackageRelations.DependsOn` | lib/spack/spack/relations.py:110-120 | `dependencies` ends up as the old map with every accepted spec filed in order. The error is the first one raised, and the other dictionaries are unchanged. |
| `Relations.PackageRelations.FileString` | lib/spack/spack/relations.py:116-117 | One string of `depends_on` is parsed and its accepted specs filed. |
| `Relations.PackageRelations.FileSpecs` | lib/spack/spack/relations.py:117-120 | The loop files specs in order until one names the package, which raises CircularReferenceError. |
| `Relations.PackageRelations.FileNext` | lib/spack/spack/relations.py:116-120 | One iteration of the outer loop keeps what was filed equal to what the relation accepts. |
| `Relations.PackageRelations.Provides` | lib/spack/spack/relations.py:123-137 | Every accepted spec maps to the when-spec, which defaults to the bare package. Self-provision raises CircularReferenceError('depends_on'), and the other dictionaries are unchanged. |
| `Relations.PackageRelations.ProvideString` | lib/spack/spack/relations.py:133-134 | One string of `provides` is parsed and its accepted specs mapped to the provider. |
| `Relations.PackageRelations.ProvideSpecs` | lib/spack/spack/relations.py:134-137 | The loop maps specs to the provider in order until one names the package. |
| `Relations.PackageRelations.ProvideNext` | lib/spack/spack/relations.py:133-137 | One iteration of the outer loop keeps what was mapped equal to what the relation accepts. |
| `Relations.PackageRelations.AddPatch` | lib/spack/spack/relations.py:140-156 | Appends `Patch(pkg, url, level)` for the when-spec. The level defaults to 1 and the when-spec to the bare package, and the other dictionaries are unchanged. |
| `Relations.PackageRelations.Conflicts` | lib/spack/spack/relations.py:159-166 | Changes nothing. |

## Left out

- The parts of `spack.spec`, `spack.parse`, `spack.version` and `spack.multimethod` that the tests do
  not exercise are not part of this model. Only the behaviour the tests pin down is modelled.
- `lib/spack/spack/stage.py` is left out. It is all filesystem and network work: temporary
  directories, symlinks, downloads, mirrors and checksums.
- `lib/spack/spack/cmd/use.py` is left out: it is command-line argument setup only.
- `var/spack/packages/stat/package.py` is left out. Its `install()` runs the build, and its
  directives are only sample input to the relations.
- Virtual dependencies are left out. These are `provides("mpi")` and resolving `^mpich2` to the `mpi`
  it provides (`multimethod.py:68-69`, `124-129`). Resolving them needs a provider index over the
  package database, which is not part of this model.
- As a consequence, `multimethod^zmpi` is not shown to dispatch to 'zmpi' (`multimethod.py:112-113`).
  In Spack the two `^mpich`/`^zmpi` guards conflict through the virtual `mpi` both packages provide.
  Without a provider index, the model's `^zmpi` spec is compatible with the first guard, `^mpich`.
- `test_undefined_mpi_version` (`multimethod.py:75-80`) is left out: its own comment says it fails.
- The package database lookup (`spack.db.get`) and the mock packages are left out. Each
  multimethod's guards are written out in `MultimethodExamples` as the tests imply them.
- Python's attribute-lookup dispatch is left out. A method is an explicit `MultiMethod` value: its
  guarded declarations in order, plus an optional default. Declaration bodies are reduced to the value
  they return.
- `caller_locals()` and `get_calling_package_name()` in `relations.py` are left out. Both inspect the
  interpreter stack. The class body is a `PackageRelations` object, and its `name` is the calling
  package.
- ScopeError is never raised by the model, because a relation always has a `PackageRelations` to
  update. Only its message is modelled.
- `parse_anonymous_spec` is not part of this model. `provides` and `patch` take their `when` spec
  already parsed, and absent means the bare package.
- The `Patch` class is not part of this model. A patch is recorded as the triple
  (package, url or file name, level).
- Version equality is stricter than Spack's. Two texts with the same segments, such as `1.2` and
  `1-2`, are different versions in the model, ordered by their text. This keeps the order a strict
  total order on version values.
- The version order between a numeric and a non-numeric segment is an assumption: numeric is greater.
  No test in the source fixes it.
- A range whose low end is above its high end (`3:1`) is assumed to be a parse error.
- A second `=arch` at one node is assumed to be a duplicate-architecture error.
- A variant absent on one side is unconstrained: it never blocks `satisfies`.
- `Satisfies` is compatibility: every constraint both sides set must agree. This makes it symmetric,
  as `check_satisfies` (`spec_syntax.py:63-66`) requires of its examples. The "most specific guard"
  rule then reduces to first-match dispatch (`Multimethod.MostSpecificIsFirstMatch`).
- The order in which `constrain` checks fields is an assumption: name, versions, compiler, variants,
  architecture, dependencies. It decides which UnsatisfiableSpecError a spec with several conflicts
  reports.
- `^` attaches its spec to the last top-level spec, so a dependency of a dependency cannot be written.
  The round trip is proved for specs whose dependencies are leaves and whose texts are identifiers.
- The round trip is proved for one spec, not for several specs joined by spaces.
- Spack's check that a package name is a valid identifier (no `.`) is not part of this model. The
  model accepts any identifier token as a name.
- `OptionOrderExamples.CanonicalizesOptions`: stated on the token streams of the two texts of the test.
  That the texts lex to those streams is not stated for this instance. `SpecLexer.LexSpell` and
  `SpecLexer.LexLayout` give it for any spacing of a token stream.
- `Relations.Message`: a SpecSyntax error is rendered as the fixed text `Invalid spec`. The messages of
  parse errors come from `spack.parse`, which is not part of this model.
- `Specs.ConstrainSpec`: its own contract states only that the name is kept. What it computes is
  stated by `Specs.ConstrainFields`, `Specs.ConstrainSucceedsIffSatisfies`, `Specs.ConstrainRefinesBoth`,
  `Specs.ConstrainGreatest`, `Specs.ConstrainCommutes`, `Specs.ConstrainIdempotent` and
  `Specs.ConstrainOrderIndependent`.
- Integer width does not arise. Versions compare digit runs as unbounded naturals, as Python does.
