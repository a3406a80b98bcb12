# misskey-api-portiere: a Dafny model of the analysis engine

misskey-api-portiere checks Misskey's API endpoints statically. Every
`throw new ApiError(...)` in an endpoint file must carry an error `id` that
the endpoint's `meta.errors` metadata type declares. This project models
the engine in `src/index.ts` and proves properties of it. The engine has
three parts:

- **Endpoint classification** (`checkFile` and the head of `checkClass`).
  A candidate is a top-level class that is exported, not abstract and not
  ambient. A candidate is an endpoint when three things hold: its base
  expression is a plain identifier, that identifier has at least one
  definition, and the first definition lies in
  `<root>/packages/backend/src/server/api/endpoint-base.ts`. If the
  identifier has no definition at all, the whole run aborts.
  An endpoint without a type argument aborts it too.
- **Allowed-identifier extraction.** The metadata type's `errors`
  property gives a list of entries. Each entry's `id` property is kept
  when its type is a string literal type. The literal values, in property
  order and with duplicates, form the allowed list. The comparison target
  is the union of those literals, or `never` when the list is empty.
- **The throw-site ladder.** Every node of the file is visited in
  pre-order, children in `forEachChild` order. A class's decorators come
  before its type parameters, its `extends` clause, its `implements` types
  and its members. A `new` expression's callee comes before its type
  arguments and its arguments. The few nodes the model does not represent
  are listed under "Left out". For each
  `throw new X(...)`, four checks run in order and the first one that
  fails produces the one report for that site:
  1. `X`'s text is `ApiError`;
  2. there is a first argument;
  3. the first argument's type has an `id` property;
  4. that property's type is assignable to the target.

The TypeScript type checker is not modelled. Its queries are the function
fields of `Types.Checker`, and every result holds for every checker. The
queries about a node also take the path of the node's file, so two files
with the same text may resolve and type alike or not. A type carries a key
besides what the analysis reads of it, so types such as `any` and
`unknown` may be told apart. Where a property needs TypeScript's literal
and union semantics, it assumes `Types.LiteralSemantics` explicitly. The
reading in which the synthesized union is the error type is
`Types.UnionIsErrorType`, and `Scanner.ErrorTypedUnionNeverUndeclared`
states what the code then does.

Modules, one per component:

- `Wrappers`: `Option` and `Result`.
- `Syntax`: syntax nodes as a closed datatype, and their pre-order traversal.
- `Types`: the checker's interface.
- `Report`: diagnostics and their messages.
- `Metadata`: the allowed-identifier pipeline and the target.
- `Scanner`: the ladder, and the scan loop written as a method.
- `Analysis`: classification, `checkClass`, `checkFile`, `checkFiles`.
- `Properties`: lemmas about a whole file and a whole run.

`checkClass`'s scan appends to a mutable array from inside a callback.
Here it is the method `Scanner.Scan`, a `for` loop that accumulates a
sequence. The method is proved equal to the function `ScanReports`, which
the pure functions `ClassReports`, `CheckFile` and `CheckFiles` build on.
`Analysis.CheckClass` is the method form of `checkClass`, and it is proved
equal to `ClassReports`.

The model follows the code at four points where it is easy to read it
otherwise:

- Only zero definitions of the base identifier abort (`"not single"`).
  With several definitions the first one is used
  (`Properties.OnlyFirstDefinitionMatters`).
- The allowed identifiers are an ordered list that may hold duplicates,
  not a set.
- The sanctioned class is recognised by the callee's source text, which
  must be exactly `ApiError`, not by its declared name.
- Each endpoint scans the whole file against its own target. A file with
  N endpoints therefore checks every throw site N times
  (`Properties.TwoEndpointsScan`, `Analysis.CheckFile`). A throw site inside a class that
  is not itself a candidate (not exported, abstract or ambient) is still
  reported when another endpoint is in the same file
  (`Properties.ScanReachesWholeFile`). So the bound of no more reports
  than throw sites holds for each endpoint's scan, not for the file.

## Model

| member | source | states |
|---|---|---|
| `Syntax.SubtreeIsPreorder` | src/index.ts:99 | the traversal of a node is the node, then the traversals of its children in `forEachChild` order: a `new` expression's callee, type arguments and arguments; a class's decorators, type parameters, the base expression and type arguments of its `extends` clause, its `implements` types, then its members |
| `Syntax.SubtreeMembership` | src/index.ts:99 | a node is reached from `n` iff it is `n` or is reached from one of `n`'s children |
| `Syntax.Descendants` | src/index.ts:99 | `forEachDescendant` visits a node iff the node lies in the traversal of one of the file's top-level statements |
| `Syntax.NestedNodesAreDescendants` | src/index.ts:99 | `forEachDescendant` reaches every node nested anywhere in any top-level statement of the file |
| `Syntax.ForestMembership` | src/index.ts:99 | a node is visited exactly when it is in the subtree of one of the file's statements |
| `Types.GetProperty` | src/index.ts:121 | `getProperty("id")` gives a property with that name when the type has one; it gives nothing exactly when no property has that name |
| `Report.CreateError` | src/index.ts:36-51 | a report copies the node's start and end line and offset, the message and the file path unchanged |
| `Report.Message` | src/index.ts:113-131 | the three argument messages start with `invalid constructor argument: ` and the wrong-class message does not. The wrong-class message holds the callee's text between its fixed head and tail |
| `Report.MessagesDistinguishFindings` | src/index.ts:112-133 | the four messages are pairwise different. Two wrong-class messages are equal only for the same class text |
| `Metadata.ErrorsSymbols` | src/index.ts:77-79 | keeps exactly the metadata type's properties named `errors` |
| `Metadata.ErrorEntries` | src/index.ts:80-81 | gives exactly the properties of the types of the `errors` symbols |
| `Metadata.IdSymbols` | src/index.ts:82-83 | gives exactly the `id` properties of the entries' types; entries without one are dropped |
| `Metadata.LiteralValues` | src/index.ts:84-87 | gives exactly the literal values of the `id` types that are string literal types |
| `Metadata.AllowedIdentifiers` | src/index.ts:77-87 | without an `errors` property, the allowed list is empty |
| `Metadata.AllowedIdentifiersExactly` | src/index.ts:77-87 | a value is allowed iff some `errors` entry has an `id` whose type is that string literal |
| `Metadata.EntryIdentifiersAppend` | src/index.ts:77-87 | entries contribute in their order: the list for `a + b` is the list for `a` followed by the list for `b` |
| `Metadata.TargetOf` | src/index.ts:90-94 | the target is `never` exactly when the list is empty; otherwise it is the union of exactly the listed literals |
| `Metadata.TargetAcceptsExactlyAllowed` | src/index.ts:90-94 | under literal semantics, a literal `id` type is assignable to the target iff its value is allowed. With an empty list, no such type is assignable |
| `Scanner.Decide` | src/index.ts:100-133 | only a throw of a `new` expression can yield a finding. A wrong-class finding carries the callee's text, which is not `ApiError`. The other three findings arise only when the callee's text is `ApiError` |
| `Scanner.Verdict` | src/index.ts:112-133 | a node yields a report iff the ladder finds a fault. The report is placed at the throw statement, in the scanned file, with the finding's message |
| `Scanner.ScanReports` | src/index.ts:99-134 | a scan gives at most one report per visited node, and every report names the scanned file |
| `Scanner.Scan` | src/index.ts:99-134 | the loop's accumulated reports equal the reports of every visited node, in visiting order |
| `Scanner.ScanAppend` | src/index.ts:99-134 | the scan of `a + b` is the scan of `a` followed by the scan of `b` |
| `Scanner.ScanReportsExactly` | src/index.ts:99-134 | a report is produced exactly when it is the verdict of one of the visited nodes, stated both by position and by node |
| `Scanner.AtMostOneReportPerThrowSite` | src/index.ts:99-134 | one scan produces in total no more reports than it visits throw-of-`new` sites |
| `Scanner.OnlyThrowSitesReport` | src/index.ts:99-107 | removing every node that is not a throw of a `new` expression leaves the scan unchanged |
| `Scanner.ThrowSitesOnly` | src/index.ts:99-107 | keeps exactly the throw statements whose operand is a `new` expression |
| `Scanner.SilentExactlyWhenCompliant` | src/index.ts:109-134 | a node is silent iff it is not a throw of `new`, or it passes all four checks |
| `Scanner.FirstFailingCheckDecides` | src/index.ts:112-133 | each finding arises exactly when every earlier check passes and its own check fails |
| `Scanner.WrongClassIgnoresArguments` | src/index.ts:109-115 | a thrown class other than `ApiError` gives "instance of X is thrown instead of APIError", whatever the arguments, checker or target |
| `Scanner.LiteralIdDecidedByMembership` | src/index.ts:126-133 | for a literal `id`, `new ApiError` is silent iff the value is allowed, and is reported as undeclared otherwise, including always when the list is empty |
| `Scanner.ErrorTypedUnionNeverUndeclared` | src/index.ts:90-94 | if the synthesized union is the error type, a non-empty allowed list never yields the undeclared-id finding, whatever the `id`'s type |
| `Analysis.Candidates` | src/index.ts:140-143 | keeps exactly the top-level class declarations that are exported, not abstract and not ambient |
| `Analysis.CandidatesAppend` | src/index.ts:140-143 | the candidates keep statement order: those of `a + b` are those of `a` followed by those of `b` |
| `Analysis.Classify` | src/index.ts:59-94 | classification aborts with `BaseWithoutDefinition` iff the base is an identifier without definitions. It aborts with `MissingMetadataArgument` iff the first definition is in `endpoint-base.ts` and there is no type argument. A class is an endpoint only when its first definition is in `endpoint-base.ts` |
| `Analysis.ClassReports` | src/index.ts:59-136 | no `extends` clause, or a base that is not an identifier, gives `[]`. For an identifier base, the run aborts with `BaseWithoutDefinition` iff it has no definition. A first definition outside `endpoint-base.ts` gives `[]`. Otherwise the run aborts with `MissingMetadataArgument` iff there is no type argument. With a type argument, the result is the scan of the whole file against the target built from that argument. Every report names the class's file |
| `Analysis.CheckClass` | src/index.ts:53-137 | the early returns followed by the scan of the whole file compute exactly `ClassReports` |
| `Analysis.Then` | src/index.ts:144 | sequencing two steps gives the first fault, or else the concatenation of both report lists |
| `Analysis.CheckClasses` | src/index.ts:144 | the candidates pass iff every one classifies without a fault. Their reports are then the whole-file scans against each endpoint's target, in candidate order |
| `Analysis.CheckFile` | src/index.ts:139-145 | a file passes iff every candidate classifies without a fault. Its reports are then the whole-file scans against each endpoint's target, in statement order, and each names the file |
| `Analysis.CheckFiles` | src/index.ts:147-149 | every report of a passing run names one of the checked files |
| `Properties.EndpointExactly` | src/index.ts:59-94 | a class is an endpoint with target `t` iff all of these hold: its base is an identifier, the first definition is in the endpoint base file, it has a metadata type argument, and `t` comes from that argument's allowed list |
| `Properties.OnlyFirstDefinitionMatters` | src/index.ts:65-71 | only the first definition is read. Any list of definitions with the same first element gives the same classification |
| `Properties.NoEndpointNoReports` | src/index.ts:139-145 | a file none of whose candidates is an endpoint gives no report |
| `Properties.NoCandidateNoReports` | src/index.ts:140-144 | a file with no exported, concrete, non-ambient top-level class gives no report, whatever its body |
| `Properties.ScanReachesWholeFile` | src/index.ts:99-134 | an endpoint checks every throw site nested anywhere in the file against its own target, including sites in other and ineligible classes |
| `Properties.EndpointTargetsExactly` | src/index.ts:140-144 | the targets scanned for a file are exactly the targets of its candidates that classify as endpoints |
| `Properties.FileReportsExactly` | src/index.ts:99-145 | a report of a passing file is exactly the verdict of a visited node against the target of one of the file's endpoints |
| `Properties.SilentFileExactlyWhenCompliant` | src/index.ts:99-145 | a passing file gives no report iff every visited node passes the ladder against every endpoint's target. For one endpoint, that is its own target |
| `Properties.ReportsPerThrowSiteAtMostEndpoints` | src/index.ts:99-145 | a passing file with N endpoints gives in total at most N times as many reports as it has throw sites, and so at most the number of candidates times the number of throw sites |
| `Properties.CheckClassesAbortsOnFirstFault` | src/index.ts:139-145 | a file aborts with fault `f` iff some candidate's classification gives `f` and every earlier candidate's gives none |
| `Properties.TwoEndpointsScan` | src/index.ts:139-145 | a file with two endpoints reports the whole-file scan against the first target, followed by the whole-file scan against the second |
| `Properties.CheckFilesAppend` | src/index.ts:147-149 | reports come in file order: checking `a + b` is checking `a`, then `b` |
| `Properties.CheckFilesAbortsOnFirstFault` | src/index.ts:147-149 | the run aborts with fault `f` iff some file aborts with `f` and every earlier file passes |
| `Properties.CheckFilesSingle` | src/index.ts:147-149 | a run over one file gives exactly that file's result. With `CheckFilesAppend`, a passing run's reports are its files' reports, in file order |
| `Properties.RunReportsExactly` | src/index.ts:147-149 | a passing run passes every file, and a report is in the run iff it is in some file's reports |

## Left out

- Command-line parsing with `yargs` (src/index.ts:6-12): I/O plumbing. The `--root` value is the field `Context.projectRoot`.
- Project and tsconfig loading, and source-file enumeration (src/index.ts:14-19): file-system and library calls. The files are a parameter of `CheckFiles`.
- The type checker's internals: `getTypeAtLocation`, `getTypeOfSymbolAtLocation`, `getDefinitionNodes`, `isTypeAssignableTo`, the `ts.factory` union node and `getNeverType`. Each is a function field of `Types.Checker` or a constructor of `Types.Target`; subtyping is not re-implemented. A node's identity within the project is approximated by the node's value together with its file's path. A definition node is represented only by the path of its source file, the only thing the code reads of it.
- `Metadata.TargetAcceptsExactlyAllowed`: `Types.Target.Union` stands for the type `getTypeAtLocation` gives for the union node built with `ts.factory` (src/index.ts:90-94). `Types.LiteralSemantics` is assumed of that type; the code does not establish it. The possible discrepancy is recorded under "Findings".
- `Scanner.LiteralIdDecidedByMembership`: rests on the same assumption about the synthesized union as `TargetAcceptsExactlyAllowed`.
- `Types.GetProperty`: returns the first property of that name. TypeScript property names are unique within a type, so this is the only one.
- `Analysis.Classify` on an endpoint whose `extends` clause has no type arguments (src/index.ts:73-74): the code passes `undefined` to the checker, and what happens then is the library's behaviour. The model aborts with `MissingMetadataArgument`, on the assumption that the library dereferences the missing node and throws.
- Debug and diagnostic printing (`console.debug` at src/index.ts:88, 96-97, 110, 127, 129) and the final `console.error` loop (src/index.ts:151-153): output only. The rendering `<file>:<startLine> : <message>` is not modelled. The program sets no exit status of its own: a run with reports ends normally, and only an uncaught error, such as `not single` (a `Fault` here), ends it abnormally.
- Syntax nodes: the model only tells apart the kinds the code inspects (throw statement, `new` expression, identifier, class declaration). Every other kind is `Other`, with its children in `forEachChild` order.
- `Syntax.Subtree`: it leaves out three things. The first is a class's keyword modifiers and its name, an identifier. The second is the heritage-clause and expression-with-type-arguments nodes around the `extends` expression and the `implements` types; their contents are visited directly. None of these nodes is a throw statement, and none can hold one. The third is order: the `extends` clause is always visited before the `implements` types, even when the source writes `implements` first. TypeScript rejects that order.
- Determinism of repeated runs: every operation is a function of its inputs, so a second run over the same inputs gives the same reports. No separate lemma states this.

## Findings

| source | as written | input that shows it | evidently intended | confidence | as-written member | corrected member |
|---|---|---|---|---|---|---|
| src/index.ts:90-94 | the target is `getTypeAtLocation` of a union node built with `ts.factory`. TypeScript's `getTypeAtLocation` answers the error type, an `any`, for a node with no parse-tree original, and such a node has none. Every `id` type is then assignable to the target (`Types.UnionIsErrorType`) | an endpoint whose `meta.errors` declares only the id `"a"` and that throws `new ApiError({ id: "b" })`: no report | the target is the union of the allowed literals, so an undeclared literal id is reported (`Types.LiteralSemantics`) | low: not executed; the behaviour of `getTypeAtLocation` lies outside this model and is unverified | `Scanner.ErrorTypedUnionNeverUndeclared` | `Scanner.LiteralIdDecidedByMembership` |
