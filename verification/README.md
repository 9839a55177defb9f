# repo-integrity-action checker, modelled in Dafny

This project models the rule engine of the Particular `RepoIntegrityTests` checker. That checker walks a .NET repository and fails each file that breaks one of the organisation's conventions. The model covers the following parts.

- **Workflow reading** (`ActionsWorkflow`). This normalises the `on:` key of a GitHub Actions workflow into a list of triggers. It maps jobs, their steps and their `defaults`, working over a small JSON-node datatype that stands for the YAML tree.
- **Ignore rules** (`IgnoreRules`, `Pattern`). An ignore rule is an optional check code plus a path glob. The glob translates `*` to `[^/]+` and `**` to `.*`, and is anchored and case-insensitive. The glob is tokenised, compiled to a tiny regex fragment, and proved equal to a direct glob semantics.
- **The runner** (`TestRunners`, `FileContexts`):
  - the "no files found" check at construction;
  - the narrowing filters and wildcard or regex exclusion;
  - the per-file outcome record with its accumulated fail reasons;
  - the aggregation of failed files into one message.
- **Project classification** (`Projects`). This covers SDK-style and test projects, library and source packages, and `bool.TryParse`-based `GetBoolean`. It works over a plain project record that replaces the XML document and its XPath queries.
- **The rule bodies.** Each is a pure function from a workflow or project record to the list of fail reasons the rule would record:
  - the default-shell rule (`WorkflowRules`);
  - the test-project framework rule (`TestProjectRules`);
  - the package-reference rules (`PackageReferenceRules`);
  - the `InternalsVisibleTo` and signing rules (`InternalsVisibleToRules`);
  - the `GeneratePathProperty` rule (`GeneratePathPropertyRules`).

Errors that the C# code raises as exceptions appear as `Failure` values of a `Result`. This covers a null dereference, a missing attribute and the explicit `throw`s. A rule "fails a file" by returning the sequence of `Fail` calls it makes: `Some(reason)` or `None` for a bare `Fail()`. `TestRunners.Run` folds those calls into each `FileContext`.

Some notes on the code as written:
- In `ValidateProjectFrameworks`, the branch guarded by `expectedFrameworks is null` can never run, because `?? []` has already replaced null. The model leaves that branch out, which changes nothing.
- `SortPackageReferences` reports under a heading that speaks of `InternalsVisibleTo` elements. The model keeps the rule's behaviour and does not model the heading.

## Model

| member | source | states |
|---|---|---|
| ActionsWorkflow.ParseTriggerEvents | src/RepoIntegrityTests/Infrastructure/ActionsWorkflow.cs:64-127 | null gives no triggers; a string gives one trigger without filters; an array succeeds exactly when every element is a string, giving one filterless trigger per element in order, and otherwise the first bad element decides the error: a null dereferences null, anything else fails the string conversion; an object gives one trigger per key in key order, each as `TriggerFor` decides; a number or boolean is an error |
| ActionsWorkflow.EventNames | src/RepoIntegrityTests/Infrastructure/ActionsWorkflow.cs:79 | succeeds exactly when every element is a string, and then returns them in order; otherwise the first non-string element decides: a null dereferences null, any other value fails the conversion |
| ActionsWorkflow.NullEventFails | src/RepoIntegrityTests/Infrastructure/ActionsWorkflow.cs:79 | `on: [e, null]` fails with a null dereference |
| ActionsWorkflow.TriggerFor | src/RepoIntegrityTests/Infrastructure/ActionsWorkflow.cs:83-121 | the trigger carries the key as its event; a null value or `workflow_dispatch` gives no filters whatever the value; `schedule` succeeds exactly when its value is an array whose object elements all have a string `cron`, giving the single `cron` filter of those values, and a non-array value fails as a null source; any other event takes its filters from an object value, succeeding exactly when they are readable, and has none for any other value |
| ActionsWorkflow.ObjectTriggers | src/RepoIntegrityTests/Infrastructure/ActionsWorkflow.cs:83-123 | succeeds exactly when every key's trigger does, and then yields one trigger per key, in key order |
| ActionsWorkflow.CronValues | src/RepoIntegrityTests/Infrastructure/ActionsWorkflow.cs:92-95 | non-object elements are skipped; it succeeds exactly when every object element has a string `cron`, and the crons then come out in element order; otherwise the first offending element decides the error: a null `cron` dereferences null, any other non-string value fails the cast |
| ActionsWorkflow.FilterEntry | src/RepoIntegrityTests/Infrastructure/ActionsWorkflow.cs:105-116 | an array filter keeps its strings; a scalar filter becomes a one-element list; an object- or null-valued filter is dropped; a non-string element fails |
| ActionsWorkflow.FilterEntries | src/RepoIntegrityTests/Infrastructure/ActionsWorkflow.cs:102-118 | succeeds exactly when every filter value is readable; the kept filters are the object's filters, in order, with their values |
| ActionsWorkflow.StringArray | src/RepoIntegrityTests/Infrastructure/ActionsWorkflow.cs:107-110 | a filter array read as `string[]`: succeeds exactly when every element is a string, and then returns those strings in order |
| ActionsWorkflow.ShapeInvariance | src/RepoIntegrityTests/Infrastructure/ActionsWorkflow.cs:72-86 | `on: e`, `on: [e]` and `on: {e: null}` all give the single trigger `e` without filters |
| ActionsWorkflow.FilterNormalization | src/RepoIntegrityTests/Infrastructure/ActionsWorkflow.cs:107-115 | for an ordinary event, a scalar filter value and a one-element array of it give the same trigger |
| ActionsWorkflow.ScheduleGathersCrons | src/RepoIntegrityTests/Infrastructure/ActionsWorkflow.cs:88-97 | two schedule entries give one `schedule` trigger whose `cron` filter lists both, in order |
| ActionsWorkflow.FiltersNeedStructuredValue | src/RepoIntegrityTests/Infrastructure/ActionsWorkflow.cs:64-127 | a trigger with filters can only come from an object `on` whose entry for it is an array or an object |
| ActionsWorkflow.TriggerToString | src/RepoIntegrityTests/Infrastructure/ActionsWorkflow.cs:135 | the text starts with "Trigger on: " and the event; with no filters it is exactly that; otherwise the filter names can be recovered from the comma-separated tail |
| ActionsWorkflow.OptString | src/RepoIntegrityTests/Infrastructure/ActionsWorkflow.cs:28-29 | a null node reads as absent, a string node as its text, and any other node is an error |
| ActionsWorkflow.SettingsEntries | src/RepoIntegrityTests/Infrastructure/ActionsWorkflow.cs:31-32 | succeeds exactly when every field value is null or a string; then one entry per field, in order, with the field's key and its value read as an optional string |
| ActionsWorkflow.ScopeEntries | src/RepoIntegrityTests/Infrastructure/ActionsWorkflow.cs:34-37 | succeeds exactly when every field value decodes as a string map; then one scope per field, in order, with the field's key and its decoded map |
| ActionsWorkflow.DecodeSettings | src/RepoIntegrityTests/Infrastructure/ActionsWorkflow.cs:31-32 | null gives no map; it succeeds exactly when the node is null or an object whose every value is null or a string; a decoded map has exactly one entry per field, in field order, with the field's key and its value read as an optional string |
| ActionsWorkflow.DecodeScopes | src/RepoIntegrityTests/Infrastructure/ActionsWorkflow.cs:34-37 | null gives no map; it succeeds exactly when the node is null or an object whose every value decodes as a string map; a decoded map has exactly one scope per field, in field order, with the field's key and its value decoded by `DecodeSettings` |
| ActionsWorkflow.ParseStep | src/RepoIntegrityTests/Infrastructure/ActionsWorkflow.cs:150-160 | a null step stays null; it succeeds exactly when the node is null or an object whose eight properties each decode; a decoded step's id, name, `if`, shell, `run`, `uses`, `env` and `with` are exactly those fields of the object, decoded |
| ActionsWorkflow.ParseSteps | src/RepoIntegrityTests/Infrastructure/ActionsWorkflow.cs:147 | succeeds exactly when every element decodes; then one step per element, in order, each exactly what `ParseStep` gives for that element |
| ActionsWorkflow.ParseJob | src/RepoIntegrityTests/Infrastructure/ActionsWorkflow.cs:39-50 | succeeds exactly when the body is an object whose properties are readable, its own `id` included, which the serializer binds before the key replaces it; the job's id is its key; `uses`, `name` and `runs-on` are the body's strings; a null `strategy` is absent and an object one is kept; without `defaults` the map is empty and without `steps` the list is empty; a null `steps` stays null and an array `steps` is exactly what `ParseSteps` gives; present defaults are decoded from the job's own `defaults` |
| ActionsWorkflow.ObjectJobIdFails | src/RepoIntegrityTests/Infrastructure/ActionsWorkflow.cs:41 | a job body whose `id` is an object fails the string conversion, although the key later replaces the id |
| ActionsWorkflow.ParseJobs | src/RepoIntegrityTests/Infrastructure/ActionsWorkflow.cs:39-51 | succeeds exactly when every job does, and keeps the jobs in document order, one per key |
| ActionsWorkflow.ParseWorkflow | src/RepoIntegrityTests/Infrastructure/ActionsWorkflow.cs:15-52 | succeeds exactly when the root is an object with readable properties and an object `jobs`; name, run-name, permissions and env are the root's fields decoded; the triggers are those of its `on`; the jobs are exactly what `ParseJobs` gives for `jobs`, one per key with that key as id; a null `defaults` leaves the workflow defaults empty, and a present one is decoded into them |
| ActionsWorkflow.SettingsLookup | src/RepoIntegrityTests/Infrastructure/ActionsWorkflow.cs:31-32 | a non-null value under a key of a decoded string map is found under that key, decoded |
| ActionsWorkflow.ScopesLookup | src/RepoIntegrityTests/Infrastructure/ActionsWorkflow.cs:34-37 | a non-null value under a key of a decoded scope map is found under that key, decoded as a string map |
| ActionsWorkflow.SettingsRoundTrip | src/RepoIntegrityTests/Infrastructure/ActionsWorkflow.cs:31-32 | a string map written out as an object, duplicate keys and order kept, decodes back to itself; so does an absent map written as null |
| ActionsWorkflow.ScopesRoundTrip | src/RepoIntegrityTests/Infrastructure/ActionsWorkflow.cs:34-37 | a scope map written out as an object of objects decodes back to itself |
| ActionsWorkflow.StepRoundTrip | src/RepoIntegrityTests/Infrastructure/ActionsWorkflow.cs:150-160 | a step written out as an object with its eight properties parses back to itself, and a null step to null |
| ActionsWorkflow.StepOfUnique | src/RepoIntegrityTests/Infrastructure/ActionsWorkflow.cs:150-160 | the fields of a step object determine the step: two steps both read from the same fields are equal |
| ActionsWorkflow.StepsRoundTrip | src/RepoIntegrityTests/Infrastructure/ActionsWorkflow.cs:147 | a step list written out as an array parses back to itself, element by element and in order |
| ActionsWorkflow.JobRoundTrip | src/RepoIntegrityTests/Infrastructure/ActionsWorkflow.cs:39-50 | a job written out under its id parses back to itself: the body gives every property and the key gives the id |
| ActionsWorkflow.JobsRoundTrip | src/RepoIntegrityTests/Infrastructure/ActionsWorkflow.cs:39-51 | jobs written out under their ids parse back to themselves, in order |
| ActionsWorkflow.WorkflowOfJobs | src/RepoIntegrityTests/Infrastructure/ActionsWorkflow.cs:15-52 | a document holding only `jobs` parses to exactly those jobs, with no name, no triggers, no settings and empty defaults |
| IgnoreRules.Tokenize | src/RepoIntegrityTests/Infrastructure/RepoIntegrityConfig.cs:29 | the tokens render back to the glob; a run of stars is cut into `**` pairs with at most one trailing `*` |
| IgnoreRules.StarRun | src/RepoIntegrityTests/Infrastructure/RepoIntegrityConfig.cs:29 | n stars give n/2 `**` tokens followed by a `*` when n is odd, so `***` is `**` then `*` |
| IgnoreRules.Compile | src/RepoIntegrityTests/Infrastructure/RepoIntegrityConfig.cs:29-30 | the compiled pattern has no case-sensitive atom, so it matches regardless of letter case |
| IgnoreRules.CompileIsFaithful | src/RepoIntegrityTests/Infrastructure/RepoIntegrityConfig.cs:29 | the compiled regex matches a path exactly when the glob does: `*` is one or more non-`/` characters, `**` any characters except a line break, anything else one character ignoring case |
| IgnoreRules.AppliesTo | src/RepoIntegrityTests/Infrastructure/RepoIntegrityConfig.cs:24-42 | a rule whose code differs from the given one never applies; one without a code, or with the same code, applies exactly when the path matches; the path `*` applies to every path |
| IgnoreRules.StarFreeGlob | src/RepoIntegrityTests/Infrastructure/RepoIntegrityConfig.cs:29-30 | a glob without stars matches a path exactly when they are equal ignoring case, so `.` is literal and the match is anchored |
| IgnoreRules.StarFreeCompilesToLiteral | src/RepoIntegrityTests/Infrastructure/RepoIntegrityConfig.cs:29 | a glob without stars compiles to its own characters as literals |
| IgnoreRules.PathMatchIgnoresCase | src/RepoIntegrityTests/Infrastructure/RepoIntegrityConfig.cs:30 | lower-casing the path never changes whether a glob matches it |
| Pattern.RepMeaning | src/RepoIntegrityTests/Infrastructure/RepoIntegrityConfig.cs:29 | a repeated negated class matches exactly the strings free of the excluded characters |
| Pattern.PlusMeaning | src/RepoIntegrityTests/Infrastructure/RepoIntegrityConfig.cs:29 | `[^e]+` matches exactly the non-empty strings free of `e` |
| Pattern.LiteralMeaning | src/RepoIntegrityTests/Infrastructure/TestRunner.cs:47 | an escaped literal matches a string exactly when the two are equal ignoring case |
| Pattern.LiteralAppend | src/RepoIntegrityTests/Infrastructure/TestRunner.cs:47 | escaping is character by character: the literal of joined text is the joined literals |
| Pattern.AnyOneMeaning | src/RepoIntegrityTests/Infrastructure/TestRunner.cs:47 | an unrestricted single character matches exactly the one-character strings |
| Pattern.LiteralPrefix | src/RepoIntegrityTests/Infrastructure/TestRunner.cs:47 | a pattern led by a literal matches when the subject starts with the literal, ignoring case, and the rest matches the remainder |
| Pattern.LiteralSuffix | src/RepoIntegrityTests/Infrastructure/TestRunner.cs:47 | a pattern ending in a literal matches when the subject ends with the literal, ignoring case, and the rest matches what precedes it |
| Pattern.RunBetweenLiterals | src/RepoIntegrityTests/Infrastructure/TestRunner.cs:47 | an unrestricted run between two literals matches exactly the strings starting with the first and ending with the second |
| Pattern.OneAfterLiteral | src/RepoIntegrityTests/Infrastructure/TestRunner.cs:47 | a literal then one unrestricted character matches exactly the literal followed by one character |
| Pattern.OneBetweenLiterals | src/RepoIntegrityTests/Infrastructure/TestRunner.cs:47 | one unrestricted character between two literals matches exactly the first, one character, then the second |
| Pattern.MatchIgnoresCase | src/RepoIntegrityTests/Infrastructure/RepoIntegrityConfig.cs:30 | a caseless pattern gives the same answer on a string and on its lower-cased form |
| Pattern.Unanchored | src/RepoIntegrityTests/Infrastructure/TestRunner.cs:40 | an unanchored match somewhere in a string is an anchored match of the pattern padded with `.*` on both sides |
| FileContexts.RelativePath | src/RepoIntegrityTests/Infrastructure/FileContext.cs:14 | defined exactly when the path is longer than the root; it drops the root and one separator, every backslash after them becomes `/`, and other characters stay |
| FileContexts.RelativePathOfChild | src/RepoIntegrityTests/Infrastructure/FileContext.cs:14 | the relative path of `root + sep + rest` is `rest` with backslashes turned into slashes |
| FileContexts.NewFile | src/RepoIntegrityTests/Infrastructure/FileContext.cs:9-15 | a new record is not failed, keeps the full path and satisfies the invariant that reasons imply failure |
| FileContexts.Fail | src/RepoIntegrityTests/Infrastructure/FileContext.cs:19-26 | the record becomes failed and keeps its paths; a reason is appended at the end, and no reason leaves the list unchanged |
| FileContexts.FailAllKeepsReasons | src/RepoIntegrityTests/Infrastructure/FileContext.cs:17-26 | a series of `Fail` calls appends every given reason in call order, duplicates included; the record is failed exactly when it was or some call happened; the invariant is kept |
| FileContexts.FailureIsPermanent | src/RepoIntegrityTests/Infrastructure/FileContext.cs:21 | a failed record stays failed after any further calls |
| FileContexts.Describe | src/RepoIntegrityTests/Infrastructure/FileContext.cs:31-44 | "OK" exactly when not failed; a failed file without reasons is "Failed: (no reason)"; otherwise it starts with "Failed: " and names the single reason, or counts two or more |
| TestRunners.NewRunner | src/RepoIntegrityTests/Infrastructure/TestRunner.cs:17-31 | construction fails exactly when no file was found and `failIfNoMatches` is set, with the message naming the glob; otherwise the runner holds every discovered file |
| TestRunners.FilesWhere | src/RepoIntegrityTests/Infrastructure/TestRunner.cs:75-79 | keeps exactly the files satisfying the predicate, and nothing else; with `FilesWhereAppend` and `FilesWhereKeepsCounts` also their order and multiplicity |
| TestRunners.FilesWhereAppend | src/RepoIntegrityTests/Infrastructure/TestRunner.cs:75-79 | narrowing two joined file lists narrows each and joins the results, so the order of the files is kept |
| TestRunners.FilesWhereOne | src/RepoIntegrityTests/Infrastructure/TestRunner.cs:75-79 | a single file is kept exactly when it satisfies the predicate |
| TestRunners.FilesWhereKeepsCounts | src/RepoIntegrityTests/Infrastructure/TestRunner.cs:75-79 | a kept file occurs as often as in the input, and a file failing the predicate not at all |
| Seqs.FilterAppend | src/RepoIntegrityTests/Infrastructure/TestRunner.cs:75-79 | selecting from a concatenation selects from each part in turn |
| Seqs.FilterMultiplicity | src/RepoIntegrityTests/Infrastructure/TestRunner.cs:75-79 | selection keeps every satisfying element as often as it occurs and drops every other one |
| TestRunners.NarrowingIsConjunction | src/RepoIntegrityTests/Infrastructure/TestRunner.cs:51-79 | two narrowings in a row equal one narrowing by the conjunction, and their order does not matter |
| TestRunners.SdkProjects | src/RepoIntegrityTests/Infrastructure/TestRunner.cs:51-55 | the files are exactly the input's SDK-style projects (root without `xmlns`), in their original order, as `Filter` selects them |
| TestRunners.TestProjects | src/RepoIntegrityTests/Infrastructure/TestRunner.cs:57-61 | the files are exactly the input's projects referencing `Microsoft.NET.Test.Sdk`, in their original order |
| TestRunners.ProjectsProducingLibraryNuGetPackages | src/RepoIntegrityTests/Infrastructure/TestRunner.cs:63-67 | the files are exactly the input's projects that produce a library package, in their original order |
| TestRunners.ProjectsProducingSourcePackagesIs | src/RepoIntegrityTests/Infrastructure/TestRunner.cs:69-73 | the files are exactly the input's projects whose source-package status equals the flag, in their original order |
| TestRunners.SdkAndTestSelectionCommute | src/RepoIntegrityTests/Infrastructure/TestRunner.cs:51-61 | selecting SDK projects and then test projects gives the same files as the other order, each satisfying both |
| TestRunners.SourcePackageSelectionsPartition | src/RepoIntegrityTests/Infrastructure/TestRunner.cs:69-73 | every file survives exactly one of the two source-package selections |
| TestRunners.CollapseBackslashPairs | src/RepoIntegrityTests/Infrastructure/TestRunner.cs:35-38 | the rewrite never lengthens the pattern, leaves a pattern without backslashes unchanged, and leaves no escaped backslash behind |
| TestRunners.EscapedBackslashIsSlash | src/RepoIntegrityTests/Infrastructure/TestRunner.cs:35-38 | the first escaped backslash becomes a `/`, and the rewrite continues after it |
| TestRunners.IgnoreRegex | src/RepoIntegrityTests/Infrastructure/TestRunner.cs:33-43 | the files are exactly the input's files, in order, whose full path the effective pattern does not match; on Windows that is the pattern as given, elsewhere it has its escaped backslashes rewritten to `/` |
| TestRunners.WildcardPattern | src/RepoIntegrityTests/Infrastructure/TestRunner.cs:35-47 | one atom per wildcard character, at the same position: `*` any run, `?` any one character, `\\` the `/` it is rewritten to off Windows, anything else itself ignoring case |
| TestRunners.WildcardPatternAppend | src/RepoIntegrityTests/Infrastructure/TestRunner.cs:47 | the translation works character by character: the pattern of two joined wildcards is the two patterns joined |
| TestRunners.BackslashWildcard | src/RepoIntegrityTests/Infrastructure/TestRunner.cs:35-47 | a backslash between plain text matches itself on Windows and `/` elsewhere |
| TestRunners.StarWildcardMeaning | src/RepoIntegrityTests/Infrastructure/TestRunner.cs:47 | `u*v` matches exactly the strings that start with `u` and end with `v`, ignoring case, without overlap |
| TestRunners.QuestionWildcardMeaning | src/RepoIntegrityTests/Infrastructure/TestRunner.cs:47 | `u?v` matches exactly the strings made of `u`, any one character and `v`, ignoring case |
| TestRunners.IgnoreWildcard | src/RepoIntegrityTests/Infrastructure/TestRunner.cs:45-49 | the files are exactly the input's files, in order, none of whose full-path substrings match the wildcard |
| TestRunners.StarWildcardDropsPaths | src/RepoIntegrityTests/Infrastructure/TestRunner.cs:40-49 | ignoring `u*v` drops a file exactly when some piece of its full path starts with `u` and ends with `v` |
| TestRunners.PlainWildcardIsLiteral | src/RepoIntegrityTests/Infrastructure/TestRunner.cs:47 | a wildcard without `*` or `?` becomes its own characters as literals |
| TestRunners.PlainWildcardDropsContainingPaths | src/RepoIntegrityTests/Infrastructure/TestRunner.cs:40-48 | a file whose path contains a plain wildcard is excluded |
| TestRunners.StarDropsEverything | src/RepoIntegrityTests/Infrastructure/TestRunner.cs:47-48 | the wildcard `*` excludes every file |
| TestRunners.Checked | src/RepoIntegrityTests/Infrastructure/TestRunner.cs:81-83 | the check runs once per file, in order; each file receives exactly that file's calls; the first exception aborts |
| TestRunners.FileLines | src/RepoIntegrityTests/Infrastructure/TestRunner.cs:96-104 | a failed file without reasons gives its relative path alone; with k reasons it gives k lines "path - reason", in reason order |
| TestRunners.ReportLines | src/RepoIntegrityTests/Infrastructure/TestRunner.cs:95-105 | every line starts with the relative path of a failed file; the count is the failed files' lines summed; there are no lines exactly when no file failed |
| TestRunners.ProcessResults | src/RepoIntegrityTests/Infrastructure/TestRunner.cs:93-111 | passes exactly when no file is failed; otherwise the message is the name, ":\r\n  > ", and the lines joined by "\r\n  > " |
| TestRunners.Run | src/RepoIntegrityTests/Infrastructure/TestRunner.cs:81-85 | completes exactly when the check completes on every file; it passes exactly when every file stays unfailed and no check made a `Fail` call |
| Projects.GetBoolean | src/RepoIntegrityTests/Infrastructure/XDocumentExtensions.cs:7-15 | a missing element gives no value; present text gives what `bool.TryParse` accepts |
| Projects.PaddedBooleanParses | src/RepoIntegrityTests/Infrastructure/XDocumentExtensions.cs:9-12 | "true" or "false" in any letter case, surrounded by whitespace or NUL, parses to that value |
| Projects.TextWithoutEIsNotBoolean | src/RepoIntegrityTests/Infrastructure/XDocumentExtensions.cs:9-15 | text without an `e` in either case never parses as a boolean |
| Projects.TryParseBoolMeaning | src/RepoIntegrityTests/Infrastructure/XDocumentExtensions.cs:9-12 | text parses to `b` exactly when it is "true" or "false" (the word for `b`) in any letter case, padded only by whitespace or NUL on either side |
| Projects.ProducesLibraryNuGetPackage | src/RepoIntegrityTests/Infrastructure/FileContextExtensions.cs:15-32 | a tool package is never a library package; otherwise the project's own `IsPackable` decides, then the build-props `IsPackable`, then whether `Particular.Packaging` is referenced |
| Projects.ProducesSourcePackage | src/RepoIntegrityTests/Infrastructure/FileContextExtensions.cs:34-45 | holds exactly when `IncludeSourceFilesInPackage` parses as true and `IncludeBuildOutput` parses as false; missing or unparsable text gives false |
| Projects.TargetFrameworksText | src/RepoIntegrityTests/TestProjects.cs:74-75 | the `TargetFramework` text when present, else the `TargetFrameworks` text; with neither present, splitting the text dereferences null and fails |
| Projects.FirstTargetFrameworkWins | src/RepoIntegrityTests/TestProjects.cs:74-75 | the first `TargetFramework` element gives the text, wherever `TargetFrameworks` elements stand |
| Projects.FirstTargetFrameworksUsed | src/RepoIntegrityTests/TestProjects.cs:74-75 | with no `TargetFramework` element, the first `TargetFrameworks` element gives the text |
| Projects.ItemsOfKind | src/RepoIntegrityTests/Infrastructure/FileContextExtensions.cs:13 | the items of the given element name across all item groups, and no others |
| Projects.TestProjectByItemGroups | src/RepoIntegrityTests/Infrastructure/FileContextExtensions.cs:12-13 | a project is a test project exactly when some item group holds a `PackageReference` whose Include is `Microsoft.NET.Test.Sdk` |
| Projects.ClassificationInputs | src/RepoIntegrityTests/Infrastructure/FileContextExtensions.cs:9-13 | being SDK-style depends only on the root's `xmlns`, and holds exactly when it is absent; being a test project depends only on the item groups |
| Projects.CollectReasons | src/RepoIntegrityTests/PackageReferences.cs:212-229 | succeeds exactly when the check succeeds on every item; then one reason per item the check reports, in item order, each that item's own reason |
| Projects.CollectReasonsAppend | src/RepoIntegrityTests/PackageReferences.cs:212-229 | collecting over two joined item lists succeeds exactly when both do, and gives the first list's reasons then the second's |
| WorkflowRules.DefaultShell | src/RepoIntegrityTests/WorkflowTests.cs:22 | fails exactly when a `run` scope holds a null map; with no `run` scope, or no `shell` in it, the shell is absent; otherwise it is the `run` scope's `shell` |
| WorkflowRules.DecodedShell | src/RepoIntegrityTests/WorkflowTests.cs:22 | a string `shell` in the `run` scope of decoded defaults is the default shell |
| WorkflowRules.WorkflowShellIsRead | src/RepoIntegrityTests/WorkflowTests.cs:20-22 | the `defaults.run.shell` string of a parsed workflow is its default shell |
| WorkflowRules.HasRunStep | src/RepoIntegrityTests/WorkflowTests.cs:38 | true exactly when some step before the first null one has a `run`; false exactly when every step exists and none has a `run` |
| WorkflowRules.JobReason | src/RepoIntegrityTests/WorkflowTests.cs:31-41 | succeeds exactly when the job has defaults whose shell reads and either that shell is `pwsh`/`bash` or the steps exist and can be scanned; null defaults throw a null reference and null steps a null source; a job is reported exactly when it has no `pwsh`/`bash` shell and some step has a `run`, and the reason names the job |
| WorkflowRules.JobReasons | src/RepoIntegrityTests/WorkflowTests.cs:29-42 | succeeds exactly when every job's check does, and otherwise fails with the first throwing job's error; the reasons are one per reported job, in job order, each naming that job |
| WorkflowRules.WorkflowReasons | src/RepoIntegrityTests/WorkflowTests.cs:22-42 | a workflow shell of exactly `pwsh` or `bash` gives no reasons; otherwise the reasons are those of the jobs |
| WorkflowRules.ShouldDefineDefaultShell | src/RepoIntegrityTests/WorkflowTests.cs:13-43 | files outside `.github/workflows` never fail; for others a workflow that does not parse fails with the parse error, and a parsed one gives exactly the workflow's reasons |
| WorkflowRules.JobLevelShellOrNoRunStepSuffices | src/RepoIntegrityTests/WorkflowTests.cs:31-41 | a job with an acceptable shell is never reported, and neither is one whose steps all lack `run`; the comparison is case-sensitive |
| TestProjectRules.FirstMajorFrom | src/RepoIntegrityTests/TestProjects.cs:136-139 | finds the leftmost position where `(\d+)\.0\.x` matches, or reports that none exists |
| TestProjectRules.DotNetVersionToTargetFramework | src/RepoIntegrityTests/TestProjects.cs:122-144 | "2.1.x" and "3.1.x" map to the `netcoreapp` names; every result starts with "net" |
| TestProjectRules.LeftmostMajorMapping | src/RepoIntegrityTests/TestProjects.cs:136-147 | any other version maps exactly when the regex matches somewhere, and then to "net" + the digits of the leftmost match + ".0" |
| TestProjectRules.MajorVersionMaps | src/RepoIntegrityTests/TestProjects.cs:136-141 | "N.0.x" maps to "netN.0" |
| TestProjectRules.UnmappableVersion | src/RepoIntegrityTests/TestProjects.cs:143 | a version with no match, such as "9.0.1xx" or "", raises the mapping error |
| TestProjectRules.VersionList | src/RepoIntegrityTests/TestProjects.cs:53 | the entries are the non-blank line pieces, none containing a line break |
| Text.Split | src/RepoIntegrityTests/TestProjects.cs:77 | at least one piece; no piece contains the separator; joining the pieces with it gives the text back |
| TestProjectRules.VersionListOfLines | src/RepoIntegrityTests/TestProjects.cs:53 | non-blank lines joined with "\n" split back into those lines |
| TestProjectRules.VersionListOfCrLfLines | src/RepoIntegrityTests/TestProjects.cs:53 | non-blank lines joined with "\r\n" also split back into those lines |
| TestProjectRules.StepVersions | src/RepoIntegrityTests/TestProjects.cs:31-50 | a step without `with` throws; with a known global.json SDK version the text is `<major.minor>.x`, a line break and the `dotnet-version` (empty when missing); otherwise it is the `dotnet-version`, null when missing |
| TestProjectRules.GlobalJsonVersionListedFirst | src/RepoIntegrityTests/TestProjects.cs:45-53 | with a known global.json SDK version, the step's version list is `<major.minor>.x` followed by the `dotnet-version` lines |
| TestProjectRules.VersionListAfterLine | src/RepoIntegrityTests/TestProjects.cs:45-53 | a non-blank line and a line break ahead of a text put that line first in its version list |
| TestProjectRules.DotNetSteps | src/RepoIntegrityTests/TestProjects.cs:28 | read as a stage of its own: keeps exactly the `actions/setup-dotnet@` steps of the job; a null step list or step throws |
| TestProjectRules.RequestedVersions | src/RepoIntegrityTests/TestProjects.cs:27-54 | succeeds exactly when every job does; the first job that throws decides the error; a single job gives its own texts |
| TestProjectRules.RequestedVersionsOfAppended | src/RepoIntegrityTests/TestProjects.cs:27-54 | jobs are read in order: reading two job lists is reading the first and then, if it did not throw, the second, with the texts concatenated; the first to throw decides the error |
| TestProjectRules.JobVersions | src/RepoIntegrityTests/TestProjects.cs:28-52 | a null step list throws; it succeeds exactly when no step throws, and otherwise the first step that throws decides the error |
| TestProjectRules.LazyAgreesWithStaged | src/RepoIntegrityTests/TestProjects.cs:28-52 | when no step throws, the step-by-step reading equals selecting the `setup-dotnet` steps first and mapping them afterwards |
| TestProjectRules.StagedStep | src/RepoIntegrityTests/TestProjects.cs:28-52 | the staged reading of a job is the first step's text followed by the staged reading of the rest |
| TestProjectRules.StepListCons | src/RepoIntegrityTests/TestProjects.cs:29-52 | the texts of a step list are the first step's text followed by the texts of the rest |
| TestProjectRules.ErrorsInterleavePerStep | src/RepoIntegrityTests/TestProjects.cs:28-31 | a `setup-dotnet` step without `with` ahead of a null step throws for the `with`, though selecting first would throw for the null step |
| Seqs.Present | src/RepoIntegrityTests/TestProjects.cs:52 | drops the null texts: every kept text is present in the input and every present text is kept |
| Seqs.PresentAppend | src/RepoIntegrityTests/TestProjects.cs:52 | dropping nulls keeps the order: it distributes over concatenation |
| TestProjectRules.StepTexts | src/RepoIntegrityTests/TestProjects.cs:29-51 | one text per step, each the step's version text |
| TestProjectRules.StepOutcome | src/RepoIntegrityTests/TestProjects.cs:28-51 | throws exactly for a null step (null reference) or a `setup-dotnet` step without `with` (null dictionary); any other step gives nothing; a text only comes from a `setup-dotnet` step with `with` |
| TestProjectRules.StepListVersions | src/RepoIntegrityTests/TestProjects.cs:29-52 | succeeds exactly when every step has `with`, and then yields the steps' texts in order with nulls dropped; otherwise it throws for the missing `with` |
| TestProjectRules.VersionLists | src/RepoIntegrityTests/TestProjects.cs:53 | one version list per text, in order |
| TestProjectRules.ExpectedFrameworks | src/RepoIntegrityTests/TestProjects.cs:63 | succeeds exactly when every version of the first list maps; the frameworks are their mappings, in order |
| TestProjectRules.NormalizeFrameworks | src/RepoIntegrityTests/TestProjects.cs:77-79 | one framework per `;` entry, each cut before its first `-` |
| TestProjectRules.PlatformSuffixIsCut | src/RepoIntegrityTests/TestProjects.cs:78 | "net8.0-windows" becomes "net8.0" |
| TestProjectRules.CheckProject | src/RepoIntegrityTests/TestProjects.cs:74-96 | fails on missing framework text; otherwise records the non-net4 frameworks joined by `;`, and fails the file exactly when one of them is not expected, so net4-only projects never fail |
| TestProjectRules.ProjectCheck | src/RepoIntegrityTests/TestProjects.cs:72-96 | for every file: it completes exactly when the framework text is present; it then records no reason or the single mismatch reason, the reason exactly when some framework other than net4 is not expected |
| TestProjectRules.Collected | src/RepoIntegrityTests/TestProjects.cs:83 | one joined framework string per test project, in order |
| TestProjectRules.GroupsDiffer | src/RepoIntegrityTests/TestProjects.cs:99-105 | true exactly when two non-empty framework strings differ |
| TestProjectRules.GroupCount | src/RepoIntegrityTests/TestProjects.cs:99-105 | more than one group of non-empty strings exactly when two of them differ |
| TestProjectRules.ValidateProjectFrameworks | src/RepoIntegrityTests/TestProjects.cs:17-120 | no ci.yml means ignored; differing version lists give that verdict; a pass needs a readable workflow, equivalent version lists and some discovered project |
| PackageReferenceRules.IsMicrosoftFrameworkPackage | src/RepoIntegrityTests/PackageReferences.cs:438-455 | holds exactly when the name starts with "System." or "Microsoft.Extensions." ignoring case and is none of the four exceptions ignoring case |
| PackageReferenceRules.FrameworkPackageIgnoresCase | src/RepoIntegrityTests/PackageReferences.cs:438-455 | names equal ignoring case are classified alike |
| PackageReferenceRules.ExceptionsAreNotFrameworkPackages | src/RepoIntegrityTests/PackageReferences.cs:449-455 | any casing of an exception is not a framework package |
| PackageReferenceRules.SystemTextJsonIsFrameworkPackage | src/RepoIntegrityTests/PackageReferences.cs:449-455 | "System.Text.Json" is a framework package |
| PackageReferenceRules.Distinct | src/RepoIntegrityTests/PackageReferences.cs:47 | the same names, each once |
| PackageReferenceRules.DistinctCount | src/RepoIntegrityTests/PackageReferences.cs:47-49 | more than one distinct name exactly when two names differ |
| PackageReferenceRules.MixedReferenceReasons | src/RepoIntegrityTests/PackageReferences.cs:41-55 | at most one reason; one exactly when some item group mixes element names including a reference type, naming the first such group's names |
| PackageReferenceRules.MixesMeaning | src/RepoIntegrityTests/PackageReferences.cs:45-49 | a group mixes exactly when two children have different names and one child is a reference element |
| PackageReferenceRules.PrivateAssetsReason | src/RepoIntegrityTests/PackageReferences.cs:212-229 | `PrivateAssets="All"` is never reported; a missing Include otherwise throws; known build tools are reported always, the test-tool list only in source packages |
| PackageReferenceRules.PrivateAssetsReasons | src/RepoIntegrityTests/PackageReferences.cs:202-231 | succeeds exactly when every reference has `PrivateAssets="All"` or an Include; then there is one reason per reported reference, in document order, each that reference's own reason |
| PackageReferenceRules.PrivateAssetsReasonsAppend | src/RepoIntegrityTests/PackageReferences.cs:202-231 | reasons of two joined reference lists are those of the first then those of the second, and the joined list fails exactly when one part does |
| PackageReferenceRules.KnownPackagesArePrivateAssetsAll | src/RepoIntegrityTests/PackageReferences.cs:202-231 | for one project: succeeds exactly when every `PackageReference` has `PrivateAssets="All"` or an Include; then one reason per reported reference, in document order, each that reference's reason, with source-package status read from `IncludeSourceFilesInPackage` |
| PackageReferenceRules.MockingFrameworkReasons | src/RepoIntegrityTests/PackageReferences.cs:277-294 | one reason per reference whose Include is FakeItEasy, Moq or NSubstitute ignoring case, naming it; references without Include are skipped |
| PackageReferenceRules.Sort | src/RepoIntegrityTests/PackageReferences.cs:426 | the result is a permutation of the input |
| PackageReferenceRules.SortIsSorted | src/RepoIntegrityTests/PackageReferences.cs:426 | under a total preorder the result is ordered |
| PackageReferenceRules.SortedKeepsOrder | src/RepoIntegrityTests/PackageReferences.cs:426-428 | an already ordered list comes back unchanged, as the stable sort keeps equal keys in place |
| PackageReferenceRules.SortFixesExactlySorted | src/RepoIntegrityTests/PackageReferences.cs:426-428 | a list equals its sorted form exactly when it is ordered |
| PackageReferenceRules.PackageIncludes | src/RepoIntegrityTests/PackageReferences.cs:421-424 | exactly one name per `PackageReference` item with an Include, in item order, each that item's Include value; items without Include are skipped |
| PackageReferenceRules.SortReasons | src/RepoIntegrityTests/PackageReferences.cs:410-436 | at most one reason, given exactly when some item group's Include list is not ordered |
| PackageReferenceRules.LtsCandidates | src/RepoIntegrityTests/PackageReferences.cs:357-360 | the frameworks not starting with net4 or netstandard, each cut before its first `-` |
| PackageReferenceRules.LtsReasons | src/RepoIntegrityTests/PackageReferences.cs:354-386 | missing framework text fails; no remaining framework passes; several give exactly the single "more than one version" reason; a single one shorter than three characters fails, otherwise gives exactly the unparsable-version reason, or the odd-major reason from 6 on, or nothing |
| PackageReferenceRules.AnalyzerReferenceCallsAsWritten | src/RepoIntegrityTests/PackageReferences.cs:303-309 | fails the project, with no reason, exactly when it references `Particular.Analyzers` |
| PackageReferenceRules.AnalyzerReferenceCalls | src/RepoIntegrityTests/PackageReferences.cs:299-309 | fails the project exactly when it references `Particular.Analyzers` or `Particular.CodeRules` |
| PackageReferenceRules.CodeRulesReferenceSlipsThrough | src/RepoIntegrityTests/PackageReferences.cs:303-304 | a project referencing only `Particular.CodeRules` passes the as-written rule and fails the corrected one |
| InternalsVisibleToRules.FileName | src/RepoIntegrityTests/InternalsVisibleToTests.cs:56 | the last path component: a suffix of the path containing no `/` |
| InternalsVisibleToRules.FileNameWithoutExtension | src/RepoIntegrityTests/InternalsVisibleToTests.cs:56 | a prefix of the file name without `/`; a name without a dot is kept whole; otherwise the cut is at the last dot: the next character is a dot and none follows it |
| InternalsVisibleToRules.ProjectNameOfPath | src/RepoIntegrityTests/InternalsVisibleToTests.cs:127 | the name of `dir/Name.csproj` is `Name`, dots in `Name` included |
| InternalsVisibleToRules.FindProject | src/RepoIntegrityTests/InternalsVisibleToTests.cs:56 | the first project with that name, if any: the found project has the name and no earlier one does; none is found only when no project has it |
| InternalsVisibleToRules.FindProjectOfAppended | src/RepoIntegrityTests/InternalsVisibleToTests.cs:56 | searching two project lists in turn finds the first list's match if it has one, else the second's |
| InternalsVisibleToRules.StrongNameIsCut | src/RepoIntegrityTests/InternalsVisibleToTests.cs:51-54 | an assembly name followed by a comma and a public key is cut to the name |
| InternalsVisibleToRules.TargetOf | src/RepoIntegrityTests/InternalsVisibleToTests.cs:49-56 | the target is the project named by the text before the first comma, if any |
| InternalsVisibleToRules.KeyExpression | src/RepoIntegrityTests/InternalsVisibleToTests.cs:64-80 | empty when unsigned; the package key for a library-package target; the tests key for a test target; an error for a signed project visible to anything else |
| InternalsVisibleToRules.ReasonFor | src/RepoIntegrityTests/InternalsVisibleToTests.cs:56-82 | a missing target gives "does not exist"; otherwise the reason is to move the declaration to the project file, with the key expression, and only the key choice can fail |
| InternalsVisibleToRules.AttributeReason | src/RepoIntegrityTests/InternalsVisibleToTests.cs:49-82 | the target is the text before the first comma; a missing project gives the "does not exist" reason naming it; otherwise it fails exactly when the key choice does, and else asks to move the declaration to the project file with that key expression |
| InternalsVisibleToRules.AttributeReasons | src/RepoIntegrityTests/InternalsVisibleToTests.cs:40-84 | a file without a project throws; otherwise it succeeds exactly when no attribute throws, with one reason per attribute occurrence and signing read from `SignAssembly`, defaulting to false |
| InternalsVisibleToRules.UnsignedOwnerNeverThrows | src/RepoIntegrityTests/InternalsVisibleToTests.cs:43-82 | for an unsigned owner nothing throws: each attribute gives the missing-project reason or the move-to-project-file reason without a key |
| InternalsVisibleToRules.SigningReasons | src/RepoIntegrityTests/InternalsVisibleToTests.cs:87-141 | no key file never fails; a non-source library package fails exactly on a key other than `..\NServiceBus.snk`; a test project fails on a wrong key, or on the right key when no project grants it access; other projects never fail |
| InternalsVisibleToRules.ProjectNames | src/RepoIntegrityTests/InternalsVisibleToTests.cs:146 | one name per project: its file name without extension |
| InternalsVisibleToRules.UnknownTarget | src/RepoIntegrityTests/InternalsVisibleToTests.cs:151-158 | an element without Include throws; otherwise a reason exactly when the name matches no project ignoring case, naming it |
| InternalsVisibleToRules.UnknownTargetReasons | src/RepoIntegrityTests/InternalsVisibleToTests.cs:144-160 | succeeds exactly when every InternalsVisibleTo item has an Include; then there is one reason per item whose name matches no project ignoring case, in document order, each naming that item |
| InternalsVisibleToRules.UnknownTargetReasonsAppend | src/RepoIntegrityTests/InternalsVisibleToTests.cs:151-158 | items are checked in order: two joined item lists succeed exactly when both do, with the first list's reasons then the second's |
| InternalsVisibleToRules.NonexistentTargetReasons | src/RepoIntegrityTests/InternalsVisibleToTests.cs:144-160 | for one project against the solution's project names: succeeds exactly when every InternalsVisibleTo item has an Include; then one reason per item matching no project ignoring case, in document order, each naming it |
| GeneratePathPropertyRules.PathVariable | src/RepoIntegrityTests/GeneratePathProperty.cs:21 | the variable is `$(Pkg` + the package name with every `.` replaced by `_` + `)`, and contains no dot |
| GeneratePathPropertyRules.GeneratedVariable | src/RepoIntegrityTests/GeneratePathProperty.cs:19-21 | only references with `GeneratePathProperty` exactly `true` give a variable; such a reference without Include throws |
| GeneratePathPropertyRules.PathVariables | src/RepoIntegrityTests/GeneratePathProperty.cs:18-22 | succeeds exactly when no selected reference lacks Include; each variable comes from a selected reference, and each such reference's variable is present |
| GeneratePathPropertyRules.Conditions | src/RepoIntegrityTests/GeneratePathProperty.cs:24-26 | one condition `'var' != ''` per variable, in order |
| GeneratePathPropertyRules.GroupRemovals | src/RepoIntegrityTests/GeneratePathProperty.cs:28-34 | the removals of a group are exactly its `Compile` items with `Remove` |
| GeneratePathPropertyRules.RemovalsMeaning | src/RepoIntegrityTests/GeneratePathProperty.cs:28-34 | every removal comes from a `Compile Remove` item of some group, carrying that group's condition, and every such item is present |
| GeneratePathPropertyRules.UsesVariable | src/RepoIntegrityTests/GeneratePathProperty.cs:55-66 | true exactly when some variable is a substring of the Remove value |
| GeneratePathPropertyRules.Problems | src/RepoIntegrityTests/GeneratePathProperty.cs:38-52 | the variable problem exactly when no variable occurs in the Remove value; the condition problem exactly when neither the item's nor the group's condition is a generated one; variable first |
| GeneratePathPropertyRules.MessagesDiffer | src/RepoIntegrityTests/GeneratePathProperty.cs:42-50 | the two messages for one removal are different |
| GeneratePathPropertyRules.RemovalReasons | src/RepoIntegrityTests/GeneratePathProperty.cs:38-52 | one message per problem, in order |
| GeneratePathPropertyRules.AllReasons | src/RepoIntegrityTests/GeneratePathProperty.cs:38-52 | exactly as many reasons as the removals' problems, at most two per removal; each is a reason of some removal, and every reason of every removal is there |
| GeneratePathPropertyRules.ProjectReasons | src/RepoIntegrityTests/GeneratePathProperty.cs:14-53 | fails exactly when gathering variables does; otherwise one reason per problem of the `**` removals, each a reason of one of them, and every such reason present |
| GeneratePathPropertyRules.EveryWildcardRemovalReported | src/RepoIntegrityTests/GeneratePathProperty.cs:14-53 | every reason of every `**` removal in any item group is reported for the project |
| GeneratePathPropertyRules.ConformingRemovalPasses | src/RepoIntegrityTests/GeneratePathProperty.cs:40-51 | a Remove value containing a generated variable, with its condition on the item or the group, has no problem |
| GeneratePathPropertyRules.NoVariablesFailEveryRemoval | src/RepoIntegrityTests/GeneratePathProperty.cs:40-50 | without generated variables every wildcard removal gets both reasons |

## Left out

- File-system and parser I/O are inputs, not modelled:
  - `Directory.GetFiles` is replaced by the discovered file list;
  - XML loading and XPath are replaced by the `Project` record;
  - YAML-to-JSON conversion is replaced by the `JNode` tree;
  - reading `global.json` is replaced by the `globalJsonVersion` parameter;
  - the `InternalsVisibleTo` attribute regex over C# files is replaced by the captured names;
  - `FindProjectForCodeFile`'s directory walk is replaced by the `owner` parameter.
- `RunAsync`, the parallel test setup and the warning writer are concurrency or console output, and are not modelled.
- `Warn` and `SortInternalsVisibleToItems` are not modelled, because `Warn` is not defined in `FileContext.cs`. `CodeFileTests.cs` is not modelled for the same reason.
- The rules built on NuGet version parsing or network data are not modelled, because they rest on a foreign library and the network:
  - `AbsoluteVersionsInTestProjects`;
  - `NoPrereleasePackagesOnRelease`;
  - `ComponentDependenciesShouldNotBeDuplicatedInTests`;
  - `ShouldNotReferenceDeprecatedPackages`;
  - the package-version part of `ComponentShouldTargetDotNetLtsVersion`.
- `PrivateAssetsAsAttributesNotElements` and `PackageReferenceUpdate` are not modelled. They are XML-shape checks outside the rule logic modelled here.
- `TestSetup.cs`, `DotNetProjectsAttribute.cs`, `GlobalFiles.cs` and `EnumerableExtensions.cs` are not part of this model. The build-props `IsPackable` enters as an `Option<bool>` parameter.
- Case-insensitive comparisons fold ASCII letters only. Culture-sensitive `StartsWith` is taken as ordinal. The culture-sensitive string comparer behind `OrderBy` is not modelled: the sort takes the order as a parameter, assumed to be a total preorder.
- `\d` is taken as the ASCII digits, and `Environment.NewLine` as "\n".
- `LtsReasons`: `decimal.TryParse` and the cast to `int` are the `parseMajor` parameter, so their culture rules and overflow are not modelled.
- `TestRunners.IgnoreRegex`: the .NET regex engine is the `isMatch` parameter. Only the backslash rewrite and the file selection are modelled.
- `IgnoreRules.AppliesTo`: globs are restricted to those without regex syntax other than `.` and `*`. The source passes other metacharacters to the .NET regex unescaped. The lazy compilation is not modelled.
- `ActionsWorkflow.EventNames`: every failed string conversion carries the one message `NotAString`. The source's serializer and `GetValue<string>` throw different exception types with different texts; only null versus non-null is told apart.
- `ActionsWorkflow.FilterEntry`: a null element inside a filter array becomes an error, where the source would store a null string.
- Path handling knows only `/` as the directory separator. Windows `\` in full paths is not modelled, apart from the `RelativePath` rewrite.
- `PackageReferenceRules.SortReasons` reads the `PackageReference` children of each item group. It does not read deeper descendants.
- `TestProjectRules.ValidateProjectFrameworks`: a pass is stated only as far as the version lists and project discovery go. The per-project and grouping parts of a pass are stated by `CheckProject`, `Run` and `GroupsDiffer`. The grouping message is reduced to its heading.
- `PackageReferenceRules.Distinct` states the members and that there are no duplicates, but not first-occurrence order. That order affects only the message text.
- `GeneratePathPropertyRules.PathVariables` states which variables are gathered, but not their order or count.
- `GeneratePathPropertyRules.AllReasons` states which reasons there are and exactly how many, but not their order.
- `GeneratePathPropertyRules.ProjectReasons` states which reasons there are and exactly how many, but not their order.
- `TestRunners.ReportLines` states the line count and that each line starts with a failed file's path, but not the full order. `FileLines` states the order within a file.

## Findings

| source | as written | input that shows it | evidently intended | confidence | as-written member | corrected member |
|---|---|---|---|---|---|---|
| src/RepoIntegrityTests/PackageReferences.cs:303-304 | the `coderules` query selects `PackageReference[@Include='Particular.Analyzers']`, repeating the first query | a project whose only package reference is `Particular.CodeRules` is not failed | the second query names `Particular.CodeRules`, so an explicit reference to either package fails the project | medium, not executed | PackageReferenceRules.AnalyzerReferenceCallsAsWritten | PackageReferenceRules.AnalyzerReferenceCalls |
