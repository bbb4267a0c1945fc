# coverlet reporting core, modelled in Dafny

This project models the reporting core of coverlet, a .NET code-coverage tool. It does not model the instrumentation that produces hit counts. It models what happens to them afterwards:

- **Coverage data model.** The coverage result is a tree: module → document → class → method → lines and branch records. Each dictionary is a sequence of key/value pairs in insertion order.
- **Statistics.** The covered/total counts of lines, branches and methods, at every scope of the tree.
- **Threshold gate.** `GetThresholdTypesBelowThreshold` returns the categories (line, branch, method) whose configured minimum is not met. It supports four aggregation policies: Minimum, Maximum, Average and Total.
- **Cobertura reporter.** The report is built as a tree of elements rather than XML text. This covers:
  - the base paths listed under `sources` (`GetBasePaths`);
  - class filenames made relative to those base paths (`GetRelativePathFromBase`);
  - the method `name`/`signature` split of the method key;
  - skipping methods that have no lines;
  - per-line branch points, with one `condition` per distinct branch offset.
- **TeamCity reporter.**
  - It refuses deterministic mode.
  - Otherwise it writes six `buildStatisticValue` service messages carrying the whole-result counts.
  - Lemmas read the output back: split on newlines, parse each message, recover the keys and counts.
- **Reporter metadata.** Each reporter's format, output type and extension, and lookup of a reporter by format name.
- **Output file name.** The report writer's output file name: the target framework (TFM) goes before the extension, and the reporter's extension is used where the output names none.
- **Retry helper.** `RetryHelper.Retry`: attempts, backoff calls and stopping at the first success.

Files:

| file | contents |
|---|---|
| `wrappers.dfy` | `Option` and `Result` |
| `seqs.dfy` | sequence helpers |
| `strings.dfy` | string helpers: split, join, first/last segment, decimal digits |
| `coverage.dfy` | the data model and the statistics |
| `thresholds.dfy` | the threshold gate |
| `basepaths.dfy` | the Cobertura path algebra |
| `cobertura.dfy` | the Cobertura report tree |
| `teamcity.dfy` | the TeamCity output |
| `reporters.dfy` | reporter metadata |
| `reportwriter.dfy` | output-file naming |
| `retry.dfy` | the retry loop |

Several parts are modelled from their tests, because their implementation files are not part of this model:

- **Statistics and threshold gate** (`CoverageSummary`, `CoverageResult`): from the fixture and assertions in `test/coverlet.core.tests/CoverageResultTests.cs`.
- **Output file name** (`ReportWriter`): from the data rows of `test/coverlet.msbuild.tasks.tests/Reporters.cs`.
- **Retry helper** (`RetryHelper`): from `test/coverlet.core.tests/Helpers/RetryHelperTests.cs`.

## Model

| member | source | states |
|---|---|---|
| `Coverage.LineCoverage` | test/coverlet.core.tests/CoverageResultTests.cs:16-50 | Total is the number of tracked lines and covered ≤ total. Every line is covered iff every hit count is positive; none is covered iff no hit count is positive. |
| `Coverage.BranchCoverage` | test/coverlet.core.tests/CoverageResultTests.cs:22-51 | Every branch record counts toward the total, and covered ≤ total. All are covered iff every record was hit; none is covered iff no record was hit. |
| `Coverage.LineCoveredIsFiltered` | test/coverlet.core.tests/CoverageResultTests.cs:16-50 | The covered line count is the number of lines whose hit count is positive. |
| `Coverage.BranchCoveredIsFiltered` | test/coverlet.core.tests/CoverageResultTests.cs:22-51 | The covered branch count is the number of branch records whose hit count is positive. |
| `Coverage.LineCoverageOf` | test/coverlet.core.tests/CoverageResultTests.cs:16-51 | A scope's line counts never have more covered lines than tracked ones. |
| `Coverage.BranchCoverageOf` | test/coverlet.core.tests/CoverageResultTests.cs:22-51 | A scope's branch counts never have more covered records than records. |
| `Coverage.MethodCoverageOf` | test/coverlet.core.tests/CoverageResultTests.cs:30-49 | A scope's method counts have covered ≤ total ≤ the number of methods. |
| `Coverage.MethodCountsAreFiltered` | test/coverlet.core.tests/CoverageResultTests.cs:30-49 | The method total is the number of methods with at least one tracked line; the covered count is the number of those with a hit line. |
| `Coverage.MethodTotalMeaning` | test/coverlet.core.tests/CoverageResultTests.cs:30-49 | A scope's method total is zero exactly when none of its methods has tracked lines. |
| `Coverage.MethodCoveredMeaning` | test/coverlet.core.tests/CoverageResultTests.cs:30-49 | A scope's methods are all covered exactly when every method with lines had at least one hit line. |
| `Coverage.ScopeCoverageIsPooled` | src/coverlet.core/Reporters/CoberturaReporter.cs:139-142 | Summing per-method line and branch counts gives the same covered/total as counting the pooled lines and branches of the scope. |
| `Coverage.ScopeCoverageAppend` | src/coverlet.core/Reporters/CoberturaReporter.cs:28-29 | The line, branch and method counts of two concatenated scopes are the sums of their counts, so a parent's counts do not depend on how its methods are partitioned. |
| `Coverage.PercentBounds` | test/coverlet.core.tests/CoverageResultTests.cs:49-51 | A percentage lies in [0, 100], and it is exactly 100 iff covered equals total. |
| `Coverage.FixtureCounts` | test/coverlet.core.tests/CoverageResultTests.cs:16-62 | The fixture has lines 3/5, branches 2/3 and methods 1/2. The method whose lines all have zero hits is counted in the total but not as covered. |
| `Thresholds.CompareThresholdValues` | test/coverlet.core.tests/CoverageResultTests.cs:64-138 | A category is added iff it is configured and its threshold is strictly greater than the achieved percentage; flags already set are kept. |
| `Thresholds.MinimumLoop` | test/coverlet.core.tests/CoverageResultTests.cs:64-100 | Under the Minimum policy a category fails iff it is configured and some module's own percentage is below its threshold. |
| `Thresholds.MinPercent` | test/coverlet.core.tests/CoverageResultTests.cs:64-100 | The result is the percentage of one of the modules, and it is no greater than any module's percentage. |
| `Thresholds.MaxPercent` | test/coverlet.core.tests/CoverageResultTests.cs:64-158 | The value of the Maximum policy: no smaller than any module's percentage, and equal to one of them. |
| `Thresholds.Realized` | test/coverlet.core.tests/CoverageResultTests.cs:64-158 | With no modules the realised percentage is 0. Under Minimum it is no greater than any module's percentage and equals one of them. Under Maximum it is no smaller than any module's percentage and equals one of them. Under Total it is the percentage of the category's counts over all the result's methods taken together. |
| `Thresholds.AverageIsMean` | test/coverlet.core.tests/CoverageResultTests.cs:121-138 | Under Average, the realised percentage counted once per module adds up to the sum of the per-module percentages: it is their mean. |
| `Thresholds.TotalIsPooled` | test/coverlet.core.tests/CoverageResultTests.cs:102-119 | Under Total, the realised percentage is that of the pooled counts: all the result's lines, all its branch records, or all its methods, as one scope. |
| `Thresholds.GetThresholdTypesBelowThreshold` | test/coverlet.core.tests/CoverageResultTests.cs:160-178 | Only configured categories are reported. With no modules, exactly the categories with a positive threshold are reported. |
| `Thresholds.GateIsBelowRealized` | test/coverlet.core.tests/CoverageResultTests.cs:64-158 | Under every policy a category is reported iff it is configured and its threshold exceeds the percentage the policy realises: the minimum, the maximum, or the mean of the per-module percentages, or the percentage of the pooled counts. |
| `Thresholds.SingleModulePoliciesAgree` | test/coverlet.core.tests/CoverageResultTests.cs:64-158 | With one module all four policies realise that module's own percentage. |
| `Thresholds.NoModulesFailEverything` | test/coverlet.core.tests/CoverageResultTests.cs:160-178 | With no modules, every category configured with a positive threshold fails, under every policy. |
| `Thresholds.FixtureGate` | test/coverlet.core.tests/CoverageResultTests.cs:16-62 | On the fixture, any policy fails exactly the configured categories whose threshold exceeds 60 (line), 200/3 (branch) or 50 (method). |
| `Thresholds.MinimumReportsLine` | test/coverlet.core.tests/CoverageResultTests.cs:64-81 | Minimum policy with line 90, method 10, branch 10 reports only Line. |
| `Thresholds.MinimumReportsMethod` | test/coverlet.core.tests/CoverageResultTests.cs:83-100 | Minimum policy with line 50, method 75, branch 10 reports only Method. |
| `Thresholds.TotalReportsBranch` | test/coverlet.core.tests/CoverageResultTests.cs:102-119 | Total policy with line 50, method 50, branch 90 reports only Branch. |
| `Thresholds.AverageReportsNone` | test/coverlet.core.tests/CoverageResultTests.cs:121-138 | Average policy with 50 everywhere reports nothing: method coverage of exactly 50% passes, because the comparison is strict. |
| `Thresholds.FullThresholdsReportAll` | test/coverlet.core.tests/CoverageResultTests.cs:140-158 | Thresholds of 100 under Minimum report Line, Branch and Method. |
| `Thresholds.NoModulesReportAll` | test/coverlet.core.tests/CoverageResultTests.cs:160-178 | With no modules and thresholds of 80, all three categories are reported. |
| `BasePaths.CommonFragments` | src/coverlet.core/Reporters/CoberturaReporter.cs:194-212 | The common fragments are a prefix of every path's fragments and cannot be extended: some path has no further fragment, or disagrees with the first path on the next one. |
| `BasePaths.WalkIsMaximal` | src/coverlet.core/Reporters/CoberturaReporter.cs:198-211 | The shortest fragment list, cut where the walk stops, is a prefix of every list. At that point some list ends, or some list differs from the first list. |
| `BasePaths.CommonFragmentsIsLongest` | src/coverlet.core/Reporters/CoberturaReporter.cs:194-212 | The walk over the shortest fragment list yields a prefix of every path's fragments, and every common fragment prefix is a prefix of it: it is the longest common one. |
| `BasePaths.Shortest` | src/coverlet.core/Reporters/CoberturaReporter.cs:187-188 | The reference fragment list is one of the group's and no longer than any other, so the walk stays in range for every path. |
| `BasePaths.CommonCount` | src/coverlet.core/Reporters/CoberturaReporter.cs:198-210 | The walk stops at an index within the reference list. All lists agree before it, and where it stops short some list disagrees. |
| `BasePaths.GroupBasePath` | src/coverlet.core/Reporters/CoberturaReporter.cs:187-212 | A single-path group yields its root. A larger group yields its common fragments joined and ended by a separator. That base path is a string prefix of every member with more fragments than the common ones, and what follows it is the member's remaining fragments joined. |
| `BasePaths.GroupBasePathIsPrefix` | src/coverlet.core/Reporters/CoberturaReporter.cs:194-212 | The joined common fragments with a trailing separator are a string prefix of every member with more fragments than the common ones, and what remains is its remaining fragments joined. |
| `BasePaths.RootsOf` | src/coverlet.core/Reporters/CoberturaReporter.cs:185 | The root keys are exactly the roots of the document paths, each once, in the order in which the roots first occur along the paths. |
| `BasePaths.RootGroup` | src/coverlet.core/Reporters/CoberturaReporter.cs:185 | The group under a key holds exactly the paths whose root is that key, and is non-empty when some path has that root. |
| `BasePaths.GroupBasePaths` | src/coverlet.core/Reporters/CoberturaReporter.cs:185-213 | One base path per key, in key order: the base path of the group of paths under that key. |
| `BasePaths.GetBasePathsAsWritten` | src/coverlet.core/Reporters/CoberturaReporter.cs:155-214 | With source link the base paths are exactly [""]. Otherwise, over the document paths of every module as listed (duplicates included), there is one base path per root in first-occurrence order, each the base path of the paths under that root. |
| `BasePaths.GetBasePaths` | src/coverlet.core/Reporters/CoberturaReporter.cs:180-214 | The same as the reporter's computation, except that the root groups are formed over the distinct document paths. |
| `BasePaths.BasePathsAgreeWithoutSharedDocuments` | src/coverlet.core/Reporters/CoberturaReporter.cs:180-214 | When no document path is listed twice, the deduplicated and the as-written base paths are equal. |
| `BasePaths.RootsInFirstOccurrenceOrder` | src/coverlet.core/Reporters/CoberturaReporter.cs:185 | For paths a, b, c where a and c share a root different from b's, the keys are [root(a), root(b)]: first occurrence decides the order. |
| `BasePaths.RelativePathFromBase` | src/coverlet.core/Reporters/CoberturaReporter.cs:216-231 | With source link, or when no base path is a prefix, the path is kept. Otherwise the first matching base path `b` is stripped, so `b + result == path`. |
| `BasePaths.TwoPathBase` | src/coverlet.core/Reporters/CoberturaReporter.cs:194-212 | The paths `/d1/d2/f1` and `/d1/f2` under one root (with d2 ≠ f2) have the base path `/d1/`. |
| `BasePaths.TwoPathRelative` | src/coverlet.core/Reporters/CoberturaReporter.cs:223-230 | Against the base `/d1/`, the path `/d1/d2/f1` becomes `d2/f1`. |
| `BasePaths.SharedDocumentAsWritten` | src/coverlet.core/Reporters/CoberturaReporter.cs:185-192 | A document listed by two modules, alone under its root, gets the base path `path/`, which is not a prefix of it, so its filename stays absolute. |
| `BasePaths.SharedDocumentCorrected` | src/coverlet.core/Reporters/CoberturaReporter.cs:185-192 | Over distinct paths the same input gets its root as base path, and the filename is the path with the root stripped. |
| `BasePaths.DistinctGroupBaseIsPrefix` | src/coverlet.core/Reporters/CoberturaReporter.cs:185-212 | Over distinct paths, if a root is a prefix of its paths and the paths share a first fragment, every group's base path is a prefix of some document of the group. |
| `Cobertura.MemberSegment` | src/coverlet.core/Reporters/CoberturaReporter.cs:87-88 | The member part holds no ':' and is a suffix of the key. When the key holds a ':', the member part is preceded by one. |
| `Cobertura.MethodName` | src/coverlet.core/Reporters/CoberturaReporter.cs:87 | The name holds no ':' or '(' and begins the member part. When the member part holds a '(', the name is followed by it, so it is the text before the first '('. Otherwise it is the whole member part. |
| `Cobertura.MethodSignature` | src/coverlet.core/Reporters/CoberturaReporter.cs:88 | The signature is '(' followed by a suffix of the member part that holds no ':' or '('. When the member part holds a '(', the whole signature is a suffix of it, so it is the last '(' and the text after it. Otherwise it is '(' followed by the whole member part. |
| `Cobertura.MethodNameAndSignature` | src/coverlet.core/Reporters/CoberturaReporter.cs:87-88 | For a key `declaring::name(parameters)` (name and parameters free of ':' and '('), the name attribute is `name`, the signature is `(` + parameters, and the member part is `name(parameters)`. |
| `Cobertura.OffsetsOf` | src/coverlet.core/Reporters/CoberturaReporter.cs:108 | The offsets list has one entry per record, in order, and holds exactly the records' offsets. |
| `Cobertura.ConditionTypeOf` | src/coverlet.core/Reporters/CoberturaReporter.cs:113 | A condition is a switch iff its offset group has more than two records; otherwise it is a jump. |
| `Cobertura.Conditions` | src/coverlet.core/Reporters/CoberturaReporter.cs:102-116 | The condition numbers are distinct and are exactly the records' offsets. Condition i is numbered by the i-th distinct offset in first-occurrence order. Each condition is a switch iff its offset group has more than two records, and carries that group's branch coverage. |
| `Cobertura.ConditionsInFirstOccurrenceOrder` | src/coverlet.core/Reporters/CoberturaReporter.cs:108-109 | If a condition comes before another, some record of the first comes earlier than every record of the second. That is the first-occurrence key order of the grouping. |
| `Cobertura.MakeLine` | src/coverlet.core/Reporters/CoberturaReporter.cs:96-119 | The line element keeps the line's number and hits. It is a branch point iff some branch record of the method is on that line. A branch point carries the coverage of that line's records and the conditions of those records, in first-occurrence order. Any other line carries none. |
| `Cobertura.MakeMethod` | src/coverlet.core/Reporters/CoberturaReporter.cs:86-99 | The method element has the split name and signature and the method's line and branch coverage. It has one line element per tracked line, in order, and each is the line element of that line: same number and hits, a branch point iff the method has a branch record on that line, with that line's coverage and conditions. |
| `Cobertura.ClassFileName` | src/coverlet.core/Reporters/CoberturaReporter.cs:63-72 | Deterministic mode uses the translator's path. Source link keeps the document path. Otherwise the filename is the document path relative to the first base path that is a prefix of it, or the document path itself when none is. |
| `Cobertura.MakeClass` | src/coverlet.core/Reporters/CoberturaReporter.cs:59-131 | The class element has one method element per method with lines, in order, and each has at least one line. The class `lines` block is the concatenation of the emitted methods' line elements. Its coverage is that of all the class's methods. |
| `Cobertura.EmittedMethodsAreThoseWithLines` | src/coverlet.core/Reporters/CoberturaReporter.cs:80-84 | A method gets an element iff it has at least one tracked line. When every method has lines, all are emitted in their original order. |
| `Cobertura.MakeClasses` | src/coverlet.core/Reporters/CoberturaReporter.cs:57-72 | One class element per class of the document, in order. Element i is the class element of class i, with its class name and the document's filename. |
| `Cobertura.ModuleClassEntries` | src/coverlet.core/Reporters/CoberturaReporter.cs:57-59 | The entries are the class entries of each document concatenated, documents in order and classes in order within each: every class of every document exactly once, and nothing else. |
| `Cobertura.MakeModuleClasses` | src/coverlet.core/Reporters/CoberturaReporter.cs:57-72 | Element i is the class element of the i-th class entry of the module, documents in order and classes in order within each. Every class element is named after one of the module's documents. |
| `Cobertura.ClassFileNamesOfDocuments` | src/coverlet.core/Reporters/CoberturaReporter.cs:63-72 | Every class element built from the module's class entries has the filename of one of the module's documents. |
| `Cobertura.ClassFileNameOfEntry` | src/coverlet.core/Reporters/CoberturaReporter.cs:63-72 | The class element at a position has the filename of the document of its entry, one of the module's documents. |
| `Cobertura.MakePackage` | src/coverlet.core/Reporters/CoberturaReporter.cs:48-72 | The package is named by the module path without extension and carries the module's line and branch coverage. Its classes are the class elements of the module's class entries, in order, each named after one of the module's documents. |
| `Cobertura.ReportBasePaths` | src/coverlet.core/Reporters/CoberturaReporter.cs:40-45 | Deterministic mode lists no sources. Otherwise the sources are the base paths of the result's modules, which is [""] with source link. |
| `Cobertura.Report` | src/coverlet.core/Reporters/CoberturaReporter.cs:24-146 | The root has version 1.9 and the sources. It has one package per module in order: package i is the package of module i, named after it. The valid/covered attributes equal the root counts, which are those of all the result's lines and branches pooled. |
| `Cobertura.TwoOffsetsTwoConditions` | src/coverlet.core/Reporters/CoberturaReporter.cs:102-116 | Two records on one line at different offsets make two jump conditions, numbered by the offsets in record order. |
| `Cobertura.SharedOffsetIsSwitch` | src/coverlet.core/Reporters/CoberturaReporter.cs:102-116 | Three or more records sharing one offset make a single switch condition, carrying the coverage of all of them. |
| `Cobertura.DeterministicReport` | src/coverlet.core/Reporters/CoberturaReporter.cs:41-45 | In deterministic mode the report lists no sources, and every class filename is the translator's path for one of the module's documents. |
| `Cobertura.SourceLinkReport` | src/coverlet.core/Reporters/CoberturaReporter.cs:180-183 | With source link the only source is "", and every class filename is one of the module's document paths, unchanged. |
| `TeamCity.Report` | src/coverlet.core/Reporters/TeamCityReporter.cs:19-39 | The report fails iff deterministic mode is set. A successful report ends with a newline. |
| `TeamCity.ReportLines` | src/coverlet.core/Reporters/TeamCityReporter.cs:27-71 | Split on newlines, a successful report is exactly the six message lines followed by an empty remainder. Line k reads back as the k-th key, in the order L covered, L total, B covered, B total, M covered, M total, with the k-th count over the whole result. |
| `TeamCity.ServiceMessage` | src/coverlet.core/Reporters/TeamCityReporter.cs:68-71 | A service message for a quote-free key reads back as that key and its value. A message for a newline-free key holds no newline. |
| `TeamCity.MessageTextRoundTrip` | src/coverlet.core/Reporters/TeamCityReporter.cs:68-71 | The message text for a quote-free key parses back to that key and its value, a whole count written as plain decimal digits. |
| `TeamCity.MessageTextHasNoNewline` | src/coverlet.core/Reporters/TeamCityReporter.cs:68-71 | The message text for a newline-free key holds no newline. |
| `TeamCity.MessagesReadBack` | src/coverlet.core/Reporters/TeamCityReporter.cs:41-66 | Each of the six messages is free of newlines and reads back as its key and count. |
| `TeamCity.AppendLinesIsJoin` | src/coverlet.core/Reporters/TeamCityReporter.cs:68-71 | A sequence of `AppendLine` calls gives the lines joined by newlines, with a final newline. |
| `TeamCity.EmptyResultReportsZeros` | src/coverlet.core/Reporters/TeamCityReporter.cs:27-29 | With no modules, all six counts are zero. |
| `Reporters.ReporterFor` | test/coverlet.msbuild.tasks.tests/Reporters.cs:31-41 | A reporter is found iff some known reporter declares that format, and the one found declares it. |
| `Reporters.ReporterForKnown` | src/coverlet.core/Reporters/CoberturaReporter.cs:18-22 | Each known reporter is found by its own format name. |
| `Reporters.FileReportersHaveExtensions` | src/coverlet.core/Reporters/TeamCityReporter.cs:13-17 | A known reporter writes to a file iff it declares an extension; the console reporter declares none. |
| `ReportWriter.NewName` | test/coverlet.msbuild.tasks.tests/Reporters.cs:20-30 | A name with an extension keeps that extension, and is kept whole without a TFM. A name without one ends with `.` + the reporter extension. |
| `ReportWriter.OutputFileName` | test/coverlet.msbuild.tasks.tests/Reporters.cs:20-30 | The output path starts with the output's directory part. |
| `ReportWriter.NewNameQualified` | test/coverlet.msbuild.tasks.tests/Reporters.cs:20-30 | Each of the three cases puts the TFM qualifier (empty without a TFM, `.<tfm>` with one) right after the base name and before the extension. The base name is `coverage` for a directory, the stem for a named extension, and the name itself otherwise. |
| `ReportWriter.DirectoryIsKept` | test/coverlet.msbuild.tasks.tests/Reporters.cs:20-30 | The directory part of the output path is never altered, and the file part is the new name. |
| `ReportWriter.NewNameIsPlain` | test/coverlet.msbuild.tasks.tests/Reporters.cs:20-30 | When neither the TFM nor the reporter extension holds a separator, the new name of a plain file name is a plain file name. |
| `ReportWriter.NoTfmKeepsNamedOutput` | test/coverlet.msbuild.tasks.tests/Reporters.cs:22-23 | Without a TFM, an output that names an extension is kept verbatim. |
| `ReportWriter.NoTfmDirectoryOutput` | test/coverlet.msbuild.tasks.tests/Reporters.cs:20-21 | Without a TFM, a directory output gets `coverage.` + the reporter extension. |
| `ReportWriter.NoTfmExtensionlessOutput` | test/coverlet.msbuild.tasks.tests/Reporters.cs:24 | Without a TFM, an extensionless output gets `.` + the reporter extension. |
| `ReportWriter.TfmBeforeReporterExtension` | test/coverlet.msbuild.tasks.tests/Reporters.cs:26-27 | With a TFM, a directory or extensionless output becomes `<base>.<tfm>.<reporter extension>`: the TFM goes before the whole reporter extension. |
| `ReportWriter.TfmBeforeOwnExtension` | test/coverlet.msbuild.tasks.tests/Reporters.cs:28-29 | With a TFM and an output naming its extension, the TFM goes before the last extension only. |
| `ReportWriter.TfmBeforeOwnExtensionOfName` | test/coverlet.msbuild.tasks.tests/Reporters.cs:29 | The name with the TFM keeps the output's extension, and its stem is the output's stem followed by `.<tfm>`. |
| `ReportWriter.RowEmptyTfmDirectory` | test/coverlet.msbuild.tasks.tests/Reporters.cs:20 | An empty TFM and the lcov extension in directory `d` give `d` + `coverage.info`. |
| `ReportWriter.RowNoTfmDirectory` | test/coverlet.msbuild.tasks.tests/Reporters.cs:21 | No TFM and the cobertura extension in directory `d` give `d` + `coverage.cobertura.xml`. |
| `ReportWriter.RowNoTfmExtension` | test/coverlet.msbuild.tasks.tests/Reporters.cs:22 | No TFM keeps `d` + `file.ext`. |
| `ReportWriter.RowNoTfmTwoExtensions` | test/coverlet.msbuild.tasks.tests/Reporters.cs:23 | No TFM keeps `d` + `file.ext1.ext2`. |
| `ReportWriter.RowNoTfmPlainFile` | test/coverlet.msbuild.tasks.tests/Reporters.cs:24 | No TFM turns `d` + `file` into `d` + `file.cobertura.xml`. |
| `ReportWriter.RowTfmDirectoryLcov` | test/coverlet.msbuild.tasks.tests/Reporters.cs:26 | TFM netcoreapp2.2 and lcov in directory `d` give `d` + `coverage.netcoreapp2.2.info`. |
| `ReportWriter.RowTfmDirectoryCobertura` | test/coverlet.msbuild.tasks.tests/Reporters.cs:27 | TFM netcoreapp2.2 and cobertura in directory `d` give `d` + `coverage.netcoreapp2.2.cobertura.xml`. |
| `ReportWriter.RowTfmExtension` | test/coverlet.msbuild.tasks.tests/Reporters.cs:28 | TFM net472 turns `d` + `file.ext` into `d` + `file.net472.ext`. |
| `ReportWriter.RowTfmTwoExtensions` | test/coverlet.msbuild.tasks.tests/Reporters.cs:29 | TFM net472 turns `d` + `file.ext1.ext2` into `d` + `file.ext1.net472.ext2`. |
| `ReportWriter.RowTfmPlainFile` | test/coverlet.msbuild.tasks.tests/Reporters.cs:30 | TFM netcoreapp2.2 turns `d` + `file` into `d` + `file.netcoreapp2.2.cobertura.xml`. |
| `Retry.Retry` | test/coverlet.core.tests/Helpers/RetryHelperTests.cs:69-82 | The action is called until its first success or until the budget runs out, and never again after a success. The backoff runs once before every call but the first. The failure surfaces iff no call within the budget succeeds, carrying one collected failure per call. |
| `Retry.AlwaysFailingAction` | test/coverlet.core.tests/Helpers/RetryHelperTests.cs:13-30 | An always-failing action with a budget of 7 is called 7 times, and the failure surfaces. |
| `Retry.ExponentialBackoff` | test/coverlet.core.tests/Helpers/RetryHelperTests.cs:32-53 | With a budget of 3, the doubling backoff starting at 6 runs twice and ends at 24. |
| `Retry.SucceedsOnSixthCall` | test/coverlet.core.tests/Helpers/RetryHelperTests.cs:55-66 | An action that succeeds on its sixth call, with a budget of 20, is called 6 times and succeeds. |

## Left out

- **XML.** Serialisation and encoding (`XDocument`, `MemoryStream`, UTF-8 without BOM) are not modelled. The report is a tree of elements.
- **Timestamp.** The `timestamp` attribute is not modelled: it is the wall-clock time at render time.
- **Rates.**
  - Line and branch rates are computed in double precision and printed with the culture's number format; neither is modelled.
  - The model keeps covered/total as integers and a percentage as an exact `real`, with 100 for an empty scope. Any rounding the statistics code applies to a percentage is not modelled.
  - The `condition-coverage` and `coverage` strings of a line are represented by their covered/total counts.
  - TeamCity's `"0.##"` format is modelled only for whole numbers, the only values it prints: they render as their plain decimal digits.
- **Complexity.** Cyclomatic complexity at method, class and module scope comes from uninterpreted functions in `Cobertura.Collaborators`. `CalculateCyclomaticComplexity` is not part of this model.
- **Platform calls.**
  - `Directory.GetDirectoryRoot`, `Path.GetFileNameWithoutExtension` and `ISourceRootTranslator.ResolveDeterministicPath` are uninterpreted functions.
  - `Path.DirectorySeparatorChar` is fixed to '/'.
  - The relative-output case of `Path.Combine` (the working directory) is not modelled.
- **String comparison.** `StartsWith` is ordinal string prefix; culture-sensitive comparison is not modelled.
- **Line terminator.** `Environment.NewLine` is "\n".
- **Dictionary order.** Dictionaries keep insertion order, and `GroupBy` keeps first-occurrence order. A hash dictionary's iteration order is not modelled.
- **Maximum policy.** The gate includes the Maximum policy, although no test exercises it.
- **Implementation files not in this model.** `CoverageSummary`, `CoverageResult.GetThresholdTypesBelowThreshold`, `ReportWriter`, `ReporterFactory` and `RetryHelper` are not part of this model. Their behaviour is taken from the tests cited above.
- **Empty result.** With no modules, the gate's achieved percentage is 0 under every policy. The no-module test (`test/coverlet.core.tests/CoverageResultTests.cs:159-177`) checks this only for the Minimum policy. For the Average, Total and Maximum policies the model follows the system's documented rule that a result without modules achieves 0, which no test exercises.
- **Retry helper.**
  - The action is modelled by its outcome on each call.
  - Which exception types are retried or rethrown at once is not modelled.
  - `Thread.Sleep` is modelled as a state transformer applied once per backoff.
- **Lcov.** The lcov reporter is present only through its format name and extension; its report body is not modelled.
- **Async tests.** The end-to-end async/await coverage tests instrument code in a child process; they are outside this sequential core.
- `Cobertura.MethodNameAndSignature`: stated for keys whose name and parameter list hold no ':' or '('. For other keys, the contracts of `Cobertura.MethodName` and `Cobertura.MethodSignature` still fix the result: the text before the first '(' of the member part, and '(' with the text after its last '('.
- `Cobertura.Report`: builds on the deduplicating `BasePaths.GetBasePaths`, whereas the reporter (CoberturaReporter.cs:185-192) groups the document paths with duplicates; the two agree whenever no document is listed by two modules (`BasePaths.BasePathsAgreeWithoutSharedDocuments`), and the case where they differ is under "## Findings".
- `Coverage.LineCoverageOf`, `Coverage.BranchCoverageOf`, `Coverage.MethodCoverageOf`: their own contracts state only the bounds. What the counts are is stated by `Coverage.ScopeCoverageIsPooled` (pooled lines and branches) and `Coverage.MethodCountsAreFiltered` (methods with lines, and those with a hit line).
- `Thresholds.Realized`: its contract states the Minimum, Maximum and Total policies and the empty case. The Average policy is stated by `Thresholds.AverageIsMean`, because a real product in the contract makes its callers' proofs unstable.
- `TeamCity.Report`: states the guard and the final newline; the content of the lines is stated by `TeamCity.ReportLines`.

## Findings

| source | as written | input that shows it | evidently intended | confidence | as-written member | corrected member |
|---|---|---|---|---|---|---|
| src/coverlet.core/Reporters/CoberturaReporter.cs:185-192 | Root groups are formed over every module's document paths, duplicates included. A file shared by two modules therefore forms a two-path "group" of one path. Its common fragments are all of its fragments, so its base path is `path/`. That is not a prefix of the file, so the class filename stays absolute. | Two modules that each list the one document `/src/a.cs`, alone under its root. | Group the distinct paths: a path alone under its root gets the root as base path and a relative filename. | medium; not executed | `BasePaths.SharedDocumentAsWritten` | `BasePaths.SharedDocumentCorrected` |

`Cobertura.Report` uses the corrected `BasePaths.GetBasePaths`. `BasePaths.DistinctGroupBaseIsPrefix` states the general property of the corrected grouping: each base path is a prefix of some document of its group.
