# Gnag check task — a Dafny model

Gnag is a Gradle plugin that runs static-analysis tools over a project. The tools are
Checkstyle, PMD, Findbugs, ktlint, detekt and Android Lint. The plugin merges their
violations into one set, writes an HTML report and decides whether the build fails.
This project models that engine:

- how the `gnagCheck` task picks its detectors from the `gnag` extension block and the
  kind of sources the project has;
- the tool-version defaults;
- the aggregation loop over the detectors;
- the local report writer;
- the status the task records;
- the way the task ends: normally, with a `GradleException` (hard abort), or with a
  `StopExecutionException` (soft halt, which lets a scheduled `gnagReport` task still run).

Modules:

- `Detectors` (`detectors.dfy`): a detector is a value. It has a display name, a flag
  saying whether it is of the executed kind, and the list it returns for this run. The
  spec functions are `Aggregate` (the violation set), `PassTrace` (the calls made on the
  detectors), `CountLog` (the progress lines), `LoggedTotal` (the sum of their counts) and
  `AllFindings` (every detector's list, concatenated). The file also holds the
  lemmas about them and the aggregation loop `CollectViolations`. A violation is the
  type parameter `V`. Two violations are one set entry exactly when they are equal values.
- `Extension` (`extension.dfy`): the extension block, the project facts, and detector
  selection (`SelectedTools`). Also the ktlint and detekt version defaults.
- `Files` (`files.dfy`): the file system, as a class holding a set of directories and a
  map from path to contents.
- `ReportWriter` (`report_writer.dfy`): the report constants, the document envelope, and
  `WriteReport`, `CopyCssFileToDirectory` and `DeleteReport`.
- `GnagCheck` (`gnag_check_task.dfy`): the class `GnagCheckTask`. Its constructor
  `AddTask` is `addTask`. It also has `ExecuteGnagCheck`, `TaskAction`, the task-graph
  search, the gate and the failure message.

A few things come from outside the task and are parameters of a run (`Environment`):

- the reports directory;
- the names of the tasks in the task graph;
- the violation formatter, an arbitrary function from a violation set to a string;
- the stylesheet resource;
- whether the report write fails, and whether the stylesheet copy fails.

The detector objects that `addTask` builds with `new XViolationDetector(project, …)` come
from a factory parameter `make`.

`GnagCheckTask.java` calls `ReportWriter.deleteLocalReportFiles` and
`ReportWriter.writeLocalReportFiles`. `ReportWriter.java` defines neither. The model
stands in for them with `DeleteReport` (`deleteReport`, lines 71-75) and `WriteReport`
(`writeReport`, lines 44-69).

A clean run asks for the report to be deleted (`GnagCheckTask.java` line 154), but
`deleteReport` (`ReportWriter.java` lines 71-75) is a `// TODO: make this happen` stub
that returns `false`. So in the model a clean run records the deletion request and
changes no file, and a report from an earlier failing run stays on disk.

`ExecuteGnagCheck` keeps the short-circuit of the gate condition: the task graph is
searched only when fail-on-error is set.

The value of `GnagReportTask.TASK_NAME` is taken to be `"gnagReport"`.
GnagReportTask.java is not part of this model.

## Model

| member | source | states |
|---|---|---|
| `Detectors.AggregateMembers` | plugin/src/main/groovy/com/btkelly/gnag/tasks/GnagCheckTask.java:137-149 | a violation is in the aggregated set exactly when some detector's returned list contains it (both directions) |
| `Detectors.AggregateOrderIndependent` | plugin/src/main/groovy/com/btkelly/gnag/tasks/GnagCheckTask.java:137-149 | two detector lists with the same members give the same set, whatever their order and repetitions |
| `Detectors.CollectViolations` | plugin/src/main/groovy/com/btkelly/gnag/tasks/GnagCheckTask.java:137-149 | the loop returns the union of every detector's list (membership stated directly); it makes exactly the calls of `PassTrace`; it writes one progress line per detector, carrying that detector's name and the length of its own list |
| `Detectors.CountLog` | plugin/src/main/groovy/com/btkelly/gnag/tasks/GnagCheckTask.java:147-148 | there is one progress line per detector, in order; line k carries detector k's name and the size of its returned list, not the number of new set entries |
| `Detectors.PassTraceBounded` | plugin/src/main/groovy/com/btkelly/gnag/tasks/GnagCheckTask.java:139-144 | every call in the trace is made on a configured detector |
| `Detectors.PassTraceInListOrder` | plugin/src/main/groovy/com/btkelly/gnag/tasks/GnagCheckTask.java:139 | detectors are visited in list order: detector positions never decrease along the trace |
| `Detectors.PassTraceExecutesBeforeReading` | plugin/src/main/groovy/com/btkelly/gnag/tasks/GnagCheckTask.java:140-144 | the violations of an executed-kind detector are read immediately after that detector's `executeReporter` call |
| `Detectors.PassTraceReadsAll` | plugin/src/main/groovy/com/btkelly/gnag/tasks/GnagCheckTask.java:144 | every detector is asked for its violations |
| `Detectors.PassTraceLength` | plugin/src/main/groovy/com/btkelly/gnag/tasks/GnagCheckTask.java:139-144 | the pass makes exactly one call per detector plus one per executed-kind detector; with `PassTraceReadsAll` and `PassTraceExecutesExactly` this makes every call happen exactly once |
| `Detectors.PassTraceExecutesExactly` | plugin/src/main/groovy/com/btkelly/gnag/tasks/GnagCheckTask.java:140-142 | `executeReporter` is called on a detector exactly when it is of the executed kind |
| `Detectors.ElementsAtMostLength` | plugin/src/main/groovy/com/btkelly/gnag/tasks/GnagCheckTask.java:144-148 | a list's entries, taken as a set, are never more than the list's length |
| `Detectors.ElementsKeepLengthIffDistinct` | plugin/src/main/groovy/com/btkelly/gnag/tasks/GnagCheckTask.java:144-148 | a list's entries, taken as a set, are exactly as many as the list's length when no entry of the list repeats, and fewer otherwise |
| `Detectors.AggregateIsElementsOfAll` | plugin/src/main/groovy/com/btkelly/gnag/tasks/GnagCheckTask.java:139-149 | the set holds exactly the entries of all the detectors' lists taken one after another |
| `Detectors.LoggedTotalIsLength` | plugin/src/main/groovy/com/btkelly/gnag/tasks/GnagCheckTask.java:144-148 | the counts on the progress lines add up to the total length of the detectors' lists |
| `Detectors.AggregateAtMostLoggedTotal` | plugin/src/main/groovy/com/btkelly/gnag/tasks/GnagCheckTask.java:144-148 | the set never holds more violations than the logged counts add up to, and holds fewer exactly when some violation is returned more than once, by one detector or by two |
| `Detectors.DuplicateFindingsExample` | plugin/src/main/groovy/com/btkelly/gnag/tasks/GnagCheckTask.java:144-148 | an example: detectors returning 2, 0 and 1 violations, where the first returns one violation twice, log 2, 0 and 1 (total 3) while the set holds 2 |
| `Extension.RegisteredMembers` | plugin/src/main/groovy/com/btkelly/gnag/tasks/GnagCheckTask.java:75-120 | a tool's detector is registered exactly when the tool is considered, enabled, and the project has the sources it needs (both directions) |
| `Extension.RegisteredInOrder` | plugin/src/main/groovy/com/btkelly/gnag/tasks/GnagCheckTask.java:75-120 | registration keeps the order in which the tools are considered |
| `Extension.SelectedToolsCharacterized` | plugin/src/main/groovy/com/btkelly/gnag/tasks/GnagCheckTask.java:75-120 | the registered tools are exactly the enabled ones whose sources are present: Java sources for Checkstyle, PMD and Findbugs; Kotlin sources for ktlint and detekt; an Android project for Android Lint. Each appears once, in the order Checkstyle, PMD, Findbugs, ktlint, detekt, Android Lint |
| `Extension.KtlintVersion` | plugin/src/main/groovy/com/btkelly/gnag/tasks/GnagCheckTask.java:91-92 | the ktlint version is the override when one is set, else "0.35.0" |
| `Extension.DetektVersion` | plugin/src/main/groovy/com/btkelly/gnag/tasks/GnagCheckTask.java:104-105 | the detekt version is the override when one is set, else "1.0.1" |
| `GnagCheck.GnagCheckTask.AddTask` | plugin/src/main/groovy/com/btkelly/gnag/tasks/GnagCheckTask.java:61-121 | the new task keeps the extension; its detector list is the factory's detector for each selected tool, in registration order |
| `GnagCheck.GnagCheckTask.RegisterWhen` | plugin/src/main/groovy/com/btkelly/gnag/tasks/GnagCheckTask.java:75-120 | one registration step: under the source's test for that tool, the tool's detector is appended, and otherwise the list stays as it was |
| `GnagCheck.GnagCheckTask.TaskAction` | plugin/src/main/groovy/com/btkelly/gnag/tasks/GnagCheckTask.java:125-129 | when the plugin is disabled nothing runs and no file changes; otherwise one full run happens, as `ExecuteGnagCheck` promises |
| `GnagCheck.GnagCheckTask.ExecuteGnagCheck` | plugin/src/main/groovy/com/btkelly/gnag/tasks/GnagCheckTask.java:136-177 | the run's trace and progress lines are those of its detectors. When the set is empty: deletion of the report in the reports directory requested, status success, normal completion, no file changes. Otherwise: a report of exactly the set requested for the reports directory, status failure carrying exactly the set, the ending the gate gives for the configured policy and the task graph, the reports directory created, and the files as `FilesAfterWrite` gives them for the enveloped report of the set |
| `GnagCheck.PassSucceedsIffNothingFound` | plugin/src/main/groovy/com/btkelly/gnag/tasks/GnagCheckTask.java:153-162 | a run records success exactly when every detector returned an empty list, exactly when it ends without an exception, and exactly when it asks for the report to be deleted |
| `GnagCheck.FailedPassCarriesAllViolations` | plugin/src/main/groovy/com/btkelly/gnag/tasks/GnagCheckTask.java:159-176 | a failed run's status carries every violation any detector returned and nothing else; the run asks for a report of exactly that set; the run always ends with one of the two exceptions; unless the write fails, the report file holds the enveloped rendering of that set |
| `GnagCheck.FailedMessage` | plugin/src/main/groovy/com/btkelly/gnag/tasks/GnagCheckTask.java:164-168 | the failure message is the fixed lead, then the report file's path inside the reports directory, then the fixed tail |
| `GnagCheck.Gate` | plugin/src/main/groovy/com/btkelly/gnag/tasks/GnagCheckTask.java:170-175 | hard abort (`GradleException`) exactly when fail-on-error is set and the report task is not scheduled; soft halt (`StopExecutionException`) exactly otherwise; both carry the failure message |
| `GnagCheck.TaskExecutionGraphIncludesGnagReport` | plugin/src/main/groovy/com/btkelly/gnag/tasks/GnagCheckTask.java:183-191 | true exactly when some scheduled task is named like the report task |
| `Files.Child` | plugin/src/main/groovy/com/btkelly/gnag/utils/ReportWriter.java:58 | a child path is the directory, a separator, then the name, so the name can be read back from the path |
| `Files.FileSystem.MakeDirectories` | plugin/src/main/groovy/com/btkelly/gnag/utils/ReportWriter.java:50 | the directory exists afterwards; no file changes |
| `Files.FileSystem.Write` | plugin/src/main/groovy/com/btkelly/gnag/utils/ReportWriter.java:57-64 | a successful write replaces that one file's contents; a failed write reports failure and changes nothing |
| `ReportWriter.ReportAndCssPathsDiffer` | plugin/src/main/groovy/com/btkelly/gnag/utils/ReportWriter.java:32-33 | "gnag.html" and "github-markdown.css" in one directory are different files |
| `ReportWriter.ReportDocument` | plugin/src/main/groovy/com/btkelly/gnag/utils/ReportWriter.java:52-55 | the document splits into exactly the fixed prefix, the formatted body and the fixed suffix |
| `ReportWriter.ReportDocumentInjective` | plugin/src/main/groovy/com/btkelly/gnag/utils/ReportWriter.java:52-55 | the body can be read back from the document: equal documents have equal bodies |
| `ReportWriter.PrefixLinksCopiedStylesheet` | plugin/src/main/groovy/com/btkelly/gnag/utils/ReportWriter.java:33-39 | the stylesheet link in the prefix names the file `CSS_FILE_NAME`, which is the file the copy step creates |
| `ReportWriter.FilesAfterWrite` | plugin/src/main/groovy/com/btkelly/gnag/utils/ReportWriter.java:57-68 | a failed report write leaves every file as it was. Otherwise the report file holds the content; the stylesheet file holds the resource unless its copy failed, in which case it keeps its old state; every other file is unchanged |
| `ReportWriter.CopyCssFileToDirectory` | plugin/src/main/groovy/com/btkelly/gnag/utils/ReportWriter.java:77-87 | the stylesheet lands next to the report; a failed copy is swallowed and changes nothing |
| `ReportWriter.WriteReport` | plugin/src/main/groovy/com/btkelly/gnag/utils/ReportWriter.java:44-69 | an empty set gives `IllegalStateException` before any directory or file is touched. Otherwise the directory is created, and the result is `true` exactly when the report write succeeded, even if the stylesheet copy failed. The files are as `FilesAfterWrite` gives them for the enveloped, formatted set |
| `ReportWriter.DeleteReport` | plugin/src/main/groovy/com/btkelly/gnag/utils/ReportWriter.java:71-75 | always returns `false` and changes nothing (it has no write access to the file system) |

## Left out

- Gradle wiring is not modelled. This covers the task options (`TASK_NAME`, group,
  description, `dependsOn "check"`), the `gnagKtlint` and `gnagDetekt` configurations and
  their dependency coordinates, `KtlintTask.addTask` and `DetektTask.addTask`, and
  `dependsOn` on those tasks. The tool versions are modelled; the dependency strings built
  from them are not.
- The individual detectors are opaque. Each one is its name, its executed-kind flag and the
  list it returns. Which detector classes extend `BaseExecutedViolationDetector` is not
  shown, so the flag comes with the detector. A detector whose tool crashes or throws is
  not modelled.
- `ViolationsFormatter.getHtmlStringForAggregatedComment` is not shown. It is a parameter
  (any function from a set to a string). So the model cannot say that every violation
  appears in the rendered report.
- `Violation.equals` / `hashCode` are not shown. A violation is a type parameter with its
  own equality.
- File I/O is simplified:
  - mkdirs adds only the directory itself, not its parents;
  - mkdirs always succeeds: `File.mkdirs()` can fail, and its result is ignored
    (`ReportWriter.java` lines 49-50); a failure would show up as a failed report write;
  - a failed write leaves no partial file;
  - the separator is fixed to '/', and paths are not normalised: a child of the root
    directory `/` gets a doubled separator, whereas `new File(directory, name)` does not
    double it (the failure message, which concatenates the strings, does);
  - the stylesheet is a parameter, and a missing class-loader resource counts as a copy failure;
  - whether a write fails is a parameter.
- Logging is mostly left out. The per-detector lines are kept as (name, count) pairs, and
  the number is not rendered as decimal text. The success message, the lifecycle log
  before the soft halt, and the `System.out` / `printStackTrace` output are left out.
  `getLogger` is left out.
- `project.setStatus` is not modelled as project state. The status is an output of the run.
- The task graph is reduced to the sequence of scheduled task names.
- `deleteCssFileFromDirectory` is an empty private stub that nothing calls. It is not modelled.
- The results of `writeLocalReportFiles` and `deleteLocalReportFiles` are ignored by the
  task, as in the source.
