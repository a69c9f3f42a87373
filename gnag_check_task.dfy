/** The `gnagCheck` task: it registers the enabled detectors when it is added to a
    project, and when it runs it aggregates their violations, writes or deletes the local
    report, records the check status and decides how the task ends. */
module GnagCheck {
  import opened Detectors
  import opened Extension
  import opened Files
  import opened ReportWriter

  /** The name of the report task that posts results. GnagReportTask.java is not part of
      this model, so the value of its `TASK_NAME` is assumed here. */
  const GnagReportTaskName: string := "gnagReport"

  /** The status the check records on the project. */
  datatype CheckStatus<V> = Success | Failure(violations: set<V>)

  /** How the task action ends: normally, with a build-failing GradleException (the hard
      abort), or with a StopExecutionException that only stops this task (the soft halt). */
  datatype Termination =
    | Completed
    | GradleException(message: string)
    | StopExecutionException(message: string)

  /** The report operation a run asks the report writer for: deleting the report of the
      reports directory, or writing a report for a violation set there. */
  datatype ReportRequest<V> = DeleteRequested(dir: Path) | WriteRequested(violations: set<V>, dir: Path)

  /** Everything one run of the check produces besides its effect on the files: the report
      operation it asked for, the calls it made on the detectors, its progress lines, the
      status and how it ended. */
  datatype PassResult<V> = PassResult(
    report: ReportRequest<V>,
    trace: seq<Event>,
    counts: seq<CountLine>,
    status: CheckStatus<V>,
    termination: Termination)

  /** The inputs of a run that come from outside the task: the project's reports
      directory, the names of the tasks in the task graph, the violation formatter, the
      stylesheet resource, and whether the report write and the stylesheet copy fail. */
  datatype Environment<!V> = Environment(
    reportsDir: Path,
    scheduledTasks: seq<string>,
    format: set<V> -> string,
    stylesheet: string,
    reportWriteFails: bool,
    cssCopyFails: bool)

  const FailedMessageLead: string :=
    "One or more violation detectors has found violations. Check the report at "
  const FailedMessageTail: string := " for details."

  /** The failure message points at the report file in the reports directory. */
  function FailedMessage(dir: Path): (m: string)
    ensures |m| == |FailedMessageLead| + |ReportPath(dir)| + |FailedMessageTail|
    ensures m[..|FailedMessageLead|] == FailedMessageLead
    ensures m[|FailedMessageLead|..|FailedMessageLead| + |ReportPath(dir)|] == ReportPath(dir)
    ensures m[|FailedMessageLead| + |ReportPath(dir)|..] == FailedMessageTail
  {
    FailedMessageLead + ReportPath(dir) + FailedMessageTail
  }

  /** How a run that found violations ends: a hard abort exactly when failing on error is
      configured and the report task is not going to run; a soft halt otherwise. Both
      carry the failure message. */
  function Gate(failOnError: bool, reportScheduled: bool, message: string): (t: Termination)
    ensures t.GradleException? <==> failOnError && !reportScheduled
    ensures t.StopExecutionException? <==> !failOnError || reportScheduled
    ensures !t.Completed? && t.message == message
  {
    if failOnError && !reportScheduled then GradleException(message)
    else StopExecutionException(message)
  }

  /** Searches the task graph for the report task, stopping at the first match. */
  method TaskExecutionGraphIncludesGnagReport(tasks: seq<string>) returns (found: bool)
    ensures found <==> GnagReportTaskName in tasks
  {
    var i := 0;
    while i < |tasks|
      invariant 0 <= i <= |tasks|
      invariant forall k :: 0 <= k < i ==> tasks[k] != GnagReportTaskName
    {
      if tasks[i] == GnagReportTaskName {
        return true;
      }
      i := i + 1;
    }
    return false;
  }

  /** The detectors the factory `make` builds for `tools`, in the same order. */
  function DetectorsFor<V>(make: Tool -> Detector<V>, tools: seq<Tool>): (ds: seq<Detector<V>>)
    ensures |ds| == |tools|
    ensures forall i :: 0 <= i < |tools| ==> ds[i] == make(tools[i])
  {
    seq(|tools|, i requires 0 <= i < |tools| => make(tools[i]))
  }

  /** Considering one more tool adds its detector at the end exactly when the tool is
      selected. */
  lemma RegisterNext<V>(make: Tool -> Detector<V>, ext: GnagPluginExtension, facts: ProjectFacts,
                        considered: seq<Tool>, tool: Tool)
    ensures DetectorsFor(make, Registered(ext, facts, considered + [tool]))
            == DetectorsFor(make, Registered(ext, facts, considered))
               + (if Selected(ext, facts, tool) then [make(tool)] else [])
  {
    assert (considered + [tool])[..|considered|] == considered;
  }

  /** Everything a run of the check promises, relating the files before (`files0`,
      `dirs0`) and after (`files1`, `dirs1`) to the detectors and the environment. */
  ghost predicate ExecutedPass<V>(ds: seq<Detector<V>>, ext: GnagPluginExtension, env: Environment<V>,
                                  files0: map<Path, string>, dirs0: set<Path>,
                                  files1: map<Path, string>, dirs1: set<Path>, pass: PassResult<V>)
  {
    && pass.trace == PassTrace(ds)
    && pass.counts == CountLog(ds)
    && (Aggregate(ds) == {} ==>
          pass.report == DeleteRequested(env.reportsDir)
          && pass.status == Success && pass.termination == Completed
          && files1 == files0 && dirs1 == dirs0)
    && (Aggregate(ds) != {} ==>
          pass.report == WriteRequested(Aggregate(ds), env.reportsDir)
          && pass.status == Failure(Aggregate(ds))
          && pass.termination == Gate(ext.failOnError, GnagReportTaskName in env.scheduledTasks,
                                      FailedMessage(env.reportsDir))
          && dirs1 == dirs0 + {env.reportsDir}
          && files1 == FilesAfterWrite(files0, env.reportsDir, ReportDocument(env.format(Aggregate(ds))),
                                       env.stylesheet, env.reportWriteFails, env.cssCopyFails))
  }

  /** A run succeeds exactly when no detector returned anything, exactly when it ends
      without an exception, and exactly when it asks for the report to be deleted. */
  lemma PassSucceedsIffNothingFound<V>(ds: seq<Detector<V>>, ext: GnagPluginExtension, env: Environment<V>,
                                       files0: map<Path, string>, dirs0: set<Path>,
                                       files1: map<Path, string>, dirs1: set<Path>, pass: PassResult<V>)
    requires ExecutedPass(ds, ext, env, files0, dirs0, files1, dirs1, pass)
    ensures pass.status == Success <==> forall i :: 0 <= i < |ds| ==> ds[i].findings == []
    ensures pass.status == Success <==> pass.termination == Completed
    ensures pass.status == Success <==> pass.report == DeleteRequested(env.reportsDir)
  {
    if pass.status == Success {
      forall i | 0 <= i < |ds| ensures ds[i].findings == [] {
        if ds[i].findings != [] {
          AggregateMembers(ds, ds[i].findings[0]);
        }
      }
    } else {
      var v :| v in Aggregate(ds);
      AggregateMembers(ds, v);
    }
  }

  /** A failed run records every violation any detector returned, and nothing else, asks
      for a report of exactly that set, and always ends with one of the two exceptions. */
  lemma FailedPassCarriesAllViolations<V>(ds: seq<Detector<V>>, ext: GnagPluginExtension, env: Environment<V>,
                                          files0: map<Path, string>, dirs0: set<Path>,
                                          files1: map<Path, string>, dirs1: set<Path>, pass: PassResult<V>)
    requires ExecutedPass(ds, ext, env, files0, dirs0, files1, dirs1, pass)
    requires pass.status.Failure?
    ensures forall v :: v in pass.status.violations <==> exists i :: 0 <= i < |ds| && v in ds[i].findings
    ensures pass.report == WriteRequested(pass.status.violations, env.reportsDir)
    ensures pass.termination.GradleException? || pass.termination.StopExecutionException?
    ensures !env.reportWriteFails ==>
      ReportPath(env.reportsDir) in files1
      && files1[ReportPath(env.reportsDir)] == ReportDocument(env.format(pass.status.violations))
  {
    forall v ensures v in pass.status.violations <==> exists i :: 0 <= i < |ds| && v in ds[i].findings {
      AggregateMembers(ds, v);
    }
  }

  class GnagCheckTask<V(==)> {
    var violationDetectors: seq<Detector<V>>
    var extension: GnagPluginExtension

    /** Adds the task to a project: keeps the extension and registers, in order, a
        detector (built by `make`) for every enabled tool the project has sources for. */
    constructor AddTask(facts: ProjectFacts, ext: GnagPluginExtension, make: Tool -> Detector<V>)
      ensures extension == ext
      ensures violationDetectors == DetectorsFor(make, SelectedTools(ext, facts))
    {
      extension := ext;
      violationDetectors := [];
      new;
      ghost var k := 0;
      RegisterWhen(ext.checkstyle.enabled && facts.hasJavaSourceFiles, Checkstyle, make, ext, facts, k);
      k := k + 1;
      RegisterWhen(ext.pmd.enabled && facts.hasJavaSourceFiles, Pmd, make, ext, facts, k);
      k := k + 1;
      RegisterWhen(ext.findbugs.enabled && facts.hasJavaSourceFiles, Findbugs, make, ext, facts, k);
      k := k + 1;
      RegisterWhen(ext.ktlint.enabled && facts.hasKotlinSourceFiles, Ktlint, make, ext, facts, k);
      k := k + 1;
      RegisterWhen(ext.detekt.enabled && facts.hasKotlinSourceFiles, Detekt, make, ext, facts, k);
      k := k + 1;
      RegisterWhen(facts.isAndroidProject && ext.androidLint.enabled, AndroidLint, make, ext, facts, k);
      k := k + 1;
      assert RegistrationOrder[..k] == RegistrationOrder;
    }

    /** Registers the detector for `tool` when `condition`, the source's test for that
        tool, holds. */
    method RegisterWhen(condition: bool, tool: Tool, make: Tool -> Detector<V>,
                        ghost ext: GnagPluginExtension, ghost facts: ProjectFacts, ghost k: nat)
      requires k < |RegistrationOrder| && tool == RegistrationOrder[k]
      requires condition == Selected(ext, facts, tool)
      requires violationDetectors == DetectorsFor(make, Registered(ext, facts, RegistrationOrder[..k]))
      modifies this
      ensures violationDetectors == DetectorsFor(make, Registered(ext, facts, RegistrationOrder[..k + 1]))
      ensures extension == old(extension)
    {
      assert RegistrationOrder[..k + 1] == RegistrationOrder[..k] + [tool];
      RegisterNext(make, ext, facts, RegistrationOrder[..k], tool);
      if condition {
        violationDetectors := violationDetectors + [make(tool)];
      }
    }

    /** One run of the check (the detectors and the extension stay as they are). */
    method ExecuteGnagCheck(fs: FileSystem, env: Environment<V>) returns (pass: PassResult<V>)
      modifies fs
      ensures ExecutedPass(violationDetectors, extension, env, old(fs.files), old(fs.dirs),
                           fs.files, fs.dirs, pass)
    {
      var all, trace, counts := CollectViolations(violationDetectors);
      var reportsDir := env.reportsDir;
      if all == {} {
        var _ := DeleteReport(fs, reportsDir);
        return PassResult(DeleteRequested(reportsDir), trace, counts, Success, Completed);
      }
      var _ := WriteReport(fs, all, reportsDir, env.format, env.stylesheet,
                           env.reportWriteFails, env.cssCopyFails);
      var status := Failure(all);
      var failedMessage := FailedMessage(reportsDir);
      var reportScheduled := false;
      if extension.failOnError {
        reportScheduled := TaskExecutionGraphIncludesGnagReport(env.scheduledTasks);
      }
      var termination;
      if extension.failOnError && !reportScheduled {
        termination := GradleException(failedMessage);
      } else {
        termination := StopExecutionException(failedMessage);
      }
      return PassResult(WriteRequested(all, reportsDir), trace, counts, status, termination);
    }

    /** The task action: runs the check only when the plugin is enabled. */
    method TaskAction(fs: FileSystem, env: Environment<V>) returns (pass: Option<PassResult<V>>)
      modifies fs
      ensures !extension.enabled ==> pass.None? && fs.files == old(fs.files) && fs.dirs == old(fs.dirs)
      ensures extension.enabled ==> pass.Some? && ExecutedPass(violationDetectors, extension, env,
                                                               old(fs.files), old(fs.dirs),
                                                               fs.files, fs.dirs, pass.value)
    {
      if extension.enabled {
        var p := ExecuteGnagCheck(fs, env);
        return Some(p);
      }
      return None;
    }
  }
}
