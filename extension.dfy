/** The plugin's configuration, the facts about the project it is applied to, and the
    rules by which they decide which detectors the check task runs. */
module Extension {
  import opened Detectors

  datatype Option<T> = None | Some(value: T)

  /** The settings of one detector: its enable flag and an optional tool-version
      override (a null override is `None`). */
  datatype ToolConfig = ToolConfig(enabled: bool, toolVersion: Option<string>)

  /** The `gnag` extension block: the global enable flag, the fail-on-error policy and
      one settings block per detector. */
  datatype GnagPluginExtension = GnagPluginExtension(
    enabled: bool,
    failOnError: bool,
    checkstyle: ToolConfig,
    pmd: ToolConfig,
    findbugs: ToolConfig,
    ktlint: ToolConfig,
    detekt: ToolConfig,
    androidLint: ToolConfig)
  {
    /** The settings block that belongs to `tool`. */
    function Config(tool: Tool): ToolConfig
    {
      match tool
      case Checkstyle => checkstyle
      case Pmd => pmd
      case Findbugs => findbugs
      case Ktlint => ktlint
      case Detekt => detekt
      case AndroidLint => androidLint
    }
  }

  /** What the project helper reports about the project. */
  datatype ProjectFacts = ProjectFacts(
    hasJavaSourceFiles: bool,
    hasKotlinSourceFiles: bool,
    isAndroidProject: bool)

  /** The kind of project a tool needs: Java sources for the Java analysers, Kotlin
      sources for the Kotlin ones, an Android project for Android Lint. */
  predicate Applicable(facts: ProjectFacts, tool: Tool)
  {
    match tool
    case Checkstyle | Pmd | Findbugs => facts.hasJavaSourceFiles
    case Ktlint | Detekt => facts.hasKotlinSourceFiles
    case AndroidLint => facts.isAndroidProject
  }

  /** The position of each tool in the order in which the detectors are registered. */
  function Rank(tool: Tool): nat
  {
    match tool
    case Checkstyle => 0
    case Pmd => 1
    case Findbugs => 2
    case Ktlint => 3
    case Detekt => 4
    case AndroidLint => 5
  }

  /** A tool is registered when it is enabled and the project has the sources it needs. */
  predicate Selected(ext: GnagPluginExtension, facts: ProjectFacts, tool: Tool)
  {
    ext.Config(tool).enabled && Applicable(facts, tool)
  }

  /** The order in which the check task considers the tools. */
  const RegistrationOrder: seq<Tool> := [Checkstyle, Pmd, Findbugs, Ktlint, Detekt, AndroidLint]

  /** The tools of `order` that are registered, keeping the order. */
  function Registered(ext: GnagPluginExtension, facts: ProjectFacts, order: seq<Tool>): seq<Tool>
    decreases |order|
  {
    if order == [] then []
    else
      var last := order[|order| - 1];
      Registered(ext, facts, order[..|order| - 1]) + (if Selected(ext, facts, last) then [last] else [])
  }

  /** The tools whose detectors the check task registers, in registration order. */
  function SelectedTools(ext: GnagPluginExtension, facts: ProjectFacts): seq<Tool>
  {
    Registered(ext, facts, RegistrationOrder)
  }

  /** A tool is registered exactly when it is considered, enabled and applicable. */
  lemma {:induction false} RegisteredMembers(ext: GnagPluginExtension, facts: ProjectFacts, order: seq<Tool>, t: Tool)
    ensures t in Registered(ext, facts, order) <==> t in order && Selected(ext, facts, t)
    decreases |order|
  {
    if order != [] {
      var n := |order| - 1;
      RegisteredMembers(ext, facts, order[..n], t);
      assert order == order[..n] + [order[n]];
    }
  }

  /** Registration keeps the order in which the tools are considered. */
  lemma {:induction false} RegisteredInOrder(ext: GnagPluginExtension, facts: ProjectFacts, order: seq<Tool>)
    requires forall i, j :: 0 <= i < j < |order| ==> Rank(order[i]) < Rank(order[j])
    ensures forall i, j :: 0 <= i < j < |Registered(ext, facts, order)| ==>
      Rank(Registered(ext, facts, order)[i]) < Rank(Registered(ext, facts, order)[j])
    decreases |order|
  {
    if order != [] {
      var n := |order| - 1;
      var front := Registered(ext, facts, order[..n]);
      RegisteredInOrder(ext, facts, order[..n]);
      var r := Registered(ext, facts, order);
      assert r == front + (if Selected(ext, facts, order[n]) then [order[n]] else []);
      forall k | 0 <= k < |front| ensures Rank(front[k]) < Rank(order[n]) {
        RegisteredMembers(ext, facts, order[..n], front[k]);
        var m :| 0 <= m < n && order[..n][m] == front[k];
      }
    }
  }

  /** The registered tools are exactly the enabled, applicable ones, each once, in
      registration order. */
  lemma SelectedToolsCharacterized(ext: GnagPluginExtension, facts: ProjectFacts)
    ensures forall t :: t in SelectedTools(ext, facts) <==> Selected(ext, facts, t)
    ensures forall i, j :: 0 <= i < j < |SelectedTools(ext, facts)| ==>
      Rank(SelectedTools(ext, facts)[i]) < Rank(SelectedTools(ext, facts)[j])
  {
    forall t ensures t in SelectedTools(ext, facts) <==> Selected(ext, facts, t) {
      RegisteredMembers(ext, facts, RegistrationOrder, t);
      assert t in RegistrationOrder by {
        assert RegistrationOrder[Rank(t)] == t;
      }
    }
    RegisteredInOrder(ext, facts, RegistrationOrder);
  }

  const KtlintPinnedVersion: string := "0.35.0"
  const DetektPinnedVersion: string := "1.0.1"

  /** The ktlint version put on the ktlint configuration: the override when one is set,
      the pinned version otherwise. */
  function KtlintVersion(ext: GnagPluginExtension): (version: string)
    ensures ext.ktlint.toolVersion.Some? ==> version == ext.ktlint.toolVersion.value
    ensures ext.ktlint.toolVersion.None? ==> version == KtlintPinnedVersion
  {
    match ext.ktlint.toolVersion
    case Some(v) => v
    case None => KtlintPinnedVersion
  }

  /** The detekt version put on the detekt configuration: the override when one is set,
      the pinned version otherwise. */
  function DetektVersion(ext: GnagPluginExtension): (version: string)
    ensures ext.detekt.toolVersion.Some? ==> version == ext.detekt.toolVersion.value
    ensures ext.detekt.toolVersion.None? ==> version == DetektPinnedVersion
  {
    match ext.detekt.toolVersion
    case Some(v) => v
    case None => DetektPinnedVersion
  }
}
