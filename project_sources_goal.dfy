/**
 * The goal's execute(): skip flag, execution-root gate, format parsing,
 * descriptor resolution, then one archive creation and one artifact
 * attachment per format, stopping at the first failure.
 *
 * The reader, the archiver and the distribution-name rule are inputs. The
 * goal's visible behaviour is its outcome and the sequence of calls it makes
 * on its collaborators.
 */
module ProjectSources {
  import opened Wrappers
  import opened JavaString
  import opened Formats
  import opened ConfigSource
  import opened Descriptor

  /** What one createArchive call did: return the file it wrote, or throw. */
  datatype ArchiveResult =
    | Created(file: string)
    | CreationError           // ArchiveCreationException
    | FormattingError         // AssemblyFormattingException
    | InvalidConfiguration    // InvalidAssemblerConfigurationException

  /** A call the goal makes on a collaborator. */
  datatype Call =
    | ReadAssemblies(config: ConfigView)
    | CreateArchive(assembly: Assembly, fullName: string, format: string, config: ConfigView)
    | AttachArtifact(format: string, classifier: string, file: string)

  /** How execute() ends: one of two silent skips, normally, or with an exception. */
  datatype Outcome =
    | SkippedByConfiguration
    | SkippedNotExecutionRoot
    | Completed
    | Failed(error: MojoError)

  datatype Execution = Execution(outcome: Outcome, calls: seq<Call>)

  /**
   * The exception an archiver failure is reported as: creation and formatting
   * errors are execution errors, an invalid configuration is a failure.
   */
  function ErrorOf(result: ArchiveResult): MojoError
    requires !result.Created?
  {
    if result.InvalidConfiguration? then FailureException else ExecutionException
  }

  /** The directory the build was launched from is this project's base directory, ignoring case. */
  predicate IsThisTheExecutionRoot(goal: Goal) {
    EqualsIgnoreCase(goal.executionRootDirectory, goal.basedir)
  }

  /**
   * The gate compares the two directories as plain strings in upper case:
   * letter case is ignored, and directories of different length never match.
   */
  lemma ExecutionRootIgnoresCase(goal: Goal)
    ensures IsThisTheExecutionRoot(goal) <==> Upper(goal.executionRootDirectory) == Upper(goal.basedir)
    ensures |goal.executionRootDirectory| != |goal.basedir| ==> !IsThisTheExecutionRoot(goal)
    ensures goal.executionRootDirectory == goal.basedir ==> IsThisTheExecutionRoot(goal)
  {
    EqualsIgnoreCaseIsUpperEquality(goal.executionRootDirectory, goal.basedir);
  }

  /**
   * The loop over the formats from position i on: the i-th archiver call is
   * recorded, then on success the attachment under the classifier, then the
   * rest of the loop.
   */
  function Produce(assembly: Assembly, classifier: string, fullName: string, config: ConfigView,
                   formats: seq<string>,
                   archiver: (nat, string) -> ArchiveResult, i: nat): Execution
    requires i <= |formats|
    decreases |formats| - i
  {
    if i == |formats| then Execution(Completed, [])
    else
      var create := CreateArchive(assembly, fullName, formats[i], config);
      var result := archiver(i, formats[i]);
      if result.Created? then
        var rest := Produce(assembly, classifier, fullName, config, formats, archiver, i + 1);
        Execution(rest.outcome, [create, AttachArtifact(formats[i], classifier, result.file)] + rest.calls)
      else
        Execution(Failed(ErrorOf(result)), [create])
  }

  /** What execute() does, as a function of the goal's parameters and its collaborators' answers. */
  function Run(goal: Goal, read: ReadResult, distributionName: (string, ConfigView) -> string,
               archiver: (nat, string) -> ArchiveResult): Execution
  {
    if goal.skipProjectSources then Execution(SkippedByConfiguration, [])
    else if !IsThisTheExecutionRoot(goal) then Execution(SkippedNotExecutionRoot, [])
    else RunAtRoot(goal, read, distributionName, archiver)
  }

  /** What execute() does once past its two gates: read the descriptor, then run the loop. */
  function RunAtRoot(goal: Goal, read: ReadResult, distributionName: (string, ConfigView) -> string,
                     archiver: (nat, string) -> ArchiveResult): Execution
  {
    var readCall := ReadAssemblies(GoalView(goal));
    match Resolve(read)
    case Failure(e) => Execution(Failed(e), [readCall])
    case Success(assembly) =>
      var fullName := distributionName(Classifier, GoalView(goal));
      var produced := Produce(assembly, Classifier, fullName, ConfigSourceForArchive(goal),
                              AssemblyFormats(goal.formats), archiver, 0);
      Execution(produced.outcome, [readCall] + produced.calls)
  }

  /** With the skip flag set nothing is called, whatever the gate would say. */
  lemma SkipFlagComesFirst(goal: Goal, read: ReadResult, distributionName: (string, ConfigView) -> string,
                           archiver: (nat, string) -> ArchiveResult)
    requires goal.skipProjectSources
    ensures Run(goal, read, distributionName, archiver) == Execution(SkippedByConfiguration, [])
  {
  }

  /** Away from the execution root nothing is called either, and the build goes on normally. */
  lemma NotExecutionRootSkips(goal: Goal, read: ReadResult, distributionName: (string, ConfigView) -> string,
                              archiver: (nat, string) -> ArchiveResult)
    requires !goal.skipProjectSources && !IsThisTheExecutionRoot(goal)
    ensures Run(goal, read, distributionName, archiver) == Execution(SkippedNotExecutionRoot, [])
  {
  }

  /**
   * When the reader throws or returns no assembly, the reader is the only
   * collaborator called: no archive is created.
   */
  lemma ResolutionFailureCreatesNothing(goal: Goal, read: ReadResult,
                                        distributionName: (string, ConfigView) -> string,
                                        archiver: (nat, string) -> ArchiveResult)
    requires !goal.skipProjectSources && IsThisTheExecutionRoot(goal)
    requires Resolve(read).Failure?
    ensures Run(goal, read, distributionName, archiver)
         == Execution(Failed(Resolve(read).error), [ReadAssemblies(GoalView(goal))])
    ensures read.ReadError? ==> Resolve(read).error == ExecutionException
    ensures read.ReadInvalidConfiguration? ==> Resolve(read).error == FailureException
    ensures read.Returned? ==> Resolve(read).error == ExecutionException
  {
  }

  /**
   * Once the assembly is resolved, the reader call is followed by the loop,
   * run with one distribution name and one configuration view.
   */
  lemma ResolvedRunsLoop(goal: Goal, read: ReadResult, distributionName: (string, ConfigView) -> string,
                         archiver: (nat, string) -> ArchiveResult)
    requires !goal.skipProjectSources && IsThisTheExecutionRoot(goal)
    requires Resolve(read).Success?
    ensures var produced := Produce(Resolve(read).value, Classifier, distributionName(Classifier, GoalView(goal)),
                                    ConfigSourceForArchive(goal), AssemblyFormats(goal.formats), archiver, 0);
      Run(goal, read, distributionName, archiver)
        == Execution(produced.outcome, [ReadAssemblies(GoalView(goal))] + produced.calls)
  {
  }

  /**
   * When every archiver call from position i on succeeds, the loop completes
   * and makes exactly one create and then one attach per format, in order.
   */
  lemma {:induction false} ProduceAllCreated(assembly: Assembly, classifier: string, fullName: string,
                                             config: ConfigView,
                                             formats: seq<string>, archiver: (nat, string) -> ArchiveResult, i: nat)
    requires i <= |formats|
    requires forall j :: i <= j < |formats| ==> archiver(j, formats[j]).Created?
    ensures var e := Produce(assembly, classifier, fullName, config, formats, archiver, i);
      && e.outcome == Completed
      && |e.calls| == 2 * (|formats| - i)
      && forall j :: i <= j < |formats| ==>
           && e.calls[2 * (j - i)] == CreateArchive(assembly, fullName, formats[j], config)
           && e.calls[2 * (j - i) + 1] == AttachArtifact(formats[j], classifier, archiver(j, formats[j]).file)
    decreases |formats| - i
  {
    if i < |formats| {
      ProduceAllCreated(assembly, classifier, fullName, config, formats, archiver, i + 1);
    }
  }

  /**
   * When the archiver first throws at position k, the formats before k have
   * been created and attached, the k-th creation is the last call, and the
   * exception is the one the archiver's error maps to.
   */
  lemma {:induction false} ProduceStopsAtFirstFailure(assembly: Assembly, classifier: string, fullName: string,
                                                      config: ConfigView,
                                                      formats: seq<string>, archiver: (nat, string) -> ArchiveResult,
                                                      i: nat, k: nat)
    requires i <= k < |formats|
    requires forall j :: i <= j < k ==> archiver(j, formats[j]).Created?
    requires !archiver(k, formats[k]).Created?
    ensures var e := Produce(assembly, classifier, fullName, config, formats, archiver, i);
      && e.outcome == Failed(ErrorOf(archiver(k, formats[k])))
      && |e.calls| == 2 * (k - i) + 1
      && e.calls[2 * (k - i)] == CreateArchive(assembly, fullName, formats[k], config)
      && forall j :: i <= j < k ==>
           && e.calls[2 * (j - i)] == CreateArchive(assembly, fullName, formats[j], config)
           && e.calls[2 * (j - i) + 1] == AttachArtifact(formats[j], classifier, archiver(j, formats[j]).file)
    decreases k - i
  {
    if i < k {
      ProduceStopsAtFirstFailure(assembly, classifier, fullName, config, formats, archiver, i + 1, k);
    }
  }

  /**
   * Every creation in the loop uses the same assembly, distribution name and
   * configuration view, and every attachment uses the classifier.
   */
  lemma {:induction false} ProduceUsesOneNameAndView(assembly: Assembly, classifier: string, fullName: string,
                                                     config: ConfigView,
                                                     formats: seq<string>, archiver: (nat, string) -> ArchiveResult,
                                                     i: nat)
    requires i <= |formats|
    ensures forall c :: c in Produce(assembly, classifier, fullName, config, formats, archiver, i).calls ==>
      && !c.ReadAssemblies?
      && (c.CreateArchive? ==> c.assembly == assembly && c.fullName == fullName && c.config == config)
      && (c.AttachArtifact? ==> c.classifier == classifier)
    decreases |formats| - i
  {
    if i < |formats| {
      ProduceUsesOneNameAndView(assembly, classifier, fullName, config, formats, archiver, i + 1);
    }
  }

  /**
   * A full run that gets past the descriptor: the reader is called once, with
   * the goal's own view, and every archive is created from the first assembly
   * under the distribution name computed once from the un-overlaid view,
   * with the view the overlay rule chose.
   */
  lemma RunUsesOneNameAndView(goal: Goal, read: ReadResult, distributionName: (string, ConfigView) -> string,
                              archiver: (nat, string) -> ArchiveResult)
    requires !goal.skipProjectSources && IsThisTheExecutionRoot(goal)
    requires Resolve(read).Success?
    ensures var calls := Run(goal, read, distributionName, archiver).calls;
      && calls[0] == ReadAssemblies(GoalView(goal))
      && forall c :: c in calls[1..] ==>
           && !c.ReadAssemblies?
           && (c.CreateArchive? ==>
                 && c.assembly == Resolve(read).value
                 && c.fullName == distributionName(Classifier, GoalView(goal))
                 && c.config == ConfigSourceForArchive(goal))
           && (c.AttachArtifact? ==> c.classifier == Classifier)
  {
    var produced := Produce(Resolve(read).value, Classifier, distributionName(Classifier, GoalView(goal)),
                            ConfigSourceForArchive(goal), AssemblyFormats(goal.formats), archiver, 0);
    ResolvedRunsLoop(goal, read, distributionName, archiver);
    ProduceUsesOneNameAndView(Resolve(read).value, Classifier, distributionName(Classifier, GoalView(goal)),
                              ConfigSourceForArchive(goal), AssemblyFormats(goal.formats), archiver, 0);
    assert ([ReadAssemblies(GoalView(goal))] + produced.calls)[1..] == produced.calls;
  }

  /**
   * A run in which every archive is created: it completes, and after the
   * reader call come, per format in list order, its creation and then its
   * attachment with the format as type and the assembly id as classifier.
   */
  lemma RunCreatesAndAttachesEveryFormat(goal: Goal, read: ReadResult,
                                         distributionName: (string, ConfigView) -> string,
                                         archiver: (nat, string) -> ArchiveResult)
    requires !goal.skipProjectSources && IsThisTheExecutionRoot(goal)
    requires Resolve(read).Success?
    requires var formats := AssemblyFormats(goal.formats);
      forall j :: 0 <= j < |formats| ==> archiver(j, formats[j]).Created?
    ensures var formats := AssemblyFormats(goal.formats);
      var e := Run(goal, read, distributionName, archiver);
      && e.outcome == Completed
      && |e.calls| == 1 + 2 * |formats|
      && forall j :: 0 <= j < |formats| ==>
           && e.calls[1 + 2 * j] == CreateArchive(Resolve(read).value, distributionName(Classifier, GoalView(goal)),
                                                  formats[j], ConfigSourceForArchive(goal))
           && e.calls[2 + 2 * j] == AttachArtifact(formats[j], Classifier, archiver(j, formats[j]).file)
  {
    var assembly, fullName := Resolve(read).value, distributionName(Classifier, GoalView(goal));
    var config, formats := ConfigSourceForArchive(goal), AssemblyFormats(goal.formats);
    ResolvedRunsLoop(goal, read, distributionName, archiver);
    ReadThenAll(ReadAssemblies(GoalView(goal)), assembly, Classifier, fullName, config, formats, archiver);
  }

  /** The loop of a successful run seen after the reader call: every position moves up by one. */
  lemma ReadThenAll(first: Call, assembly: Assembly, classifier: string, fullName: string, config: ConfigView,
                    formats: seq<string>, archiver: (nat, string) -> ArchiveResult)
    requires forall j :: 0 <= j < |formats| ==> archiver(j, formats[j]).Created?
    ensures var e := Produce(assembly, classifier, fullName, config, formats, archiver, 0);
      var calls := [first] + e.calls;
      && e.outcome == Completed
      && |calls| == 1 + 2 * |formats|
      && forall j :: 0 <= j < |formats| ==>
           && calls[1 + 2 * j] == CreateArchive(assembly, fullName, formats[j], config)
           && calls[2 + 2 * j] == AttachArtifact(formats[j], classifier, archiver(j, formats[j]).file)
  {
    ProduceAllCreated(assembly, classifier, fullName, config, formats, archiver, 0);
  }

  /** The loop of a failing run seen after the reader call: every position moves up by one. */
  lemma ReadThenStop(first: Call, assembly: Assembly, classifier: string, fullName: string, config: ConfigView,
                     formats: seq<string>, archiver: (nat, string) -> ArchiveResult, k: nat)
    requires k < |formats|
    requires forall j :: 0 <= j < k ==> archiver(j, formats[j]).Created?
    requires !archiver(k, formats[k]).Created?
    ensures var e := Produce(assembly, classifier, fullName, config, formats, archiver, 0);
      var calls := [first] + e.calls;
      && e.outcome == Failed(ErrorOf(archiver(k, formats[k])))
      && |calls| == 2 * k + 2
      && calls[2 * k + 1] == CreateArchive(assembly, fullName, formats[k], config)
      && forall j :: 0 <= j < k ==>
           && calls[1 + 2 * j] == CreateArchive(assembly, fullName, formats[j], config)
           && calls[2 + 2 * j] == AttachArtifact(formats[j], classifier, archiver(j, formats[j]).file)
  {
    ProduceStopsAtFirstFailure(assembly, classifier, fullName, config, formats, archiver, 0, k);
  }

  /**
   * A run whose k-th archive creation throws: the formats before k are
   * created and attached, the k-th creation is the last call, later formats
   * are never attempted, and the exception kind follows the archiver's error.
   */
  lemma RunStopsAtFirstFailure(goal: Goal, read: ReadResult, distributionName: (string, ConfigView) -> string,
                               archiver: (nat, string) -> ArchiveResult, k: nat)
    requires !goal.skipProjectSources && IsThisTheExecutionRoot(goal)
    requires Resolve(read).Success?
    requires k < |AssemblyFormats(goal.formats)|
    requires var formats := AssemblyFormats(goal.formats);
      && (forall j :: 0 <= j < k ==> archiver(j, formats[j]).Created?)
      && !archiver(k, formats[k]).Created?
    ensures var formats := AssemblyFormats(goal.formats);
      var e := Run(goal, read, distributionName, archiver);
      var result := archiver(k, formats[k]);
      && e.outcome == Failed(if result.InvalidConfiguration? then FailureException else ExecutionException)
      && |e.calls| == 2 * k + 2
      && e.calls[2 * k + 1] == CreateArchive(Resolve(read).value, distributionName(Classifier, GoalView(goal)),
                                             formats[k], ConfigSourceForArchive(goal))
      && forall j :: 0 <= j < k ==>
           && e.calls[1 + 2 * j] == CreateArchive(Resolve(read).value, distributionName(Classifier, GoalView(goal)),
                                                  formats[j], ConfigSourceForArchive(goal))
           && e.calls[2 + 2 * j] == AttachArtifact(formats[j], Classifier, archiver(j, formats[j]).file)
  {
    var assembly, fullName := Resolve(read).value, distributionName(Classifier, GoalView(goal));
    var config, formats := ConfigSourceForArchive(goal), AssemblyFormats(goal.formats);
    var produced := Produce(assembly, Classifier, fullName, config, formats, archiver, 0);
    ResolvedRunsLoop(goal, read, distributionName, archiver);
    ReadThenStop(ReadAssemblies(GoalView(goal)), assembly, Classifier, fullName, config, formats, archiver, k);
  }

  /**
   * The loop of execute(): for each format in order, create the archive and
   * attach it under the assembly's id; the first archiver exception ends the
   * loop and is reported.
   */
  method CreateAndAttach(assembly: Assembly, fullName: string, config: ConfigView, formats: seq<string>,
                         archiver: (nat, string) -> ArchiveResult)
    returns (outcome: Outcome, calls: seq<Call>)
    ensures Execution(outcome, calls) == Produce(assembly, assembly.id, fullName, config, formats, archiver, 0)
  {
    var id := assembly.id;
    ghost var whole := Produce(assembly, id, fullName, config, formats, archiver, 0);
    calls := [];
    var i := 0;
    while i < |formats|
      invariant i <= |formats|
      invariant whole.outcome == Produce(assembly, id, fullName, config, formats, archiver, i).outcome
      invariant whole.calls == calls + Produce(assembly, id, fullName, config, formats, archiver, i).calls
    {
      var format := formats[i];
      var result := archiver(i, format);
      var create := CreateArchive(assembly, fullName, format, config);
      if !result.Created? {
        return Failed(ErrorOf(result)), calls + [create];
      }
      var attach := AttachArtifact(format, id, result.file);
      ghost var rest := Produce(assembly, id, fullName, config, formats, archiver, i + 1);
      assert whole.calls == (calls + [create, attach]) + rest.calls;
      calls := calls + [create, attach];
      i := i + 1;
    }
    outcome := Completed;
  }

  /**
   * execute() past its two gates: parse the formats, resolve the descriptor,
   * compute the distribution name and the configuration view once, then run
   * the loop.
   */
  method ExecuteAtRoot(goal: Goal, read: ReadResult, distributionName: (string, ConfigView) -> string,
                       archiver: (nat, string) -> ArchiveResult)
    returns (outcome: Outcome, calls: seq<Call>)
    modifies Stamped(read)`id, Stamped(read)`formats
    ensures Execution(outcome, calls) == RunAtRoot(goal, read, distributionName, archiver)
    ensures Resolve(read).Success? ==>
      && Resolve(read).value.id == Classifier
      && Resolve(read).value.formats == AssemblyFormats(goal.formats)
  {
    var assemblyFormats := GetAssemblyFormats(goal.formats);
    var readCall := ReadAssemblies(GoalView(goal));
    var resolved := GetAssembly(read, assemblyFormats);
    if resolved.Failure? {
      return Failed(resolved.error), [readCall];
    }
    var assembly := resolved.value;
    var fullName := distributionName(assembly.id, GoalView(goal));
    var config := ConfigSourceForArchive(goal);
    var produced;
    outcome, produced := CreateAndAttach(assembly, fullName, config, assembly.formats, archiver);
    calls := [readCall] + produced;
  }

  /**
   * execute(): the skip flag first, then the execution-root gate, both
   * returning normally without any call; otherwise the work above. The
   * resolved assembly carries the goal's classifier and formats afterwards.
   */
  method Execute(goal: Goal, read: ReadResult, distributionName: (string, ConfigView) -> string,
                 archiver: (nat, string) -> ArchiveResult)
    returns (outcome: Outcome, calls: seq<Call>)
    modifies Stamped(read)`id, Stamped(read)`formats
    ensures Execution(outcome, calls) == Run(goal, read, distributionName, archiver)
    ensures goal.skipProjectSources || !IsThisTheExecutionRoot(goal) ==> unchanged(Stamped(read))
    ensures !goal.skipProjectSources && IsThisTheExecutionRoot(goal) && Resolve(read).Success? ==>
      && Resolve(read).value.id == Classifier
      && Resolve(read).value.formats == AssemblyFormats(goal.formats)
  {
    if goal.skipProjectSources {
      SkipFlagComesFirst(goal, read, distributionName, archiver);
      return SkippedByConfiguration, [];
    }
    if !IsThisTheExecutionRoot(goal) {
      NotExecutionRootSkips(goal, read, distributionName, archiver);
      return SkippedNotExecutionRoot, [];
    }
    outcome, calls := ExecuteAtRoot(goal, read, distributionName, archiver);
  }
}
