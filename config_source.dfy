/**
 * The goal's parameters and the configuration view it hands to the assembly
 * reader and the archiver, with the root-folder overlay that replaces only
 * the final name.
 */
module ConfigSource {
  import opened Wrappers

  /** The descriptor reference the goal asks the reader for: the built-in "project" descriptor. */
  const ProjectDescriptor: string := "project"

  /**
   * The goal's parameters. Directories are plain path strings; the two
   * names that Java lets be null are optional.
   */
  datatype Goal = Goal(
    basedir: string,
    executionRootDirectory: string,
    assemblyRootFolder: Option<string>,
    finalName: Option<string>,
    tempRoot: string,
    workDirectory: string,
    outputDirectory: string,
    skipProjectSources: bool,
    formats: string)

  /** What the archiver and the reader may ask of a configuration source. */
  datatype ConfigView = ConfigView(
    basedir: string,
    finalName: Option<string>,
    outputDirectory: string,
    workingDirectory: string,
    temporaryRootDirectory: string,
    descriptorReferences: seq<string>,
    classifier: Option<string>,
    encoding: Option<string>,
    tarLongFileMode: string,
    assemblyIdAppended: bool,
    dryRun: bool,
    siteIncluded: bool,
    ignoreDirFormatExtensions: bool,
    ignoreMissingDescriptor: bool,
    ignorePermissions: bool,
    updateOnly: bool,
    useJvmChmod: bool)

  /** The goal itself seen as a configuration source: its fields and its constant answers. */
  function GoalView(goal: Goal): ConfigView {
    ConfigView(
      basedir := goal.basedir,
      finalName := goal.finalName,
      outputDirectory := goal.outputDirectory,
      workingDirectory := goal.workDirectory,
      temporaryRootDirectory := goal.tempRoot,
      descriptorReferences := [ProjectDescriptor],
      classifier := None,
      encoding := None,
      tarLongFileMode := "gnu",
      assemblyIdAppended := true,
      dryRun := false,
      siteIncluded := false,
      ignoreDirFormatExtensions := false,
      ignoreMissingDescriptor := false,
      ignorePermissions := false,
      updateOnly := false,
      useJvmChmod := true)
  }

  /** A root folder is configured and is not the final name. */
  predicate RootFolderDiffers(goal: Goal) {
    goal.assemblyRootFolder.Some? && goal.assemblyRootFolder != goal.finalName
  }

  /**
   * The overlay: a copy of other whose final name is the goal's root folder.
   * The source view is a value and is left as it is.
   */
  function CreateConfigSourceForArchive(goal: Goal, other: ConfigView): (overlay: ConfigView)
    ensures overlay.finalName == goal.assemblyRootFolder
    ensures overlay.(finalName := other.finalName) == other
  {
    other.(finalName := goal.assemblyRootFolder)
  }

  /**
   * The view passed to the archiver: the overlay when the root folder
   * differs from the final name, otherwise the goal's own view.
   */
  function ConfigSourceForArchive(goal: Goal): (config: ConfigView)
    ensures config == GoalView(goal) <==> !RootFolderDiffers(goal)
    ensures config.(finalName := goal.finalName) == GoalView(goal)
    ensures config.finalName == if goal.assemblyRootFolder.Some? then goal.assemblyRootFolder else goal.finalName
  {
    if RootFolderDiffers(goal) then CreateConfigSourceForArchive(goal, GoalView(goal)) else GoalView(goal)
  }

  /** Overlaying a view with its own final name changes nothing. */
  lemma OverlayWithSameNameIsIdentity(goal: Goal, other: ConfigView)
    requires goal.assemblyRootFolder == other.finalName
    ensures CreateConfigSourceForArchive(goal, other) == other
  {
  }
}
