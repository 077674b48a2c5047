# Project sources goal, modelled in Dafny

The `project-sources` Maven goal (`ProjectSourcesGoal`) packs a project's
own sources into one or more archives and attaches them to the build under
the classifier `project-sources`. One call to `execute()` does the following:

1. It returns at once, with nothing called, if `skipProjectSources` is set.
2. It returns at once, with nothing called, unless the project is the
   execution root: the directory Maven was launched from must equal the
   project's base directory, ignoring case.
3. It turns the comma-separated `formats` parameter (default `tar.gz`) into a
   list of trimmed format names.
4. It asks the assembly reader for the built-in `project` descriptor. It
   takes the first assembly returned and stamps it in place with the id
   `project-sources` and the parsed formats. A reader exception, a null
   answer or an empty answer ends the goal with an exception.
5. It computes the distribution name once, from the goal itself. It also
   chooses the configuration view once: the goal itself, or an overlay whose
   final name is `assemblyRootFolder` when that is set and differs from
   `finalName`.
6. For each format in order, it creates the archive and attaches it with the
   format as type and the assembly id as classifier. The first archiver
   exception ends the loop. Creation and formatting errors become execution
   exceptions. An invalid configuration becomes a failure exception.

The model is split into six modules:

- `Wrappers`: `Option` and `Result`.
- `JavaString`: the three `java.lang.String` operations the goal relies on.
  - `Split` is `split(",")`. A string with no comma comes back whole, so `""`
    gives `[""]`. Otherwise every piece comes back except the empty pieces at
    the end.
  - `Trim` is `trim()`. It strips characters at or below U+0020 from both ends.
  - `EqualsIgnoreCase` is `equalsIgnoreCase`, with ASCII case folding.
- `Formats`: `getAssemblyFormats`, as a loop appending to a list. It is
  proved against the specification function `AssemblyFormats`.
- `ConfigSource`:
  - the goal's parameters (`Goal`);
  - the configuration view it answers with (`ConfigView`, through `GoalView`);
  - the root-folder overlay.
- `Descriptor`: `getAssembly`. `Assembly` is a class whose `id` and `formats`
  the goal updates in place. The method's frame names only those two fields,
  so the other fields provably keep their values.
- `ProjectSources`: the driver.
  - `Execute` is the goal's `execute()` as a method. It returns how the goal
    ended (`Outcome`) and the calls it made on its collaborators, in order
    (`Call`).
  - `Run` and `Produce` are the specification functions the method is proved
    against.
  - The lemmas state the ordering, skipping, stopping and single-computation
    properties in terms of those functions.

The collaborators are inputs to the model:

- the assembly reader's answer (`ReadResult`);
- the archiver (a function from call index and format to `ArchiveResult`);
- the distribution-name rule (a function of the assembly id and the
  configuration view).

## Model

| member | source | states |
|---|---|---|
| JavaString.TrimStart | src/main/java/org/commonjava/maven/plugins/projectsrc/ProjectSourcesGoal.java:205 | the result is a suffix of the input that does not start with a character at or below U+0020, and every character removed is at or below U+0020 |
| JavaString.TrimEnd | src/main/java/org/commonjava/maven/plugins/projectsrc/ProjectSourcesGoal.java:205 | the result is a prefix of the input that does not end with a character at or below U+0020, and every character removed is at or below U+0020 |
| JavaString.Trim | src/main/java/org/commonjava/maven/plugins/projectsrc/ProjectSourcesGoal.java:205 | `trim()` gives a substring of the input with no trimmable character at either end, and everything before and after it is trimmable |
| JavaString.TrimKeepsTrimmed | src/main/java/org/commonjava/maven/plugins/projectsrc/ProjectSourcesGoal.java:205 | a string with no trimmable character at either end is its own trim |
| JavaString.TrimIdempotent | src/main/java/org/commonjava/maven/plugins/projectsrc/ProjectSourcesGoal.java:205 | trimming twice is the same as trimming once |
| JavaString.SplitAll | src/main/java/org/commonjava/maven/plugins/projectsrc/ProjectSourcesGoal.java:201 | cutting at every comma gives at least one piece, and no piece holds a comma |
| JavaString.SplitAllCount | src/main/java/org/commonjava/maven/plugins/projectsrc/ProjectSourcesGoal.java:201 | there is exactly one piece more than there are commas |
| JavaString.JoinSplitAll | src/main/java/org/commonjava/maven/plugins/projectsrc/ProjectSourcesGoal.java:201 | joining the pieces with commas gives the input back, so no character is lost |
| JavaString.SplitAllJoin | src/main/java/org/commonjava/maven/plugins/projectsrc/ProjectSourcesGoal.java:201 | cutting a comma-join of comma-free pieces gives those pieces back (the inverse round trip) |
| JavaString.SplitAllPiece | src/main/java/org/commonjava/maven/plugins/projectsrc/ProjectSourcesGoal.java:201 | a comma-free piece followed by a comma is split off as the first piece |
| JavaString.SplitAllNoComma | src/main/java/org/commonjava/maven/plugins/projectsrc/ProjectSourcesGoal.java:201 | a comma-free string is one piece |
| JavaString.DropTrailingEmpty | src/main/java/org/commonjava/maven/plugins/projectsrc/ProjectSourcesGoal.java:201 | the result is a prefix of the pieces that does not end with an empty piece, and only empty pieces are removed |
| JavaString.Split | src/main/java/org/commonjava/maven/plugins/projectsrc/ProjectSourcesGoal.java:201 | `split(",")` returns a comma-free input whole; otherwise it returns the pieces in order up to the last non-empty one, with only empty pieces missing; no result holds a comma |
| JavaString.SplitWithoutComma | src/main/java/org/commonjava/maven/plugins/projectsrc/ProjectSourcesGoal.java:201 | `""` splits to `[""]` and `"tar.gz"` to `["tar.gz"]` |
| JavaString.SplitTwo | src/main/java/org/commonjava/maven/plugins/projectsrc/ProjectSourcesGoal.java:201 | two comma-free pieces joined by a comma, the second one not empty, split back into those two pieces |
| JavaString.SplitTwoPieces | src/main/java/org/commonjava/maven/plugins/projectsrc/ProjectSourcesGoal.java:201 | `"tar.gz,zip"` splits to `["tar.gz", "zip"]` |
| JavaString.SplitLoneComma | src/main/java/org/commonjava/maven/plugins/projectsrc/ProjectSourcesGoal.java:201 | `","` splits to the empty list |
| JavaString.SplitAllFivePieces | src/main/java/org/commonjava/maven/plugins/projectsrc/ProjectSourcesGoal.java:201 | `"a,,b,,"` has the five pieces `a`, empty, `b`, empty, empty |
| JavaString.SplitDropsOnlyTrailingEmpty | src/main/java/org/commonjava/maven/plugins/projectsrc/ProjectSourcesGoal.java:201 | `"a,,b,,"` splits to `["a", "", "b"]`: an empty piece in the middle stays, and the empty pieces at the end go |
| JavaString.Upper | src/main/java/org/commonjava/maven/plugins/projectsrc/ProjectSourcesGoal.java:419-420 | upper-casing keeps the length and maps each character to its ASCII upper case |
| JavaString.SameIgnoringCaseIsUpperEquality | src/main/java/org/commonjava/maven/plugins/projectsrc/ProjectSourcesGoal.java:419-420 | two characters match in `equalsIgnoreCase` exactly when their upper cases are equal |
| JavaString.EqualsIgnoreCaseIsUpperEquality | src/main/java/org/commonjava/maven/plugins/projectsrc/ProjectSourcesGoal.java:419-420 | `equalsIgnoreCase` holds exactly when the upper-cased strings are equal, in both directions |
| JavaString.EqualsIgnoreCaseIsEquivalence | src/main/java/org/commonjava/maven/plugins/projectsrc/ProjectSourcesGoal.java:419-420 | `equalsIgnoreCase` is reflexive, symmetric and transitive |
| JavaString.EqualsIgnoreCaseNeedsSameLength | src/main/java/org/commonjava/maven/plugins/projectsrc/ProjectSourcesGoal.java:419-420 | strings of different length are never equal ignoring case |
| JavaString.CaseVariantsAreEqual | src/main/java/org/commonjava/maven/plugins/projectsrc/ProjectSourcesGoal.java:419-420 | strings that differ only in the case of their letters are equal ignoring case |
| Formats.TrimEach | src/main/java/org/commonjava/maven/plugins/projectsrc/ProjectSourcesGoal.java:204-206 | the result has one element per piece, and each is that piece trimmed, in the same position |
| Formats.GetAssemblyFormats | src/main/java/org/commonjava/maven/plugins/projectsrc/ProjectSourcesGoal.java:200-208 | the loop returns one entry per piece of `split(",")`, and each is the piece at the same position trimmed, keeping order and duplicates; this is the list `AssemblyFormats` defines |
| Formats.FormatsAreTrimmedTokens | src/main/java/org/commonjava/maven/plugins/projectsrc/ProjectSourcesGoal.java:200-208 | no format starts or ends with a character at or below U+0020, and none holds a comma |
| Formats.FormatsFollowPieces | src/main/java/org/commonjava/maven/plugins/projectsrc/ProjectSourcesGoal.java:200-208 | with a comma in the parameter, format i is comma-separated piece i trimmed, and every piece without a format is an empty piece at the end |
| Formats.FormatCountBound | src/main/java/org/commonjava/maven/plugins/projectsrc/ProjectSourcesGoal.java:200-208 | there are at most one more formats than commas |
| Formats.SingleFormat | src/main/java/org/commonjava/maven/plugins/projectsrc/ProjectSourcesGoal.java:200-208 | a parameter without a comma gives exactly one format: itself trimmed |
| Formats.DefaultAndEmptyFormats | src/main/java/org/commonjava/maven/plugins/projectsrc/ProjectSourcesGoal.java:143 | the default `tar.gz` gives `["tar.gz"]`, and the empty string gives `[""]` |
| Formats.TrimSamples | src/main/java/org/commonjava/maven/plugins/projectsrc/ProjectSourcesGoal.java:205 | `"zip"` and `" zip "` trim to `"zip"`, and `" "` trims to `""` |
| Formats.SplitDuplicateSample | src/main/java/org/commonjava/maven/plugins/projectsrc/ProjectSourcesGoal.java:201 | `" zip ,zip"` splits to `[" zip ", "zip"]` |
| Formats.SplitBlankTailSample | src/main/java/org/commonjava/maven/plugins/projectsrc/ProjectSourcesGoal.java:201 | `"zip, "` splits to `["zip", " "]`: a blank piece at the end is not empty, so it is kept |
| Formats.DuplicateFormatsKept | src/main/java/org/commonjava/maven/plugins/projectsrc/ProjectSourcesGoal.java:200-208 | `" zip ,zip"` gives `["zip", "zip"]`: blanks are removed and the duplicate is kept |
| Formats.TrailingPiecesDroppedBeforeTrim | src/main/java/org/commonjava/maven/plugins/projectsrc/ProjectSourcesGoal.java:200-208 | `"zip, "` gives `["zip", ""]`: empty pieces are dropped before trimming, so a blank last piece survives as an empty format |
| Formats.LoneCommaGivesNoFormat | src/main/java/org/commonjava/maven/plugins/projectsrc/ProjectSourcesGoal.java:200-208 | `","` gives no format at all |
| ConfigSource.CreateConfigSourceForArchive | src/main/java/org/commonjava/maven/plugins/projectsrc/ProjectSourcesGoal.java:210-378 | the overlay's final name is the goal's root folder, and every other answer is the wrapped source's |
| ConfigSource.ConfigSourceForArchive | src/main/java/org/commonjava/maven/plugins/projectsrc/ProjectSourcesGoal.java:175 | the goal's own view is passed exactly when the root folder is null or equal to the final name; otherwise the view differs only in its final name, which is the root folder |
| ConfigSource.OverlayWithSameNameIsIdentity | src/main/java/org/commonjava/maven/plugins/projectsrc/ProjectSourcesGoal.java:259-261 | overlaying a view whose final name already is the root folder changes nothing |
| Descriptor.GetAssembly | src/main/java/org/commonjava/maven/plugins/projectsrc/ProjectSourcesGoal.java:380-407 | a read error gives an execution exception, an invalid configuration a failure exception, and a null or empty list an execution exception; otherwise the first assembly is returned with id `project-sources` and the given formats; only its id and formats are written |
| ProjectSources.ExecutionRootIgnoresCase | src/main/java/org/commonjava/maven/plugins/projectsrc/ProjectSourcesGoal.java:414-431 | the gate holds exactly when the two directories are equal in upper case; directories of different length never pass; identical directories always do |
| ProjectSources.SkipFlagComesFirst | src/main/java/org/commonjava/maven/plugins/projectsrc/ProjectSourcesGoal.java:154-158 | with the skip flag set the goal returns normally and calls nothing, whatever the gate would say |
| ProjectSources.NotExecutionRootSkips | src/main/java/org/commonjava/maven/plugins/projectsrc/ProjectSourcesGoal.java:160-165 | away from the execution root the goal returns normally and calls nothing |
| ProjectSources.ResolutionFailureCreatesNothing | src/main/java/org/commonjava/maven/plugins/projectsrc/ProjectSourcesGoal.java:380-400 | when the descriptor cannot be resolved, the reader is the only collaborator called; the exception kind follows the reader's answer |
| ProjectSources.ResolvedRunsLoop | src/main/java/org/commonjava/maven/plugins/projectsrc/ProjectSourcesGoal.java:167-183 | once the assembly is resolved, the run is the reader call followed by the loop over the parsed formats |
| ProjectSources.ProduceAllCreated | src/main/java/org/commonjava/maven/plugins/projectsrc/ProjectSourcesGoal.java:176-182 | when every creation succeeds, the loop completes with exactly one creation and then one attachment per format, in order |
| ProjectSources.ProduceStopsAtFirstFailure | src/main/java/org/commonjava/maven/plugins/projectsrc/ProjectSourcesGoal.java:176-197 | when creation k is the first to throw, formats before k are created and attached, creation k is the last call, and the exception kind follows the error |
| ProjectSources.ProduceUsesOneNameAndView | src/main/java/org/commonjava/maven/plugins/projectsrc/ProjectSourcesGoal.java:173-182 | every creation in the loop uses the same assembly, name and view, every attachment uses the classifier, and the loop never calls the reader |
| ProjectSources.RunUsesOneNameAndView | src/main/java/org/commonjava/maven/plugins/projectsrc/ProjectSourcesGoal.java:173-182 | the reader is called first with the goal's own view; every archive is then created from the first assembly, under the name computed once from the goal's own view, with the view the overlay rule chose |
| ProjectSources.RunCreatesAndAttachesEveryFormat | src/main/java/org/commonjava/maven/plugins/projectsrc/ProjectSourcesGoal.java:176-182 | when every creation succeeds, the goal completes; after the reader call come, for each format in list order, its creation and then its attachment with the format as type |
| ProjectSources.RunStopsAtFirstFailure | src/main/java/org/commonjava/maven/plugins/projectsrc/ProjectSourcesGoal.java:176-197 | when creation k throws first, the goal ends with an execution exception (creation or formatting error) or a failure exception (invalid configuration); the formats before k are attached, and no later format is attempted |
| ProjectSources.CreateAndAttach | src/main/java/org/commonjava/maven/plugins/projectsrc/ProjectSourcesGoal.java:176-197 | the loop, with its early exit on the first archiver exception, makes exactly the calls and ends exactly as `Produce` describes, attaching under the assembly's own id |
| ProjectSources.ExecuteAtRoot | src/main/java/org/commonjava/maven/plugins/projectsrc/ProjectSourcesGoal.java:167-197 | past the gates, the goal parses the formats, resolves the descriptor and runs the loop as `RunAtRoot` describes; the resolved assembly ends with id `project-sources` and the parsed formats |
| ProjectSources.Execute | src/main/java/org/commonjava/maven/plugins/projectsrc/ProjectSourcesGoal.java:150-198 | `execute()` ends and calls its collaborators exactly as `Run` describes; when skipped it changes no assembly; past the gates the resolved assembly ends with id `project-sources` and the parsed formats |

## Left out

- Logging (the `getLog()` calls in `execute()` and `isThisTheExecutionRoot()`) has no effect on behaviour and is not modelled.
- Maven annotations, dependency injection, `@Parameter` default resolution and the `AbstractMojo` lifecycle are not modelled. The parameters are plain fields of `Goal`.
- The assembly reader, the archiver, the project helper and `AssemblyFormatUtils.getDistributionName` are library code. They become inputs: the reader's answer, an archiver function of call index and format, and a naming function of the assembly id and the view.
- `attachArtifact` is taken to succeed; it declares no checked exception.
- The `recompressZippedFiles` argument `true` passed to `createArchive` is the same on every call, so it is not part of `Call`.
- `MavenSession`, `MavenProject`, `ArtifactRepository`, `MavenFileFilter` and `File` are not modelled. Paths are strings; the project and the session appear only through `basedir` and the execution root directory.
- Of the configuration getters, only the ones with a fixed answer and the ones the overlay must preserve are in `ConfigView`. The many getters that return null, such as the archiver configuration, the descriptor and the filters, are left out.
- JavaString.EqualsIgnoreCase: folds ASCII letters only. Java's full Unicode case mapping is library behaviour and is not modelled.
- Exception messages and causes are not modelled; only the exception kind is.
- A null `formats` parameter would throw a `NullPointerException` in `split`. The model's `formats` is a string, so it cannot be null.
- `getAssemblyFormats` wraps its list with `unmodifiableList`. The model's result is an immutable sequence, so this is implicit.
- The parsed format list may be empty (`","`) or hold empty names (`"zip, "`). The code passes these on unchanged and the model follows the code. No configuration error is raised for them.
