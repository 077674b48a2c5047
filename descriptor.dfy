/**
 * Resolving the assembly descriptor: the reader's answer is turned into one
 * assembly, stamped in place with the goal's classifier and formats, or into
 * the failure the goal reports.
 */
module Descriptor {
  import opened Wrappers

  /** The id every resolved assembly is given, and the classifier of every attached artifact. */
  const Classifier: string := "project-sources"

  /** A parsed assembly descriptor, as the reader returns it and the goal updates it. */
  class Assembly {
    var id: string
    var formats: seq<string>
    /** The directories the descriptor includes; the goal never touches them. */
    var fileSets: seq<string>

    constructor (id: string, formats: seq<string>, fileSets: seq<string>)
      ensures this.id == id && this.formats == formats && this.fileSets == fileSets
    {
      this.id := id;
      this.formats := formats;
      this.fileSets := fileSets;
    }
  }

  /** The two kinds of exception the goal can end with. */
  datatype MojoError =
    | ExecutionException  // MojoExecutionException: the build could not do the work
    | FailureException    // MojoFailureException: the configuration is wrong

  /** What the assembly reader did: throw one of its two exceptions or return a list, possibly null. */
  datatype ReadResult =
    | ReadError                  // AssemblyReadException
    | ReadInvalidConfiguration   // InvalidAssemblerConfigurationException
    | Returned(assemblies: Option<seq<Assembly>>)

  /** The assembly the goal goes on with, or the failure it reports instead. */
  function Resolve(read: ReadResult): Result<Assembly, MojoError> {
    match read
    case ReadError => Failure(ExecutionException)
    case ReadInvalidConfiguration => Failure(FailureException)
    case Returned(None) => Failure(ExecutionException)
    case Returned(Some(list)) => if list == [] then Failure(ExecutionException) else Success(list[0])
  }

  /** The objects the resolution updates: the chosen assembly, if there is one. */
  function Stamped(read: ReadResult): set<Assembly> {
    if Resolve(read).Success? then {Resolve(read).value} else {}
  }

  /**
   * Maps reader errors and an empty answer to failures; otherwise takes the
   * first assembly and sets its id and its formats in place.
   */
  method GetAssembly(read: ReadResult, assemblyFormats: seq<string>) returns (r: Result<Assembly, MojoError>)
    modifies Stamped(read)`id, Stamped(read)`formats
    ensures r == Resolve(read)
    ensures read.ReadError? ==> r == Failure(ExecutionException)
    ensures read.ReadInvalidConfiguration? ==> r == Failure(FailureException)
    ensures read == Returned(None) || read == Returned(Some([])) ==> r == Failure(ExecutionException)
    ensures read.Returned? && read.assemblies.Some? && read.assemblies.value != [] ==>
      r == Success(read.assemblies.value[0])
    ensures r.Success? ==>
      && r.value.id == Classifier
      && r.value.formats == assemblyFormats
      && r.value.fileSets == old(r.value.fileSets)
  {
    match read {
      case ReadError =>
        r := Failure(ExecutionException);
      case ReadInvalidConfiguration =>
        r := Failure(FailureException);
      case Returned(None) =>
        r := Failure(ExecutionException);
      case Returned(Some(assemblies)) =>
        if assemblies == [] {
          r := Failure(ExecutionException);
        } else {
          var assembly := assemblies[0];
          assembly.id := Classifier;
          assembly.formats := assemblyFormats;
          r := Success(assembly);
        }
    }
  }
}
