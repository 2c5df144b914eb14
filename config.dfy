/**
 * The records the capsule builder is configured with and the records its
 * collaborators hand it (Maven dependencies, repositories, the exec plugin's
 * configuration, the compiled classes directory), as plain values.
 */
module Config {
  import opened Wrappers
  import opened Text
  import opened JarManifest

  /** The three archives the builder can produce. */
  datatype Variant = Empty | Thin | Fat {
    /** Type.name(): the word the types filter looks for. */
    function Name(): string {
      match this
      case Empty => "empty"
      case Thin => "thin"
      case Fat => "fat"
    }
  }

  /** Pair<String, String> of a system property; either half may be null. */
  datatype Pair = Pair(key: Option<string>, value: Option<string>)

  /** A mode: a named section of manifest entries and system properties (null arrays are empty). */
  datatype Mode = Mode(name: Option<string>, properties: seq<Pair>, manifest: seq<Attr>)

  /** A file set: files `includes` of `directory`, stored under `outputDirectory`. */
  datatype FileSet = FileSet(directory: Option<string>, outputDirectory: Option<string>, includes: Option<seq<string>>)

  datatype Exclusion = Exclusion(groupId: string, artifactId: string)

  datatype Dependency = Dependency(groupId: string, artifactId: string, version: string, scope: string, exclusions: seq<Exclusion>)

  datatype Repository = Repository(id: string, url: string)

  /** A resolved project artifact; `file` is null when it was not resolved. */
  datatype Artifact = Artifact(id: string, file: Option<string>)

  /** The coordinates of the project being packaged and its declared dependencies. */
  datatype Project = Project(groupId: string, artifactId: string, version: string, dependencies: seq<Dependency>)

  /**
   * The parts of an exec-maven-plugin configuration the builder reads: the
   * value of `mainClass`, the values of the children of `arguments` and the
   * key/value children of `systemProperties` (a missing element or a missing
   * value reads as null).
   */
  datatype ExecConfig = ExecConfig(mainClass: Option<string>, arguments: Option<seq<Option<string>>>, systemProperties: Option<seq<Pair>>)

  datatype Execution = Execution(id: string, configuration: Option<ExecConfig>)

  /** The exec plugin as declared in the project: its root configuration and its executions. */
  datatype ExecPlugin = ExecPlugin(configuration: Option<ExecConfig>, executions: seq<Execution>)

  /**
   * The files the builder reads: the paths that are directories and the
   * contents of the regular files, by path.
   */
  datatype Disk = Disk(directories: set<string>, files: map<string, seq<byte>>)

  /** `new File(parent, child)`. */
  function Child(parent: string, child: string): string {
    parent + "/" + child
  }

  /** A regular file under the compiled classes directory: its path relative to that directory and its bytes. */
  datatype ClassFile = ClassFile(path: string, bytes: seq<byte>)

  /** The conditions the builder warns about and carries on. */
  datatype Warning =
    | CapletNotFound(caplet: string)
    | MainJarMissing
    | DependencyFileMissing(artifact: string)
    | NotADirectory(directory: string)
    | UnnamedMode

  /** The conditions that end the build. */
  datatype Failure =
    | AppClassNotSet             // MojoFailureException: no application class anywhere
    | VersionRangeUnresolved     // MojoFailureException from the version-range resolution
    | NoCapsuleVersion           // NullPointerException: no version configured and no release found
    | CapsuleNotFound            // IOException: the capsule artifact cannot be resolved
    | NoCapsuleClass             // NullPointerException: the capsule artifact has no Capsule.class
    | FileNotFound(path: string) // IOException: a file to copy is missing
    | DuplicateEntry(name: string) // ZipException of a directory marker, which nothing catches
    | NullIncludes               // NullPointerException: a file set without includes

  /** The outcome of a step that may end the build. */
  datatype Outcome<T> = Ok(value: T) | Err(error: Failure)
}
