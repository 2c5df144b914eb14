# capsule-maven-plugin: the capsule goal, modelled in Dafny

The `capsule` goal of the capsule Maven plugin (`CapsuleMojo`) packages a
project as up to three executable archives:

- the **empty** capsule: a manifest naming the application's coordinates and
  repositories, plus the Capsule launcher classes;
- the **thin** capsule: the compiled classes and the launcher, with the
  dependencies listed in the manifest;
- the **fat** capsule: the main jar, every dependency jar and `Capsule.class`.

Every capsule also carries the caplet classes that were found and the
configured file sets. Each capsule may get executable copies: a shell prefix
followed by the archive.

The model has nine modules:

- `Wrappers`: `Option` and `Status` (done, or failed with an error).
- `Text`: the Java string operations the goal uses:
  - `contains` and `endsWith`;
  - `String.replace` on a literal;
  - `split(" ")`, which drops trailing empty strings;
  - ASCII case folding for manifest names;
  - `File.getName` and `File.getParent`.
  Of these, only `split` has round-trip lemmas, against joining with the
  separator.
- `JarManifest`: case-insensitive manifest attributes where the last write
  wins, and a manifest made of a main section plus named sections.
- `Config`: the plugin's parameters and the records Maven hands it, as values.
- `Serialise`: the string builders. Each one is a specification function plus
  the loop that builds it, proved equal. Each format is parsed back into its
  tokens.
- `BuildPlan`: the decisions `execute` takes before writing anything:
  - which exec configuration applies;
  - which caplets exist;
  - which variants are built;
  - which capsule version is used;
  - the output directory;
  - the archive names;
  - where the executable copies go.
- `CapsuleManifest`: the main section and the mode sections, with the
  precedence each attribute obeys.
- `Archive`: the archive as a sequence of named entries, written by the class
  `JarWriter`. Also here: the entries read out of the capsule artifact, and
  how file sets are written.
- `Mojo`: the goal as the class `CapsuleMojo`. It holds the parameters, the
  fields `execute` rewrites (`appClass`, `caplets`, `capsuleVersion`,
  `output`, `fileSets`, the caplet files, the memoised capsule artifact), the
  warnings it logs and the files it writes.

Maven, Aether and the file system are inputs. They appear as an
`Environment` value:

- the project and its dependencies;
- the repositories and the resolved artifacts;
- the declared exec plugin;
- the walk of the classes directory;
- a disk of directories and file contents;
- the versions returned by the version-range request;
- the capsule artifacts the repository system resolves.

Exceptions that end the goal are `Failed(...)` statuses, and the methods
stop at the first one, as the Java code does.

Each capsule the goal tries is recorded as a ghost `Step`: the file sets
and the warnings it started from, how its steps ended and how the build
ended. `Chained` says the steps follow one another in the order empty, thin,
fat up to the first failure. The goal's contract ties every step to the
specification of its variant, so success is stated exactly, not only its
consequences.

## Model

| member | source | states |
|---|---|---|
| Text.BaseName | src/main/java/capsule/CapsuleMojo.java:313-314 | the entry name of a file is a suffix of its path with no '/' in it |
| Text.SplitJoin | src/main/java/capsule/CapsuleMojo.java:155 | splitting on a separator undoes joining tokens that do not contain it |
| Text.JoinSplit | src/main/java/capsule/CapsuleMojo.java:155 | joining the pieces of a split gives back the string |
| Text.ReplaceOnlyTrailing | src/main/java/capsule/CapsuleMojo.java:601 | when ".jar" occurs only at the end of a path, `replace` changes only that occurrence |
| Text.ReplaceSkipsPrefix | src/main/java/capsule/CapsuleMojo.java:601 | `replace` passes unchanged over a prefix in which the target's first character never occurs |
| Text.ReplaceAllEnds | src/main/java/capsule/CapsuleMojo.java:601 | when a target whose first character does not recur in it ends the string, the result of `replace` ends with the replacement |
| JarManifest.Put | src/main/java/capsule/CapsuleMojo.java:350-352 | `Attributes.put`: every spelling of the name now reads the new value, other names are unchanged, the first spelling of a name is kept |
| JarManifest.PutAllGet | src/main/java/capsule/CapsuleMojo.java:379-390 | after a sequence of puts a name reads the value of the last pair written for it, otherwise its earlier value |
| JarManifest.PutAllAppend | src/main/java/capsule/CapsuleMojo.java:347-390 | writing two groups of pairs in turn is writing their concatenation |
| JarManifest.PutAllEmpty | src/main/java/capsule/CapsuleMojo.java:413 | a section written from pairs is empty exactly when it started empty and no pair was written |
| JarManifest.PutCommutes | src/main/java/capsule/CapsuleMojo.java:250-252 | two puts of different names commute, so the HashMap order of the extra attributes does not matter |
| Serialise.GetDependencyCoordsWithExclusions | src/main/java/capsule/CapsuleMojo.java:539-551 | the loop builds `g:a:v`, followed by `(g1:a1,...)` exactly when there are exclusions |
| Serialise.ExclusionListParses | src/main/java/capsule/CapsuleMojo.java:539-551 | a dependency's coordinates are `g:a:v` alone without exclusions; otherwise the parenthesised part splits on ',' into exactly the exclusions, in order, with no trailing comma |
| Serialise.PackagedDependenciesExact | src/main/java/capsule/CapsuleMojo.java:562-563 | a dependency is listed exactly when its scope is "compile" or "runtime", and no more dependencies are listed than declared |
| Serialise.DependencyTokensAreCoords | src/main/java/capsule/CapsuleMojo.java:560-566 | one token per listed dependency, in declaration order, each its coordinates |
| Serialise.GetDependencyString | src/main/java/capsule/CapsuleMojo.java:560-566 | the loop builds the token list, each token followed by one space |
| Serialise.DependencyStringParses | src/main/java/capsule/CapsuleMojo.java:560-566 | the dependency string splits on ' ' into the tokens, then one empty piece for the trailing space |
| Serialise.OtherScopesIgnored | src/main/java/capsule/CapsuleMojo.java:563 | a dependency of another scope adds nothing to the string |
| Serialise.GetRepoString | src/main/java/capsule/CapsuleMojo.java:553-558 | the loop builds `id(url) ` for every repository, in order |
| Serialise.RepoStringParses | src/main/java/capsule/CapsuleMojo.java:553-558 | the repository string splits on ' ' into one `id(url)` token per repository, then one empty piece |
| Serialise.PropertyTokens | src/main/java/capsule/CapsuleMojo.java:572-574 | no token at all exactly when every pair has a null key or a null value |
| Serialise.GetPropertiesList | src/main/java/capsule/CapsuleMojo.java:572-574 | the loop builds `k=v ` for every complete pair, in order |
| Serialise.PropertiesListEmpty | src/main/java/capsule/CapsuleMojo.java:405-410 | the property list is empty exactly when no pair is complete |
| Serialise.GetSystemPropertiesString | src/main/java/capsule/CapsuleMojo.java:568-591 | the configured properties win over the exec plugin's; the result is null exactly when neither is there; it is "" when all configured pairs are incomplete |
| Serialise.GetJvmArgs | src/main/java/capsule/CapsuleMojo.java:363-376 | the loop builds each non-null argument with its spaces removed, followed by one space; there is no attribute without a non-empty argument list |
| Serialise.NoSpaceLeft | src/main/java/capsule/CapsuleMojo.java:371 | `replace(" ", "")` leaves no space |
| Serialise.JvmArgsParse | src/main/java/capsule/CapsuleMojo.java:363-376 | the JVM-Args value splits on ' ' into the arguments, then one empty piece |
| BuildPlan.ExecutionConfigFirst | src/main/java/capsule/CapsuleMojo.java:131-137 | the first execution whose id matches the selector gives the configuration |
| BuildPlan.ExecutionConfigMissing | src/main/java/capsule/CapsuleMojo.java:131-137 | no execution with that id: no configuration |
| BuildPlan.SelectExecConfig | src/main/java/capsule/CapsuleMojo.java:126-139 | the search picks "root"'s configuration or the first matching execution, and nothing without a selector or a plugin |
| BuildPlan.AppClass | src/main/java/capsule/CapsuleMojo.java:142-149 | a configured appClass is kept; the exec plugin's mainClass is used only when none is configured; none is left exactly when both are missing |
| BuildPlan.FirstMatchFinds | src/main/java/capsule/CapsuleMojo.java:157-166 | the walk finds a class file whose path contains the fragment exactly when one exists, and what it finds is such a file |
| BuildPlan.FirstMatchIsFirst | src/main/java/capsule/CapsuleMojo.java:157-166 | the walk stops at the first such file in visit order |
| BuildPlan.CapletsPartition | src/main/java/capsule/CapsuleMojo.java:155-175 | every fragment is either kept (found) or reported missing, never both |
| BuildPlan.CapletStringJoins | src/main/java/capsule/CapsuleMojo.java:172-173 | the kept caplets are joined with single spaces |
| BuildPlan.CapletListParses | src/main/java/capsule/CapsuleMojo.java:172-176 | the rewritten caplets value splits on ' ' back into the kept fragments |
| BuildPlan.KeptCapletsHaveNoSpace | src/main/java/capsule/CapsuleMojo.java:155 | no kept fragment contains a space |
| BuildPlan.FilterCaplets | src/main/java/capsule/CapsuleMojo.java:152-177 | the loop builds the kept caplets string and the missing list; the caplet files map holds exactly the found fragments, each with its first match |
| BuildPlan.FoundCapletsExact | src/main/java/capsule/CapsuleMojo.java:155-171 | the caplet files map holds a fragment exactly when it is one of the configured fragments and the walk found a file for it, and then holds that first match |
| BuildPlan.TypeFilterNeverEmpty | src/main/java/capsule/CapsuleMojo.java:180-188 | at least one variant is always built |
| BuildPlan.PickVersion | src/main/java/capsule/CapsuleMojo.java:204-210 | the chosen version is the last one that is not a snapshot; there is none exactly when every version is a snapshot |
| BuildPlan.OutputDirectory | src/main/java/capsule/CapsuleMojo.java:217-224 | the output is never the classes directory; it is redirected to the build directory only then |
| BuildPlan.JarPath | src/main/java/capsule/CapsuleMojo.java:514-518 | every archive is a `.jar` file |
| BuildPlan.DistinctSuffixesDistinctJars | src/main/java/capsule/CapsuleMojo.java:618-624 | variants with different descriptors never write the same archive |
| BuildPlan.ExecCopyLeavesDirectory | src/main/java/capsule/CapsuleMojo.java:601 | as written, a ".jar" in a directory name is replaced too: for any archive `dir.jar/name.jar` without other dots the copy is `dir.x/name.x`, outside `dir.jar`, where the corrected path gives `dir.jar/name.x` |
| BuildPlan.ExecCopyDirectory | src/main/java/capsule/CapsuleMojo.java:601 | the as-written copy of `dir.jar/name.jar` lies in the directory `dir` followed by the extension |
| BuildPlan.JarDirIsParent | src/main/java/capsule/CapsuleMojo.java:515 | the archive `{output}/{name}.jar` lies in the output directory, or, when the name has a '/', in the output directory followed by the name's own parent |
| BuildPlan.ExecCopyPath | src/main/java/capsule/CapsuleMojo.java:601 | the copy keeps the archive's path up to its ".jar" suffix and ends with the extension; with any other extension than ".jar" it is not the archive itself |
| BuildPlan.ExecCopyPathAgrees | src/main/java/capsule/CapsuleMojo.java:601 | when ".jar" occurs only at the end, the corrected path and the written one agree |
| BuildPlan.ExecCopiesDistinct | src/main/java/capsule/CapsuleMojo.java:593-601 | for an archive path ending in ".jar", the `.x` copy and the `.tx` copy (as written) end with their extensions, and the archive and its two copies are three different paths |
| CapsuleManifest.MainSectionInGroups | src/main/java/capsule/CapsuleMojo.java:350-390 | the main section is the fixed, the optional, the extra, the Caplets and the user pairs written in that order |
| CapsuleManifest.MainSectionPrecedence | src/main/java/capsule/CapsuleMojo.java:350-390 | each attribute reads the user's last value, else Caplets, else the extras, else the fixed and optional attributes |
| CapsuleManifest.UserEntriesWin | src/main/java/capsule/CapsuleMojo.java:387-390 | a user manifest pair not overwritten by a later one is the attribute's value |
| CapsuleManifest.MainClassIsLauncher | src/main/java/capsule/CapsuleMojo.java:351 | unless an extra or a user entry names Main-Class, it is the launcher class |
| CapsuleManifest.OptionalValue | src/main/java/capsule/CapsuleMojo.java:359-360 | System-Properties is present exactly when the properties string is non-null |
| CapsuleManifest.SystemPropertiesEntry | src/main/java/capsule/CapsuleMojo.java:359-360 | in the main section System-Properties is the properties string, absent when it is null |
| CapsuleManifest.CapletsEntry | src/main/java/capsule/CapsuleMojo.java:384-385 | Caplets is present exactly when the filtered caplet string is non-empty, and then holds it |
| CapsuleManifest.ModeAttributesGet | src/main/java/capsule/CapsuleMojo.java:397-411 | a mode's System-Properties is its `k=v ` list when non-empty, overriding its manifest pair; every other name reads its last manifest pair |
| CapsuleManifest.ModeAttributesEmpty | src/main/java/capsule/CapsuleMojo.java:397-413 | a mode writes nothing exactly when it has no manifest pairs and no complete property pair |
| CapsuleManifest.BuildModeAttributes | src/main/java/capsule/CapsuleMojo.java:397-411 | the loops build the mode's section |
| CapsuleManifest.AddModeSection | src/main/java/capsule/CapsuleMojo.java:413 | a named mode's section is stored under its name only when it is not empty |
| CapsuleManifest.PutPairs | src/main/java/capsule/CapsuleMojo.java:379-390 | the for-each loops write the pairs in order |
| CapsuleManifest.PlaceHas | src/main/java/capsule/CapsuleMojo.java:393-416 | a name has a section exactly when some named mode writes something under it |
| CapsuleManifest.PlaceLastWins | src/main/java/capsule/CapsuleMojo.java:393-416 | of several modes with the same name, the last one that writes something gives the section |
| CapsuleManifest.SectionsLastWins | src/main/java/capsule/CapsuleMojo.java:393-416 | the same two facts stated over the configured modes |
| CapsuleManifest.SectionsStep | src/main/java/capsule/CapsuleMojo.java:394-414 | one more mode either adds its section or, when unnamed, adds one warning |
| Archive.Lookup | src/main/java/capsule/CapsuleMojo.java:504-512 | a name reads an entry exactly when the archive has one of that name |
| Archive.AddedLookup | src/main/java/capsule/CapsuleMojo.java:504-512 | adding an entry makes a new name readable and leaves the content of every existing name as it was: the first entry wins |
| Archive.AddedUnique | src/main/java/capsule/CapsuleMojo.java:504-512 | adding never duplicates a name, never loses an entry, and the name is present afterwards |
| Archive.AddedAllKeeps | src/main/java/capsule/CapsuleMojo.java:429-441 | adding a sequence keeps the earlier entries and the unique names, and every name added is present |
| Archive.JarWriter.AddToJar | src/main/java/capsule/CapsuleMojo.java:504-512 | `addToJar` appends an entry of a new name and silently skips a duplicate |
| Archive.JarWriter.PutDirectory | src/main/java/capsule/CapsuleMojo.java:490-491 | the directory marker is appended only for a new name and reports a duplicate (not caught in the source) |
| Archive.JarWriter.AddAll | src/main/java/capsule/CapsuleMojo.java:257-258 | every capsule class ends up named in the archive, and only capsule classes are added |
| Archive.FirstNamed | src/main/java/capsule/CapsuleMojo.java:453-461 | Capsule.class is found exactly when the capsule jar has an entry of that name |
| Archive.FirstNamedIsFirst | src/main/java/capsule/CapsuleMojo.java:456-459 | the first such entry gives the bytes |
| Archive.FindCapsuleClass | src/main/java/capsule/CapsuleMojo.java:453-461 | the reading loop returns the first Capsule.class |
| Archive.CollectCapsuleClasses | src/main/java/capsule/CapsuleMojo.java:463-473 | the reading loop collects the capsule classes |
| Archive.CapsuleClassesHas | src/main/java/capsule/CapsuleMojo.java:469 | an entry is collected exactly when its name contains "capsule" or is Capsule.class |
| Archive.CapsuleClassesLastWins | src/main/java/capsule/CapsuleMojo.java:470 | of two entries with the same name the later one's bytes are kept |
| Archive.CapsuleClassAmongAll | src/main/java/capsule/CapsuleMojo.java:469 | Capsule.class, when present, is among the collected classes |
| Archive.OutputPrefix | src/main/java/capsule/CapsuleMojo.java:488-494 | a non-empty output directory is normalised to end with '/'; an empty or null one becomes "" |
| Archive.OutputPrefixIdempotent | src/main/java/capsule/CapsuleMojo.java:489 | normalising twice is normalising once |
| Archive.SettledIdempotent | src/main/java/capsule/CapsuleMojo.java:489-493 | the in-place rewrite of a file set's output directory is idempotent |
| Archive.ApplyFileSetsSettles | src/main/java/capsule/CapsuleMojo.java:478-501 | after a run every file set is either untouched or has its output directory rewritten |
| Archive.SettledSameEffect | src/main/java/capsule/CapsuleMojo.java:478-501 | a rewritten file set writes what the original wrote |
| Archive.RerunSameEffect | src/main/java/capsule/CapsuleMojo.java:475-502 | rewritten file sets give the same outcome and the same warnings as the originals |
| Archive.FileSetsStable | src/main/java/capsule/CapsuleMojo.java:488-493 | the second and third capsule (the calls at lines 264, 295 and 337) see the rewritten file sets, and write what the originals would have |
| Archive.AddIncludesUnderPrefix | src/main/java/capsule/CapsuleMojo.java:496-499 | every include is stored under the normalised output directory |
| Archive.AddIncludesStops | src/main/java/capsule/CapsuleMojo.java:496-499 | the first failing include ends the file set |
| Archive.AddIncludesStep | src/main/java/capsule/CapsuleMojo.java:496-499 | one more include adds the file under the output directory when it exists, and fails on its path otherwise |
| Archive.ApplyFileSetsStops | src/main/java/capsule/CapsuleMojo.java:478-501 | the first failing file set ends the run; the rest are untouched |
| Archive.FileSetUnderOutputDirectory | src/main/java/capsule/CapsuleMojo.java:488-499 | a file set adds entries only under its output directory and keeps what came before |
| Archive.MissingDirectorySkipped | src/main/java/capsule/CapsuleMojo.java:483-486 | a file set whose directory is not a directory adds nothing and logs one warning |
| Archive.SameOutputDirectoryFails | src/main/java/capsule/CapsuleMojo.java:488-491 | two active file sets with the same non-empty output directory fail on the second directory marker |
| Mojo.CapsuleCoords | src/main/java/capsule/CapsuleMojo.java:533-537 | the capsule artifact is `co.paralleluniverse:capsule`, with `:version` only when the version is non-empty |
| Mojo.ProjectClassEntriesExact | src/main/java/capsule/CapsuleMojo.java:429-441 | a compiled class is copied exactly when it is a file other than .DS_Store and MANIFEST.MF |
| Mojo.ProjectClassStep | src/main/java/capsule/CapsuleMojo.java:433-439 | visiting one more file adds its entry exactly when it is copied, on top of what the earlier files added |
| Mojo.CapsuleMojo.constructor | src/main/java/capsule/CapsuleMojo.java:53-120 | a fresh goal holds its parameters and has not resolved or written anything |
| Mojo.CapsuleMojo.BuildMainAttributes | src/main/java/capsule/CapsuleMojo.java:348-390 | the main section of the variant's manifest |
| Mojo.CapsuleMojo.BuildModeSections | src/main/java/capsule/CapsuleMojo.java:392-416 | the named sections of the modes, and one warning per unnamed mode |
| Mojo.CapsuleMojo.AddManifest | src/main/java/capsule/CapsuleMojo.java:347-427 | the variant's manifest is written as META-INF/MANIFEST.MF |
| Mojo.CapsuleMojo.VisitClassFile | src/main/java/capsule/CapsuleMojo.java:433-439 | one visited file is added when it is a copied class file and skipped otherwise |
| Mojo.CapsuleMojo.AddCompiledProjectClasses | src/main/java/capsule/CapsuleMojo.java:429-441 | the copied class files are added in walk order; a missing classes directory fails |
| Mojo.CapsuleMojo.AddCapletClasses | src/main/java/capsule/CapsuleMojo.java:443-451 | with caplets, every caplet file found is named in the archive and nothing else is added; without caplets nothing is added |
| Mojo.CapsuleMojo.AddInclude | src/main/java/capsule/CapsuleMojo.java:496-499 | one include is stored under the output directory when its file exists; a missing file fails and adds nothing |
| Mojo.CapsuleMojo.AddIncludeAll | src/main/java/capsule/CapsuleMojo.java:496-499 | the includes of a file set in order, up to the first missing file |
| Mojo.CapsuleMojo.WriteFileSet | src/main/java/capsule/CapsuleMojo.java:488-499 | one active file set: the directory marker, then the includes, or the failure that stops it |
| Mojo.CapsuleMojo.AddFileSet | src/main/java/capsule/CapsuleMojo.java:479-500 | one file set: skipped without a directory, warned about and skipped when its directory does not exist, written otherwise |
| Mojo.CapsuleMojo.NextFileSet | src/main/java/capsule/CapsuleMojo.java:478-501 | one turn of the file-set loop: the set is rewritten in place and written, and the run advances by one set or stops at its failure |
| Mojo.CapsuleMojo.AddFileSets | src/main/java/capsule/CapsuleMojo.java:475-502 | the archive, the rewritten file sets and the warnings are those of the file-set run; without file sets nothing changes |
| Mojo.CapsuleMojo.ResolveCapsule | src/main/java/capsule/CapsuleMojo.java:520-531 | the artifact is resolved only while none is remembered, so at most once, and is remembered once found |
| Mojo.CapsuleMojo.GetCapsuleClass | src/main/java/capsule/CapsuleMojo.java:453-461 | the first Capsule.class of the capsule artifact, or a failure when there is none |
| Mojo.CapsuleMojo.GetAllCapsuleClasses | src/main/java/capsule/CapsuleMojo.java:463-473 | every capsule class of the capsule artifact |
| Mojo.CapsuleMojo.CopyLeavesOutput | src/main/java/capsule/CapsuleMojo.java:601-606 | with the output directory `dir.jar` and the plain copy wanted, a capsule named without dots has its copy in `dir.x`, which can be opened exactly when that directory exists; otherwise the capsule fails with FileNotFound on the copy |
| Mojo.CapsuleMojo.CreateExecCopyProcess | src/main/java/capsule/CapsuleMojo.java:600-616 | the copy is stored at the archive's path with every ".jar" replaced by the extension, as written, and holds the ASCII prefix followed by the archive's entries unchanged; it succeeds exactly when the copy's directory is the output directory (unless that path is a regular file) or exists, and otherwise fails with FileNotFound on the copy's path and writes nothing; no other file changes |
| Mojo.CapsuleMojo.CreateExecCopy | src/main/java/capsule/CapsuleMojo.java:593-598 | the `.x` copy is wanted exactly when chmod or buildExec is on, the `.tx` copy exactly when trampoline is on, each at its as-written path; the first wanted copy that cannot be opened is the failure and the trampoline copy is not tried after a failed plain copy; no other file changes |
| Mojo.CapsuleMojo.ExecCopiesWritten | src/main/java/capsule/CapsuleMojo.java:593-616 | the files after createExecCopy are those before plus some wanted copies, all of them when it succeeds; the copy it could not open is left as it was; the archive and every other file are unchanged, and each copy written holds its prefix followed by the archive |
| Mojo.CapsuleMojo.StoredWrites | src/main/java/capsule/CapsuleMojo.java:266-267 | closing a capsule writes the given archive at its path, non-empty and with no name twice, adds the archive and some of its copies to the files (all of them when the copies succeed) and leaves every other file as it was |
| Mojo.CapsuleMojo.SeparateOutputs | src/main/java/capsule/CapsuleMojo.java:514-601 | with distinct descriptors, the archive and copies one capsule writes never replace the archive of another |
| Mojo.CapsuleMojo.Finish | src/main/java/capsule/CapsuleMojo.java:266-267 | the closed archive, non-empty and with unique names, is stored at its path, followed by the wanted executable copies that can be opened; the status is that of the copies, FileNotFound on the first copy whose directory is missing |
| Mojo.CapsuleMojo.AddCapsuleClasses | src/main/java/capsule/CapsuleMojo.java:256-258 | fails with CapsuleNotFound when the capsule artifact of the chosen version is missing; otherwise keeps what was there, names every capsule class of that artifact and adds nothing else |
| Mojo.CapsuleMojo.OpenJar | src/main/java/capsule/CapsuleMojo.java:514-518 | creating a variant's archive succeeds exactly when the directory its path names exists (the output directory counts unless it is a regular file, since line 227 creates it), and otherwise fails with FileNotFound on the archive's path; nothing changes |
| Mojo.CapsuleMojo.OpensFlatName | src/main/java/capsule/CapsuleMojo.java:227 | an archive whose name has no '/' lies directly in the output directory, and can be created exactly when the output path is empty, is not a regular file, or is a directory |
| Mojo.CapsuleMojo.OpenCapsule | src/main/java/capsule/CapsuleMojo.java:246-253 | once the archive is created, its only entry is the variant's manifest, with the variant's additional attributes; one warning per unnamed mode |
| Mojo.CapsuleMojo.ExtraAttributes | src/main/java/capsule/CapsuleMojo.java:249-281 | Application and Repositories for the empty capsule, Dependencies and Repositories for the thin one, none for the fat one, each built by its loop |
| Mojo.CapsuleMojo.AddCapletsAndFileSets | src/main/java/capsule/CapsuleMojo.java:261-264 | (also lines 291-295 and 333-337) the caplet files are named and only caplet entries are added, then the file-set run decides the status, the archive, the rewritten file sets and the warnings |
| Mojo.CapsuleMojo.FillEmpty | src/main/java/capsule/CapsuleMojo.java:255-264 | exactly the capsule classes of the capsule artifact, then the caplets, then the file-set run; a missing artifact or a failing file set is the status, and the warnings are those of the steps that ran |
| Mojo.CapsuleMojo.BuildEmpty | src/main/java/capsule/CapsuleMojo.java:245-268 | when the archive's directory does not exist, the build fails with FileNotFound on the archive's path and nothing is logged or written; otherwise the manifest (with Application and Repositories) first, then what FillEmpty states; once the steps succeed the archive is stored with the copies that can be opened, and the build ends as the copies do; a failing step writes nothing |
| Mojo.CapsuleMojo.FillThin | src/main/java/capsule/CapsuleMojo.java:283-295 | the copied class files in walk order, the capsule classes, the caplets and the file-set run; a missing classes directory, a missing artifact or a failing file set is the status |
| Mojo.CapsuleMojo.BuildThin | src/main/java/capsule/CapsuleMojo.java:273-299 | when the archive's directory does not exist, the build fails with FileNotFound on the archive's path and nothing is logged or written; otherwise the manifest (with Dependencies and Repositories) first, then what FillThin states; once the steps succeed the archive is stored with the copies that can be opened, and the build ends as the copies do; a failing step writes nothing |
| Mojo.CapsuleMojo.AddMainJar | src/main/java/capsule/CapsuleMojo.java:311-319 | the main jar is added when it exists; otherwise one warning, then the compiled classes |
| Mojo.CapsuleMojo.AddDependencies | src/main/java/capsule/CapsuleMojo.java:321-328 | the archive, status and warnings are those of the dependency loop: each jar in order under its file name, one warning per artifact without a file, and the first file that cannot be opened fails |
| Mojo.CapsuleMojo.AddCapsuleClass | src/main/java/capsule/CapsuleMojo.java:330-331 | Capsule.class is taken from the capsule artifact and named in the archive |
| Mojo.CapsuleMojo.AddDependenciesAndCapsuleClass | src/main/java/capsule/CapsuleMojo.java:321-331 | the dependency jars, then Capsule.class of the capsule artifact, stopping at the first error; the warnings are those of the dependency loop |
| Mojo.CapsuleMojo.AddFatBody | src/main/java/capsule/CapsuleMojo.java:311-331 | the main jar or its fallback, then the dependency jars and Capsule.class, with the outcome of `FatBody` and its warnings |
| Mojo.DependencyJarsOutcome | src/main/java/capsule/CapsuleMojo.java:322-328 | the dependency loop fails exactly when some artifact's file is missing, with the first such file; on success it keeps what was there and names every dependency jar |
| Mojo.DependencyJarsWarnings | src/main/java/capsule/CapsuleMojo.java:322-328 | a loop that goes through warns once for each artifact without a file, and for nothing else |
| Mojo.CapsuleMojo.FillFat | src/main/java/capsule/CapsuleMojo.java:311-337 | the main jar or the compiled classes with one warning, the dependency jars, Capsule.class, the caplets and the file-set run; the first failing step is the status |
| Mojo.CapsuleMojo.BuildFat | src/main/java/capsule/CapsuleMojo.java:304-341 | when the archive's directory does not exist, the build fails with FileNotFound on the archive's path and nothing is logged or written; otherwise the manifest first, then what FillFat states; once the steps succeed the archive is stored with the copies that can be opened, and the build ends as the copies do; a failing step writes nothing |
| Mojo.CapsuleMojo.Complete | src/main/java/capsule/CapsuleMojo.java:255-267 | what a capsule writes after its manifest for its variant, then on success the archive stored with its copies |
| Mojo.CapsuleMojo.FilledHolds | src/main/java/capsule/CapsuleMojo.java:245-341 | a capsule whose steps all succeeded keeps its manifest in front and holds, by name, everything its steps add: the capsule classes, the compiled classes, the main jar or its classes, the dependency jars, Capsule.class, the caplet files and the file-set includes |
| Mojo.CapsuleMojo.FilledWarnings | src/main/java/capsule/CapsuleMojo.java:245-341 | whatever a capsule's steps do, the warnings logged before stay in front |
| Mojo.CapsuleMojo.Configure | src/main/java/capsule/CapsuleMojo.java:125-177 | the exec configuration and the application class; failure exactly when there is no application class; the caplets are checked and every missing one is warned about |
| Mojo.CapsuleMojo.BuildVariant | src/main/java/capsule/CapsuleMojo.java:233-235 | a capsule whose archive cannot be created fails with FileNotFound on the archive's path and changes nothing; otherwise the capsule's steps end as `Filled` says from the variant's manifest, the file sets and the warnings it started from; the build's status is the steps' error or, once the archive is stored, the copies' status; a stored archive has the manifest first and holds everything its steps add, and a failing step writes nothing |
| Mojo.CapsuleMojo.StepOutcome | src/main/java/capsule/CapsuleMojo.java:245-341 | a capsule is built exactly when its archive can be created, its body does not fail, its file sets go through and its copies can be opened; a missing main jar, an artifact without a file or a missing caplet never stops it |
| Mojo.CapsuleMojo.FatBodyFails | src/main/java/capsule/CapsuleMojo.java:311-331 | the fat capsule's body fails exactly when neither the main jar nor the classes directory exists, when a resolved artifact's file is missing, or when the capsule artifact or its Capsule.class is missing |
| Mojo.CapsuleMojo.BuildOne | src/main/java/capsule/CapsuleMojo.java:233-235 | one capsule tried on top of built ones, as `BuildVariant` states; only its own files are added, the capsules built before stay whatever happens, and when it is built it is produced as well |
| Mojo.CapsuleMojo.StepFiles | src/main/java/capsule/CapsuleMojo.java:233-235 | one more capsule over built ones, whose steps failed and changed nothing or which was stored with its copies, keeps the earlier capsules and adds only its own files; when its copies succeeded it is built as well |
| Mojo.CapsuleMojo.StoredKept | src/main/java/capsule/CapsuleMojo.java:266-267 | storing one more capsule, whether or not its copies succeed, keeps the earlier capsules as produced and adds only its own files |
| Mojo.CapsuleMojo.BuiltStep | src/main/java/capsule/CapsuleMojo.java:233-235 | storing one more capsule keeps the capsules built before, adds exactly its own files and produces it |
| Mojo.CapsuleMojo.BuildNext | src/main/java/capsule/CapsuleMojo.java:233-235 | a variant the plan does not want changes nothing and is not tried; a wanted one is tried as `BuildVariant` states, from the file sets and warnings left before it, and ends with its own status; the capsules built before stay, and on success it is built too |
| Mojo.CapsuleMojo.BuildLater | src/main/java/capsule/CapsuleMojo.java:234-235 | the thin and then the fat capsule, when planned, each tried as `BuildVariant` states from where the one before left off, stopping at the first failure; the capsules before the failing one stay, only the plan's files are written, and on success both are built |
| Mojo.CapsuleMojo.BuildLast | src/main/java/capsule/CapsuleMojo.java:235 | the fat capsule, when planned, tried as `BuildVariant` states after the earlier ones, which stay |
| Mojo.CapsuleMojo.BuildVariants | src/main/java/capsule/CapsuleMojo.java:232-239 | the planned capsules are tried in the order empty, thin, fat, each as `BuildVariant` states from where the one before left off, up to the first failure, which is the status; the planned capsules before the failing one stay on disk; no file outside the plan's archives and copies is written; on success exactly the plan's archives and copies are added, and when the descriptors are distinct every planned archive has its manifest first and holds by name what its steps add |
| Mojo.ChainedOutcome | src/main/java/capsule/CapsuleMojo.java:232-239 | the capsules tried are a prefix of the order, all but the last built; the run succeeds exactly when every capsule of the order was tried and built, and a failing run ends with the last one's error |
| Mojo.ChainedAppend | src/main/java/capsule/CapsuleMojo.java:233-235 | a run that went through, followed by a run from where it ended, is the run of both orders |
| Mojo.ChainedStops | src/main/java/capsule/CapsuleMojo.java:233-235 | after a failure nothing more is tried: a failing run is also the run of any longer order |
| Mojo.PlanOrderLists | src/main/java/capsule/CapsuleMojo.java:180-188 | the build order holds exactly the variants the type filter selects, each once |
| Mojo.CapsuleMojo.Settle | src/main/java/capsule/CapsuleMojo.java:197-224 | it succeeds exactly when a capsule version is configured or the range holds a release; the version is the configured one, else the newest release; an unresolved range or an all-snapshot result fails with its own error; the output directory is redirected from the classes directory |
| Mojo.CapsuleMojo.Run | src/main/java/capsule/CapsuleMojo.java:179-239 | Settle's version and output, then the capsules of the type filter tried as `BuildVariants` states; when the version does not settle nothing is tried or written; the capsules before a failing one stay; only their files are written |
| Mojo.CapsuleMojo.Execute | src/main/java/capsule/CapsuleMojo.java:123-240 | the exec configuration, application class and caplets as decided; an unresolvable version range or an all-snapshot range fails; once the version settles the selected capsules are tried in order as `BuildVariants` states; the goal succeeds exactly when there is an application class, the version settles and every selected capsule is built; on success the version is the configured one or the newest release, the output is redirected as required and every selected variant's archive is written, holding by name what its steps add when the descriptors are distinct; after a failure the capsules built before it stay; no file outside their archives and copies is written; the capsule artifact is resolved at most once |

## Left out

- The ZIP/JAR byte encoding, including the manifest's text form and its
  72-byte lines. The archive is a sequence of named entries, and the manifest
  entry holds the manifest as a value.
- The validation `Attributes.Name` performs on attribute names. Names are
  taken as given.
- Maven and Aether: the exec plugin lookup and `Xpp3Dom`, the version-range
  request, artifact resolution and the project's artifacts. They are inputs
  in `Environment`. A failed version-range request is `versions == None`; a
  capsule artifact that does not resolve is a missing key.
- `Files.walkFileTree`: the classes directory is a given sequence of class
  files in visit order. The entry name is the path relative to the classes
  directory, which stands in for the `indexOf("classes") + 8` substring.
- Streams and the `chmod +x` process. An executable copy is a written file
  holding its prefix and the archive's entries. Of the directories, the model
  knows the output directory, which `mkdirs` creates unless the path exists
  (line 227), and those in `env.disk.directories`. Opening an archive
  (line 517) or a copy (line 606) anywhere else fails with FileNotFound, as
  `new FileOutputStream` does; so does opening one in an output path that is
  a regular file. A failing `mkdirs` is not modelled.
- Path normalisation by `java.io.File`. Paths are plain strings joined with '/'.
- Logging. Only the warnings are recorded, in order; `debug`, `info`,
  `printManifest` and `printStackTrace` are not modelled.
- The archive left on disk by a capsule whose steps fail half-way. In the
  model such a capsule writes nothing. Once its steps succeed, its archive is
  stored, so a copy that then fails leaves the archive (and the copies before
  it) on disk, as in the source.
- HashMap iteration order. The extra attributes are written in a fixed order,
  which `JarManifest.PutCommutes` shows does not matter. The capsule classes
  and the caplet files are added in an order the model does not fix.
- A null dependency scope and null flag strings (`chmod`, `buildExec`,
  `trampoline`). They are never null in the model; the Java code would throw.
- The unused `pull` helper and the `Pair`, `Mode` and `FileSet` holder
  classes beyond their fields.
- `Mojo.CapsuleMojo.Execute` is modelled for one run of a fresh goal, which is
  how Maven calls it.
- `Mojo.CapsuleMojo.Execute`: does not state that a failure is `AppClassNotSet`
  only when there is no application class. The builds' failures are not
  proved to differ from it. `Configure` states that equivalence.
- `Mojo.CapsuleMojo.Execute`: states the caplet warnings as a prefix of the
  warnings, not the whole list.
- `Mojo.CapsuleMojo.FillEmpty`, `FillThin`, `AddCapletsAndFileSets`: the
  capsule classes and the caplet files are stated as present and as the only
  entries added, not in which order, because the source adds them in HashMap
  order. Every other step of a capsule is stated entry by entry.
- Manifest pairs with a null key or value. `new Attributes.Name` throws on a
  null key (lines 390 and 401); in the model a pair always has a name and a
  value.
- The other failures `addToJar` swallows. Every `ZipException` is caught and
  logged there (line 509); the model has only the one a duplicate name
  raises, and skips that entry.

## Findings

| source | as written | input that shows it | evidently intended | confidence | as-written member | corrected member |
|---|---|---|---|---|---|---|
| src/main/java/capsule/CapsuleMojo.java:601 | the copy's path replaces every ".jar" in the archive's whole path | with the output directory `a.jar` and a wanted `.x` copy, the goal writes the archive `a.jar/b.jar` and then opens the copy at `a.x/b.x`, in another directory; unless `a.x` exists, opening it fails and the goal fails with FileNotFound | replace only the trailing ".jar" of the file name | not executed | BuildPlan.ExecCopyLeavesDirectory | BuildPlan.ExecCopyPath |

The capsule methods (`CreateExecCopyProcess`, `CreateExecCopy`) follow the
code as written, through `BuildPlan.ExecCopyPathAsWritten`.
`BuildPlan.ExecCopyPathAgrees` shows that the corrected path agrees with it
whenever ".jar" occurs only at the end of the archive's path.
`Mojo.CapsuleMojo.CopyLeavesOutput` carries the row's input to the goal: the
copy of a capsule in the output directory `dir.jar` is opened in `dir.x`, and
the capsule fails with FileNotFound unless that directory exists.
