/**
 * The capsule goal itself: an object holding the plugin's parameters and the
 * state it accumulates while it runs (the exec configuration it found, the
 * caplet files, the resolved capsule artifact, the file sets it rewrites),
 * which writes the empty, thin and fat capsules and their executable copies.
 */
module Mojo {
  import opened Wrappers
  import opened Text
  import opened JarManifest
  import opened Config
  import opened Serialise
  import opened BuildPlan
  import opened CapsuleManifest
  import opened Archive

  const CapsuleGroup := "co.paralleluniverse"
  /** The class that launches a capsule (the Main-Class of every capsule). */
  const LauncherClass := "Capsule"

  /** The plugin's parameters as configured (null arrays of modes and manifest entries are empty). */
  datatype Settings = Settings(
    finalName: string,
    buildDir: string,
    output: string,
    appClass: Option<string>,
    capsuleVersion: Option<string>,
    descriptors: Descriptors,
    buildExec: string,
    chmod: string,
    trampoline: string,
    types: Option<string>,
    caplets: Option<string>,
    execPluginConfig: Option<string>,
    properties: Option<seq<Pair>>,
    manifest: seq<Attr>,
    modes: seq<Mode>,
    fileSets: Option<seq<FileSet>>)

  /**
   * What Maven and the file system supply: the project, its repositories and
   * resolved artifacts, the declared exec plugin, the walk of the compiled
   * classes directory (none when it does not exist), the disk, the versions
   * of the capsule artifact the version-range request returns (none when it
   * fails) and the capsule artifacts the repository system resolves, by coordinates.
   */
  datatype Environment = Environment(
    project: Project,
    repositories: seq<Repository>,
    artifacts: seq<Artifact>,
    execPlugin: Option<ExecPlugin>,
    classes: Option<seq<ClassFile>>,
    disk: Disk,
    versions: Option<seq<string>>,
    capsules: map<string, seq<JarItem>>)

  /** A file the goal writes: a capsule, or an executable copy of one (a shell prefix followed by the capsule). */
  datatype Output = JarFile(entries: seq<Entry>) | ExecutableCopy(prefix: seq<byte>, entries: seq<Entry>)

  /** The project's own coordinates, the Application attribute of the empty capsule. */
  function ProjectCoords(p: Project): string {
    p.groupId + ":" + p.artifactId + ":" + p.version
  }

  /** The coordinates the capsule artifact is resolved by; the version is left out when empty. */
  function CapsuleCoords(version: string): (r: string)
    ensures StartsWith(r, CapsuleGroup + ":capsule")
    ensures version != "" ==> EndsWith(r, ":" + version)
    ensures version == "" ==> r == CapsuleGroup + ":capsule"
  {
    var base := CapsuleGroup + ":capsule";
    var r := base + if version != "" then ":" + version else "";
    assert r[..|base|] == base;
    r
  }

  /** Compiled files are copied except .DS_Store and MANIFEST.MF files. */
  predicate IsCopiedClass(c: ClassFile) {
    BaseName(c.path) != ".DS_Store" && BaseName(c.path) != "MANIFEST.MF"
  }

  /** A compiled file's entry: its path under the classes directory. */
  function ClassEntry(c: ClassFile): Entry {
    Entry(c.path, Data(c.bytes))
  }

  /** Every entry from position `from` on is the entry of one of the caplet files. */
  predicate OnlyCapletEntries(entries: seq<Entry>, from: nat, files: map<string, ClassFile>) {
    forall j :: from <= j < |entries| ==> exists k :: k in files && entries[j] == ClassEntry(files[k])
  }

  /** The entries of the compiled project classes, in walk order. */
  function ProjectClassEntries(classes: seq<ClassFile>): seq<Entry> {
    if classes == [] then []
    else
      var c := classes[|classes| - 1];
      ProjectClassEntries(classes[..|classes| - 1]) + if IsCopiedClass(c) then [ClassEntry(c)] else []
  }

  /** One more file of the walk: it is added when it is copied. */
  lemma ProjectClassStep(start: seq<Entry>, classes: seq<ClassFile>, i: int)
    requires 0 <= i < |classes|
    ensures AddedAll(start, ProjectClassEntries(classes[..i + 1]))
      == if IsCopiedClass(classes[i]) then Added(AddedAll(start, ProjectClassEntries(classes[..i])), ClassEntry(classes[i]))
         else AddedAll(start, ProjectClassEntries(classes[..i]))
  {
    var c := classes[i];
    assert classes[..i + 1][..i] == classes[..i] && classes[..i + 1][i] == c;
    assert ProjectClassEntries(classes[..i + 1]) == ProjectClassEntries(classes[..i]) + if IsCopiedClass(c) then [ClassEntry(c)] else [];
    if IsCopiedClass(c) {
      AddedAllSnoc(start, ProjectClassEntries(classes[..i]), ClassEntry(c));
    } else {
      assert ProjectClassEntries(classes[..i + 1]) == ProjectClassEntries(classes[..i]);
    }
  }

  /** Exactly the copied files of the walk become entries. */
  lemma {:induction false} ProjectClassEntriesExact(classes: seq<ClassFile>, c: ClassFile)
    ensures ClassEntry(c) in ProjectClassEntries(classes) <==> exists d :: d in classes && IsCopiedClass(d) && ClassEntry(d) == ClassEntry(c)
  {
    if classes != [] {
      var init, last := classes[..|classes| - 1], classes[|classes| - 1];
      var tail := if IsCopiedClass(last) then [ClassEntry(last)] else [];
      ProjectClassEntriesExact(init, c);
      assert ProjectClassEntries(classes) == ProjectClassEntries(init) + tail;
      if ClassEntry(c) in ProjectClassEntries(init) {
        var d :| d in init && IsCopiedClass(d) && ClassEntry(d) == ClassEntry(c);
        InInitOrLast(classes, d);
      } else if ClassEntry(c) in tail {
        InInitOrLast(classes, last);
      } else {
        forall d | d in classes && IsCopiedClass(d)
          ensures ClassEntry(d) != ClassEntry(c)
        {
          InInitOrLast(classes, d);
        }
      }
    }
  }

  /** An element of a non-empty sequence is in all but its last element, or is the last. */
  lemma InInitOrLast<T>(s: seq<T>, x: T)
    requires s != []
    ensures x in s <==> x in s[..|s| - 1] || x == s[|s| - 1]
  {
    assert s == s[..|s| - 1] + [s[|s| - 1]];
  }

  /** Concatenation is associative. */
  lemma AppendAssoc<T>(a: seq<T>, b: seq<T>, c: seq<T>)
    ensures (a + b) + c == a + (b + c)
  {
  }

  /** One warning per caplet that was not found. */
  function CapletWarnings(missing: seq<string>): (r: seq<Warning>)
    ensures |r| == |missing|
  {
    seq(|missing|, i requires 0 <= i < |missing| => CapletNotFound(missing[i]))
  }

  /** The dependency loop of buildFat: the archive (or the error that ended it) and the warnings written on the way. */
  datatype DependencyRun = DependencyRun(outcome: Outcome<seq<Entry>>, warnings: seq<Warning>)

  /** A dependency jar's entry: the file's name, with its bytes. */
  function DependencyEntry(path: string, disk: Disk): Entry
    requires path in disk.files
  {
    Entry(BaseName(path), Data(disk.files[path]))
  }

  /**
   * The dependency jars in order: an artifact without a file is reported, a
   * file that cannot be opened ends the build, every other file is added
   * under its name.
   */
  function DependencyJars(entries: seq<Entry>, artifacts: seq<Artifact>, disk: Disk): DependencyRun {
    if artifacts == [] then DependencyRun(Ok(entries), [])
    else
      var prev := DependencyJars(entries, artifacts[..|artifacts| - 1], disk);
      var a := artifacts[|artifacts| - 1];
      if prev.outcome.Err? then prev
      else if a.file.None? then DependencyRun(prev.outcome, prev.warnings + [DependencyFileMissing(a.id)])
      else if a.file.value !in disk.files then DependencyRun(Err(FileNotFound(a.file.value)), prev.warnings)
      else DependencyRun(Ok(Added(prev.outcome.value, DependencyEntry(a.file.value, disk))), prev.warnings)
  }

  /** One more artifact after the earlier ones went through. */
  lemma DependencyJarsStep(entries: seq<Entry>, artifacts: seq<Artifact>, disk: Disk, i: int)
    requires 0 <= i < |artifacts| && DependencyJars(entries, artifacts[..i], disk).outcome.Ok?
    ensures var prev := DependencyJars(entries, artifacts[..i], disk);
      var a := artifacts[i];
      DependencyJars(entries, artifacts[..i + 1], disk)
        == if a.file.None? then DependencyRun(prev.outcome, prev.warnings + [DependencyFileMissing(a.id)])
           else if a.file.value !in disk.files then DependencyRun(Err(FileNotFound(a.file.value)), prev.warnings)
           else DependencyRun(Ok(Added(prev.outcome.value, DependencyEntry(a.file.value, disk))), prev.warnings)
  {
    assert artifacts[..i + 1][..i] == artifacts[..i];
  }

  /** Once a file is missing, the later artifacts change nothing. */
  lemma {:induction false} DependencyJarsStops(entries: seq<Entry>, artifacts: seq<Artifact>, disk: Disk, n: int)
    requires 0 <= n <= |artifacts| && DependencyJars(entries, artifacts[..n], disk).outcome.Err?
    ensures DependencyJars(entries, artifacts, disk) == DependencyJars(entries, artifacts[..n], disk)
    decreases |artifacts|
  {
    if n < |artifacts| {
      var init := artifacts[..|artifacts| - 1];
      assert init[..n] == artifacts[..n];
      DependencyJarsStops(entries, init, disk, n);
    } else {
      assert artifacts[..n] == artifacts;
    }
  }

  /**
   * The loop ends the build exactly when some artifact's file is missing, and
   * then with the first such file; otherwise it keeps what was written and
   * adds every file under its name.
   */
  lemma {:induction false} DependencyJarsOutcome(entries: seq<Entry>, artifacts: seq<Artifact>, disk: Disk)
    ensures var r := DependencyJars(entries, artifacts, disk).outcome;
      && (r.Err? <==> exists i :: 0 <= i < |artifacts| && artifacts[i].file.Some? && artifacts[i].file.value !in disk.files)
      && (r.Err? ==> exists i :: 0 <= i < |artifacts| && artifacts[i].file.Some? && r.error == FileNotFound(artifacts[i].file.value)
                       && artifacts[i].file.value !in disk.files
                       && forall j :: 0 <= j < i && artifacts[j].file.Some? ==> artifacts[j].file.value in disk.files)
      && (r.Ok? ==> entries <= r.value && forall a :: a in artifacts && a.file.Some? ==> BaseName(a.file.value) in Names(r.value))
  {
    if artifacts != [] {
      var n := |artifacts| - 1;
      var init := artifacts[..n];
      var a := artifacts[n];
      DependencyJarsOutcome(entries, init, disk);
      var prev := DependencyJars(entries, init, disk).outcome;
      assert forall i :: 0 <= i < n ==> init[i] == artifacts[i];
      assert forall b :: b in artifacts ==> b in init || b == a;
      if prev.Ok? && a.file.Some? && a.file.value in disk.files {
        AddedNames(prev.value, DependencyEntry(a.file.value, disk));
        NamesGrow(prev.value, Added(prev.value, DependencyEntry(a.file.value, disk)));
      }
    }
  }

  /** The warnings of a loop that went through: exactly one per artifact without a file, in order. */
  lemma {:induction false} DependencyJarsWarnings(entries: seq<Entry>, artifacts: seq<Artifact>, disk: Disk)
    requires DependencyJars(entries, artifacts, disk).outcome.Ok?
    ensures var w := DependencyJars(entries, artifacts, disk).warnings;
      && (forall a :: a in artifacts && a.file.None? ==> DependencyFileMissing(a.id) in w)
      && (forall x :: x in w ==> exists a :: a in artifacts && a.file.None? && x == DependencyFileMissing(a.id))
      && |w| <= |artifacts|
  {
    if artifacts != [] {
      var n := |artifacts| - 1;
      var init := artifacts[..n];
      DependencyJarsWarnings(entries, init, disk);
      assert forall b :: b in artifacts ==> b in init || b == artifacts[n];
      assert forall b :: b in init ==> b in artifacts;
    }
  }

  /**
   * The file-set step from the archive `before`: with no file sets nothing
   * happens; otherwise the step ends as the run of the sets does, the field
   * holds the sets as the run leaves them, and the run's warnings are written.
   */
  ghost predicate FileSetsApplied(disk: Disk, before: seq<Entry>, sets: Option<seq<FileSet>>, status: Status<Failure>,
                                  after: seq<Entry>, setsAfter: Option<seq<FileSet>>, w0: seq<Warning>, w1: seq<Warning>)
  {
    if sets.None? then status.Done? && after == before && setsAfter.None? && w1 == w0
    else
      var run := ApplyFileSets(before, sets.value, disk);
      && (status.Done? <==> run.outcome.Ok?)
      && (status.Failed? ==> run.outcome == Err(status.error))
      && (status.Done? ==> after == run.outcome.value)
      && setsAfter == Some(run.sets)
      && w1 == w0 + run.warnings
  }

  /**
   * What the steps of a capsule read from the goal's fields: the capsule
   * version, the caplet list and the caplet files the caplet check found.
   */
  datatype Inputs = Inputs(version: Option<string>, caplets: Option<string>, capletFiles: map<string, ClassFile>)

  /**
   * What the goal settled before building its capsules: the output
   * directory, the application class, the exec configuration and what the
   * steps read.
   */
  datatype Decided = Decided(output: string, app: string, exec: Option<ExecConfig>, inputs: Inputs)

  /**
   * One capsule the goal tried to build: its variant, the file sets and the
   * warnings it started from, how its steps ended (`fill`) and how the build
   * ended once it was closed (`status`), its archive after the body, after
   * the caplets and at the end, and the file sets and the warnings it left
   * behind.
   */
  datatype Step = Step(v: Variant, from: Option<seq<FileSet>>, logged: seq<Warning>, fill: Status<Failure>,
                       status: Status<Failure>, body: seq<Entry>, beforeSets: seq<Entry>,
                       archive: seq<Entry>, sets: Option<seq<FileSet>>, warnings: seq<Warning>)

  /**
   * The capsules of `order` were tried in turn from the file sets `sets0`
   * and the warnings `w0`, each starting where the one before left off,
   * until one failed: `steps` are the capsules tried, and the build ended
   * with `status`, the file sets `sets1` and the warnings `w1`.
   */
  predicate Chained(order: seq<Variant>, steps: seq<Step>, sets0: Option<seq<FileSet>>, w0: seq<Warning>,
                    sets1: Option<seq<FileSet>>, w1: seq<Warning>, status: Status<Failure>)
    decreases |order|
  {
    if order == [] then steps == [] && status.Done? && sets1 == sets0 && w1 == w0
    else
      && steps != [] && steps[0].v == order[0] && steps[0].from == sets0 && steps[0].logged == w0
      && if steps[0].status.Failed? then steps == [steps[0]] && status == steps[0].status && sets1 == steps[0].sets && w1 == steps[0].warnings
         else Chained(order[1..], steps[1..], steps[0].sets, steps[0].warnings, sets1, w1, status)
  }

  /** Trying one capsule is a run of its variant. */
  lemma ChainedOne(s: Step)
    ensures Chained([s.v], [s], s.from, s.logged, s.sets, s.warnings, s.status)
  {
    assert [s][1..] == [] && [s.v][1..] == [];
  }

  /** A run of the variant v when it is wanted: nothing when it is not, else the one capsule tried. */
  lemma ChainedWanted(wanted: bool, v: Variant, steps: seq<Step>, a: Option<seq<FileSet>>, wa: seq<Warning>,
                      b: Option<seq<FileSet>>, wb: seq<Warning>, status: Status<Failure>)
    requires Chained(Wanted(wanted, v), steps, a, wa, b, wb, status)
    ensures !wanted ==> steps == [] && status.Done? && b == a && wb == wa
    ensures wanted ==> |steps| == 1 && steps[0].v == v && status == steps[0].status
  {
    if wanted {
      assert Wanted(wanted, v)[1..] == [];
    }
  }

  /** A run that went through followed by a run from where it ended is a run of both orders. */
  lemma {:induction false} ChainedAppend(o1: seq<Variant>, s1: seq<Step>, o2: seq<Variant>, s2: seq<Step>,
                                         a: Option<seq<FileSet>>, wa: seq<Warning>, b: Option<seq<FileSet>>, wb: seq<Warning>,
                                         c: Option<seq<FileSet>>, wc: seq<Warning>, status: Status<Failure>)
    requires Chained(o1, s1, a, wa, b, wb, Done) && Chained(o2, s2, b, wb, c, wc, status)
    ensures Chained(o1 + o2, s1 + s2, a, wa, c, wc, status)
    decreases |o1|
  {
    if o1 != [] {
      ChainedAppend(o1[1..], s1[1..], o2, s2, s1[0].sets, s1[0].warnings, b, wb, c, wc, status);
      assert (o1 + o2)[0] == o1[0] && (o1 + o2)[1..] == o1[1..] + o2;
      assert (s1 + s2)[0] == s1[0] && (s1 + s2)[1..] == s1[1..] + s2;
    } else {
      assert o1 + o2 == o2 && s1 + s2 == s2;
    }
  }

  /** A run that failed is also the run of a longer order: nothing after the failure is tried. */
  lemma {:induction false} ChainedStops(o1: seq<Variant>, s1: seq<Step>, o2: seq<Variant>,
                                        a: Option<seq<FileSet>>, wa: seq<Warning>, b: Option<seq<FileSet>>, wb: seq<Warning>,
                                        status: Status<Failure>)
    requires Chained(o1, s1, a, wa, b, wb, status) && status.Failed?
    ensures Chained(o1 + o2, s1, a, wa, b, wb, status)
    decreases |o1|
  {
    assert (o1 + o2)[0] == o1[0] && (o1 + o2)[1..] == o1[1..] + o2;
    if s1[0].status.Done? {
      ChainedStops(o1[1..], s1[1..], o2, s1[0].sets, s1[0].warnings, b, wb, status);
    }
  }

  /**
   * A run ends well exactly when every capsule of its order was built. The
   * capsules tried are the first ones of the order, every one but the last
   * was built, and a failing run ends with the error of the last one.
   */
  lemma {:induction false} ChainedOutcome(order: seq<Variant>, steps: seq<Step>, sets0: Option<seq<FileSet>>, w0: seq<Warning>,
                                          sets1: Option<seq<FileSet>>, w1: seq<Warning>, status: Status<Failure>)
    requires Chained(order, steps, sets0, w0, sets1, w1, status)
    ensures |steps| <= |order| && (order != [] <==> steps != [])
    ensures forall i :: 0 <= i < |steps| ==> steps[i].v == order[i]
    ensures forall i :: 0 <= i < |steps| - 1 ==> steps[i].status.Done?
    ensures status.Done? <==> |steps| == |order| && forall i :: 0 <= i < |steps| ==> steps[i].status.Done?
    ensures status.Failed? ==> steps != [] && status == steps[|steps| - 1].status
    decreases |order|
  {
    if order != [] && steps[0].status.Done? {
      ChainedOutcome(order[1..], steps[1..], steps[0].sets, steps[0].warnings, sets1, w1, status);
      assert forall i :: 0 < i < |steps| ==> steps[i] == steps[1..][i - 1];
    }
  }

  /** The variants a plan builds before v, in the order execute builds them: empty, thin, fat. */
  function PlannedBefore(plan: Plan, v: Variant): (r: set<Variant>)
    ensures v !in r
  {
    match v
    case Empty => {}
    case Thin => if plan.empty then {Empty} else {}
    case Fat => (if plan.empty then {Empty} else {}) + (if plan.thin then {Thin} else {})
  }

  /** The variant `v` when it is wanted, else nothing. */
  function Wanted(wanted: bool, v: Variant): seq<Variant> {
    if wanted then [v] else []
  }

  /** The variants a plan builds, in the order execute builds them: empty, thin, fat. */
  function PlanOrder(plan: Plan): seq<Variant> {
    Wanted(plan.empty, Empty) + (Wanted(plan.thin, Thin) + Wanted(plan.fat, Fat))
  }

  /** The variants a plan builds. */
  function Planned(plan: Plan): set<Variant> {
    (if plan.empty then {Empty} else {}) + (if plan.thin then {Thin} else {}) + (if plan.fat then {Fat} else {})
  }

  /** The order lists every variant the plan includes, and only those, each once. */
  lemma PlanOrderLists(plan: Plan)
    ensures forall v :: (v in PlanOrder(plan) <==> v in Planned(plan)) && (v in Planned(plan) <==> plan.Includes(v))
    ensures forall i, j :: 0 <= i < j < |PlanOrder(plan)| ==> PlanOrder(plan)[i] != PlanOrder(plan)[j]
  {
  }

  class CapsuleMojo {
    const settings: Settings
    const env: Environment

    var appClass: Option<string>
    var capsuleVersion: Option<string>
    var output: string
    var caplets: Option<string>
    var fileSets: Option<seq<FileSet>>
    var execConfig: Option<ExecConfig>
    var capletFiles: map<string, ClassFile>
    var resolvedCapsule: Option<seq<JarItem>>
    /** How many times the capsule artifact was looked up. */
    ghost var resolutions: nat
    var warnings: seq<Warning>
    var written: map<string, Output>

    /** The state before the goal runs. */
    ghost predicate Pristine()
      reads this
    {
      && appClass == settings.appClass && capsuleVersion == settings.capsuleVersion
      && output == settings.output && caplets == settings.caplets && fileSets == settings.fileSets
      && execConfig.None? && capletFiles == map[] && resolvedCapsule.None? && resolutions == 0
      && warnings == [] && written == map[]
    }

    /** The fields the steps of a capsule read. */
    function Current(): Inputs
      reads this`capsuleVersion, this`caplets, this`capletFiles
    {
      Inputs(capsuleVersion, caplets, capletFiles)
    }

    /** The capsule artifact of a version, when the repository system has it. */
    function CapsuleJarFor(version: Option<string>): Option<seq<JarItem>> {
      if version.Some? && CapsuleCoords(version.value) in env.capsules
      then Some(env.capsules[CapsuleCoords(version.value)])
      else None
    }

    /** The capsule artifact of the chosen version. */
    function CapsuleJar(): Option<seq<JarItem>>
      reads this`capsuleVersion
    {
      CapsuleJarFor(capsuleVersion)
    }

    /** What getCapsuleClass yields for a version: the first Capsule.class of its artifact. */
    function CapsuleClassFor(version: Option<string>): Outcome<seq<byte>> {
      if CapsuleJarFor(version).None? then Err(CapsuleNotFound)
      else match FirstNamed(CapsuleJarFor(version).value, CapsuleClassName)
        case None => Err(NoCapsuleClass)
        case Some(bytes) => Ok(bytes)
    }

    /** What getCapsuleClass yields for the chosen version. */
    function CapsuleClassOf(): Outcome<seq<byte>>
      reads this`capsuleVersion
    {
      CapsuleClassFor(capsuleVersion)
    }

    /** The capsule artifact is looked up at most once, and what is remembered is the artifact of the chosen version. */
    ghost predicate Memo()
      reads this`resolutions, this`resolvedCapsule, this`capsuleVersion
    {
      && resolutions <= 1 && (resolvedCapsule.None? ==> resolutions == 0)
      && (resolvedCapsule.Some? ==> resolvedCapsule == CapsuleJar())
    }

    constructor (settings: Settings, env: Environment)
      ensures this.settings == settings && this.env == env
      ensures Pristine()
    {
      this.settings := settings;
      this.env := env;
      appClass := settings.appClass;
      capsuleVersion := settings.capsuleVersion;
      output := settings.output;
      caplets := settings.caplets;
      fileSets := settings.fileSets;
      execConfig := None;
      capletFiles := map[];
      resolvedCapsule := None;
      resolutions := 0;
      warnings := [];
      written := map[];
    }

    function ClassesDir(): string {
      Child(settings.buildDir, "classes")
    }

    /** Whether the caplets parameter names caplets to check: set and not empty. */
    predicate HasCaplets() {
      settings.caplets.Some? && settings.caplets.value != ""
    }

    /**
     * The caplet check has run: once an application class is known, the
     * caplets attribute keeps the fragments found among the compiled classes
     * and the caplet files are exactly those fragments; otherwise the
     * parameter is untouched.
     */
    ghost predicate CapletsChecked()
      reads this`appClass, this`caplets, this`capletFiles
    {
      if appClass.Some? && HasCaplets() then
        var fragments := JavaSplit(settings.caplets.value, ' ');
        var classes := env.classes.GetOr([]);
        && caplets == Some(CapletString(KeptCaplets(ClassesDir(), classes, fragments)))
        && (forall f :: f in capletFiles <==> f in fragments && FirstMatch(ClassesDir(), classes, f).Some?)
      else
        caplets == settings.caplets
    }

    /** The warnings of the caplet check: one per fragment that is not found. */
    function CapletCheckWarnings(): seq<Warning> {
      if HasCaplets() then CapletWarnings(MissingCaplets(ClassesDir(), env.classes.GetOr([]), JavaSplit(settings.caplets.value, ' '))) else []
    }

    /** The archive of a variant in the current output directory. */
    function JarPathOf(v: Variant): string
      reads this`output
    {
      JarPath(output, settings.finalName, settings.descriptors, v)
    }

    /** The additional attributes of the empty capsule. */
    function EmptyExtras(): seq<Attr> {
      [Attr("Application", ProjectCoords(env.project)), Attr("Repositories", RepoString(env.repositories))]
    }

    /** The additional attributes of the thin capsule. */
    function ThinExtras(): seq<Attr> {
      [Attr("Dependencies", DependencyString(env.project.dependencies)), Attr("Repositories", RepoString(env.repositories))]
    }

    /** The manifest of a variant, given the application class, the exec configuration and the caplet list. */
    function ManifestOf(app: string, exec: Option<ExecConfig>, capletList: Option<string>, v: Variant, extras: seq<Attr>): Manifest {
      var main := MainSection(LauncherClass, app, OutputName(settings.finalName, settings.descriptors, v),
                              SystemPropertiesString(settings.properties, exec), JvmArgs(exec),
                              extras, capletList.GetOr(""), settings.manifest);
      CapsuleManifestOf(main, settings.modes)
    }

    // ------------------------------------------------------------ writing entries

    /** The main attributes of a variant's manifest, written in the order addManifest writes them. */
    method BuildMainAttributes(extras: seq<Attr>, v: Variant) returns (main: Attributes)
      requires appClass.Some?
      ensures main == ManifestOf(appClass.value, execConfig, caplets, v, extras).main
    {
      var appName := OutputName(settings.finalName, settings.descriptors, v);
      var properties := GetSystemPropertiesString(settings.properties, execConfig);
      var arguments := GetJvmArgs(execConfig);
      main := PutPairs(NoAttributes, FixedPairs(LauncherClass, appClass.value, appName));
      main := PutPairs(main, OptionalPairs(properties, arguments));
      main := PutPairs(main, extras);
      PutCaplets(main, caplets.GetOr(""));
      if caplets.Some? && caplets.value != "" {
        main := Put(main, "Caplets", caplets.value);
      }
      main := PutPairs(main, settings.manifest);
      MainSectionInGroups(LauncherClass, appClass.value, appName, properties, arguments, extras, caplets.GetOr(""), settings.manifest);
    }

    /** The mode sections: an unnamed mode is reported and skipped, a mode that writes nothing gets no section. */
    method BuildModeSections() returns (sections: map<string, Attributes>)
      modifies this`warnings
      ensures sections == Sections(settings.modes)
      ensures warnings == old(warnings) + UnnamedWarnings(settings.modes)
    {
      var modes := settings.modes;
      sections := map[];
      var i := 0;
      while i < |modes|
        invariant 0 <= i <= |modes|
        invariant sections == Sections(modes[..i])
        invariant warnings == old(warnings) + UnnamedWarnings(modes[..i])
      {
        var m := modes[i];
        SectionsStep(modes, i);
        if m.name.None? {
          warnings := warnings + [UnnamedMode];
        } else {
          sections := AddModeSection(sections, m);
        }
        i := i + 1;
      }
      assert modes[..i] == modes;
    }

    /** addManifest: builds the manifest of a variant and writes it as the archive's manifest entry. */
    method AddManifest(jar: JarWriter, extras: seq<Attr>, v: Variant)
      requires jar.Valid() && appClass.Some?
      modifies jar, this`warnings
      ensures jar.Valid()
      ensures jar.entries == Added(old(jar.entries), Entry(ManifestName, ManifestData(ManifestOf(old(appClass).value, old(execConfig), old(caplets), v, extras))))
      ensures warnings == old(warnings) + UnnamedWarnings(settings.modes)
    {
      var main := BuildMainAttributes(extras, v);
      var sections := BuildModeSections();
      jar.AddToJar(ManifestName, ManifestData(Manifest(main, sections)));
    }

    /** The visitor of the classes directory: a copied file is added under its path. */
    method VisitClassFile(jar: JarWriter, c: ClassFile)
      requires jar.Valid()
      modifies jar
      ensures jar.Valid()
      ensures jar.entries == if IsCopiedClass(c) then Added(old(jar.entries), ClassEntry(c)) else old(jar.entries)
    {
      if IsCopiedClass(c) {
        jar.AddToJar(c.path, Data(c.bytes));
      }
    }

    /** addCompiledProjectClasses: every copied file of the classes directory, in walk order. */
    method AddCompiledProjectClasses(jar: JarWriter) returns (status: Status<Failure>)
      requires jar.Valid()
      modifies jar
      ensures jar.Valid()
      ensures status.Done? <==> env.classes.Some?
      ensures status.Failed? ==> status.error == FileNotFound(ClassesDir()) && jar.entries == old(jar.entries)
      ensures status.Done? ==> jar.entries == AddedAll(old(jar.entries), ProjectClassEntries(env.classes.value))
    {
      if env.classes.None? {
        return Failed(FileNotFound(ClassesDir()));
      }
      var classes := env.classes.value;
      ghost var start := jar.entries;
      var i := 0;
      while i < |classes|
        invariant 0 <= i <= |classes|
        invariant jar.Valid()
        invariant jar.entries == AddedAll(start, ProjectClassEntries(classes[..i]))
      {
        ProjectClassStep(start, classes, i);
        VisitClassFile(jar, classes[i]);
        i := i + 1;
      }
      assert classes[..i] == classes;
      return Done;
    }

    /**
     * The caplet step from `body`: nothing unless caplets are set; otherwise
     * the file of every found caplet is present and nothing else is added.
     */
    ghost predicate CapletsAdded(inp: Inputs, body: seq<Entry>, after: seq<Entry>) {
      && body <= after
      && (inp.caplets.None? || inp.caplets.value == "" ==> after == body)
      && (inp.caplets.Some? && inp.caplets.value != "" ==> forall k :: k in inp.capletFiles ==> inp.capletFiles[k].path in Names(after))
      && OnlyCapletEntries(after, |body|, inp.capletFiles)
    }

    /** The class file of one found caplet: every name already written stays, and only caplet files are added. */
    method AddCapletClass(jar: JarWriter, k: string, ghost start: seq<Entry>)
      requires jar.Valid() && k in capletFiles
      requires start <= jar.entries && OnlyCapletEntries(jar.entries, |start|, capletFiles)
      modifies jar
      ensures jar.Valid() && start <= jar.entries && OnlyCapletEntries(jar.entries, |start|, capletFiles)
      ensures capletFiles[k].path in Names(jar.entries)
      ensures forall n :: n in Names(old(jar.entries)) ==> n in Names(jar.entries)
    {
      var file := capletFiles[k];
      ghost var before := jar.entries;
      jar.AddToJar(file.path, Data(file.bytes));
      AddedUnique(before, ClassEntry(file));
      forall n | n in Names(before) ensures n in Names(jar.entries) {
        var i :| 0 <= i < |before| && Names(before)[i] == n;
        assert Names(jar.entries)[i] == n;
      }
    }

    /** addCapletClasses: the file of every found caplet, in the map's order, when caplets are set. */
    method AddCapletClasses(jar: JarWriter)
      requires jar.Valid()
      modifies jar
      ensures jar.Valid() && CapletsAdded(Current(), old(jar.entries), jar.entries)
    {
      if caplets.None? || caplets.value == "" {
        return;
      }
      ghost var start := jar.entries;
      var rest := capletFiles.Keys;
      while rest != {}
        invariant rest <= capletFiles.Keys
        invariant jar.Valid()
        invariant start <= jar.entries
        invariant forall k :: k in capletFiles && k !in rest ==> capletFiles[k].path in Names(jar.entries)
        invariant OnlyCapletEntries(jar.entries, |start|, capletFiles)
        decreases |rest|
      {
        var k :| k in rest;
        AddCapletClass(jar, k, start);
        rest := rest - {k};
      }
      assert start == old(jar.entries);
    }

    /** One include of a file set: the file is read from the directory and stored under the prefix. */
    method AddInclude(jar: JarWriter, dir: string, prefix: string, item: string) returns (status: Status<Failure>)
      requires jar.Valid()
      modifies jar
      ensures jar.Valid() && old(jar.entries) <= jar.entries
      ensures var path := Child(dir, item);
        && (status.Done? <==> path in env.disk.files)
        && (status.Failed? ==> status.error == FileNotFound(path) && jar.entries == old(jar.entries))
        && (status.Done? ==> jar.entries == Added(old(jar.entries), Entry(prefix + item, Data(env.disk.files[path]))))
    {
      var path := Child(dir, item);
      if path !in env.disk.files {
        return Failed(FileNotFound(path));
      }
      AddedUnique(jar.entries, Entry(prefix + item, Data(env.disk.files[path])));
      jar.AddToJar(prefix + item, Data(env.disk.files[path]));
      return Done;
    }

    /** The marker and includes of one existing file set. */
    method WriteFileSet(jar: JarWriter, dir: string, prefix: string, includes: Option<seq<string>>)
      returns (status: Status<Failure>)
      requires jar.Valid()
      modifies jar
      ensures jar.Valid()
      ensures old(jar.entries) <= jar.entries
      ensures var outcome := MarkAndInclude(old(jar.entries), dir, prefix, includes, env.disk.files);
        && (status.Done? <==> outcome.Ok?)
        && (status.Failed? ==> outcome == Err(status.error))
        && (status.Done? ==> jar.entries == outcome.value)
    {
      if prefix != "" {
        var ok := jar.PutDirectory(prefix);
        if !ok {
          return Failed(DuplicateEntry(prefix));
        }
      }
      if includes.None? {
        return Failed(NullIncludes);
      }
      status := AddIncludeAll(jar, dir, prefix, includes.value);
    }

    /** The include at index `j`, once those before it are in the archive. */
    method AddIncludeNext(jar: JarWriter, dir: string, prefix: string, files: seq<string>, j: int, ghost marked: seq<Entry>)
      returns (status: Status<Failure>)
      requires jar.Valid() && 0 <= j < |files|
      requires AddIncludes(marked, dir, prefix, files[..j], env.disk.files) == Ok(jar.entries)
      modifies jar
      ensures jar.Valid() && old(jar.entries) <= jar.entries
      ensures var outcome := AddIncludes(marked, dir, prefix, files[..j + 1], env.disk.files);
        && (status.Done? ==> outcome == Ok(jar.entries))
        && (status.Failed? ==> outcome == Err(status.error))
    {
      AddIncludesStep(marked, dir, prefix, files, env.disk.files, j);
      status := AddInclude(jar, dir, prefix, files[j]);
    }

    /** The includes of one file set in order; a missing file ends the build. */
    method AddIncludeAll(jar: JarWriter, dir: string, prefix: string, files: seq<string>) returns (status: Status<Failure>)
      requires jar.Valid()
      modifies jar
      ensures jar.Valid()
      ensures old(jar.entries) <= jar.entries
      ensures var outcome := AddIncludes(old(jar.entries), dir, prefix, files, env.disk.files);
        && (status.Done? <==> outcome.Ok?)
        && (status.Failed? ==> outcome == Err(status.error))
        && (status.Done? ==> jar.entries == outcome.value)
    {
      ghost var marked := jar.entries;
      var j := 0;
      while j < |files|
        invariant 0 <= j <= |files|
        invariant jar.Valid()
        invariant marked <= jar.entries
        invariant AddIncludes(marked, dir, prefix, files[..j], env.disk.files) == Ok(jar.entries)
      {
        status := AddIncludeNext(jar, dir, prefix, files, j, marked);
        if status.Failed? {
          AddIncludesStops(marked, dir, prefix, files, env.disk.files, j + 1);
          return;
        }
        j := j + 1;
      }
      assert files[..j] == files;
      return Done;
    }

    /** One file set: skipped without a directory, reported and skipped when it is not one, written otherwise. */
    method AddFileSet(jar: JarWriter, s: FileSet) returns (status: Status<Failure>)
      requires jar.Valid()
      modifies jar, this`warnings
      ensures jar.Valid() && old(jar.entries) <= jar.entries
      ensures warnings == old(warnings) + FileSetWarnings(s, env.disk)
      ensures var outcome := ApplyFileSet(old(jar.entries), s, env.disk);
        && (status.Done? <==> outcome.Ok?)
        && (status.Failed? ==> outcome == Err(status.error))
        && (status.Done? ==> jar.entries == outcome.value)
    {
      if s.directory.Some? && s.directory.value != "" {
        if s.directory.value !in env.disk.directories {
          warnings := warnings + [NotADirectory(s.directory.value)];
        } else {
          status := WriteFileSet(jar, s.directory.value, OutputPrefix(s.outputDirectory), s.includes);
          return;
        }
      }
      return Done;
    }

    /**
     * addFileSets: each file set in order; a missing directory is reported
     * and skipped, the output directory of every other set is rewritten in
     * place, and the first error ends the build.
     */
    method AddFileSets(jar: JarWriter) returns (status: Status<Failure>)
      requires jar.Valid()
      modifies jar, this`fileSets, this`warnings
      ensures jar.Valid()
      ensures old(jar.entries) <= jar.entries
      ensures FileSetsApplied(env.disk, old(jar.entries), old(fileSets), status, jar.entries, fileSets, old(warnings), warnings)
    {
      if fileSets.None? {
        return Done;
      }
      var sets := fileSets.value;
      ghost var start := jar.entries;
      assert sets[..0] == [] && sets[0..] == sets;
      assert ApplyFileSets(start, sets[..0], env.disk).sets + sets[0..] == sets;
      var i := 0;
      while i < |sets|
        invariant FileSetsProgress(jar, start, sets, i, old(warnings))
      {
        status := NextFileSet(jar, start, sets, i, old(warnings));
        if status.Failed? {
          return;
        }
        i := i + 1;
      }
      assert sets[..i] == sets && sets[i..] == [];
      assert ApplyFileSets(start, sets, env.disk).sets + [] == ApplyFileSets(start, sets, env.disk).sets;
      return Done;
    }

    /**
     * Where addFileSets stands after the first `i` of `sets`: the archive and
     * the warnings are those of running them from `start`, and the field holds
     * the processed sets settled followed by the rest untouched.
     */
    ghost predicate FileSetsProgress(jar: JarWriter, start: seq<Entry>, sets: seq<FileSet>, i: nat, before: seq<Warning>)
      reads this`fileSets, this`warnings, jar
    {
      && i <= |sets|
      && jar.Valid()
      && start <= jar.entries
      && ApplyFileSets(start, sets[..i], env.disk).outcome == Ok(jar.entries)
      && fileSets == Some(ApplyFileSets(start, sets[..i], env.disk).sets + sets[i..])
      && warnings == before + ApplyFileSets(start, sets[..i], env.disk).warnings
    }

    /** One turn of the addFileSets loop: rewrite the i-th set in place, then add it. */
    method NextFileSet(jar: JarWriter, ghost start: seq<Entry>, sets: seq<FileSet>, i: nat, ghost before: seq<Warning>)
      returns (status: Status<Failure>)
      requires i < |sets| && FileSetsProgress(jar, start, sets, i, before)
      modifies jar, this`fileSets, this`warnings
      ensures status.Done? ==> FileSetsProgress(jar, start, sets, i + 1, before)
      ensures status.Failed? ==>
        var run := ApplyFileSets(start, sets, env.disk);
        && jar.Valid() && start <= jar.entries
        && run.outcome == Err(status.error)
        && fileSets == Some(run.sets)
        && warnings == before + run.warnings
    {
      var s := sets[i];
      ApplyFileSetsStep(start, sets, env.disk, i, fileSets.value);
      if Active(s, env.disk) {
        fileSets := Some(fileSets.value[i := s.(outputDirectory := Some(OutputPrefix(s.outputDirectory)))]);
      } else {
        assert fileSets.value[i := s] == fileSets.value;
      }
      status := AddFileSet(jar, s);
      if status.Failed? {
        ApplyFileSetsStops(start, sets, env.disk, i + 1);
      }
    }

    // ------------------------------------------------------------ the capsule artifact

    /** resolveCapsule: the capsule artifact, looked up once and then remembered. */
    method ResolveCapsule() returns (r: Outcome<seq<JarItem>>)
      requires capsuleVersion.Some? && Memo()
      modifies this`resolvedCapsule, this`resolutions
      ensures r == if CapsuleJar().Some? then Ok(CapsuleJar().value) else Err(CapsuleNotFound)
      ensures resolvedCapsule == CapsuleJar()
      ensures old(resolvedCapsule).Some? ==> unchanged(this)
      ensures old(resolvedCapsule).None? ==> resolutions == old(resolutions) + 1
      ensures resolutions <= 1 && (r.Ok? ==> Memo())
    {
      if resolvedCapsule.None? {
        var coords := CapsuleCoords(capsuleVersion.value);
        resolutions := resolutions + 1;
        if coords !in env.capsules {
          return Err(CapsuleNotFound);
        }
        resolvedCapsule := Some(env.capsules[coords]);
      }
      return Ok(resolvedCapsule.value);
    }

    /** getCapsuleClass: the bytes of Capsule.class in the capsule artifact; a missing one ends the build. */
    method GetCapsuleClass() returns (r: Outcome<seq<byte>>)
      requires capsuleVersion.Some? && Memo()
      modifies this`resolvedCapsule, this`resolutions
      ensures r == CapsuleClassOf()
      ensures resolvedCapsule == CapsuleJar()
      ensures resolutions <= 1 && (CapsuleJar().Some? ==> Memo())
    {
      var jar := ResolveCapsule();
      if jar.Err? {
        return Err(jar.error);
      }
      var found := FindCapsuleClass(jar.value);
      if found.None? {
        return Err(NoCapsuleClass);
      }
      return Ok(found.value);
    }

    /** getAllCapsuleClasses: the capsule classes of the capsule artifact, by name. */
    method GetAllCapsuleClasses() returns (r: Outcome<map<string, seq<byte>>>)
      requires capsuleVersion.Some? && Memo()
      modifies this`resolvedCapsule, this`resolutions
      ensures r == if CapsuleJar().Some? then Ok(CapsuleClasses(CapsuleJar().value)) else Err(CapsuleNotFound)
      ensures resolvedCapsule == CapsuleJar()
      ensures resolutions <= 1 && (CapsuleJar().Some? ==> Memo())
    {
      var jar := ResolveCapsule();
      if jar.Err? {
        return Err(jar.error);
      }
      var classes := CollectCapsuleClasses(jar.value);
      return Ok(classes);
    }

    // ------------------------------------------------------------ executable copies

    /** Whether the plain copy is wanted: chmod, or the older buildExec, is on. */
    predicate PlainCopy() {
      IsOn(settings.chmod) || IsOn(settings.buildExec)
    }

    /** Whether the trampoline copy is wanted. */
    predicate TrampolineCopy() {
      IsOn(settings.trampoline)
    }

    /** The copies createExecCopy writes next to the archive at `path`. */
    function CopyPaths(path: string): set<string> {
      (if PlainCopy() then {ExecCopyPathAsWritten(path, ".x")} else {})
        + (if TrampolineCopy() then {ExecCopyPathAsWritten(path, ".tx")} else {})
    }

    /**
     * Whether the copy at `copy` can be opened for writing: its directory is
     * the output directory, which execute creates, or exists on disk (a
     * path without a directory is opened in the working directory).
     */
    predicate CopyDirExists(copy: string)
      reads this`output
    {
      CopyDirExistsIn(output, copy)
    }

    /** `CopyDirExists` for the output directory `out`. */
    predicate CopyDirExistsIn(out: string, copy: string) {
      DirExistsIn(out, Parent(copy))
    }

    /**
     * Whether a file can be created in the directory `dir` once execute has
     * made the output directory `out`: the working directory, `out` unless a
     * regular file of that name kept mkdirs from running, or a directory on
     * disk.
     */
    predicate DirExistsIn(out: string, dir: string) {
      dir == "" || (dir == out && out !in env.disk.files) || dir in env.disk.directories
    }

    /** Whether openJar can create the archive of variant v in the output directory `out`. */
    predicate OpensIn(out: string, v: Variant) {
      DirExistsIn(out, JarDir(out, settings.finalName, settings.descriptors, v))
    }

    /** Whether openJar can create the archive of variant v. */
    predicate Opens(v: Variant)
      reads this`output
    {
      OpensIn(output, v)
    }

    /**
     * With a name without '/', the archive lies directly in the output
     * directory, and it can be created exactly when that directory is the
     * working directory, is not a regular file, or exists as a directory.
     */
    lemma OpensFlatName(v: Variant)
      requires '/' !in OutputName(settings.finalName, settings.descriptors, v)
      ensures Parent(JarPathOf(v)) == output
      ensures Opens(v) <==> output == "" || output !in env.disk.files || output in env.disk.directories
    {
      JarDirIsParent(output, settings.finalName, settings.descriptors, v);
    }

    /**
     * How createExecCopy on the archive at `path` ends: opening a wanted copy
     * whose directory does not exist throws FileNotFoundException, and after
     * the plain copy failed the trampoline copy is not attempted.
     */
    function CopyStatus(path: string): Status<Failure>
      reads this`output
    {
      CopyStatusIn(output, path)
    }

    /** `CopyStatus` for the output directory `out`. */
    function CopyStatusIn(out: string, path: string): Status<Failure> {
      var plain := ExecCopyPathAsWritten(path, ".x");
      var tramp := ExecCopyPathAsWritten(path, ".tx");
      if PlainCopy() && !CopyDirExistsIn(out, plain) then Failed(FileNotFound(plain))
      else if TrampolineCopy() && !CopyDirExistsIn(out, tramp) then Failed(FileNotFound(tramp))
      else Done
    }

    /**
     * The files after createExecCopy on the archive at `path`: each wanted
     * copy that can be opened, up to the first that cannot, is the shell
     * prefix followed by the archive.
     */
    function WithExecCopies(w: map<string, Output>, path: string): map<string, Output>
      requires path in w && w[path].JarFile?
      reads this`output
    {
      var entries := w[path].entries;
      var plain := ExecCopyPathAsWritten(path, ".x");
      var tramp := ExecCopyPathAsWritten(path, ".tx");
      var w1 := if PlainCopy() && CopyDirExists(plain) then w[plain := ExecutableCopy(Ascii(ExecPrefix), entries)] else w;
      if TrampolineCopy() && CopyDirExists(tramp) && !(PlainCopy() && !CopyDirExists(plain))
      then w1[tramp := ExecutableCopy(Ascii(TrampolinePrefix), entries)] else w1
    }

    /**
     * The copies keep the archive and every other file and add only wanted
     * copies, each the shell prefix followed by the archive; when
     * createExecCopy succeeds every wanted copy is there, and when it fails
     * the copy it could not open was not written.
     */
    lemma ExecCopiesWritten(w: map<string, Output>, path: string)
      requires path in w && w[path].JarFile? && EndsWith(path, ".jar")
      ensures var r := WithExecCopies(w, path);
        var entries := w[path].entries;
        var plain := ExecCopyPathAsWritten(path, ".x");
        var tramp := ExecCopyPathAsWritten(path, ".tx");
        && path !in CopyPaths(path) && r[path] == w[path]
        && w.Keys <= r.Keys <= w.Keys + CopyPaths(path)
        && (CopyStatus(path).Done? ==> r.Keys == w.Keys + CopyPaths(path))
        && (PlainCopy() && CopyDirExists(plain) ==> r[plain] == ExecutableCopy(Ascii(ExecPrefix), entries))
        && (TrampolineCopy() && CopyStatus(path).Done? ==> r[tramp] == ExecutableCopy(Ascii(TrampolinePrefix), entries))
        && (CopyStatus(path).Failed? ==>
              var bad := CopyStatus(path).error.path;
              bad in CopyPaths(path) && (bad in r <==> bad in w) && (bad in w ==> r[bad] == w[bad]))
        && forall p :: p in w && p !in CopyPaths(path) ==> r[p] == w[p]
    {
      ExecCopiesDistinct(path);
    }

    /** The copies keep every file that was there. */
    lemma ExecCopiesKeep(w: map<string, Output>, path: string)
      requires path in w && w[path].JarFile? && EndsWith(path, ".jar")
      ensures var r := WithExecCopies(w, path);
        && path in r && r[path] == w[path]
        && forall p :: p in w ==> p in r && (p !in CopyPaths(path) ==> r[p] == w[p])
    {
      ExecCopiesDistinct(path);
    }

    /**
     * With the output directory `dir.jar`, the plain copy of a capsule whose
     * name has no dot lands in `dir.x`, outside the output directory: once
     * the archive is stored, the copy fails unless `dir.x` exists.
     */
    lemma CopyLeavesOutput(dir: string, v: Variant)
      requires output == dir + ".jar" && '.' !in dir && PlainCopy()
      requires var name := OutputName(settings.finalName, settings.descriptors, v); '.' !in name && '/' !in name
      ensures var copy := ExecCopyPathAsWritten(JarPathOf(v), ".x");
        && Parent(copy) == dir + ".x"
        && (CopyDirExists(copy) <==> dir + ".x" in env.disk.directories)
        && (dir + ".x" !in env.disk.directories ==> CopyStatus(JarPathOf(v)) == Failed(FileNotFound(copy)))
    {
      var name := OutputName(settings.finalName, settings.descriptors, v);
      assert JarPathOf(v) == dir + ".jar/" + name + ".jar";
      ExecCopyDirectory(dir, name, ".x");
      assert |dir + ".x"| != |output|;
    }

    /**
     * createExecCopyProcess: the copy, at the path with ".jar" replaced, is
     * the shell prefix followed by the archive; when its directory does not
     * exist, opening it fails and nothing is written.
     */
    method CreateExecCopyProcess(jarPath: string, prefix: string, extension: string) returns (status: Status<Failure>)
      requires jarPath in written && written[jarPath].JarFile?
      modifies this`written
      ensures var copy := ExecCopyPathAsWritten(jarPath, extension);
        && (status.Done? <==> CopyDirExists(copy))
        && (status.Failed? ==> status.error == FileNotFound(copy) && written == old(written))
        && (status.Done? ==> written == old(written)[copy := ExecutableCopy(Ascii(prefix), old(written)[jarPath].entries)])
    {
      var copy := ReplaceAll(jarPath, ".jar", extension);
      if !CopyDirExists(copy) {
        return Failed(FileNotFound(copy));
      }
      written := written[copy := ExecutableCopy(Ascii(prefix), written[jarPath].entries)];
      return Done;
    }

    /**
     * createExecCopy: the plain copy when chmod (or the older buildExec) is
     * on, then the trampoline copy when trampoline is on; the first copy that
     * cannot be opened ends it.
     */
    method CreateExecCopy(jarPath: string) returns (status: Status<Failure>)
      requires jarPath in written && written[jarPath].JarFile? && EndsWith(jarPath, ".jar")
      modifies this`written
      ensures status == CopyStatus(jarPath)
      ensures written == WithExecCopies(old(written), jarPath)
    {
      ExecCopiesDistinct(jarPath);
      status := Done;
      if IsOn(settings.chmod) || IsOn(settings.buildExec) {
        status := CreateExecCopyProcess(jarPath, ExecPrefix, ".x");
        if status.Failed? {
          return;
        }
      }
      if IsOn(settings.trampoline) {
        status := CreateExecCopyProcess(jarPath, TrampolinePrefix, ".tx");
      }
    }

    // ------------------------------------------------------------ the three capsules

    /** The additional attributes of a variant's manifest. */
    function ExtrasOf(v: Variant): seq<Attr> {
      match v
      case Empty => EmptyExtras()
      case Thin => ThinExtras()
      case Fat => []
    }

    /** The manifest entry of variant v, from the application class, the exec configuration and the caplet list found. */
    function ManifestEntry(v: Variant): Entry
      reads this`appClass, this`execConfig, this`caplets
      requires appClass.Some?
    {
      ManifestEntryOf(appClass.value, execConfig, caplets, v)
    }

    /** The manifest entry of variant v for a given application class, exec configuration and caplet list. */
    function ManifestEntryOf(app: string, exec: Option<ExecConfig>, capletList: Option<string>, v: Variant): Entry {
      Entry(ManifestName, ManifestData(ManifestOf(app, exec, capletList, v, ExtrasOf(v))))
    }

    /** The archive of variant v was written, with `head` as its first entry and no name twice. */
    ghost predicate Wrote(v: Variant, head: Entry)
      reads this`written, this`output
    {
      && JarPathOf(v) in written && written[JarPathOf(v)].JarFile?
      && var entries := written[JarPathOf(v)].entries;
         |entries| > 0 && entries[0] == head && UniqueNames(entries)
    }

    /**
     * The archive of variant v, which is not empty and names nothing twice,
     * was stored over the files `before`, followed by the copies that could
     * be opened.
     */
    ghost predicate Stored(v: Variant, archive: seq<Entry>, before: map<string, Output>)
      reads this`written, this`output
    {
      && |archive| > 0 && UniqueNames(archive)
      && written == WithExecCopies(before[JarPathOf(v) := JarFile(archive)], JarPathOf(v))
    }

    /** The files closing the capsule of variant v writes: the archive and its wanted copies. */
    function OutputsOf(v: Variant): set<string>
      reads this`output
    {
      {JarPathOf(v)} + CopyPaths(JarPathOf(v))
    }

    /**
     * A stored capsule is there with its first entry, the files are those
     * before plus some of the capsule's own (all of them when its copies
     * succeeded), and every other file is unchanged.
     */
    lemma StoredWrites(v: Variant, archive: seq<Entry>, before: map<string, Output>)
      requires Stored(v, archive, before)
      ensures Wrote(v, archive[0])
      ensures written[JarPathOf(v)] == JarFile(archive)
      ensures before.Keys + {JarPathOf(v)} <= written.Keys <= before.Keys + OutputsOf(v)
      ensures CopyStatus(JarPathOf(v)).Done? ==> written.Keys == before.Keys + OutputsOf(v)
      ensures forall p :: p in before && p !in OutputsOf(v) ==> p in written && written[p] == before[p]
    {
      ExecCopiesWritten(before[JarPathOf(v) := JarFile(archive)], JarPathOf(v));
    }

    /** With distinct suffixes, the files of one capsule never replace the archive of another. */
    lemma SeparateOutputs(u: Variant, v: Variant)
      requires settings.descriptors.Distinct() && u != v
      ensures JarPathOf(u) !in OutputsOf(v)
    {
      DistinctSuffixesDistinctJars(output, settings.finalName, settings.descriptors, u, v);
      var p := JarPathOf(u);
      var q := JarPathOf(v);
      ExecCopiesDistinct(q);
      assert p[|p| - 1] == 'r';
      var plain := ExecCopyPathAsWritten(q, ".x");
      var tramp := ExecCopyPathAsWritten(q, ".tx");
      assert plain[|plain| - 1] == 'x' && tramp[|tramp| - 1] == 'x';
    }

    /** Closes a capsule: the archive is stored at its path, followed by its executable copies, which may fail. */
    method Finish(v: Variant, jar: JarWriter) returns (status: Status<Failure>)
      requires jar.Valid() && |jar.entries| > 0
      modifies this`written
      ensures Stored(v, jar.entries, old(written))
      ensures status == CopyStatus(JarPathOf(v))
    {
      var path := JarPathOf(v);
      written := written[path := JarFile(jar.entries)];
      status := CreateExecCopy(path);
    }

    /** The loop of buildEmpty and buildThin that copies every capsule class into the archive. */
    method AddCapsuleClasses(jar: JarWriter) returns (status: Status<Failure>)
      requires jar.Valid() && capsuleVersion.Some? && Memo()
      modifies jar, this`resolvedCapsule, this`resolutions
      ensures jar.Valid() && resolutions <= 1 && (CapsuleJar().Some? ==> Memo())
      ensures CapsuleJar().None? ==> status == Failed(CapsuleNotFound)
      ensures CapsuleJar().Some? ==> status.Done? && AllAdded(old(jar.entries), jar.entries, CapsuleClasses(CapsuleJar().value))
    {
      var all := GetAllCapsuleClasses();
      if all.Err? {
        return Failed(all.error);
      }
      jar.AddAll(all.value);
      return Done;
    }

    /** The last steps of every capsule: the caplet classes, then the file sets. */
    method AddCapletsAndFileSets(jar: JarWriter) returns (status: Status<Failure>, ghost beforeSets: seq<Entry>)
      requires jar.Valid()
      modifies jar, this`fileSets, this`warnings
      ensures jar.Valid() && CapletsAdded(Current(), old(jar.entries), beforeSets) && beforeSets <= jar.entries
      ensures FileSetsApplied(env.disk, beforeSets, old(fileSets), status, jar.entries, fileSets, old(warnings), warnings)
    {
      AddCapletClasses(jar);
      beforeSets := jar.entries;
      status := AddFileSets(jar);
    }

    /** What buildFat writes between the manifest and the caplets, from `start`: the main jar, the dependencies and Capsule.class. */
    function FatBody(inp: Inputs, start: seq<Entry>): Outcome<seq<Entry>> {
      match MainJarEntries(start)
      case Err(e) => Err(e)
      case Ok(withMain) => FatDependencies(inp, withMain)
    }

    /** What buildFat writes after the main jar, from `withMain`: the dependency jars and Capsule.class. */
    function FatDependencies(inp: Inputs, withMain: seq<Entry>): Outcome<seq<Entry>> {
      match DependencyJars(withMain, env.artifacts, env.disk).outcome
      case Err(e) => Err(e)
      case Ok(withDependencies) =>
        match CapsuleClassFor(inp.version)
        case Err(e) => Err(e)
        case Ok(bytes) => Ok(Added(withDependencies, Entry(CapsuleClassName, Data(bytes))))
    }

    /** The warnings of that part: a missing main jar, then the artifacts without a file. */
    function FatWarnings(start: seq<Entry>): seq<Warning> {
      MainJarWarnings() + match MainJarEntries(start)
        case Err(_) => []
        case Ok(withMain) => DependencyJars(withMain, env.artifacts, env.disk).warnings
    }

    /** Why the part of variant v between the manifest and the caplets fails, if it does. */
    function BodyFailure(inp: Inputs, v: Variant, start: seq<Entry>): Option<Failure> {
      match v
      case Empty => if CapsuleJarFor(inp.version).None? then Some(CapsuleNotFound) else None
      case Thin =>
        if env.classes.None? then Some(FileNotFound(ClassesDir()))
        else if CapsuleJarFor(inp.version).None? then Some(CapsuleNotFound)
        else None
      case Fat => if FatBody(inp, start).Err? then Some(FatBody(inp, start).error) else None
    }

    /** The warnings of that part. */
    function BodyWarnings(v: Variant, start: seq<Entry>): seq<Warning> {
      if v == Fat then FatWarnings(start) else []
    }

    /**
     * What that part writes when it does not fail: the capsule classes (after
     * the compiled classes for the thin capsule), or the fat capsule's main
     * jar, dependencies and Capsule.class.
     */
    ghost predicate BodyWritten(inp: Inputs, v: Variant, start: seq<Entry>, body: seq<Entry>) {
      var capsule := CapsuleJarFor(inp.version);
      match v
      case Empty => capsule.Some? && AllAdded(start, body, CapsuleClasses(capsule.value))
      case Thin =>
        && env.classes.Some? && capsule.Some?
        && AllAdded(AddedAll(start, ProjectClassEntries(env.classes.value)), body, CapsuleClasses(capsule.value))
      case Fat => FatBody(inp, start).Ok? && body == FatBody(inp, start).value
    }

    /**
     * What writing variant v after `start` did: either its body failed, and
     * that is the build's error, or the body `body` was written, then the
     * caplets up to `beforeSets`, then the file sets up to `after`.
     */
    ghost predicate Filled(inp: Inputs, v: Variant, start: seq<Entry>, status: Status<Failure>, body: seq<Entry>, beforeSets: seq<Entry>,
                           after: seq<Entry>, sets0: Option<seq<FileSet>>, sets1: Option<seq<FileSet>>, w0: seq<Warning>, w1: seq<Warning>)
    {
      match BodyFailure(inp, v, start)
      case Some(e) => status == Failed(e) && w1 == w0 + BodyWarnings(v, start)
      case None =>
        && BodyWritten(inp, v, start, body)
        && CapletsAdded(inp, body, beforeSets)
        && FileSetsApplied(env.disk, beforeSets, sets0, status, after, sets1, w0 + BodyWarnings(v, start), w1)
    }

    /** The additional manifest attributes a variant's build method puts together: the list strings are computed by their loops. */
    method ExtraAttributes(v: Variant) returns (extras: seq<Attr>)
      ensures extras == ExtrasOf(v)
    {
      match v {
        case Empty =>
          var repositories := GetRepoString(env.repositories);
          extras := [Attr("Application", ProjectCoords(env.project)), Attr("Repositories", repositories)];
        case Thin =>
          var dependencies := GetDependencyString(env.project.dependencies);
          var repositories := GetRepoString(env.repositories);
          extras := [Attr("Dependencies", dependencies), Attr("Repositories", repositories)];
        case Fat =>
          extras := [];
      }
    }

    /**
     * openJar: creating the archive of a variant at its path, which fails
     * when the archive's directory does not exist.
     */
    method OpenJar(v: Variant) returns (status: Status<Failure>)
      ensures status.Done? <==> Opens(v)
      ensures status.Failed? ==> status.error == FileNotFound(JarPathOf(v))
    {
      var path := Child(output, OutputName(settings.finalName, settings.descriptors, v) + ".jar");
      assert path == JarPathOf(v);
      JarDirIsParent(output, settings.finalName, settings.descriptors, v);
      if DirExistsIn(output, Parent(path)) {
        status := Done;
      } else {
        status := Failed(FileNotFound(path));
      }
    }

    /** addManifest on a newly opened archive: its only entry is the variant's manifest, with its additional attributes. */
    method OpenCapsule(v: Variant) returns (jar: JarWriter)
      requires appClass.Some?
      modifies this`warnings
      ensures fresh(jar) && jar.Valid()
      ensures jar.entries == [ManifestEntryOf(appClass.value, execConfig, caplets, v)]
      ensures warnings == old(warnings) + UnnamedWarnings(settings.modes)
    {
      var extras := ExtraAttributes(v);
      jar := new JarWriter();
      AddManifest(jar, extras, v);
    }

    /** What buildEmpty writes after the manifest: every capsule class, the caplets and the file sets. */
    method FillEmpty(jar: JarWriter) returns (status: Status<Failure>, ghost body: seq<Entry>, ghost beforeSets: seq<Entry>)
      requires jar.Valid() && capsuleVersion.Some? && Memo()
      modifies jar, this`warnings, this`fileSets, this`resolvedCapsule, this`resolutions
      ensures jar.Valid() && resolutions <= 1 && (CapsuleJar().Some? ==> Memo())
      ensures Filled(Current(), Empty, old(jar.entries), status, body, beforeSets, jar.entries, old(fileSets), fileSets, old(warnings), warnings)
      ensures status.Done? ==> old(jar.entries) <= jar.entries
    {
      body, beforeSets := jar.entries, jar.entries;
      status := AddCapsuleClasses(jar);
      if status.Failed? {
        assert warnings == old(warnings) + [];
        return;
      }
      body := jar.entries;
      status, beforeSets := AddCapletsAndFileSets(jar);
      assert old(warnings) + [] == old(warnings);
    }

    /**
     * buildEmpty: the manifest with the project's coordinates and the
     * repositories, every capsule class, the caplets and the file sets; the
     * archive is stored, then copied, only when every step succeeds.
     */
    method BuildEmpty()
      returns (status: Status<Failure>, ghost fill: Status<Failure>, ghost start: seq<Entry>, ghost archive: seq<Entry>, ghost body: seq<Entry>, ghost beforeSets: seq<Entry>)
      requires appClass.Some? && capsuleVersion.Some? && Memo()
      modifies this`warnings, this`fileSets, this`resolvedCapsule, this`resolutions, this`written
      ensures resolutions <= 1 && (CapsuleJar().Some? ==> Memo())
      ensures Tried(Empty, status, fill, start, body, beforeSets, archive, old(fileSets), old(warnings), old(written))
    {
      var created := OpenJar(Empty);
      if created.Failed? {
        status, fill, start, archive, body, beforeSets := created, created, [], [], [], [];
        TriedFails(Empty, status, start, body, beforeSets, archive, old(fileSets), old(warnings), old(written));
        return;
      }
      status, fill, start, archive, body, beforeSets := WriteCapsule(Empty);
      TriedCompletes(Empty, status, fill, start, body, beforeSets, archive, old(fileSets), old(warnings), old(written));
    }

    /** What buildThin writes after the manifest: the compiled classes, every capsule class, the caplets and the file sets. */
    method FillThin(jar: JarWriter) returns (status: Status<Failure>, ghost body: seq<Entry>, ghost beforeSets: seq<Entry>)
      requires jar.Valid() && capsuleVersion.Some? && Memo()
      modifies jar, this`warnings, this`fileSets, this`resolvedCapsule, this`resolutions
      ensures jar.Valid() && resolutions <= 1 && (CapsuleJar().Some? ==> Memo())
      ensures Filled(Current(), Thin, old(jar.entries), status, body, beforeSets, jar.entries, old(fileSets), fileSets, old(warnings), warnings)
      ensures status.Done? ==> old(jar.entries) <= jar.entries
    {
      body, beforeSets := jar.entries, jar.entries;
      status := AddCompiledProjectClasses(jar);
      if status.Failed? {
        assert warnings == old(warnings) + [];
        return;
      }
      AddedAllKeeps(old(jar.entries), ProjectClassEntries(env.classes.value));
      status, body, beforeSets := FillEmpty(jar);
    }

    /**
     * buildThin: the manifest with the dependency and repository lists, the
     * compiled project classes, every capsule class, the caplets and the file
     * sets; the archive is stored, then copied, only when every step succeeds.
     */
    method BuildThin()
      returns (status: Status<Failure>, ghost fill: Status<Failure>, ghost start: seq<Entry>, ghost archive: seq<Entry>, ghost body: seq<Entry>, ghost beforeSets: seq<Entry>)
      requires appClass.Some? && capsuleVersion.Some? && Memo()
      modifies this`warnings, this`fileSets, this`resolvedCapsule, this`resolutions, this`written
      ensures resolutions <= 1 && (CapsuleJar().Some? ==> Memo())
      ensures Tried(Thin, status, fill, start, body, beforeSets, archive, old(fileSets), old(warnings), old(written))
    {
      var created := OpenJar(Thin);
      if created.Failed? {
        status, fill, start, archive, body, beforeSets := created, created, [], [], [], [];
        TriedFails(Thin, status, start, body, beforeSets, archive, old(fileSets), old(warnings), old(written));
        return;
      }
      status, fill, start, archive, body, beforeSets := WriteCapsule(Thin);
      TriedCompletes(Thin, status, fill, start, body, beforeSets, archive, old(fileSets), old(warnings), old(written));
    }

    /**
     * How building variant v from the file sets `sets0`, the warnings `w0`
     * and the files `before` ended: its archive could not be created, and
     * nothing changed; or the archive started with the manifest `start`, the
     * steps ran as `Filled` says and the capsule was closed as `Closed` says.
     */
    ghost predicate Tried(v: Variant, status: Status<Failure>, fill: Status<Failure>, start: seq<Entry>, body: seq<Entry>,
                          beforeSets: seq<Entry>, archive: seq<Entry>, sets0: Option<seq<FileSet>>, w0: seq<Warning>,
                          before: map<string, Output>)
      reads this`fileSets, this`warnings, this`written, this`output, this`appClass, this`execConfig, this`caplets
      reads this`capsuleVersion, this`capletFiles
      requires appClass.Some?
    {
      if !Opens(v) then
        && fill == status == Failed(FileNotFound(JarPathOf(v)))
        && warnings == w0 && fileSets == sets0 && written == before
      else
        && start == [ManifestEntry(v)]
        && Filled(Current(), v, start, fill, body, beforeSets, archive, sets0, fileSets, w0 + UnnamedWarnings(settings.modes), warnings)
        && Closed(v, fill, status, archive, before)
        && (fill.Done? ==> start <= archive)
    }

    /** A variant whose archive cannot be created has been tried when nothing changed. */
    lemma TriedFails(v: Variant, status: Status<Failure>, start: seq<Entry>, body: seq<Entry>, beforeSets: seq<Entry>,
                     archive: seq<Entry>, sets0: Option<seq<FileSet>>, w0: seq<Warning>, before: map<string, Output>)
      requires appClass.Some? && !Opens(v) && status == Failed(FileNotFound(JarPathOf(v)))
      requires warnings == w0 && fileSets == sets0 && written == before
      ensures Tried(v, status, status, start, body, beforeSets, archive, sets0, w0, before)
    {
    }

    /** A variant whose archive was created has been tried when its steps ran and it was closed. */
    lemma TriedCompletes(v: Variant, status: Status<Failure>, fill: Status<Failure>, start: seq<Entry>, body: seq<Entry>,
                         beforeSets: seq<Entry>, archive: seq<Entry>, sets0: Option<seq<FileSet>>, w0: seq<Warning>,
                         before: map<string, Output>)
      requires appClass.Some? && Opens(v) && start == [ManifestEntry(v)]
      requires Filled(Current(), v, start, fill, body, beforeSets, archive, sets0, fileSets, w0 + UnnamedWarnings(settings.modes), warnings)
      requires Closed(v, fill, status, archive, before) && (fill.Done? ==> start <= archive)
      ensures Tried(v, status, fill, start, body, beforeSets, archive, sets0, w0, before)
    {
    }

    /**
     * A tried variant is a step that ran: the warnings written before stay
     * in front, a capsule whose steps failed wrote nothing, and one whose
     * steps succeeded was stored, starts with its manifest and holds by name
     * everything its steps add.
     */
    lemma TriedStep(v: Variant, status: Status<Failure>, fill: Status<Failure>, start: seq<Entry>, body: seq<Entry>,
                    beforeSets: seq<Entry>, archive: seq<Entry>, sets0: Option<seq<FileSet>>, w0: seq<Warning>,
                    before: map<string, Output>)
      requires appClass.Some? && SetsFrom(sets0)
      requires Tried(v, status, fill, start, body, beforeSets, archive, sets0, w0, before)
      ensures StepRan(Decisions(), Step(v, sets0, w0, fill, status, body, beforeSets, archive, fileSets, warnings))
      ensures w0 <= warnings && status == if fill.Failed? then fill else CopyStatus(JarPathOf(v))
      ensures fill.Failed? ==> written == before
      ensures fill.Done? ==> SetsFrom(fileSets) && Stored(v, archive, before) && CapsuleJar().Some?
      ensures fill.Done? ==> Holds(Current(), v, archive) && archive[0] == ManifestEntry(v)
    {
      if !Opens(v) {
        return;
      }
      var w1 := w0 + UnnamedWarnings(settings.modes);
      FilledWarnings(Current(), v, start, fill, body, beforeSets, archive, sets0, fileSets, w1, warnings);
      if fill.Done? {
        FilledHolds(Current(), v, start, fill, body, beforeSets, archive, sets0, fileSets, w1, warnings);
      }
    }

    /**
     * How closing the capsule of variant v ended over the files `before`: a
     * capsule whose steps failed is not stored and the build ends with their
     * error; otherwise the archive is stored and the build ends as its
     * executable copies do.
     */
    ghost predicate Closed(v: Variant, fill: Status<Failure>, status: Status<Failure>, archive: seq<Entry>, before: map<string, Output>)
      reads this`written, this`output
    {
      if fill.Failed? then status == fill && written == before
      else Stored(v, archive, before) && status == CopyStatus(JarPathOf(v))
    }

    /**
     * Once its archive is created, a capsule's manifest, its steps and, when
     * they succeed, the archive stored with its copies.
     */
    method WriteCapsule(v: Variant)
      returns (status: Status<Failure>, ghost fill: Status<Failure>, ghost start: seq<Entry>, ghost archive: seq<Entry>, ghost body: seq<Entry>, ghost beforeSets: seq<Entry>)
      requires appClass.Some? && capsuleVersion.Some? && Memo()
      modifies this`warnings, this`fileSets, this`resolvedCapsule, this`resolutions, this`written
      ensures resolutions <= 1 && (CapsuleJar().Some? ==> Memo())
      ensures start == [ManifestEntry(v)]
      ensures Filled(Current(), v, start, fill, body, beforeSets, archive, old(fileSets), fileSets,
                     old(warnings) + UnnamedWarnings(settings.modes), warnings)
      ensures Closed(v, fill, status, archive, old(written))
      ensures fill.Done? ==> start <= archive
    {
      var jar := OpenCapsule(v);
      start := jar.entries;
      status, fill, archive, body, beforeSets := Complete(v, jar);
    }

    /**
     * What a capsule writes after its manifest, then, when every step
     * succeeds, the archive stored at the variant's path with its copies.
     */
    method Complete(v: Variant, jar: JarWriter)
      returns (status: Status<Failure>, ghost fill: Status<Failure>, ghost archive: seq<Entry>, ghost body: seq<Entry>, ghost beforeSets: seq<Entry>)
      requires jar.Valid() && |jar.entries| > 0 && capsuleVersion.Some? && Memo()
      modifies jar, this`warnings, this`fileSets, this`resolvedCapsule, this`resolutions, this`written
      ensures resolutions <= 1 && (CapsuleJar().Some? ==> Memo())
      ensures Filled(Current(), v, old(jar.entries), fill, body, beforeSets, archive, old(fileSets), fileSets, old(warnings), warnings)
      ensures Closed(v, fill, status, archive, old(written))
      ensures fill.Done? ==> old(jar.entries) <= archive
    {
      match v {
        case Empty =>
          status, body, beforeSets := FillEmpty(jar);
        case Thin =>
          status, body, beforeSets := FillThin(jar);
        case Fat =>
          status, body, beforeSets := FillFat(jar);
      }
      fill, archive := status, jar.entries;
      if status.Done? {
        status := Finish(v, jar);
      }
    }

    /** The project's main jar, `{buildDir}/{finalName}.jar`. */
    function MainJarPath(): string {
      Child(settings.buildDir, settings.finalName + ".jar")
    }

    /** The main-jar step of buildFat from `entries`: the jar under its name, or else the compiled classes. */
    function MainJarEntries(entries: seq<Entry>): Outcome<seq<Entry>> {
      if MainJarPath() in env.disk.files then Ok(Added(entries, DependencyEntry(MainJarPath(), env.disk)))
      else if env.classes.None? then Err(FileNotFound(ClassesDir()))
      else Ok(AddedAll(entries, ProjectClassEntries(env.classes.value)))
    }

    /** A missing main jar is reported. */
    function MainJarWarnings(): seq<Warning> {
      if MainJarPath() in env.disk.files then [] else [MainJarMissing]
    }

    /** Every copied file of the classes directory is named in the archive. */
    ghost predicate CompiledNamed(entries: seq<Entry>) {
      env.classes.Some? && forall c :: c in env.classes.value && IsCopiedClass(c) ==> c.path in Names(entries)
    }

    /** The compiled classes added from `start` are all named, and what was there stays in front. */
    lemma CompiledClassesNamed(start: seq<Entry>)
      requires UniqueNames(start) && env.classes.Some?
      ensures var es := AddedAll(start, ProjectClassEntries(env.classes.value));
        start <= es && CompiledNamed(es)
    {
      AddedAllKeeps(start, ProjectClassEntries(env.classes.value));
      forall c | c in env.classes.value && IsCopiedClass(c)
        ensures c.path in Names(AddedAll(start, ProjectClassEntries(env.classes.value)))
      {
        ProjectClassEntriesExact(env.classes.value, c);
        var es := ProjectClassEntries(env.classes.value);
        var k :| 0 <= k < |es| && es[k] == ClassEntry(c);
      }
    }

    /**
     * The fat capsule holds the main jar when it exists, and the compiled
     * classes when it does not, after everything already written.
     */
    lemma MainJarOrClasses(start: seq<Entry>)
      requires UniqueNames(start) && MainJarEntries(start).Ok?
      ensures var es := MainJarEntries(start).value;
        && start <= es
        && (MainJarPath() in env.disk.files ==> BaseName(MainJarPath()) in Names(es))
        && (MainJarPath() !in env.disk.files ==> CompiledNamed(es))
    {
      if MainJarPath() in env.disk.files {
        AddedNames(start, DependencyEntry(MainJarPath(), env.disk));
      } else {
        CompiledClassesNamed(start);
      }
    }

    /** The main jar: added when it exists, otherwise reported and replaced by the compiled classes. */
    method AddMainJar(jar: JarWriter) returns (status: Status<Failure>)
      requires jar.Valid()
      modifies jar, this`warnings
      ensures jar.Valid()
      ensures var r := MainJarEntries(old(jar.entries));
        && (status.Done? <==> r.Ok?)
        && (status.Failed? ==> r == Err(status.error))
        && (status.Done? ==> jar.entries == r.value)
      ensures warnings == old(warnings) + MainJarWarnings()
    {
      var path := MainJarPath();
      if path in env.disk.files {
        jar.AddToJar(BaseName(path), Data(env.disk.files[path]));
        return Done;
      }
      warnings := warnings + [MainJarMissing];
      status := AddCompiledProjectClasses(jar);
    }

    /** The dependency jars: an artifact without a file is reported, a file that cannot be opened ends the build. */
    method AddDependencies(jar: JarWriter) returns (status: Status<Failure>)
      requires jar.Valid()
      modifies jar, this`warnings
      ensures jar.Valid()
      ensures var run := DependencyJars(old(jar.entries), env.artifacts, env.disk);
        && (status.Done? <==> run.outcome.Ok?)
        && (status.Failed? ==> run.outcome == Err(status.error))
        && (status.Done? ==> jar.entries == run.outcome.value)
        && warnings == old(warnings) + run.warnings
    {
      var artifacts := env.artifacts;
      ghost var start := jar.entries;
      var i := 0;
      while i < |artifacts|
        invariant 0 <= i <= |artifacts|
        invariant jar.Valid()
        invariant DependencyJars(start, artifacts[..i], env.disk).outcome == Ok(jar.entries)
        invariant warnings == old(warnings) + DependencyJars(start, artifacts[..i], env.disk).warnings
      {
        var a := artifacts[i];
        DependencyJarsStep(start, artifacts, env.disk, i);
        if a.file.None? {
          warnings := warnings + [DependencyFileMissing(a.id)];
        } else {
          var path := a.file.value;
          if path !in env.disk.files {
            DependencyJarsStops(start, artifacts, env.disk, i + 1);
            return Failed(FileNotFound(path));
          }
          AddedUnique(jar.entries, DependencyEntry(path, env.disk));
          jar.AddToJar(BaseName(path), Data(env.disk.files[path]));
        }
        i := i + 1;
      }
      assert artifacts[..i] == artifacts;
      return Done;
    }

    /** The Capsule.class entry of the fat capsule, taken from the capsule artifact. */
    method AddCapsuleClass(jar: JarWriter) returns (status: Status<Failure>)
      requires jar.Valid() && capsuleVersion.Some? && Memo()
      modifies jar, this`resolvedCapsule, this`resolutions
      ensures jar.Valid() && resolutions <= 1 && (CapsuleJar().Some? ==> Memo())
      ensures var r := CapsuleClassOf();
        && (status.Done? <==> r.Ok?)
        && (status.Failed? ==> r == Err(status.error))
        && (status.Done? ==> jar.entries == Added(old(jar.entries), Entry(CapsuleClassName, Data(r.value))))
    {
      var capsuleClass := GetCapsuleClass();
      if capsuleClass.Err? {
        return Failed(capsuleClass.error);
      }
      AddedUnique(jar.entries, Entry(CapsuleClassName, Data(capsuleClass.value)));
      jar.AddToJar(CapsuleClassName, Data(capsuleClass.value));
      return Done;
    }

    /** What buildFat writes between the manifest and the caplets: the main jar, the dependency jars and Capsule.class. */
    method AddFatBody(jar: JarWriter) returns (status: Status<Failure>)
      requires jar.Valid() && capsuleVersion.Some? && Memo()
      modifies jar, this`warnings, this`resolvedCapsule, this`resolutions
      ensures jar.Valid() && resolutions <= 1 && (CapsuleJar().Some? ==> Memo())
      ensures var r := FatBody(Current(), old(jar.entries));
        && (status.Done? <==> r.Ok?)
        && (status.Failed? ==> r == Err(status.error))
        && (status.Done? ==> jar.entries == r.value)
      ensures warnings == old(warnings) + FatWarnings(old(jar.entries))
    {
      status := AddMainJar(jar);
      if status.Failed? {
        assert MainJarWarnings() + [] == MainJarWarnings();
        return;
      }
      AppendAssoc(old(warnings), MainJarWarnings(), DependencyJars(jar.entries, env.artifacts, env.disk).warnings);
      status := AddDependenciesAndCapsuleClass(jar);
    }

    /** The dependency jars, then Capsule.class, stopping at the first error. */
    method AddDependenciesAndCapsuleClass(jar: JarWriter) returns (status: Status<Failure>)
      requires jar.Valid() && capsuleVersion.Some? && Memo()
      modifies jar, this`warnings, this`resolvedCapsule, this`resolutions
      ensures jar.Valid() && resolutions <= 1 && (CapsuleJar().Some? ==> Memo())
      ensures var r := FatDependencies(Current(), old(jar.entries));
        && (status.Done? <==> r.Ok?)
        && (status.Failed? ==> r == Err(status.error))
        && (status.Done? ==> jar.entries == r.value)
      ensures warnings == old(warnings) + DependencyJars(old(jar.entries), env.artifacts, env.disk).warnings
    {
      status := AddDependencies(jar);
      if status.Failed? {
        return;
      }
      status := AddCapsuleClass(jar);
    }

    /** What buildFat writes after the manifest: the main jar, the dependencies, Capsule.class, the caplets and the file sets. */
    method FillFat(jar: JarWriter) returns (status: Status<Failure>, ghost body: seq<Entry>, ghost beforeSets: seq<Entry>)
      requires jar.Valid() && capsuleVersion.Some? && Memo()
      modifies jar, this`warnings, this`fileSets, this`resolvedCapsule, this`resolutions
      ensures jar.Valid() && resolutions <= 1 && (CapsuleJar().Some? ==> Memo())
      ensures Filled(Current(), Fat, old(jar.entries), status, body, beforeSets, jar.entries, old(fileSets), fileSets, old(warnings), warnings)
      ensures status.Done? ==> old(jar.entries) <= jar.entries
    {
      body, beforeSets := jar.entries, jar.entries;
      status := AddFatBody(jar);
      if status.Failed? {
        return;
      }
      body := jar.entries;
      status, beforeSets := AddCapletsAndFileSets(jar);
      if status.Done? {
        FilledKeeps(Current(), Fat, old(jar.entries), status, body, beforeSets, jar.entries, old(fileSets), fileSets, old(warnings), warnings);
      }
    }

    /**
     * buildFat: the manifest, the main jar (or the compiled classes), every
     * dependency jar, Capsule.class, the caplets and the file sets; the
     * archive is stored, then copied, only when every step succeeds.
     */
    method BuildFat()
      returns (status: Status<Failure>, ghost fill: Status<Failure>, ghost start: seq<Entry>, ghost archive: seq<Entry>, ghost body: seq<Entry>, ghost beforeSets: seq<Entry>)
      requires appClass.Some? && capsuleVersion.Some? && Memo()
      modifies this`warnings, this`fileSets, this`resolvedCapsule, this`resolutions, this`written
      ensures resolutions <= 1 && (CapsuleJar().Some? ==> Memo())
      ensures Tried(Fat, status, fill, start, body, beforeSets, archive, old(fileSets), old(warnings), old(written))
    {
      var created := OpenJar(Fat);
      if created.Failed? {
        status, fill, start, archive, body, beforeSets := created, created, [], [], [], [];
        TriedFails(Fat, status, start, body, beforeSets, archive, old(fileSets), old(warnings), old(written));
        return;
      }
      status, fill, start, archive, body, beforeSets := WriteCapsule(Fat);
      TriedCompletes(Fat, status, fill, start, body, beforeSets, archive, old(fileSets), old(warnings), old(written));
    }

    // ------------------------------------------------------------ what a capsule holds

    /** The file sets are the configured ones, each as configured or as an earlier capsule settled it. */
    ghost predicate SetsFrom(sets: Option<seq<FileSet>>) {
      if settings.fileSets.None? then sets.None?
      else
        var configured := settings.fileSets.value;
        && sets.Some? && |sets.value| == |configured|
        && forall i :: 0 <= i < |configured| ==> sets.value[i] == configured[i] || sets.value[i] == Settled(configured[i], env.disk)
    }

    /** The names the part of variant v before the caplets puts in the archive. */
    ghost predicate BodyNamed(inp: Inputs, v: Variant, entries: seq<Entry>) {
      var capsule := CapsuleJarFor(inp.version);
      match v
      case Empty => capsule.Some? && forall n :: n in CapsuleClasses(capsule.value) ==> n in Names(entries)
      case Thin =>
        && CompiledNamed(entries) && capsule.Some?
        && forall n :: n in CapsuleClasses(capsule.value) ==> n in Names(entries)
      case Fat =>
        && (MainJarPath() in env.disk.files ==> BaseName(MainJarPath()) in Names(entries))
        && (MainJarPath() !in env.disk.files ==> CompiledNamed(entries))
        && (forall a :: a in env.artifacts && a.file.Some? ==> BaseName(a.file.value) in Names(entries))
        && CapsuleClassName in Names(entries)
    }

    /** The names the caplets and the configured file sets put in the archive. */
    ghost predicate TailNamed(inp: Inputs, entries: seq<Entry>) {
      && (inp.caplets.Some? && inp.caplets.value != "" ==> forall k :: k in inp.capletFiles ==> inp.capletFiles[k].path in Names(entries))
      && (settings.fileSets.Some? ==> FileSetsNamed(settings.fileSets.value, env.disk, entries))
    }

    /** What the archive of variant v holds, by name. */
    ghost predicate Holds(inp: Inputs, v: Variant, entries: seq<Entry>) {
      BodyNamed(inp, v, entries) && TailNamed(inp, entries)
    }

    /** The body of a variant keeps what came before and names everything it wrote. */
    lemma BodyWrittenNamed(inp: Inputs, v: Variant, start: seq<Entry>, body: seq<Entry>)
      requires UniqueNames(start) && BodyWritten(inp, v, start, body)
      ensures start <= body && BodyNamed(inp, v, body) && CapsuleJarFor(inp.version).Some?
    {
      match v
      case Empty =>
      case Thin =>
        CompiledClassesNamed(start);
        NamesGrow(AddedAll(start, ProjectClassEntries(env.classes.value)), body);
      case Fat =>
        MainJarOrClasses(start);
        var withMain := MainJarEntries(start).value;
        DependencyJarsOutcome(withMain, env.artifacts, env.disk);
        var withDependencies := DependencyJars(withMain, env.artifacts, env.disk).outcome.value;
        AddedNames(withDependencies, Entry(CapsuleClassName, Data(CapsuleClassFor(inp.version).value)));
        NamesGrow(withMain, withDependencies);
        NamesGrow(withDependencies, body);
    }

    /**
     * After the caplets and the file sets the body is still in front, every
     * caplet file and every include of the configured sets is named, and the
     * sets are still the configured ones, some settled.
     */
    lemma TailWrittenNamed(inp: Inputs, body: seq<Entry>, beforeSets: seq<Entry>, status: Status<Failure>, after: seq<Entry>,
                           sets0: Option<seq<FileSet>>, sets1: Option<seq<FileSet>>, w0: seq<Warning>, w1: seq<Warning>)
      requires CapletsAdded(inp, body, beforeSets) && FileSetsApplied(env.disk, beforeSets, sets0, status, after, sets1, w0, w1)
      requires status.Done? && SetsFrom(sets0)
      ensures body <= after && TailNamed(inp, after) && SetsFrom(sets1)
    {
      if sets0.Some? {
        var configured := settings.fileSets.value;
        ApplyFileSetsNamed(beforeSets, sets0.value, env.disk);
        ApplyFileSetsSettles(beforeSets, sets0.value, env.disk);
        FileSetsNamedSettled(configured, sets0.value, env.disk, after);
        forall i | 0 <= i < |configured|
          ensures sets1.value[i] == configured[i] || sets1.value[i] == Settled(configured[i], env.disk)
        {
          SettledIdempotent(configured[i], env.disk);
        }
      }
      NamesGrow(beforeSets, after);
    }

    /** A capsule whose steps all succeeded still starts with what it started with. */
    lemma FilledKeeps(inp: Inputs, v: Variant, start: seq<Entry>, status: Status<Failure>, body: seq<Entry>, beforeSets: seq<Entry>,
                      after: seq<Entry>, sets0: Option<seq<FileSet>>, sets1: Option<seq<FileSet>>, w0: seq<Warning>, w1: seq<Warning>)
      requires Filled(inp, v, start, status, body, beforeSets, after, sets0, sets1, w0, w1)
      requires status.Done? && UniqueNames(start)
      ensures start <= after
    {
      BodyWrittenNamed(inp, v, start, body);
      if sets0.Some? {
        ApplyFileSetsNamed(beforeSets, sets0.value, env.disk);
      }
    }

    /** A capsule whose steps all succeeded holds, by name, everything its steps add. */
    lemma FilledHolds(inp: Inputs, v: Variant, start: seq<Entry>, status: Status<Failure>, body: seq<Entry>, beforeSets: seq<Entry>,
                      after: seq<Entry>, sets0: Option<seq<FileSet>>, sets1: Option<seq<FileSet>>, w0: seq<Warning>, w1: seq<Warning>)
      requires Filled(inp, v, start, status, body, beforeSets, after, sets0, sets1, w0, w1)
      requires status.Done? && UniqueNames(start) && SetsFrom(sets0)
      ensures start <= after && Holds(inp, v, after) && SetsFrom(sets1) && CapsuleJarFor(inp.version).Some?
    {
      BodyWrittenNamed(inp, v, start, body);
      TailWrittenNamed(inp, body, beforeSets, status, after, sets0, sets1, w0 + BodyWarnings(v, start), w1);
      NamesGrow(body, after);
    }

    /** Whatever happens, the warnings written before stay in front. */
    lemma FilledWarnings(inp: Inputs, v: Variant, start: seq<Entry>, status: Status<Failure>, body: seq<Entry>, beforeSets: seq<Entry>,
                         after: seq<Entry>, sets0: Option<seq<FileSet>>, sets1: Option<seq<FileSet>>, w0: seq<Warning>, w1: seq<Warning>)
      requires Filled(inp, v, start, status, body, beforeSets, after, sets0, sets1, w0, w1)
      ensures w0 <= w1
    {
      var w := w0 + BodyWarnings(v, start);
      assert w0 <= w;
    }

    // ------------------------------------------------------------ the goal

    /**
     * The first half of execute: the exec configuration, the application
     * class and the caplet check.
     */
    method Configure() returns (status: Status<Failure>)
      requires Pristine()
      modifies this`execConfig, this`appClass, this`capletFiles, this`warnings, this`caplets
      ensures execConfig == ExecConfigFor(settings.execPluginConfig, env.execPlugin)
      ensures appClass == AppClass(settings.appClass, execConfig)
      ensures status.Done? <==> appClass.Some?
      ensures status.Failed? ==> status.error == AppClassNotSet
      ensures CapletsChecked()
      ensures warnings == if appClass.Some? then CapletCheckWarnings() else []
    {
      execConfig := SelectExecConfig(settings.execPluginConfig, env.execPlugin);
      if appClass.None? && execConfig.Some? {
        appClass := execConfig.value.mainClass;
      }
      if appClass.None? {
        return Failed(AppClassNotSet);
      }
      if caplets.Some? && caplets.value != "" {
        var kept, found, missing := FilterCaplets(JavaSplit(caplets.value, ' '), ClassesDir(), env.classes.GetOr([]));
        capletFiles := found;
        warnings := warnings + CapletWarnings(missing);
        caplets := Some(kept);
      }
      return Done;
    }

    /**
     * Builds the capsule of one variant. The step records how its steps and
     * its copies ended; when its steps succeed, its archive starts with the
     * variant's manifest, names nothing twice, holds everything its steps add
     * and was stored over the files written before.
     */
    method BuildVariant(v: Variant) returns (status: Status<Failure>, ghost step: Step)
      requires appClass.Some? && capsuleVersion.Some? && Memo() && SetsFrom(fileSets)
      modifies this`warnings, this`fileSets, this`resolvedCapsule, this`resolutions, this`written
      ensures resolutions <= 1 && old(warnings) <= warnings
      ensures step.v == v && step.status == status && step.sets == fileSets && step.warnings == warnings
      ensures step.from == old(fileSets) && step.logged == old(warnings) && StepRan(Decisions(), step)
      ensures step.status == if step.fill.Failed? then step.fill else CopyStatus(JarPathOf(step.v))
      ensures step.fill.Failed? ==> written == old(written)
      ensures step.fill.Done? ==> Memo() && SetsFrom(fileSets) && Stored(step.v, step.archive, old(written))
      ensures step.fill.Done? ==> Holds(Current(), step.v, step.archive) && step.archive[0] == ManifestEntry(step.v)
    {
      ghost var fill, start, archive, body, beforeSets;
      match v {
        case Empty =>
          status, fill, start, archive, body, beforeSets := BuildEmpty();
        case Thin =>
          status, fill, start, archive, body, beforeSets := BuildThin();
        case Fat =>
          status, fill, start, archive, body, beforeSets := BuildFat();
      }
      step := Step(v, old(fileSets), old(warnings), fill, status, body, beforeSets, archive, fileSets, warnings);
      TriedStep(v, status, fill, start, body, beforeSets, archive, old(fileSets), old(warnings), old(written));
    }

    /**
     * The capsule `s` was tried from the file sets and the warnings it
     * records: its archive could not be created, and nothing happened, or its
     * manifest came first, its steps ended as `Filled` says, and the build
     * ended with their error or, once it was stored, as its copies did.
     */
    ghost predicate StepRan(d: Decided, s: Step) {
      if !OpensIn(d.output, s.v) then
        && s.fill == s.status == Failed(FileNotFound(JarPath(d.output, settings.finalName, settings.descriptors, s.v)))
        && s.sets == s.from && s.warnings == s.logged
      else
      && Filled(d.inputs, s.v, [ManifestEntryOf(d.app, d.exec, d.inputs.caplets, s.v)], s.fill, s.body, s.beforeSets,
                s.archive, s.from, s.sets, s.logged + UnnamedWarnings(settings.modes), s.warnings)
      && s.status == if s.fill.Failed? then s.fill
                     else CopyStatusIn(d.output, JarPath(d.output, settings.finalName, settings.descriptors, s.v))
    }

    /** What the goal's fields say it settled before building. */
    function Decisions(): (d: Decided)
      reads this`output, this`appClass, this`execConfig, this`caplets, this`capsuleVersion, this`capletFiles
      requires appClass.Some?
      ensures d.inputs == Current() && d.output == output
    {
      Decided(output, appClass.value, execConfig, Current())
    }

    /**
     * A capsule is built exactly when its archive can be created, its body
     * does not fail, its file sets go through and its copies can be opened; a
     * caplet that was not found never stops it.
     */
    lemma StepOutcome(s: Step)
      requires appClass.Some? && StepRan(Decisions(), s)
      ensures s.status.Done? <==>
        && Opens(s.v)
        && BodyFailure(Current(), s.v, [ManifestEntry(s.v)]).None?
        && (s.from.Some? ==> ApplyFileSets(s.beforeSets, s.from.value, env.disk).outcome.Ok?)
        && CopyStatus(JarPathOf(s.v)).Done?
    {
    }

    /**
     * The body of the fat capsule fails only when neither the main jar nor
     * the classes directory exists, when the file of a resolved artifact is
     * missing, or when the capsule artifact or its Capsule.class is missing:
     * a missing main jar and an artifact without a file are only reported.
     */
    lemma FatBodyFails(inp: Inputs, start: seq<Entry>)
      ensures FatBody(inp, start).Err? <==>
        || (MainJarPath() !in env.disk.files && env.classes.None?)
        || (exists a :: a in env.artifacts && a.file.Some? && a.file.value !in env.disk.files)
        || CapsuleClassFor(inp.version).Err?
    {
      if MainJarEntries(start).Ok? {
        var withMain := MainJarEntries(start).value;
        DependencyJarsOutcome(withMain, env.artifacts, env.disk);
        if exists a :: a in env.artifacts && a.file.Some? && a.file.value !in env.disk.files {
          var a :| a in env.artifacts && a.file.Some? && a.file.value !in env.disk.files;
          var i :| 0 <= i < |env.artifacts| && env.artifacts[i] == a;
        }
      }
    }

    /**
     * The capsules of `order` were tried in turn from the file sets `sets0`
     * and the warnings `w0` up to the first that failed, and each one tried
     * ran as `StepRan` says.
     */
    ghost predicate Ran(d: Decided, order: seq<Variant>, steps: seq<Step>, sets0: Option<seq<FileSet>>, w0: seq<Warning>,
                        sets1: Option<seq<FileSet>>, w1: seq<Warning>, status: Status<Failure>)
    {
      Chained(order, steps, sets0, w0, sets1, w1, status) && forall s {:trigger StepRan(d, s)} | s in steps :: StepRan(d, s)
    }

    /** A run that went through followed by a run from where it ended is a run of both orders, ending as the second did. */
    lemma RanAppend(d: Decided, o1: seq<Variant>, s1: seq<Step>, o2: seq<Variant>, s2: seq<Step>,
                    a: Option<seq<FileSet>>, wa: seq<Warning>, b: Option<seq<FileSet>>, wb: seq<Warning>,
                    c: Option<seq<FileSet>>, wc: seq<Warning>, status: Status<Failure>)
      requires Ran(d, o1, s1, a, wa, b, wb, Done) && Ran(d, o2, s2, b, wb, c, wc, status)
      ensures Ran(d, o1 + o2, s1 + s2, a, wa, c, wc, status)
      ensures s2 != [] ==> (s1 + s2)[|s1 + s2| - 1] == s2[|s2| - 1]
    {
      ChainedAppend(o1, s1, o2, s2, a, wa, b, wb, c, wc, status);
    }

    /** A run that failed is also the run of a longer order. */
    lemma RanStops(d: Decided, o1: seq<Variant>, s1: seq<Step>, o2: seq<Variant>,
                   a: Option<seq<FileSet>>, wa: seq<Warning>, b: Option<seq<FileSet>>, wb: seq<Warning>, status: Status<Failure>)
      requires Ran(d, o1, s1, a, wa, b, wb, status) && status.Failed?
      ensures Ran(d, o1 + o2, s1, a, wa, b, wb, status)
    {
      ChainedStops(o1, s1, o2, a, wa, b, wb, status);
    }

    /**
     * In the files `w`, the capsule of variant v is there: its archive starts
     * with the variant's manifest, names nothing twice and holds everything
     * its steps add.
     */
    ghost predicate Produced(w: map<string, Output>, v: Variant)
      reads this`output, this`appClass, this`execConfig, this`caplets, this`capsuleVersion, this`capletFiles
      requires appClass.Some?
    {
      ProducedIn(Decisions(), w, v)
    }

    /** `Produced`, for the decisions `d`. */
    ghost predicate ProducedIn(d: Decided, w: map<string, Output>, v: Variant) {
      var path := JarPath(d.output, settings.finalName, settings.descriptors, v);
      && path in w && w[path].JarFile?
      && var entries := w[path].entries;
         && |entries| > 0 && entries[0] == ManifestEntryOf(d.app, d.exec, d.inputs.caplets, v) && UniqueNames(entries)
         && Holds(d.inputs, v, entries)
    }

    /** The files the capsules of some variants write. */
    function OutputsFor(vs: set<Variant>): set<string>
      reads this`output
    {
      (if Empty in vs then OutputsOf(Empty) else {}) + (if Thin in vs then OutputsOf(Thin) else {})
        + (if Fat in vs then OutputsOf(Fat) else {})
    }

    /**
     * The capsules of `done` were built over the files `before`: exactly their
     * files were added, and each is there as produced when the suffixes differ.
     */
    ghost predicate Built(w: map<string, Output>, done: set<Variant>, before: set<string>)
      reads this`output, this`appClass, this`execConfig, this`caplets, this`capsuleVersion, this`capletFiles
      requires appClass.Some?
    {
      w.Keys == before + OutputsFor(done) && AllThere(Decisions(), w, done)
    }

    /** For the decisions `d`, the archive of every variant of `done` is in `w`, as produced when the suffixes differ. */
    ghost predicate AllThere(d: Decided, w: map<string, Output>, done: set<Variant>) {
      forall u :: u in done ==> JarPath(d.output, settings.finalName, settings.descriptors, u) in w
                                && (settings.descriptors.Distinct() ==> ProducedIn(d, w, u))
    }

    /**
     * Storing the capsule of one more variant, with its manifest first and
     * everything its steps add, keeps the earlier capsules and adds exactly
     * its own files.
     */
    lemma BuiltStep(w: map<string, Output>, done: set<Variant>, before: set<string>, v: Variant, archive: seq<Entry>)
      requires appClass.Some? && v !in done && Built(w, done, before) && CopyStatus(JarPathOf(v)).Done?
      requires |archive| > 0 && archive[0] == ManifestEntry(v) && UniqueNames(archive) && Holds(Current(), v, archive)
      ensures Built(WithExecCopies(w[JarPathOf(v) := JarFile(archive)], JarPathOf(v)), done + {v}, before)
    {
      StoredKeys(w, done, before, v, archive);
      StoredKeeps(w, done, before, v, archive);
    }

    /** The files after storing one more capsule whose copies succeeded are those before plus the capsules' own. */
    lemma StoredKeys(w: map<string, Output>, done: set<Variant>, before: set<string>, v: Variant, archive: seq<Entry>)
      requires w.Keys == before + OutputsFor(done) && CopyStatus(JarPathOf(v)).Done?
      ensures WithExecCopies(w[JarPathOf(v) := JarFile(archive)], JarPathOf(v)).Keys == before + OutputsFor(done + {v})
    {
      var path := JarPathOf(v);
      var w0 := w[path := JarFile(archive)];
      ExecCopiesWritten(w0, path);
      assert w0.Keys == w.Keys + {path};
      OutputsForStep(done, v);
      UnionRegroup(before, OutputsFor(done), {path}, CopyPaths(path));
    }

    /** The files of one more variant are added to those of the others. */
    lemma OutputsForStep(done: set<Variant>, v: Variant)
      ensures OutputsFor(done + {v}) == OutputsFor(done) + OutputsOf(v)
    {
    }

    /** A union of four sets, regrouped. */
    lemma UnionRegroup<T>(a: set<T>, b: set<T>, c: set<T>, d: set<T>)
      ensures (a + b) + c + d == a + (b + (c + d))
    {
    }

    /** Storing one more capsule keeps the earlier ones and produces its own. */
    lemma StoredKeeps(w: map<string, Output>, done: set<Variant>, before: set<string>, v: Variant, archive: seq<Entry>)
      requires appClass.Some? && v !in done
      requires forall u :: u in done ==> JarPathOf(u) in w && (settings.descriptors.Distinct() ==> Produced(w, u))
      requires |archive| > 0 && archive[0] == ManifestEntry(v) && UniqueNames(archive) && Holds(Current(), v, archive)
      ensures var w1 := WithExecCopies(w[JarPathOf(v) := JarFile(archive)], JarPathOf(v));
        forall u :: u in done + {v} ==> JarPathOf(u) in w1 && (settings.descriptors.Distinct() ==> Produced(w1, u))
    {
      var path := JarPathOf(v);
      var w0 := w[path := JarFile(archive)];
      var w1 := WithExecCopies(w0, path);
      ExecCopiesKeep(w0, path);
      ProducedBy(w1, v, archive);
      forall u | u in done
        ensures JarPathOf(u) in w1 && (settings.descriptors.Distinct() ==> Produced(w1, u))
      {
        if settings.descriptors.Distinct() {
          SeparateOutputs(u, v);
          ProducedKept(w, w1, u);
        }
      }
    }

    /** A capsule is produced when its archive, at the variant's path, has the variant's manifest first and holds what its steps add. */
    lemma ProducedBy(w: map<string, Output>, v: Variant, archive: seq<Entry>)
      requires appClass.Some? && JarPathOf(v) in w && w[JarPathOf(v)] == JarFile(archive)
      requires |archive| > 0 && archive[0] == ManifestEntry(v) && UniqueNames(archive) && Holds(Current(), v, archive)
      ensures Produced(w, v)
    {
    }

    /** A capsule stays produced when its archive is left as it was. */
    lemma ProducedKept(w: map<string, Output>, w1: map<string, Output>, u: Variant)
      requires appClass.Some? && Produced(w, u)
      requires JarPathOf(u) in w1 && w1[JarPathOf(u)] == w[JarPathOf(u)]
      ensures Produced(w1, u)
    {
    }

    /**
     * The capsules of `done` are still there: their files are among `w`, and
     * each is there as produced when the suffixes differ.
     */
    ghost predicate Kept(w: map<string, Output>, done: set<Variant>)
      reads this`output, this`appClass, this`execConfig, this`caplets, this`capsuleVersion, this`capletFiles
      requires appClass.Some?
    {
      OutputsFor(done) <= w.Keys && KeptIn(Decisions(), w, done)
    }

    /** For the decisions `d`, every variant of `done` is in `w` as produced when the suffixes differ. */
    ghost predicate KeptIn(d: Decided, w: map<string, Output>, done: set<Variant>) {
      forall u :: u in done && settings.descriptors.Distinct() ==> ProducedIn(d, w, u)
    }

    /**
     * Storing one more capsule over built ones, whether or not its copies
     * succeed, keeps the earlier capsules and adds only its own files.
     */
    lemma StoredKept(w: map<string, Output>, done: set<Variant>, before: set<string>, v: Variant, archive: seq<Entry>)
      requires appClass.Some? && v !in done && Built(w, done, before)
      ensures var w1 := WithExecCopies(w[JarPathOf(v) := JarFile(archive)], JarPathOf(v));
        w1.Keys <= before + OutputsFor(done + {v}) && Kept(w1, done)
    {
      var path := JarPathOf(v);
      var w0 := w[path := JarFile(archive)];
      var w1 := WithExecCopies(w0, path);
      ExecCopiesWritten(w0, path);
      OutputsForStep(done, v);
      forall u | u in done && settings.descriptors.Distinct()
        ensures Produced(w1, u)
      {
        SeparateOutputs(u, v);
        ProducedKept(w, w1, u);
      }
    }

    /**
     * One capsule of the plan after the earlier ones: tried when it is
     * wanted, else nothing happens; the capsules built before stay.
     */
    method BuildNext(wanted: bool, v: Variant, ghost done: set<Variant>, ghost before: set<string>)
      returns (status: Status<Failure>, ghost next: set<Variant>, ghost steps: seq<Step>)
      requires appClass.Some? && capsuleVersion.Some? && Memo() && SetsFrom(fileSets)
      requires v !in done && Built(written, done, before)
      modifies this`warnings, this`fileSets, this`resolvedCapsule, this`resolutions, this`written
      ensures resolutions <= 1 && old(warnings) <= warnings
      ensures next == if wanted then done + {v} else done
      ensures Ran(Decisions(), Wanted(wanted, v), steps, old(fileSets), old(warnings), fileSets, warnings, status)
      ensures !wanted ==> written == old(written)
      ensures written.Keys <= before + OutputsFor(next) && Kept(written, done)
      ensures status.Done? ==> Memo() && SetsFrom(fileSets) && Built(written, next, before)
    {
      next := if wanted then done + {v} else done;
      if !wanted {
        status, steps := Done, [];
        return;
      }
      ghost var step;
      status, step := BuildOne(v, done, before);
      steps := [step];
      ChainedOne(step);
    }

    /**
     * One more capsule: the step records how it ended; its files join those of
     * the capsules built before it, which stay whatever happens.
     */
    method BuildOne(v: Variant, ghost done: set<Variant>, ghost before: set<string>) returns (status: Status<Failure>, ghost step: Step)
      requires appClass.Some? && capsuleVersion.Some? && Memo() && SetsFrom(fileSets)
      requires v !in done && Built(written, done, before)
      modifies this`warnings, this`fileSets, this`resolvedCapsule, this`resolutions, this`written
      ensures resolutions <= 1 && old(warnings) <= warnings
      ensures step.v == v && step.status == status && step.sets == fileSets && step.warnings == warnings
      ensures step.from == old(fileSets) && step.logged == old(warnings) && StepRan(Decisions(), step)
      ensures written.Keys <= before + OutputsFor(done + {v}) && Kept(written, done)
      ensures status.Done? ==> Memo() && SetsFrom(fileSets) && Built(written, done + {v}, before)
    {
      ghost var w0, d := written, Decisions();
      status, step := BuildVariant(v);
      assert d == Decisions();
      StepFiles(step, w0, done, before);
    }

    /**
     * The files after one more capsule was tried over built ones: its body
     * failed and nothing changed, or it was stored with its copies; the
     * earlier capsules stay, and when it was built it is produced too.
     */
    lemma StepFiles(step: Step, w0: map<string, Output>, done: set<Variant>, before: set<string>)
      requires appClass.Some? && step.v !in done && Built(w0, done, before)
      requires step.status == if step.fill.Failed? then step.fill else CopyStatus(JarPathOf(step.v))
      requires step.fill.Failed? ==> written == w0
      requires step.fill.Done? ==> Stored(step.v, step.archive, w0)
      requires step.fill.Done? ==> Holds(Current(), step.v, step.archive) && step.archive[0] == ManifestEntry(step.v)
      ensures written.Keys <= before + OutputsFor(done + {step.v}) && Kept(written, done)
      ensures step.status.Done? ==> Built(written, done + {step.v}, before)
    {
      if step.fill.Done? {
        StoredKept(w0, done, before, step.v, step.archive);
        if step.status.Done? {
          BuiltStep(w0, done, before, step.v, step.archive);
        }
      } else {
        OutputsForGrow(done, done + {step.v});
      }
    }

    /** Growing the set of variants grows their files. */
    lemma OutputsForGrow(small: set<Variant>, large: set<Variant>)
      requires small <= large
      ensures OutputsFor(small) <= OutputsFor(large)
    {
    }

    /**
     * The second half of execute: the chosen capsules in the order empty,
     * thin, fat, stopping at the first error; the capsules the plan built
     * before the one that failed stay.
     */
    method BuildVariants(plan: Plan) returns (status: Status<Failure>, ghost steps: seq<Step>)
      requires appClass.Some? && capsuleVersion.Some? && Memo() && SetsFrom(fileSets)
      modifies this`warnings, this`fileSets, this`resolvedCapsule, this`resolutions, this`written
      ensures resolutions <= 1 && old(warnings) <= warnings
      ensures Ran(Decisions(), PlanOrder(plan), steps, old(fileSets), old(warnings), fileSets, warnings, status)
      ensures written.Keys <= old(written).Keys + OutputsFor(Planned(plan))
      ensures status.Failed? ==> steps != [] && Kept(written, PlannedBefore(plan, steps[|steps| - 1].v))
      ensures status.Done? ==> Built(written, Planned(plan), old(written).Keys)
    {
      ghost var before := written.Keys;
      ghost var done: set<Variant> := {};
      assert Built(written, done, before);
      ghost var d := Decisions();
      ghost var first;
      status, done, first := BuildNext(plan.empty, Empty, done, before);
      ChainedWanted(plan.empty, Empty, first, old(fileSets), old(warnings), fileSets, warnings, status);
      if status.Failed? {
        RanStops(d, Wanted(plan.empty, Empty), first, Wanted(plan.thin, Thin) + Wanted(plan.fat, Fat),
                 old(fileSets), old(warnings), fileSets, warnings, status);
        OutputsForGrow(done, Planned(plan));
        steps := first;
        return;
      }
      ghost var sets1, w1 := fileSets, warnings;
      ghost var rest;
      status, rest := BuildLater(plan, done, before);
      RanAppend(d, Wanted(plan.empty, Empty), first, Wanted(plan.thin, Thin) + Wanted(plan.fat, Fat), rest,
                old(fileSets), old(warnings), sets1, w1, fileSets, warnings, status);
      steps := first + rest;
    }

    /** The thin and the fat capsule, when planned, after the empty one. */
    method BuildLater(plan: Plan, ghost done: set<Variant>, ghost before: set<string>) returns (status: Status<Failure>, ghost steps: seq<Step>)
      requires appClass.Some? && capsuleVersion.Some? && Memo() && SetsFrom(fileSets)
      requires done == PlannedBefore(plan, Thin) && Built(written, done, before)
      modifies this`warnings, this`fileSets, this`resolvedCapsule, this`resolutions, this`written
      ensures resolutions <= 1 && old(warnings) <= warnings
      ensures Ran(Decisions(), Wanted(plan.thin, Thin) + Wanted(plan.fat, Fat), steps, old(fileSets), old(warnings), fileSets, warnings, status)
      ensures written.Keys <= before + OutputsFor(Planned(plan))
      ensures status.Failed? ==> steps != [] && Kept(written, PlannedBefore(plan, steps[|steps| - 1].v))
      ensures status.Done? ==> Built(written, Planned(plan), before)
    {
      ghost var d := Decisions();
      ghost var afterThin, first;
      status, afterThin, first := BuildNext(plan.thin, Thin, done, before);
      assert d == Decisions();
      PlannedInOrder(plan);
      ChainedWanted(plan.thin, Thin, first, old(fileSets), old(warnings), fileSets, warnings, status);
      if status.Failed? {
        RanStops(d, Wanted(plan.thin, Thin), first, Wanted(plan.fat, Fat), old(fileSets), old(warnings), fileSets, warnings, status);
        OutputsForGrow(afterThin, Planned(plan));
        steps := first;
        return;
      }
      ghost var sets1, w1 := fileSets, warnings;
      ghost var rest;
      status, rest := BuildLast(plan, afterThin, before);
      assert d == Decisions();
      RanAppend(d, Wanted(plan.thin, Thin), first, Wanted(plan.fat, Fat), rest, old(fileSets), old(warnings), sets1, w1, fileSets, warnings, status);
      steps := first + rest;
    }

    /** The fat capsule, when planned, after the others the plan asked for. */
    method BuildLast(plan: Plan, ghost done: set<Variant>, ghost before: set<string>) returns (status: Status<Failure>, ghost steps: seq<Step>)
      requires appClass.Some? && capsuleVersion.Some? && Memo() && SetsFrom(fileSets)
      requires done == PlannedBefore(plan, Fat) && Built(written, done, before)
      modifies this`warnings, this`fileSets, this`resolvedCapsule, this`resolutions, this`written
      ensures resolutions <= 1 && old(warnings) <= warnings
      ensures Ran(Decisions(), Wanted(plan.fat, Fat), steps, old(fileSets), old(warnings), fileSets, warnings, status)
      ensures written.Keys <= before + OutputsFor(Planned(plan))
      ensures status.Failed? ==> steps != [] && Kept(written, PlannedBefore(plan, steps[|steps| - 1].v))
      ensures status.Done? ==> Built(written, Planned(plan), before)
    {
      ghost var afterFat;
      PlannedInOrder(plan);
      status, afterFat, steps := BuildNext(plan.fat, Fat, done, before);
      ChainedWanted(plan.fat, Fat, steps, old(fileSets), old(warnings), fileSets, warnings, status);
    }

    /**
     * In the order empty, thin, fat, the variants a plan builds before the
     * next one are those before the last one plus the last one when it is
     * planned, and the fat capsule's are all planned variants but the fat one.
     */
    lemma PlannedInOrder(plan: Plan)
      ensures PlannedBefore(plan, Thin) == if plan.empty then PlannedBefore(plan, Empty) + {Empty} else PlannedBefore(plan, Empty)
      ensures PlannedBefore(plan, Fat) == if plan.thin then PlannedBefore(plan, Thin) + {Thin} else PlannedBefore(plan, Thin)
      ensures Planned(plan) == if plan.fat then PlannedBefore(plan, Fat) + {Fat} else PlannedBefore(plan, Fat)
    {
    }

    /** The capsule version execute settles on: the configured one, else the newest release the range request returns. */
    ghost predicate ChosenVersion(version: string) {
      if settings.capsuleVersion.Some? then version == settings.capsuleVersion.value
      else env.versions.Some? && NewestRelease(env.versions.value, version)
    }

    /** A capsule version is settled on: one is configured, or the range request returns a release. */
    predicate VersionSettles() {
      || settings.capsuleVersion.Some?
      || (env.versions.Some? && exists i :: 0 <= i < |env.versions.value| && !IsSnapshot(env.versions.value[i]))
    }

    /**
     * The middle of execute: the capsule version, the newest release of the
     * range when none is configured, and the output directory, moved to the
     * build directory when it is the classes directory.
     */
    method Settle() returns (status: Status<Failure>)
      requires capsuleVersion == settings.capsuleVersion && output == settings.output
      modifies this`capsuleVersion, this`output
      ensures status.Done? <==> VersionSettles()
      ensures settings.capsuleVersion.None? && env.versions.None? ==> status == Failed(VersionRangeUnresolved)
      ensures (settings.capsuleVersion.None? && env.versions.Some?
               && forall i :: 0 <= i < |env.versions.value| ==> IsSnapshot(env.versions.value[i]))
              ==> status == Failed(NoCapsuleVersion)
      ensures status.Done? ==> capsuleVersion.Some? && ChosenVersion(capsuleVersion.value)
      ensures status.Done? ==> output == OutputDirectory(settings.output, settings.buildDir)
    {
      if capsuleVersion.None? {
        if env.versions.None? {
          return Failed(VersionRangeUnresolved);
        }
        capsuleVersion := PickVersion(env.versions.value);
      }
      output := OutputDirectory(output, settings.buildDir);
      if capsuleVersion.None? {
        return Failed(NoCapsuleVersion);
      }
      return Done;
    }

    /**
     * The rest of execute once the application class is known: the variants,
     * the capsule version and the output directory, then the capsules.
     */
    method Run() returns (status: Status<Failure>, ghost steps: seq<Step>)
      requires appClass.Some? && capsuleVersion == settings.capsuleVersion && output == settings.output
      requires resolvedCapsule.None? && resolutions == 0 && fileSets == settings.fileSets && written == map[]
      modifies this`capsuleVersion, this`output, this`warnings, this`fileSets, this`resolvedCapsule, this`resolutions, this`written
      ensures settings.capsuleVersion.None? && env.versions.None? ==> status == Failed(VersionRangeUnresolved)
      ensures (settings.capsuleVersion.None? && env.versions.Some?
               && forall i :: 0 <= i < |env.versions.value| ==> IsSnapshot(env.versions.value[i]))
              ==> status == Failed(NoCapsuleVersion)
      ensures !VersionSettles() ==> status.Failed? && steps == [] && written == map[]
      ensures VersionSettles() ==> Ran(Decisions(), PlanOrder(TypeFilter(settings.types)), steps, settings.fileSets, old(warnings), fileSets, warnings, status)
      ensures status.Done? ==> capsuleVersion.Some? && ChosenVersion(capsuleVersion.value)
      ensures status.Done? ==> output == OutputDirectory(settings.output, settings.buildDir)
      ensures written.Keys <= OutputsFor(Planned(TypeFilter(settings.types)))
      ensures status.Failed? && steps != [] ==> Kept(written, PlannedBefore(TypeFilter(settings.types), steps[|steps| - 1].v))
      ensures status.Done? ==> Built(written, Planned(TypeFilter(settings.types)), {})
      ensures resolutions <= 1 && old(warnings) <= warnings
    {
      var plan := TypeFilter(settings.types);
      status := Settle();
      if status.Failed? {
        steps := [];
        return;
      }
      ghost var settled := (capsuleVersion, output);
      assert written.Keys == {};
      status, steps := BuildVariants(plan);
      assert settled == (capsuleVersion, output);
    }

    /**
     * execute: picks the exec configuration and the application class, checks
     * the caplets, decides the variants, picks the capsule version, settles
     * the output directory and builds the chosen capsules. It succeeds
     * exactly when an application class and a capsule version are found and
     * every planned capsule is built; the capsules built before an error stay.
     */
    method Execute() returns (status: Status<Failure>, ghost steps: seq<Step>)
      requires Pristine()
      modifies this
      ensures execConfig == ExecConfigFor(settings.execPluginConfig, env.execPlugin)
      ensures appClass == AppClass(settings.appClass, execConfig)
      ensures appClass.None? ==> status == Failed(AppClassNotSet) && steps == [] && written == map[]
      ensures CapletsChecked()
      ensures appClass.Some? ==> CapletCheckWarnings() <= warnings
      ensures appClass.Some? && settings.capsuleVersion.None? && env.versions.None? ==> status == Failed(VersionRangeUnresolved)
      ensures (appClass.Some? && settings.capsuleVersion.None? && env.versions.Some?
               && forall i :: 0 <= i < |env.versions.value| ==> IsSnapshot(env.versions.value[i]))
              ==> status == Failed(NoCapsuleVersion)
      ensures appClass.Some? && VersionSettles() ==>
        Ran(Decisions(), PlanOrder(TypeFilter(settings.types)), steps, settings.fileSets, CapletCheckWarnings(), fileSets, warnings, status)
      ensures status.Done? <==>
        && appClass.Some? && VersionSettles()
        && |steps| == |PlanOrder(TypeFilter(settings.types))|
        && forall i :: 0 <= i < |steps| ==> steps[i].status.Done?
      ensures status.Done? ==> capsuleVersion.Some? && ChosenVersion(capsuleVersion.value)
      ensures status.Done? ==> output == OutputDirectory(settings.output, settings.buildDir)
      ensures written.Keys <= OutputsFor(Planned(TypeFilter(settings.types)))
      ensures appClass.Some? && status.Failed? && steps != [] ==>
        Kept(written, PlannedBefore(TypeFilter(settings.types), steps[|steps| - 1].v))
      ensures status.Done? ==> appClass.Some? && Built(written, Planned(TypeFilter(settings.types)), {})
      ensures resolutions <= 1
    {
      status := Configure();
      if status.Failed? {
        steps := [];
        return;
      }
      ghost var configured := warnings;
      ghost var checked := (caplets, capletFiles);
      status, steps := Run();
      assert configured <= warnings && checked == (caplets, capletFiles);
      if VersionSettles() {
        ChainedOutcome(PlanOrder(TypeFilter(settings.types)), steps, settings.fileSets, configured, fileSets, warnings, status);
      }
    }
  }
}
