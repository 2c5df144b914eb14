/**
 * The archives the builder writes and reads: a JAR being written is a
 * sequence of named entries in which a name occurs at most once (a second
 * entry of a taken name is dropped by the writer); a JAR being read is the
 * sequence of its entries. The file sets' entries are specified here too.
 */
module Archive {
  import opened Wrappers
  import opened Text
  import opened JarManifest
  import opened Config

  datatype Payload = Data(bytes: seq<byte>) | ManifestData(manifest: Manifest) | Directory

  datatype Entry = Entry(name: string, payload: Payload)

  /** An entry as a JAR input stream yields it. */
  datatype JarItem = JarItem(name: string, bytes: seq<byte>)

  const ManifestName := "META-INF/MANIFEST.MF"
  const CapsuleClassName := "Capsule.class"

  function Names(entries: seq<Entry>): (r: seq<string>)
    ensures |r| == |entries|
    ensures forall i :: 0 <= i < |entries| ==> r[i] == entries[i].name
  {
    seq(|entries|, i requires 0 <= i < |entries| => entries[i].name)
  }

  predicate UniqueNames(entries: seq<Entry>) {
    forall i, j :: 0 <= i < j < |entries| ==> entries[i].name != entries[j].name
  }

  /** The payload stored under a name, if any. */
  function Lookup(entries: seq<Entry>, name: string): (r: Option<Payload>)
    ensures r.None? <==> name !in Names(entries)
  {
    if entries == [] then None
    else if entries[0].name == name then Some(entries[0].payload)
    else
      assert Names(entries) == [entries[0].name] + Names(entries[1..]);
      Lookup(entries[1..], name)
  }

  /** What the writer does with a new entry: it is appended unless its name is taken, in which case it is dropped. */
  function Added(entries: seq<Entry>, e: Entry): seq<Entry> {
    if e.name in Names(entries) then entries else entries + [e]
  }

  lemma {:induction false} LookupSnoc(entries: seq<Entry>, e: Entry, name: string)
    ensures Lookup(entries + [e], name)
      == if Lookup(entries, name).Some? then Lookup(entries, name) else if e.name == name then Some(e.payload) else None
  {
    if entries != [] {
      assert (entries + [e])[1..] == entries[1..] + [e];
      LookupSnoc(entries[1..], e, name);
    }
  }

  /** Adding keeps the first entry of a name and changes nothing else. */
  lemma AddedLookup(entries: seq<Entry>, e: Entry, name: string)
    ensures Lookup(Added(entries, e), name)
      == if name == e.name && Lookup(entries, name).None? then Some(e.payload) else Lookup(entries, name)
  {
    LookupSnoc(entries, e, name);
  }

  /** Adding never produces two entries of one name. */
  lemma AddedUnique(entries: seq<Entry>, e: Entry)
    requires UniqueNames(entries)
    ensures UniqueNames(Added(entries, e))
    ensures entries <= Added(entries, e)
    ensures e.name in Names(Added(entries, e))
  {
    var r := Added(entries, e);
    if e.name !in Names(entries) {
      forall i | 0 <= i < |entries| ensures entries[i].name != e.name {
        assert Names(entries)[i] == entries[i].name;
      }
      assert Names(r)[|entries|] == e.name;
    }
  }

  /** Adding keeps what was there and leaves the new name present, taken or not. */
  lemma AddedNames(entries: seq<Entry>, e: Entry)
    ensures entries <= Added(entries, e) && e.name in Names(Added(entries, e))
  {
    if e.name !in Names(entries) {
      assert Names(Added(entries, e))[|entries|] == e.name;
    }
  }

  /**
   * Entries written from a map in some order: the old entries stay in front,
   * every key ends up present, and everything new comes from the map.
   */
  ghost predicate AllAdded(before: seq<Entry>, after: seq<Entry>, items: map<string, seq<byte>>) {
    && before <= after
    && (forall n :: n in items ==> n in Names(after))
    && (forall k :: |before| <= k < |after| ==> after[k].name in items && after[k].payload == Data(items[after[k].name]))
  }

  /** Writing more entries never loses a name. */
  lemma NamesGrow(a: seq<Entry>, b: seq<Entry>)
    requires a <= b
    ensures forall n :: n in Names(a) ==> n in Names(b)
  {
    forall n | n in Names(a) ensures n in Names(b) {
      var i :| 0 <= i < |a| && Names(a)[i] == n;
      assert Names(b)[i] == n;
    }
  }

  /** Adding a sequence of entries one by one. */
  function AddedAll(entries: seq<Entry>, es: seq<Entry>): seq<Entry> {
    if es == [] then entries else Added(AddedAll(entries, es[..|es| - 1]), es[|es| - 1])
  }

  /**
   * Adding entries one by one keeps the names unique and the old entries in
   * front; every added name ends up present, and everything new is one of
   * the added entries.
   */
  lemma {:induction false} AddedAllKeeps(entries: seq<Entry>, es: seq<Entry>)
    requires UniqueNames(entries)
    ensures UniqueNames(AddedAll(entries, es)) && entries <= AddedAll(entries, es)
    ensures forall k :: 0 <= k < |es| ==> es[k].name in Names(AddedAll(entries, es))
    ensures forall k :: |entries| <= k < |AddedAll(entries, es)| ==> AddedAll(entries, es)[k] in es
  {
    if es != [] {
      var init := es[..|es| - 1];
      AddedAllKeeps(entries, init);
      var before := AddedAll(entries, init);
      AddedUnique(before, es[|es| - 1]);
      var r := AddedAll(entries, es);
      forall k | 0 <= k < |init| ensures es[k].name in Names(r) {
        var i :| 0 <= i < |before| && Names(before)[i] == es[k].name;
        assert Names(r)[i] == es[k].name;
      }
      forall k | |entries| <= k < |r| ensures r[k] in es {
        if k < |before| {
          assert r[k] == before[k];
          assert before[k] in init;
        } else {
          assert r[k] == es[|es| - 1];
        }
      }
    }
  }

  lemma AddedAllSnoc(entries: seq<Entry>, es: seq<Entry>, e: Entry)
    ensures AddedAll(entries, es + [e]) == Added(AddedAll(entries, es), e)
  {
    assert (es + [e])[..|es|] == es;
  }

  /** The JarOutputStream of one capsule. */
  class JarWriter {
    var entries: seq<Entry>

    ghost predicate Valid()
      reads this
    {
      UniqueNames(entries)
    }

    constructor ()
      ensures Valid() && entries == []
    {
      entries := [];
    }

    /** addToJar: the entry is written unless its name is taken (the duplicate error is swallowed). */
    method AddToJar(name: string, payload: Payload)
      requires Valid()
      modifies this
      ensures Valid()
      ensures entries == Added(old(entries), Entry(name, payload))
    {
      AddedUnique(entries, Entry(name, payload));
      if name !in Names(entries) {
        entries := entries + [Entry(name, payload)];
      }
    }

    /** A directory marker written straight to the stream: a taken name is an error the caller sees. */
    method PutDirectory(name: string) returns (ok: bool)
      requires Valid()
      modifies this
      ensures Valid()
      ensures ok <==> name !in Names(old(entries))
      ensures entries == if ok then old(entries) + [Entry(name, Directory)] else old(entries)
    {
      ok := name !in Names(entries);
      if ok {
        AddedUnique(entries, Entry(name, Directory));
        entries := entries + [Entry(name, Directory)];
      }
    }

    /**
     * Writes every entry of a map, in the map's own (unspecified) order: the
     * old entries stay in front, each key ends up present, and everything new
     * comes from the map.
     */
    method AddAll(items: map<string, seq<byte>>)
      requires Valid()
      modifies this
      ensures Valid() && AllAdded(old(entries), entries, items)
    {
      var rest := items.Keys;
      while rest != {}
        invariant rest <= items.Keys
        invariant Valid()
        invariant old(entries) <= entries
        invariant forall n :: n in items && n !in rest ==> n in Names(entries)
        invariant forall k :: |old(entries)| <= k < |entries| ==>
          entries[k].name in items && entries[k].payload == Data(items[entries[k].name])
        decreases |rest|
      {
        var n :| n in rest;
        ghost var before := entries;
        AddToJar(n, Data(items[n]));
        AddedUnique(before, Entry(n, Data(items[n])));
        assert forall m :: m in Names(before) ==> m in Names(entries) by {
          forall m | m in Names(before) ensures m in Names(entries) {
            var i :| 0 <= i < |before| && Names(before)[i] == m;
            assert Names(entries)[i] == m;
          }
        }
        rest := rest - {n};
      }
    }
  }

  // ---------------------------------------------------------------- reading the capsule artifact

  /** The bytes of the first entry of a name. */
  function FirstNamed(jar: seq<JarItem>, name: string): (r: Option<seq<byte>>)
    ensures r.None? <==> forall i :: 0 <= i < |jar| ==> jar[i].name != name
  {
    if jar == [] then None
    else if jar[0].name == name then Some(jar[0].bytes)
    else
      var r := FirstNamed(jar[1..], name);
      assert forall i :: 1 <= i < |jar| ==> jar[i] == jar[1..][i - 1];
      r
  }

  /** The entry found is the first of that name. */
  lemma {:induction false} FirstNamedIsFirst(jar: seq<JarItem>, name: string, i: int)
    requires 0 <= i < |jar| && jar[i].name == name
    requires forall j :: 0 <= j < i ==> jar[j].name != name
    ensures FirstNamed(jar, name) == Some(jar[i].bytes)
  {
    if i > 0 {
      FirstNamedIsFirst(jar[1..], name, i - 1);
    }
  }

  /** getCapsuleClass: the bytes of the first Capsule.class of the capsule artifact, or none. */
  method FindCapsuleClass(jar: seq<JarItem>) returns (r: Option<seq<byte>>)
    ensures r == FirstNamed(jar, CapsuleClassName)
  {
    r := None;
    var i := 0;
    while i < |jar|
      invariant 0 <= i <= |jar|
      invariant forall j :: 0 <= j < i ==> jar[j].name != CapsuleClassName
    {
      if jar[i].name == CapsuleClassName {
        FirstNamedIsFirst(jar, CapsuleClassName, i);
        return Some(jar[i].bytes);
      }
      i := i + 1;
    }
  }

  /** The entries getAllCapsuleClasses copies: a name containing "capsule", or Capsule.class itself. */
  predicate IsCapsuleClass(name: string) {
    Contains(name, "capsule") || name == CapsuleClassName
  }

  /** The copied entries by name; a later entry of a name replaces an earlier one. */
  function CapsuleClasses(jar: seq<JarItem>): map<string, seq<byte>> {
    if jar == [] then map[]
    else
      var before, item := CapsuleClasses(jar[..|jar| - 1]), jar[|jar| - 1];
      if IsCapsuleClass(item.name) then before[item.name := item.bytes] else before
  }

  /** getAllCapsuleClasses: every matching entry of the capsule artifact, by name. */
  method CollectCapsuleClasses(jar: seq<JarItem>) returns (classes: map<string, seq<byte>>)
    ensures classes == CapsuleClasses(jar)
  {
    classes := map[];
    var i := 0;
    while i < |jar|
      invariant 0 <= i <= |jar|
      invariant classes == CapsuleClasses(jar[..i])
    {
      assert jar[..i + 1][..i] == jar[..i];
      if IsCapsuleClass(jar[i].name) {
        classes := classes[jar[i].name := jar[i].bytes];
      }
      i := i + 1;
    }
    assert jar[..i] == jar;
  }

  /** A name is collected exactly when some matching entry has it. */
  lemma {:induction false} CapsuleClassesHas(jar: seq<JarItem>, name: string)
    ensures name in CapsuleClasses(jar) <==> IsCapsuleClass(name) && exists i :: 0 <= i < |jar| && jar[i].name == name
  {
    if jar != [] {
      var init := jar[..|jar| - 1];
      CapsuleClassesHas(init, name);
      if name in CapsuleClasses(init) {
        var i :| 0 <= i < |init| && init[i].name == name;
        assert jar[i] == init[i];
      }
      if IsCapsuleClass(name) && exists i :: 0 <= i < |jar| && jar[i].name == name {
        var i :| 0 <= i < |jar| && jar[i].name == name;
        if i < |init| {
          assert init[i] == jar[i];
        }
      }
    }
  }

  /** A collected name holds the bytes of its last entry. */
  lemma {:induction false} CapsuleClassesLastWins(jar: seq<JarItem>, i: int)
    requires 0 <= i < |jar| && IsCapsuleClass(jar[i].name)
    requires forall j :: i < j < |jar| ==> jar[j].name != jar[i].name
    ensures jar[i].name in CapsuleClasses(jar) && CapsuleClasses(jar)[jar[i].name] == jar[i].bytes
  {
    if i < |jar| - 1 {
      CapsuleClassesLastWins(jar[..|jar| - 1], i);
    }
  }

  /** Whatever the fat capsule's Capsule.class is, the other variants' copies include one of that name. */
  lemma CapsuleClassAmongAll(jar: seq<JarItem>)
    requires FirstNamed(jar, CapsuleClassName).Some?
    ensures CapsuleClassName in CapsuleClasses(jar)
  {
    var i :| 0 <= i < |jar| && jar[i].name == CapsuleClassName;
    CapsuleClassesHas(jar, CapsuleClassName);
  }

  // ---------------------------------------------------------------- file sets

  /** The output directory as the builder rewrites it: with a trailing '/', or "" when unset or empty. */
  function OutputPrefix(out: Option<string>): (r: string)
    ensures r == "" || EndsWith(r, "/")
    ensures out.Some? && out.value != "" ==> StartsWith(r, out.value) && r != ""
    ensures out.None? || out.value == "" ==> r == ""
  {
    if out.None? || out.value == "" then ""
    else if EndsWith(out.value, "/") then out.value
    else
      var r := out.value + "/";
      assert r[..|out.value|] == out.value;
      r
  }

  lemma OutputPrefixIdempotent(out: Option<string>)
    ensures OutputPrefix(Some(OutputPrefix(out))) == OutputPrefix(out)
  {
  }

  /** A file set whose directory is set and exists; only those write anything. */
  predicate Active(s: FileSet, disk: Disk) {
    s.directory.Some? && s.directory.value != "" && s.directory.value in disk.directories
  }

  /** The file set after the builder has rewritten its output directory in place. */
  function Settled(s: FileSet, disk: Disk): FileSet {
    if Active(s, disk) then s.(outputDirectory := Some(OutputPrefix(s.outputDirectory))) else s
  }

  lemma SettledIdempotent(s: FileSet, disk: Disk)
    ensures Settled(Settled(s, disk), disk) == Settled(s, disk)
  {
    OutputPrefixIdempotent(s.outputDirectory);
  }

  /** The includes of one file set, each read from the directory and stored under the prefix. */
  function AddIncludes(entries: seq<Entry>, dir: string, prefix: string, includes: seq<string>, files: map<string, seq<byte>>): Outcome<seq<Entry>> {
    if includes == [] then Ok(entries)
    else
      match AddIncludes(entries, dir, prefix, includes[..|includes| - 1], files)
      case Err(e) => Err(e)
      case Ok(es) =>
        var item := includes[|includes| - 1];
        var path := Child(dir, item);
        if path in files then Ok(Added(es, Entry(prefix + item, Data(files[path])))) else Err(FileNotFound(path))
  }

  /** What an existing file set writes: its directory marker (a taken name ends the build), then its includes. */
  function MarkAndInclude(entries: seq<Entry>, dir: string, prefix: string, includes: Option<seq<string>>, files: map<string, seq<byte>>): Outcome<seq<Entry>> {
    if prefix != "" && prefix in Names(entries) then Err(DuplicateEntry(prefix))
    else
      var marked := if prefix != "" then entries + [Entry(prefix, Directory)] else entries;
      if includes.None? then Err(NullIncludes)
      else AddIncludes(marked, dir, prefix, includes.value, files)
  }

  /** One file set: nothing unless its directory is set and exists. */
  function ApplyFileSet(entries: seq<Entry>, s: FileSet, disk: Disk): Outcome<seq<Entry>> {
    if !Active(s, disk) then Ok(entries)
    else MarkAndInclude(entries, s.directory.value, OutputPrefix(s.outputDirectory), s.includes, disk.files)
  }

  /** A set directory that does not exist is reported and skipped. */
  function FileSetWarnings(s: FileSet, disk: Disk): seq<Warning> {
    if s.directory.Some? && s.directory.value != "" && s.directory.value !in disk.directories then [NotADirectory(s.directory.value)] else []
  }

  datatype FileSetsRun = FileSetsRun(outcome: Outcome<seq<Entry>>, sets: seq<FileSet>, warnings: seq<Warning>)

  /** All file sets in order, stopping at the first error; each processed set is left settled. */
  function ApplyFileSets(entries: seq<Entry>, sets: seq<FileSet>, disk: Disk): (r: FileSetsRun)
    ensures |r.sets| == |sets|
  {
    if sets == [] then FileSetsRun(Ok(entries), [], [])
    else
      var prev := ApplyFileSets(entries, sets[..|sets| - 1], disk);
      var s := sets[|sets| - 1];
      if prev.outcome.Err? then FileSetsRun(prev.outcome, prev.sets + [s], prev.warnings)
      else FileSetsRun(ApplyFileSet(prev.outcome.value, s, disk), prev.sets + [Settled(s, disk)], prev.warnings + FileSetWarnings(s, disk))
  }

  /** A run leaves every file set as it was or settled. */
  lemma {:induction false} ApplyFileSetsSettles(entries: seq<Entry>, sets: seq<FileSet>, disk: Disk)
    ensures var r := ApplyFileSets(entries, sets, disk);
      forall i :: 0 <= i < |sets| ==> r.sets[i] == sets[i] || r.sets[i] == Settled(sets[i], disk)
  {
    if sets != [] {
      var n := |sets| - 1;
      ApplyFileSetsSettles(entries, sets[..n], disk);
      var prev := ApplyFileSets(entries, sets[..n], disk);
      var r := ApplyFileSets(entries, sets, disk);
      forall i | 0 <= i < |sets| ensures r.sets[i] == sets[i] || r.sets[i] == Settled(sets[i], disk) {
        if i < n {
          assert r.sets[i] == prev.sets[i];
        }
      }
    }
  }

  /** One more file set after a run that has not failed: the new set is settled in place. */
  lemma ApplyFileSetsStep(entries: seq<Entry>, sets: seq<FileSet>, disk: Disk, i: int, current: seq<FileSet>)
    requires 0 <= i < |sets|
    requires ApplyFileSets(entries, sets[..i], disk).outcome.Ok?
    requires current == ApplyFileSets(entries, sets[..i], disk).sets + sets[i..]
    ensures var prev := ApplyFileSets(entries, sets[..i], disk);
      ApplyFileSets(entries, sets[..i + 1], disk)
        == FileSetsRun(ApplyFileSet(prev.outcome.value, sets[i], disk), prev.sets + [Settled(sets[i], disk)],
                       prev.warnings + FileSetWarnings(sets[i], disk))
    ensures ApplyFileSets(entries, sets[..i + 1], disk).sets + sets[i + 1..] == current[i := Settled(sets[i], disk)]
  {
    var prev := ApplyFileSets(entries, sets[..i], disk);
    assert sets[..i + 1][..i] == sets[..i];
    assert sets[i..] == [sets[i]] + sets[i + 1..];
    var next := ApplyFileSets(entries, sets[..i + 1], disk);
    assert next.sets == prev.sets + [Settled(sets[i], disk)];
  }

  /** A settled file set writes what it wrote before it was settled. */
  lemma SettledSameEffect(entries: seq<Entry>, s: FileSet, disk: Disk)
    ensures ApplyFileSet(entries, Settled(s, disk), disk) == ApplyFileSet(entries, s, disk)
    ensures FileSetWarnings(Settled(s, disk), disk) == FileSetWarnings(s, disk)
  {
    OutputPrefixIdempotent(s.outputDirectory);
  }

  /** File sets of which any may already be settled write what the unsettled ones write. */
  lemma {:induction false} RerunSameEffect(entries: seq<Entry>, sets: seq<FileSet>, again: seq<FileSet>, disk: Disk)
    requires |again| == |sets|
    requires forall i :: 0 <= i < |sets| ==> again[i] == sets[i] || again[i] == Settled(sets[i], disk)
    ensures ApplyFileSets(entries, again, disk).outcome == ApplyFileSets(entries, sets, disk).outcome
    ensures ApplyFileSets(entries, again, disk).warnings == ApplyFileSets(entries, sets, disk).warnings
  {
    if sets != [] {
      var n := |sets| - 1;
      RerunSameEffect(entries, sets[..n], again[..n], disk);
      var prev := ApplyFileSets(entries, sets[..n], disk);
      if prev.outcome.Ok? {
        SettledSameEffect(prev.outcome.value, sets[n], disk);
      }
    }
  }

  /**
   * The builder rewrites the file sets of the first capsule it writes, and the
   * next capsule is written from the rewritten ones: it gets the same file-set
   * entries and warnings as if they had not been rewritten.
   */
  lemma FileSetsStable(first: seq<Entry>, next: seq<Entry>, sets: seq<FileSet>, disk: Disk)
    ensures ApplyFileSets(next, ApplyFileSets(first, sets, disk).sets, disk).outcome == ApplyFileSets(next, sets, disk).outcome
    ensures ApplyFileSets(next, ApplyFileSets(first, sets, disk).sets, disk).warnings == ApplyFileSets(next, sets, disk).warnings
  {
    ApplyFileSetsSettles(first, sets, disk);
    RerunSameEffect(next, sets, ApplyFileSets(first, sets, disk).sets, disk);
  }

  /** Includes never disturb what was written before, and each lands under the prefix. */
  lemma {:induction false} AddIncludesUnderPrefix(entries: seq<Entry>, dir: string, prefix: string, includes: seq<string>, files: map<string, seq<byte>>)
    requires AddIncludes(entries, dir, prefix, includes, files).Ok?
    ensures var es := AddIncludes(entries, dir, prefix, includes, files).value;
      entries <= es && forall k :: |entries| <= k < |es| ==> StartsWith(es[k].name, prefix)
  {
    if includes != [] {
      var init := includes[..|includes| - 1];
      AddIncludesUnderPrefix(entries, dir, prefix, init, files);
      var es := AddIncludes(entries, dir, prefix, init, files).value;
      var item := includes[|includes| - 1];
      assert StartsWith(prefix + item, prefix);
    }
  }

  /** One more include after the earlier ones succeeded: it is added, or its missing file ends the set. */
  lemma AddIncludesStep(entries: seq<Entry>, dir: string, prefix: string, includes: seq<string>, files: map<string, seq<byte>>, j: int)
    requires 0 <= j < |includes| && AddIncludes(entries, dir, prefix, includes[..j], files).Ok?
    ensures var es := AddIncludes(entries, dir, prefix, includes[..j], files).value;
      var path := Child(dir, includes[j]);
      AddIncludes(entries, dir, prefix, includes[..j + 1], files)
        == if path in files then Ok(Added(es, Entry(prefix + includes[j], Data(files[path])))) else Err(FileNotFound(path))
  {
    assert includes[..j + 1][..j] == includes[..j];
  }

  /** Once an include is missing, the later includes change nothing. */
  lemma {:induction false} AddIncludesStops(entries: seq<Entry>, dir: string, prefix: string, includes: seq<string>, files: map<string, seq<byte>>, j: int)
    requires 0 <= j <= |includes| && AddIncludes(entries, dir, prefix, includes[..j], files).Err?
    ensures AddIncludes(entries, dir, prefix, includes, files) == AddIncludes(entries, dir, prefix, includes[..j], files)
    decreases |includes|
  {
    if j < |includes| {
      var init := includes[..|includes| - 1];
      assert init[..j] == includes[..j];
      AddIncludesStops(entries, dir, prefix, init, files, j);
    } else {
      assert includes[..j] == includes;
    }
  }

  /** Once a file set fails, the later ones are neither processed nor settled. */
  lemma {:induction false} ApplyFileSetsStops(entries: seq<Entry>, sets: seq<FileSet>, disk: Disk, n: int)
    requires 0 <= n <= |sets| && ApplyFileSets(entries, sets[..n], disk).outcome.Err?
    ensures var stopped := ApplyFileSets(entries, sets[..n], disk);
      ApplyFileSets(entries, sets, disk) == FileSetsRun(stopped.outcome, stopped.sets + sets[n..], stopped.warnings)
    decreases |sets|
  {
    if n < |sets| {
      var init := sets[..|sets| - 1];
      assert init[..n] == sets[..n];
      ApplyFileSetsStops(entries, init, disk, n);
      assert init[n..] + [sets[|sets| - 1]] == sets[n..];
    } else {
      assert sets[..n] == sets;
    }
  }

  /**
   * A file set keeps everything already in the archive, and everything it
   * adds (its directory marker and its includes) lies under its output directory.
   */
  lemma FileSetUnderOutputDirectory(entries: seq<Entry>, s: FileSet, disk: Disk)
    requires ApplyFileSet(entries, s, disk).Ok?
    ensures var es := ApplyFileSet(entries, s, disk).value;
      entries <= es && forall k :: |entries| <= k < |es| ==> StartsWith(es[k].name, OutputPrefix(s.outputDirectory))
  {
    if Active(s, disk) {
      var prefix := OutputPrefix(s.outputDirectory);
      var marked := if prefix != "" then entries + [Entry(prefix, Directory)] else entries;
      AddIncludesUnderPrefix(marked, s.directory.value, prefix, s.includes.value, disk.files);
      assert StartsWith(prefix, prefix);
    }
  }

  /** A set directory that is missing adds nothing and is reported. */
  lemma MissingDirectorySkipped(entries: seq<Entry>, s: FileSet, disk: Disk)
    requires s.directory.Some? && s.directory.value != "" && s.directory.value !in disk.directories
    ensures ApplyFileSet(entries, s, disk) == Ok(entries)
    ensures FileSetWarnings(s, disk) == [NotADirectory(s.directory.value)]
  {
  }

  /** Two file sets with the same output directory end the build: the second directory marker is a duplicate. */
  lemma SameOutputDirectoryFails(entries: seq<Entry>, s: FileSet, t: FileSet, disk: Disk)
    requires Active(s, disk) && Active(t, disk)
    requires OutputPrefix(s.outputDirectory) != "" && OutputPrefix(s.outputDirectory) == OutputPrefix(t.outputDirectory)
    requires ApplyFileSet(entries, s, disk).Ok?
    ensures ApplyFileSets(entries, [s, t], disk).outcome == Err(DuplicateEntry(OutputPrefix(s.outputDirectory)))
  {
    var prefix := OutputPrefix(s.outputDirectory);
    var marked := entries + [Entry(prefix, Directory)];
    AddIncludesUnderPrefix(marked, s.directory.value, prefix, s.includes.value, disk.files);
    var es := ApplyFileSet(entries, s, disk).value;
    assert es[|entries|] == marked[|entries|];
    assert Names(es)[|entries|] == prefix;
    assert [s, t][..1] == [s];
    assert [s][..0] == [];
    assert ApplyFileSets(entries, [], disk).outcome == Ok(entries);
    assert ApplyFileSets(entries, [s], disk).outcome == Ok(es);
    assert ApplyFileSet(es, t, disk) == Err(DuplicateEntry(prefix));
  }

  /** Every include of every file set that writes is named in the archive, under the set's output directory. */
  ghost predicate FileSetsNamed(sets: seq<FileSet>, disk: Disk, entries: seq<Entry>) {
    forall s, item :: s in sets && Active(s, disk) && s.includes.Some? && item in s.includes.value ==>
      OutputPrefix(s.outputDirectory) + item in Names(entries)
  }

  /** Includes that were all read leave every one of them present under the prefix. */
  lemma {:induction false} AddIncludesNamed(entries: seq<Entry>, dir: string, prefix: string, includes: seq<string>, files: map<string, seq<byte>>)
    requires AddIncludes(entries, dir, prefix, includes, files).Ok?
    ensures var es := AddIncludes(entries, dir, prefix, includes, files).value;
      entries <= es && forall item :: item in includes ==> prefix + item in Names(es)
  {
    if includes != [] {
      var init := includes[..|includes| - 1];
      var last := includes[|includes| - 1];
      AddIncludesNamed(entries, dir, prefix, init, files);
      var before := AddIncludes(entries, dir, prefix, init, files).value;
      var e := Entry(prefix + last, Data(files[Child(dir, last)]));
      AddedNames(before, e);
      NamesGrow(before, Added(before, e));
      assert forall item :: item in includes ==> item in init || item == last;
    }
  }

  /**
   * A run of file sets that ends without error keeps everything already in
   * the archive and leaves every include of every existing set present.
   */
  lemma {:induction false} ApplyFileSetsNamed(entries: seq<Entry>, sets: seq<FileSet>, disk: Disk)
    requires ApplyFileSets(entries, sets, disk).outcome.Ok?
    ensures var es := ApplyFileSets(entries, sets, disk).outcome.value;
      entries <= es && FileSetsNamed(sets, disk, es)
  {
    if sets != [] {
      var init := sets[..|sets| - 1];
      var s := sets[|sets| - 1];
      ApplyFileSetsNamed(entries, init, disk);
      var before := ApplyFileSets(entries, init, disk).outcome.value;
      var es := ApplyFileSets(entries, sets, disk).outcome.value;
      FileSetUnderOutputDirectory(before, s, disk);
      NamesGrow(before, es);
      if Active(s, disk) {
        var prefix := OutputPrefix(s.outputDirectory);
        var marked := if prefix != "" then before + [Entry(prefix, Directory)] else before;
        AddIncludesNamed(marked, s.directory.value, prefix, s.includes.value, disk.files);
      }
      assert forall t :: t in sets ==> t in init || t == s;
    }
  }

  /** Settling a file set changes neither whether it writes nor where: the names a set requires are the same either way. */
  lemma FileSetsNamedSettled(sets: seq<FileSet>, current: seq<FileSet>, disk: Disk, entries: seq<Entry>)
    requires |current| == |sets|
    requires forall i :: 0 <= i < |sets| ==> current[i] == sets[i] || current[i] == Settled(sets[i], disk)
    requires FileSetsNamed(current, disk, entries)
    ensures FileSetsNamed(sets, disk, entries)
  {
    forall s, item | s in sets && Active(s, disk) && s.includes.Some? && item in s.includes.value
      ensures OutputPrefix(s.outputDirectory) + item in Names(entries)
    {
      var i :| 0 <= i < |sets| && sets[i] == s;
      OutputPrefixIdempotent(s.outputDirectory);
      assert current[i] in current;
    }
  }
}
