/**
 * The decisions `execute` takes before any archive is written: which exec
 * plugin configuration applies, which caplets exist, which variants are built,
 * which capsule version is used, where the archives go and what they and
 * their executable copies are called.
 */
module BuildPlan {
  import opened Wrappers
  import opened Text
  import opened Config

  // ---------------------------------------------------------------- exec plugin configuration

  /** The configuration of the first execution with the given id, if there is one. */
  function ExecutionConfig(executions: seq<Execution>, id: string): Option<ExecConfig> {
    if executions == [] then None
    else if executions[0].id == id then executions[0].configuration
    else ExecutionConfig(executions[1..], id)
  }

  /**
   * The exec configuration the builder reads: with a selector and a declared
   * exec plugin, "root" picks the plugin's own configuration and any other
   * selector the configuration of the first execution with that id.
   */
  function ExecConfigFor(selector: Option<string>, plugin: Option<ExecPlugin>): Option<ExecConfig> {
    if selector.None? || plugin.None? then None
    else if selector.value == "root" then plugin.value.configuration
    else ExecutionConfig(plugin.value.executions, selector.value)
  }

  /** No execution of that id: no configuration. */
  lemma {:induction false} ExecutionConfigMissing(executions: seq<Execution>, id: string)
    requires forall j :: 0 <= j < |executions| ==> executions[j].id != id
    ensures ExecutionConfig(executions, id).None?
  {
    if executions != [] {
      ExecutionConfigMissing(executions[1..], id);
    }
  }

  /** The first execution of that id decides, whatever later ones say. */
  lemma {:induction false} ExecutionConfigFirst(executions: seq<Execution>, id: string, i: int)
    requires 0 <= i < |executions| && executions[i].id == id
    requires forall j :: 0 <= j < i ==> executions[j].id != id
    ensures ExecutionConfig(executions, id) == executions[i].configuration
  {
    if i > 0 {
      ExecutionConfigFirst(executions[1..], id, i - 1);
    }
  }

  /** The search over the executions, stopping at the first match. */
  method SelectExecConfig(selector: Option<string>, plugin: Option<ExecPlugin>) returns (cfg: Option<ExecConfig>)
    ensures cfg == ExecConfigFor(selector, plugin)
  {
    cfg := None;
    if selector.Some? && plugin.Some? {
      if selector.value == "root" {
        cfg := plugin.value.configuration;
      } else {
        var ex := plugin.value.executions;
        var i := 0;
        while i < |ex|
          invariant 0 <= i <= |ex|
          invariant forall j :: 0 <= j < i ==> ex[j].id != selector.value
        {
          if ex[i].id == selector.value {
            ExecutionConfigFirst(ex, selector.value, i);
            cfg := ex[i].configuration;
            return;
          }
          i := i + 1;
        }
        ExecutionConfigMissing(ex, selector.value);
      }
    }
  }

  /** The application class: the configured one, else the exec configuration's mainClass. */
  function AppClass(configured: Option<string>, exec: Option<ExecConfig>): (r: Option<string>)
    ensures configured.Some? ==> r == configured
    ensures r.None? <==> configured.None? && (exec.None? || exec.value.mainClass.None?)
  {
    if configured.None? && exec.Some? then exec.value.mainClass else configured
  }

  // ---------------------------------------------------------------- caplets

  /** The path the directory walk reports for a compiled file. */
  function FullPath(classesDir: string, c: ClassFile): string {
    classesDir + "/" + c.path
  }

  /** The walk for one caplet: the first file, in visit order, whose path contains the fragment. */
  function FirstMatch(classesDir: string, classes: seq<ClassFile>, caplet: string): Option<ClassFile> {
    if classes == [] then None
    else if Contains(FullPath(classesDir, classes[0]), caplet) then Some(classes[0])
    else FirstMatch(classesDir, classes[1..], caplet)
  }

  /** The walk finds a file exactly when some file's path contains the fragment, and what it finds is such a file. */
  lemma {:induction false} FirstMatchFinds(classesDir: string, classes: seq<ClassFile>, caplet: string)
    ensures var r := FirstMatch(classesDir, classes, caplet);
      && (r.None? <==> forall c :: c in classes ==> !Contains(FullPath(classesDir, c), caplet))
      && (r.Some? ==> r.value in classes && Contains(FullPath(classesDir, r.value), caplet))
  {
    if classes != [] && !Contains(FullPath(classesDir, classes[0]), caplet) {
      FirstMatchFinds(classesDir, classes[1..], caplet);
      assert forall c :: c in classes ==> c == classes[0] || c in classes[1..];
    }
  }

  /** The file found is the first one, in visit order, whose path contains the fragment. */
  lemma {:induction false} FirstMatchIsFirst(classesDir: string, classes: seq<ClassFile>, caplet: string, i: int)
    requires 0 <= i < |classes| && Contains(FullPath(classesDir, classes[i]), caplet)
    requires forall j :: 0 <= j < i ==> !Contains(FullPath(classesDir, classes[j]), caplet)
    ensures FirstMatch(classesDir, classes, caplet) == Some(classes[i])
  {
    if i > 0 {
      FirstMatchIsFirst(classesDir, classes[1..], caplet, i - 1);
    }
  }

  /** The fragments that were found, in the order they were requested. */
  function KeptCaplets(classesDir: string, classes: seq<ClassFile>, fragments: seq<string>): seq<string> {
    if fragments == [] then []
    else
      var init, last := fragments[..|fragments| - 1], fragments[|fragments| - 1];
      KeptCaplets(classesDir, classes, init) + if FirstMatch(classesDir, classes, last).Some? then [last] else []
  }

  /** The fragments that were not found, in order: one warning each. */
  function MissingCaplets(classesDir: string, classes: seq<ClassFile>, fragments: seq<string>): seq<string> {
    if fragments == [] then []
    else
      var init, last := fragments[..|fragments| - 1], fragments[|fragments| - 1];
      MissingCaplets(classesDir, classes, init) + if FirstMatch(classesDir, classes, last).None? then [last] else []
  }

  /** The caplet files recorded: each found fragment with the file the walk found for it. */
  function FoundCaplets(classesDir: string, classes: seq<ClassFile>, fragments: seq<string>): map<string, ClassFile> {
    if fragments == [] then map[]
    else
      var init, last := fragments[..|fragments| - 1], fragments[|fragments| - 1];
      var m := FirstMatch(classesDir, classes, last);
      if m.Some? then FoundCaplets(classesDir, classes, init)[last := m.value] else FoundCaplets(classesDir, classes, init)
  }

  /** The caplet files hold exactly the fragments the walk matches, each with the file it found first. */
  lemma {:induction false} FoundCapletsExact(classesDir: string, classes: seq<ClassFile>, fragments: seq<string>)
    ensures forall f :: f in FoundCaplets(classesDir, classes, fragments) <==> f in fragments && FirstMatch(classesDir, classes, f).Some?
    ensures forall f :: f in FoundCaplets(classesDir, classes, fragments) ==> Some(FoundCaplets(classesDir, classes, fragments)[f]) == FirstMatch(classesDir, classes, f)
  {
    if fragments != [] {
      var init := fragments[..|fragments| - 1];
      FoundCapletsExact(classesDir, classes, init);
      assert fragments == init + [fragments[|fragments| - 1]];
    }
  }

  /** A recorded fragment is one the walk matches. */
  lemma FoundCapletMatched(classesDir: string, classes: seq<ClassFile>, fragments: seq<string>, f: string)
    requires f in FoundCaplets(classesDir, classes, fragments)
    ensures FirstMatch(classesDir, classes, f).Some?
  {
    FoundCapletsExact(classesDir, classes, fragments);
  }

  /**
   * Every fragment is either found or reported: the found ones are the
   * fragments the walk matches, the reported ones those it does not.
   */
  lemma {:induction false} CapletsPartition(classesDir: string, classes: seq<ClassFile>, fragments: seq<string>)
    ensures forall f :: f in KeptCaplets(classesDir, classes, fragments) <==> f in fragments && FirstMatch(classesDir, classes, f).Some?
    ensures forall f :: f in MissingCaplets(classesDir, classes, fragments) <==> f in fragments && FirstMatch(classesDir, classes, f).None?
    ensures |KeptCaplets(classesDir, classes, fragments)| + |MissingCaplets(classesDir, classes, fragments)| == |fragments|
  {
    if fragments != [] {
      var init := fragments[..|fragments| - 1];
      CapletsPartition(classesDir, classes, init);
      assert fragments == init + [fragments[|fragments| - 1]];
    }
  }

  /** One more fragment: it joins the found or the missing ones. */
  lemma CapletsStep(classesDir: string, classes: seq<ClassFile>, fragments: seq<string>, i: int)
    requires 0 <= i < |fragments|
    ensures var f := fragments[i];
      MissingCaplets(classesDir, classes, fragments[..i + 1])
        == MissingCaplets(classesDir, classes, fragments[..i]) + if FirstMatch(classesDir, classes, f).None? then [f] else []
    ensures var f := fragments[i];
      CapletString(KeptCaplets(classesDir, classes, fragments[..i + 1]))
        == if FirstMatch(classesDir, classes, f).Some?
           then AppendCaplet(CapletString(KeptCaplets(classesDir, classes, fragments[..i])), f)
           else CapletString(KeptCaplets(classesDir, classes, fragments[..i]))
    ensures var f := fragments[i];
      var m := FirstMatch(classesDir, classes, f);
      FoundCaplets(classesDir, classes, fragments[..i + 1])
        == if m.Some? then FoundCaplets(classesDir, classes, fragments[..i])[f := m.value]
           else FoundCaplets(classesDir, classes, fragments[..i])
  {
    var f := fragments[i];
    assert fragments[..i + 1][..i] == fragments[..i];
    var before := KeptCaplets(classesDir, classes, fragments[..i]);
    if FirstMatch(classesDir, classes, f).Some? {
      assert KeptCaplets(classesDir, classes, fragments[..i + 1]) == before + [f];
      CapletStringSnoc(before, f);
    } else {
      assert KeptCaplets(classesDir, classes, fragments[..i + 1]) == before;
    }
  }

  /** Appending to the rebuilt caplet list: a space only once the list is non-empty. */
  function AppendCaplet(acc: string, caplet: string): string {
    if |acc| > 0 then acc + " " + caplet else acc + caplet
  }

  function CapletString(kept: seq<string>): string {
    if kept == [] then "" else AppendCaplet(CapletString(kept[..|kept| - 1]), kept[|kept| - 1])
  }

  lemma CapletStringSnoc(kept: seq<string>, caplet: string)
    ensures CapletString(kept + [caplet]) == AppendCaplet(CapletString(kept), caplet)
  {
    assert (kept + [caplet])[..|kept|] == kept;
  }

  /** Without empty fragments the rebuilt list is the found fragments joined by single spaces. */
  lemma {:induction false} CapletStringJoins(kept: seq<string>)
    requires forall k :: 0 <= k < |kept| ==> kept[k] != ""
    ensures CapletString(kept) == JoinWith(kept, ' ')
  {
    if kept != [] {
      var init := kept[..|kept| - 1];
      CapletStringJoins(init);
      assert kept == init + [kept[|kept| - 1]];
      if init != [] {
        JoinWithSnoc(init, kept[|kept| - 1], ' ');
        assert |JoinWith(init, ' ')| >= |init[0]| by {
          assert init[0] != "";
          JoinWithFirst(init, ' ');
        }
      }
    }
  }

  lemma JoinWithFirst(xs: seq<string>, sep: char)
    requires |xs| > 0
    ensures StartsWith(JoinWith(xs, sep), xs[0])
  {
    if |xs| > 1 {
      assert JoinWith(xs, sep) == xs[0] + ([sep] + JoinWith(xs[1..], sep));
    }
  }

  /**
   * The rebuilt caplet list names exactly the found fragments: when none of
   * them is empty it splits on spaces back into them, in order.
   */
  lemma CapletListParses(kept: seq<string>)
    requires kept != []
    requires forall k :: 0 <= k < |kept| ==> kept[k] != "" && ' ' !in kept[k]
    ensures Pieces(CapletString(kept), ' ') == kept
  {
    CapletStringJoins(kept);
    SplitJoin(kept, ' ');
  }

  /** The found fragments come from splitting on spaces, so none of them holds a space. */
  lemma KeptCapletsHaveNoSpace(caplets: string, classesDir: string, classes: seq<ClassFile>)
    ensures var kept := KeptCaplets(classesDir, classes, JavaSplit(caplets, ' '));
      forall k :: 0 <= k < |kept| ==> ' ' !in kept[k]
  {
    var fragments := JavaSplit(caplets, ' ');
    var kept := KeptCaplets(classesDir, classes, fragments);
    CapletsPartition(classesDir, classes, fragments);
    forall k | 0 <= k < |kept| ensures ' ' !in kept[k] {
      assert kept[k] in kept;
      var i :| 0 <= i < |fragments| && fragments[i] == kept[k];
    }
  }

  /**
   * The caplet check of `execute` over the space-separated fragments of the
   * caplet list: each is looked up by the walk; the found ones are recorded
   * with their file and rebuild the caplet list, the others are reported.
   */
  method FilterCaplets(fragments: seq<string>, classesDir: string, classes: seq<ClassFile>)
    returns (kept: string, found: map<string, ClassFile>, missing: seq<string>)
    ensures kept == CapletString(KeptCaplets(classesDir, classes, fragments))
    ensures missing == MissingCaplets(classesDir, classes, fragments)
    ensures forall f :: f in found <==> f in fragments && FirstMatch(classesDir, classes, f).Some?
    ensures forall f :: f in found ==> Some(found[f]) == FirstMatch(classesDir, classes, f)
  {
    kept, found, missing := "", map[], [];
    var i := 0;
    while i < |fragments|
      invariant 0 <= i <= |fragments|
      invariant kept == CapletString(KeptCaplets(classesDir, classes, fragments[..i]))
      invariant missing == MissingCaplets(classesDir, classes, fragments[..i])
      invariant found == FoundCaplets(classesDir, classes, fragments[..i])
    {
      var caplet := fragments[i];
      CapletsStep(classesDir, classes, fragments, i);
      var m := FirstMatch(classesDir, classes, caplet);
      if m.Some? {
        found := found[caplet := m.value];
      } else if caplet in found {
        FoundCapletMatched(classesDir, classes, fragments[..i], caplet);
      }
      if caplet !in found {
        missing := missing + [caplet];
      } else {
        kept := AppendCaplet(kept, caplet);
      }
      i := i + 1;
    }
    assert fragments[..i] == fragments;
    FoundCapletsExact(classesDir, classes, fragments);
  }

  // ---------------------------------------------------------------- variants

  datatype Plan = Plan(empty: bool, thin: bool, fat: bool) {
    predicate Includes(v: Variant) {
      match v
      case Empty => empty
      case Thin => thin
      case Fat => fat
    }
  }

  predicate MentionsVariant(types: string) {
    Contains(types, "empty") || Contains(types, "thin") || Contains(types, "fat")
  }

  /** The types filter: all three variants unless it names at least one of them. */
  function TypeFilter(types: Option<string>): Plan {
    if types.Some? && MentionsVariant(types.value) then
      Plan(Contains(types.value, "empty"), Contains(types.value, "thin"), Contains(types.value, "fat"))
    else Plan(true, true, true)
  }

  /** A variant is built exactly when the filter is absent or names none, or names it. */
  lemma TypeFilterSelects(types: Option<string>, v: Variant)
    ensures TypeFilter(types).Includes(v) <==>
      types.None? || !MentionsVariant(types.value) || Contains(types.value, v.Name())
  {
  }

  /** Some variant is always built. */
  lemma TypeFilterNeverEmpty(types: Option<string>)
    ensures exists v: Variant :: TypeFilter(types).Includes(v)
  {
    var p := TypeFilter(types);
    if p.empty { assert p.Includes(Empty); }
    else if p.thin { assert p.Includes(Thin); }
    else { assert p.Includes(Fat); }
  }

  /** "thin" alone builds the thin variant and nothing else. */
  lemma ThinOnly()
    ensures TypeFilter(Some("thin")) == Plan(false, true, false)
  {
    assert StartsWith("thin", "thin");
    assert !Contains("thin", "empty") by { NotContainedWhenShorter("thin", "empty"); }
    assert !Contains("thin", "fat") by {
      assert "thin"[..3][0] == 't';
      assert "hin"[..3][0] == 'h';
      NotContainedWhenShorter("in", "fat");
      assert "thin"[1..] == "hin" && "hin"[1..] == "in";
    }
  }

  lemma {:induction false} NotContainedWhenShorter(s: string, t: string)
    requires |s| < |t|
    ensures !Contains(s, t)
    decreases |s|
  {
    if |s| > 0 {
      NotContainedWhenShorter(s[1..], t);
    }
  }

  // ---------------------------------------------------------------- capsule version

  predicate IsSnapshot(version: string) {
    Contains(version, "SNAPSHOT")
  }

  /** `version` is the last of `versions` that is not a snapshot. */
  ghost predicate NewestRelease(versions: seq<string>, version: string) {
    exists i :: 0 <= i < |versions| && versions[i] == version && !IsSnapshot(versions[i])
      && forall j :: i < j < |versions| ==> IsSnapshot(versions[j])
  }

  /** The latest resolved version that is not a snapshot, searching from the end; none if all are snapshots. */
  method PickVersion(versions: seq<string>) returns (picked: Option<string>)
    ensures picked.None? <==> forall i :: 0 <= i < |versions| ==> IsSnapshot(versions[i])
    ensures picked.Some? ==> NewestRelease(versions, picked.value)
  {
    picked := None;
    var i := |versions| - 1;
    while i >= 0
      invariant -1 <= i < |versions|
      invariant forall j :: i < j < |versions| ==> IsSnapshot(versions[j])
    {
      if !IsSnapshot(versions[i]) {
        picked := Some(versions[i]);
        return;
      }
      i := i - 1;
    }
  }

  // ---------------------------------------------------------------- output

  /** The output directory, redirected to the build directory when it is the classes directory. */
  function OutputDirectory(output: string, buildDir: string): (r: string)
    ensures r != buildDir + "/classes" && r != buildDir + "/classes/"
    ensures output != buildDir + "/classes" && output != buildDir + "/classes/" ==> r == output
    ensures r == output || r == buildDir
  {
    if output == buildDir + "/classes" || output == buildDir + "/classes/" then buildDir else output
  }

  /** The per-variant name suffixes (customDescriptorEmpty, ...Thin, ...Fat). */
  datatype Descriptors = Descriptors(empty: string, thin: string, fat: string) {
    function For(v: Variant): string {
      match v
      case Empty => empty
      case Thin => thin
      case Fat => fat
    }

    /** No two variants share a suffix. */
    predicate Distinct() {
      empty != thin && thin != fat && empty != fat
    }
  }

  const DefaultDescriptors := Descriptors("-capsule-empty", "-capsule-thin", "-capsule-fat")

  function OutputName(finalName: string, d: Descriptors, v: Variant): string {
    finalName + d.For(v)
  }

  /** The archive of a variant: `{output}/{finalName}{suffix}.jar`. */
  function JarPath(output: string, finalName: string, d: Descriptors, v: Variant): (r: string)
    ensures EndsWith(r, ".jar")
  {
    output + "/" + OutputName(finalName, d, v) + ".jar"
  }

  /**
   * The directory openJar creates the archive in: the output directory, or
   * the directory below it that the archive's name names.
   */
  function JarDir(output: string, finalName: string, d: Descriptors, v: Variant): string {
    var name := OutputName(finalName, d, v);
    if '/' in name then output + "/" + Parent(name) else output
  }

  /** `JarDir` is the parent of the archive's path. */
  lemma JarDirIsParent(output: string, finalName: string, d: Descriptors, v: Variant)
    ensures Parent(JarPath(output, finalName, d, v)) == JarDir(output, finalName, d, v)
  {
    ParentOfFile(output, OutputName(finalName, d, v), ".jar");
  }


  /** Variants with different suffixes never write the same archive. */
  lemma DistinctSuffixesDistinctJars(output: string, finalName: string, d: Descriptors, v: Variant, w: Variant)
    requires d.For(v) != d.For(w)
    ensures JarPath(output, finalName, d, v) != JarPath(output, finalName, d, w)
  {
    var p, q := JarPath(output, finalName, d, v), JarPath(output, finalName, d, w);
    var n := |output + "/" + finalName|;
    assert p[n..|p| - 4] == d.For(v);
    assert q[n..|q| - 4] == d.For(w);
  }

  lemma DefaultJarsDistinct(output: string, finalName: string, v: Variant, w: Variant)
    requires v != w
    ensures JarPath(output, finalName, DefaultDescriptors, v) != JarPath(output, finalName, DefaultDescriptors, w)
  {
    var d := DefaultDescriptors;
    assert |d.For(v)| != |d.For(w)|;
    DistinctSuffixesDistinctJars(output, finalName, d, v, w);
  }

  // ---------------------------------------------------------------- executable copies

  /** A flag set to "true" or "1". */
  predicate IsOn(flag: string) {
    flag == "true" || flag == "1"
  }

  const ExecPrefix := "#!/bin/sh\n\nexec java -jar \"$0\" \"$@\"\n\n"
  const TrampolinePrefix := "#!/bin/sh\n\nexec java -Dcapsule.trampoline -jar \"$0\" \"$@\"\n\n"

  /** The copy's path as the source computes it: every ".jar" in the whole path is replaced. */
  function ExecCopyPathAsWritten(jarPath: string, extension: string): string {
    ReplaceAll(jarPath, ".jar", extension)
  }

  /**
   * A ".jar" in a directory name moves the copy to another directory: for
   * the archive `dir.jar/name.jar` (no other dot in the path) the copy is
   * `dir.x/name.x`, outside `dir.jar`, where the corrected path keeps it
   * (for instance "a.jar/b.jar" gives "a.x/b.x" instead of "a.jar/b.x").
   */
  lemma ExecCopyLeavesDirectory(dir: string, name: string, extension: string)
    requires '.' !in dir && '.' !in name
    ensures var jarPath := dir + ".jar/" + name + ".jar";
      && ExecCopyPathAsWritten(jarPath, extension) == dir + extension + "/" + name + extension
      && ExecCopyPath(jarPath, extension) == dir + ".jar/" + name + extension
  {
    var tail := "/" + name;
    assert '.' !in tail by {
      assert forall k :: 0 < k < |tail| ==> tail[k] == name[k - 1];
    }
    assert dir + ".jar/" + name + ".jar" == dir + (".jar" + (tail + ".jar"));
    ReplaceSkipsPrefix(dir, ".jar" + (tail + ".jar"), ".jar", extension);
    ReplaceLeading(tail + ".jar", ".jar", extension);
    ReplaceSkipsPrefix(tail, ".jar", ".jar", extension);
    ReplaceWhole(".jar", extension);
    assert dir + (extension + (tail + extension)) == dir + extension + "/" + name + extension;
    var jarPath := dir + ".jar/" + name + ".jar";
    assert jarPath[..|jarPath| - 4] == dir + ".jar/" + name;
  }

  /** The copy of the archive `dir.jar/name.jar`, as written, lies in the directory `dir` followed by the extension. */
  lemma ExecCopyDirectory(dir: string, name: string, extension: string)
    requires '.' !in dir && '.' !in name && '/' !in name && '/' !in extension
    ensures Parent(ExecCopyPathAsWritten(dir + ".jar/" + name + ".jar", extension)) == dir + extension
  {
    ExecCopyLeavesDirectory(dir, name, extension);
    assert dir + extension + "/" + name + extension == (dir + extension) + "/" + (name + extension);
    assert forall k :: 0 <= k < |name + extension| ==> (name + extension)[k] in name || (name + extension)[k] in extension;
    ParentOfChild(dir + extension, name + extension);
  }

  /** The copy's path: the archive's own path with its trailing ".jar" replaced. */
  function ExecCopyPath(jarPath: string, extension: string): (r: string)
    requires EndsWith(jarPath, ".jar")
    ensures StartsWith(r, jarPath[..|jarPath| - 4]) && EndsWith(r, extension)
    ensures extension != ".jar" ==> r != jarPath
  {
    jarPath[..|jarPath| - 4] + extension
  }

  /** When ".jar" occurs only at the end of the path, the replacement as written agrees with the corrected one. */
  lemma ExecCopyPathAgrees(jarPath: string, extension: string)
    requires EndsWith(jarPath, ".jar") && !Contains(jarPath[..|jarPath| - 1], ".jar")
    ensures ExecCopyPathAsWritten(jarPath, extension) == ExecCopyPath(jarPath, extension)
  {
    ReplaceOnlyTrailing(jarPath, ".jar", extension);
  }

  /**
   * The copies the source names are distinct from each other and from the
   * archive: the plain one ends with ".x", the trampoline one with ".tx", and
   * each replacement of ".jar" by shorter text shortens the path.
   */
  lemma ExecCopiesDistinct(jarPath: string)
    requires EndsWith(jarPath, ".jar")
    ensures var plain := ExecCopyPathAsWritten(jarPath, ".x");
      var tramp := ExecCopyPathAsWritten(jarPath, ".tx");
      && EndsWith(plain, ".x") && EndsWith(tramp, ".tx")
      && |plain| < |tramp| < |jarPath|
  {
    assert Unbordered(".jar");
    ReplaceAllEnds(jarPath, ".jar", ".x");
    ReplaceAllEnds(jarPath, ".jar", ".tx");
    ReplaceAllStrictlyLonger(jarPath, ".jar", ".x", ".tx");
    ReplaceAllStrictlyLonger(jarPath, ".jar", ".tx", ".jar");
    ReplaceAllSame(jarPath, ".jar");
  }
}
