/**
 * The manifest a capsule carries. The main section is written pair by pair in
 * a fixed order, so a later write of a name (compared without regard to ASCII
 * case) overrides an earlier one; user entries come last and override
 * everything. Each named mode becomes a section of its own.
 */
module CapsuleManifest {
  import opened Wrappers
  import opened Text
  import opened JarManifest
  import opened Config
  import opened Serialise

  /** The optional System-Properties entry, then the optional JVM-Args entry. */
  function OptionalPairs(systemProperties: Option<string>, jvmArgs: Option<string>): seq<Attr> {
    (if systemProperties.Some? then [Attr("System-Properties", systemProperties.value)] else [])
      + (if jvmArgs.Some? then [Attr("JVM-Args", jvmArgs.value)] else [])
  }

  /** The Caplets entry, written only for a non-empty caplet list. */
  function CapletPairs(caplets: string): seq<Attr> {
    if |caplets| > 0 then [Attr("Caplets", caplets)] else []
  }

  /** Writing the caplet pairs puts the list when it is not empty and leaves the attributes alone otherwise. */
  lemma PutCaplets(a: Attributes, caplets: string)
    ensures PutAll(a, CapletPairs(caplets)) == if |caplets| > 0 then Put(a, "Caplets", caplets) else a
  {
    assert [Attr("Caplets", caplets)][..0] == [];
  }

  /** The four fixed entries, in the order they are written. */
  function FixedPairs(mainClass: string, appClass: string, appName: string): seq<Attr> {
    [Attr("Manifest-Version", "1.0"), Attr("Main-Class", mainClass), Attr("Application-Class", appClass), Attr("Application-Name", appName)]
  }

  /**
   * Every write to the main section, in order: the fixed entries, the optional
   * ones, the variant's additional attributes, the caplets and the user's entries.
   */
  function MainPairs(mainClass: string, appClass: string, appName: string, systemProperties: Option<string>,
                     jvmArgs: Option<string>, extras: seq<Attr>, caplets: string, user: seq<Attr>): seq<Attr>
  {
    FixedPairs(mainClass, appClass, appName)
      + OptionalPairs(systemProperties, jvmArgs) + extras + CapletPairs(caplets) + user
  }

  function MainSection(mainClass: string, appClass: string, appName: string, systemProperties: Option<string>,
                       jvmArgs: Option<string>, extras: seq<Attr>, caplets: string, user: seq<Attr>): Attributes
  {
    PutAll(NoAttributes, MainPairs(mainClass, appClass, appName, systemProperties, jvmArgs, extras, caplets, user))
  }

  /** The main section is the result of writing its groups of entries one group after another. */
  lemma MainSectionInGroups(mainClass: string, appClass: string, appName: string, systemProperties: Option<string>,
                            jvmArgs: Option<string>, extras: seq<Attr>, caplets: string, user: seq<Attr>)
    ensures MainSection(mainClass, appClass, appName, systemProperties, jvmArgs, extras, caplets, user)
      == PutAll(PutAll(PutAll(PutAll(PutAll(NoAttributes, FixedPairs(mainClass, appClass, appName)),
                                     OptionalPairs(systemProperties, jvmArgs)), extras), CapletPairs(caplets)), user)
  {
    var fixed := FixedPairs(mainClass, appClass, appName);
    var optional := OptionalPairs(systemProperties, jvmArgs);
    PutAllAppend(NoAttributes, fixed, optional);
    PutAllAppend(NoAttributes, fixed + optional, extras);
    PutAllAppend(NoAttributes, fixed + optional + extras, CapletPairs(caplets));
    PutAllAppend(NoAttributes, fixed + optional + extras + CapletPairs(caplets), user);
  }

  /** The last write in `xs + ys` of a name is the last in `ys`, if any, else the last in `xs`. */
  lemma {:induction false} LastValueAppend(xs: seq<Attr>, ys: seq<Attr>, name: string)
    ensures LastValue(xs + ys, name) == if LastValue(ys, name).Some? then LastValue(ys, name) else LastValue(xs, name)
    decreases |ys|
  {
    if ys != [] {
      var init := ys[..|ys| - 1];
      assert (xs + ys)[..|xs + ys| - 1] == xs + init;
      LastValueAppend(xs, init, name);
    } else {
      assert xs + ys == xs;
    }
  }

  /** No pair of the list writes the name. */
  predicate Silent(pairs: seq<Attr>, name: string) {
    forall k :: 0 <= k < |pairs| ==> Fold(pairs[k].name) != Fold(name)
  }

  lemma {:induction false} SilentHasNoValue(pairs: seq<Attr>, name: string)
    requires Silent(pairs, name)
    ensures LastValue(pairs, name).None?
  {
    if pairs != [] {
      SilentHasNoValue(pairs[..|pairs| - 1], name);
    }
  }

  /** Two names whose first letters differ after folding are different attributes. */
  lemma DifferentNames(a: string, b: string)
    requires |a| > 0 && |b| > 0 && (|a| != |b| || Lower(a[0]) != Lower(b[0]))
    ensures Fold(a) != Fold(b)
  {
    if |a| == |b| {
      assert Fold(a)[0] != Fold(b)[0];
    }
  }

  /**
   * What the main section holds for a name: the user's last entry for it,
   * else the caplet list, else the last additional attribute, else the
   * optional and then the fixed entries.
   */
  lemma MainSectionPrecedence(mainClass: string, appClass: string, appName: string, systemProperties: Option<string>,
                              jvmArgs: Option<string>, extras: seq<Attr>, caplets: string, user: seq<Attr>, name: string)
    ensures Get(MainSection(mainClass, appClass, appName, systemProperties, jvmArgs, extras, caplets, user), name)
      == if LastValue(user, name).Some? then LastValue(user, name)
         else if LastValue(CapletPairs(caplets), name).Some? then LastValue(CapletPairs(caplets), name)
         else if LastValue(extras, name).Some? then LastValue(extras, name)
         else LastValue(FixedPairs(mainClass, appClass, appName) + OptionalPairs(systemProperties, jvmArgs), name)
  {
    var fixed := FixedPairs(mainClass, appClass, appName)
      + OptionalPairs(systemProperties, jvmArgs);
    PutAllGet(NoAttributes, MainPairs(mainClass, appClass, appName, systemProperties, jvmArgs, extras, caplets, user), name);
    LastValueAppend(fixed + extras + CapletPairs(caplets), user, name);
    LastValueAppend(fixed + extras, CapletPairs(caplets), name);
    LastValueAppend(fixed, extras, name);
  }

  /** The user's entries override everything the builder writes. */
  lemma UserEntriesWin(mainClass: string, appClass: string, appName: string, systemProperties: Option<string>,
                       jvmArgs: Option<string>, extras: seq<Attr>, caplets: string, user: seq<Attr>, k: int)
    requires 0 <= k < |user| && Silent(user[k + 1..], user[k].name)
    ensures Get(MainSection(mainClass, appClass, appName, systemProperties, jvmArgs, extras, caplets, user), user[k].name)
      == Some(user[k].value)
  {
    var name := user[k].name;
    assert LastValue(user, name) == Some(user[k].value) by {
      assert user == user[..k + 1] + user[k + 1..];
      SilentHasNoValue(user[k + 1..], name);
      LastValueAppend(user[..k + 1], user[k + 1..], name);
      assert user[..k + 1][k] == user[k];
    }
    MainSectionPrecedence(mainClass, appClass, appName, systemProperties, jvmArgs, extras, caplets, user, name);
  }

  lemma FixedMainClass(mainClass: string, appClass: string, appName: string)
    ensures LastValue(FixedPairs(mainClass, appClass, appName), "Main-Class") == Some(mainClass)
  {
    var fixed := FixedPairs(mainClass, appClass, appName);
    DifferentNames("Application-Name", "Main-Class");
    DifferentNames("Application-Class", "Main-Class");
    var name := "Main-Class";
    assert fixed[..3] == [fixed[0], fixed[1], fixed[2]];
    assert fixed[..3][..2] == [fixed[0], fixed[1]];
    assert LastValue(fixed, name) == LastValue(fixed[..3], name);
    assert LastValue(fixed[..3], name) == LastValue(fixed[..3][..2], name);
  }

  /** Main-Class is the capsule's launcher class unless an additional attribute or a user entry says otherwise. */
  lemma MainClassIsLauncher(mainClass: string, appClass: string, appName: string, systemProperties: Option<string>,
                            jvmArgs: Option<string>, extras: seq<Attr>, caplets: string, user: seq<Attr>)
    requires Silent(extras, "Main-Class") && Silent(user, "Main-Class")
    ensures Get(MainSection(mainClass, appClass, appName, systemProperties, jvmArgs, extras, caplets, user), "Main-Class")
      == Some(mainClass)
  {
    var name := "Main-Class";
    MainSectionPrecedence(mainClass, appClass, appName, systemProperties, jvmArgs, extras, caplets, user, name);
    SilentHasNoValue(extras, name);
    SilentHasNoValue(user, name);
    NoBuilderMainClass(systemProperties, jvmArgs, caplets);
    LastValueAppend(FixedPairs(mainClass, appClass, appName), OptionalPairs(systemProperties, jvmArgs), name);
    FixedMainClass(mainClass, appClass, appName);
  }

  /** Neither the optional entries nor the caplet list write Main-Class. */
  lemma NoBuilderMainClass(systemProperties: Option<string>, jvmArgs: Option<string>, caplets: string)
    ensures LastValue(OptionalPairs(systemProperties, jvmArgs), "Main-Class").None?
    ensures LastValue(CapletPairs(caplets), "Main-Class").None?
  {
    var name := "Main-Class";
    DifferentNames("Caplets", name);
    assert Silent(CapletPairs(caplets), name);
    SilentHasNoValue(CapletPairs(caplets), name);
    DifferentNames("System-Properties", name);
    DifferentNames("JVM-Args", name);
    var opt := OptionalPairs(systemProperties, jvmArgs);
    assert Silent(opt, name);
    SilentHasNoValue(opt, name);
  }

  lemma SilentFixed(mainClass: string, appClass: string, appName: string, name: string)
    requires Fold(name) != Fold("Manifest-Version") && Fold(name) != Fold("Main-Class")
    requires Fold(name) != Fold("Application-Class") && Fold(name) != Fold("Application-Name")
    ensures LastValue(FixedPairs(mainClass, appClass, appName), name).None?
  {
    assert Silent(FixedPairs(mainClass, appClass, appName), name);
    SilentHasNoValue(FixedPairs(mainClass, appClass, appName), name);
  }

  lemma OptionalValue(systemProperties: Option<string>, jvmArgs: Option<string>, name: string)
    requires Fold(name) != Fold("JVM-Args")
    ensures LastValue(OptionalPairs(systemProperties, jvmArgs), name)
      == if Fold(name) == Fold("System-Properties") then systemProperties else None
  {
    var sp := if systemProperties.Some? then [Attr("System-Properties", systemProperties.value)] else [];
    var ja := if jvmArgs.Some? then [Attr("JVM-Args", jvmArgs.value)] else [];
    assert Silent(ja, name);
    SilentHasNoValue(ja, name);
    LastValueAppend(sp, ja, name);
    if systemProperties.Some? {
      assert sp[..0] == [];
    }
  }

  /**
   * System-Properties holds the serialised properties exactly when there are
   * some, unless an additional attribute or a user entry writes it.
   */
  lemma SystemPropertiesEntry(mainClass: string, appClass: string, appName: string, systemProperties: Option<string>,
                              jvmArgs: Option<string>, extras: seq<Attr>, caplets: string, user: seq<Attr>)
    requires Silent(extras, "System-Properties") && Silent(user, "System-Properties")
    ensures Get(MainSection(mainClass, appClass, appName, systemProperties, jvmArgs, extras, caplets, user), "System-Properties")
      == systemProperties
  {
    var name := "System-Properties";
    MainSectionPrecedence(mainClass, appClass, appName, systemProperties, jvmArgs, extras, caplets, user, name);
    SilentHasNoValue(extras, name);
    SilentHasNoValue(user, name);
    DifferentNames("Caplets", name);
    assert Silent(CapletPairs(caplets), name);
    SilentHasNoValue(CapletPairs(caplets), name);
    DifferentNames("JVM-Args", name);
    DifferentNames("Manifest-Version", name);
    DifferentNames("Main-Class", name);
    DifferentNames("Application-Class", name);
    DifferentNames("Application-Name", name);
    SilentFixed(mainClass, appClass, appName, name);
    OptionalValue(systemProperties, jvmArgs, name);
    LastValueAppend(FixedPairs(mainClass, appClass, appName), OptionalPairs(systemProperties, jvmArgs), name);
  }

  /** A Caplets entry is written exactly when the caplet list is non-empty (user entries aside). */
  lemma CapletsEntry(mainClass: string, appClass: string, appName: string, systemProperties: Option<string>,
                     jvmArgs: Option<string>, extras: seq<Attr>, caplets: string, user: seq<Attr>)
    requires Silent(extras, "Caplets") && Silent(user, "Caplets")
    ensures Get(MainSection(mainClass, appClass, appName, systemProperties, jvmArgs, extras, caplets, user), "Caplets")
      == if |caplets| > 0 then Some(caplets) else None
  {
    var name := "Caplets";
    MainSectionPrecedence(mainClass, appClass, appName, systemProperties, jvmArgs, extras, caplets, user, name);
    SilentHasNoValue(extras, name);
    SilentHasNoValue(user, name);
    DifferentNames("System-Properties", name);
    DifferentNames("JVM-Args", name);
    DifferentNames("Manifest-Version", name);
    DifferentNames("Main-Class", name);
    DifferentNames("Application-Class", name);
    DifferentNames("Application-Name", name);
    SilentFixed(mainClass, appClass, appName, name);
    OptionalValue(systemProperties, jvmArgs, name);
    LastValueAppend(FixedPairs(mainClass, appClass, appName), OptionalPairs(systemProperties, jvmArgs), name);
    if |caplets| > 0 {
      assert CapletPairs(caplets)[..0] == [];
    }
  }

  // ---------------------------------------------------------------- mode sections

  /** A mode's section: its manifest entries, then its System-Properties if it has complete properties. */
  function ModeAttributes(m: Mode): Attributes {
    var entries := PutAll(NoAttributes, m.manifest);
    var props := PropertiesList(m.properties);
    if |props| > 0 then Put(entries, "System-Properties", props) else entries
  }

  /** What a mode offers for the sections: its name and its attributes. */
  datatype Candidate = Candidate(name: Option<string>, attributes: Attributes)

  predicate Writes(c: Candidate, name: string) {
    c.name == Some(name) && |c.attributes.entries| > 0
  }

  /** Candidates in order; an unnamed or empty one is skipped, a later one of the same name replaces an earlier one. */
  function Place(cs: seq<Candidate>): map<string, Attributes> {
    if cs == [] then map[]
    else
      var before, c := Place(cs[..|cs| - 1]), cs[|cs| - 1];
      if c.name.None? || |c.attributes.entries| == 0 then before else before[c.name.value := c.attributes]
  }

  function Candidates(modes: seq<Mode>): (r: seq<Candidate>)
    ensures |r| == |modes|
  {
    seq(|modes|, i requires 0 <= i < |modes| => Candidate(modes[i].name, ModeAttributes(modes[i])))
  }

  lemma CandidatesSnoc(modes: seq<Mode>, m: Mode)
    ensures Candidates(modes + [m]) == Candidates(modes) + [Candidate(m.name, ModeAttributes(m))]
  {
  }

  lemma PlaceSnoc(cs: seq<Candidate>, c: Candidate)
    ensures Place(cs + [c]) == if c.name.None? || |c.attributes.entries| == 0 then Place(cs) else Place(cs)[c.name.value := c.attributes]
  {
    assert (cs + [c])[..|cs|] == cs;
  }

  /** The named sections of the manifest. */
  function Sections(modes: seq<Mode>): map<string, Attributes> {
    Place(Candidates(modes))
  }

  /** A mode gets a section when it is named and its section is not empty. */
  predicate WritesSection(m: Mode, name: string) {
    m.name == Some(name) && |ModeAttributes(m).entries| > 0
  }

  /** One warning per mode without a name. */
  function UnnamedWarnings(modes: seq<Mode>): seq<Warning> {
    if modes == [] then []
    else UnnamedWarnings(modes[..|modes| - 1]) + if modes[|modes| - 1].name.None? then [UnnamedMode] else []
  }

  /** One more mode: its section is placed over the earlier ones, and a missing name adds a warning. */
  lemma SectionsStep(modes: seq<Mode>, i: nat)
    requires i < |modes|
    ensures Sections(modes[..i + 1]) ==
      if modes[i].name.None? || |ModeAttributes(modes[i]).entries| == 0 then Sections(modes[..i])
      else Sections(modes[..i])[modes[i].name.value := ModeAttributes(modes[i])]
    ensures UnnamedWarnings(modes[..i + 1]) == UnnamedWarnings(modes[..i]) + if modes[i].name.None? then [UnnamedMode] else []
  {
    assert modes[..i + 1] == modes[..i] + [modes[i]];
    assert modes[..i + 1][..i] == modes[..i];
    CandidatesSnoc(modes[..i], modes[i]);
    PlaceSnoc(Candidates(modes[..i]), Candidate(modes[i].name, ModeAttributes(modes[i])));
  }

  /** The section of a named mode is stored under its name unless the mode writes nothing. */
  method AddModeSection(sections: map<string, Attributes>, m: Mode) returns (r: map<string, Attributes>)
    requires m.name.Some?
    ensures r == if |ModeAttributes(m).entries| == 0 then sections else sections[m.name.value := ModeAttributes(m)]
  {
    var attributes := BuildModeAttributes(m);
    r := sections;
    if |attributes.entries| > 0 {
      r := sections[m.name.value := attributes];
    }
  }

  method PutPairs(a: Attributes, pairs: seq<Attr>) returns (r: Attributes)
    ensures r == PutAll(a, pairs)
  {
    r := a;
    var i := 0;
    while i < |pairs|
      invariant 0 <= i <= |pairs|
      invariant r == PutAll(a, pairs[..i])
    {
      PutAllStep(a, pairs, i);
      r := Put(r, pairs[i].name, pairs[i].value);
      i := i + 1;
    }
    assert pairs[..i] == pairs;
  }

  /** The attributes of one mode's section, as the builder assembles them. */
  method BuildModeAttributes(m: Mode) returns (a: Attributes)
    ensures a == ModeAttributes(m)
  {
    a := PutPairs(NoAttributes, m.manifest);
    var props := GetPropertiesList(m.properties);
    if |props| > 0 {
      a := Put(a, "System-Properties", props);
    }
  }

  /** A mode's System-Properties override its own manifest entry of that name; other names come from its entries. */
  lemma ModeAttributesGet(m: Mode, name: string)
    ensures Get(ModeAttributes(m), name)
      == if Fold(name) == Fold("System-Properties") && PropertiesList(m.properties) != "" then Some(PropertiesList(m.properties))
         else LastValue(m.manifest, name)
  {
    PutAllGet(NoAttributes, m.manifest, name);
  }

  /** A mode's section is empty exactly when it has no manifest entries and no complete property. */
  lemma ModeAttributesEmpty(m: Mode)
    ensures |ModeAttributes(m).entries| == 0 <==>
      m.manifest == [] && forall k :: 0 <= k < |m.properties| ==> !IsComplete(m.properties[k])
  {
    PutAllEmpty(NoAttributes, m.manifest);
    PropertiesListEmpty(m.properties);
    var props := PropertiesList(m.properties);
    if |props| > 0 {
      assert Fold("System-Properties") in ModeAttributes(m).entries;
    }
  }

  /** A name is placed exactly when some candidate writes it. */
  lemma {:induction false} PlaceHas(cs: seq<Candidate>, name: string)
    ensures name in Place(cs) <==> exists i :: 0 <= i < |cs| && Writes(cs[i], name)
  {
    if cs != [] {
      var init, c := cs[..|cs| - 1], cs[|cs| - 1];
      PlaceHas(init, name);
      if Writes(c, name) {
        assert Writes(cs[|cs| - 1], name);
      } else {
        if name in Place(cs) {
          var i :| 0 <= i < |init| && Writes(init[i], name);
          assert cs[i] == init[i];
        }
        if exists i :: 0 <= i < |cs| && Writes(cs[i], name) {
          var i :| 0 <= i < |cs| && Writes(cs[i], name);
          assert cs[i] == init[i];
        }
      }
    }
  }

  /** A placed name holds the attributes of the last candidate that writes it. */
  lemma {:induction false} PlaceLastWins(cs: seq<Candidate>, name: string, i: int)
    requires 0 <= i < |cs| && Writes(cs[i], name)
    requires forall j :: i < j < |cs| ==> !Writes(cs[j], name)
    ensures name in Place(cs) && Place(cs)[name] == cs[i].attributes
  {
    var init := cs[..|cs| - 1];
    if i < |cs| - 1 {
      PlaceLastWins(init, name, i);
    }
  }

  /**
   * A section exists for a name exactly when some mode writes it, and it
   * holds the attributes of the last mode that does.
   */
  lemma SectionsLastWins(modes: seq<Mode>, name: string)
    ensures name in Sections(modes) <==> exists i :: 0 <= i < |modes| && WritesSection(modes[i], name)
    ensures forall i :: (0 <= i < |modes| && WritesSection(modes[i], name)
      && (forall j :: i < j < |modes| ==> !WritesSection(modes[j], name))
      ==> Sections(modes)[name] == ModeAttributes(modes[i]))
  {
    var cs := Candidates(modes);
    PlaceHas(cs, name);
    assert forall i :: 0 <= i < |modes| ==> (Writes(cs[i], name) <==> WritesSection(modes[i], name));
    forall i | 0 <= i < |modes| && WritesSection(modes[i], name) && (forall j :: i < j < |modes| ==> !WritesSection(modes[j], name))
      ensures Sections(modes)[name] == ModeAttributes(modes[i])
    {
      PlaceLastWins(cs, name, i);
    }
  }

  /** The whole manifest of one variant. */
  function CapsuleManifestOf(main: Attributes, modes: seq<Mode>): Manifest {
    Manifest(main, Sections(modes))
  }
}
