/**
 * The manifest values the builder renders from its configuration: the
 * dependency list, the repository list, the system-property list and the JVM
 * argument list. Each is a reference definition (a function) and the
 * StringBuilder loop of the source (a method proved to compute it); lemmas
 * say how a consumer splitting the text on spaces or commas gets the items back.
 */
module Serialise {
  import opened Wrappers
  import opened Text
  import opened Config

  /** Each token followed by `t`: Terminated(["a", "b"], ' ') == "a b ". */
  function Terminated(xs: seq<string>, t: char): string {
    if xs == [] then "" else Terminated(xs[..|xs| - 1], t) + xs[|xs| - 1] + [t]
  }

  lemma {:induction false} TerminatedIsJoin(xs: seq<string>, t: char)
    ensures Terminated(xs, t) == JoinWith(xs + [""], t)
  {
    if xs != [] {
      var init, last := xs[..|xs| - 1], xs[|xs| - 1];
      TerminatedIsJoin(init, t);
      assert xs == init + [last];
      JoinWithSnoc(xs, "", t);
      if init == [] {
        assert init + [""] == [""];
      } else {
        JoinWithSnoc(init, "", t);
        JoinWithSnoc(init, last, t);
      }
    }
  }

  /** Splitting a terminated list on its terminator gives the tokens back, then one empty piece. */
  lemma TerminatedSplits(xs: seq<string>, t: char)
    requires forall k :: 0 <= k < |xs| ==> t !in xs[k]
    ensures Pieces(Terminated(xs, t), t) == xs + [""]
  {
    TerminatedIsJoin(xs, t);
    SplitJoin(xs + [""], t);
  }

  lemma TerminatedSnoc(xs: seq<string>, x: string, t: char)
    ensures Terminated(xs + [x], t) == Terminated(xs, t) + x + [t]
  {
    assert (xs + [x])[..|xs|] == xs;
  }

  lemma {:induction false} TerminatedEmpty(xs: seq<string>, t: char)
    ensures Terminated(xs, t) == "" <==> xs == []
  {
    if xs != [] {
      assert |Terminated(xs, t)| >= 1;
    }
  }

  // ---------------------------------------------------------------- dependencies

  function Gav(d: Dependency): string {
    d.groupId + ":" + d.artifactId + ":" + d.version
  }

  function ExclusionCoord(e: Exclusion): string {
    e.groupId + ":" + e.artifactId
  }

  function ExclusionCoords(ex: seq<Exclusion>): (r: seq<string>)
    ensures |r| == |ex|
  {
    seq(|ex|, i requires 0 <= i < |ex| => ExclusionCoord(ex[i]))
  }

  /** `g:a:v`, then `(g1:a1,g2:a2,...)` when the dependency has exclusions. */
  function DependencyCoords(d: Dependency): string {
    Gav(d) + if |d.exclusions| > 0 then "(" + JoinWith(ExclusionCoords(d.exclusions), ',') + ")" else ""
  }

  method GetDependencyCoordsWithExclusions(d: Dependency) returns (coords: string)
    ensures coords == DependencyCoords(d)
  {
    coords := Gav(d);
    var ex := d.exclusions;
    if |ex| > 0 {
      var list := "";
      var i := 0;
      while i < |ex|
        invariant 0 <= i <= |ex|
        invariant i == 0 ==> list == ""
        invariant i > 0 ==> list == JoinWith(ExclusionCoords(ex[..i]), ',')
      {
        assert ExclusionCoords(ex[..i + 1]) == ExclusionCoords(ex[..i]) + [ExclusionCoord(ex[i])];
        if i > 0 {
          list := list + ",";
          JoinWithSnoc(ExclusionCoords(ex[..i]), ExclusionCoord(ex[i]), ',');
        }
        list := list + ExclusionCoord(ex[i]);
        i := i + 1;
      }
      assert ex[..i] == ex;
      coords := coords + "(" + list + ")";
    }
  }

  /**
   * With exclusions, the coordinates end in a parenthesised list that splits
   * on commas into exactly one `g:a` per exclusion, in order (so no comma
   * trails); without, they are `g:a:v` alone.
   */
  lemma ExclusionListParses(d: Dependency)
    requires forall k :: 0 <= k < |d.exclusions| ==> ',' !in ExclusionCoord(d.exclusions[k])
    ensures |d.exclusions| == 0 ==> DependencyCoords(d) == Gav(d)
    ensures |d.exclusions| > 0 ==>
      var c := DependencyCoords(d);
      && StartsWith(c, Gav(d) + "(") && EndsWith(c, ")")
      && Pieces(c[|Gav(d)| + 1..|c| - 1], ',') == ExclusionCoords(d.exclusions)
  {
    if |d.exclusions| > 0 {
      var list := JoinWith(ExclusionCoords(d.exclusions), ',');
      var c := DependencyCoords(d);
      assert c == Gav(d) + "(" + list + ")";
      assert c[|Gav(d)| + 1..|c| - 1] == list;
      SplitJoin(ExclusionCoords(d.exclusions), ',');
    }
  }

  /** The scopes whose dependencies are listed: exactly "compile" and "runtime". */
  predicate IsPackagedScope(scope: string) {
    scope == "compile" || scope == "runtime"
  }

  /** The listed dependencies, in declaration order. */
  function PackagedDependencies(deps: seq<Dependency>): seq<Dependency> {
    if deps == [] then []
    else
      var init, last := deps[..|deps| - 1], deps[|deps| - 1];
      PackagedDependencies(init) + if IsPackagedScope(last.scope) then [last] else []
  }

  /** Exactly the compile- and runtime-scoped dependencies are listed. */
  lemma {:induction false} PackagedDependenciesExact(deps: seq<Dependency>)
    ensures forall d :: d in PackagedDependencies(deps) <==> d in deps && IsPackagedScope(d.scope)
    ensures |PackagedDependencies(deps)| <= |deps|
  {
    if deps != [] {
      var init := deps[..|deps| - 1];
      PackagedDependenciesExact(init);
      assert deps == init + [deps[|deps| - 1]];
    }
  }

  /** The coordinates of the listed dependencies, one token each, in order. */
  function DependencyTokens(deps: seq<Dependency>): seq<string> {
    if deps == [] then []
    else
      var init, last := deps[..|deps| - 1], deps[|deps| - 1];
      DependencyTokens(init) + if IsPackagedScope(last.scope) then [DependencyCoords(last)] else []
  }

  /** The k-th token is the coordinates of the k-th listed dependency. */
  lemma {:induction false} DependencyTokensAreCoords(deps: seq<Dependency>)
    ensures |DependencyTokens(deps)| == |PackagedDependencies(deps)|
    ensures forall k :: 0 <= k < |DependencyTokens(deps)| ==> DependencyTokens(deps)[k] == DependencyCoords(PackagedDependencies(deps)[k])
  {
    if deps != [] {
      DependencyTokensAreCoords(deps[..|deps| - 1]);
    }
  }

  function DependencyString(deps: seq<Dependency>): string {
    Terminated(DependencyTokens(deps), ' ')
  }

  method GetDependencyString(deps: seq<Dependency>) returns (list: string)
    ensures list == DependencyString(deps)
  {
    list := "";
    var i := 0;
    while i < |deps|
      invariant 0 <= i <= |deps|
      invariant list == Terminated(DependencyTokens(deps[..i]), ' ')
    {
      ghost var before := DependencyTokens(deps[..i]);
      assert deps[..i + 1][..i] == deps[..i];
      if IsPackagedScope(deps[i].scope) {
        var coords := GetDependencyCoordsWithExclusions(deps[i]);
        assert DependencyTokens(deps[..i + 1]) == before + [coords];
        TerminatedSnoc(before, coords, ' ');
        list := list + coords + " ";
      } else {
        assert DependencyTokens(deps[..i + 1]) == before;
      }
      i := i + 1;
    }
    assert deps[..i] == deps;
  }

  /**
   * The dependency list holds one token per compile- or runtime-scoped
   * dependency, in order, each followed by one space: splitting on spaces
   * gives the tokens and a final empty piece.
   */
  lemma DependencyStringParses(deps: seq<Dependency>)
    requires forall d :: d in deps && IsPackagedScope(d.scope) ==> ' ' !in DependencyCoords(d)
    ensures Pieces(DependencyString(deps), ' ') == DependencyTokens(deps) + [""]
  {
    var toks := DependencyTokens(deps);
    PackagedDependenciesExact(deps);
    DependencyTokensAreCoords(deps);
    forall k | 0 <= k < |toks| ensures ' ' !in toks[k] {
      assert PackagedDependencies(deps)[k] in PackagedDependencies(deps);
    }
    TerminatedSplits(toks, ' ');
  }

  /** A dependency of any other scope contributes nothing. */
  lemma {:induction false} OtherScopesIgnored(deps: seq<Dependency>, d: Dependency)
    requires !IsPackagedScope(d.scope)
    ensures DependencyString(deps + [d]) == DependencyString(deps)
  {
    assert (deps + [d])[..|deps|] == deps;
    assert DependencyTokens(deps + [d]) == DependencyTokens(deps);
  }

  // ---------------------------------------------------------------- repositories

  function RepoToken(r: Repository): string {
    r.id + "(" + r.url + ")"
  }

  function RepoTokens(repos: seq<Repository>): (r: seq<string>)
    ensures |r| == |repos|
  {
    seq(|repos|, i requires 0 <= i < |repos| => RepoToken(repos[i]))
  }

  function RepoString(repos: seq<Repository>): string {
    Terminated(RepoTokens(repos), ' ')
  }

  method GetRepoString(repos: seq<Repository>) returns (list: string)
    ensures list == RepoString(repos)
  {
    list := "";
    var i := 0;
    while i < |repos|
      invariant 0 <= i <= |repos|
      invariant list == Terminated(RepoTokens(repos[..i]), ' ')
    {
      assert RepoTokens(repos[..i + 1]) == RepoTokens(repos[..i]) + [RepoToken(repos[i])];
      TerminatedSnoc(RepoTokens(repos[..i]), RepoToken(repos[i]), ' ');
      list := list + repos[i].id + "(" + repos[i].url + ") ";
      i := i + 1;
    }
    assert repos[..i] == repos;
  }

  /** One `id(url)` token per repository, in order, each followed by a space. */
  lemma RepoStringParses(repos: seq<Repository>)
    requires forall k :: 0 <= k < |repos| ==> ' ' !in RepoToken(repos[k])
    ensures Pieces(RepoString(repos), ' ') == RepoTokens(repos) + [""]
  {
    TerminatedSplits(RepoTokens(repos), ' ');
  }

  // ---------------------------------------------------------------- system properties

  /** A property is written only when both its key and its value are set. */
  predicate IsComplete(p: Pair) {
    p.key.Some? && p.value.Some?
  }

  function PropertyToken(p: Pair): string
    requires IsComplete(p)
  {
    p.key.value + "=" + p.value.value
  }

  /** `k=v` for each complete pair, in order. */
  function PropertyTokens(ps: seq<Pair>): (r: seq<string>)
    ensures |r| <= |ps|
    ensures r == [] <==> forall k :: 0 <= k < |ps| ==> !IsComplete(ps[k])
  {
    if ps == [] then []
    else
      var init, last := ps[..|ps| - 1], ps[|ps| - 1];
      var r := PropertyTokens(init) + if IsComplete(last) then [PropertyToken(last)] else [];
      assert forall k :: 0 <= k < |init| ==> init[k] == ps[k];
      r
  }

  function PropertiesList(ps: seq<Pair>): string {
    Terminated(PropertyTokens(ps), ' ')
  }

  method GetPropertiesList(ps: seq<Pair>) returns (list: string)
    ensures list == PropertiesList(ps)
  {
    list := "";
    var i := 0;
    while i < |ps|
      invariant 0 <= i <= |ps|
      invariant list == Terminated(PropertyTokens(ps[..i]), ' ')
    {
      assert ps[..i + 1][..i] == ps[..i];
      var p := ps[i];
      if p.key.Some? && p.value.Some? {
        var token := p.key.value + "=" + p.value.value;
        assert token == PropertyToken(p);
        assert PropertyTokens(ps[..i + 1]) == PropertyTokens(ps[..i]) + [token];
        TerminatedSnoc(PropertyTokens(ps[..i]), token, ' ');
        list := list + token + " ";
      } else {
        assert PropertyTokens(ps[..i + 1]) == PropertyTokens(ps[..i]);
      }
      i := i + 1;
    }
    assert ps[..i] == ps;
  }

  /** The list is empty exactly when no pair has both a key and a value. */
  lemma PropertiesListEmpty(ps: seq<Pair>)
    ensures PropertiesList(ps) == "" <==> forall k :: 0 <= k < |ps| ==> !IsComplete(ps[k])
  {
    TerminatedEmpty(PropertyTokens(ps), ' ');
  }

  /**
   * getSystemPropertiesString: the configured properties when there are any,
   * else those of the exec plugin configuration, else null.
   */
  function SystemPropertiesString(properties: Option<seq<Pair>>, exec: Option<ExecConfig>): Option<string> {
    if properties.Some? then Some(PropertiesList(properties.value))
    else if exec.Some? then Some(PropertiesList(exec.value.systemProperties.GetOr([])))
    else None
  }

  method GetSystemPropertiesString(properties: Option<seq<Pair>>, exec: Option<ExecConfig>) returns (r: Option<string>)
    ensures r == SystemPropertiesString(properties, exec)
    ensures r.Some? <==> properties.Some? || exec.Some?
    ensures properties.Some? && (forall k :: 0 <= k < |properties.value| ==> !IsComplete(properties.value[k])) ==> r == Some("")
  {
    if properties.Some? {
      var list := GetPropertiesList(properties.value);
      r := Some(list);
      PropertiesListEmpty(properties.value);
    } else if exec.Some? {
      var list := "";
      match exec.value.systemProperties {
        case Some(elements) =>
          if |elements| > 0 {
            list := GetPropertiesList(elements);
          }
        case None =>
      }
      r := Some(list);
    } else {
      r := None;
    }
  }

  // ---------------------------------------------------------------- JVM arguments

  /** Each argument value with its spaces removed; arguments without a value are skipped. */
  function ArgTokens(args: seq<Option<string>>): (r: seq<string>)
    ensures |r| <= |args|
  {
    if args == [] then []
    else
      var init, last := args[..|args| - 1], args[|args| - 1];
      ArgTokens(init) + if last.Some? then [ReplaceAll(last.value, " ", "")] else []
  }

  /** The JVM-Args value: present when the exec configuration has a non-empty `arguments` element. */
  function JvmArgs(exec: Option<ExecConfig>): Option<string> {
    if exec.Some? && exec.value.arguments.Some? && |exec.value.arguments.value| > 0 then
      Some(Terminated(ArgTokens(exec.value.arguments.value), ' '))
    else None
  }

  method GetJvmArgs(exec: Option<ExecConfig>) returns (r: Option<string>)
    ensures r == JvmArgs(exec)
  {
    r := None;
    if exec.Some? && exec.value.arguments.Some? {
      var args := exec.value.arguments.value;
      if |args| > 0 {
        var list := "";
        var i := 0;
        while i < |args|
          invariant 0 <= i <= |args|
          invariant list == Terminated(ArgTokens(args[..i]), ' ')
        {
          assert args[..i + 1][..i] == args[..i];
          if args[i].Some? {
            assert ArgTokens(args[..i + 1]) == ArgTokens(args[..i]) + [ReplaceAll(args[i].value, " ", "")];
            TerminatedSnoc(ArgTokens(args[..i]), ReplaceAll(args[i].value, " ", ""), ' ');
            list := list + ReplaceAll(args[i].value, " ", "") + " ";
          } else {
            assert ArgTokens(args[..i + 1]) == ArgTokens(args[..i]);
          }
          i := i + 1;
        }
        assert args[..i] == args;
        r := Some(list);
      }
    }
  }

  lemma {:induction false} NoSpaceLeft(s: string)
    ensures ' ' !in ReplaceAll(s, " ", "")
    decreases |s|
  {
    if |s| >= 1 {
      if s[..1] == " " {
        NoSpaceLeft(s[1..]);
      } else {
        NoSpaceLeft(s[1..]);
      }
    }
  }

  /** No argument token keeps a space, so the JVM-Args value splits back into exactly the tokens. */
  lemma JvmArgsParse(exec: Option<ExecConfig>)
    requires JvmArgs(exec).Some?
    ensures Pieces(JvmArgs(exec).value, ' ') == ArgTokens(exec.value.arguments.value) + [""]
  {
    var toks := ArgTokens(exec.value.arguments.value);
    ArgTokensHaveNoSpace(exec.value.arguments.value);
    TerminatedSplits(toks, ' ');
  }

  lemma {:induction false} ArgTokensHaveNoSpace(args: seq<Option<string>>)
    ensures forall k :: 0 <= k < |ArgTokens(args)| ==> ' ' !in ArgTokens(args)[k]
  {
    if args != [] {
      ArgTokensHaveNoSpace(args[..|args| - 1]);
      if args[|args| - 1].Some? {
        NoSpaceLeft(args[|args| - 1].value);
      }
    }
  }
}
