/**
 * The string and byte operations the capsule builder relies on, written with
 * the semantics of the Java library methods it calls (String.contains,
 * String.split, String.replace, File.getName, String.getBytes("ASCII")).
 */
module Text {

  newtype byte = x: int | 0 <= x < 256

  predicate StartsWith(s: string, prefix: string) {
    |prefix| <= |s| && s[..|prefix|] == prefix
  }

  predicate EndsWith(s: string, suffix: string) {
    |suffix| <= |s| && s[|s| - |suffix|..] == suffix
  }

  /** String.contains: `t` occurs in `s` at some offset (the empty string occurs everywhere). */
  predicate Contains(s: string, t: string)
    decreases |s|
  {
    StartsWith(s, t) || (|s| > 0 && Contains(s[1..], t))
  }

  /** ASCII lower case, the folding used by case-insensitive manifest attribute names. */
  function Lower(c: char): char {
    if 'A' <= c <= 'Z' then (c as int + 32) as char else c
  }

  function Fold(s: string): (r: string)
    ensures |r| == |s|
    ensures forall i :: 0 <= i < |s| ==> r[i] == Lower(s[i])
  {
    seq(|s|, i requires 0 <= i < |s| => Lower(s[i]))
  }

  /**
   * String.replace(target, replacement): every occurrence of `target`, scanned
   * left to right without overlap, is replaced.
   */
  function ReplaceAll(s: string, target: string, replacement: string): string
    requires |target| > 0
    decreases |s|
  {
    if |s| < |target| then s
    else if s[..|target|] == target then replacement + ReplaceAll(s[|target|..], target, replacement)
    else [s[0]] + ReplaceAll(s[1..], target, replacement)
  }

  /** String.getBytes("ASCII"): a character outside ASCII becomes '?'. */
  function Ascii(s: string): seq<byte> {
    seq(|s|, i requires 0 <= i < |s| => if s[i] as int < 128 then s[i] as int as byte else 63 as byte)
  }

  /** File.getName(): what follows the last '/'. */
  function BaseName(path: string): (r: string)
    ensures EndsWith(path, r) && '/' !in r
    ensures |r| == |path| || path[|path| - |r| - 1] == '/'
  {
    if |path| == 0 then ""
    else if path[|path| - 1] == '/' then ""
    else
      var r := BaseName(path[..|path| - 1]) + [path[|path| - 1]];
      assert path[|path| - |r|..] == path[..|path| - 1][|path| - |r|..] + [path[|path| - 1]];
      r
  }

  /** The name of `dir/name` is `name` when `name` has no '/'. */
  lemma BaseNameOfChild(dir: string, name: string)
    requires '/' !in name
    ensures BaseName(dir + "/" + name) == name
  {
    var path := dir + "/" + name;
    var r := BaseName(path);
    var n := |path| - |name|;
    assert path[n - 1] == '/' && path[n..] == name;
  }

  /** File.getParent(): what precedes the last '/', or "" when there is none. */
  function Parent(path: string): string {
    var name := BaseName(path);
    if |name| == |path| then "" else path[..|path| - |name| - 1]
  }

  /** The parent of `dir/name` is `dir` when `name` has no '/'. */
  lemma ParentOfChild(dir: string, name: string)
    requires '/' !in name
    ensures Parent(dir + "/" + name) == dir
  {
    BaseNameOfChild(dir, name);
    var path := dir + "/" + name;
    assert path[..|path| - |name| - 1] == dir;
  }

  /** A path with a '/' is its parent, a '/' and its name. */
  lemma ParentSplit(path: string)
    requires '/' in path
    ensures path == Parent(path) + "/" + BaseName(path)
  {
    var q := BaseName(path);
    assert path[|path| - |q|..] == q;
    assert path == path[..|path| - |q| - 1] + "/" + path[|path| - |q|..];
  }

  /**
   * The parent of `dir/name{ext}`, for an extension without '/': `dir` when
   * the name has no '/', and otherwise `dir/` followed by the name's parent.
   */
  lemma ParentOfFile(dir: string, name: string, ext: string)
    requires '/' !in ext
    ensures Parent(dir + "/" + name + ext) == if '/' in name then dir + "/" + Parent(name) else dir
  {
    if '/' in name {
      var p, q := Parent(name), BaseName(name);
      ParentSplit(name);
      assert '/' !in q + ext;
      assert dir + "/" + name + ext == (dir + "/" + p) + "/" + (q + ext);
      ParentOfChild(dir + "/" + p, q + ext);
    } else {
      assert '/' !in name + ext;
      assert dir + "/" + name + ext == dir + "/" + (name + ext);
      ParentOfChild(dir, name + ext);
    }
  }

  /** The pieces between occurrences of `sep`, empty pieces kept: Pieces("a,,b", ',') == ["a", "", "b"]. */
  function Pieces(s: string, sep: char): (r: seq<string>)
    ensures |r| >= 1
    ensures forall k :: 0 <= k < |r| ==> sep !in r[k]
  {
    if |s| == 0 then [""]
    else if s[0] == sep then [""] + Pieces(s[1..], sep)
    else
      var p := Pieces(s[1..], sep);
      [[s[0]] + p[0]] + p[1..]
  }

  function DropTrailingEmpty(xs: seq<string>): (r: seq<string>)
    ensures r <= xs
    ensures r == [] || r[|r| - 1] != ""
    ensures forall k :: |r| <= k < |xs| ==> xs[k] == ""
  {
    if xs == [] then []
    else if xs[|xs| - 1] == "" then DropTrailingEmpty(xs[..|xs| - 1])
    else xs
  }

  /**
   * String.split with a one-character separator: the pieces between
   * separators, trailing empty pieces removed; a string without the separator
   * is returned whole.
   */
  function JavaSplit(s: string, sep: char): (r: seq<string>)
    ensures forall k :: 0 <= k < |r| ==> sep !in r[k]
  {
    if sep !in s then [s] else DropTrailingEmpty(Pieces(s, sep))
  }

  /** The elements of `xs` with `sep` between neighbours and nowhere else. */
  function JoinWith(xs: seq<string>, sep: char): string {
    if |xs| == 0 then ""
    else if |xs| == 1 then xs[0]
    else xs[0] + [sep] + JoinWith(xs[1..], sep)
  }

  lemma {:induction false} JoinWithSnoc(xs: seq<string>, x: string, sep: char)
    requires |xs| > 0
    ensures JoinWith(xs + [x], sep) == JoinWith(xs, sep) + [sep] + x
  {
    if |xs| == 1 {
      assert xs + [x] == [xs[0], x];
      assert (xs + [x])[1..] == [x];
    } else {
      assert (xs + [x])[1..] == xs[1..] + [x];
      JoinWithSnoc(xs[1..], x, sep);
    }
  }

  lemma {:induction false} PiecesWithoutSep(s: string, sep: char)
    requires sep !in s
    ensures Pieces(s, sep) == [s]
  {
    if |s| > 0 {
      PiecesWithoutSep(s[1..], sep);
      assert [s[0]] + s[1..] == s;
    }
  }

  lemma {:induction false} PiecesAppend(x: string, z: string, sep: char)
    ensures Pieces(x + [sep] + z, sep) == Pieces(x, sep) + Pieces(z, sep)
  {
    var s := x + [sep] + z;
    if |x| == 0 {
      assert s == [sep] + z;
      assert s[1..] == z;
    } else {
      assert s[0] == x[0];
      assert s[1..] == x[1..] + [sep] + z;
      PiecesAppend(x[1..], z, sep);
    }
  }

  /** Splitting what JoinWith produced gives back the pieces, when none contains the separator. */
  lemma {:induction false} SplitJoin(xs: seq<string>, sep: char)
    requires |xs| > 0
    requires forall k :: 0 <= k < |xs| ==> sep !in xs[k]
    ensures Pieces(JoinWith(xs, sep), sep) == xs
  {
    if |xs| == 1 {
      PiecesWithoutSep(xs[0], sep);
    } else {
      SplitJoin(xs[1..], sep);
      PiecesAppend(xs[0], JoinWith(xs[1..], sep), sep);
      PiecesWithoutSep(xs[0], sep);
      assert [xs[0]] + xs[1..] == xs;
    }
  }

  /** Joining the pieces of a string with their separator gives back the string. */
  lemma {:induction false} JoinSplit(s: string, sep: char)
    ensures JoinWith(Pieces(s, sep), sep) == s
  {
    if |s| > 0 {
      JoinSplit(s[1..], sep);
      var p := Pieces(s[1..], sep);
      if s[0] == sep {
        assert Pieces(s, sep) == [""] + p;
        assert ([""] + p)[1..] == p;
        assert [s[0]] + s[1..] == s;
      } else {
        var q := [[s[0]] + p[0]] + p[1..];
        assert Pieces(s, sep) == q;
        if |p| > 1 {
          assert q[1..] == p[1..];
          assert JoinWith(p, sep) == p[0] + [sep] + JoinWith(p[1..], sep);
        }
        assert [s[0]] + s[1..] == s;
      }
    }
  }

  lemma NoEarlyMatch(s: string, target: string)
    requires |target| < |s| && EndsWith(s, target) && !Contains(s[..|s| - 1], target)
    ensures s[..|target|] != target
    ensures EndsWith(s[1..], target)
    ensures !Contains(s[1..][..|s| - 2], target)
  {
    var init := s[..|s| - 1];
    assert init[..|target|] == s[..|target|];
    assert init[1..] == s[1..][..|s| - 2];
    assert s[1..][|s| - 1 - |target|..] == s[|s| - |target|..];
  }

  /** ReplaceAll on the target itself gives the replacement. */
  lemma ReplaceWhole(target: string, replacement: string)
    requires |target| > 0
    ensures ReplaceAll(target, target, replacement) == replacement
  {
    assert target[..|target|] == target && target[|target|..] == [];
    assert ReplaceAll(target, target, replacement) == replacement + ReplaceAll([], target, replacement);
  }

  /** One character that starts no match is kept in front of what ReplaceAll makes of the rest. */
  lemma ReplaceTrailingStep(s: string, target: string, replacement: string)
    requires 0 < |target| < |s| && s[..|target|] != target
    requires ReplaceAll(s[1..], target, replacement) == s[1..][..|s| - 1 - |target|] + replacement
    ensures ReplaceAll(s, target, replacement) == s[..|s| - |target|] + replacement
  {
    assert ReplaceAll(s, target, replacement) == [s[0]] + ReplaceAll(s[1..], target, replacement);
    assert [s[0]] + s[1..][..|s| - 1 - |target|] == s[..|s| - |target|];
  }

  /** ReplaceAll passes over a prefix in which the target's first character never occurs. */
  lemma {:induction false} ReplaceSkipsPrefix(p: string, t: string, target: string, replacement: string)
    requires |target| > 0 && target[0] !in p
    ensures ReplaceAll(p + t, target, replacement) == p + ReplaceAll(t, target, replacement)
    decreases |p|
  {
    if p != [] {
      var s := p + t;
      assert s[0] == p[0] && s[1..] == p[1..] + t;
      if |s| >= |target| {
        assert s[..|target|][0] != target[0];
      }
      ReplaceSkipsPrefix(p[1..], t, target, replacement);
      assert [p[0]] + p[1..] == p;
    } else {
      assert p + t == t;
    }
  }

  /** ReplaceAll on a string that starts with the target. */
  lemma ReplaceLeading(t: string, target: string, replacement: string)
    requires |target| > 0
    ensures ReplaceAll(target + t, target, replacement) == replacement + ReplaceAll(t, target, replacement)
  {
    var s := target + t;
    assert s[..|target|] == target && s[|target|..] == t;
  }

  /** ReplaceAll on a string whose only occurrence of the target is at its end replaces just that one. */
  lemma {:induction false} ReplaceOnlyTrailing(s: string, target: string, replacement: string)
    requires |target| > 0 && EndsWith(s, target)
    requires !Contains(s[..|s| - 1], target)
    ensures ReplaceAll(s, target, replacement) == s[..|s| - |target|] + replacement
    decreases |s|
  {
    if |s| == |target| {
      assert s == target;
      ReplaceWhole(target, replacement);
    } else {
      NoEarlyMatch(s, target);
      ReplaceOnlyTrailing(s[1..], target, replacement);
      ReplaceTrailingStep(s, target, replacement);
    }
  }

  /** Replacing the target by itself gives the string back. */
  lemma {:induction false} ReplaceAllSame(s: string, target: string)
    requires |target| > 0
    ensures ReplaceAll(s, target, target) == s
    decreases |s|
  {
    if |s| >= |target| {
      if s[..|target|] == target {
        ReplaceAllSame(s[|target|..], target);
        assert s[..|target|] + s[|target|..] == s;
      } else {
        ReplaceAllSame(s[1..], target);
        assert [s[0]] + s[1..] == s;
      }
    }
  }

  /** A longer replacement never gives a shorter result. */
  lemma {:induction false} ReplaceAllLonger(s: string, target: string, r1: string, r2: string)
    requires |target| > 0 && |r1| <= |r2|
    ensures |ReplaceAll(s, target, r1)| <= |ReplaceAll(s, target, r2)|
    decreases |s|
  {
    if |s| >= |target| {
      if s[..|target|] == target {
        ReplaceAllLonger(s[|target|..], target, r1, r2);
      } else {
        ReplaceAllLonger(s[1..], target, r1, r2);
      }
    }
  }

  /** A string that ends with the target has at least one replacement, so a longer replacement gives a strictly longer result. */
  lemma {:induction false} ReplaceAllStrictlyLonger(s: string, target: string, r1: string, r2: string)
    requires |target| > 0 && |r1| < |r2| && EndsWith(s, target)
    ensures |ReplaceAll(s, target, r1)| < |ReplaceAll(s, target, r2)|
    decreases |s|
  {
    if s[..|target|] == target {
      ReplaceAllLonger(s[|target|..], target, r1, r2);
    } else {
      assert s[..|target|] != s[|s| - |target|..];
      assert EndsWith(s[1..], target) by {
        assert s[1..][|s| - 1 - |target|..] == s[|s| - |target|..];
      }
      ReplaceAllStrictlyLonger(s[1..], target, r1, r2);
    }
  }

  /** A target whose first character does not occur again in it: two of its occurrences cannot overlap. */
  predicate Unbordered(t: string) {
    |t| > 0 && forall k :: 0 < k < |t| ==> t[k] != t[0]
  }

  /** A suffix survives any prefix. */
  lemma EndsWithAfter(prefix: string, s: string, suffix: string)
    requires EndsWith(s, suffix)
    ensures EndsWith(prefix + s, suffix)
  {
    assert (prefix + s)[|prefix + s| - |suffix|..] == s[|s| - |suffix|..];
  }

  /** Dropping a head shorter than what is left keeps the suffix. */
  lemma EndsWithDrop(s: string, suffix: string, m: nat)
    requires EndsWith(s, suffix) && m + |suffix| <= |s|
    ensures EndsWith(s[m..], suffix)
  {
    assert s[m..][|s| - m - |suffix|..] == s[|s| - |suffix|..];
  }

  /** An unbordered target that starts and ends a longer string occurs there twice without overlap. */
  lemma UnborderedApart(s: string, target: string)
    requires Unbordered(target) && EndsWith(s, target) && s[..|target|] == target && |s| > |target|
    ensures |s| >= 2 * |target|
  {
    var n := |target|;
    var k := |s| - n;
    assert s[k] == target[0] by {
      assert s[|s| - n..][0] == s[k];
    }
  }

  /** When such a target ends the string, the result ends with the replacement. */
  lemma {:induction false} ReplaceAllEnds(s: string, target: string, replacement: string)
    requires Unbordered(target) && EndsWith(s, target)
    ensures EndsWith(ReplaceAll(s, target, replacement), replacement)
    decreases |s|
  {
    var n := |target|;
    if s[..n] == target {
      var rest := s[n..];
      if |rest| == 0 {
        assert ReplaceAll(s, target, replacement) == replacement + [];
      } else {
        UnborderedApart(s, target);
        EndsWithDrop(s, target, n);
        ReplaceAllEnds(rest, target, replacement);
        EndsWithAfter(replacement, ReplaceAll(rest, target, replacement), replacement);
      }
    } else {
      assert s[..n] != s[|s| - n..];
      EndsWithDrop(s, target, 1);
      ReplaceAllEnds(s[1..], target, replacement);
      EndsWithAfter([s[0]], ReplaceAll(s[1..], target, replacement), replacement);
    }
  }
}
