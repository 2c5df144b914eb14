/**
 * The JAR manifest as the builder fills it: a main section and named
 * sections, each an attribute map whose names compare without regard to ASCII
 * case (java.util.jar.Attributes keyed by Attributes.Name). Writing an existing
 * name replaces its value and keeps the spelling of the first writer, as a
 * HashMap put keeps its original key.
 */
module JarManifest {
  import opened Wrappers
  import opened Text

  /** A name/value pair as configured (the source's Pair<String, String> of a manifest entry). */
  datatype Attr = Attr(name: string, value: string)

  /** The stored spelling of an attribute name and its current value. */
  datatype Named = Named(name: string, value: string)

  /** Attributes keyed by the folded name. */
  datatype Attributes = Attributes(entries: map<string, Named>)

  datatype Manifest = Manifest(main: Attributes, sections: map<string, Attributes>)

  const NoAttributes := Attributes(map[])

  function Get(a: Attributes, name: string): Option<string> {
    if Fold(name) in a.entries then Some(a.entries[Fold(name)].value) else None
  }

  /** Attributes.put: the last write for a name wins, whatever its case. */
  function Put(a: Attributes, name: string, value: string): (r: Attributes)
    ensures forall n {:trigger Get(r, n)} :: Fold(n) == Fold(name) ==> Get(r, n) == Some(value)
    ensures forall n {:trigger Get(r, n)} :: Fold(n) != Fold(name) ==> Get(r, n) == Get(a, n)
    ensures Fold(name) in r.entries
    ensures Fold(name) in a.entries ==> r.entries[Fold(name)].name == a.entries[Fold(name)].name
  {
    var k := Fold(name);
    var spelling := if k in a.entries then a.entries[k].name else name;
    Attributes(a.entries[k := Named(spelling, value)])
  }

  /** Puts the pairs in order. */
  function PutAll(a: Attributes, pairs: seq<Attr>): Attributes {
    if pairs == [] then a
    else
      var last := pairs[|pairs| - 1];
      Put(PutAll(a, pairs[..|pairs| - 1]), last.name, last.value)
  }

  lemma PutAllSnoc(a: Attributes, pairs: seq<Attr>, p: Attr)
    ensures PutAll(a, pairs + [p]) == Put(PutAll(a, pairs), p.name, p.value)
  {
    assert (pairs + [p])[..|pairs|] == pairs;
  }

  /** Putting one more pair of a list after those before it. */
  lemma PutAllStep(a: Attributes, pairs: seq<Attr>, i: int)
    requires 0 <= i < |pairs|
    ensures PutAll(a, pairs[..i + 1]) == Put(PutAll(a, pairs[..i]), pairs[i].name, pairs[i].value)
  {
    assert pairs[..i + 1] == pairs[..i] + [pairs[i]];
    PutAllSnoc(a, pairs[..i], pairs[i]);
  }

  /** Putting two lists is putting their concatenation. */
  lemma {:induction false} PutAllAppend(a: Attributes, xs: seq<Attr>, ys: seq<Attr>)
    ensures PutAll(a, xs + ys) == PutAll(PutAll(a, xs), ys)
    decreases |ys|
  {
    if ys == [] {
      assert xs + ys == xs;
    } else {
      var init, last := ys[..|ys| - 1], ys[|ys| - 1];
      assert xs + ys == (xs + init) + [last];
      assert ys == init + [last];
      calc {
        PutAll(a, xs + ys);
        { PutAllSnoc(a, xs + init, last); }
        Put(PutAll(a, xs + init), last.name, last.value);
        { PutAllAppend(a, xs, init); }
        Put(PutAll(PutAll(a, xs), init), last.name, last.value);
        { PutAllSnoc(PutAll(a, xs), init, last); }
        PutAll(PutAll(a, xs), ys);
      }
    }
  }

  /** The value of the last pair whose name folds to the same name as `name`. */
  function LastValue(pairs: seq<Attr>, name: string): Option<string> {
    if pairs == [] then None
    else if Fold(pairs[|pairs| - 1].name) == Fold(name) then Some(pairs[|pairs| - 1].value)
    else LastValue(pairs[..|pairs| - 1], name)
  }

  /** A value written by a later pair overrides everything before it. */
  lemma {:induction false} PutAllGet(a: Attributes, pairs: seq<Attr>, name: string)
    ensures Get(PutAll(a, pairs), name) == if LastValue(pairs, name).Some? then LastValue(pairs, name) else Get(a, name)
  {
    if pairs != [] {
      PutAllGet(a, pairs[..|pairs| - 1], name);
    }
  }

  /** PutAll over a non-empty list yields a non-empty section, and nothing comes from nothing. */
  lemma {:induction false} PutAllEmpty(a: Attributes, pairs: seq<Attr>)
    ensures |PutAll(a, pairs).entries| == 0 <==> |a.entries| == 0 && pairs == []
  {
    if pairs != [] {
      var last := pairs[|pairs| - 1];
      PutAllEmpty(a, pairs[..|pairs| - 1]);
      var r := PutAll(a, pairs);
      assert Fold(last.name) in r.entries;
    }
  }

  /** Writes of two names that differ after folding commute, so the order of a HashMap's entries does not matter. */
  lemma PutCommutes(a: Attributes, p: Attr, q: Attr)
    requires Fold(p.name) != Fold(q.name)
    ensures PutAll(a, [p, q]) == PutAll(a, [q, p])
  {
    assert [p, q][..1] == [p];
    assert [q, p][..1] == [q];
  }
}
