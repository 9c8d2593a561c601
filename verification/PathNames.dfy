/** Path strings: splitting off elements and joining names with slashes. */
module PathNames {
  import opened Memory

  const NODE_MAXLEN := 64

  /** A name that a path element can spell. */
  predicate Ordinary(name: string) {
    0 < |name| < NODE_MAXLEN && '/' !in name && name != "." && name != ".."
  }

  /** strchr for a slash; the length when there is none. */
  function SlashAt(path: string): (i: int)
    ensures 0 <= i <= |path| && '/' !in path[..i] && (i < |path| ==> path[i] == '/')
  {
    if path == "" then 0 else if path[0] == '/' then 0 else 1 + SlashAt(path[1..])
  }

  function Slashes(n: nat): string { seq(n, _ => '/') }

  function SkipSlashes(path: string): (r: string)
    ensures |r| <= |path| && (r != "" ==> r[0] != '/')
    ensures path == Slashes(|path| - |r|) + r
  {
    if path != "" && path[0] == '/' then SkipSlashes(path[1..]) else path
  }

  /** What an element leaves of the path. */
  function Rest(r: (string, Option<string>)): string { if r.1.Some? then r.1.value else "" }

  /** path_element: the first element, and what follows its slashes if anything does. */
  function Element(path: string): (r: (string, Option<string>))
    ensures r.1.Some? ==> |r.1.value| < |path|
  {
    var i := SlashAt(path);
    if i == |path| then (path, None)
    else
      var rest := SkipSlashes(path[i..]);
      assert SkipSlashes(path[i..]) == SkipSlashes(path[i + 1..]) by { assert path[i..][1..] == path[i + 1..]; }
      (path[..i], if rest == "" then None else Some(rest))
  }

  /** The path is its first element, slashes, and the rest, which starts with an element again. */
  lemma ElementSplits(path: string)
    ensures var (name, rest) := (Element(path).0, Rest(Element(path)));
      && '/' !in name && (rest != "" ==> rest[0] != '/') && (Element(path).1.Some? ==> rest != "")
      && |name| + |rest| <= |path| && path == name + Slashes(|path| - |name| - |rest|) + rest
  {
    hide SkipSlashes, SlashAt;
    var i := SlashAt(path);
    if i < |path| {
      var rest := SkipSlashes(path[i..]);
      assert path == path[..i] + path[i..];
    } else {
      assert path == path + Slashes(0) + "";
    }
  }

  // ---------------------------------------------------------------- the elements of a path

  function Split(path: string): seq<string>
    decreases |path|
  {
    var (name, rest) := Element(path);
    [name] + if rest.None? then [] else Split(rest.value)
  }

  /** The elements of a path: none if it is empty, and otherwise the pieces between its slashes. */
  function Elements(path: string): seq<string> { if path == "" then [] else Split(SkipSlashes(path)) }

  /** The path is these names with one or more slashes between them, and any number after the last. */
  ghost predicate Spelled(path: string, names: seq<string>)
    decreases |names|
  {
    && names != [] && '/' !in names[0]
    && if |names| == 1 then exists n: nat :: path == names[0] + Slashes(n)
       else exists n: nat, rest :: Follows(path, names[0], n, rest) && Spelled(rest, names[1..])
  }

  ghost predicate Follows(path: string, name: string, n: nat, rest: string) {
    n > 0 && rest != "" && rest[0] != '/' && path == name + Slashes(n) + rest
  }

  lemma {:induction false} SplitSpells(path: string)
    ensures Spelled(path, Split(path))
    decreases |path|
  {
    hide Element;
    ElementSplits(path);
    var (name, rest) := Element(path);
    var n := |path| - |name| - |Rest(Element(path))|;
    if rest.Some? {
      SplitSpells(rest.value);
      if n == 0 { NotGlued(path, name, rest.value); }
      assert Follows(path, name, n, rest.value);
      assert Split(path)[1..] == Split(rest.value);
    } else {
      assert path == name + Slashes(n);
    }
  }

  /** Some slash comes before the rest. */
  lemma NotGlued(path: string, name: string, rest: string)
    requires Element(path) == (name, Some(rest))
    ensures |name| + |rest| < |path|
  {
  }

  lemma {:induction false} SkipRun(n: nat, rest: string)
    requires rest == "" || rest[0] != '/'
    ensures SkipSlashes(Slashes(n) + rest) == rest
  {
    if n == 0 {
      assert Slashes(0) + rest == rest;
    } else {
      assert (Slashes(n) + rest)[1..] == Slashes(n - 1) + rest;
      SkipRun(n - 1, rest);
    }
  }

  lemma ElementRun(name: string, n: nat, rest: string)
    requires '/' !in name && (rest == "" || rest[0] != '/') && (rest != "" ==> n > 0)
    ensures Element(name + Slashes(n) + rest) == (name, if rest == "" then None else Some(rest))
  {
    var p := name + Slashes(n) + rest;
    if n == 0 {
      assert p == name;
      NoSlash(name);
    } else {
      assert p == name + "/" + (Slashes(n - 1) + rest);
      SlashAfter(name, Slashes(n - 1) + rest);
      assert p[|name|..] == Slashes(n) + rest && p[..|name|] == name;
      SkipRun(n, rest);
    }
  }

  /** Only its elements spell a path. */
  lemma {:induction false} SpelledOnce(path: string, names: seq<string>)
    requires Spelled(path, names)
    ensures names == Split(path)
    decreases |names|
  {
    hide Element;
    if |names| == 1 {
      var n: nat :| path == names[0] + Slashes(n);
      assert path == names[0] + Slashes(n) + "";
      ElementRun(names[0], n, "");
    } else {
      var n: nat, rest :| Follows(path, names[0], n, rest) && Spelled(rest, names[1..]);
      ElementRun(names[0], n, rest);
      SpelledOnce(rest, names[1..]);
    }
  }

  /** The elements of a path are the one list of names that spells it after its leading slashes. */
  lemma ElementsSpell(path: string, names: seq<string>)
    requires path != ""
    ensures names == Elements(path) <==> Spelled(SkipSlashes(path), names)
  {
    hide Spelled, Split;
    if Spelled(SkipSlashes(path), names) { SpelledOnce(SkipSlashes(path), names); }
    SplitSpells(SkipSlashes(path));
  }

  lemma ElementsMore(path: string)
    ensures var (name, rest) := Element(path); rest.Some? ==> rest.value != "" && Split(path) == [name] + Elements(rest.value)
  {
    hide Element, SkipSlashes;
    ElementSplits(path);
    var rest := Element(path).1;
    if rest.Some? { SkipNone(rest.value); }
  }

  lemma SkipNone(path: string)
    requires path == "" || path[0] != '/'
    ensures SkipSlashes(path) == path
  {
  }

  // ---------------------------------------------------------------- joining

  function Join(names: seq<string>): string {
    if names == [] then "" else if |names| == 1 then names[0] else names[0] + "/" + Join(names[1..])
  }

  ghost predicate AllOrdinary(names: seq<string>) { forall i :: 0 <= i < |names| ==> Ordinary(names[i]) }

  lemma {:induction false} SlashAfter(name: string, rest: string)
    requires '/' !in name
    ensures SlashAt(name + "/" + rest) == |name|
    decreases |name|
  {
    var s := name + "/" + rest;
    if name == "" {
      assert s[0] == '/';
    } else {
      assert s[1..] == name[1..] + "/" + rest;
      assert s[0] == name[0] && name[0] in name;
      SlashAfter(name[1..], rest);
    }
  }

  lemma {:induction false} NoSlash(name: string)
    requires '/' !in name
    ensures SlashAt(name) == |name|
  {
    if name != "" {
      assert name[0] in name;
      NoSlash(name[1..]);
    }
  }

  lemma JoinStarts(names: seq<string>)
    requires AllOrdinary(names) && names != []
    ensures Join(names) != "" && Join(names)[0] != '/'
  {
    assert Ordinary(names[0]);
    assert names[0][0] in names[0];
  }

  lemma SkipOne(rest: string)
    requires rest != "" && rest[0] != '/'
    ensures SkipSlashes("/" + rest) == rest
  {
    assert ("/" + rest)[1..] == rest;
  }

  lemma ElementAt(name: string, rest: string)
    requires '/' !in name && rest != "" && rest[0] != '/'
    ensures Element(name + "/" + rest) == (name, Some(rest))
  {
    hide SlashAt, SkipSlashes;
    var p := name + "/" + rest;
    SlashAfter(name, rest);
    SkipOne(rest);
    assert p[|name|..] == "/" + rest && p[..|name|] == name;
  }

  /** Splitting off the first element undoes joining. */
  lemma ElementJoin(names: seq<string>)
    requires AllOrdinary(names) && names != []
    ensures Element(Join(names)) == (names[0], if |names| == 1 then None else Some(Join(names[1..])))
  {
    hide Element;
    assert Ordinary(names[0]);
    if |names| == 1 {
      ElementLast(names[0]);
    } else {
      JoinStarts(names[1..]);
      ElementAt(names[0], Join(names[1..]));
    }
  }

  lemma ElementLast(name: string)
    requires '/' !in name
    ensures Element(name) == (name, None)
  {
    NoSlash(name);
  }

  lemma {:induction false} JoinSnoc(names: seq<string>, name: string)
    ensures Join(names + [name]) == if names == [] then name else Join(names) + "/" + name
    decreases |names|
  {
    var all := names + [name];
    if |names| > 0 {
      assert all[1..] == names[1..] + [name];
      JoinSnoc(names[1..], name);
      if |names| == 1 {
        assert all[1..] == [name];
      } else {
        assert Join(all) == names[0] + "/" + (Join(names[1..]) + "/" + name);
      }
    }
  }
}
