/** Paths as the two crates build them with `PathBuf::push`, `Path::join`
    and `Path::parent`, and as the operating system resolves them.

    A path is the sequence of its components. The component "/" stands for
    Rust's `Component::RootDir` and only ever comes first; every other
    component is a file or directory name, "." or "..". Joining is literal:
    ".." stays in the joined path. Only the filesystem resolves it, when
    the path is used (see `Resolve`). */
module Paths {

  type Path = seq<string>

  /** The root directory component of an absolute path. */
  const Root: string := "/"

  /** A component that names a file or directory (not ".", "..", "" or the root). */
  predicate Normal(c: string) {
    c != "" && c != "." && c != ".." && c != Root
  }

  predicate IsAbsolute(p: Path) {
    |p| > 0 && p[0] == Root
  }

  /** `base` is `p` or one of its ancestors, component-wise. */
  predicate Within(base: Path, p: Path) {
    |base| <= |p| && p[..|base|] == base
  }

  /** `base.join(name)`: an absolute name replaces the base. Nothing else is
      checked or normalised. */
  function Join(base: Path, name: Path): (r: Path)
    ensures IsAbsolute(name) ==> r == name
    ensures !IsAbsolute(name) ==> Within(base, r)
  {
    if IsAbsolute(name) then name else base + name
  }

  /** The shape of a resolved path: no empty or "." component, the root
      only in front, and ".." only in a leading run of a relative path. */
  predicate Canonical(p: Path) {
    forall i | 0 <= i < |p| ::
      p[i] != "" && p[i] != "." &&
      (p[i] == Root ==> i == 0) &&
      (p[i] == ".." ==> i == 0 || p[i - 1] == "..")
  }

  /** One component applied to an already resolved prefix. */
  function Step(acc: Path, c: string): (r: Path)
    requires Canonical(acc)
    ensures Canonical(r)
  {
    if c == "" || c == "." then acc
    else if c == Root then [Root]
    else if c == ".." then
      if |acc| == 0 || acc[|acc| - 1] == ".." then acc + [".."]
      else if acc == [Root] then acc
      else acc[..|acc| - 1]
    else acc + [c]
  }

  /** Lexical resolution of a path, as the operating system performs it on
      the way to a file (symbolic links aside): "." and empty components
      vanish, ".." removes the component before it, the parent of the root
      is the root, and a relative path may climb above the working
      directory. */
  function Resolve(p: Path): (r: Path)
    ensures Canonical(r)
    ensures |r| <= |p|
  {
    if |p| == 0 then [] else Step(Resolve(p[..|p| - 1]), p[|p| - 1])
  }

  /** Rust's lexical `components()` with every empty and "." component
      dropped. Rust keeps a "." that starts a path (`CurDir`); dropping it
      changes no resolution, and does not change whether a path that holds
      a name or ".." has a parent. */
  function Lexical(p: Path): (r: Path)
    ensures |r| <= |p|
    ensures forall i | 0 <= i < |r| :: r[i] != "" && r[i] != "."
  {
    if |p| == 0 then []
    else if p[|p| - 1] == "" || p[|p| - 1] == "." then Lexical(p[..|p| - 1])
    else Lexical(p[..|p| - 1]) + [p[|p| - 1]]
  }

  /** `Path::parent` for a path with at least one name or "..": the path
      without its last component, and no parent for an empty path or the
      root. ".." counts as a component. For the path "." alone Rust gives
      the empty path, and this gives none. */
  function LexParent(p: Path): (r: Option<Path>)
    ensures r.Some? <==> |Lexical(p)| > 0 && Lexical(p)[|Lexical(p)| - 1] != Root
    ensures r.Some? ==> |r.value| + 1 == |Lexical(p)|
  {
    var c := Lexical(p);
    if |c| == 0 || c[|c| - 1] == Root then None else Some(c[..|c| - 1])
  }

  datatype Option<T> = None | Some(value: T)

  /** A resolved path is its own resolution. */
  lemma {:induction false} ResolveCanonical(p: Path)
    requires Canonical(p)
    ensures Resolve(p) == p
  {
    if |p| > 0 {
      var init := p[..|p| - 1];
      assert Canonical(init) by {
        forall i | 0 <= i < |init| ensures init[i] != "" && init[i] != "." &&
          (init[i] == Root ==> i == 0) && (init[i] == ".." ==> i == 0 || init[i - 1] == "..")
        {
          assert init[i] == p[i];
        }
      }
      ResolveCanonical(init);
      var c := p[|p| - 1];
      assert init + [c] == p;
      if c == ".." {
        assert |p| - 1 == 0 || p[|p| - 2] == "..";
      }
    }
  }

  /** Appending a name to a resolved path gives a resolved path. */
  lemma AppendNormal(p: Path, c: string)
    requires Canonical(p) && Normal(c)
    ensures Canonical(p + [c])
  {
    var q := p + [c];
    forall i | 0 <= i < |q| ensures q[i] != "" && q[i] != "." &&
      (q[i] == Root ==> i == 0) && (q[i] == ".." ==> i == 0 || q[i - 1] == "..")
    {
      if i < |p| { assert q[i] == p[i]; }
    }
  }

  /** Joining a relative name of plain names to a resolved base resolves
      to the plain concatenation. */
  lemma {:induction false} ResolveAppendNormal(p: Path, names: Path)
    requires Canonical(p)
    requires forall i | 0 <= i < |names| :: Normal(names[i])
    ensures Canonical(p + names)
    ensures Resolve(p + names) == p + names
  {
    if |names| == 0 {
      assert p + names == p;
      ResolveCanonical(p);
    } else {
      var init := names[..|names| - 1];
      ResolveAppendNormal(p, init);
      AppendNormal(p + init, names[|names| - 1]);
      assert (p + init) + [names[|names| - 1]] == p + names;
      ResolveCanonical(p + names);
    }
  }

  /** Plain names appended to any path resolve one by one. */
  lemma {:induction false} ResolveAppend(p: Path, names: Path)
    requires forall i | 0 <= i < |names| :: Normal(names[i])
    ensures Resolve(p + names) == Resolve(p) + names
  {
    if |names| == 0 {
      assert p + names == p;
    } else {
      var init := names[..|names| - 1];
      ResolveAppend(p, init);
      assert (p + init) + [names[|names| - 1]] == p + names;
      assert Resolve(p) + init + [names[|names| - 1]] == Resolve(p) + names;
    }
  }

  /** Components other than "" and "." survive `components()` one by one. */
  lemma {:induction false} LexicalAppend(p: Path, names: Path)
    requires forall i | 0 <= i < |names| :: names[i] != "" && names[i] != "."
    ensures Lexical(p + names) == Lexical(p) + names
  {
    if |names| == 0 {
      assert p + names == p;
    } else {
      var init := names[..|names| - 1];
      LexicalAppend(p, init);
      assert (p + names)[..|p + names| - 1] == p + init;
    }
  }

  /** Dropping empty and "." components does not change the resolution. */
  lemma {:induction false} ResolveLexical(p: Path)
    ensures Resolve(Lexical(p)) == Resolve(p)
  {
    if |p| > 0 {
      var init, c := p[..|p| - 1], p[|p| - 1];
      ResolveLexical(init);
      if c != "" && c != "." {
        var l := Lexical(init) + [c];
        assert l[..|l| - 1] == Lexical(init);
      }
    }
  }

  /** Paths with the same resolution keep it under any common suffix. */
  lemma {:induction false} ResolveSuffix(p: Path, q: Path, rest: Path)
    requires Resolve(p) == Resolve(q)
    ensures Resolve(p + rest) == Resolve(q + rest)
  {
    if |rest| == 0 {
      assert p + rest == p && q + rest == q;
    } else {
      var init, c := rest[..|rest| - 1], rest[|rest| - 1];
      ResolveSuffix(p, q, init);
      assert p + rest == (p + init) + [c] && q + rest == (q + init) + [c];
      assert Resolve(p + rest) == Step(Resolve(p + init), c);
      assert Resolve(q + rest) == Step(Resolve(q + init), c);
    }
  }

  /** The literal join is what the operating system makes of the base
      followed by the name: a root in front of the name starts over. */
  lemma JoinResolves(base: Path, name: Path)
    ensures Resolve(Join(base, name)) == Resolve(base + name)
  {
    if IsAbsolute(name) {
      var rest := name[1..];
      assert name == [Root] + rest;
      RootFirst(base, rest);
    }
  }

  /** Whatever precedes a root component is forgotten. */
  lemma RootFirst(base: Path, rest: Path)
    ensures Resolve(base + ([Root] + rest)) == Resolve([Root] + rest)
  {
    assert base + ([Root] + rest) == (base + [Root]) + rest;
    RootRestarts(base);
    RootRestarts([]);
    assert [] + [Root] == [Root];
    ResolveSuffix(base + [Root], [Root], rest);
  }

  /** A root component resolves to the root whatever comes before it. */
  lemma RootRestarts(base: Path)
    ensures Resolve(base + [Root]) == [Root]
  {
    assert (base + [Root])[..|base|] == base;
  }

  /** ".." takes back the last name of a resolved path. */
  lemma ResolveParent(p: Path)
    requires var r := Resolve(p); |r| > 0 && r[|r| - 1] != ".." && r != [Root]
    ensures Resolve(p + [".."]) == Resolve(p)[..|Resolve(p)| - 1]
  {
    assert (p + [".."])[..|p|] == p;
  }
}
