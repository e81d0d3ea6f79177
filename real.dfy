/** The real loader library (`crates/real/src/lib.rs`): on `gmod13_open` it
    downloads the latest source archive of the addon, replaces
    `garrysmod/addons/gmod_integration_latest` with the archive's contents,
    lifts the archive's single top-level folder up one level and removes
    the archive. `gmod13_close` (`exit`) does nothing and returns 0. */
module Updater {
  import opened Paths
  import opened Fs
  import opened Env
  import opened Os

  /** `target_dir` as written. */
  const TargetDir: Path := [".", "garrysmod", "addons", "gmod_integration_latest"]

  /** `target_dir` resolved. */
  const Td: Path := ["garrysmod", "addons", "gmod_integration_latest"]

  /** `zip_path`. */
  const ZipPath: Path := ["gmod-integration.zip"]

  /** The release metadata request: no response, a body that is not a
      release, or the release with its `zipball_url`. */
  datatype ReleaseFetch = SendFailed | Undecodable | Latest(zipball: string)

  /** One archive entry as `by_index` yields it: unreadable, or its stored
      name (as path components), whether it is a directory, and the bytes
      `copy` writes for it. */
  datatype Member = Unreadable | Member(name: Path, isDir: bool, data: Bytes)

  lemma TargetDirResolves()
    ensures Resolve(TargetDir) == Td && Canonical(Td)
    ensures Resolve(ZipPath) == ZipPath && Canonical(ZipPath)
  {
    assert Resolve(TargetDir[..1]) == [] by { assert TargetDir[..1][..0] == []; }
    assert TargetDir[..2][..1] == TargetDir[..1];
    assert Resolve(TargetDir[..2]) == Td[..1];
    assert TargetDir[..3][..2] == TargetDir[..2];
    assert Resolve(TargetDir[..3]) == Td[..2];
    assert TargetDir[..3] == TargetDir[..|TargetDir| - 1];
    assert Resolve(TargetDir) == Td;
    assert ZipPath[..0] == [];
    assert Td[..1] == ["garrysmod"] && |"garrysmod"| != |Root|;
  }

  /** No prefix of `Td` is the working directory or the root. */
  lemma TdNotImplicit()
    ensures !Implicit(Td[..1]) && !Implicit(Td[..2]) && !Implicit(Td)
  {
    assert Td[..1][0] == "garrysmod" && |"garrysmod"| != |Root|;
  }

  /** A path below `target_dir` by plain names resolves below `Td`. */
  lemma BelowTarget(names: Path)
    requires forall i | 0 <= i < |names| :: Normal(names[i])
    ensures Resolve(TargetDir + names) == Td + names
  {
    TargetDirResolves();
    ResolveAppend(TargetDir, names);
  }

  /** Lines 87-89: `target_dir` removed when it exists; removing a file
      this way fails and changes nothing. */
  function Cleared(t: Tree): Tree {
    if Exists(t, TargetDir) then RemoveDirAll(t, TargetDir).tree else t
  }

  lemma ClearedFacts(t: Tree)
    requires Wf(t)
    ensures Wf(Cleared(t))
    ensures forall q | q in Cleared(t) && Within(Td, q) :: q == Td && t[Td].File?
    ensures forall q | q in t && !Within(Td, q) :: q in Cleared(t) && Cleared(t)[q] == t[q]
    ensures forall q | q in Cleared(t) :: q in t && Cleared(t)[q] == t[q]
    ensures Td in t && t[Td].Dir? ==> IsDir(t, Td[..2]) && IsDir(t, Td[..1])
  {
    TargetDirResolves();
    var c := Cleared(t);
    forall q | q in c && Within(Td, q) ensures q == Td && t[Td].File? {
      if q != Td {
        UnderFile(t, Td, q);
      }
    }
    if Td in t && t[Td].Dir? {
      assert InTree(t, Td) && Up(Td) == Td[..2];
      assert InTree(t, Td[..2]) && Up(Td[..2]) == Td[..1];
    }
  }

  /** Lines 85-94: remove an existing `target_dir` (a failure is ignored),
      then create it again with its parents (a failure returns 1). */
  function Reset(t: Tree): (e: Effect)
    requires Wf(t)
    ensures Wf(e.tree)
    ensures e.ok <==> !IsFile(t, Td[..1]) && !IsFile(t, Td[..2]) && !IsFile(t, Td)
    ensures !e.ok ==> e.tree == t
    ensures e.ok ==> Td in e.tree && e.tree[Td] == Dir
    ensures e.ok ==> forall q | q in e.tree && Within(Td, q) :: q == Td
    ensures e.ok ==> forall q | q in t && !Within(Td, q) :: q in e.tree && e.tree[q] == t[q]
    ensures e.ok ==> forall q | q in e.tree && q !in t :: Within(q, Td)
  {
    ResetProof(t);
    CreateDirAll(Cleared(t), TargetDir)
  }

  lemma ResetProof(t: Tree)
    requires Wf(t)
    ensures var e := CreateDirAll(Cleared(t), TargetDir);
      && (e.ok <==> !IsFile(t, Td[..1]) && !IsFile(t, Td[..2]) && !IsFile(t, Td))
      && (!e.ok ==> e.tree == t)
      && (e.ok ==> Td in e.tree && e.tree[Td] == Dir)
      && (e.ok ==> forall q | q in e.tree && Within(Td, q) :: q == Td)
      && (e.ok ==> forall q | q in t && !Within(Td, q) :: q in e.tree && e.tree[q] == t[q])
      && (e.ok ==> forall q | q in e.tree && q !in t :: Within(q, Td))
  {
    TargetDirResolves();
    ClearedFacts(t);
    var c := Cleared(t);
    var e := CreateDirAll(c, TargetDir);
    assert Td[..3] == Td;
    assert forall i | 1 <= i <= 2 :: IsFile(c, Td[..i]) == IsFile(t, Td[..i]) by {
      forall i | 1 <= i <= 2 ensures IsFile(c, Td[..i]) == IsFile(t, Td[..i]) {
        assert !Within(Td, Td[..i]);
      }
    }
    assert e.ok <==> !IsFile(c, Td[..1]) && !IsFile(c, Td[..2]) && !IsFile(c, Td);
    assert IsFile(c, Td) == IsFile(t, Td);
    TdNotImplicit();
    assert Td in t && t[Td].Dir? ==> !IsFile(t, Td[..1]) && !IsFile(t, Td[..2]) && !IsFile(t, Td);
    if e.ok {
      assert IsDir(e.tree, Td);
      forall q | q in e.tree && Within(Td, q) ensures q == Td {
        if q !in c { assert Within(q, Td); }
      }
    } else {
      assert !(Td in t && t[Td].Dir?);
      assert c == t;
    }
  }

  /** What extraction has done so far: whether it panicked, and the
      filesystem it leaves. */
  datatype Extraction = Extraction(panicked: bool, tree: Tree)

  /** `target_dir.join(file.name())`. */
  function OutPath(m: Member): Path
    requires m.Member?
  {
    Join(TargetDir, m.name)
  }

  /** One turn of the extraction loop (lines 97-108). */
  function ExtractOne(t: Tree, m: Member): (x: Extraction)
    ensures Wf(t) ==> Wf(x.tree)
    ensures Grows(t, x.tree)
  {
    match m
    case Unreadable => Extraction(true, t)
    case Member(_, isDir, data) =>
      var out := OutPath(m);
      if isDir then Extraction(false, CreateDirAll(t, out).tree)
      else
        var withParent := match LexParent(out)
          case Some(parent) => CreateDirAll(t, parent).tree
          case None => t;
        var created := CreateFile(withParent, out);
        if !created.ok then Extraction(true, withParent)
        else Extraction(false, Append(created.tree, Resolve(out), data))
  }

  /** The resolved path an archive entry is extracted to. */
  function Dest(m: Member): Path
    requires m.Member?
  {
    Resolve(OutPath(m))
  }

  /** A file entry that does not panic leaves exactly its bytes. */
  lemma ExtractOneWrites(t: Tree, m: Member)
    requires m.Member? && !m.isDir && !ExtractOne(t, m).panicked
    ensures Dest(m) in ExtractOne(t, m).tree && ExtractOne(t, m).tree[Dest(m)] == File(m.data)
  {
    assert [] + m.data == m.data;
  }

  /** An existing node other than a file entry's own path is kept. */
  lemma ExtractOneKeeps(t: Tree, m: Member, q: Path)
    requires q in t && !(m.Member? && !m.isDir && q == Dest(m))
    ensures q in ExtractOne(t, m).tree && ExtractOne(t, m).tree[q] == t[q]
  {
  }

  /** What one turn of the extraction loop does: an unreadable entry
      panics; a directory entry never panics and leaves its directory in
      place unless a file blocks the way; a file entry that does not panic
      leaves exactly its bytes at its path. Besides that path no existing
      node changes, and every new node lies on the way to the entry's path
      or to its parent's: nothing confines it to `target_dir`. */
  lemma ExtractOneFacts(t: Tree, m: Member)
    ensures var x := ExtractOne(t, m);
      && (m.Unreadable? ==> x.panicked && x.tree == t)
      && (m.Member? && m.isDir ==>
            && !x.panicked
            && (IsDir(x.tree, Dest(m)) || exists i | 1 <= i <= |Dest(m)| :: IsFile(t, Dest(m)[..i])))
      && (m.Member? && !m.isDir && !x.panicked ==> Dest(m) in x.tree && x.tree[Dest(m)] == File(m.data))
      && (forall q | q in t && !(m.Member? && !m.isDir && q == Dest(m)) :: x.tree[q] == t[q])
      && (forall q | q in x.tree && q !in t :: m.Member? &&
            (Within(q, Dest(m)) ||
             (LexParent(OutPath(m)).Some? && Within(q, Resolve(LexParent(OutPath(m)).value)))))
  {
    if m.Member? && !m.isDir {
      assert [] + m.data == m.data;
    }
  }

  /** The path's last component, as `components()` yields it, names a file
      or directory. */
  predicate EndsInName(p: Path) {
    var l := Lexical(p);
    |l| > 0 && Normal(l[|l| - 1])
  }

  /** When a file entry panics (line 106): its parent, created first on
      line 103, resolves to the directory of its path, so `File::create`
      fails exactly when a file stands on the way or a directory stands at
      the path itself. */
  lemma FileEntryPanics(t: Tree, m: Member)
    requires Wf(t) && m.Member? && !m.isDir && EndsInName(OutPath(m))
    ensures ExtractOne(t, m).panicked <==>
      IsDir(t, Dest(m)) || exists i | 1 <= i < |Dest(m)| :: IsFile(t, Dest(m)[..i])
  {
    var parent := FileEntryParent(m);
    var made := CreateDirAll(t, parent).tree;
    assert ExtractOne(t, m).panicked == !CreateFile(made, OutPath(m)).ok;
    CreateBelow(t, parent, OutPath(m));
  }

  /** `Path::parent` of a path that ends in a name resolves to the
      directory of the resolved path. */
  lemma FileEntryParent(m: Member) returns (parent: Path)
    requires m.Member? && EndsInName(OutPath(m))
    ensures LexParent(OutPath(m)) == Some(parent)
    ensures Named(Dest(m)) && Resolve(parent) == Up(Dest(m))
  {
    var out := OutPath(m);
    var l := Lexical(out);
    var c := l[|l| - 1];
    parent := l[..|l| - 1];
    ResolveLexical(out);
    assert l == parent + [c];
    ResolveAppend(parent, [c]);
  }

  /** `create_dir_all` of the directory of a named path, then
      `File::create` of the path: the latter fails exactly when a file
      stands on the way or a directory at the path. */
  lemma CreateBelow(t: Tree, parent: Path, raw: Path)
    requires Wf(t) && Named(Resolve(raw)) && Resolve(parent) == Up(Resolve(raw))
    ensures var p := Resolve(raw);
      !CreateFile(CreateDirAll(t, parent).tree, raw).ok <==>
        IsDir(t, p) || exists i | 1 <= i < |p| :: IsFile(t, p[..i])
  {
    var p, up := Resolve(raw), Resolve(parent);
    assert forall i | 1 <= i <= |up| :: p[..i] == up[..i];
    var made := CreateDirAll(t, parent);
    if made.ok {
      assert IsDir(made.tree, p) == IsDir(t, p);
    } else {
      var i :| 1 <= i <= |up| && IsFile(t, up[..i]);
      BlockedParent(t, up, i);
    }
  }

  /** A file on the way to a directory means it is not one. */
  lemma BlockedParent(t: Tree, up: Path, i: nat)
    requires Wf(t) && 1 <= i <= |up| && IsFile(t, up[..i])
    ensures !IsDir(t, up)
  {
    assert InTree(t, up[..i]);
    if i == |up| {
      assert up[..i] == up;
    } else if up in t {
      assert up[..i] == up[..|up[..i]|];
      UnderFile(t, up[..i], up);
    }
  }

  /** Extraction keeps every path and its kind: nothing is removed, and no
      file becomes a directory or the other way round. */
  predicate Grows(t: Tree, r: Tree) {
    forall q | q in t :: q in r && r[q].Dir? == t[q].Dir?
  }

  /** The extraction loop over the first `|ms|` entries; a panic ends it. */
  function ExtractAll(t: Tree, ms: seq<Member>): (x: Extraction)
    ensures Wf(t) ==> Wf(x.tree)
    ensures Grows(t, x.tree)
    decreases |ms|
  {
    if |ms| == 0 then Extraction(false, t)
    else
      var before := ExtractAll(t, ms[..|ms| - 1]);
      if before.panicked then before else ExtractOne(before.tree, ms[|ms| - 1])
  }

  /** `target_dir` climbed three times is the working directory, and
      `Path::parent` of a name below it keeps the three "..". */
  lemma ClimbOut(c: string)
    requires Normal(c)
    ensures var up := TargetDir + ["..", "..", ".."];
      && Resolve(up + [c]) == [c]
      && LexParent(up + [c]) == Some(Td + ["..", "..", ".."])
      && Resolve(Td + ["..", "..", ".."]) == []
  {
    TargetDirResolves();
    ClimbThree(TargetDir);
    ResolveAppend(TargetDir + ["..", "..", ".."], [c]);
    ClimbLexical(c);
    ResolveCanonical(Td);
    ClimbThree(Td);
  }

  /** Three ".." after a path that resolves to `Td` reach the working
      directory. */
  lemma ClimbThree(p: Path)
    requires Resolve(p) == Td
    ensures Resolve(p + ["..", "..", ".."]) == []
  {
    var a1 := p + [".."];
    var a2 := a1 + [".."];
    assert a2 + [".."] == p + ["..", "..", ".."];
    assert Td[2] != ".." && Td[..2][1] != ".." && Td[..1][0] != "..";
    assert Td != [Root] && Td[..2] != [Root] && Td[..1] != [Root] by { assert |"garrysmod"| != |Root|; }
    ResolveParent(p);
    ResolveParent(a1);
    assert Td[..2][..1] == Td[..1];
    ResolveParent(a2);
  }

  lemma ClimbLexical(c: string)
    requires Normal(c)
    ensures LexParent(TargetDir + ["..", "..", ".."] + [c]) == Some(Td + ["..", "..", ".."])
  {
    var tail := ["..", "..", ".."];
    assert TargetDir == ["."] + Td;
    assert Lexical(["."]) == [] by { assert ["."][..0] == []; }
    LexicalAppend(["."], Td);
    assert Lexical(TargetDir) == Td by { assert [] + Td == Td; }
    LexicalAppend(TargetDir, tail + [c]);
    assert TargetDir + (tail + [c]) == TargetDir + tail + [c];
    var l := Td + tail + [c];
    assert Lexical(TargetDir + tail + [c]) == l;
    assert l[..|l| - 1] == Td + tail && l[|l| - 1] == c;
  }

  /** An entry named `../../../c` is written to `c` in the working
      directory, outside `target_dir`: extraction trusts the stored names. */
  lemma EscapeUpward(t: Tree, c: string, data: Bytes)
    requires Wf(t) && Normal(c) && !IsDir(t, [c])
    ensures var m := Member(["..", "..", ".."] + [c], false, data);
      && Dest(m) == [c] && !Within(Td, Dest(m))
      && ExtractOne(t, m) == Extraction(false, t[[c] := File(data)])
  {
    var m := Member(["..", "..", ".."] + [c], false, data);
    UpwardPaths(m, c);
    EscapeSteps(t, m, Td + ["..", "..", ".."], c);
  }

  /** The paths of an entry named `../../../c`. */
  lemma UpwardPaths(m: Member, c: string)
    requires Normal(c) && m.Member? && m.name == ["..", "..", ".."] + [c]
    ensures LexParent(OutPath(m)) == Some(Td + ["..", "..", ".."])
    ensures Resolve(Td + ["..", "..", ".."]) == [] && Dest(m) == [] + [c]
    ensures Dest(m) == [c] && !Within(Td, Dest(m))
  {
    ClimbOut(c);
    assert OutPath(m) == TargetDir + ["..", "..", ".."] + [c];
    assert [] + [c] == [c];
  }

  /** A file entry written to a name directly in the working directory or
      the root, the directory its `parent()` resolves to: nothing needs to
      be created first. */
  lemma EscapeSteps(t: Tree, m: Member, parent: Path, c: string)
    requires Wf(t) && m.Member? && !m.isDir && Normal(c)
    requires LexParent(OutPath(m)) == Some(parent) && Implicit(Resolve(parent))
    requires Dest(m) == Resolve(parent) + [c] && !IsDir(t, Dest(m))
    ensures ExtractOne(t, m) == Extraction(false, t[Dest(m) := File(m.data)])
  {
    ImplicitReady(t, parent);
    assert Up(Dest(m)) == Resolve(parent);
    var created := CreateFile(t, OutPath(m));
    assert created.ok && created.tree == t[Dest(m) := File([])];
    assert [] + m.data == m.data;
    assert ExtractOne(t, m) == Extraction(false, Append(created.tree, Dest(m), m.data));
  }

  /** `create_dir_all` of the working directory or the root changes
      nothing. */
  lemma ImplicitReady(t: Tree, p: Path)
    requires Wf(t) && Implicit(Resolve(p))
    ensures CreateDirAll(t, p).tree == t
  {
    if Resolve(p) == [Root] {
      assert !IsFile(t, [Root]) by { assert !InTree(t, [Root]); }
      assert Resolve(p)[..1] == [Root];
    }
  }

  /** `/c` resolves to itself and its `parent()` is the root. */
  lemma AbsoluteName(c: string)
    requires Normal(c)
    ensures Resolve([Root, c]) == [Root, c]
    ensures LexParent([Root, c]) == Some([Root]) && Resolve([Root]) == [Root]
  {
    assert Resolve([Root]) == [Root] by { assert [Root][..0] == []; }
    ResolveAppend([Root], [c]);
    assert [Root] + [c] == [Root, c];
    LexicalAppend([], [Root, c]);
    assert [] + [Root, c] == [Root, c];
  }

  /** An entry with an absolute name `/c` is written to `/c`: `join`
      replaces `target_dir` altogether. */
  lemma EscapeAbsolute(t: Tree, c: string, data: Bytes)
    requires Wf(t) && Normal(c) && !IsDir(t, [Root, c])
    ensures var m := Member([Root, c], false, data);
      && Dest(m) == [Root, c] && !Within(Td, Dest(m))
      && ExtractOne(t, m) == Extraction(false, t[[Root, c] := File(data)])
  {
    var m := Member([Root, c], false, data);
    assert OutPath(m) == [Root, c];
    AbsoluteName(c);
    assert [Root] + [c] == [Root, c];
    assert Td[0] != Root;
    EscapeSteps(t, m, [Root], c);
  }

  /** A panic ends extraction: once a prefix of the entries panics, so
      does the whole run, with the same filesystem. */
  lemma {:induction false} PanicSticks(t: Tree, ms: seq<Member>, k: nat)
    requires k <= |ms| && ExtractAll(t, ms[..k]).panicked
    ensures ExtractAll(t, ms) == ExtractAll(t, ms[..k])
    decreases |ms|
  {
    if k < |ms| {
      var init := ms[..|ms| - 1];
      assert init[..k] == ms[..k];
      PanicSticks(t, init, k);
    } else {
      assert ms[..k] == ms;
    }
  }

  /** When extraction runs to the end, a file entry's bytes are what its
      path holds unless a later file entry resolves to the same path. */
  lemma {:induction false} LastFileWins(t: Tree, ms: seq<Member>, k: nat)
    requires k < |ms| && ms[k].Member? && !ms[k].isDir
    requires forall l | k < l < |ms| && ms[l].Member? && !ms[l].isDir :: Dest(ms[l]) != Dest(ms[k])
    requires !ExtractAll(t, ms).panicked
    ensures Dest(ms[k]) in ExtractAll(t, ms).tree
    ensures ExtractAll(t, ms).tree[Dest(ms[k])] == File(ms[k].data)
    decreases |ms|
  {
    var init := ms[..|ms| - 1];
    var before := ExtractAll(t, init);
    assert !before.panicked;
    assert ExtractAll(t, ms) == ExtractOne(before.tree, ms[|ms| - 1]);
    if k == |ms| - 1 {
      ExtractOneWrites(before.tree, ms[k]);
    } else {
      assert init[k] == ms[k];
      forall l | k < l < |init| && init[l].Member? && !init[l].isDir ensures Dest(init[l]) != Dest(init[k]) {
        assert init[l] == ms[l];
      }
      LastFileWins(t, init, k);
      ExtractOneKeeps(before.tree, ms[|ms| - 1], Dest(ms[k]));
    }
  }

  /** An entry stored under a relative name made of plain names. */
  predicate Ordinary(m: Member) {
    m.Member? && |m.name| > 0 && forall i | 0 <= i < |m.name| :: Normal(m.name[i])
  }

  /** The names strictly on the way to `n`. */
  function Ancestors(n: Path): set<Path> {
    set i | 1 <= i < |n| :: n[..i]
  }

  /** The names below `target_dir` that an entry needs as directories, and
      the one it needs as a file. */
  function DirsOf(m: Member): set<Path> {
    if m.Unreadable? then {} else Ancestors(m.name) + (if m.isDir then {m.name} else {})
  }

  function FilesOf(m: Member): set<Path> {
    if m.Member? && !m.isDir then {m.name} else {}
  }

  function Dirs(ms: seq<Member>): set<Path> {
    if |ms| == 0 then {} else Dirs(ms[..|ms| - 1]) + DirsOf(ms[|ms| - 1])
  }

  function Files(ms: seq<Member>): set<Path> {
    if |ms| == 0 then {} else Files(ms[..|ms| - 1]) + FilesOf(ms[|ms| - 1])
  }

  /** No name the archive needs as a file is one it needs as a directory:
      no entry lies below a file entry, and no directory entry has a file
      entry's name. */
  predicate Compatible(ms: seq<Member>) {
    Dirs(ms) !! Files(ms)
  }

  /** `target_dir` is a directory, and everything below it was asked for by
      the entries `ms`, with the kind they asked for. */
  ghost predicate Placed(u: Tree, ms: seq<Member>) {
    && IsDir(u, Td)
    && forall q | q in u && Within(Td, q) && q != Td ::
         && (u[q].Dir? ==> q[|Td|..] in Dirs(ms))
         && (u[q].File? ==> q[|Td|..] in Files(ms))
  }

  /** An ordinary entry is extracted to its name below `target_dir`, and
      the parent of a file entry is the directory of that path. */
  lemma OrdinaryDest(m: Member)
    requires Ordinary(m)
    ensures OutPath(m) == TargetDir + m.name
    ensures Dest(m) == Td + m.name && EndsInName(OutPath(m))
  {
    assert !IsAbsolute(m.name);
    BelowTarget(m.name);
    LexicalAppend(TargetDir, m.name);
  }

  /** Extraction adds nothing but directories, except the file an entry
      writes. */
  lemma ExtractOneAddsDirs(t: Tree, m: Member, q: Path)
    requires q in ExtractOne(t, m).tree && q !in t && !(m.Member? && !m.isDir && q == Dest(m))
    ensures ExtractOne(t, m).tree[q] == Dir
  {
  }

  /** A node extraction adds lies on the way to the entry's path or to
      its parent's. */
  lemma ExtractOneNewNodes(t: Tree, m: Member, q: Path)
    requires q in ExtractOne(t, m).tree && q !in t
    ensures m.Member? &&
      (Within(q, Dest(m)) || (LexParent(OutPath(m)).Some? && Within(q, Resolve(LexParent(OutPath(m)).value))))
  {
    if m.Member? && !m.isDir {
      var out := OutPath(m);
      var withParent := match LexParent(out)
        case Some(parent) => CreateDirAll(t, parent).tree
        case None => t;
      var created := CreateFile(withParent, out);
      assert created.ok ==> q in created.tree;
      if q !in withParent {
        assert q == Resolve(out);
      }
    }
  }

  /** `target_dir` and its ancestors hold no file. */
  lemma TargetClear(u: Tree, i: nat)
    requires Wf(u) && IsDir(u, Td) && 1 <= i <= |Td|
    ensures !IsFile(u, Td[..i])
  {
    TdNotImplicit();
    if i < |Td| {
      assert Td[..i] == Td[..|Td[..i]|];
      UnderFile(u, Td[..i], Td);
    } else {
      assert Td[..i] == Td;
    }
  }

  /** With the tree placed for the earlier entries and the archive
      compatible, nothing blocks an ordinary file entry. */
  lemma OrdinaryUnblocked(u: Tree, init: seq<Member>, m: Member)
    requires Wf(u) && Placed(u, init) && Ordinary(m) && !m.isDir
    requires Dirs(init) !! Files(init + [m]) && Ancestors(m.name) !! Files(init + [m])
    requires m.name in Files(init + [m])
    ensures !IsDir(u, Td + m.name)
    ensures forall i | 1 <= i < |Td + m.name| :: !IsFile(u, (Td + m.name)[..i])
  {
    var d := Td + m.name;
    assert d[..|Td|] == Td && d[|Td|..] == m.name;
    forall i | 1 <= i < |d| ensures !IsFile(u, d[..i]) {
      if i <= |Td| {
        assert d[..i] == Td[..i];
        TargetClear(u, i);
      } else {
        var q := d[..i];
        assert q[..|Td|] == Td && q[|Td|..] == m.name[..i - |Td|];
        assert m.name[..i - |Td|] in Ancestors(m.name);
      }
    }
  }

  /** `Placed` at one path after one ordinary entry. */
  lemma PlacedAt(u: Tree, dirs: set<Path>, files: set<Path>, m: Member, q: Path)
    requires Wf(u) && Ordinary(m) && !ExtractOne(u, m).panicked
    requires q in ExtractOne(u, m).tree && Within(Td, q) && q != Td
    requires q in u ==> (u[q].Dir? ==> q[|Td|..] in dirs) && (u[q].File? ==> q[|Td|..] in files)
    ensures var x := ExtractOne(u, m).tree;
      && (x[q].Dir? ==> q[|Td|..] in dirs + DirsOf(m))
      && (x[q].File? ==> q[|Td|..] in files + FilesOf(m))
  {
    OrdinaryDest(m);
    var file := !m.isDir && q == Dest(m);
    if q in u && !file {
      ExtractOneKeeps(u, m, q);
    } else if file {
      ExtractOneWrites(u, m);
      assert q[|Td|..] == m.name;
    } else {
      NewNodePlaced(u, m, q);
    }
  }

  /** A node an ordinary entry adds below `target_dir`, other than the file
      it writes, is a directory on the way to the entry's name, or the
      directory a directory entry names. */
  lemma NewNodePlaced(u: Tree, m: Member, q: Path)
    requires Wf(u) && Ordinary(m)
    requires q in ExtractOne(u, m).tree && q !in u && !(!m.isDir && q == Dest(m))
    requires Within(Td, q) && q != Td
    ensures ExtractOne(u, m).tree[q] == Dir && q[|Td|..] in DirsOf(m)
  {
    OrdinaryDest(m);
    ExtractOneAddsDirs(u, m, q);
    ExtractOneNewNodes(u, m, q);
    if !m.isDir {
      var parent := FileEntryParent(m);
      WithinUp(q, Dest(m));
    }
    NameOnTheWay(q, m.name);
  }

  /** Below the directory of a path is below the path's own prefix. */
  lemma WithinUp(q: Path, d: Path)
    requires |d| > 0 && Within(q, Up(d))
    ensures Within(q, d)
  {
    assert d[..|q|] == Up(d)[..|q|];
  }

  /** A path below `target_dir` on the way to `target_dir/n` is `n` itself
      or one of its ancestors, below `target_dir`. */
  lemma NameOnTheWay(q: Path, n: Path)
    requires Within(Td, q) && q != Td && Within(q, Td + n)
    ensures q == Td + n || q[|Td|..] in Ancestors(n)
  {
    var j := |q| - |Td|;
    assert q[|Td|..] == n[..j];
    if j == |n| {
      assert q == Td + n;
    }
  }


  /** One ordinary entry of a compatible archive does not panic and keeps
      the tree placed. */
  lemma OrdinaryStep(u: Tree, init: seq<Member>, m: Member)
    requires Wf(u) && Placed(u, init) && Ordinary(m) && Compatible(init + [m])
    ensures !ExtractOne(u, m).panicked && Placed(ExtractOne(u, m).tree, init + [m])
  {
    var ms := init + [m];
    assert ms[..|init|] == init && ms[|ms| - 1] == m;
    OrdinaryDest(m);
    if !m.isDir {
      OrdinaryUnblocked(u, init, m);
      FileEntryPanics(u, m);
    } else {
      ExtractOneFacts(u, m);
    }
    var x := ExtractOne(u, m).tree;
    TdNotImplicit();
    assert IsDir(x, Td);
    assert Dirs(ms) == Dirs(init) + DirsOf(m) && Files(ms) == Files(init) + FilesOf(m);
    forall q | q in x && Within(Td, q) && q != Td
      ensures (x[q].Dir? ==> q[|Td|..] in Dirs(ms)) && (x[q].File? ==> q[|Td|..] in Files(ms))
    {
      PlacedAt(u, Dirs(init), Files(init), m, q);
    }
  }

  /** Extracting a compatible archive of ordinary entries into an empty
      `target_dir` never panics, and leaves below `target_dir` only what
      the entries ask for. */
  lemma {:induction false} OrdinaryExtraction(u: Tree, ms: seq<Member>)
    requires Wf(u) && Placed(u, [])
    requires forall k | 0 <= k < |ms| :: Ordinary(ms[k])
    requires Compatible(ms)
    ensures !ExtractAll(u, ms).panicked && Placed(ExtractAll(u, ms).tree, ms)
    decreases |ms|
  {
    if |ms| == 0 {
      assert ms == [];
    } else {
      var init, m := ms[..|ms| - 1], ms[|ms| - 1];
      assert ms == init + [m];
      forall k | 0 <= k < |init| ensures Ordinary(init[k]) { assert init[k] == ms[k]; }
      OrdinaryExtraction(u, init);
      var before := ExtractAll(u, init);
      OrdinaryStep(before.tree, init, m);
    }
  }

  /** Lines 85-109 on an archive of plain relative names none of which
      needs a file where another needs a directory: after a successful
      reset no entry panics, every file entry that no later file entry
      overwrites holds its bytes at its name below `target_dir`, and
      nothing else is below `target_dir` but what the entries ask for. */
  lemma ArchiveExtracted(t: Tree, ms: seq<Member>)
    requires Wf(t) && Reset(t).ok
    requires forall k | 0 <= k < |ms| :: Ordinary(ms[k])
    requires Compatible(ms)
    ensures var x := ExtractAll(Reset(t).tree, ms);
      && !x.panicked && Placed(x.tree, ms)
      && forall k | 0 <= k < |ms| && ms[k].Member? && !ms[k].isDir && LastOfName(ms, k) ::
           Td + ms[k].name in x.tree && x.tree[Td + ms[k].name] == File(ms[k].data)
  {
    var u := Reset(t).tree;
    assert Placed(u, []);
    OrdinaryExtraction(u, ms);
    forall k | 0 <= k < |ms| && ms[k].Member? && !ms[k].isDir && LastOfName(ms, k)
      ensures Td + ms[k].name in ExtractAll(u, ms).tree && ExtractAll(u, ms).tree[Td + ms[k].name] == File(ms[k].data)
    {
      OrdinaryDest(ms[k]);
      forall l | k < l < |ms| && ms[l].Member? && !ms[l].isDir ensures Dest(ms[l]) != Dest(ms[k]) {
        OrdinaryDest(ms[l]);
        assert (Td + ms[l].name)[|Td|..] == ms[l].name;
      }
      LastFileWins(u, ms, k);
    }
  }

  /** No file entry after entry `k` has its name. */
  predicate LastOfName(ms: seq<Member>, k: nat)
    requires k < |ms| && ms[k].Member?
  {
    forall l | k < l < |ms| && ms[l].Member? && !ms[l].isDir :: ms[l].name != ms[k].name
  }

  /** `read_dir(extracted_root)` lists each name of `names` exactly once in
      `order`. */
  predicate ListsOnce(order: seq<string>, names: set<string>) {
    && (forall k | 0 <= k < |order| :: order[k] in names)
    && (forall c | c in names :: c in order)
    && (forall k, l | 0 <= k < l < |order| :: order[k] != order[l])
  }

  /** The flatten loop (lines 124-130): each listed child of the wrapper
      `w` is renamed to the same name in `target_dir`; a failed rename is
      ignored. */
  function MoveAll(u: Tree, w: string, order: seq<string>): (r: Tree)
    ensures Wf(u) ==> Wf(r)
    decreases |order|
  {
    if |order| == 0 then u
    else
      var c := order[|order| - 1];
      Rename(MoveAll(u, w, order[..|order| - 1]), TargetDir + [w] + [c], TargetDir + [c]).tree
  }

  /** Lines 132-135: remove the wrapper, `target_dir/.git`,
      `target_dir/.github` and the archive; every failure is ignored. */
  function Cleanup(s: Tree, w: string): (r: Tree)
    ensures Wf(s) ==> Wf(r)
    ensures forall q | q in r :: q in s && r[q] == s[q]
  {
    var a := RemoveDirAll(s, TargetDir + [w]).tree;
    var b := RemoveDirAll(a, TargetDir + [".git"]).tree;
    var c := RemoveDirAll(b, TargetDir + [".github"]).tree;
    RemoveFile(c, ZipPath).tree
  }

  /** Lines 111-140, from the extracted tree `u`: the first entry `w` of
      `read_dir(target_dir)` is the wrapper; an empty `target_dir` returns 1;
      a `read_dir` that fails panics (`expect`). */
  function Install(u: Tree, w: string, order: seq<string>): (r: Run)
    requires Wf(u)
    ensures Wf(r.tree)
    ensures IsDir(u, Td) && Children(u, Td) == {} ==> r == Run(Returned(1), u)
  {
    if !IsDir(u, Td) then Run(Panicked, u)
    else if Children(u, Td) == {} then Run(Returned(1), u)
    else if !IsDir(u, Resolve(TargetDir + [w])) then Run(Panicked, u)
    else Run(Returned(0), Cleanup(MoveAll(u, w, order), w))
  }

  /** How far `gmod13_open` gets before the wrapper is picked: it stopped
      with a run, or it extracted the archive into a tree. */
  datatype Stage = Stopped(run: Run) | Extracted(tree: Tree)

  /** Lines 14-109. The HTTP status of neither request is looked at; a
      download whose body breaks off counts as failed (`bytes()`). The
      archive is what `unzip` makes of the written bytes: `None` when
      `ZipArchive::new` rejects them. */
  function Prepare(t: Tree, fetch: ReleaseFetch, download: Response,
                   unzip: Bytes -> Option<seq<Member>>): (s: Stage)
    requires Wf(t)
    ensures s.Stopped? ==> Wf(s.run.tree)
    ensures s.Extracted? ==> Wf(s.tree)
  {
    if !fetch.Latest? || !download.Responded? || !download.complete then Stopped(Run(Returned(1), t))
    else
      var zip := Write(t, ZipPath, download.body);
      if !zip.ok then Stopped(Run(Returned(1), t))
      else match unzip(download.body)
        case None => Stopped(Run(Returned(1), zip.tree))
        case Some(members) =>
          var reset := Reset(zip.tree);
          if !reset.ok then Stopped(Run(Returned(1), reset.tree))
          else
            var x := ExtractAll(reset.tree, members);
            if x.panicked then Stopped(Run(Panicked, x.tree)) else Extracted(x.tree)
  }

  /** `gmod13_open` of the real loader. `w` is the name `read_dir` lists
      first in `target_dir`, and `order` the order it lists the wrapper's
      children in (see `Fits`). */
  function Update(t: Tree, fetch: ReleaseFetch, download: Response,
                  unzip: Bytes -> Option<seq<Member>>, w: string, order: seq<string>): (r: Run)
    requires Wf(t)
    ensures Wf(r.tree)
  {
    match Prepare(t, fetch, download, unzip)
    case Stopped(run) => run
    case Extracted(u) => Install(u, w, order)
  }

  /** `w` and `order` are what `read_dir` can list: some child of a
      non-empty `target_dir`, and the wrapper's children each once. */
  predicate Listing(u: Tree, w: string, order: seq<string>) {
    IsDir(u, Td) && Children(u, Td) != {} ==>
      && w in Children(u, Td)
      && (IsDir(u, Td + [w]) ==> ListsOnce(order, Children(u, Td + [w])))
  }

  predicate Fits(t: Tree, fetch: ReleaseFetch, download: Response,
                 unzip: Bytes -> Option<seq<Member>>, w: string, order: seq<string>)
    requires Wf(t)
  {
    match Prepare(t, fetch, download, unzip)
    case Stopped(_) => true
    case Extracted(u) => Listing(u, w, order)
  }

  /** `exit`, the real loader's `gmod13_close`. */
  function Exit(): (code: Int32)
    ensures code == 0
  {
    0
  }

  /** The wrapper directory `w` in `target_dir`. */
  function Wrapper(w: string): Path { Td + [w] }

  /** The extracted tree has a single folder in `target_dir`, `w`, and
      nothing in `w` is named `w` too. */
  predicate SingleWrapper(u: Tree, w: string) {
    && IsDir(u, Td) && Children(u, Td) == {w}
    && IsDir(u, Wrapper(w)) && w !in Children(u, Wrapper(w))
  }

  /** A name listed in a directory whose own name is not ".." is a plain
      name. */
  lemma ChildNormal(u: Tree, d: Path, c: string)
    requires Wf(u) && c in Children(u, d) && |d| > 0 && d[|d| - 1] != ".."
    ensures Normal(c) && d + [c] in u
  {
    var q :| q in u && |q| == |d| + 1 && q[..|d|] == d && q[|d|] == c;
    assert q == d + [c];
    assert InTree(u, q);
  }

  /** Where the node at `q` comes from once the children `moved` of the
      wrapper have been renamed into `target_dir`: from below the wrapper,
      from nowhere (it was moved away), or from `q` itself. */
  function Origin(w: string, moved: set<string>, q: Path): Option<Path> {
    if |q| > |Td| && q[..|Td|] == Td && q[|Td|] in moved then Some(Wrapper(w) + q[|Td|..])
    else if |q| > |Td| + 1 && q[..|Td| + 1] == Wrapper(w) && q[|Td| + 1] in moved then None
    else Some(q)
  }

  predicate Agrees(u: Tree, s: Tree, w: string, moved: set<string>, q: Path) {
    match Origin(w, moved, q)
    case None => q !in s
    case Some(o) => (q in s <==> o in u) && (q in s ==> s[q] == u[o])
  }

  /** `s` is `u` with the children `moved` of the wrapper renamed into
      `target_dir`. */
  ghost predicate Relocated(u: Tree, s: Tree, w: string, moved: set<string>) {
    forall q :: Agrees(u, s, w, moved, q)
  }

  /** One turn of the flatten loop: renaming the wrapper's child `c` into
      `target_dir` goes through and relocates `c` with everything below it. */
  lemma MoveStep(u: Tree, s: Tree, w: string, moved: set<string>, c: string)
    requires Wf(u) && SingleWrapper(u, w)
    requires c in Children(u, Wrapper(w)) && c !in moved && w !in moved
    requires Relocated(u, s, w, moved)
    ensures var e := Rename(s, TargetDir + [w] + [c], TargetDir + [c]);
      e.ok && Relocated(u, e.tree, w, moved + {c})
  {
    var W := Wrapper(w);
    TdNotImplicit();
    ChildNormal(u, Td, w);
    ChildNormal(u, W, c);
    assert TargetDir + [w] + [c] == TargetDir + [w, c];
    BelowTarget([w, c]);
    BelowTarget([c]);
    var f, d := Td + [w, c], Td + [c];
    assert f == W + [c];
    // the rename is allowed
    assert Agrees(u, s, w, moved, f) && Origin(w, moved, f) == Some(f);
    assert f in s;
    assert Agrees(u, s, w, moved, Td) && Origin(w, moved, Td) == Some(Td);
    assert IsDir(s, Td);
    assert Agrees(u, s, w, moved, d) && Origin(w, moved, d) == Some(d);
    assert d in u ==> c in Children(u, Td);
    assert !Within(f, d);
    assert Up(d) == Td;
    var e := Rename(s, TargetDir + [w] + [c], TargetDir + [c]);
    assert e.ok;
    assert e.tree == Move(s, f, d);
    var moved' := moved + {c};
    forall q ensures Agrees(u, e.tree, w, moved', q) {
      MoveStepAt(u, s, w, moved, c, q);
    }
  }

  /** `MoveStep` at one path. */
  lemma MoveStepAt(u: Tree, s: Tree, w: string, moved: set<string>, c: string, q: Path)
    requires c !in moved && w !in moved && c != w
    requires Relocated(u, s, w, moved)
    ensures Agrees(u, Move(s, Wrapper(w) + [c], Td + [c]), w, moved + {c}, q)
  {
    var W := Wrapper(w);
    var f, d := W + [c], Td + [c];
    var moved' := moved + {c};
    if Within(d, q) {
      var o := f + q[|d|..];
      assert q[..|Td|] == Td && q[|Td|] == c;
      assert Origin(w, moved', q) == Some(W + q[|Td|..]);
      assert W + q[|Td|..] == o by { assert q[|Td|..] == [c] + q[|d|..]; }
      assert o[..|Td| + 1] == W && o[|Td|] == w && o[|Td| + 1] == c;
      assert Origin(w, moved, o) == Some(o);
      assert Agrees(u, s, w, moved, o);
    } else if Within(f, q) {
      assert q[..|Td|] == Td && q[|Td|] == w;
      assert q[..|Td| + 1] == W && q[|Td| + 1] == c;
      assert Origin(w, moved', q) == None;
    } else {
      assert Agrees(u, s, w, moved, q);
      assert Origin(w, moved', q) == Origin(w, moved, q);
    }
  }

  /** The flatten loop relocates every listed child of the wrapper. */
  lemma {:induction false} MoveAllRelocates(u: Tree, w: string, order: seq<string>)
    requires Wf(u) && SingleWrapper(u, w)
    requires forall k | 0 <= k < |order| :: order[k] in Children(u, Wrapper(w))
    requires forall k, l | 0 <= k < l < |order| :: order[k] != order[l]
    ensures Relocated(u, MoveAll(u, w, order), w, set c | c in order)
    decreases |order|
  {
    if |order| == 0 {
      forall q ensures Agrees(u, u, w, {}, q) { }
    } else {
      var init := order[..|order| - 1];
      var c := order[|order| - 1];
      MoveAllRelocates(u, w, init);
      var moved := set x | x in init;
      assert order == init + [c];
      LastIsNew(order, init, c);
      assert w !in moved;
      var s := MoveAll(u, w, init);
      MoveStep(u, s, w, moved, c);
      assert MoveAll(u, w, order) == Rename(s, TargetDir + [w] + [c], TargetDir + [c]).tree;
    }
  }

  /** The last name of a list without repeats is not among the earlier
      ones. */
  lemma LastIsNew(order: seq<string>, init: seq<string>, c: string)
    requires order == init + [c]
    requires forall k, l | 0 <= k < l < |order| :: order[k] != order[l]
    ensures c !in (set x | x in init)
    ensures (set x | x in order) == (set x | x in init) + {c}
  {
    forall k | 0 <= k < |init| ensures init[k] != c {
      assert init[k] == order[k] && c == order[|init|];
    }
  }

  /** What `Cleanup` removes: the wrapper with everything in it, the
      directories `.git` and `.github` of `target_dir` with everything in
      them (a file of either name stays), and the archive file. */
  lemma CleanupFacts(s: Tree, w: string)
    requires Wf(s) && Normal(w) && Wrapper(w) in s && s[Wrapper(w)].Dir?
    ensures var r := Cleanup(s, w);
      && (forall q | Within(Wrapper(w), q) :: q !in r)
      && (forall q | Within(Td + [".git"], q) && q in r :: q == Td + [".git"] && r[q].File?)
      && (forall q | Within(Td + [".github"], q) && q in r :: q == Td + [".github"] && r[q].File?)
      && (ZipPath in r ==> s[ZipPath].Dir?)
      && (forall q | !Within(Wrapper(w), q) && !Within(Td + [".git"], q) && !Within(Td + [".github"], q) && q != ZipPath ::
            Same(s, r, q))
  {
    var W := Wrapper(w);
    BelowTarget([w]);
    BelowTarget([".git"]);
    BelowTarget([".github"]);
    TargetDirResolves();
    var a := RemoveDirAll(s, TargetDir + [w]).tree;
    var b := RemoveDirAll(a, TargetDir + [".git"]).tree;
    var c := RemoveDirAll(b, TargetDir + [".github"]).tree;
    var r := RemoveFile(c, ZipPath).tree;
    assert r == Cleanup(s, w);
    TdNotImplicit();
    NothingLeftUnder(a, TargetDir + [".git"]);
    NothingLeftUnder(b, TargetDir + [".github"]);
  }

  /** After `remove_dir_all(raw)`, whatever its result, a path within it
      can only be the path itself, as a file. */
  lemma NothingLeftUnder(t: Tree, raw: Path)
    requires Wf(t) && !Implicit(Resolve(raw))
    ensures var d, r := Resolve(raw), RemoveDirAll(t, raw).tree;
      forall q | Within(d, q) && q in r :: q == d && r[q].File?
  {
    var d := Resolve(raw);
    var e := RemoveDirAll(t, raw);
    if !e.ok {
      forall q | Within(d, q) && q in e.tree ensures q == d && e.tree[q].File? {
        if q != d {
          UnderFile(t, d, q);
        }
      }
    }
  }

  /** A key `d + [c]` makes `c` a name listed in `d`. */
  lemma Listed(u: Tree, d: Path, c: string)
    requires d + [c] in u
    ensures c in Children(u, d)
  {
    assert (d + [c])[..|d|] == d && (d + [c])[|d|] == c;
  }

  /** Flattening a single wrapper: when `target_dir` holds just the folder
      `w` and `read_dir` lists each of its children once, `gmod13_open`
      returns 0, every path below `w` (but inside `.git` and `.github`)
      now sits one level up, `w` is gone, `.git` and `.github` are gone
      unless they are files, and nothing outside `target_dir` changes but
      the archive file, which is removed. */
  lemma SingleWrapperFlattens(u: Tree, w: string, order: seq<string>)
    requires Wf(u) && SingleWrapper(u, w) && ListsOnce(order, Children(u, Wrapper(w)))
    ensures Install(u, w, order).exit == Returned(0)
    ensures Flattened(u, Install(u, w, order).tree, w)
  {
    var W := Wrapper(w);
    var moved := set c | c in order;
    assert moved == Children(u, W);
    TdNotImplicit();
    ChildNormal(u, Td, w);
    BelowTarget([w]);
    MoveAllRelocates(u, w, order);
    var s := MoveAll(u, w, order);
    assert Install(u, w, order) == Run(Returned(0), Cleanup(s, w));
    CleanupRelocated(u, s, w, moved);
  }

  /** The tree `r` is `u` with the wrapper `w` flattened into `target_dir`
      and `.git`, `.github` and the archive removed. */
  ghost predicate Flattened(u: Tree, r: Tree, w: string) {
    && (forall q | Within(Td, q) && |q| > |Td| && q[|Td|] != ".git" && q[|Td|] != ".github" ::
          && (q in r <==> Wrapper(w) + q[|Td|..] in u)
          && (q in r ==> r[q] == u[Wrapper(w) + q[|Td|..]]))
    && (forall q | Within(Td + [".git"], q) && q in r :: q == Td + [".git"] && r[q].File?)
    && (forall q | Within(Td + [".github"], q) && q in r :: q == Td + [".github"] && r[q].File?)
    && Td in r && r[Td] == Dir
    && (forall q | !Within(Td, q) && q != ZipPath :: Same(u, r, q))
    && (!IsDir(u, ZipPath) ==> ZipPath !in r)
  }

  /** `Cleanup` after the whole wrapper has been relocated. */
  lemma CleanupRelocated(u: Tree, s: Tree, w: string, moved: set<string>)
    requires Wf(u) && Wf(s) && SingleWrapper(u, w) && moved == Children(u, Wrapper(w))
    requires Normal(w) && Relocated(u, s, w, moved)
    ensures Flattened(u, Cleanup(s, w), w)
  {
    var W := Wrapper(w);
    assert Agrees(u, s, w, moved, W) && Origin(w, moved, W) == Some(W);
    CleanupFacts(s, w);
    var r := Cleanup(s, w);
    CleanupInside(u, s, r, w, moved);
    CleanupOutside(u, s, r, w, moved);
  }

  lemma CleanupInside(u: Tree, s: Tree, r: Tree, w: string, moved: set<string>)
    requires Wf(u) && SingleWrapper(u, w) && moved == Children(u, Wrapper(w))
    requires Relocated(u, s, w, moved)
    requires forall p | Within(Wrapper(w), p) :: p !in r
    requires forall p | !Within(Wrapper(w), p) && !Within(Td + [".git"], p) && !Within(Td + [".github"], p) && p != ZipPath ::
      Same(s, r, p)
    ensures forall q | Within(Td, q) && |q| > |Td| && q[|Td|] != ".git" && q[|Td|] != ".github" ::
      && (q in r <==> Wrapper(w) + q[|Td|..] in u)
      && (q in r ==> r[q] == u[Wrapper(w) + q[|Td|..]])
  {
    forall q | Within(Td, q) && |q| > |Td| && q[|Td|] != ".git" && q[|Td|] != ".github"
      ensures (q in r <==> Wrapper(w) + q[|Td|..] in u) && (q in r ==> r[q] == u[Wrapper(w) + q[|Td|..]])
    {
      FlattenAt(u, s, r, w, moved, q);
    }
  }

  lemma CleanupOutside(u: Tree, s: Tree, r: Tree, w: string, moved: set<string>)
    requires SingleWrapper(u, w) && Relocated(u, s, w, moved)
    requires forall p | !Within(Wrapper(w), p) && !Within(Td + [".git"], p) && !Within(Td + [".github"], p) && p != ZipPath ::
      Same(s, r, p)
    requires ZipPath in r ==> ZipPath in s && s[ZipPath].Dir?
    ensures Td in r && r[Td] == Dir
    ensures forall q | !Within(Td, q) && q != ZipPath :: Same(u, r, q)
    ensures !IsDir(u, ZipPath) ==> ZipPath !in r
  {
    var W := Wrapper(w);
    TdNotImplicit();
    forall q | !Within(Td, q) && q != ZipPath ensures Same(u, r, q) {
      assert Agrees(u, s, w, moved, q);
      assert !Within(W, q) && !Within(Td + [".git"], q) && !Within(Td + [".github"], q);
    }
    assert Agrees(u, s, w, moved, Td);
    assert !Within(W, Td) && !Within(Td + [".git"], Td) && !Within(Td + [".github"], Td);
    assert Agrees(u, s, w, moved, ZipPath) && Origin(w, moved, ZipPath) == Some(ZipPath);
  }

  /** `SingleWrapperFlattens` at one path below `target_dir`. */
  lemma FlattenAt(u: Tree, s: Tree, r: Tree, w: string, moved: set<string>, q: Path)
    requires Wf(u) && SingleWrapper(u, w) && moved == Children(u, Wrapper(w))
    requires Relocated(u, s, w, moved)
    requires Within(Td, q) && |q| > |Td| && q[|Td|] != ".git" && q[|Td|] != ".github"
    requires forall p | Within(Wrapper(w), p) :: p !in r
    requires forall p | !Within(Wrapper(w), p) && !Within(Td + [".git"], p) && !Within(Td + [".github"], p) && p != ZipPath ::
      Same(s, r, p)
    ensures q in r <==> Wrapper(w) + q[|Td|..] in u
    ensures q in r ==> r[q] == u[Wrapper(w) + q[|Td|..]]
  {
    var W := Wrapper(w);
    var c := q[|Td|];
    var o := W + q[|Td|..];
    TdNotImplicit();
    assert Agrees(u, s, w, moved, q);
    assert o[..|W|] == W && o[|W|] == c;
    assert o in u ==> c in moved by {
      if o in u { UnderChild(u, W, o); Listed(u, W, c); }
    }
    assert !Within(Td + [".git"], q) && !Within(Td + [".github"], q) && q != ZipPath by {
      assert q[..|Td| + 1] == Td + [c];
    }
    if c == w {
      assert Within(W, q) by { assert q[..|W|] == W; }
    } else {
      assert !Within(W, q);
      if c !in moved {
        assert q in u ==> c in Children(u, Td) by {
          if q in u { UnderChild(u, Td, q); Listed(u, Td, c); }
        }
        assert Origin(w, moved, q) == Some(q);
      }
    }
  }

  /** Renames between children of `target_dir` leave every path that is
      not below `target_dir` as it was, `target_dir` included. */
  lemma {:induction false} MoveAllFrame(u: Tree, w: string, order: seq<string>, q: Path)
    requires Normal(w) && forall k | 0 <= k < |order| :: Normal(order[k])
    requires !Within(Td, q) || |q| <= |Td|
    ensures Same(u, MoveAll(u, w, order), q)
    decreases |order|
  {
    if |order| > 0 {
      var init := order[..|order| - 1];
      var c := order[|order| - 1];
      MoveAllFrame(u, w, init, q);
      MoveOutside(w, c, q);
      var s := MoveAll(u, w, init);
      RenameFrame(s, TargetDir + [w] + [c], TargetDir + [c], q);
      assert MoveAll(u, w, order) == Rename(s, TargetDir + [w] + [c], TargetDir + [c]).tree;
    }
  }

  /** One rename of the flatten loop touches nothing outside `target_dir`,
      nor `target_dir` itself. */
  lemma MoveOutside(w: string, c: string, q: Path)
    requires Normal(w) && Normal(c)
    requires !Within(Td, q) || |q| <= |Td|
    ensures !Within(Resolve(TargetDir + [w] + [c]), q) && !Within(Resolve(TargetDir + [c]), q)
  {
    assert TargetDir + [w] + [c] == TargetDir + [w, c];
    BelowTarget([w, c]);
    BelowTarget([c]);
    if |q| > |Td| { assert q[..|Td|] == (q[..|Td| + 1])[..|Td|]; }
  }

  /** `Cleanup` leaves `target_dir` and everything above it alone, and
      leaves nothing at the archive path but a directory. */
  lemma CleanupKeeps(s: Tree, w: string, q: Path)
    requires Normal(w) && q != ZipPath && |q| <= |Td|
    ensures Same(s, Cleanup(s, w), q)
    ensures ZipPath in Cleanup(s, w) ==> ZipPath in s && s[ZipPath].Dir?
  {
    var a := RemoveDirAll(s, TargetDir + [w]).tree;
    var b := RemoveDirAll(a, TargetDir + [".git"]).tree;
    var c := RemoveDirAll(b, TargetDir + [".github"]).tree;
    CleanupRemovesBelow(w, q);
    RemoveDirAllFrame(s, TargetDir + [w], q);
    RemoveDirAllFrame(a, TargetDir + [".git"], q);
    RemoveDirAllFrame(b, TargetDir + [".github"], q);
    TargetDirResolves();
    assert Cleanup(s, w) == RemoveFile(c, ZipPath).tree;
  }

  /** The three directories `Cleanup` removes lie strictly below
      `target_dir`. */
  lemma CleanupRemovesBelow(w: string, q: Path)
    requires Normal(w) && |q| <= |Td|
    ensures !Within(Resolve(TargetDir + [w]), q)
    ensures !Within(Resolve(TargetDir + [".git"]), q)
    ensures !Within(Resolve(TargetDir + [".github"]), q)
  {
    BelowTarget([w]);
    BelowTarget([".git"]);
    BelowTarget([".github"]);
  }

  /** A file stands where `target_dir` or one of its ancestors must be. */
  predicate Blocked(t: Tree) {
    IsFile(t, Td[..1]) || IsFile(t, Td[..2]) || IsFile(t, Td)
  }

  /** Lines 18-94: every failure before the extraction returns 1. A failed
      release request, download or body leaves the filesystem untouched
      (lines 18-58); so does a failed write of the archive, which happens
      exactly when a directory is in its way (lines 62-65); an archive
      `ZipArchive::new` rejects (lines 69-83) and a `target_dir` whose way
      is blocked by a file (lines 85-94) leave only the archive written. */
  lemma EarlyReturns(t: Tree, fetch: ReleaseFetch, download: Response,
                     unzip: Bytes -> Option<seq<Member>>, w: string, order: seq<string>)
    requires Wf(t)
    ensures var r := Update(t, fetch, download, unzip, w, order);
      && (!fetch.Latest? || !download.Responded? || !download.complete ==> r == Run(Returned(1), t))
      && (fetch.Latest? && download.Responded? && download.complete ==>
            var written := t[ZipPath := File(download.body)];
            && (IsDir(t, ZipPath) ==> r == Run(Returned(1), t))
            && (!IsDir(t, ZipPath) && unzip(download.body).None? ==> r == Run(Returned(1), written))
            && (!IsDir(t, ZipPath) && unzip(download.body).Some? && Blocked(t) ==> r == Run(Returned(1), written)))
  {
    if fetch.Latest? && download.Responded? && download.complete {
      var zip := Write(t, ZipPath, download.body);
      ArchiveWritten(t, download.body);
      if zip.ok {
        var written := t[ZipPath := File(download.body)];
        match unzip(download.body)
        case None =>
          assert Prepare(t, fetch, download, unzip) == Stopped(Run(Returned(1), written));
        case Some(members) =>
          ResetBlocked(t, download.body);
          if Blocked(t) {
            assert Prepare(t, fetch, download, unzip) == Stopped(Run(Returned(1), written));
          }
      } else {
        assert Prepare(t, fetch, download, unzip) == Stopped(Run(Returned(1), t));
      }
    }
  }

  /** The run gets past the extraction when the release and the archive
      arrive, nothing is in the way of the archive or of `target_dir`, and
      the archive holds plain relative names that do not clash. */
  lemma ArchiveReachesFlatten(t: Tree, fetch: ReleaseFetch, download: Response,
                              unzip: Bytes -> Option<seq<Member>>)
    requires Wf(t) && fetch.Latest? && download.Responded? && download.complete
    requires !IsDir(t, ZipPath) && !Blocked(t) && unzip(download.body).Some?
    requires forall k | 0 <= k < |unzip(download.body).value| :: Ordinary(unzip(download.body).value[k])
    requires Compatible(unzip(download.body).value)
    ensures Prepare(t, fetch, download, unzip).Extracted?
  {
    var written := Write(t, ZipPath, download.body).tree;
    ArchiveWritten(t, download.body);
    ResetBlocked(t, download.body);
    ArchiveExtracted(written, unzip(download.body).value);
  }

  /** Before the wrapper is picked, `gmod13_open` can only stop with 1 or
      a panic; once the archive was written it stays a file through the
      reset and the extraction. */
  lemma PrepareKeepsArchive(t: Tree, fetch: ReleaseFetch, download: Response,
                            unzip: Bytes -> Option<seq<Member>>)
    requires Wf(t)
    ensures var s := Prepare(t, fetch, download, unzip);
      && (s.Stopped? ==> s.run.exit != Returned(0))
      && (s.Extracted? ==> IsFile(s.tree, ZipPath))
      && (fetch.Latest? && download.Responded? && download.complete && CreateFile(t, ZipPath).ok ==>
            IsFile(if s.Stopped? then s.run.tree else s.tree, ZipPath))
  {
    if fetch.Latest? && download.Responded? && download.complete {
      var zip := Write(t, ZipPath, download.body);
      ArchiveWritten(t, download.body);
      if zip.ok {
        if unzip(download.body).Some? {
          var members := unzip(download.body).value;
          ArchiveSurvives(zip.tree, members);
          var reset := Reset(zip.tree);
          if reset.ok {
            var x := ExtractAll(reset.tree, members);
            assert Prepare(t, fetch, download, unzip)
              == if x.panicked then Stopped(Run(Panicked, x.tree)) else Extracted(x.tree);
          } else {
            assert Prepare(t, fetch, download, unzip) == Stopped(Run(Returned(1), reset.tree));
          }
        } else {
          assert Prepare(t, fetch, download, unzip) == Stopped(Run(Returned(1), zip.tree));
        }
      } else {
        assert Prepare(t, fetch, download, unzip) == Stopped(Run(Returned(1), t));
      }
    }
  }

  /** A successful `fs::write` of the archive leaves a file at its path. */
  lemma ArchiveWritten(t: Tree, body: Bytes)
    ensures var zip := Write(t, ZipPath, body);
      && (zip.ok <==> !IsDir(t, ZipPath))
      && (zip.ok ==> zip.tree == t[ZipPath := File(body)] && IsFile(zip.tree, ZipPath))
  {
    TargetDirResolves();
  }

  /** The reset after the archive was written fails exactly when a file
      blocks `target_dir`, and then changes nothing. */
  lemma ResetBlocked(t: Tree, body: Bytes)
    requires Wf(t) && Wf(t[ZipPath := File(body)])
    ensures var reset := Reset(t[ZipPath := File(body)]);
      && (!reset.ok <==> Blocked(t))
      && (!reset.ok ==> reset.tree == t[ZipPath := File(body)])
  {
    assert Td[..1][0] == "garrysmod" && |"garrysmod"| != |ZipPath[0]|;
  }

  /** The reset and the extraction keep an archive file a file. */
  lemma ArchiveSurvives(z: Tree, members: seq<Member>)
    requires Wf(z) && IsFile(z, ZipPath)
    ensures var reset := Reset(z);
      && IsFile(reset.tree, ZipPath)
      && (reset.ok ==> IsFile(ExtractAll(reset.tree, members).tree, ZipPath))
  {
    TargetDirResolves();
    assert !Within(Td, ZipPath);
  }

  /** After extraction, the archive file goes exactly when the flatten
      step returns 0, and `target_dir` is then still a directory. */
  lemma InstallArchive(u: Tree, w: string, order: seq<string>)
    requires Wf(u) && Listing(u, w, order) && IsFile(u, ZipPath)
    ensures var r := Install(u, w, order);
      && (r.exit == Returned(0) ==> ZipPath !in r.tree && Td in r.tree && r.tree[Td] == Dir)
      && (r.exit != Returned(0) ==> IsFile(r.tree, ZipPath))
  {
    TargetDirResolves();
    TdNotImplicit();
    if IsDir(u, Td) && Children(u, Td) != {} {
      ChildNormal(u, Td, w);
      BelowTarget([w]);
      if IsDir(u, Wrapper(w)) {
        forall k | 0 <= k < |order| ensures Normal(order[k]) {
          ChildNormal(u, Wrapper(w), order[k]);
        }
        MoveAllFrame(u, w, order, ZipPath);
        MoveAllFrame(u, w, order, Td);
        CleanupKeeps(MoveAll(u, w, order), w, Td);
      }
    }
  }

  /** The archive file is removed exactly when `gmod13_open` returns 0: a
      failure or a panic after the archive was written leaves it behind,
      and on success `target_dir` is still a directory. */
  lemma ArchiveKeptUnlessFlattened(t: Tree, fetch: ReleaseFetch, download: Response,
                                   unzip: Bytes -> Option<seq<Member>>, w: string, order: seq<string>)
    requires Wf(t) && Fits(t, fetch, download, unzip, w, order)
    ensures var r := Update(t, fetch, download, unzip, w, order);
      && (r.exit == Returned(0) ==> ZipPath !in r.tree && Td in r.tree && r.tree[Td] == Dir)
      && (fetch.Latest? && download.Responded? && download.complete && CreateFile(t, ZipPath).ok ==>
            (r.exit != Returned(0) ==> IsFile(r.tree, ZipPath)))
  {
    PrepareKeepsArchive(t, fetch, download, unzip);
    var s := Prepare(t, fetch, download, unzip);
    if s.Extracted? {
      InstallArchive(s.tree, w, order);
    }
  }

  /** `gmod13_open` of the real loader on the filesystem. The name picked
      as the wrapper and the order the wrapper's children are renamed in
      are what `read_dir` chose; they are returned for the contract. */
  method Open(fs: FileSystem, fetch: ReleaseFetch, download: Response,
              unzip: Bytes -> Option<seq<Member>>)
    returns (e: Exit, ghost w: string, ghost order: seq<string>)
    requires fs.Valid()
    modifies fs
    ensures fs.Valid()
    ensures Fits(old(fs.nodes), fetch, download, unzip, w, order)
    ensures Run(e, fs.nodes) == Update(old(fs.nodes), fetch, download, unzip, w, order)
  {
    w, order := "", [];
    if !fetch.Latest? || !download.Responded? || !download.complete {
      return Returned(1), w, order;
    }
    var ok := fs.Write(ZipPath, download.body);
    if !ok {
      return Returned(1), w, order;
    }
    var archive := unzip(download.body);
    if archive.None? {
      return Returned(1), w, order;
    }
    ok := ResetTarget(fs);
    if !ok {
      return Returned(1), w, order;
    }
    var panicked := Extract(fs, archive.value);
    if panicked {
      return Panicked, w, order;
    }
    e, w, order := Flatten(fs);
  }

  /** Lines 85-94 on the filesystem. */
  method ResetTarget(fs: FileSystem) returns (ok: bool)
    requires fs.Valid()
    modifies fs
    ensures fs.Valid()
    ensures Effect(ok, fs.nodes) == Reset(old(fs.nodes))
  {
    if fs.Exists(TargetDir) {
      var _ := fs.RemoveDirAll(TargetDir);
    }
    ok := fs.CreateDirAll(TargetDir);
  }

  /** The extraction loop (lines 96-109) on the filesystem; `panicked`
      says whether an `expect` failed. */
  method Extract(fs: FileSystem, members: seq<Member>) returns (panicked: bool)
    requires fs.Valid()
    modifies fs
    ensures fs.Valid()
    ensures Extraction(panicked, fs.nodes) == ExtractAll(old(fs.nodes), members)
  {
    ghost var reset := fs.nodes;
    panicked := false;
    for i := 0 to |members|
      invariant fs.Valid()
      invariant ExtractAll(reset, members[..i]) == Extraction(false, fs.nodes)
    {
      assert members[..i + 1][..i] == members[..i];
      panicked := ExtractEntry(fs, members[i]);
      if panicked {
        PanicSticks(reset, members, i + 1);
        return;
      }
    }
    assert members[..|members|] == members;
  }

  /** One turn of the extraction loop on the filesystem. */
  method ExtractEntry(fs: FileSystem, m: Member) returns (panicked: bool)
    requires fs.Valid()
    modifies fs
    ensures fs.Valid()
    ensures Extraction(panicked, fs.nodes) == ExtractOne(old(fs.nodes), m)
  {
    if m.Unreadable? {
      return true;
    }
    var out := Join(TargetDir, m.name);
    if m.isDir {
      var _ := fs.CreateDirAll(out);
    } else {
      var parent := LexParent(out);
      if parent.Some? {
        var _ := fs.CreateDirAll(parent.value);
      }
      var ok := fs.CreateFile(out);
      if !ok {
        return true;
      }
      fs.Append(out, m.data);
    }
    panicked := false;
  }

  /** Lines 111-140 on the filesystem: pick the wrapper, move its children
      up, clean up. */
  method Flatten(fs: FileSystem) returns (e: Exit, ghost w: string, ghost order: seq<string>)
    requires fs.Valid()
    modifies fs
    ensures fs.Valid()
    ensures Listing(old(fs.nodes), w, order)
    ensures Run(e, fs.nodes) == Install(old(fs.nodes), w, order)
  {
    w, order := "", [];
    var listed, names := fs.ReadDir(TargetDir);
    TargetDirResolves();
    if !listed {
      return Panicked, w, order;
    }
    if names == {} {
      return Returned(1), w, order;
    }
    var wrapper :| wrapper in names;
    w := wrapper;
    var root := TargetDir + [wrapper];
    var readable, entries := fs.ReadDir(root);
    TdNotImplicit();
    ChildNormal(fs.nodes, Td, wrapper);
    BelowTarget([wrapper]);
    if !readable {
      return Panicked, w, order;
    }
    order := MoveChildren(fs, wrapper, entries);
    var _ := fs.RemoveDirAll(root);
    var _ := fs.RemoveDirAll(TargetDir + [".git"]);
    var _ := fs.RemoveDirAll(TargetDir + [".github"]);
    var _ := fs.RemoveFile(ZipPath);
    e := Returned(0);
  }

  /** The flatten loop (lines 124-130) on the filesystem: rename each of
      `names` from the wrapper `w` into `target_dir`, in an order of the
      listing's choosing. */
  method MoveChildren(fs: FileSystem, w: string, names: set<string>) returns (ghost order: seq<string>)
    requires fs.Valid()
    modifies fs
    ensures fs.Valid()
    ensures ListsOnce(order, names)
    ensures fs.nodes == MoveAll(old(fs.nodes), w, order)
  {
    order := [];
    var rest := names;
    while rest != {}
      invariant fs.Valid()
      invariant fs.nodes == MoveAll(old(fs.nodes), w, order)
      invariant rest <= names
      invariant forall k | 0 <= k < |order| :: order[k] in names && order[k] !in rest
      invariant forall k, l | 0 <= k < l < |order| :: order[k] != order[l]
      invariant forall c | c in names :: c in rest || c in order
      decreases |rest|
    {
      var c :| c in rest;
      var _ := fs.Rename(TargetDir + [w] + [c], TargetDir + [c]);
      order := order + [c];
      rest := rest - {c};
    }
  }
}
