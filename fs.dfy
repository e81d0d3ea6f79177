/** The filesystem state and the `std::fs` operations the two crates call,
    each as a function from the old state to a success flag and the new
    state.

    A state maps resolved paths to nodes. The working directory (the empty
    path) and the root are always directories and are never keys. Failures
    are the structural ones the operating system reports: a missing parent,
    a file where a directory is needed and the other way round, a rename
    onto a non-empty directory or into its own subtree. */
module Fs {
  import opened Paths

  type Byte = x: int | 0 <= x < 256
  type Bytes = seq<Byte>

  datatype Node = File(data: Bytes) | Dir

  type Tree = map<Path, Node>

  /** What an operation reports, and the state it leaves. */
  datatype Effect = Effect(ok: bool, tree: Tree)

  /** The working directory and the root, which always exist. */
  predicate Implicit(p: Path) {
    p == [] || p == [Root]
  }

  predicate IsDir(t: Tree, p: Path) {
    Implicit(p) || (p in t && t[p].Dir?)
  }

  predicate IsFile(t: Tree, p: Path) {
    p in t && t[p].File?
  }

  /** Directory containing a key. */
  function Up(p: Path): Path
    requires |p| > 0
  {
    p[..|p| - 1]
  }

  /** Membership, named so that `Wf` can be instantiated on demand only:
      triggering on `q in t` itself would instantiate `Wf` again at every
      parent it mentions. */
  predicate InTree(t: Tree, q: Path) {
    q in t
  }

  /** The state is a tree: keys are resolved, and every key sits in a
      directory. */
  ghost predicate Wf(t: Tree) {
    forall q {:trigger InTree(t, q)} | InTree(t, q) :: Canonical(q) && !Implicit(q) && IsDir(t, Up(q))
  }

  /** The path is unchanged from `t` to `r`: present in both or in neither,
      with the same node. */
  predicate Same(t: Tree, r: Tree, q: Path) {
    (q in r <==> q in t) && (q in t ==> r[q] == t[q])
  }

  /** Names listed by `read_dir(d)`. */
  function Children(t: Tree, d: Path): set<string> {
    set q | q in t && |q| == |d| + 1 && q[..|d|] == d :: q[|d|]
  }

  /** `Path::exists`. */
  predicate Exists(t: Tree, raw: Path) {
    var p := Resolve(raw);
    Implicit(p) || p in t
  }

  /** `fs::create_dir_all`: succeeds when no prefix of the path is a file,
      and then adds every missing prefix as a directory. */
  function CreateDirAll(t: Tree, raw: Path): (e: Effect)
    ensures var p := Resolve(raw);
      e.ok <==> forall i | 1 <= i <= |p| :: !IsFile(t, p[..i])
    ensures e.ok ==> IsDir(e.tree, Resolve(raw))
    ensures e.ok ==> forall i | 1 <= i <= |Resolve(raw)| :: IsDir(e.tree, Resolve(raw)[..i])
    ensures forall q | q in t :: q in e.tree && e.tree[q] == t[q]
    ensures forall q | q in e.tree && q !in t :: e.tree[q] == Dir && Within(q, Resolve(raw))
    ensures !e.ok ==> e.tree == t
    ensures Wf(t) ==> Wf(e.tree)
  {
    var p := Resolve(raw);
    if exists i | 1 <= i <= |p| :: IsFile(t, p[..i]) then Effect(false, t)
    else
      var r := t + Prefixes(t, p);
      PrefixesFacts(t, p);
      assert |p| == 0 ==> p == [];
      assert p[..|p|] == p;
      Effect(true, r)
  }

  /** Every prefix of `p` missing from `t`, as a directory. */
  function Prefixes(t: Tree, p: Path): map<Path, Node> {
    map i | 1 <= i <= |p| && p[..i] !in t && !Implicit(p[..i]) :: p[..i] := Dir
  }

  lemma PrefixesFacts(t: Tree, p: Path)
    requires Canonical(p)
    requires forall i | 1 <= i <= |p| :: !IsFile(t, p[..i])
    ensures var r := t + Prefixes(t, p);
      && (forall i | 1 <= i <= |p| :: IsDir(r, p[..i]))
      && (Wf(t) ==> Wf(r))
  {
    var added := Prefixes(t, p);
    var r := t + added;
    forall i | 1 <= i <= |p| ensures IsDir(r, p[..i]) {
      if p[..i] !in t && !Implicit(p[..i]) { assert p[..i] in added; }
    }
    if Wf(t) {
      forall q | InTree(r, q) ensures Canonical(q) && !Implicit(q) && IsDir(r, Up(q)) {
        if q in t {
          assert InTree(t, q);
        } else {
          var i :| 1 <= i <= |p| && p[..i] == q && p[..i] !in t && !Implicit(p[..i]);
          CanonicalPrefix(p, i);
          assert Up(q) == p[..i - 1];
          if i > 1 { assert IsDir(r, p[..i - 1]); }
        }
      }
    }
  }

  /** `File::create`: the parent must be a directory and the path must not
      be one; the file is created or truncated to zero bytes. */
  function CreateFile(t: Tree, raw: Path): (e: Effect)
    ensures var p := Resolve(raw);
      e.ok <==> Named(p) && IsDir(t, Up(p)) && !IsDir(t, p)
    ensures e.ok ==> e.tree == t[Resolve(raw) := File([])]
    ensures !e.ok ==> e.tree == t
    ensures Wf(t) ==> Wf(e.tree)
  {
    var p := Resolve(raw);
    if Named(p) && IsDir(t, Up(p)) && !IsDir(t, p) then
      var r := t[p := File([])];
      assert Wf(t) ==> Wf(r) by {
        if Wf(t) {
          forall q | InTree(r, q) ensures Canonical(q) && !Implicit(q) && IsDir(r, Up(q)) {
            if q != p { assert InTree(t, q); }
          }
        }
      }
      Effect(true, r)
    else Effect(false, t)
  }

  /** Bytes written through an open handle to the file at a resolved path. */
  function Append(t: Tree, p: Path, data: Bytes): (r: Tree)
    requires IsFile(t, p)
    ensures r.Keys == t.Keys
    ensures r[p] == File(t[p].data + data)
    ensures forall q | q in t && q != p :: r[q] == t[q]
    ensures Wf(t) ==> Wf(r)
  {
    var r := t[p := File(t[p].data + data)];
    assert Wf(t) ==> Wf(r) by {
      if Wf(t) {
        forall q | InTree(r, q) ensures Canonical(q) && !Implicit(q) && IsDir(r, Up(q)) {
          assert InTree(t, q);
        }
      }
    }
    r
  }

  /** `fs::write`: create or truncate, then write all of `data`. */
  function Write(t: Tree, raw: Path, data: Bytes): (e: Effect)
    ensures e.ok == CreateFile(t, raw).ok
    ensures e.ok ==> e.tree == t[Resolve(raw) := File(data)]
    ensures !e.ok ==> e.tree == t
    ensures Wf(t) ==> Wf(e.tree)
  {
    var c := CreateFile(t, raw);
    if c.ok then
      assert [] + data == data;
      Effect(true, Append(c.tree, Resolve(raw), data))
    else c
  }

  /** The directory `d` has no entries. */
  predicate Empty(t: Tree, d: Path) {
    forall q | q in t :: !(Within(d, q) && q != d)
  }

  /** The whole subtree at `f` moved to `d`; whatever was at `d` is gone. */
  function Move(t: Tree, f: Path, d: Path): (r: Tree)
    ensures forall q :: q in r <==> if Within(d, q) then f + q[|d|..] in t else q in t && !Within(f, q)
    ensures forall q | q in r :: r[q] == if Within(d, q) then t[f + q[|d|..]] else t[q]
  {
    var r := Kept(t, f, d) + Shifted(t, f, d);
    forall q ensures (q in r <==> if Within(d, q) then f + q[|d|..] in t else q in t && !Within(f, q))
      && (q in r ==> r[q] == if Within(d, q) then t[f + q[|d|..]] else t[q])
    {
      MoveAt(t, f, d, q);
    }
    r
  }

  /** The nodes outside both subtrees. */
  function Kept(t: Tree, f: Path, d: Path): map<Path, Node> {
    map q | q in t && !Within(f, q) && !Within(d, q) :: t[q]
  }

  /** The subtree at `f`, re-rooted at `d`. */
  function Shifted(t: Tree, f: Path, d: Path): map<Path, Node> {
    ShiftInjective(t, f, d);
    map q | q in t && Within(f, q) :: d + q[|f|..] := t[q]
  }

  lemma ShiftInjective(t: Tree, f: Path, d: Path)
    ensures forall q1, q2 | q1 in t && Within(f, q1) && q2 in t && Within(f, q2) && d + q1[|f|..] == d + q2[|f|..] :: q1 == q2
  {
    forall q1, q2 | q1 in t && Within(f, q1) && q2 in t && Within(f, q2) && d + q1[|f|..] == d + q2[|f|..]
      ensures q1 == q2
    {
      assert q1[|f|..] == (d + q1[|f|..])[|d|..];
      assert q2[|f|..] == (d + q2[|f|..])[|d|..];
      assert q1 == q1[..|f|] + q1[|f|..];
      assert q2 == q2[..|f|] + q2[|f|..];
    }
  }

  /** `r` agrees at `q` with the move of `f` to `d` in `t`. */
  predicate MovedAt(t: Tree, f: Path, d: Path, r: Tree, q: Path) {
    && (q in r <==> if Within(d, q) then f + q[|d|..] in t else q in t && !Within(f, q))
    && (q in r ==> r[q] == if Within(d, q) then t[f + q[|d|..]] else t[q])
  }

  lemma MoveAt(t: Tree, f: Path, d: Path, q: Path)
    ensures MovedAt(t, f, d, Kept(t, f, d) + Shifted(t, f, d), q)
  {
    var kept, moved := Kept(t, f, d), Shifted(t, f, d);
    ShiftInjective(t, f, d);
    if Within(d, q) {
      var s := f + q[|d|..];
      assert s[|f|..] == q[|d|..];
      assert q == d + s[|f|..] by { assert q == q[..|d|] + q[|d|..]; }
      if s in t {
        assert Within(f, s) && d + s[|f|..] == q;
        assert q in moved && moved[q] == t[s];
      }
      if q in moved {
        var q' :| q' in t && Within(f, q') && d + q'[|f|..] == q;
        assert q'[|f|..] == q[|d|..];
        assert q' == q'[..|f|] + q'[|f|..];
      }
    } else {
      assert q !in moved;
    }
  }

  /** A path whose last component names a file or directory (not "..").
      `rename` and `File::create` refuse any other. */
  predicate Named(p: Path) {
    |p| > 0 && Normal(p[|p| - 1])
  }

  /** When the rename of `f` to `d` goes through: `f` exists, the parent of
      `d` is a directory, `d` is not inside `f`, and `d` is absent, or a file
      replaced by a file, or an empty directory replaced by a directory. */
  predicate CanRename(t: Tree, f: Path, d: Path) {
    && Named(f) && Named(d) && f in t && IsDir(t, Up(d))
    && (f == d ||
         (&& !Within(f, d)
          && (d !in t
              || (t[f].File? && t[d].File?)
              || (t[f].Dir? && t[d].Dir? && Empty(t, d)))))
  }

  /** `fs::rename` with POSIX semantics. */
  function Rename(t: Tree, rawFrom: Path, rawTo: Path): (e: Effect)
    ensures e.ok <==> CanRename(t, Resolve(rawFrom), Resolve(rawTo))
    ensures !e.ok ==> e.tree == t
    ensures e.ok && Resolve(rawFrom) != Resolve(rawTo) ==>
      e.tree == Move(t, Resolve(rawFrom), Resolve(rawTo))
    ensures e.ok && Resolve(rawFrom) == Resolve(rawTo) ==> e.tree == t
    ensures Wf(t) ==> Wf(e.tree)
  {
    var f := Resolve(rawFrom);
    var d := Resolve(rawTo);
    if !CanRename(t, f, d) then Effect(false, t)
    else if f == d then Effect(true, t)
    else
      assert Wf(t) ==> Wf(Move(t, f, d)) by {
        if Wf(t) { MoveWf(t, f, d); }
      }
      Effect(true, Move(t, f, d))
  }

  /** A recursive removal leaves every path outside its subtree alone. */
  lemma RemoveDirAllFrame(t: Tree, raw: Path, q: Path)
    requires !Within(Resolve(raw), q)
    ensures Same(t, RemoveDirAll(t, raw).tree, q)
  {
  }

  /** A rename leaves every path outside both subtrees alone. */
  lemma RenameFrame(t: Tree, rawFrom: Path, rawTo: Path, q: Path)
    requires !Within(Resolve(rawFrom), q) && !Within(Resolve(rawTo), q)
    ensures Same(t, Rename(t, rawFrom, rawTo).tree, q)
  {
  }

  /** A rename that goes through keeps the state a tree. */
  lemma MoveWf(t: Tree, f: Path, d: Path)
    requires Wf(t) && Canonical(d) && CanRename(t, f, d) && f != d
    ensures Wf(Move(t, f, d))
  {
    var r := Move(t, f, d);
    forall q | InTree(r, q) ensures Canonical(q) && !Implicit(q) && IsDir(r, Up(q)) {
      if Within(d, q) {
        MovedKeyWf(t, f, d, q);
      } else {
        KeptKeyWf(t, f, d, q);
      }
    }
  }

  /** A node the move leaves in place keeps its parent directory. */
  lemma KeptKeyWf(t: Tree, f: Path, d: Path, q: Path)
    requires Wf(t) && CanRename(t, f, d) && f != d
    requires !Within(d, q) && q in t && !Within(f, q)
    ensures Canonical(q) && !Implicit(q) && IsDir(Move(t, f, d), Up(q))
  {
    assert InTree(t, q);
    if !Implicit(Up(q)) {
      assert |Up(q)| >= |d| ==> q[..|d|] == Up(q)[..|d|];
      assert |Up(q)| >= |f| ==> q[..|f|] == Up(q)[..|f|];
    }
  }

  lemma MovedKeyWf(t: Tree, f: Path, d: Path, q: Path)
    requires Wf(t) && Canonical(d) && CanRename(t, f, d) && f != d
    requires Within(d, q) && f + q[|d|..] in t
    ensures Canonical(q) && !Implicit(q) && IsDir(Move(t, f, d), Up(q))
  {
    var s := f + q[|d|..];
    assert InTree(t, s);
    MovedCanonical(f, d, s, q);
    assert q[0] == d[0];
    if q == d {
      MovedTopParent(t, f, d);
    } else {
      MovedInnerParent(t, f, d, q);
    }
  }

  /** The parent of the destination is untouched by the move. */
  lemma MovedTopParent(t: Tree, f: Path, d: Path)
    requires CanRename(t, f, d) && f != d
    ensures IsDir(Move(t, f, d), Up(d))
  {
    assert !Within(d, Up(d));
    assert !Within(f, Up(d)) by {
      if |Up(d)| >= |f| { assert d[..|f|] == Up(d)[..|f|]; }
    }
  }

  /** A key strictly below the destination has its parent moved with it. */
  lemma MovedInnerParent(t: Tree, f: Path, d: Path, q: Path)
    requires Wf(t) && Named(f)
    requires Within(d, q) && q != d && f + q[|d|..] in t
    ensures IsDir(Move(t, f, d), Up(q))
  {
    var s := f + q[|d|..];
    assert InTree(t, s);
    assert Up(s) == f + Up(q)[|d|..];
    assert InTree(t, Up(s));
    assert Within(d, Up(q));
  }

  lemma MovedCanonical(f: Path, d: Path, s: Path, q: Path)
    requires Canonical(s) && Canonical(d) && Named(f) && Named(d)
    requires Within(d, q) && s == f + q[|d|..]
    ensures Canonical(q)
  {
    forall k | 0 <= k < |q| ensures q[k] != "" && q[k] != "." &&
      (q[k] == Root ==> k == 0) && (q[k] == ".." ==> k == 0 || q[k - 1] == "..")
    {
      if k < |d| {
        assert q[k] == d[k];
        if k > 0 { assert q[k - 1] == d[k - 1]; }
      } else {
        assert q[k] == s[|f| + k - |d|];
        if k == |d| {
          assert s[|f| - 1] == f[|f| - 1];
          assert q[k - 1] == d[|d| - 1];
        } else {
          assert q[k - 1] == s[|f| + k - |d| - 1];
        }
      }
    }
  }

  /** `fs::remove_dir_all`: a directory and everything under it. A file or a
      missing path is an error and nothing changes. */
  function RemoveDirAll(t: Tree, raw: Path): (e: Effect)
    ensures e.ok <==> Resolve(raw) in t && t[Resolve(raw)].Dir?
    ensures e.ok ==> forall q :: q in e.tree <==> q in t && !Within(Resolve(raw), q)
    ensures forall q | q in e.tree :: q in t && e.tree[q] == t[q]
    ensures !e.ok ==> e.tree == t
    ensures Wf(t) ==> Wf(e.tree)
  {
    var p := Resolve(raw);
    if p in t && t[p].Dir? then
      var r := map q | q in t && !Within(p, q) :: t[q];
      assert Wf(t) ==> Wf(r) by {
        if Wf(t) {
          forall q | InTree(r, q) ensures Canonical(q) && !Implicit(q) && IsDir(r, Up(q)) {
            assert InTree(t, q);
            if !Implicit(Up(q)) {
              assert |Up(q)| >= |p| ==> q[..|p|] == Up(q)[..|p|];
            }
          }
        }
      }
      Effect(true, r)
    else Effect(false, t)
  }

  /** `fs::remove_file`. */
  function RemoveFile(t: Tree, raw: Path): (e: Effect)
    ensures e.ok <==> IsFile(t, Resolve(raw))
    ensures e.ok ==> e.tree == t - {Resolve(raw)}
    ensures !e.ok ==> e.tree == t
    ensures Wf(t) ==> Wf(e.tree)
  {
    var p := Resolve(raw);
    if IsFile(t, p) then
      var r := t - {p};
      assert Wf(t) ==> Wf(r) by {
        if Wf(t) {
          forall q | InTree(r, q) ensures Canonical(q) && !Implicit(q) && IsDir(r, Up(q)) {
            assert InTree(t, q);
          }
        }
      }
      Effect(true, r)
    else Effect(false, t)
  }

  lemma CanonicalPrefix(p: Path, i: nat)
    requires Canonical(p) && i <= |p|
    ensures Canonical(p[..i])
  {
    var q := p[..i];
    forall j | 0 <= j < |q| ensures q[j] != "" && q[j] != "." &&
      (q[j] == Root ==> j == 0) && (q[j] == ".." ==> j == 0 || q[j - 1] == "..")
    {
      assert q[j] == p[j];
      if j > 0 { assert q[j - 1] == p[j - 1]; }
    }
  }

  /** A key strictly below `d` makes `d` a directory of the tree. */
  lemma UnderFile(t: Tree, d: Path, q: Path)
    requires Wf(t) && q in t && Within(d, q) && |q| > |d| && |d| > 0
    ensures IsDir(t, d) && (d in t || Implicit(d))
    decreases |q|
  {
    assert InTree(t, q);
    if |q| == |d| + 1 {
      assert Up(q) == d;
    } else {
      assert Within(d, Up(q));
      UnderFile(t, d, Up(q));
    }
  }

  /** A key strictly below `d` sits under a child of `d` that is a key. */
  lemma UnderChild(t: Tree, d: Path, q: Path)
    requires Wf(t) && q in t && Within(d, q) && |q| > |d| && |d| > 0
    ensures d + [q[|d|]] in t
  {
    var c := q[..|d| + 1];
    assert c == d + [q[|d|]];
    if |q| > |d| + 1 {
      UnderFile(t, c, q);
      assert InTree(t, q);
    } else {
      assert c == q;
    }
  }
}
