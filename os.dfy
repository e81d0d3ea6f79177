/** The filesystem as mutable state: one object whose `nodes` every
    `std::fs` call updates in place. Each method does what the function of
    the same name in module Fs says. */
module Os {
  import opened Paths
  import Fs

  class FileSystem {
    var nodes: Fs.Tree

    ghost predicate Valid()
      reads this
    {
      Fs.Wf(nodes)
    }

    constructor (initial: Fs.Tree)
      requires Fs.Wf(initial)
      ensures Valid() && nodes == initial
    {
      nodes := initial;
    }

    /** `Path::exists`. */
    function Exists(p: Path): bool
      reads this
    {
      Fs.Exists(nodes, p)
    }

    /** `fs::read_dir`: the names in a directory, or an error for anything
        else. */
    method ReadDir(p: Path) returns (ok: bool, names: set<string>)
      ensures ok <==> Fs.IsDir(nodes, Resolve(p))
      ensures ok ==> names == Fs.Children(nodes, Resolve(p))
    {
      ok := Fs.IsDir(nodes, Resolve(p));
      names := if ok then Fs.Children(nodes, Resolve(p)) else {};
    }

    method CreateDirAll(p: Path) returns (ok: bool)
      requires Valid()
      modifies this
      ensures Valid()
      ensures Fs.Effect(ok, nodes) == Fs.CreateDirAll(old(nodes), p)
    {
      var e := Fs.CreateDirAll(nodes, p);
      ok, nodes := e.ok, e.tree;
    }

    method CreateFile(p: Path) returns (ok: bool)
      requires Valid()
      modifies this
      ensures Valid()
      ensures Fs.Effect(ok, nodes) == Fs.CreateFile(old(nodes), p)
    {
      var e := Fs.CreateFile(nodes, p);
      ok, nodes := e.ok, e.tree;
    }

    /** Writing through the handle `File::create` returned for `p`. */
    method Append(p: Path, data: Fs.Bytes)
      requires Valid() && Fs.IsFile(nodes, Resolve(p))
      modifies this
      ensures Valid()
      ensures nodes == Fs.Append(old(nodes), Resolve(p), data)
    {
      nodes := Fs.Append(nodes, Resolve(p), data);
    }

    method Write(p: Path, data: Fs.Bytes) returns (ok: bool)
      requires Valid()
      modifies this
      ensures Valid()
      ensures Fs.Effect(ok, nodes) == Fs.Write(old(nodes), p, data)
    {
      var e := Fs.Write(nodes, p, data);
      ok, nodes := e.ok, e.tree;
    }

    method Rename(from: Path, to: Path) returns (ok: bool)
      requires Valid()
      modifies this
      ensures Valid()
      ensures Fs.Effect(ok, nodes) == Fs.Rename(old(nodes), from, to)
    {
      var e := Fs.Rename(nodes, from, to);
      ok, nodes := e.ok, e.tree;
    }

    method RemoveDirAll(p: Path) returns (ok: bool)
      requires Valid()
      modifies this
      ensures Valid()
      ensures Fs.Effect(ok, nodes) == Fs.RemoveDirAll(old(nodes), p)
    {
      var e := Fs.RemoveDirAll(nodes, p);
      ok, nodes := e.ok, e.tree;
    }

    method RemoveFile(p: Path) returns (ok: bool)
      requires Valid()
      modifies this
      ensures Valid()
      ensures Fs.Effect(ok, nodes) == Fs.RemoveFile(old(nodes), p)
    {
      var e := Fs.RemoveFile(nodes, p);
      ok, nodes := e.ok, e.tree;
    }
  }
}
