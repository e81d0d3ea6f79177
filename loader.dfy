/** The loader library (`crates/loader/src/lib.rs`): on `gmod13_open` it
    fetches the latest release of its own repository, downloads the two
    release assets built for the running platform into `garrysmod/lua/bin`
    (each through a temporary file renamed into place), leaves a dated
    marker file there, and hands the call to the real loader library it has
    just installed. `gmod13_close` hands its call to the same library. */
module Loader {
  import opened Paths
  import opened Fs
  import opened Env
  import opened Os

  /** `DEST_DIR`. */
  const DestDir: Path := ["garrysmod", "lua", "bin"]

  /** The target the library was built for: `env::consts::OS` and
      `env::consts::ARCH`, which `cfg!(target_os)` and `cfg!(target_arch)`
      test. */
  datatype Platform = Platform(os: string, arch: string)

  predicate IsWindows(p: Platform) { p.os == "windows" }
  predicate IsX86_64(p: Platform) { p.arch == "x86_64" }

  /** The platform suffix of the asset names. */
  function Suffix(p: Platform): (s: string)
    ensures s in {"win64", "win32", "linux64", "linux"}
  {
    if IsWindows(p) then (if IsX86_64(p) then "win64" else "win32")
    else (if IsX86_64(p) then "linux64" else "linux")
  }

  /** The suffix tells the four platform classes apart, and nothing else. */
  lemma SuffixDistinguishesPlatforms(p: Platform, q: Platform)
    ensures Suffix(p) == Suffix(q) <==> (IsWindows(p) <==> IsWindows(q)) && (IsX86_64(p) <==> IsX86_64(q))
  {
    if IsWindows(p) != IsWindows(q) {
      if IsWindows(p) { assert Suffix(p)[0] == 'w' && Suffix(q)[0] == 'l'; }
      else { assert Suffix(p)[0] == 'l' && Suffix(q)[0] == 'w'; }
    }
  }

  /** A release as the GitHub API describes it. Each asset also carries
      `served`: what a GET of its download URL returns on this run. */
  datatype Asset = Asset(name: string, url: string, served: Response)
  datatype Release = Release(assets: seq<Asset>)

  /** Why the release metadata is unusable: no response, a non-success
      status (`error_for_status`), or a body that is not a release. */
  datatype FetchError = Network | HttpStatus | Decode
  datatype Fetched = FetchFailed(error: FetchError) | Fetched(release: Release)

  /** The first asset: the module the real loader runs. */
  function ModuleName(suffix: string): string {
    "gmod_integration_" + suffix + ".dll"
  }

  /** The second asset: the real loader library this one delegates to. */
  function RealLoaderName(suffix: string): string {
    "gmsv_gmod_integration_loader_" + suffix + ".dll"
  }

  /** `target_assets`: two different DLL names, each ending in the
      platform suffix. */
  function TargetAssets(suffix: string): (r: seq<string>)
    ensures |r| == 2 && r[0] != r[1]
    ensures EndsWith(r[0], suffix + ".dll") && EndsWith(r[1], suffix + ".dll")
  {
    [ModuleName(suffix), RealLoaderName(suffix)]
  }

  /** `s` ends with `tail`. */
  predicate EndsWith(s: string, tail: string) {
    |tail| <= |s| && s[|s| - |tail|..] == tail
  }

  /** An asset name that `PathBuf::push` appends as one file name. */
  predicate PlainName(n: string) {
    Normal(n) && forall i | 0 <= i < |n| :: n[i] != '/'
  }

  /** Position of the last '.' in a file name. */
  function LastDot(s: string): (r: Option<nat>)
    ensures r.Some? ==> r.value < |s| && s[r.value] == '.' && forall j | r.value < j < |s| :: s[j] != '.'
    ensures r.None? ==> forall j | 0 <= j < |s| :: s[j] != '.'
  {
    if |s| == 0 then None
    else if s[|s| - 1] == '.' then Some(|s| - 1)
    else LastDot(s[..|s| - 1])
  }

  /** The file name `Path::with_extension("tmp")` gives: the stem (all
      before the last '.', unless that dot starts the name) and ".tmp". */
  function TmpName(name: string): (r: string)
    ensures |r| >= 4 && r[|r| - 4..] == ".tmp"
    ensures PlainName(name) ==> PlainName(r)
  {
    var stem := match LastDot(name) case Some(i) => if i > 0 then name[..i] else name case None => name;
    assert stem == name[..|stem|];
    stem + ".tmp"
  }

  /** A ".dll" name keeps its stem. */
  lemma TmpOfDll(stem: string)
    requires stem != ""
    ensures TmpName(stem + ".dll") == stem + ".tmp"
  {
    var n := stem + ".dll";
    var n1, n2, n3 := stem + ".dl", stem + ".d", stem + ".";
    assert n3[|n3| - 1] == '.';
    assert LastDot(n3) == Some(|stem|);
    assert n2[..|n2| - 1] == n3 && n2[|n2| - 1] == 'd';
    assert LastDot(n2) == Some(|stem|);
    assert n1[..|n1| - 1] == n2 && n1[|n1| - 1] == 'l';
    assert LastDot(n1) == Some(|stem|);
    assert n[..|n| - 1] == n1 && n[|n| - 1] == 'l';
    assert LastDot(n) == Some(|stem|);
    assert n[..|stem|] == stem;
  }

  function OutPath(name: string): Path { DestDir + [name] }
  function TmpPath(name: string): Path { DestDir + [TmpName(name)] }

  lemma DestPaths(name: string)
    requires PlainName(name)
    ensures Resolve(OutPath(name)) == OutPath(name) && Up(OutPath(name)) == DestDir
    ensures Resolve(TmpPath(name)) == TmpPath(name) && Up(TmpPath(name)) == DestDir
    ensures Resolve(DestDir) == DestDir && Canonical(DestDir)
    ensures OutPath(name) != TmpPath(name) <==> name != TmpName(name)
  {
    assert Canonical(DestDir);
    ResolveAppendNormal(DestDir, [name]);
    ResolveAppendNormal(DestDir, [TmpName(name)]);
    ResolveAppendNormal(DestDir, []);
    assert DestDir + [] == DestDir;
    if OutPath(name) == TmpPath(name) { assert OutPath(name)[3] == TmpPath(name)[3]; }
  }

  /** The destination is usable: `DEST_DIR` is a directory and neither the
      temporary nor the final path of `name` is one. */
  predicate Installable(t: Tree, name: string) {
    IsDir(t, DestDir) && !IsDir(t, TmpPath(name)) && !IsDir(t, OutPath(name))
  }

  /** What `download_asset` returns: `Ok`, or the step whose error it
      propagated with `?`. */
  datatype Saved = Saved | SendFailed | CreateFailed | CopyFailed | RenameFailed
  datatype Saving = Saving(result: Saved, tree: Tree)

  /** `download_asset`: GET the asset, write the body to the temporary path,
      rename it onto the final path. The HTTP status is not looked at. */
  function Download(t: Tree, name: string, served: Response): (s: Saving)
    requires Wf(t) && PlainName(name)
    ensures Wf(s.tree)
    ensures s.result == Saved <==> served.Responded? && served.complete && Installable(t, name)
    ensures forall q | q != TmpPath(name) && q != OutPath(name) :: Same(t, s.tree, q)
    ensures s.result == Saved ==> OutPath(name) in s.tree && s.tree[OutPath(name)] == File(served.body)
    ensures s.result == Saved && TmpName(name) != name ==> TmpPath(name) !in s.tree
    ensures s.result != Saved && TmpName(name) != name ==> Same(t, s.tree, OutPath(name))
    ensures s.result == SendFailed || s.result == CreateFailed ==> s.tree == t
    ensures s.result == CopyFailed ==> served.Responded? && !served.complete && s.tree == t[TmpPath(name) := File(served.body)]
  {
    DestPaths(name);
    match served
    case Unreachable => Saving(SendFailed, t)
    case Responded(_, body, complete) =>
      var c := CreateFile(t, TmpPath(name));
      if !c.ok then Saving(CreateFailed, t)
      else
        var written := Append(c.tree, TmpPath(name), body);
        assert [] + body == body;
        assert written == t[TmpPath(name) := File(body)];
        if !complete then Saving(CopyFailed, written)
        else
          var m := Rename(written, TmpPath(name), OutPath(name));
          RenameTmp(t, name, body);
          Saving(if m.ok then Saved else RenameFailed, m.tree)
  }

  /** The final step of `download_asset`: the rename goes through unless
      the final path is a directory, and then moves the body there. */
  lemma RenameTmp(t: Tree, name: string, body: Bytes)
    requires Wf(t) && PlainName(name)
    requires IsDir(t, DestDir) && !IsDir(t, TmpPath(name))
    ensures var m := Rename(t[TmpPath(name) := File(body)], TmpPath(name), OutPath(name));
      && (m.ok <==> !IsDir(t, OutPath(name)))
      && (m.ok ==> OutPath(name) in m.tree && m.tree[OutPath(name)] == File(body))
      && (m.ok && TmpPath(name) != OutPath(name) ==> TmpPath(name) !in m.tree)
      && (m.ok ==> forall q | q != TmpPath(name) && q != OutPath(name) :: Same(t, m.tree, q))
  {
    DestPaths(name);
    var tmp, out := TmpPath(name), OutPath(name);
    var written := t[tmp := File(body)];
    RenameTmpOk(t, written, tmp, out);
    if tmp != out && !IsDir(t, out) {
      MovedTmp(t, written, tmp, out, body);
    }
  }

  /** When renaming the written temporary file goes through. */
  lemma RenameTmpOk(t: Tree, written: Tree, tmp: Path, out: Path)
    requires Named(tmp) && Named(out) && |tmp| == |out| && Up(tmp) == Up(out)
    requires Resolve(tmp) == tmp && Resolve(out) == out
    requires IsDir(t, Up(out)) && !IsDir(t, tmp) && tmp in written
    requires forall q | q != tmp :: Same(t, written, q)
    requires written[tmp].File?
    ensures var m := Rename(written, tmp, out);
      && (m.ok <==> !IsDir(t, out))
      && (m.ok && tmp != out ==> m.tree == Move(written, tmp, out))
      && (tmp == out ==> m.tree == written)
  {
    assert Same(t, written, Up(out)) by { assert |Up(out)| != |tmp|; }
    if tmp != out {
      assert !Within(tmp, out) by { assert |tmp| == |out|; }
      assert Same(t, written, out);
    }
  }

  /** Moving the written temporary file onto its sibling final path. */
  lemma MovedTmp(t: Tree, written: Tree, tmp: Path, out: Path, body: Bytes)
    requires Wf(t) && |tmp| == |out| && tmp != out && |tmp| > 0
    requires written == t[tmp := File(body)]
    requires !IsDir(t, out) && !IsDir(t, tmp)
    ensures var r := Move(written, tmp, out);
      && out in r && r[out] == File(body) && tmp !in r
      && forall q | q != tmp && q != out :: Same(t, r, q)
  {
    assert tmp + out[|out|..] == tmp;
    assert !Within(out, tmp) && !Within(tmp, out) by { assert |tmp| == |out|; }
    forall q | q != tmp && q != out ensures Same(t, Move(written, tmp, out), q) {
      MoveFileFrame(t, written, tmp, out, q);
    }
  }

  /** Renaming a file onto a sibling path touches no other path. */
  lemma MoveFileFrame(t: Tree, w: Tree, f: Path, d: Path, q: Path)
    requires Wf(t) && |f| == |d| && f != d && |f| > 0
    requires forall p | p != f :: Same(t, w, p)
    requires !IsDir(t, d) && !IsDir(t, f)
    requires q != f && q != d
    ensures Same(t, Move(w, f, d), q)
  {
    var r := Move(w, f, d);
    if Within(d, q) {
      var s := f + q[|d|..];
      assert Within(f, s) && |s| > |f|;
      assert Same(t, w, s);
      NothingUnder(t, f, s);
      NothingUnder(t, d, q);
      assert q !in r;
    } else if Within(f, q) {
      assert |q| > |f|;
      NothingUnder(t, f, q);
      assert q !in r;
    } else {
      assert Same(t, w, q);
    }
  }

  /** Nothing sits strictly below a path that is not a directory. */
  lemma NothingUnder(t: Tree, d: Path, q: Path)
    requires Wf(t) && !IsDir(t, d) && Within(d, q) && |q| > |d| && |d| > 0
    ensures q !in t
  {
    if q in t { UnderFile(t, d, q); }
  }

  /** Target names that keep out of each other's way: each is a plain file
      name whose temporary name differs from every target name, and two
      targets never share a temporary name. */
  predicate Separate(targets: seq<string>) {
    && (forall n | n in targets :: PlainName(n))
    && (forall n, m | n in targets && m in targets :: TmpName(n) != m)
    && (forall n, m | n in targets && m in targets && n != m :: TmpName(n) != TmpName(m))
  }

  /** The two names `target_assets` gives on any platform keep out of each
      other's way. */
  lemma TargetsSeparate(p: Platform)
    ensures Separate(TargetAssets(Suffix(p)))
  {
    var s := Suffix(p);
    if s == "win64" { SuffixTargets("win64"); }
    else if s == "win32" { SuffixTargets("win32"); }
    else if s == "linux64" { SuffixTargets("linux64"); }
    else { SuffixTargets("linux"); }
  }

  /** No separator and no dot in a name. */
  predicate Undotted(s: string) {
    forall i | 0 <= i < |s| :: s[i] != '/' && s[i] != '.'
  }

  lemma UndottedAppend(a: string, b: string)
    requires Undotted(a) && Undotted(b)
    ensures Undotted(a + b)
  {
    forall i | 0 <= i < |a + b| ensures (a + b)[i] != '/' && (a + b)[i] != '.' {
      if i < |a| { assert (a + b)[i] == a[i]; } else { assert (a + b)[i] == b[i - |a|]; }
    }
  }

  /** The target names for a suffix without separators or dots. */
  lemma SuffixTargets(s: string)
    requires Undotted(s)
    ensures Separate(TargetAssets(s))
  {
    var sa, sb := "gmod_integration_" + s, "gmsv_gmod_integration_loader_" + s;
    PrefixedDll("gmod_integration_", s);
    PrefixedDll("gmsv_gmod_integration_loader_", s);
    assert sa[2] == 'o' && sb[2] == 's';
    assert TargetAssets(s) == [sa + ".dll", sb + ".dll"];
    TwoTargets(sa, sb);
  }

  /** A dot-free prefix and suffix make a plain ".dll" name. */
  lemma PrefixedDll(prefix: string, s: string)
    requires prefix != "" && Undotted(prefix) && Undotted(s)
    ensures PlainName(prefix + s + ".dll") && TmpName(prefix + s + ".dll") == prefix + s + ".tmp"
  {
    UndottedAppend(prefix, s);
    DllName(prefix + s);
  }

  /** Two ".dll" names with different stems (told apart by their third
      character) keep out of each other's way. */
  lemma TwoTargets(sa: string, sb: string)
    requires |sa| > 2 && |sb| > 2 && sa[2] != sb[2]
    requires PlainName(sa + ".dll") && TmpName(sa + ".dll") == sa + ".tmp"
    requires PlainName(sb + ".dll") && TmpName(sb + ".dll") == sb + ".tmp"
    ensures Separate([sa + ".dll", sb + ".dll"])
  {
    var a, b := sa + ".dll", sb + ".dll";
    var ta, tb := sa + ".tmp", sb + ".tmp";
    assert ta[2] == sa[2] && tb[2] == sb[2];
    assert ta != tb;
    assert ta[|ta| - 1] == 'p' && tb[|tb| - 1] == 'p' && a[|a| - 1] == 'l' && b[|b| - 1] == 'l';
    SeparatePair(a, b);
  }

  /** Two plain names whose temporary names differ from both names and
      from each other. */
  lemma SeparatePair(a: string, b: string)
    requires PlainName(a) && PlainName(b)
    requires TmpName(a) != a && TmpName(a) != b && TmpName(b) != a && TmpName(b) != b
    requires a != b ==> TmpName(a) != TmpName(b)
    ensures Separate([a, b])
  {
    var targets := [a, b];
    assert forall n | n in targets :: n == a || n == b;
  }

  /** A ".dll" name built from a stem without separators or dots. */
  lemma DllName(stem: string)
    requires stem != "" && Undotted(stem)
    ensures PlainName(stem + ".dll") && TmpName(stem + ".dll") == stem + ".tmp"
  {
    TmpOfDll(stem);
    var n := stem + ".dll";
    assert n[|n| - 1] == 'l';
    assert forall i | 0 <= i < |n| :: n[i] != '/' by {
      forall i | 0 <= i < |n| ensures n[i] != '/' {
        if i < |stem| { assert n[i] == stem[i]; }
      }
    }
  }

  /** The loop over `release.assets`: each asset whose name is a target is
      downloaded in turn, and a failed download does not stop the loop. */
  function DownloadMatching(t: Tree, targets: seq<string>, assets: seq<Asset>): (r: Tree)
    requires Wf(t) && Separate(targets)
    ensures Wf(r)
    decreases |assets|
  {
    if |assets| == 0 then t
    else
      var before := DownloadMatching(t, targets, assets[..|assets| - 1]);
      var a := assets[|assets| - 1];
      if a.name in targets then Download(before, a.name, a.served).tree else before
  }

  /** A path of a target: its final or its temporary path. */
  predicate TargetPath(targets: seq<string>, q: Path) {
    exists n | n in targets :: q == OutPath(n) || q == TmpPath(n)
  }

  /** The loop writes nothing but the final and temporary paths of the
      targets. */
  lemma {:induction false} MatchingFrame(t: Tree, targets: seq<string>, assets: seq<Asset>, q: Path)
    requires Wf(t) && Separate(targets) && !TargetPath(targets, q)
    ensures Same(t, DownloadMatching(t, targets, assets), q)
    decreases |assets|
  {
    if |assets| > 0 {
      var before := DownloadMatching(t, targets, assets[..|assets| - 1]);
      MatchingFrame(t, targets, assets[..|assets| - 1], q);
      var a := assets[|assets| - 1];
      if a.name in targets {
        assert q != OutPath(a.name) && q != TmpPath(a.name);
        assert Same(before, Download(before, a.name, a.served).tree, q);
      }
    }
  }

  /** A download of one target leaves the destination of every target
      usable. */
  lemma DownloadKeepsInstallable(t: Tree, targets: seq<string>, n: string, served: Response, m: string)
    requires Wf(t) && Separate(targets) && n in targets && m in targets
    requires Installable(t, m)
    ensures Installable(Download(t, n, served).tree, m)
  {
    var r := Download(t, n, served).tree;
    assert Same(t, r, DestDir) by { assert |DestDir| != |OutPath(n)| && |DestDir| != |TmpPath(n)|; }
    if m != n {
      assert OutPath(m) != OutPath(n) by { assert OutPath(m)[3] != OutPath(n)[3]; }
      assert OutPath(m) != TmpPath(n) by { assert OutPath(m)[3] != TmpPath(n)[3]; }
      assert TmpPath(m) != OutPath(n) by { assert TmpPath(m)[3] != OutPath(n)[3]; }
      assert TmpPath(m) != TmpPath(n) by { assert TmpPath(m)[3] != TmpPath(n)[3]; }
      assert Same(t, r, OutPath(m)) && Same(t, r, TmpPath(m));
    }
  }

  /** The destination of every target stays usable through the loop. */
  lemma {:induction false} MatchingKeepsInstallable(t: Tree, targets: seq<string>, assets: seq<Asset>, m: string)
    requires Wf(t) && Separate(targets) && m in targets && Installable(t, m)
    ensures Installable(DownloadMatching(t, targets, assets), m)
    decreases |assets|
  {
    if |assets| > 0 {
      var init := assets[..|assets| - 1];
      MatchingKeepsInstallable(t, targets, init, m);
      var a := assets[|assets| - 1];
      if a.name in targets {
        DownloadKeepsInstallable(DownloadMatching(t, targets, init), targets, a.name, a.served, m);
      }
    }
  }

  /** The paths of one target are untouched by the download of another. */
  lemma OtherTargetUntouched(t: Tree, targets: seq<string>, n: string, served: Response, m: string)
    requires Wf(t) && Separate(targets) && n in targets && m in targets && n != m
    ensures var r := Download(t, m, served).tree;
      Same(t, r, OutPath(n)) && Same(t, r, TmpPath(n))
  {
    assert OutPath(n)[3] != OutPath(m)[3] && OutPath(n)[3] != TmpPath(m)[3];
    assert TmpPath(n)[3] != OutPath(m)[3] && TmpPath(n)[3] != TmpPath(m)[3];
  }

  /** When the target's destination is usable, the last asset of its name
      decides that target: a complete response to it ends up at the final
      path, with no temporary file left behind. */
  lemma {:induction false} LastMatchingWins(t: Tree, targets: seq<string>, assets: seq<Asset>, i: nat)
    requires Wf(t) && Separate(targets)
    requires i < |assets| && assets[i].name in targets && Installable(t, assets[i].name)
    requires assets[i].served.Responded? && assets[i].served.complete
    requires forall j | i < j < |assets| :: assets[j].name != assets[i].name
    ensures var r := DownloadMatching(t, targets, assets); var n := assets[i].name;
      && OutPath(n) in r && r[OutPath(n)] == File(assets[i].served.body)
      && TmpPath(n) !in r
    decreases |assets|
  {
    var n := assets[i].name;
    var init := assets[..|assets| - 1];
    var before := DownloadMatching(t, targets, init);
    var a := assets[|assets| - 1];
    assert TmpName(n) != n;
    if i == |assets| - 1 {
      MatchingKeepsInstallable(t, targets, init, n);
    } else {
      LastMatchingWins(t, targets, init, i);
      if a.name in targets {
        OtherTargetUntouched(before, targets, n, a.served, a.name);
      }
    }
  }

  /** After the loop, a target's final path holds what it held before or
      the complete body served for an asset of that name; the loop never
      leaves a partial body there. */
  lemma {:induction false} OldOrServed(t: Tree, targets: seq<string>, assets: seq<Asset>, n: string)
    requires Wf(t) && Separate(targets) && n in targets
    ensures var r := DownloadMatching(t, targets, assets);
      || Same(t, r, OutPath(n))
      || exists j | 0 <= j < |assets| :: && assets[j].name == n && assets[j].served.Responded?
           && assets[j].served.complete && OutPath(n) in r && r[OutPath(n)] == File(assets[j].served.body)
    decreases |assets|
  {
    if |assets| > 0 {
      var init := assets[..|assets| - 1];
      var before := DownloadMatching(t, targets, init);
      var r := DownloadMatching(t, targets, assets);
      var a := assets[|assets| - 1];
      OldOrServed(t, targets, init, n);
      assert TmpName(n) != n;
      if a.name in targets && a.name != n {
        OtherTargetUntouched(before, targets, n, a.served, a.name);
      }
      if Same(t, before, OutPath(n)) && Same(before, r, OutPath(n)) {
        assert Same(t, r, OutPath(n));
      } else if a.name == n && Download(before, n, a.served).result == Saved {
        assert assets[|assets| - 1].name == n;
      } else {
        var j :| 0 <= j < |init| && init[j].name == n && init[j].served.Responded?
          && init[j].served.complete && OutPath(n) in before && before[OutPath(n)] == File(init[j].served.body);
        assert assets[j] == init[j];
      }
    }
  }

  /** `write_success_marker` and the delegation step. */

  /** The local date `Local::now()` reads. */
  datatype Date = Date(year: int, month: int, day: int)

  /** A date `%Y-%m-%d` prints as four, two and two digits. */
  predicate Printable(d: Date) {
    0 <= d.year < 10000 && 1 <= d.month <= 12 && 1 <= d.day <= 31
  }

  function Pow10(w: nat): nat {
    if w == 0 then 1 else 10 * Pow10(w - 1)
  }

  /** `n` in decimal, zero-padded to `width` digits. */
  function Digits(n: nat, width: nat): (r: string)
    ensures |r| == width
    ensures forall i | 0 <= i < width :: '0' <= r[i] <= '9'
  {
    if width == 0 then "" else Digits(n / 10, width - 1) + [('0' as int + n % 10) as char]
  }

  /** Numbers below `10^width` print differently. */
  lemma {:induction false} DigitsInjective(n: nat, m: nat, width: nat)
    requires n < Pow10(width) && m < Pow10(width)
    requires Digits(n, width) == Digits(m, width)
    ensures n == m
  {
    if width > 0 {
      var dn, dm := Digits(n, width), Digits(m, width);
      assert dn[width - 1] == dm[width - 1];
      assert n % 10 == m % 10;
      assert dn[..width - 1] == Digits(n / 10, width - 1);
      assert dm[..width - 1] == Digits(m / 10, width - 1);
      DigitsInjective(n / 10, m / 10, width - 1);
    }
  }

  /** `format("%Y-%m-%d")`. */
  function DateText(d: Date): (r: string)
    requires Printable(d)
    ensures |r| == 10 && r[4] == '-' && r[7] == '-'
    ensures Ascii(r)
  {
    Digits(d.year, 4) + "-" + Digits(d.month, 2) + "-" + Digits(d.day, 2)
  }

  /** Two printable dates print alike only when they are the same day. */
  lemma DateTextInjective(d: Date, e: Date)
    requires Printable(d) && Printable(e) && DateText(d) == DateText(e)
    ensures d == e
  {
    var a, b := DateText(d), DateText(e);
    assert a[..4] == Digits(d.year, 4) && b[..4] == Digits(e.year, 4);
    assert a[5..7] == Digits(d.month, 2) && b[5..7] == Digits(e.month, 2);
    assert a[8..] == Digits(d.day, 2) && b[8..] == Digits(e.day, 2);
    assert Pow10(2) == 100 && Pow10(4) == 10000 by { assert Pow10(1) == 10; assert Pow10(3) == 1000; }
    DigitsInjective(d.year, e.year, 4);
    DigitsInjective(d.month, e.month, 2);
    DigitsInjective(d.day, e.day, 2);
  }

  /** The marker's file name. */
  function MarkerName(date: string): string {
    "gmi_success_" + date + ".txt"
  }

  /** The marker is a plain file directly in `DEST_DIR`. */
  function MarkerPath(d: Date): (r: Path)
    requires Printable(d)
    ensures |r| == 4 && r[..3] == DestDir && PlainName(r[3])
    ensures Resolve(r) == r
  {
    var name := MarkerName(DateText(d));
    assert |name| > 3 && Canonical(DestDir);
    ResolveAppendNormal(DestDir, [name]);
    DestDir + [name]
  }

  /** One marker per day: runs on the same day share a marker path, runs on
      different days do not. */
  lemma MarkerPerDay(d: Date, e: Date)
    requires Printable(d) && Printable(e)
    ensures MarkerPath(d) == MarkerPath(e) <==> d == e
  {
    if MarkerPath(d) == MarkerPath(e) {
      var a, b := MarkerName(DateText(d)), MarkerName(DateText(e));
      assert a == MarkerPath(d)[3] && b == MarkerPath(e)[3];
      assert a[12..22] == DateText(d) && b[12..22] == DateText(e);
      DateTextInjective(d, e);
    }
  }

  /** The marker's text: the run's date, the loader's version
      (`CARGO_PKG_VERSION`) and the platform. */
  function MarkerText(date: string, version: string, p: Platform): string {
    "Auto-loader run: " + date + "\nLoader version: " + version + "\nPlatform: " + p.os + "/" + p.arch + "\n"
  }

  /** The UTF-8 encoding of one character. */
  function Utf8Char(c: char): (b: Bytes)
    ensures 1 <= |b| <= 4
    ensures |b| == 1 <==> c as int < 0x80
    ensures |b| == 1 ==> b[0] == c as int
  {
    var n := c as int;
    if n < 0x80 then [n]
    else if n < 0x800 then [0xC0 + n / 0x40, 0x80 + n % 0x40]
    else if n < 0x10000 then [0xE0 + n / 0x1000, 0x80 + (n / 0x40) % 0x40, 0x80 + n % 0x40]
    else [0xF0 + n / 0x40000, 0x80 + (n / 0x1000) % 0x40, 0x80 + (n / 0x40) % 0x40, 0x80 + n % 0x40]
  }

  /** The bytes `fs::write` stores for a `String`: one to four per
      character. */
  function Utf8(s: string): (r: Bytes)
    ensures |s| <= |r| <= 4 * |s|
  {
    if |s| == 0 then [] else Utf8(s[..|s| - 1]) + Utf8Char(s[|s| - 1])
  }

  /** Every character is in the ASCII range. */
  predicate Ascii(s: string) {
    forall i | 0 <= i < |s| :: s[i] as int < 0x80
  }

  /** ASCII text is stored one byte per character. */
  lemma {:induction false} AsciiUtf8(s: string)
    requires Ascii(s)
    ensures |Utf8(s)| == |s|
    ensures forall i | 0 <= i < |s| :: Utf8(s)[i] == s[i] as int
  {
    if |s| > 0 {
      AsciiUtf8(s[..|s| - 1]);
    }
  }

  /** With an ASCII version and platform, the marker file holds its text
      one byte per character, the date line included. */
  lemma MarkerAscii(d: Date, version: string, p: Platform)
    requires Printable(d) && Ascii(version) && Ascii(p.os) && Ascii(p.arch)
    ensures var text := MarkerText(DateText(d), version, p);
      && Ascii(text)
      && |Utf8(text)| == |text|
      && forall i | 0 <= i < |text| :: Utf8(text)[i] == text[i] as int
  {
    var date := DateText(d);
    var line1 := "Auto-loader run: " + date;
    AsciiConcat("Auto-loader run: ", date);
    AsciiConcat(line1, "\nLoader version: ");
    AsciiConcat(line1 + "\nLoader version: ", version);
    var line2 := line1 + "\nLoader version: " + version;
    AsciiConcat(line2, "\nPlatform: ");
    AsciiConcat(line2 + "\nPlatform: ", p.os);
    AsciiConcat(line2 + "\nPlatform: " + p.os, "/");
    AsciiConcat(line2 + "\nPlatform: " + p.os + "/", p.arch);
    AsciiConcat(line2 + "\nPlatform: " + p.os + "/" + p.arch, "\n");
    AsciiUtf8(MarkerText(date, version, p));
  }

  /** ASCII text followed by ASCII text is ASCII. */
  lemma AsciiConcat(a: string, b: string)
    requires Ascii(a) && Ascii(b)
    ensures Ascii(a + b)
  {
    assert forall i | |a| <= i < |a + b| :: (a + b)[i] == b[i - |a|];
  }

  /** `write_success_marker`: `fs::write` of the marker; a failure is only
      logged. */
  function WriteMarker(t: Tree, d: Date, version: string, p: Platform): (r: Tree)
    requires Printable(d)
    ensures Wf(t) ==> Wf(r)
    ensures forall q | q != MarkerPath(d) :: Same(t, r, q)
  {
    Write(t, MarkerPath(d), Utf8(MarkerText(DateText(d), version, p))).tree
  }

  /** The marker lands in `DEST_DIR` when that is a directory and the
      marker path is not one; otherwise nothing changes. */
  lemma MarkerWritten(t: Tree, d: Date, version: string, p: Platform)
    requires Printable(d)
    ensures var r := WriteMarker(t, d, version, p);
      var content := Utf8(MarkerText(DateText(d), version, p));
      && (IsDir(t, DestDir) && !IsDir(t, MarkerPath(d)) ==> r == t[MarkerPath(d) := File(content)])
      && (!IsDir(t, DestDir) || IsDir(t, MarkerPath(d)) ==> r == t)
  {
    var name := MarkerName(DateText(d));
    assert |name| > 3;
    assert Canonical(DestDir);
    ResolveAppendNormal(DestDir, [name]);
  }

  /** `DEST_DIR` as written in the source, with '/' separators. */
  const DestDirText: string := "garrysmod/lua/bin"

  /** Index of the last '/' in a string that has one. */
  function LastSlash(s: string): (i: nat)
    requires '/' in s
    ensures i < |s| && s[i] == '/' && forall j | i < j < |s| :: s[j] != '/'
  {
    if s[|s| - 1] == '/' then |s| - 1 else LastSlash(s[..|s| - 1])
  }

  /** The components of a relative path written with '/' separators. */
  function Split(s: string): (r: Path)
    ensures |r| > 0
    decreases |s|
  {
    if '/' !in s then [s]
    else
      var i := LastSlash(s);
      Split(s[..i]) + [s[i + 1..]]
  }

  /** A separator and a trailing name make the last component. */
  lemma SplitJoin(a: string, b: string)
    requires '/' !in b
    ensures Split(a + "/" + b) == Split(a) + [b]
  {
    var s := a + "/" + b;
    assert s[|a|] == '/';
    assert LastSlash(s) == |a| by {
      assert forall j | |a| < j < |s| :: s[j] == b[j - |a| - 1];
    }
    assert s[..|a|] == a && s[|a| + 1..] == b;
  }

  /** `DEST_DIR` parses to the destination directory. */
  lemma DestDirSplit()
    ensures Split(DestDirText) == DestDir
  {
    SplitThree("garrysmod", "lua", "bin");
    assert DestDirText == "garrysmod" + "/" + "lua" + "/" + "bin";
  }

  /** Three names joined by separators parse back to those names. */
  lemma SplitThree(a: string, b: string, c: string)
    requires '/' !in a && '/' !in b && '/' !in c
    ensures Split(a + "/" + b + "/" + c) == [a, b, c]
  {
    SplitJoin(a + "/" + b, c);
    SplitJoin(a, b);
  }

  /** A file name written after `DEST_DIR` and a separator parses to that
      name in the destination directory. */
  lemma DestDirComponents(name: string)
    requires '/' !in name
    ensures Split(DestDirText + "/" + name) == DestDir + [name]
  {
    SplitJoin(DestDirText, name);
    DestDirSplit();
  }

  /** `lib_name`: the library the two entry points load. */
  function LibraryName(p: Platform): string {
    DestDirText + "/" + "gmsv_gmod_integration_loader_" + Suffix(p) + ".dll"
  }

  /** The path the dynamic loader opens for `lib_name`. */
  function LibraryPath(p: Platform): Path {
    Resolve(Split(LibraryName(p)))
  }

  /** The library the entry points load is the second target asset, at the
      final path `download_asset` renames it to. */
  lemma LibraryIsRealLoader(p: Platform)
    ensures LibraryPath(p) == OutPath(RealLoaderName(Suffix(p)))
  {
    var name := RealLoaderName(Suffix(p));
    RealLoaderPlain(p);
    assert LibraryName(p) == DestDirText + "/" + name;
    DestDirComponents(name);
    DestPaths(name);
  }

  lemma RealLoaderPlain(p: Platform)
    ensures PlainName(RealLoaderName(Suffix(p))) && '/' !in RealLoaderName(Suffix(p))
  {
    TargetsSeparate(p);
    assert RealLoaderName(Suffix(p)) in TargetAssets(Suffix(p));
  }

  /** What a call through the loaded symbol becomes: a load failure or a
      missing symbol panics (`unwrap_or_else(panic!)`, `expect`), a call
      returns its code. */
  function Outcome(l: Link): (e: Exit)
    ensures e.Returned? <==> l.Calls?
    ensures e.Returned? ==> e.code == l.code
  {
    match l
    case Calls(code) => Returned(code)
    case _ => Panicked
  }

  /** Load the real loader library from disk and call `symbol` in it. No
      library file at the path is a load failure. */
  function Delegate(t: Tree, p: Platform, symbol: string, link: (Bytes, string) -> Link): (e: Exit)
    ensures e.Returned? ==> IsFile(t, LibraryPath(p)) && link(t[LibraryPath(p)].data, symbol) == Calls(e.code)
    ensures !IsFile(t, LibraryPath(p)) ==> e == Panicked
    ensures IsFile(t, LibraryPath(p)) ==> (e.Returned? <==> link(t[LibraryPath(p)].data, symbol).Calls?)
  {
    var lib := LibraryPath(p);
    if IsFile(t, lib) then Outcome(link(t[lib].data, symbol)) else Panicked
  }

  /** `gmod13_open` of the loader: fetch the release (an error returns 1
      and touches nothing), download the matching assets, write the marker,
      delegate to the real loader's `gmod13_open`. The tree is the one at
      delegation; what the real loader then does to it is not modelled. */
  function OpenEffect(t: Tree, p: Platform, fetched: Fetched, d: Date, version: string,
                      link: (Bytes, string) -> Link): (r: Run)
    requires Wf(t) && Printable(d)
    ensures Wf(r.tree)
    ensures fetched.FetchFailed? ==> r == Run(Returned(1), t)
  {
    match fetched
    case FetchFailed(_) => Run(Returned(1), t)
    case Fetched(release) =>
      TargetsSeparate(p);
      var downloaded := DownloadMatching(t, TargetAssets(Suffix(p)), release.assets);
      var marked := WriteMarker(downloaded, d, version, p);
      Run(Delegate(marked, p, "gmod13_open", link), marked)
  }

  /** The update takes effect at once: when the real loader's destination
      is usable and the last release asset named like the real loader arrives complete,
      `gmod13_open` ends as that freshly downloaded library's
      `gmod13_open` does. */
  lemma HotSwap(t: Tree, p: Platform, release: Release, d: Date, version: string,
                link: (Bytes, string) -> Link, i: nat)
    requires Wf(t) && Printable(d)
    requires i < |release.assets| && release.assets[i].name == RealLoaderName(Suffix(p))
    requires Installable(t, RealLoaderName(Suffix(p)))
    requires release.assets[i].served.Responded? && release.assets[i].served.complete
    requires forall j | i < j < |release.assets| :: release.assets[j].name != release.assets[i].name
    ensures OpenEffect(t, p, Fetched(release), d, version, link).exit
      == Outcome(link(release.assets[i].served.body, "gmod13_open"))
  {
    var targets := TargetAssets(Suffix(p));
    TargetsSeparate(p);
    assert release.assets[i].name in targets;
    LastMatchingWins(t, targets, release.assets, i);
    var downloaded := DownloadMatching(t, targets, release.assets);
    MarkerSparesLibrary(downloaded, d, version, p);
    LibraryIsRealLoader(p);
  }

  /** After the downloads, whatever became of them, the marker is written
      into `DEST_DIR` when that is a directory and the marker path is not
      one; nothing else changes after the loop. */
  lemma MarkerAfterDownloads(t: Tree, p: Platform, release: Release, d: Date, version: string,
                             link: (Bytes, string) -> Link)
    requires Wf(t) && Printable(d)
    ensures Separate(TargetAssets(Suffix(p)))
    ensures var r := OpenEffect(t, p, Fetched(release), d, version, link).tree;
      var downloaded := DownloadMatching(t, TargetAssets(Suffix(p)), release.assets);
      var content := Utf8(MarkerText(DateText(d), version, p));
      && (IsDir(t, DestDir) && !IsDir(t, MarkerPath(d)) ==> r == downloaded[MarkerPath(d) := File(content)])
      && (!IsDir(t, DestDir) || IsDir(t, MarkerPath(d)) ==> r == downloaded)
  {
    var targets := TargetAssets(Suffix(p));
    TargetsSeparate(p);
    var downloaded := DownloadMatching(t, targets, release.assets);
    assert OpenEffect(t, p, Fetched(release), d, version, link).tree == WriteMarker(downloaded, d, version, p);
    MarkerLeavesTargets(p, d);
    MatchingFrame(t, targets, release.assets, DestDir);
    MatchingFrame(t, targets, release.assets, MarkerPath(d));
    assert IsDir(downloaded, DestDir) == IsDir(t, DestDir);
    assert IsDir(downloaded, MarkerPath(d)) == IsDir(t, MarkerPath(d));
    MarkerWritten(downloaded, d, version, p);
  }

  /** The marker path and `DEST_DIR` are no target's final or temporary
      path: the targets end in ".dll", their temporary names in ".tmp",
      and the marker in ".txt". */
  lemma MarkerLeavesTargets(p: Platform, d: Date)
    requires Printable(d)
    ensures !TargetPath(TargetAssets(Suffix(p)), DestDir)
    ensures !TargetPath(TargetAssets(Suffix(p)), MarkerPath(d))
  {
    var targets := TargetAssets(Suffix(p));
    assert forall n | n in targets :: |n| > 0 && n[|n| - 1] == 'l';
    var m := MarkerPath(d);
    assert |m| == 4 && |m[3]| > 0 && m[3][|m[3]| - 1] == 't';
    NotTargetPath(targets, DestDir);
    NotTargetPath(targets, m);
  }

  /** `DEST_DIR` itself and any name in it ending in 't' are neither a
      final nor a temporary path of the targets. */
  lemma NotTargetPath(targets: seq<string>, q: Path)
    requires forall n | n in targets :: |n| > 0 && n[|n| - 1] == 'l'
    requires q == DestDir || (|q| == 4 && |q[3]| > 0 && q[3][|q[3]| - 1] == 't')
    ensures !TargetPath(targets, q)
  {
  }

  /** The marker never lands on the real loader library. */
  lemma MarkerSparesLibrary(t: Tree, d: Date, version: string, p: Platform)
    requires Printable(d)
    ensures Same(t, WriteMarker(t, d, version, p), OutPath(RealLoaderName(Suffix(p))))
  {
    var name := RealLoaderName(Suffix(p));
    var marker := MarkerName(DateText(d));
    assert MarkerPath(d) != OutPath(name) by {
      assert marker[|marker| - 1] == 't' && name[|name| - 1] == 'l';
      assert MarkerPath(d)[3] == marker && OutPath(name)[3] == name;
    }
    MarkerWritten(t, d, version, p);
  }

  /** `gmod13_close` of the loader: delegate to the real loader's
      `gmod13_close`, without downloading anything. */
  method Close(fs: FileSystem, p: Platform, link: (Bytes, string) -> Link) returns (e: Exit)
    ensures e == Delegate(fs.nodes, p, "gmod13_close", link)
  {
    e := CallReal(fs, p, "gmod13_close", link);
  }

  /** Load the library at `lib_name` and call `symbol`. */
  method CallReal(fs: FileSystem, p: Platform, symbol: string, link: (Bytes, string) -> Link) returns (e: Exit)
    ensures e == Delegate(fs.nodes, p, symbol, link)
  {
    var lib := Resolve(Split(LibraryName(p)));
    if lib in fs.nodes && fs.nodes[lib].File? {
      var l := link(fs.nodes[lib].data, symbol);
      e := if l.Calls? then Returned(l.code) else Panicked;
    } else {
      e := Panicked;
    }
  }

  /** `download_asset` on the filesystem. */
  method DownloadAsset(fs: FileSystem, asset: Asset) returns (result: Saved)
    requires fs.Valid() && PlainName(asset.name)
    modifies fs
    ensures fs.Valid()
    ensures Saving(result, fs.nodes) == Download(old(fs.nodes), asset.name, asset.served)
  {
    DestPaths(asset.name);
    if asset.served.Unreachable? {
      return SendFailed;
    }
    var outPath := DestDir + [asset.name];
    var tmpPath := DestDir + [TmpName(asset.name)];
    var ok := fs.CreateFile(tmpPath);
    if !ok {
      return CreateFailed;
    }
    fs.Append(tmpPath, asset.served.body);
    if !asset.served.complete {
      return CopyFailed;
    }
    ok := fs.Rename(tmpPath, outPath);
    result := if ok then Saved else RenameFailed;
  }

  /** `write_success_marker` on the filesystem. */
  method WriteSuccessMarker(fs: FileSystem, d: Date, version: string, p: Platform)
    requires fs.Valid() && Printable(d)
    modifies fs
    ensures fs.Valid()
    ensures fs.nodes == WriteMarker(old(fs.nodes), d, version, p)
  {
    var date := DateText(d);
    var markerPath := DestDir + [MarkerName(date)];
    var content := Utf8(MarkerText(date, version, p));
    var _ := fs.Write(markerPath, content);
  }

  /** `gmod13_open` of the loader on the filesystem. */
  method Open(fs: FileSystem, p: Platform, fetched: Fetched, d: Date, version: string,
              link: (Bytes, string) -> Link) returns (e: Exit)
    requires fs.Valid() && Printable(d)
    modifies fs
    ensures fs.Valid()
    ensures Run(e, fs.nodes) == OpenEffect(old(fs.nodes), p, fetched, d, version, link)
  {
    if fetched.FetchFailed? {
      return Returned(1);
    }
    var targets := TargetAssets(Suffix(p));
    TargetsSeparate(p);
    var assets := fetched.release.assets;
    ghost var t0 := fs.nodes;
    for i := 0 to |assets|
      invariant fs.Valid()
      invariant fs.nodes == DownloadMatching(t0, targets, assets[..i])
    {
      if assets[i].name in targets {
        var _ := DownloadAsset(fs, assets[i]);
      }
      assert assets[..i + 1][..i] == assets[..i];
    }
    assert assets[..|assets|] == assets;
    WriteSuccessMarker(fs, d, version, p);
    e := CallReal(fs, p, "gmod13_open", link);
  }
}
