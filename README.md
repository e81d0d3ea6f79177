# Auto-loader for Garry's Mod Integration, modelled in Dafny

The repository ships two native libraries for the Garry's Mod host. The host
calls each library's `gmod13_open` once at startup and its `gmod13_close` at
shutdown.

* **The loader** (`crates/loader/src/lib.rs`). `gmod13_open` does four things:
  1. It asks the GitHub API for the latest release of the loader's own repository.
  2. It downloads the two release assets built for the running platform into `garrysmod/lua/bin`. Each asset is written to a temporary `.tmp` file and then renamed into place.
  3. It writes a dated success marker next to them.
  4. It loads the real loader library from that directory and returns whatever that library's `gmod13_open` returns.

  `gmod13_close` only delegates to the same library.
* **The real loader** (`crates/real/src/lib.rs`). `gmod13_open` runs these steps:
  1. It fetches the latest release of the addon and downloads its source archive to `gmod-integration.zip`.
  2. It empties `garrysmod/addons/gmod_integration_latest` and extracts the archive into it.
  3. It moves the children of the archive's top-level folder up one level.
  4. It removes that folder, `.git`, `.github` and the archive.

  Its `gmod13_close` (`exit`) returns 0.

The model is split into these modules:

* `Paths` (`paths.dfy`) holds paths as sequences of components.
  * `Join` is literal, as `Path::join` is: an absolute name replaces the base, and `..` stays in the path.
  * `Resolve` is the lexical resolution the operating system applies when a path is used.
  * `Lexical` is `components()` with every "." dropped, including a leading one, which Rust keeps as `CurDir`. This changes no resolution.
  * `LexParent` is `Path::parent` for any path that holds a name or `..`. The paths the crates take a parent of always do.
* `Fs` (`fs.dfy`) holds the filesystem.
  * It is a map from resolved paths to `File(bytes)` or `Dir`.
  * `Wf` says the map is a tree: every key is resolved and sits in a directory.
  * Each `std::fs` call that changes the filesystem is a function from the old tree to a success flag and the new tree: `create_dir_all`, `File::create`, writing through the handle, `fs::write`, `rename` (POSIX semantics), `remove_dir_all` and `remove_file`.
  * `read_dir` is `Children`, the set of names directly in a directory. `Path::exists` is `Exists`.
  * Failures are the structural ones: a missing parent, a file where a directory is needed or the other way round, a rename onto a non-empty directory.
* `Os` (`os.dfy`) is the filesystem as a mutable object. It is the class `FileSystem`, whose methods update its `nodes` field as the `Fs` functions say.
* `Env` (`env.dfy`) holds what comes from outside:
  * the `i32` result;
  * a panic as an exit;
  * HTTP responses;
  * the dynamic loader, as a function from library bytes and a symbol name to an outcome.
* `Loader` (`loader.dfy`) models the loader crate.
* `Updater` (`real.dfy`) models the real loader crate.

Every entry point exists twice in the model:

* as a function from the old tree and the inputs to the exit and the new tree (`Loader.OpenEffect`, `Updater.Update`);
* as a method on a `FileSystem` that follows the source statement by statement and is proved equal to that function.

The properties are lemmas about the functions.

Two inputs stand in for choices `read_dir` makes: the name listed first in `target_dir` (`w`) and the order of the wrapper's children (`order`). The method picks them arbitrarily and returns them as ghost outputs. `Updater.Fits` says they are a possible listing.

## Model

| member | source | states |
|---|---|---|
| Loader.Suffix | crates/loader/src/lib.rs:103-107 | the suffix is one of win64, win32, linux64, linux |
| Loader.SuffixDistinguishesPlatforms | crates/loader/src/lib.rs:103-107 | two platforms get the same suffix exactly when they agree on "is Windows" and "is x86_64" |
| Loader.TmpName | crates/loader/src/lib.rs:42 | `with_extension("tmp")` always yields a name ending in ".tmp", and a plain file name stays a plain file name |
| Loader.TmpOfDll | crates/loader/src/lib.rs:42 | the temporary name of `stem.dll` is `stem.tmp` |
| Loader.DestPaths | crates/loader/src/lib.rs:39-42 | the final and temporary paths of a plain name resolve to themselves, sit directly in `DEST_DIR`, and differ exactly when the name is not its own temporary name |
| Loader.Download | crates/loader/src/lib.rs:29-50 | it ends with `Ok` iff the GET responded, the body arrived whole, `DEST_DIR` is a directory, and neither the temporary nor the final path is a directory. Only those two paths can change. On `Ok` the final path holds the body and no temporary file remains. A send or create error changes nothing. A broken body leaves exactly the partial temporary file. Any error leaves the final path as it was |
| Loader.RenameTmp | crates/loader/src/lib.rs:47 | the rename of the written temporary file succeeds iff the final path is not a directory, and then moves the body there |
| Loader.RenameTmpOk | crates/loader/src/lib.rs:47 | with the temporary file written and the final path in the same directory, the rename succeeds iff the final path is not a directory. It then moves the temporary file onto the final path |
| Loader.MovedTmp | crates/loader/src/lib.rs:47 | after that move the final path holds the body, the temporary path is gone, and every other path is as before the download |
| Loader.TargetAssets | crates/loader/src/lib.rs:109-112 | the two target names differ, and each ends with the platform suffix and `.dll` |
| Loader.TargetsSeparate | crates/loader/src/lib.rs:109-112 | on every platform both target names are plain file names. No target's temporary name equals a target name, and the two temporary names differ |
| Loader.SuffixTargets | crates/loader/src/lib.rs:109-112 | for any suffix without '.' or '/', the two target names are plain, distinct, and distinct from both temporary names |
| Loader.DownloadMatching | crates/loader/src/lib.rs:115-122 | the selection loop keeps the filesystem a tree |
| Loader.MatchingFrame | crates/loader/src/lib.rs:115-122 | the loop changes no path other than the final and temporary paths of the two targets |
| Loader.OtherTargetUntouched | crates/loader/src/lib.rs:115-122 | downloading one target leaves both paths of the other target unchanged |
| Loader.MatchingKeepsInstallable | crates/loader/src/lib.rs:115-122 | a target whose destination was usable stays usable through the loop, whatever the downloads do |
| Loader.LastMatchingWins | crates/loader/src/lib.rs:115-122 | with a usable destination for a target name, when the last asset of that name arrives complete, its body ends up at the target's final path, with no temporary file left |
| Loader.OldOrServed | crates/loader/src/lib.rs:115-122 | after the loop a target's final path is unchanged or holds the complete body of some asset of that name, never a partial one |
| Loader.Digits | crates/loader/src/lib.rs:53 | zero-padded decimal has exactly `width` digits, all 0-9 |
| Loader.DigitsInjective | crates/loader/src/lib.rs:53 | numbers below 10^width print differently |
| Loader.DateText | crates/loader/src/lib.rs:53 | `%Y-%m-%d` of a date is 10 characters with '-' at positions 4 and 7 |
| Loader.DateTextInjective | crates/loader/src/lib.rs:53 | two printable dates print alike only if they are the same day |
| Loader.MarkerPath | crates/loader/src/lib.rs:52-55 | the marker is a plain file name directly in `DEST_DIR`, and its path resolves to itself |
| Loader.MarkerPerDay | crates/loader/src/lib.rs:53-55 | two runs share a marker path iff they run on the same day |
| Loader.Utf8Char | crates/loader/src/lib.rs:72 | a character takes 1-4 bytes in UTF-8, one byte exactly for ASCII, and that byte is its code |
| Loader.Utf8 | crates/loader/src/lib.rs:72 | the UTF-8 encoding of a string takes one to four bytes per character |
| Loader.AsciiUtf8 | crates/loader/src/lib.rs:61-72 | ASCII text, like the marker for an ASCII version and platform, is stored one byte per character |
| Loader.MarkerAscii | crates/loader/src/lib.rs:57-72 | with an ASCII version, OS and architecture, the marker text is ASCII and the file holds it one byte per character |
| Loader.WriteMarker | crates/loader/src/lib.rs:52-75 | writing the marker keeps the filesystem a tree and changes no path other than the marker's |
| Loader.MarkerWritten | crates/loader/src/lib.rs:52-75 | the marker file gets the encoded text when `DEST_DIR` is a directory and the marker path is not. Otherwise the tree is unchanged (the error is only logged) |
| Loader.MarkerSparesLibrary | crates/loader/src/lib.rs:52-75 | writing the marker never touches the real loader's final path |
| Loader.LastSlash | crates/loader/src/lib.rs:136 | the index of the last '/' of a string that has one |
| Loader.Split | crates/loader/src/lib.rs:136 | a '/'-separated path has at least one component |
| Loader.SplitJoin | crates/loader/src/lib.rs:136 | `a/b` splits into the components of `a` followed by `b` |
| Loader.DestDirComponents | crates/loader/src/lib.rs:27 | `DEST_DIR/name` splits into the destination directory and `name` |
| Loader.LibraryIsRealLoader | crates/loader/src/lib.rs:136-139 | `lib_name` (`LibraryName`, opened as `LibraryPath`) is the final path that the download of the second target asset renames into |
| Loader.Outcome | crates/loader/src/lib.rs:139-144 | a load failure or a missing symbol panics. A call returns exactly the callee's code |
| Loader.Delegate | crates/loader/src/lib.rs:139-144 | a returned code is the code of calling the symbol in the library file at `lib_name`. No file there means a panic. With a file there, the entry point returns iff the loader finds the symbol in it |
| Loader.OpenEffect | crates/loader/src/lib.rs:79-100 | a failed release fetch returns 1 and touches nothing |
| Loader.MarkerAfterDownloads | crates/loader/src/lib.rs:114-126 | after a fetched release, the tree at the moment of delegation is the result of the download loop, plus the marker file with its encoded text when `DEST_DIR` is a directory and the marker path is not |
| Loader.HotSwap | crates/loader/src/lib.rs:109-145 | with a usable destination for the real loader, when the last asset named like the real loader arrives complete, `gmod13_open` ends as that freshly downloaded library's `gmod13_open` does |
| Loader.CallReal | crates/loader/src/lib.rs:136-144 | loading `lib_name` and calling the symbol gives `Delegate` |
| Loader.Close | crates/loader/src/lib.rs:148-166 | `gmod13_close` delegates to the real loader's `gmod13_close` and changes nothing |
| Loader.DownloadAsset | crates/loader/src/lib.rs:29-50 | the method's result and new state are `Download` |
| Loader.WriteSuccessMarker | crates/loader/src/lib.rs:52-75 | the method's new state is `WriteMarker` |
| Loader.Open | crates/loader/src/lib.rs:79-146 | the method, with its loop over the assets, gives `OpenEffect` |
| Updater.TargetDirResolves | crates/real/src/lib.rs:60-85 | `./garrysmod/addons/gmod_integration_latest` resolves to `garrysmod/addons/gmod_integration_latest`, and `gmod-integration.zip` to itself |
| Updater.ArchiveWritten | crates/real/src/lib.rs:60-65 | writing the archive succeeds iff its path is not a directory, and then leaves exactly the body in a file there |
| Updater.ClearedFacts | crates/real/src/lib.rs:87-89 | after the conditional `remove_dir_all`, nothing lies below `target_dir` unless `target_dir` is a file. Everything outside is unchanged and nothing is added |
| Updater.Reset | crates/real/src/lib.rs:85-94 | recreating `target_dir` succeeds iff none of its three prefixes is a file. On success `target_dir` is an empty directory, everything outside it is kept, and only its ancestors are added. On failure nothing changed |
| Updater.ResetBlocked | crates/real/src/lib.rs:85-94 | after the archive is written, `create_dir_all(target_dir)` fails iff a prefix of `target_dir` is a file, and the failure changes nothing |
| Updater.EarlyReturns | crates/real/src/lib.rs:18-94 | each early return gives 1: a failed release fetch or download changes nothing; after the archive is written, an unreadable archive or a blocked `target_dir` leaves only the archive; an archive path that is a directory changes nothing |
| Updater.ArchiveSurvives | crates/real/src/lib.rs:85-109 | the reset and the extraction keep the archive file a file |
| Updater.ExtractOne | crates/real/src/lib.rs:97-108 | one extraction step keeps the tree a tree and removes nothing, and no node changes between file and directory |
| Updater.ExtractOneFacts | crates/real/src/lib.rs:96-109 | an unreadable entry panics. A directory entry never panics and its directory exists unless a file blocks its path. A file entry that does not panic leaves exactly its bytes at its resolved path. No other existing node changes. New nodes lie only on the way to the entry's resolved path or its parent's, not necessarily in `target_dir` |
| Updater.FileEntryPanics | crates/real/src/lib.rs:101-106 | a file entry whose path ends in a name panics iff its resolved path is a directory or one of its prefixes is a file |
| Updater.FileEntryParent | crates/real/src/lib.rs:98-104 | `parent()` of such an entry's path exists and resolves to the directory holding the entry's resolved path |
| Updater.CreateBelow | crates/real/src/lib.rs:103-106 | `create_dir_all(parent)` then `File::create(path)` fails iff the path is a directory or one of its prefixes is a file |
| Updater.ExtractOneNewNodes | crates/real/src/lib.rs:97-108 | an extraction step adds nodes only on the way to the entry's resolved path or to its parent's |
| Updater.OrdinaryDest | crates/real/src/lib.rs:98 | an entry named by plain relative names lands at `target_dir` followed by those names |
| Updater.OrdinaryStep | crates/real/src/lib.rs:96-108 | one step over an ordinary entry that does not clash with the earlier ones does not panic. `target_dir` stays a directory, and every node below it is asked for, with its kind, by an entry so far |
| Updater.OrdinaryExtraction | crates/real/src/lib.rs:96-109 | the extraction loop over ordinary, non-clashing entries into an empty `target_dir` never panics, and every node below `target_dir` is an entry's directory, an ancestor of an entry, or an entry's file |
| Updater.ArchiveExtracted | crates/real/src/lib.rs:85-109 | after a successful reset, extracting such an archive does not panic, and every file entry that no later file entry overrides holds its bytes at `target_dir` followed by its name |
| Updater.ExtractOneWrites | crates/real/src/lib.rs:101-107 | a file entry that does not panic leaves exactly its bytes at its resolved path |
| Updater.ExtractOneKeeps | crates/real/src/lib.rs:97-108 | an extraction step keeps every existing node other than a file entry's resolved path |
| Updater.ExtractAll | crates/real/src/lib.rs:96-109 | the extraction loop keeps the tree a tree and removes nothing, and no node changes between file and directory |
| Updater.PanicSticks | crates/real/src/lib.rs:97-106 | a panic on an entry ends the loop: the remaining entries change nothing |
| Updater.LastFileWins | crates/real/src/lib.rs:96-109 | after a loop that does not panic, a file entry's path holds its bytes unless a later file entry resolves to the same path |
| Updater.EscapeUpward | crates/real/src/lib.rs:98-107 | an entry named `../../../c` is written to `c` in the working directory, outside `target_dir` |
| Updater.EscapeAbsolute | crates/real/src/lib.rs:98-107 | an entry named `/c` is written to `/c`, because `join` replaces the base |
| Updater.ClimbLexical | crates/real/src/lib.rs:103 | `parent()` of `target_dir/../../../c` keeps the three `..` |
| Updater.AbsoluteName | crates/real/src/lib.rs:98-103 | `/c` resolves to itself and its `parent()` is the root |
| Updater.ClimbOut | crates/real/src/lib.rs:98-103 | `target_dir/../../../c` resolves to `c`, and its `parent()` resolves to the working directory |
| Updater.ClimbThree | crates/real/src/lib.rs:98 | three `..` components above anything that resolves to `target_dir` reach the working directory |
| Updater.MoveAll | crates/real/src/lib.rs:124-130 | the rename loop keeps the tree a tree |
| Updater.MoveStep | crates/real/src/lib.rs:124-130 | when `target_dir` holds only the wrapper `w`, with no child named `w`, each rename of a wrapper child into `target_dir` succeeds, and relocates that child with its whole subtree |
| Updater.MoveAllRelocates | crates/real/src/lib.rs:124-130 | when `target_dir` holds only the wrapper `w`, with no child named `w`: after the loop, each path below `target_dir/c`, for a moved child `c`, holds what the same path below the wrapper held. Those paths below the wrapper are gone. Everything else is as before |
| Updater.MoveAllFrame | crates/real/src/lib.rs:124-130 | the rename loop leaves everything outside `target_dir`, and `target_dir` itself, unchanged |
| Updater.Cleanup | crates/real/src/lib.rs:132-135 | the clean-up only removes nodes, and changes none |
| Updater.CleanupFacts | crates/real/src/lib.rs:132-135 | after the clean-up the wrapper's subtree is gone. `.git` and `.github` are gone, or remain as plain files. The archive path remains only if it was a directory. Every other path is unchanged |
| Updater.NothingLeftUnder | crates/real/src/lib.rs:132-134 | after `remove_dir_all(p)`, whatever its result, the only thing left at or below `p` is a file at `p` |
| Updater.CleanupKeeps | crates/real/src/lib.rs:132-135 | the clean-up leaves `target_dir` and its ancestors alone, and removes a file at the archive path |
| Updater.Install | crates/real/src/lib.rs:111-122 | an empty `target_dir` returns 1 and changes nothing |
| Updater.SingleWrapperFlattens | crates/real/src/lib.rs:111-140 | if `target_dir` holds a single folder `w` with no child named `w`, the result is 0. Every path below the wrapper moves one level up, except `.git` and `.github`, which are removed unless they are files. `target_dir` stays a directory. Nothing outside `target_dir` changes except that an archive file is removed |
| Updater.CleanupRelocated | crates/real/src/lib.rs:124-135 | clean-up after the complete relocation leaves the flattened tree |
| Updater.Prepare | crates/real/src/lib.rs:14-109 | the steps before the wrapper is picked keep the tree a tree |
| Updater.PrepareKeepsArchive | crates/real/src/lib.rs:14-109 | those steps never return 0. Once the archive is written, it remains a file through the reset and the extraction |
| Updater.InstallArchive | crates/real/src/lib.rs:111-140 | after extraction, the archive file is removed iff the run returns 0, and `target_dir` is then a directory |
| Updater.ArchiveKeptUnlessFlattened | crates/real/src/lib.rs:60-140 | `gmod13_open` returns 0 only with the archive gone and `target_dir` a directory. Any other ending after the archive was written leaves the archive on disk |
| Updater.ArchiveReachesFlatten | crates/real/src/lib.rs:18-109 | with the release and archive delivered, nothing in the way of the archive or `target_dir`, and an archive of ordinary, non-clashing entries, the run gets past the extraction |
| Updater.Update | crates/real/src/lib.rs:12-141 | `gmod13_open` keeps the tree a tree |
| Updater.Exit | crates/real/src/lib.rs:143-146 | `exit` returns 0 |
| Updater.ResetTarget | crates/real/src/lib.rs:85-94 | the method gives `Reset` |
| Updater.Extract | crates/real/src/lib.rs:96-109 | the method, with its loop over the entries, gives `ExtractAll` |
| Updater.ExtractEntry | crates/real/src/lib.rs:97-108 | the method's panic flag and new state are `ExtractOne` |
| Updater.Flatten | crates/real/src/lib.rs:111-140 | the method lists `target_dir`, picks a listed name, and renames the wrapper's children one by one in a listing order. It gives `Install` for that name and order, and the choice satisfies `Listing` |
| Updater.MoveChildren | crates/real/src/lib.rs:124-130 | the rename loop visits every listed child exactly once, and its new state is `MoveAll` for that order |
| Updater.Open | crates/real/src/lib.rs:12-141 | the method gives `Update` for the listing it chose, and the choice satisfies `Fits` |
| Updater.BelowTarget | crates/real/src/lib.rs:98 | plain names joined to `target_dir` resolve below `garrysmod/addons/gmod_integration_latest` |
| Fs.CreateDirAll | crates/real/src/lib.rs:91 | `create_dir_all` succeeds iff no prefix of the resolved path is a file. It then makes every prefix a directory, keeps every old node, and adds only directories on the way to the path. On failure nothing changes |
| Fs.CreateFile | crates/real/src/lib.rs:106 | `File::create` succeeds iff the path names a file whose parent is a directory and which is not itself a directory. The file is then empty |
| Fs.Append | crates/real/src/lib.rs:107 | writing through the handle appends the bytes to that file only |
| Fs.Write | crates/real/src/lib.rs:62 | `fs::write` succeeds exactly when `File::create` would, and leaves exactly the data |
| Fs.Move | crates/real/src/lib.rs:129 | a moved subtree appears at the destination, and nothing is left at the source or at the old destination |
| Fs.Rename | crates/real/src/lib.rs:129 | `rename` succeeds iff POSIX allows it (a source that exists, a parent for the target, not into itself, no non-empty directory replaced). On success it moves the subtree, and on failure nothing changes |
| Fs.RemoveDirAll | crates/real/src/lib.rs:88 | `remove_dir_all` succeeds iff the path is a directory, and then removes exactly its subtree. On failure nothing changes |
| Fs.RemoveFile | crates/real/src/lib.rs:135 | `remove_file` succeeds iff the path is a file, and then removes exactly it |
| Fs.UnderFile | crates/real/src/lib.rs:124 | in a tree, anything below a path makes that path a directory |
| Fs.UnderChild | crates/real/src/lib.rs:124 | in a tree, anything below a directory lies under one of its listed children |
| Os.FileSystem.ReadDir | crates/real/src/lib.rs:113-114 | `read_dir` succeeds iff the path is a directory, and lists exactly its children |
| Os.FileSystem.CreateDirAll | crates/real/src/lib.rs:91 | the method's new state and result are `Fs.CreateDirAll` |
| Os.FileSystem.CreateFile | crates/real/src/lib.rs:106 | the method's new state and result are `Fs.CreateFile` |
| Os.FileSystem.Append | crates/real/src/lib.rs:107 | the method's new state is `Fs.Append` |
| Os.FileSystem.Write | crates/real/src/lib.rs:62 | the method's new state and result are `Fs.Write` |
| Os.FileSystem.RemoveDirAll | crates/real/src/lib.rs:88 | the method's new state and result are `Fs.RemoveDirAll` |
| Os.FileSystem.RemoveFile | crates/real/src/lib.rs:135 | the method's new state and result are `Fs.RemoveFile` |
| Os.FileSystem.Rename | crates/real/src/lib.rs:129 | the method's new state and result are `Fs.Rename` |
| Paths.Join | crates/real/src/lib.rs:98 | an absolute name replaces the base, and a relative name extends it |
| Paths.JoinResolves | crates/real/src/lib.rs:98 | the joined path resolves as the base followed by the name does: a root in the name starts over |
| Paths.Resolve | crates/real/src/lib.rs:98-106 | a resolved path is canonical (no empty or "." component, the root only in front, ".." only leading) and no longer than the path |
| Paths.ResolveCanonical | crates/real/src/lib.rs:98-106 | resolving a resolved path changes nothing |
| Paths.Lexical | crates/real/src/lib.rs:103 | `components()` leaves no empty or "." component, and is no longer than the path |
| Paths.ResolveLexical | crates/real/src/lib.rs:103-104 | dropping those components changes no resolution |
| Paths.LexParent | crates/real/src/lib.rs:103 | `parent()` exists iff the path has a last component that is not the root, and is one component shorter |
| Paths.ResolveAppend | crates/real/src/lib.rs:127 | appending plain names to a path resolves them one by one |

## Left out

* Network, HTTP and JSON are inputs.
  * A release fetch is a result value.
  * Each download is a `Response`: no response, or some body that may have broken off.
  * The loader's `error_for_status` is a `FetchError`. Neither crate checks the status of a download, and the model does not look at it either.
* Timeouts, the `User-Agent` header, the API URLs and all logging are not modelled.
* The zip format is an input. `unzip` maps the downloaded bytes to `None` or to the list of entries.
  * The archive is read from the bytes that were written. An entry that overwrites `gmod-integration.zip` therefore does not change the remaining entries.
  * `File::open` of the archive right after a successful write is taken to succeed.
* An entry's `copy` is modelled as writing all its bytes. A read error in the middle of an entry is not modelled.
* The dynamic loader is the input `link`. Its cache of already-loaded images is not modelled, so a call to a library loaded earlier in the process behaves as a fresh load of the file on disk.
* `read_dir` is modelled as a snapshot, and its choices are inputs (see above). An iteration error (`Some(Err)` and `entry.expect`) is not modelled. Neither is a listing that changes while the loop renames entries.
* Filesystem failures are the structural ones only. Permissions, a full disk, I/O errors, symbolic links and Windows path rules are not modelled.
* Paths resolve lexically (`a/../b` is `b` even when `a` does not exist). A real `create_dir_all` through `..` also creates the intermediate directory.
* `Local::now()` is the input `Date`, limited to years 0-9999.
* `CARGO_PKG_VERSION`, `env::consts::OS` and `env::consts::ARCH` are inputs.
* Concurrency, and a process killed in the middle of a run, are not modelled.
* Paths.LexParent: for the path "." alone Rust's `parent()` gives the empty path, and the model gives none. The only paths the crates take a parent of start with `./garrysmod` or with the root.
* Fs.Wf: the parent of the working directory (`..`, `../..`, and so on) is an ordinary key, so the model admits a file there. A real filesystem always has a directory there.
* Updater.FileEntryPanics: it covers file entries whose path ends in a name. For an entry name that ends in `..`, `parent()` and `File::create` act on different directories. `ExtractOneFacts` states what such an entry leaves, but not exactly when it panics.
* Updater.ArchiveExtracted: the no-panic result covers archives whose entries are plain relative names that do not clash (no name that is both a file and a directory). Other archives are covered by `ExtractOneFacts`, `LastFileWins`, `EscapeUpward` and `EscapeAbsolute`.
* Loader.OpenEffect: the tree it returns is the filesystem at the moment `gmod13_open` delegates to the real loader. The called entry point's own filesystem effects (the real loader writes the archive and rewrites `target_dir`) are not modelled: `link` gives only how the call ends. The same holds for `Loader.Close`.
* Loader.Download: when an asset's name is its own temporary name (a name ending in `.tmp`), the temporary file and the final file are the same file. The postconditions about the temporary path and about the final path after a failure are not stated for that case.
* Several things a general description of this kind of updater would lead one to expect are absent from the code. The model follows the code:
  * there is no version cache and no version gating;
  * there is no update-signal file;
  * there are no empty, size or magic-byte checks on a download;
  * a partial temporary file is not deleted;
  * archive entry names are not checked against path traversal (`EscapeUpward` and `EscapeAbsolute` show entries landing outside `target_dir`);
  * the archive is deleted only on success (`ArchiveKeptUnlessFlattened`);
  * `target_dir` is flattened by moving the children of the first listed entry, whether or not it is the only one.
