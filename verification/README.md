# Dotfile hard-link engine and release-asset matcher, in Dafny

This project models the core of TerminalUtopia's two utilities.

- `linker.py` keeps dotfiles in a repository directory. It makes hard links between the repository and the user's home directory.
  - A `Task` picks one mode: restore, add or compare.
  - It decides which root the target path belongs to.
  - It re-joins the relative path under the other root to get an origin and a destination.
  - For each file it classifies the pair as NOT FOUND, MISSING FILE, HARDLINKED or DIFFERENT FILES.
  - Unless comparing or doing a dry run, it links the destination to the origin. The result is LINKED, OVERWRITED, DIFFERENT FILES or FILE SYSTEM ERROR.
  - A compare run that finds exactly one differing file asks for the external `delta` diff viewer.
- `get_latest.py` picks the asset of a GitHub release to download. It takes the first asset whose lower-cased name contains every filter, lower-cased and stripped.

Paths are canonical sequences of components. The filesystem is an immutable map from path to entry: a directory, or a file carrying its inode. Two paths with the same inode are hard links. `os.link`, `Path.unlink` and `Path.mkdir(parents=True, exist_ok=True)` are total functions. Each one either returns the new map or raises the Python exception that Linux gives for it. A path that does not exist is resolved from the root down, as the kernel does. A missing component raises FileNotFoundError, and a component that is a regular file raises NotADirectoryError.

Modules, one per file:

- `Wrappers`: `Option` and `Result`.
- `Paths`: prefix, ancestor, join and relative path.
- `FileSystem`: entries, well-formedness, mkdir/link/unlink.
- `Linker`: the `Task` methods.
- `LinkerRun`: `Task.run` and task construction.
- `GetLatest`: `_search` and `get`.

Things that are parameters rather than modelled:

- `resolve`: the user-path expansion and symlink resolution of the target string.
- The two roots: the repository path and `Path.home()`.
- `failing`: the set of destinations where a link raises nothing but leaves no entry behind. This is the case the post-check in `linker.py` catches.
- The order of a directory walk. `ListFiles` chooses each next entry arbitrarily.
- The fetched release document, as `Option<seq<Asset>>`.

Behaviour worth knowing before reading the model:

- When a link without overwrite meets an existing destination, the code reports DIFFERENT FILES (linker.py:155-156). There is no separate "rejected" status.
- The code checks the roots when the target is first resolved. This is after mode selection.
- With no mode given, `linker.py` fails on first use of the target rather than in the constructor. The model returns `NoMode` before any root check.
- Every repository path re-joined under home is guaranteed to leave the repository only when neither root contains the other (`Linker.RootSwapLeavesRoot`). In the default layout the repository lies inside home. There some re-joined paths leave the repository and others do not: `Linker.RootSwapNestedRoots` shows one that stays inside.
- A missing origin does not always end in NOT FOUND. Without overwrite and with an existing destination, the code reports DIFFERENT FILES and raises nothing. With overwrite, or with the destination absent, it raises and the batch aborts (see Findings). The exception depends on what is in the way. `os.link` raises FileNotFoundError, or NotADirectoryError when an ancestor of the origin is a regular file. It gets this far for a regular-file destination, or for an absent destination whose parent path is not blocked. A directory destination with overwrite makes `unlink` raise IsADirectoryError. When a regular file blocks the destination's parent path, `mkdir` raises FileExistsError or NotADirectoryError. The run driver uses the corrected `Linker.LinkFile`, which reports NOT FOUND in exactly those raising cases.

## Model

| member | source | states |
|---|---|---|
| Linker.SelectMode | linker.py:31-38 | More than one truthy mode argument gives the conflicting-modes error. None gives the no-mode error. No other error is possible. Otherwise the chosen mode is the only one given, and its argument is the target. |
| Linker.GivenCountMeaning | linker.py:31-38 | Counting truthy arguments above one means two distinct modes were given. A count of exactly one means a unique mode was given. |
| Linker.RelativeRoot | linker.py:65-72 | Resolution succeeds iff the target lies in the repository or in home. The base is one of the roots and contains the target. The target equal to home is its own base. Otherwise the repository wins whenever it contains the target. Home is chosen only when the repository does not contain the target. |
| Linker.Resolve | linker.py:40-72 | A missing repository root fails first, then a missing home root. When both roots exist, the result is exactly the membership rule of `Linker.RelativeRoot`. |
| Linker.OrigDest | linker.py:129-135 | Origin and destination both end with the relative path. The origin lies under the mode's origin root and the destination under the other root. Taking each relative to its root gives the relative path back. |
| Linker.OrigDestDirections | linker.py:129-135 | Restore gives (repo/f, home/f). Add and compare give the reverse pair. |
| Linker.RootSwapLeavesRoot | linker.py:85-86 | With neither root inside the other, a repository path re-joined under home is outside the repository. |
| Linker.RootSwapNestedRoots | linker.py:85-86 | With the repository inside home, a repository path can re-join to a path still inside the repository. |
| Linker.CheckFile | linker.py:137-146 | There are exactly four outcomes. NOT FOUND iff the origin is absent, whatever the destination. MISSING FILE iff only the destination is absent. HARDLINKED iff both exist and are the same file. DIFFERENT FILES iff both exist as different files. |
| Linker.LinkFileAsWritten | linker.py:148-165 | With an existing destination and no overwrite, it reports DIFFERENT FILES and changes nothing. Only the destination and new ancestor directories can change, and new directories appear only for a relative path of several components. FILE SYSTEM ERROR occurs exactly when the link did not land. |
| Linker.OverwriteWithMissingOriginLosesDestination | linker.py:150-153 | As written, overwrite with a missing origin unlinks the destination and then raises. The destination is gone. The error is FileNotFoundError or NotADirectoryError. In a well-formed filesystem it is NotADirectoryError exactly when, after the unlink, some existing ancestor of the origin is a regular file. |
| Linker.OverwriteWithMissingOriginExample | linker.py:150-153 | Concrete case: restoring `.bashrc` with overwrite when the repository has no copy deletes the home copy. |
| Linker.LinkFile | linker.py:148-165 | Corrected link. A missing origin gives NOT FOUND with nothing changed whenever the code as written would raise: with overwrite, or with the destination absent. An existing destination without overwrite is kept and reported as DIFFERENT FILES, whether or not the origin exists. LINKED only for a destination that was absent, OVERWRITED only for one that existed. After either, the destination holds the origin's inode. FILE SYSTEM ERROR iff the link did not land, with the destination absent. Nothing outside the destination and its new ancestor directories changes. An exception leaves everything else as it was. |
| Linker.LinkFileAgreesUnlessAsWrittenRaises | linker.py:148-165 | Whenever the code as written does not raise, the corrected link gives exactly its result. The correction differs only where the code raises. |
| Linker.AsWrittenRaisesOnMissingOrigin | linker.py:150-161 | As written, a missing origin raises iff the destination is absent or overwrite is set. Otherwise it reports DIFFERENT FILES. |
| Linker.MissingOriginMakesDirsThenRaises | linker.py:157-161 | As written, a missing origin with an absent destination and a relative path of several components first creates the destination's parent directories and then raises. The new directories stay behind. Unless the origin is itself one of the new directories, the error is FileNotFoundError or NotADirectoryError. In a well-formed filesystem it is NotADirectoryError exactly when some existing ancestor of the origin is a regular file. |
| Linker.MissingOriginMakesDirsExample | linker.py:157-161 | Concrete cases, with neither `home/d` nor `home/d/x` present. With no `repo/d`, restoring `d/x` creates `home/d` and raises FileNotFoundError. With `repo/d` a regular file, it creates `home/d` and raises NotADirectoryError. |
| Linker.LinkFilePreservesWellFormed | linker.py:148-165 | Linking keeps the filesystem well formed: the root is a directory and every entry's parent is a directory. |
| Linker.LinkFileCreates | linker.py:157-162 | Suppose the destination is absent, the origin is a file, no existing ancestor is a file, and either the relative path has several components or the parent exists. Then linking reports LINKED. |
| Linker.LinkFileOverwrites | linker.py:150-154 | Overwriting an existing file destination yields exactly the old map with the destination now holding the origin's inode, and reports OVERWRITED. |
| Linker.LinkFileRefusesDirectory | linker.py:150-152 | Overwriting a directory destination raises IsADirectoryError and changes nothing. |
| Linker.HardlinkedPairStable | linker.py:137-165 | A pair whose destination holds the origin's inode inspects as HARDLINKED. Linking it without overwrite reports DIFFERENT FILES and changes nothing. Linking it with overwrite reports OVERWRITED and changes nothing. |
| Linker.LinkThenInspect | linker.py:137-165 | After LINKED or OVERWRITED, inspection reports HARDLINKED. Linking again without overwrite reports DIFFERENT FILES and changes nothing. Linking again with overwrite reports OVERWRITED and changes nothing. |
| Linker.CheckPredictsLink | linker.py:137-165 | Inspection predicts linking. NOT FOUND leaves things untouched: it links to NOT FOUND when the destination is absent or overwrite is set, and to DIFFERENT FILES otherwise. HARDLINKED or DIFFERENT FILES without overwrite is kept. LINKED only follows MISSING FILE, and OVERWRITED only follows HARDLINKED or DIFFERENT FILES. |
| FileSystem.MakeDirs | linker.py:158-160 | On success the directory exists, every old entry is kept, and every new entry is a directory on the path. |
| FileSystem.MakeDirsOkIff | linker.py:158-160 | In a well-formed filesystem, making the directories succeeds iff no existing component of the path is a file. |
| FileSystem.MakeDirsPreservesWellFormed | linker.py:158-160 | Making directories keeps the filesystem well formed. |
| FileSystem.Link | linker.py:161 | A link succeeds only for an existing regular-file origin, a free destination and an existing parent directory. When the link lands, the destination then shares the origin's inode. A missing origin raises FileNotFoundError or NotADirectoryError, as its path walk decides. |
| FileSystem.Walk | linker.py:161 | Resolving a path from the root down either finds the entry stored at that path, or fails with FileNotFoundError or NotADirectoryError. |
| FileSystem.WalkMeaning | linker.py:161 | In a well-formed filesystem, resolution succeeds exactly for the existing entries. A missing path fails with NotADirectoryError exactly when some existing ancestor of it is a regular file, and with FileNotFoundError otherwise. |
| FileSystem.Unlink | linker.py:152 | Unlinking succeeds only on a file, and removes exactly that entry. |
| LinkerRun.ProcessFile | linker.py:84-96 | Each report is for the planned origin/destination pair. Compare and dry runs leave the filesystem unchanged and report the inspection. A conflict is recorded only in compare mode, exactly for DIFFERENT FILES. A link run reports one of the link statuses. |
| LinkerRun.RunFiles | linker.py:84-96 | A batch never has more reports than files. Unless an exception ends it early, it has exactly one report per file. |
| LinkerRun.RunFilesPlanned | linker.py:84-87 | The i-th report is about the i-th file. It carries the origin and destination obtained by swapping roots on that file's relative path. |
| LinkerRun.RunFilesInspectOnly | linker.py:88-96 | Compare and dry runs never change the filesystem and never raise. Each report is the inspection of its pair in the original filesystem. |
| LinkerRun.RunFilesLinkStatuses | linker.py:93-96 | A linking run reports only NOT FOUND, DIFFERENT FILES, LINKED, OVERWRITED or FILE SYSTEM ERROR. |
| LinkerRun.RunFilesConflicts | linker.py:88-92 | The pairs compare mode collects are exactly the pairs reported as DIFFERENT FILES, in order. Other modes collect none. |
| LinkerRun.ListFiles | linker.py:80-83 | A directory target lists exactly its non-directory descendants, each once. Any other target lists itself. |
| LinkerRun.ExpandUnderBase | linker.py:80-85 | Every listed file lies under the root the target is relative to, so its relative path exists. |
| LinkerRun.Prepare | linker.py:25-75 | Mode errors come before root and membership errors. A prepared task carries the selected mode, the resolved target and its base, and the base contains the target. |
| LinkerRun.Run | linker.py:77-103 | Errors are exactly the preparation errors. The files are the expansion, listed once each and all under the base. Each report is for the planned pair of its file. Without an exception there are as many reports as expanded files. Compare and dry runs leave the filesystem unchanged. In compare mode the diff viewer is requested iff exactly one report says DIFFERENT FILES, and then for that pair. Other modes never request it. |
| GetLatest.Search | get_latest.py:13-17 | The result is an asset matching every characteristic, with no earlier asset matching. None iff no asset matches. |
| GetLatest.SearchWithoutCharacteristics | get_latest.py:13-17 | With no characteristics the first asset is chosen, or None for no assets. |
| GetLatest.SearchNormalisedFilters | get_latest.py:40-41 | Normalising the filters with strip and lower before searching selects the same asset as the raw filters. |
| GetLatest.Get | get_latest.py:36-44 | An empty release document returns the "resources" error value. No matching asset returns the "characteristics" error value naming the raw filters. Otherwise it downloads the first asset matching the raw filters. |

## Findings

| source | as written | input that shows it | evidently intended | confidence | as-written member | corrected member |
|---|---|---|---|---|---|---|
| linker.py:150-153 | With overwrite set and a regular-file destination existing, `_link_file` unlinks the destination before `os.link` looks up the origin. A missing origin therefore deletes the destination and then raises FileNotFoundError (or NotADirectoryError, when an ancestor of the origin is a regular file), which `run` (linker.py:95) does not catch. | restore with overwrite of `~/.bashrc` when the repository has no `.bashrc` | A missing origin is reported as NOT FOUND for that file, nothing is touched, and the batch continues | high; not executed | Linker.LinkFileAsWritten (shown by Linker.OverwriteWithMissingOriginLosesDestination) | Linker.LinkFile |
| linker.py:157-161 | With the destination absent, `_link_file` never checks the origin. For a relative path of several components it creates the destination's parent directories, then `os.link` raises FileNotFoundError (or NotADirectoryError), which `run` (linker.py:95) does not catch. The batch aborts and the new directories stay. | restore the single file `~/d/x` when neither `~/d` nor `~/d/x` exists and the repository has no `d/x`. This case needs a single-file target: in a directory batch every listed file exists, and it is either the origin or the destination. | A missing origin is reported as NOT FOUND for that file, nothing is touched, and the batch continues | medium; not executed | Linker.LinkFileAsWritten (shown by Linker.MissingOriginMakesDirsThenRaises and Linker.MissingOriginMakesDirsExample) | Linker.LinkFile |

## Left out

- Command-line parsing, the environment-variable default for the repository path, and the `__main__` blocks: argument plumbing only.
- `expanduser`, `resolve` and `Path.home()` become the `resolve` parameter and given root paths. Symbolic links are not modelled.
- Logging, `see_time` and `str_path`: display only. The "Total files" count is one of these.
- The `delta` subprocess is recorded as the requested diff pair and is not run.
- `os.link` failures that `FileSystem.Link` does not model (cross-device, permissions, read-only filesystem) are abstracted into `failing`. In the code these raise OSError, which `run` does not catch, so the run aborts. The model instead turns them into a link that raises nothing and lands nothing, so that the post-check branch (linker.py:163-165) can be exercised. Permission and read-only failures of `mkdir` (linker.py:160) and `unlink` (linker.py:152) are not modelled either. In the code they raise and abort `run`, but `FileSystem.MakeDirs` and `FileSystem.Unlink` never produce them.
- The home root is re-checked on every `get_orig_dest` call. This is modelled once: no modelled operation can remove a root while a run is in progress.
- LinkFile: a directory origin still raises PermissionError after an overwrite has unlinked the destination. Only the missing-origin case is corrected.
- `get_latest.py`'s `_get_assets` and `_download` (HTTP and file I/O) are left out. A release document without an `assets` key (KeyError) and `charact=None` (TypeError) are also not modelled.
- GetLatest.Search: `str.lower` is modelled for ASCII letters only. Non-ASCII case mapping is not modelled.
- LinkerRun.ProcessFile: where the code raises because the origin is missing (overwrite of an existing destination, or an absent destination), the model reports NOT FOUND for that file, changes nothing and continues, because it links with the corrected `Linker.LinkFile` (see Findings).
- LinkerRun.Run: for the same reason, a batch with a missing origin does not abort there and no directories are created for it.
