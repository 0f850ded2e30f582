# Storage layer of nedb-cordova-file, modelled in Dafny

This project models the storage layer of an embedded document database: the
`storage` object of `browser-version/browser-specific/lib/storage.js`. It
offers one file-operation contract on two substrates:

- **Browser.** A key/value store (localforage). Every path is one key.
- **Device.** The cordova-file directory tree. Paths are walked one piece at
  a time from a bound root directory.

A lazy-initialisation wrapper sits in front of every operation except `init`.

Both substrates are pure state:

- The key/value store is a `map<string, string>`. An absent key is
  localforage's `null`.
- The tree is a `map<seq<string>, Entry>` from locations to
  `File(contents) | Dir`. The root is the empty location.

Every operation is a function from state to state plus completion.

Modules:

| module | file | what it holds |
|---|---|---|
| `Outcomes` | `outcomes.dfy` | the error kinds, `Result` and `Option` |
| `Paths` | `paths.dfy` | JavaScript `split('/')` / `join('/')`, the leading-character strip of `_getDir`, and the `Parent`/`Last` cut that `renameNative` makes |
| `KeyValue` | `key_value.dfy` | the browser adapter (`existsBrowser` … `ensureDatafileIntegrityBrowser`) and its lemmas |
| `FileTree` | `file_tree.dfy` | the substrate primitives the device adapter calls (`getDirectory`, `getFile`, `remove`, `removeRecursively`, `moveTo`, the file writer) and the well-formedness of a tree |
| `Native` | `native.dfy` | the device adapter: `_getDir`, `_getFile`, `existsNative` … `ensureDatafileIntegrityNative`, and `_renameFile`/`_moveFile` both as written and as intended |
| `Resolution` | `resolution.dfy` | what `_getDir` and `_getFile` do to the tree: exactly, for plain paths; on any path, that a later call on a tree that kept their directories resolves the same way |
| `NativeProofs` | `native_proofs.dfy` | the device operations characterised: round trips on every path; exact effects, unlink, the rename dispatch and the three-way integrity decision on plain paths; and a witness that idempotence needs a plain path |
| `TreeInvariant` | `tree_invariant.dfy` | every device operation keeps the tree well formed, on any path |
| `Storage` | `storage.dfy` | backend selection, `init`, the wrapper, `crashSafeWriteFile` |

### Plain paths

A path is *plain* when each `/`-separated piece is non-empty and does not
start with `.`.

`_getDir` drops one leading `.` or `/` at every level of its recursion, not
only at the first. So a piece such as `.cache` below the first one loses its
dot, while `_getFile` opens the last piece as written. The exact effect of
each device operation is therefore stated for plain paths. The read-back
properties (`ReadAfterWrite`, `WriteThenRead`, `AppendTwiceThenRead`) and the
validity lemmas of `TreeInvariant` hold for every path.

A leading `/` in front of a path without a lead of its own, or a leading `./`
in front of any path, changes nothing: every device operation on one path
(all but `rename`) does the same with it as without it
(`NativeProofs.LeadIgnored`). So each plain-path
statement about those operations also holds for a plain path behind such a
lead, as in `data/users.db`, `/data/users.db` and `./data/users.db`. For
`rename` only a `/` on both paths carries over (`NativeProofs.RenameSlashLead`);
a `./` on both paths can change the branch (see below). Outside those shapes
some statements fail. When a piece after the first starts with `.`, a second
`ensureFileDoesntExist` can remove a directory (`DottedPathNotIdempotent`).
On the empty path every `ensureFileDoesntExist` fails (`EmptyPathFails`).

### Where the code departs from the usual storage contract

A storage adapter of this kind is usually expected to behave like a file
system: unlinking a missing path succeeds, reading a missing file reports
`NotFound`, and looking a path up changes nothing. The model follows the
code in each case where it does otherwise:

- Unlinking a missing path on a device reports the directory walk's error.
  The code does not succeed silently (lines 82–92).
- On a device, reading a missing file creates it empty and returns `""`
  instead of reporting `NotFound` (line 102). In the browser a missing key
  also reads as `""`, but nothing is written (lines 189–193).
- On a device, `exists`, `unlink` and `ensureFileDoesntExist` on a missing
  path of several pieces create its parent directories. `_getFile` always
  resolves the directory part with `create` set (lines 345–354).
- `crashSafeWriteFile` is `writeFile` on both substrates (line 25).
- `renameNative` compares the directory parts as text (line 65). So
  `rename("./a/f", "./g")` moves the file to the root, because `.` is neither
  empty nor `./a`, while `rename("a/f", "g")` renames it inside `a`
  (`NativeProofs.DotLeadChangesRename`).

## Model

| member | source | states |
|---|---|---|
| Paths.Split | browser-version/browser-specific/lib/storage.js:336 | a split yields at least one piece, and no piece contains the separator |
| Paths.JoinSplit | browser-version/browser-specific/lib/storage.js:336-339 | joining the pieces of a split gives back the original string, so the recursive walk on the rest of the pieces sees the rest of the path |
| Paths.SplitJoin | browser-version/browser-specific/lib/storage.js:336-339 | splitting a join of separator-free pieces gives back those pieces |
| Paths.RestShorter | browser-version/browser-specific/lib/storage.js:333-339 | the path handed to the recursive `_getDir` call is strictly shorter, so the walk terminates |
| Paths.ParentLast | browser-version/browser-specific/lib/storage.js:58-63 | cutting at the last separator: the last piece has no separator, the two halves glue back to the path, and a path without a separator has an empty directory part |
| Paths.LeadPieces | browser-version/browser-specific/lib/storage.js:345-351 | a leading `/` or `./` adds one piece in front: the file name stays, and the directory part either normalises to nothing or is the old directory part behind the same lead |
| Paths.LeadTemp | browser-version/browser-specific/lib/storage.js:124 | the temporary name of a path behind a lead is the temporary name of the unled path behind the same lead |
| Paths.SplitAppend | browser-version/browser-specific/lib/storage.js:124 | appending a non-separator character changes only the last piece of the split |
| Paths.TempSibling | browser-version/browser-specific/lib/storage.js:124 | `path + '~'` has the same directory part as `path`, and its last piece is the old last piece plus `~` |
| KeyValue.ExistsSeesEmptyFile | browser-version/browser-specific/lib/storage.js:146-154 | `existsBrowser` tests for a stored value, not a non-empty one: a key written with `""` exists and an unlinked key does not, although both read as `""` |
| KeyValue.WriteFile | browser-version/browser-specific/lib/storage.js:170-174 | the key holds exactly the contents afterwards, and every other key is unchanged |
| KeyValue.ReadFile | browser-version/browser-specific/lib/storage.js:189-193 | a present key reads as its value; an absent key reads as the empty string, never as an error |
| KeyValue.AppendFile | browser-version/browser-specific/lib/storage.js:177-186 | the key holds the old value (absent counts as empty) followed by the data, and every other key is unchanged |
| KeyValue.Unlink | browser-version/browser-specific/lib/storage.js:196-198 | the key is absent afterwards, every other key is unchanged, and unlinking an absent key changes nothing |
| KeyValue.Rename | browser-version/browser-specific/lib/storage.js:157-167 | a present source moves its value to the target; an absent source leaves the target absent; the source is absent afterwards; keys other than the two are unchanged |
| KeyValue.Mkdirp | browser-version/browser-specific/lib/storage.js:201-204 | the store is unchanged |
| KeyValue.EnsureFileDoesntExist | browser-version/browser-specific/lib/storage.js:207-213 | the key is absent afterwards, other keys are unchanged, and an absent key leaves the store untouched |
| KeyValue.EnsureDatafileIntegrity | browser-version/browser-specific/lib/storage.js:216-219 | the store is unchanged: a single key cannot be half written, so there is nothing to reconcile and the datafile reads back as before |
| KeyValue.WriteThenRead | browser-version/browser-specific/lib/storage.js:170-193 | a read after a write returns exactly the data, and reads of other keys are unaffected |
| KeyValue.AppendTwiceFresh | browser-version/browser-specific/lib/storage.js:177-186 | two appends to a fresh key read back as their concatenation with no separator |
| KeyValue.RenameMovesContents | browser-version/browser-specific/lib/storage.js:157-167 | after a rename between distinct keys the target reads as the source did, and the source is gone |
| KeyValue.RenameOntoItselfRemoves | browser-version/browser-specific/lib/storage.js:162-163 | renaming a key onto itself deletes it: the removal runs after the write |
| KeyValue.EnsureFileDoesntExistIdempotent | browser-version/browser-specific/lib/storage.js:207-213 | a second `ensureFileDoesntExist` changes nothing |
| FileTree.BelowTrans | browser-version/browser-specific/lib/storage.js:337-339 | descending from a directory below `a` stays below `a` |
| FileTree.GetDirectory | browser-version/browser-specific/lib/storage.js:337 | opening a directory only ever adds directories; without `create` the tree is unchanged; success lands on the named child, which is a directory; an existing directory opens unchanged |
| FileTree.GetFileAt | browser-version/browser-specific/lib/storage.js:348-351 | opening a file succeeds exactly when a file is there, or `create` is set and nothing is there; the only change is a new empty file |
| FileTree.Remove | browser-version/browser-specific/lib/storage.js:266-268 | the entry is gone, everything else stays, nothing is added |
| FileTree.RemoveRecursively | browser-version/browser-specific/lib/storage.js:280 | success exactly when the directory is not the root; the directory and everything below it go, and nothing else changes |
| FileTree.MoveTo | browser-version/browser-specific/lib/storage.js:291 | the move succeeds exactly when the name is non-empty, the target differs from the source and is not a directory; then the contents sit at the target, the source is gone, and nothing else changes; a refused move changes nothing |
| FileTree.Write | browser-version/browser-specific/lib/storage.js:240-264 | the file holds the data (overwrite) or its old contents followed by the data (append); nothing else changes |
| FileTree.AncestorsAreDirs | browser-version/browser-specific/lib/storage.js:337 | in a well-formed tree every proper ancestor of an entry is a directory |
| FileTree.AbsentHasNoDescendants | browser-version/browser-specific/lib/storage.js:337 | in a well-formed tree nothing lies below a missing location |
| FileTree.FileHasNoDescendants | browser-version/browser-specific/lib/storage.js:348 | in a well-formed tree nothing lies below a file |
| FileTree.GetDirectoryValid | browser-version/browser-specific/lib/storage.js:337 | `getDirectory` keeps a well-formed tree well formed, and success names a directory |
| FileTree.GetFileAtValid | browser-version/browser-specific/lib/storage.js:348-351 | `getFile` keeps a well-formed tree well formed |
| FileTree.RemoveFileValid | browser-version/browser-specific/lib/storage.js:266-268 | removing a file keeps a well-formed tree well formed |
| FileTree.RemoveRecursivelyValid | browser-version/browser-specific/lib/storage.js:270-282 | recursive removal keeps a well-formed tree well formed |
| FileTree.MoveToValid | browser-version/browser-specific/lib/storage.js:291 | moving a file into a directory keeps a well-formed tree well formed |
| FileTree.WriteValid | browser-version/browser-specific/lib/storage.js:240-264 | writing a file keeps a well-formed tree well formed |
| Native.GetDir | browser-version/browser-specific/lib/storage.js:332-343 | without `create` the walk changes nothing; with it the walk only adds directories; a successful walk ends at or below its starting directory |
| Native.GetFile | browser-version/browser-specific/lib/storage.js:345-354 | a successful open names a file; every existing entry survives unchanged and no directory is lost; without `create`, or on failure, only directories are added |
| Native.Exists | browser-version/browser-specific/lib/storage.js:48-55 | `existsNative` never fails and only ever adds directories to the tree |
| Native.WriteFile | browser-version/browser-specific/lib/storage.js:71-80 | `writeFileNative` removes nothing and keeps every directory; a failed write only adds directories |
| Native.AppendFile | browser-version/browser-specific/lib/storage.js:94-97 | an append never shortens a file: every file stays a file whose old contents are a prefix of its new ones; no directory is lost |
| Native.ReadFile | browser-version/browser-specific/lib/storage.js:99-109 | every existing entry survives unchanged, and a successful read returns the contents of a file of the resulting tree |
| Native.Unlink | browser-version/browser-specific/lib/storage.js:82-92 | every entry left is either unchanged or a new directory; a failed unlink only adds directories |
| Native.Mkdirp | browser-version/browser-specific/lib/storage.js:111-113 | `mkdirpNative` only adds directories |
| Native.EnsureFileDoesntExist | browser-version/browser-specific/lib/storage.js:115-121 | every entry left is either unchanged or a new directory; a failure only adds directories |
| Native.Temp | browser-version/browser-specific/lib/storage.js:124 | the temporary name has the same directory part as the data file, and its last piece is the data file's last piece plus `~` |
| Native.RenameFile | browser-version/browser-specific/lib/storage.js:284-295 | the in-place rename keeps every directory, and a failure leaves the tree unchanged |
| Native.RenameFileAsWritten | browser-version/browser-specific/lib/storage.js:284-295 | `_renameFile` as written keeps every directory, and a failure leaves the tree unchanged |
| Native.MoveFile | browser-version/browser-specific/lib/storage.js:313-326 | the move keeps every directory, and a failure only adds directories |
| Native.MoveFileAsWritten | browser-version/browser-specific/lib/storage.js:313-326 | `_moveFile` as written keeps every directory, and a failure only adds directories |
| Native.Rename | browser-version/browser-specific/lib/storage.js:57-69 | `renameNative` keeps every directory, and a failure only adds directories |
| Native.EnsureDatafileIntegrity | browser-version/browser-specific/lib/storage.js:123-140 | the reconciliation keeps every directory, and a failure only adds directories |
| Resolution.GetDirCreates | browser-version/browser-specific/lib/storage.js:332-343 | with `create`, on a plain path no file blocks, the walk lands on `cwd + pieces`, and the tree afterwards is the tree before plus a directory at every prefix of the path |
| Resolution.GetDirLooksUp | browser-version/browser-specific/lib/storage.js:332-343 | without `create`, on a plain path, the walk changes nothing and succeeds, on `cwd + pieces`, exactly when every prefix of the path is a directory |
| Resolution.GetFilePlain | browser-version/browser-specific/lib/storage.js:345-354 | on a plain path, the parent directories are always made whatever `create` says; the open succeeds exactly when a file is there, or `create` is set and nothing is there; a directory in the way is an `IOFailure`, a missing file without `create` is `NotFound` |
| Resolution.GetDirValid | browser-version/browser-specific/lib/storage.js:332-343 | on any path, the walk keeps a well-formed tree well formed, only adds directories, and success names a directory |
| Resolution.GetFileValid | browser-version/browser-specific/lib/storage.js:345-354 | on any path, `_getFile` keeps a well-formed tree well formed |
| Resolution.GetDirLead | browser-version/browser-specific/lib/storage.js:332-343 | a walk from any directory, on any tree, goes to the same place with or without a leading `/` (on a path without a lead of its own) or `./` |
| Resolution.GetFileLead | browser-version/browser-specific/lib/storage.js:345-354 | `_getFile` opens the same file, with the same side effects, with or without such a lead |
| Resolution.GetDirRepeats | browser-version/browser-specific/lib/storage.js:332-343 | on any path, a walk that succeeded succeeds again, at the same directory and without changing anything, on any later tree that kept every directory |
| Resolution.GetFileRepeats | browser-version/browser-specific/lib/storage.js:345-354 | on any path, an open that succeeded opens the same file again, without changing anything, on any later tree that kept every directory and the file |
| Resolution.GetDirStaysPut | browser-version/browser-specific/lib/storage.js:332-343 | on any path, in a well-formed tree, a walk that lands on an existing entry changed nothing, even with `create` |
| Resolution.GetFileStaysPut | browser-version/browser-specific/lib/storage.js:345-354 | on any path, in a well-formed tree, opening an existing file without `create` changes nothing |
| NativeProofs.ExistsPlain | browser-version/browser-specific/lib/storage.js:48-55 | `existsNative` on a plain path is true exactly when a file or a directory is there; as a side effect the path's parent directories are made |
| NativeProofs.WriteFilePlain | browser-version/browser-specific/lib/storage.js:71-97 | `writeFileNative`/`appendFileNative` on a plain path make the parent directories and set the file to the data, or to its old contents (empty if absent) followed by the data; a directory in the way is an `IOFailure` that leaves only the new directories |
| NativeProofs.ReadFilePlain | browser-version/browser-specific/lib/storage.js:99-109 | `readFileNative` on a plain path returns the file's contents; a missing file is created empty and reads as `""`; a directory is an `IOFailure` |
| NativeProofs.ReadAfterWrite | browser-version/browser-specific/lib/storage.js:71-109 | on any path, after a successful write or append, a read returns the data, or the old contents followed by the data, and changes nothing; the path still opens the same file |
| NativeProofs.WriteThenRead | browser-version/browser-specific/lib/storage.js:71-109 | on any path, after a write that succeeds, a read returns exactly the data and changes nothing; on a plain path no file blocks, with no directory in the way, the write always succeeds |
| NativeProofs.AppendTwiceThenRead | browser-version/browser-specific/lib/storage.js:94-109 | on any path, when the first append succeeds so does the second, and a read returns the old contents followed by both pieces of data; on a plain path no file blocks, a missing file reads back as the two pieces concatenated |
| NativeProofs.UnlinkPlain | browser-version/browser-specific/lib/storage.js:82-92 | on a plain path a file is removed; a directory is removed with everything below it; a missing path is an error |
| NativeProofs.EnsureFileDoesntExistPlain | browser-version/browser-specific/lib/storage.js:115-121 | on a plain path `ensureFileDoesntExistNative` always succeeds and leaves nothing at the path; a missing path only gets its parent directories; a file is simply removed |
| NativeProofs.EnsureFileDoesntExistIdempotent | browser-version/browser-specific/lib/storage.js:115-121 | on a plain path no file blocks, a second `ensureFileDoesntExistNative` succeeds and changes nothing |
| NativeProofs.EnsureFileDoesntExistIdempotentLead | browser-version/browser-specific/lib/storage.js:115-121 | idempotence also holds for a plain path behind a leading `/` or `./` |
| NativeProofs.EmptyPathFails | browser-version/browser-specific/lib/storage.js:115-121 | on the empty path `ensureFileDoesntExistNative` always fails with `IOFailure` and changes nothing, because the root cannot be removed |
| NativeProofs.LeadIgnored | browser-version/browser-specific/lib/storage.js:48-140 | on every tree, `exists`, `writeFile`, `appendFile`, `readFile`, `unlink`, `mkdirp`, `ensureFileDoesntExist` and `ensureDatafileIntegrity` give the same tree and completion with or without a leading `/` or `./` |
| NativeProofs.IntegrityIgnoresLead | browser-version/browser-specific/lib/storage.js:123-140 | the reconciliation, including its recovery rename, does the same with or without such a lead |
| NativeProofs.DottedPathNotIdempotent | browser-version/browser-specific/lib/storage.js:115-121 | with a file `x/.y` beside a directory `x/y`, the first `ensureFileDoesntExistNative("x/.y")` removes the file and the second removes the directory, because `_getDir` drops the dot that `_getFile` keeps |
| NativeProofs.MkdirpPlain | browser-version/browser-specific/lib/storage.js:111-113 | `mkdirpNative` on a plain path no file blocks adds exactly the directories along the path, all of which exist afterwards |
| NativeProofs.RenameInPlace | browser-version/browser-specific/lib/storage.js:57-69 | `renameNative` takes the in-place branch (`InPlace`); when the new path has no directory part or the same one as the old path, the rename always reports success; the file moves, contents intact, to the new name in the old path's directory, unless the name is empty, the same as the old one, or a directory, in which case nothing changes |
| NativeProofs.RenameMoves | browser-version/browser-specific/lib/storage.js:313-326 | when the directory parts differ (not `InPlace`), the new path's directories are made and the file moves there under its new name, contents intact, the old file gone |
| NativeProofs.InPlaceSlashLead | browser-version/browser-specific/lib/storage.js:57-65 | `renameNative` picks the in-place branch for two paths behind a leading `/` exactly when it picks it for the paths without it |
| NativeProofs.RenameSlashLead | browser-version/browser-specific/lib/storage.js:57-69 | on every tree, a rename between two paths behind a leading `/` gives the same tree and completion as the rename between the paths without it |
| NativeProofs.DotLeadChangesRename | browser-version/browser-specific/lib/storage.js:57-69 | with one file `a/f`, `rename("a/f", "g")` leaves the file at `a/g`, while `rename("./a/f", "./g")` leaves it at the root as `g`: a `./` lead changes the branch because the directory parts are compared as text |
| NativeProofs.RenameFileAsWrittenFails | browser-version/browser-specific/lib/storage.js:284-295 | `_renameFile` as written fails on every plain path naming a file and leaves the tree unchanged |
| NativeProofs.MoveFileAsWrittenNests | browser-version/browser-specific/lib/storage.js:313-326 | `_moveFile` as written turns the new path into a directory and puts the contents one level too deep, under the new file name |
| NativeProofs.TempPlain | browser-version/browser-specific/lib/storage.js:124 | the temporary sibling of a plain path is plain, lives in the same directory, and is at a different location |
| NativeProofs.IntegrityWhenPresent | browser-version/browser-specific/lib/storage.js:123-128 | when the data path opens as a file, on any path, or when anything stands at a plain data path, the reconciliation succeeds and leaves the tree unchanged, whether or not the temporary file exists |
| NativeProofs.IntegrityFreshStart | browser-version/browser-specific/lib/storage.js:130-133 | when neither file exists, an empty data file is created along with its directories, and the reconciliation succeeds |
| NativeProofs.IntegrityRecovers | browser-version/browser-specific/lib/storage.js:130-137 | when the data file is missing and the temporary file exists, the data file holds the temporary file's contents, the temporary file is gone, nothing else changes, and the reconciliation succeeds |
| NativeProofs.IntegrityTempIsDirectory | browser-version/browser-specific/lib/storage.js:130-137 | when a directory stands where the temporary file would be, the reconciliation reports `IOFailure` and changes nothing |
| TreeInvariant.ExistsValid | browser-version/browser-specific/lib/storage.js:48-55 | `existsNative` keeps a well-formed tree well formed, on any path |
| TreeInvariant.WriteFileValid | browser-version/browser-specific/lib/storage.js:71-97 | `writeFileNative`/`appendFileNative` keep a well-formed tree well formed |
| TreeInvariant.ReadFileValid | browser-version/browser-specific/lib/storage.js:99-109 | `readFileNative` keeps a well-formed tree well formed |
| TreeInvariant.UnlinkValid | browser-version/browser-specific/lib/storage.js:82-92 | `unlinkNative` keeps a well-formed tree well formed |
| TreeInvariant.MkdirpValid | browser-version/browser-specific/lib/storage.js:111-113 | `mkdirpNative` keeps a well-formed tree well formed |
| TreeInvariant.EnsureFileDoesntExistValid | browser-version/browser-specific/lib/storage.js:115-121 | `ensureFileDoesntExistNative` keeps a well-formed tree well formed |
| TreeInvariant.RenameFileValid | browser-version/browser-specific/lib/storage.js:284-295 | the in-place rename keeps a well-formed tree well formed |
| TreeInvariant.MoveFileValid | browser-version/browser-specific/lib/storage.js:313-326 | the move keeps a well-formed tree well formed |
| TreeInvariant.RenameValid | browser-version/browser-specific/lib/storage.js:57-69 | `renameNative` keeps a well-formed tree well formed |
| TreeInvariant.EnsureDatafileIntegrityValid | browser-version/browser-specific/lib/storage.js:123-140 | `ensureDatafileIntegrityNative` keeps a well-formed tree well formed |
| Storage.BrowserCall | browser-version/browser-specific/lib/storage.js:146-219 | no browser operation reports an error, and every one calls back |
| Storage.DeviceCall | browser-version/browser-specific/lib/storage.js:48-140 | every device operation calls back; only `unlink` and `ensureFileDoesntExist` can take a directory away; a read hands back the contents of a file of the tree |
| Storage.Delegate | browser-version/browser-specific/lib/storage.js:16-25 | an adapter method never changes the bound root or the default root; it never changes the substrate kind or the set of device volumes |
| Storage.Init | browser-version/browser-specific/lib/storage.js:27-40 | in the browser `init` binds nothing and never calls back; on a device it binds a root that resolves, or reports the resolution failure and changes nothing |
| Storage.Wrapped | browser-version/browser-specific/lib/storage.js:356-382 | a bound root stays bound to the same root; with no root and no default the call fails with `NotInitialized` and changes nothing; the wrapper keeps a bound device root naming an existing volume |
| Storage.BoundIsTransparent | browser-version/browser-specific/lib/storage.js:364-378 | with a root bound, a wrapped call is the corrected adapter method applied to the original arguments (`DelegateAsWritten` for the calls through `storage` as written) |
| Storage.LazyInitBindsDefault | browser-version/browser-specific/lib/storage.js:357-360 | with no root but a default that resolves, the first call binds the default and behaves as if it had been bound all along; the next call does not initialise again |
| Storage.LazyInitFailure | browser-version/browser-specific/lib/storage.js:356-378 | with no root and a default that does not resolve, the method still runs from `init`'s callback, fails for the missing root, and changes nothing |
| Storage.BrowserNeverInitialises | browser-version/browser-specific/lib/storage.js:356-367 | in the browser `init` binds no root, so every wrapped call fails with `NotInitialized` and the store is untouched |
| Storage.CrashSafeWriteIsWrite | browser-version/browser-specific/lib/storage.js:25 | `crashSafeWriteFile` is `writeFile`, through the wrapper, on both substrates |
| Storage.WrappedIntended | browser-version/browser-specific/lib/storage.js:356-367 | the intended wrapper never changes the browser's root binding |
| Storage.BrowserNeedsNoRoot | browser-version/browser-specific/lib/storage.js:356-367 | with the intended wrapper, browser calls go straight to the store and never fail for lack of a root; device calls are wrapped as written |
| Storage.DeviceWriteThenRead | browser-version/browser-specific/lib/storage.js:71-109 | through the device dispatch, on any path, a write that reports `Done` is read back exactly; on a plain path no file blocks, with no directory in the way, the write reports `Done` |
| Storage.WrappedWriteThenRead | browser-version/browser-specific/lib/storage.js:170-193 | through the intended wrapper, on any path, a write that reports success is read back exactly; the write always succeeds in the browser, and on a device once a root is bound or the default binds, for a plain path no file blocks with no directory in the way |
| Storage.DelegateAsWritten | browser-version/browser-specific/lib/storage.js:94-213 | the adapter methods as written, self-references included, never change the bound root, the default root, the substrate kind or the set of volumes |
| Storage.SelfReferencesThrow | browser-version/browser-specific/lib/storage.js:94-213 | as written, native `appendFile`, `ensureFileDoesntExist` and `ensureDatafileIntegrity`, and browser `ensureFileDoesntExist`, throw without touching the store; every other method is the intended one |

## Left out

- Byte-level I/O (`FileReader`, `Blob`, `createWriter`, `seek`, lines 225–264) and the encoding arguments (lines 72, 95, 100) are left out. Contents are strings, and a write replaces or extends them. The `Blob` of line 252 is built with `endings: 'native'`, which may rewrite line endings on the way to the file; the model stores the data verbatim.
- A writer positioned at 0 is taken to replace the whole file, as a truncating substrate does. A substrate that overwrites in place without truncating would leave the tail of a longer old file.
- Optional-argument juggling (lines 172, 179, 191, 226–245) is left out. In particular, when `_writeFile` receives a function where the encoding goes, it sets the append flag to the callback (line 244). An append issued without an encoding would therefore overwrite. The model takes the append flag as the caller meant it. Likewise, a three-argument `writeFile(path, data, cb)` leaves `cb` undefined inside `writeFileNative` (lines 71–75), as the call at line 133 does. A failure to open the file then throws instead of reaching a callback, where the model reports the failure (`IOFailure` or `NotFound`).
- The file-object branches of `writeFileNative` (line 79) and `readFileNative` (lines 106–108) are left out. Only path arguments are modelled.
- The string branch of `_removeDir` (lines 271–279) is left out. `unlinkNative` always passes it an entry.
- The empty stubs `_renameDir` and `_moveDir` (lines 297–330) are left out, as are console logging and warnings.
- Asynchrony and callback ordering are left out. Each operation is atomic. `_renameFile` and `_moveFile` call back before `moveTo` finishes (lines 291–292, 322–323), so their completion is a success whatever the move does. `Native.RenameFile` and `Native.MoveFile` are defined that way, and `NativeProofs.RenameInPlace` and `NativeProofs.RenameMoves` state it.
- Bootstrapping is a parameter:
  - the `typeof cordova` probe (line 12) is the `Storage.Backend` constructor;
  - `resolveLocalFileSystemURL` (line 36) is a lookup in a map of volumes;
  - `localforage.config` (lines 29–34) has no effect on the model.
- Substrate errors are opaque. Every refusal of the substrate is `IOFailure`, and a missing entry opened without `create` is `NotFound`. An exception thrown for a missing root is `NotInitialized`, and a call through a missing property of `storage` is `NotAFunction`.
- Substrate semantics are chosen where the source relies on the cordova-file API:
  - `getDirectory("")` is the directory itself;
  - `getFile("")` fails;
  - `.` and `..` are ordinary names;
  - `moveTo` refuses the empty name, the entry's own location and a directory target;
  - `removeRecursively` refuses the root.
- Native.GetFile: when the directory walk fails, lines 350–351 go on to call `getFile` on an undefined directory and throw. The model reports the walk's error instead. With `create` forced on, this only happens when a file stands where a directory should.
- Resolution.GetDirCreates: stated only for plain paths. On other paths the per-level strip of a leading `.` or `/` changes the pieces walked. Resolution.GetDirValid covers every path.
- Resolution.GetDirLooksUp: stated only for plain paths, for the same reason.
- Resolution.GetFilePlain: stated only for plain paths whose parent directories no file blocks. Resolution.GetFileValid covers every path.
- NativeProofs.ExistsPlain: stated only for plain paths whose parent directories no file blocks.
- NativeProofs.WriteFilePlain: stated only for plain paths whose parent directories no file blocks.
- NativeProofs.ReadFilePlain: stated only for plain paths whose parent directories no file blocks.
- NativeProofs.UnlinkPlain: stated only for plain paths whose parent directories no file blocks.
- Storage.DeviceCall: does not state which error kinds a device call can report; each native operation's own lemmas do.
- NativeProofs.EnsureFileDoesntExistPlain: stated only for plain paths whose parent directories no file blocks.
- NativeProofs.EnsureFileDoesntExistIdempotent: stated only for plain paths whose parent directories no file blocks. `NativeProofs.EnsureFileDoesntExistIdempotentLead` extends it to such a path behind a leading `/` or `./`. It is false on some other paths. When a piece after the first starts with `.`, `NativeProofs.DottedPathNotIdempotent` gives a tree where the second call removes a directory. On the empty path the root cannot be removed, so every call fails (`NativeProofs.EmptyPathFails`).
- NativeProofs.MkdirpPlain: stated only for plain paths no file blocks.
- NativeProofs.RenameInPlace: stated only for a plain old path naming an existing file in a well-formed tree.
- NativeProofs.RenameMoves: stated only for plain paths, an existing old file, and a new path whose directories no file blocks and which is not a directory.
- NativeProofs.IntegrityWhenPresent: on any path when the data path opens as a file; the case of a directory at the data path is stated only for plain paths. When a piece after the first starts with `.`, `_getDir` looks at a different location than `_getFile`. `NativeProofs.LeadIgnored` carries the statement to a plain path behind a leading `/` or `./`.
- NativeProofs.IntegrityFreshStart: stated only for a plain data path whose directories no file blocks, for the same reason.
- NativeProofs.IntegrityRecovers: stated only for a plain data path in a well-formed tree, for the same reason.
- NativeProofs.IntegrityTempIsDirectory: stated only for a plain data path in a well-formed tree, for the same reason.
- Storage.WrappedWriteThenRead: the read-back holds on any path; that the write succeeds is stated on a device only when a root is bound or the default resolves, and for a plain path whose directories no file blocks.

## Findings

| source | as written | input that shows it | evidently intended | confidence | as-written member | corrected member |
|---|---|---|---|---|---|---|
| browser-version/browser-specific/lib/storage.js:288 | `_renameFile` hands the whole old path, file name included, to `_getDir` | a tree with a file `a/f`, then `rename("a/f", "a/g")`: the walk reaches the file `a/f`, which is not a directory, and the rename fails with the tree unchanged | walk the old path's directory part, then move the file within it | not executed; high | NativeProofs.RenameFileAsWrittenFails | NativeProofs.RenameInPlace |
| browser-version/browser-specific/lib/storage.js:318 | `_moveFile` hands the whole new path to `_getDir` with `create` | a file `a/f` and no `b/g`, then `rename("a/f", "b/g")`: `b/g` becomes a directory and the contents land at `b/g/g` | make the new path's directory part and move the file there under the new name | not executed; high | NativeProofs.MoveFileAsWrittenNests | NativeProofs.RenameMoves |
| browser-version/browser-specific/lib/storage.js:96 | `appendFileNative` calls `storage.writeFileNative`, which is not a property of `storage` | `appendFile("f", "x")` on a device throws a TypeError and the file is untouched | call `writeFileNative` directly with the append flag | not executed; high | Storage.SelfReferencesThrow | NativeProofs.AppendTwiceThenRead |
| browser-version/browser-specific/lib/storage.js:116 | `ensureFileDoesntExistNative` calls `storage.existsNative` and `storage.unlinkNative`, which `storage` lacks | `ensureFileDoesntExist("f")` on a device with a file `f` throws and `f` stays | call `existsNative` and `unlinkNative` directly | not executed; high | Storage.SelfReferencesThrow | NativeProofs.EnsureFileDoesntExistPlain |
| browser-version/browser-specific/lib/storage.js:126 | `ensureDatafileIntegrityNative` calls `storage.existsNative`, `storage.writeFileNative` and `storage.renameNative`, which `storage` lacks | `ensureDatafileIntegrity("d")` on a device with only `d~` present throws, and `d` is not recovered | call the native functions directly. The recovery rename then takes the in-place branch of `renameNative`, because `d~` and `d` share a directory, so it needs the line-288 correction as well | not executed; high | Storage.SelfReferencesThrow | NativeProofs.IntegrityRecovers |
| browser-version/browser-specific/lib/storage.js:208 | `ensureFileDoesntExistBrowser` calls `storage.existsBrowser` and `storage.unlinkBrowser`, which `storage` lacks | `ensureFileDoesntExist("k")` in the browser throws and `k` stays | call `existsBrowser` and `unlinkBrowser` directly | not executed; high | Storage.SelfReferencesThrow | KeyValue.EnsureFileDoesntExist |
| browser-version/browser-specific/lib/storage.js:357 | in the browser `init` never sets `_rootFS`, and with `cordova` undefined `_ensureInit` throws, so every wrapped browser call fails | in the browser, `init("x", cb)` and then `writeFile("k", "v", cb)`: the write throws "Storage not initialized" | the browser functions need no root, so browser calls go straight to the store | not executed; high | Storage.BrowserNeverInitialises | Storage.BrowserNeedsNoRoot |
