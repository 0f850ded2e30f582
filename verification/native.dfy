/** The native adapter of `storage.js`: the storage contract implemented on
    the hierarchical substrate of `FileTree`, rooted at the bound root
    directory (location `[]`).

    Every operation takes the file system and returns what it leaves behind
    together with its completion.  The side effects the code has are kept:
    resolving a file always creates its parent directories, and reading a
    missing file creates it. */
module Native {
  import opened Outcomes
  import opened Paths
  import opened FileTree

  /** The completion of `existsNative`, which reports a bare boolean. */
  datatype Probe = Probe(fs: FileSystem, found: bool)

  /** `_getDir(cwd, path, create)`: drop one leading `.` or `/`, split, open
      the first piece as a directory of `cwd`, and recurse on the rest of
      the pieces joined back together.  The normalisation runs again at every
      level, so a piece such as `.cache` below the first one loses its dot. */
  function GetDir(fs: FileSystem, cwd: Location, path: string, create: bool): (r: Step<Location>)
    ensures !create ==> r.fs == fs
    ensures GrowsByDirs(fs, r.fs)
    ensures r.result.Ok? ==> Below(cwd, r.result.value)
    decreases |path|
  {
    var p := StripLead(path);
    var parts := Split(p);
    var s := GetDirectory(fs, cwd, parts[0], create);
    if s.result.Err? || |parts| == 1 then s
    else
      RestShorter(p);
      var r := GetDir(s.fs, s.result.value, Join(parts[1..]), create);
      BelowTrans(cwd, s.result.value, r.result);
      r
  }

  /** `_getFile(path, create)`: a one-piece path is opened in the root;
      otherwise the directory part is resolved with `create` forced on, and
      the last piece is opened there.  When that directory walk fails the
      source goes on to call a method of `undefined`; here the walk's error
      is the completion. */
  function GetFile(fs: FileSystem, path: string, create: bool): (r: Step<Location>)
    ensures r.result.Ok? ==> IsFile(r.fs, r.result.value)
    ensures forall l :: l in fs ==> l in r.fs && r.fs[l] == fs[l]
    ensures !create || r.result.Err? ==> GrowsByDirs(fs, r.fs)
    ensures DirsKept(fs, r.fs)
  {
    var parts := Split(path);
    if |parts| == 1 then GetFileAt(fs, [], path, create)
    else
      var d := GetDir(fs, [], Parent(path), true);
      if d.result.Err? then Step(d.fs, Err(d.result.error))
      else GetFileAt(d.fs, d.result.value, Last(path), create)
  }

  /** `existsNative`: true when the path opens as a file, or failing that,
      as a directory.  Never an error. */
  function Exists(fs: FileSystem, path: string): (r: Probe)
    ensures GrowsByDirs(fs, r.fs)
  {
    var f := GetFile(fs, path, false);
    if f.result.Ok? then Probe(f.fs, true)
    else
      var d := GetDir(f.fs, [], path, false);
      Probe(d.fs, d.result.Ok?)
  }

  /** `writeFileNative` (and with `append` set, `appendFileNative`): open the
      file with `create`, then overwrite it or append to it. */
  function WriteFile(fs: FileSystem, path: string, data: string, append: bool): (r: Step<()>)
    ensures fs.Keys <= r.fs.Keys && DirsKept(fs, r.fs)
    ensures r.result.Err? ==> GrowsByDirs(fs, r.fs)
  {
    var f := GetFile(fs, path, true);
    if f.result.Err? then Step(f.fs, Err(f.result.error))
    else Step(Write(f.fs, f.result.value, data, append), Ok(()))
  }

  function AppendFile(fs: FileSystem, path: string, data: string): (r: Step<()>)
    ensures forall l :: IsFile(fs, l) ==> IsFile(r.fs, l) && fs[l].contents <= r.fs[l].contents
    ensures DirsKept(fs, r.fs)
  {
    WriteFile(fs, path, data, true)
  }

  /** `readFileNative`: the file is opened with `create` set, so reading a
      missing file creates it empty and reads the empty string. */
  function ReadFile(fs: FileSystem, path: string): (r: Step<string>)
    ensures forall l :: l in fs ==> l in r.fs && r.fs[l] == fs[l]
    ensures r.result.Ok? ==> exists l :: IsFile(r.fs, l) && r.fs[l].contents == r.result.value
  {
    var f := GetFile(fs, path, true);
    if f.result.Err? then Step(f.fs, Err(f.result.error))
    else Step(f.fs, Ok(f.fs[f.result.value].contents))
  }

  /** `unlinkNative`: remove the file, or failing that the directory with
      everything below it; when neither opens, the directory walk's error
      is reported. */
  function Unlink(fs: FileSystem, path: string): (r: Step<()>)
    ensures forall l :: l in r.fs ==> if l in fs then r.fs[l] == fs[l] else r.fs[l] == Dir
    ensures r.result.Err? ==> GrowsByDirs(fs, r.fs)
  {
    var f := GetFile(fs, path, false);
    if f.result.Ok? then Remove(f.fs, f.result.value)
    else
      var d := GetDir(f.fs, [], path, false);
      if d.result.Err? then Step(d.fs, Err(d.result.error))
      else RemoveRecursively(d.fs, d.result.value)
  }

  /** `mkdirpNative`: walk the path with `create` set. */
  function Mkdirp(fs: FileSystem, path: string): (r: Step<()>)
    ensures GrowsByDirs(fs, r.fs)
  {
    var d := GetDir(fs, [], path, true);
    if d.result.Err? then Step(d.fs, Err(d.result.error)) else Step(d.fs, Ok(()))
  }

  /** `ensureFileDoesntExistNative`: probe, and unlink only when present. */
  function EnsureFileDoesntExist(fs: FileSystem, path: string): (r: Step<()>)
    ensures forall l :: l in r.fs ==> if l in fs then r.fs[l] == fs[l] else r.fs[l] == Dir
    ensures r.result.Err? ==> GrowsByDirs(fs, r.fs)
  {
    var e := Exists(fs, path);
    if !e.found then Step(e.fs, Ok(())) else Unlink(e.fs, path)
  }

  /** The temporary sibling a crash-safe write goes through. */
  function Temp(path: string): (r: string)
    ensures Parent(r) == Parent(path) && Last(r) == Last(path) + "~"
  {
    TempSibling(path);
    path + "~"
  }

  /** `_renameFile` with the directory resolved from the old path's
      directory part: open the old file there and move it, in the same
      directory, to the new path's file name.  The completion is reported
      before the move finishes, so it is a success even when the substrate
      refuses the move. */
  function RenameFile(fs: FileSystem, oldPath: string, newPath: string): (r: Step<()>)
    ensures DirsKept(fs, r.fs)
    ensures r.result.Err? ==> r.fs == fs
  {
    var d := GetDir(fs, [], Parent(oldPath), false);
    if d.result.Err? then Step(d.fs, Err(d.result.error))
    else
      var f := GetFileAt(d.fs, d.result.value, Last(oldPath), false);
      if f.result.Err? then Step(f.fs, Err(f.result.error))
      else
        MoveToKeepsDirs(f.fs, f.result.value, d.result.value, Last(newPath), fs);
        Step(MoveTo(f.fs, f.result.value, d.result.value, Last(newPath)).fs, Ok(()))
  }

  /** `_renameFile` as written: the directory walk is handed the whole old
      path, file name included. */
  function RenameFileAsWritten(fs: FileSystem, oldPath: string, newPath: string): (r: Step<()>)
    ensures DirsKept(fs, r.fs)
    ensures r.result.Err? ==> r.fs == fs
  {
    var d := GetDir(fs, [], oldPath, false);
    if d.result.Err? then Step(d.fs, Err(d.result.error))
    else
      var f := GetFileAt(d.fs, d.result.value, Last(oldPath), false);
      if f.result.Err? then Step(f.fs, Err(f.result.error))
      else
        MoveToKeepsDirs(f.fs, f.result.value, d.result.value, Last(newPath), fs);
        Step(MoveTo(f.fs, f.result.value, d.result.value, Last(newPath)).fs, Ok(()))
  }

  /** `_moveFile` with the destination directory resolved from the new
      path's directory part: create that directory, open the old file, and
      move it there under the new file name.  As for `RenameFile`, the
      completion does not wait for the move. */
  function MoveFile(fs: FileSystem, oldPath: string, newPath: string): (r: Step<()>)
    ensures DirsKept(fs, r.fs)
    ensures r.result.Err? ==> GrowsByDirs(fs, r.fs)
  {
    var d := GetDir(fs, [], Parent(newPath), true);
    if d.result.Err? then Step(d.fs, Err(d.result.error))
    else
      var f := GetFile(d.fs, oldPath, false);
      GrowsTrans(fs, d.fs, f.fs);
      if f.result.Err? then Step(f.fs, Err(f.result.error))
      else
        MoveToKeepsDirs(f.fs, f.result.value, d.result.value, Last(newPath), fs);
        Step(MoveTo(f.fs, f.result.value, d.result.value, Last(newPath)).fs, Ok(()))
  }

  /** `_moveFile` as written: the destination walk is handed the whole new
      path, so the file name becomes a directory. */
  function MoveFileAsWritten(fs: FileSystem, oldPath: string, newPath: string): (r: Step<()>)
    ensures DirsKept(fs, r.fs)
    ensures r.result.Err? ==> GrowsByDirs(fs, r.fs)
  {
    var d := GetDir(fs, [], newPath, true);
    if d.result.Err? then Step(d.fs, Err(d.result.error))
    else
      var f := GetFile(d.fs, oldPath, false);
      GrowsTrans(fs, d.fs, f.fs);
      if f.result.Err? then Step(f.fs, Err(f.result.error))
      else
        MoveToKeepsDirs(f.fs, f.result.value, d.result.value, Last(newPath), fs);
        Step(MoveTo(f.fs, f.result.value, d.result.value, Last(newPath)).fs, Ok(()))
  }

  /** `renameNative`: an in-place rename when the new path has no directory
      part or the same one as the old path, a move otherwise. */
  predicate InPlace(oldPath: string, newPath: string)
  {
    Parent(newPath) == "" || Parent(oldPath) == Parent(newPath)
  }

  function Rename(fs: FileSystem, oldPath: string, newPath: string): (r: Step<()>)
    ensures DirsKept(fs, r.fs)
    ensures r.result.Err? ==> GrowsByDirs(fs, r.fs)
  {
    if InPlace(oldPath, newPath) then RenameFile(fs, oldPath, newPath)
    else MoveFile(fs, oldPath, newPath)
  }

  /** `ensureDatafileIntegrityNative`: the start-up reconciliation of a data
      file with its temporary sibling. */
  function EnsureDatafileIntegrity(fs: FileSystem, path: string): (r: Step<()>)
    ensures DirsKept(fs, r.fs)
    ensures r.result.Err? ==> GrowsByDirs(fs, r.fs)
  {
    var e := Exists(fs, path);
    if e.found then Step(e.fs, Ok(()))
    else
      var t := Exists(e.fs, Temp(path));
      if !t.found then WriteFile(t.fs, path, "", false)
      else Rename(t.fs, Temp(path), path)
  }
}
