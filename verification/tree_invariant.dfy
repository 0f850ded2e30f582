/** Every operation of the native adapter, on any path whatsoever, keeps
    the file tree well formed: the root stays a directory and no entry is
    left without a directory above it. */
module TreeInvariant {
  import opened Paths
  import opened FileTree
  import opened Native
  import opened Resolution

  /** Opening a file without `create` only adds directories. */
  lemma GetFileGrows(fs: FileSystem, p: string)
    requires Valid(fs)
    ensures GrowsByDirs(fs, GetFile(fs, p, false).fs)
  {
    if |Split(p)| > 1 {
      GetDirValid(fs, [], Parent(p), true);
    }
  }

  lemma ExistsValid(fs: FileSystem, p: string)
    requires Valid(fs)
    ensures Valid(Exists(fs, p).fs)
  {
    GetFileValid(fs, p, false);
  }

  lemma WriteFileValid(fs: FileSystem, p: string, data: string, append: bool)
    requires Valid(fs)
    ensures Valid(WriteFile(fs, p, data, append).fs)
  {
    GetFileValid(fs, p, true);
    var f := GetFile(fs, p, true);
    if f.result.Ok? {
      WriteValid(f.fs, f.result.value, data, append);
    }
  }

  lemma ReadFileValid(fs: FileSystem, p: string)
    requires Valid(fs)
    ensures Valid(ReadFile(fs, p).fs)
  {
    GetFileValid(fs, p, true);
  }

  lemma UnlinkValid(fs: FileSystem, p: string)
    requires Valid(fs)
    ensures Valid(Unlink(fs, p).fs)
  {
    GetFileValid(fs, p, false);
    var f := GetFile(fs, p, false);
    if f.result.Ok? {
      RemoveFileValid(f.fs, f.result.value);
    } else {
      var d := GetDir(f.fs, [], p, false);
      RemoveRecursivelyValid(d.fs, if d.result.Ok? then d.result.value else []);
    }
  }

  lemma MkdirpValid(fs: FileSystem, p: string)
    requires Valid(fs)
    ensures Valid(Mkdirp(fs, p).fs)
  {
    GetDirValid(fs, [], p, true);
  }

  lemma EnsureFileDoesntExistValid(fs: FileSystem, p: string)
    requires Valid(fs)
    ensures Valid(EnsureFileDoesntExist(fs, p).fs)
  {
    ExistsValid(fs, p);
    UnlinkValid(Exists(fs, p).fs, p);
  }

  lemma RenameFileValid(fs: FileSystem, oldPath: string, newPath: string)
    requires Valid(fs)
    ensures Valid(RenameFile(fs, oldPath, newPath).fs)
  {
    GetDirValid(fs, [], Parent(oldPath), false);
    var d := GetDir(fs, [], Parent(oldPath), false);
    if d.result.Ok? {
      var f := GetFileAt(d.fs, d.result.value, Last(oldPath), false);
      if f.result.Ok? {
        MoveToValid(f.fs, f.result.value, d.result.value, Last(newPath));
      }
    }
  }

  lemma MoveFileValid(fs: FileSystem, oldPath: string, newPath: string)
    requires Valid(fs)
    ensures Valid(MoveFile(fs, oldPath, newPath).fs)
  {
    GetDirValid(fs, [], Parent(newPath), true);
    var d := GetDir(fs, [], Parent(newPath), true);
    if d.result.Ok? {
      GetFileValid(d.fs, oldPath, false);
      GetFileGrows(d.fs, oldPath);
      var f := GetFile(d.fs, oldPath, false);
      if f.result.Ok? {
        MoveToValid(f.fs, f.result.value, d.result.value, Last(newPath));
      }
    }
  }

  lemma RenameValid(fs: FileSystem, oldPath: string, newPath: string)
    requires Valid(fs)
    ensures Valid(Rename(fs, oldPath, newPath).fs)
  {
    RenameFileValid(fs, oldPath, newPath);
    MoveFileValid(fs, oldPath, newPath);
  }

  lemma EnsureDatafileIntegrityValid(fs: FileSystem, p: string)
    requires Valid(fs)
    ensures Valid(EnsureDatafileIntegrity(fs, p).fs)
  {
    ExistsValid(fs, p);
    var e := Exists(fs, p);
    ExistsValid(e.fs, Temp(p));
    var t := Exists(e.fs, Temp(p));
    WriteFileValid(t.fs, p, "", false);
    RenameValid(t.fs, Temp(p), p);
  }
}
