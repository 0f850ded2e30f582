/** The hierarchical substrate behind the native adapter: the cordova-file
    `DirectoryEntry`/`FileEntry` API, reduced to pure state.

    A file system is a finite map from locations (the list of names walked
    from the root) to entries; the root is the empty location.  Each
    substrate primitive the adapter calls is a function from the file system
    to a `Step`: the file system afterwards and the completion. */
module FileTree {
  import opened Outcomes

  type Location = seq<string>

  datatype Entry = File(contents: string) | Dir

  type FileSystem = map<Location, Entry>

  /** What one substrate call (or one adapter operation) leaves behind. */
  datatype Step<+T> = Step(fs: FileSystem, result: Result<T>)

  predicate IsDir(fs: FileSystem, loc: Location)
  {
    loc in fs && fs[loc].Dir?
  }

  predicate IsFile(fs: FileSystem, loc: Location)
  {
    loc in fs && fs[loc].File?
  }

  /** `dir` is `loc` or one of its ancestors. */
  predicate Below(dir: Location, loc: Location)
  {
    |dir| <= |loc| && loc[..|dir|] == dir
  }

  /** Descending from `b` keeps one below every ancestor of `b`. */
  lemma BelowTrans(a: Location, b: Location, c: Result<Location>)
    requires Below(a, b)
    ensures c.Ok? && Below(b, c.value) ==> Below(a, c.value)
  {
    if c.Ok? && Below(b, c.value) {
      assert c.value[..|a|] == c.value[..|b|][..|a|];
    }
  }

  /** A well-formed tree: the root is a directory and every other entry
      sits inside a directory. */
  ghost predicate Valid(fs: FileSystem)
  {
    && IsDir(fs, [])
    && forall loc :: loc in fs && loc != [] ==> IsDir(fs, loc[..|loc| - 1])
  }

  /** `after` keeps every entry of `before` unchanged and adds nothing but
      directories. */
  ghost predicate GrowsByDirs(before: FileSystem, after: FileSystem)
  {
    && (forall loc :: loc in before ==> loc in after && after[loc] == before[loc])
    && (forall loc :: loc in after && loc !in before ==> after[loc] == Dir)
  }

  /** Every directory of `before` is still a directory in `after`. */
  ghost predicate DirsKept(before: FileSystem, after: FileSystem)
  {
    forall loc :: IsDir(before, loc) ==> IsDir(after, loc)
  }

  /** `dir.getDirectory(name, {create})`.  The empty name denotes `dir`
      itself (the substrate normalises the doubled separator away); an
      existing file of that name is a type mismatch; a missing directory is
      created only on request. */
  function GetDirectory(fs: FileSystem, dir: Location, name: string, create: bool): (r: Step<Location>)
    ensures GrowsByDirs(fs, r.fs)
    ensures !create ==> r.fs == fs
    ensures r.result.Ok? ==> Below(dir, r.result.value)
    ensures r.result.Ok? && name != "" ==> r.result.value == dir + [name] && IsDir(r.fs, dir + [name])
    ensures r.result.Err? ==> r.fs == fs
    ensures name != "" && IsDir(fs, dir + [name]) ==> r == Step(fs, Ok(dir + [name]))
  {
    if name == "" then Step(fs, Ok(dir))
    else
      var child := dir + [name];
      if child in fs then
        if fs[child].Dir? then Step(fs, Ok(child)) else Step(fs, Err(IOFailure))
      else if create then Step(fs[child := Dir], Ok(child))
      else Step(fs, Err(NotFound))
  }

  /** `dir.getFile(name, {create})`.  A file opened with `create` on a
      missing name starts out empty; a directory of that name, or the empty
      name (which denotes `dir` itself), is not a file. */
  function GetFileAt(fs: FileSystem, dir: Location, name: string, create: bool): (r: Step<Location>)
    ensures r.result.Ok? ==> r.result.value == dir + [name] && IsFile(r.fs, dir + [name])
    ensures r.result.Ok? <==> name != "" && (IsFile(fs, dir + [name]) || (create && dir + [name] !in fs))
    ensures r.fs == fs || (create && name != "" && dir + [name] !in fs && r.fs == fs[dir + [name] := File("")])
    ensures IsFile(fs, dir + [name]) ==> r.fs == fs
  {
    if name == "" then Step(fs, Err(IOFailure))
    else
      var child := dir + [name];
      if child in fs then
        if fs[child].File? then Step(fs, Ok(child)) else Step(fs, Err(IOFailure))
      else if create then Step(fs[child := File("")], Ok(child))
      else Step(fs, Err(NotFound))
  }

  /** `fileEntry.remove()`. */
  function Remove(fs: FileSystem, loc: Location): (r: Step<()>)
    ensures loc !in r.fs && r.result.Ok?
    ensures forall l :: l != loc && l in fs ==> l in r.fs && r.fs[l] == fs[l]
    ensures r.fs.Keys <= fs.Keys
  {
    Step(fs - {loc}, Ok(()))
  }

  /** `dirEntry.removeRecursively()`: the directory and everything below it
      go.  The root itself cannot be removed. */
  function RemoveRecursively(fs: FileSystem, dir: Location): (r: Step<()>)
    ensures r.result.Ok? <==> dir != []
    ensures r.result.Ok? ==> forall l :: l in r.fs <==> l in fs && !Below(dir, l)
    ensures forall l :: l in r.fs ==> l in fs && r.fs[l] == fs[l]
    ensures r.result.Err? ==> r.fs == fs
  {
    if dir == [] then Step(fs, Err(IOFailure))
    else Step(map l | l in fs && !Below(dir, l) :: fs[l], Ok(()))
  }

  /** `entry.moveTo(parent, name)` for a file entry: the entry leaves its
      location and appears, with the same contents, as `name` in `parent`,
      replacing a file already there.  Moving onto itself, onto a
      directory, or to the empty name is refused. */
  function MoveTo(fs: FileSystem, entry: Location, parent: Location, name: string): (r: Step<()>)
    requires entry in fs
    ensures r.result.Ok? <==> name != "" && parent + [name] != entry && !IsDir(fs, parent + [name])
    ensures r.result.Ok? ==> parent + [name] in r.fs && r.fs[parent + [name]] == fs[entry] && entry !in r.fs
    ensures r.result.Ok? ==> forall l :: l != entry && l != parent + [name] ==>
                               (l in r.fs <==> l in fs) && (l in fs ==> r.fs[l] == fs[l])
    ensures r.result.Err? ==> r.fs == fs
  {
    var target := parent + [name];
    if name == "" || target == entry || IsDir(fs, target) then Step(fs, Err(IOFailure))
    else Step((fs - {entry})[target := fs[entry]], Ok(()))
  }

  /** Growing by directories twice is growing by directories, and keeps
      every directory. */
  lemma GrowsTrans(a: FileSystem, b: FileSystem, c: FileSystem)
    requires GrowsByDirs(a, b) && GrowsByDirs(b, c)
    ensures GrowsByDirs(a, c) && DirsKept(a, c)
  {
  }

  /** Moving a file never removes or replaces a directory. */
  lemma MoveToKeepsDirs(fs: FileSystem, entry: Location, parent: Location, name: string, before: FileSystem)
    requires IsFile(fs, entry) && DirsKept(before, fs)
    ensures DirsKept(before, MoveTo(fs, entry, parent, name).fs)
  {
  }

  /** A `FileWriter` positioned at the start (overwrite) or, after
      `seek(length)`, at the end (append). */
  function Write(fs: FileSystem, loc: Location, data: string, append: bool): (r: FileSystem)
    requires IsFile(fs, loc)
    ensures IsFile(r, loc)
    ensures r[loc].contents == if append then fs[loc].contents + data else data
    ensures forall l :: l != loc ==> (l in r <==> l in fs) && (l in fs ==> r[l] == fs[l])
  {
    fs[loc := File(if append then fs[loc].contents + data else data)]
  }

  // ---------------------------------------------------------------------
  // Shape of a valid tree

  /** Every proper ancestor of an entry of a valid tree is a directory. */
  lemma {:induction false} AncestorsAreDirs(fs: FileSystem, dir: Location, loc: Location)
    requires Valid(fs)
    requires loc in fs && Below(dir, loc)
    ensures IsDir(fs, dir) || dir == loc
    decreases |loc|
  {
    if dir != loc {
      var up := loc[..|loc| - 1];
      assert IsDir(fs, up);
      assert up[..|dir|] == loc[..|dir|];
      if up != dir {
        AncestorsAreDirs(fs, dir, up);
      }
    }
  }

  /** Nothing lives below a location a valid tree does not have. */
  lemma AbsentHasNoDescendants(fs: FileSystem, dir: Location, loc: Location)
    requires Valid(fs)
    requires dir !in fs && Below(dir, loc)
    ensures loc !in fs
  {
    if loc in fs {
      AncestorsAreDirs(fs, dir, loc);
    }
  }

  /** Nothing lives below a file of a valid tree. */
  lemma FileHasNoDescendants(fs: FileSystem, file: Location, loc: Location)
    requires Valid(fs)
    requires IsFile(fs, file) && Below(file, loc) && loc != file
    ensures loc !in fs
  {
    if loc in fs {
      AncestorsAreDirs(fs, file, loc);
    }
  }

  // ---------------------------------------------------------------------
  // Every primitive keeps the tree well formed

  lemma GetDirectoryValid(fs: FileSystem, dir: Location, name: string, create: bool)
    requires Valid(fs) && IsDir(fs, dir)
    ensures Valid(GetDirectory(fs, dir, name, create).fs)
    ensures GetDirectory(fs, dir, name, create).result.Ok? ==>
              IsDir(GetDirectory(fs, dir, name, create).fs, GetDirectory(fs, dir, name, create).result.value)
  {
    var child := dir + [name];
    assert child[..|child| - 1] == dir;
  }

  lemma GetFileAtValid(fs: FileSystem, dir: Location, name: string, create: bool)
    requires Valid(fs) && IsDir(fs, dir)
    ensures Valid(GetFileAt(fs, dir, name, create).fs)
  {
    var child := dir + [name];
    assert child[..|child| - 1] == dir;
  }

  lemma RemoveFileValid(fs: FileSystem, loc: Location)
    requires Valid(fs) && IsFile(fs, loc)
    ensures Valid(Remove(fs, loc).fs)
  {
  }

  /** An ancestor of the parent is an ancestor of the child. */
  lemma BelowParent(dir: Location, loc: Location)
    requires loc != [] && Below(dir, loc[..|loc| - 1])
    ensures Below(dir, loc)
  {
    assert loc[..|dir|] == loc[..|loc| - 1][..|dir|];
  }

  lemma RemoveRecursivelyValid(fs: FileSystem, dir: Location)
    requires Valid(fs)
    ensures Valid(RemoveRecursively(fs, dir).fs)
  {
    var r := RemoveRecursively(fs, dir).fs;
    if dir != [] {
      forall l | l in r && l != []
        ensures IsDir(r, l[..|l| - 1])
      {
        var up := l[..|l| - 1];
        if Below(dir, up) {
          BelowParent(dir, l);
        }
      }
    }
  }

  lemma MoveToValid(fs: FileSystem, entry: Location, parent: Location, name: string)
    requires Valid(fs) && IsFile(fs, entry) && IsDir(fs, parent)
    ensures Valid(MoveTo(fs, entry, parent, name).fs)
  {
    var target := parent + [name];
    assert target[..|target| - 1] == parent;
  }

  lemma WriteValid(fs: FileSystem, loc: Location, data: string, append: bool)
    requires Valid(fs) && IsFile(fs, loc)
    ensures Valid(Write(fs, loc, data, append))
  {
  }
}
