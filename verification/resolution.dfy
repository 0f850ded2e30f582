/** What the native adapter's path resolution does, stated about the tree.

    For a plain path (see `Paths.Plain`) the directory walk of `_getDir`
    lands exactly on the location named by the split path, creating the
    missing directories along it when asked to; `_getFile` first prepares
    the directories of the path and then opens its last piece there. */
module Resolution {
  import opened Outcomes
  import opened Paths
  import opened FileTree
  import opened Native

  /** `k` is one of the locations `cwd + parts[..1]`, ..., `cwd + parts`. */
  predicate OnPath(cwd: Location, parts: seq<string>, k: Location)
  {
    |cwd| < |k| <= |cwd| + |parts| && k == cwd + parts[..|k| - |cwd|]
  }

  /** The directories along `parts`, starting below `cwd`. */
  function DirsAlong(cwd: Location, parts: seq<string>): (dirs: FileSystem)
  {
    map i | 0 < i <= |parts| :: cwd + parts[..i] := Dir
  }

  lemma InDirsAlong(cwd: Location, parts: seq<string>, k: Location)
    ensures k in DirsAlong(cwd, parts) <==> OnPath(cwd, parts, k)
    ensures k in DirsAlong(cwd, parts) ==> DirsAlong(cwd, parts)[k] == Dir
  {
    if OnPath(cwd, parts, k) {
      var i := |k| - |cwd|;
      assert k == cwd + parts[..i];
    }
  }

  /** Stepping into the first piece and then walking the rest reaches the
      same location as walking the whole. */
  lemma ConsLocation(cwd: Location, parts: seq<string>)
    requires |parts| > 0
    ensures (cwd + [parts[0]]) + parts[1..] == cwd + parts
  {
    assert parts == [parts[0]] + parts[1..];
  }

  lemma OnPathCons(cwd: Location, parts: seq<string>, k: Location)
    requires |parts| > 0
    ensures OnPath(cwd, parts, k) <==> k == cwd + [parts[0]] || OnPath(cwd + [parts[0]], parts[1..], k)
  {
    var c := cwd + [parts[0]];
    if |cwd| + 1 < |k| <= |cwd| + |parts| {
      assert c + parts[1..][..|k| - |c|] == cwd + parts[..|k| - |cwd|];
    }
    assert cwd + parts[..1] == c;
  }

  /** The directories along a path: the first one, then those along the
      rest below it. */
  lemma DirsAlongCons(cwd: Location, parts: seq<string>)
    requires |parts| > 0
    ensures DirsAlong(cwd, parts) == DirsAlong(cwd + [parts[0]], parts[1..])[cwd + [parts[0]] := Dir]
    ensures cwd + [parts[0]] !in DirsAlong(cwd + [parts[0]], parts[1..])
  {
    var c := cwd + [parts[0]];
    var rest := parts[1..];
    var m := DirsAlong(cwd, parts);
    var m' := DirsAlong(c, rest)[c := Dir];
    InDirsAlong(c, rest, c);
    forall k
      ensures k in m <==> k in m'
    {
      InDirsAlong(cwd, parts, k);
      InDirsAlong(c, rest, k);
      OnPathCons(cwd, parts, k);
    }
    forall k | k in m
      ensures m[k] == m'[k]
    {
      InDirsAlong(cwd, parts, k);
      InDirsAlong(c, rest, k);
    }
  }

  lemma AddAfterUpdate(fs: FileSystem, c: Location, m: FileSystem)
    requires c !in m
    ensures fs[c := Dir] + m == fs + m[c := Dir]
  {
  }

  /** No file stands where one of the directories along `parts` should be. */
  ghost predicate NoFileAlong(fs: FileSystem, cwd: Location, parts: seq<string>)
  {
    forall i :: 0 < i <= |parts| ==> !IsFile(fs, cwd + parts[..i])
  }

  /** Every directory along `parts` is already there. */
  ghost predicate DirsExistAlong(fs: FileSystem, cwd: Location, parts: seq<string>)
  {
    forall i :: 0 < i <= |parts| ==> IsDir(fs, cwd + parts[..i])
  }

  lemma AlongShift(cwd: Location, parts: seq<string>, i: nat)
    requires 0 < |parts| && i < |parts|
    ensures (cwd + [parts[0]]) + parts[1..][..i] == cwd + parts[..i + 1]
  {
  }

  lemma NoFileAlongTail(fs: FileSystem, cwd: Location, parts: seq<string>)
    requires |parts| > 0 && NoFileAlong(fs, cwd, parts)
    ensures !IsFile(fs, cwd + [parts[0]])
    ensures NoFileAlong(fs, cwd + [parts[0]], parts[1..])
  {
    assert cwd + parts[..1] == cwd + [parts[0]];
    forall i | 0 < i <= |parts| - 1
      ensures !IsFile(fs, (cwd + [parts[0]]) + parts[1..][..i])
    {
      AlongShift(cwd, parts, i);
    }
  }

  lemma DirsExistAlongCons(fs: FileSystem, cwd: Location, parts: seq<string>)
    requires |parts| > 0
    ensures DirsExistAlong(fs, cwd, parts) <==>
            IsDir(fs, cwd + [parts[0]]) && DirsExistAlong(fs, cwd + [parts[0]], parts[1..])
  {
    assert cwd + parts[..1] == cwd + [parts[0]];
    if IsDir(fs, cwd + [parts[0]]) && DirsExistAlong(fs, cwd + [parts[0]], parts[1..]) {
      forall i | 0 < i <= |parts|
        ensures IsDir(fs, cwd + parts[..i])
      {
        if i > 1 {
          AlongShift(cwd, parts, i - 1);
        }
      }
    }
    if DirsExistAlong(fs, cwd, parts) {
      forall i | 0 < i <= |parts| - 1
        ensures IsDir(fs, (cwd + [parts[0]]) + parts[1..][..i])
      {
        AlongShift(cwd, parts, i);
      }
    }
  }

  /** A plain path is left alone by `StripLead` and splits back into its
      pieces. */
  lemma PlainPieces(parts: seq<string>)
    requires |parts| > 0 && PlainParts(parts)
    ensures StripLead(Join(parts)) == Join(parts)
    ensures Split(Join(parts)) == parts
    ensures |parts| > 1 ==> PlainParts(parts[1..])
  {
    SplitJoin(parts);
    var s := Join(parts);
    if |parts| == 1 {
      assert s == parts[0];
    } else {
      assert s == parts[0] + "/" + Join(parts[1..]);
    }
    assert s[0] == parts[0][0];
  }

  /** One step of `_getDir` on a plain path: open the first piece, then
      walk the rest from there. */
  lemma GetDirStep(fs: FileSystem, cwd: Location, parts: seq<string>, create: bool)
    requires |parts| > 0 && PlainParts(parts)
    ensures var s := GetDirectory(fs, cwd, parts[0], create);
            GetDir(fs, cwd, Join(parts), create)
            == if s.result.Err? || |parts| == 1 then s
               else GetDir(s.fs, s.result.value, Join(parts[1..]), create)
  {
    PlainPieces(parts);
  }

  /** Opening a directory with `create` where no file stands. */
  lemma OpenCreates(fs: FileSystem, cwd: Location, name: string)
    requires name != "" && !IsFile(fs, cwd + [name])
    ensures GetDirectory(fs, cwd, name, true) == Step(fs[cwd + [name] := Dir], Ok(cwd + [name]))
  {
    var c := cwd + [name];
    if c in fs {
      assert fs[c := Dir] == fs;
    }
  }

  /** Putting a directory anywhere never puts a file in the way. */
  lemma NoFileAlongUpdate(fs: FileSystem, c: Location, cwd: Location, parts: seq<string>)
    requires NoFileAlong(fs, cwd, parts)
    ensures NoFileAlong(fs[c := Dir], cwd, parts)
  {
    forall i | 0 < i <= |parts|
      ensures !IsFile(fs[c := Dir], cwd + parts[..i])
    {
      assert !IsFile(fs, cwd + parts[..i]);
    }
  }

  /** `_getDir` with `create` on a plain path whose way is not blocked by a
      file: it lands on `cwd + parts`, and the tree afterwards is the tree
      before plus every directory along the path. */
  lemma {:induction false} GetDirCreates(fs: FileSystem, cwd: Location, parts: seq<string>)
    requires |parts| > 0 && PlainParts(parts)
    requires NoFileAlong(fs, cwd, parts)
    ensures GetDir(fs, cwd, Join(parts), true) == Step(fs + DirsAlong(cwd, parts), Ok(cwd + parts))
    decreases |parts|
  {
    var c := cwd + [parts[0]];
    CreateFirst(fs, cwd, parts);
    if |parts| > 1 {
      var rest := parts[1..];
      var fs1 := fs[c := Dir];
      NoFileAlongUpdate(fs, c, c, rest);
      GetDirCreates(fs1, c, rest);
      assert GetDir(fs1, c, Join(rest), true) == Step(fs1 + DirsAlong(c, rest), Ok(c + rest));
      ConsLocation(cwd, parts);
      assert fs1 + DirsAlong(c, rest) == fs + DirsAlong(cwd, parts);
    }
  }

  /** The first step of `GetDirCreates`: the first directory is opened or
      made, and the rest of the walk starts from it. */
  lemma CreateFirst(fs: FileSystem, cwd: Location, parts: seq<string>)
    requires |parts| > 0 && PlainParts(parts)
    requires NoFileAlong(fs, cwd, parts)
    ensures var c := cwd + [parts[0]];
            && fs[c := Dir] + DirsAlong(c, parts[1..]) == fs + DirsAlong(cwd, parts)
            && NoFileAlong(fs, c, parts[1..])
            && (|parts| == 1 ==> GetDir(fs, cwd, Join(parts), true) == Step(fs + DirsAlong(cwd, parts), Ok(cwd + parts)))
            && (|parts| > 1 ==> PlainParts(parts[1..]))
            && (|parts| > 1 ==> GetDir(fs, cwd, Join(parts), true) == GetDir(fs[c := Dir], c, Join(parts[1..]), true))
  {
    GetDirStep(fs, cwd, parts, true);
    NoFileAlongTail(fs, cwd, parts);
    PlainPieces(parts);
    var c := cwd + [parts[0]];
    OpenCreates(fs, cwd, parts[0]);
    DirsAlongCons(cwd, parts);
    AddAfterUpdate(fs, c, DirsAlong(c, parts[1..]));
    if |parts| == 1 {
      assert DirsAlong(c, parts[1..]) == map[];
      assert c == cwd + parts;
    }
  }

  /** `_getDir` without `create` on a plain path: it changes nothing, and it
      succeeds, on `cwd + parts`, exactly when every directory along the path
      is there. */
  lemma {:induction false} GetDirLooksUp(fs: FileSystem, cwd: Location, parts: seq<string>)
    requires |parts| > 0 && PlainParts(parts)
    ensures GetDir(fs, cwd, Join(parts), false).fs == fs
    ensures GetDir(fs, cwd, Join(parts), false).result.Ok? <==> DirsExistAlong(fs, cwd, parts)
    ensures GetDir(fs, cwd, Join(parts), false).result.Ok? ==>
              GetDir(fs, cwd, Join(parts), false).result.value == cwd + parts
    decreases |parts|
  {
    GetDirStep(fs, cwd, parts, false);
    PlainPieces(parts);
    DirsExistAlongCons(fs, cwd, parts);
    var c := cwd + [parts[0]];
    if |parts| == 1 {
      assert DirsExistAlong(fs, c, parts[1..]);
      assert c == cwd + parts;
    } else {
      GetDirLooksUp(fs, c, parts[1..]);
      ConsLocation(cwd, parts);
    }
  }

  /** Directories along a path that are all there already make preparing
      the path a no-op. */
  lemma ExistingDirsAlong(fs: FileSystem, cwd: Location, parts: seq<string>)
    requires DirsExistAlong(fs, cwd, parts)
    ensures NoFileAlong(fs, cwd, parts)
    ensures fs + DirsAlong(cwd, parts) == fs
  {
    var m := DirsAlong(cwd, parts);
    forall k | k in m
      ensures k in fs && fs[k] == Dir
    {
      InDirsAlong(cwd, parts, k);
      var i := |k| - |cwd|;
      assert k == cwd + parts[..i];
    }
  }

  /** After preparing a path every directory along it is there. */
  lemma PreparedDirsExist(fs: FileSystem, cwd: Location, parts: seq<string>)
    ensures DirsExistAlong(fs + DirsAlong(cwd, parts), cwd, parts)
  {
    forall i | 0 < i <= |parts|
      ensures IsDir(fs + DirsAlong(cwd, parts), cwd + parts[..i])
    {
      InDirsAlong(cwd, parts, cwd + parts[..i]);
    }
  }

  /** In a valid tree every ancestor of an entry is a directory. */
  lemma EntryDirsExist(fs: FileSystem, parts: seq<string>)
    requires Valid(fs) && parts in fs && |parts| > 0
    ensures DirsExistAlong(fs, [], parts[..|parts| - 1])
  {
    var dirs := parts[..|parts| - 1];
    forall i | 0 < i <= |dirs|
      ensures IsDir(fs, [] + dirs[..i])
    {
      assert [] + dirs[..i] == parts[..i];
      assert Below(parts[..i], parts);
      AncestorsAreDirs(fs, parts[..i], parts);
    }
  }

  // ---------------------------------------------------------------------
  // Opening a file by path

  /** The location a plain path names. */
  function Loc(p: string): (loc: Location)
  {
    Split(p)
  }

  /** The directory pieces of a path: all but the last. */
  function DirsOf(p: string): (dirs: seq<string>)
  {
    Split(p)[..|Split(p)| - 1]
  }

  /** The tree after `_getFile` has made the directories of `p`. */
  function Prepared(fs: FileSystem, p: string): (prepared: FileSystem)
  {
    fs + DirsAlong([], DirsOf(p))
  }

  /** No file blocks the directories of `p`. */
  ghost predicate Ready(fs: FileSystem, p: string)
  {
    NoFileAlong(fs, [], DirsOf(p))
  }

  /** Preparing the directories never touches the path's own entry. */
  lemma PreparedKeepsLoc(fs: FileSystem, p: string)
    ensures Loc(p) in Prepared(fs, p) <==> Loc(p) in fs
    ensures Loc(p) in fs ==> Prepared(fs, p)[Loc(p)] == fs[Loc(p)]
  {
    InDirsAlong([], DirsOf(p), Loc(p));
  }

  /** A plain path with one piece names an entry of the root. */
  lemma SinglePiece(p: string)
    requires |Split(p)| == 1
    ensures Loc(p) == [p] && DirsOf(p) == []
  {
    ParentLast(p);
  }

  /** The directory part and the last piece of a plain path with several
      pieces. */
  lemma SeveralPieces(p: string)
    requires Plain(p) && |Split(p)| > 1
    ensures Parent(p) == Join(DirsOf(p)) && PlainParts(DirsOf(p)) && |DirsOf(p)| > 0
    ensures DirsOf(p) + [Last(p)] == Loc(p)
  {
  }

  /** `_getFile` on a plain path whose directories are not blocked by a
      file: it makes the directories of the path, and then opens the entry
      the path names, creating it empty when asked to. */
  lemma GetFilePlain(fs: FileSystem, p: string, create: bool)
    requires Plain(p) && Ready(fs, p)
    ensures var r := GetFile(fs, p, create);
            && r.fs == (if create && Loc(p) !in fs then Prepared(fs, p)[Loc(p) := File("")] else Prepared(fs, p))
            && (r.result.Ok? <==> IsFile(fs, Loc(p)) || (create && Loc(p) !in fs))
            && (r.result.Ok? ==> r.result.value == Loc(p))
            && (r.result.Err? ==> r.result.error == if Loc(p) in fs then IOFailure else NotFound)
  {
    PreparedKeepsLoc(fs, p);
    if |Split(p)| == 1 {
      SinglePiece(p);
      assert Split(p)[0] == p && p != "";
      assert [] + [p] == Loc(p);
      assert DirsAlong([], DirsOf(p)) == map[];
      assert Prepared(fs, p) == fs;
    } else {
      SeveralPieces(p);
      GetDirCreates(fs, [], DirsOf(p));
      assert [] + DirsOf(p) == DirsOf(p);
    }
  }

  // ---------------------------------------------------------------------
  // Resolution keeps the tree well formed

  /** `_getDir` from a directory of a valid tree keeps it valid, only adds
      directories, and lands on a directory. */
  lemma {:induction false} GetDirValid(fs: FileSystem, cwd: Location, path: string, create: bool)
    requires Valid(fs) && IsDir(fs, cwd)
    ensures Valid(GetDir(fs, cwd, path, create).fs)
    ensures GrowsByDirs(fs, GetDir(fs, cwd, path, create).fs)
    ensures GetDir(fs, cwd, path, create).result.Ok? ==>
              IsDir(GetDir(fs, cwd, path, create).fs, GetDir(fs, cwd, path, create).result.value)
    decreases |path|
  {
    var p := StripLead(path);
    var parts := Split(p);
    var s := GetDirectory(fs, cwd, parts[0], create);
    GetDirectoryValid(fs, cwd, parts[0], create);
    if s.result.Ok? && |parts| > 1 {
      RestShorter(p);
      GetDirValid(s.fs, s.result.value, Join(parts[1..]), create);
      GrowsTrans(fs, s.fs, GetDir(s.fs, s.result.value, Join(parts[1..]), create).fs);
    }
  }

  /** `_getFile` keeps a valid tree valid. */
  lemma GetFileValid(fs: FileSystem, p: string, create: bool)
    requires Valid(fs)
    ensures Valid(GetFile(fs, p, create).fs)
  {
    if |Split(p)| == 1 {
      GetFileAtValid(fs, [], p, create);
    } else {
      GetDirValid(fs, [], Parent(p), true);
      var d := GetDir(fs, [], Parent(p), true);
      if d.result.Ok? {
        GetFileAtValid(d.fs, d.result.value, Last(p), create);
      }
    }
  }

  // ---------------------------------------------------------------------
  // Resolving again, on any path

  /** A successful walk only passes through directories, so on any later
      tree that still has the directories it ended with, the same walk
      lands on the same location and changes nothing, whatever `create`
      says. */
  lemma {:induction false} GetDirRepeats(fs: FileSystem, cwd: Location, path: string, create: bool,
                                         later: FileSystem, create': bool)
    requires GetDir(fs, cwd, path, create).result.Ok?
    requires DirsKept(GetDir(fs, cwd, path, create).fs, later)
    ensures GetDir(later, cwd, path, create') == Step(later, GetDir(fs, cwd, path, create).result)
    decreases |path|
  {
    var p := StripLead(path);
    var parts := Split(p);
    var s := GetDirectory(fs, cwd, parts[0], create);
    if parts[0] != "" {
      assert IsDir(later, cwd + [parts[0]]) by {
        if |parts| > 1 {
          RestShorter(p);
          assert GrowsByDirs(s.fs, GetDir(s.fs, s.result.value, Join(parts[1..]), create).fs);
        }
      }
    }
    if |parts| > 1 {
      RestShorter(p);
      GetDirRepeats(s.fs, s.result.value, Join(parts[1..]), create, later, create');
    }
  }

  /** A file that opened once opens again, at the same location and with
      no change, on any later tree that kept the directories and still has
      the file. */
  lemma GetFileRepeats(fs: FileSystem, p: string, create: bool, later: FileSystem, create': bool)
    requires GetFile(fs, p, create).result.Ok?
    requires DirsKept(GetFile(fs, p, create).fs, later)
    requires IsFile(later, GetFile(fs, p, create).result.value)
    ensures GetFile(later, p, create') == Step(later, GetFile(fs, p, create).result)
  {
    if |Split(p)| > 1 {
      GetDirRepeats(fs, [], Parent(p), true, later, true);
    }
  }

  /** In a well-formed tree, a walk that ends on an existing entry created
      nothing on the way: every location it passed lies above that entry,
      so was already a directory. */
  lemma {:induction false} GetDirStaysPut(fs: FileSystem, cwd: Location, path: string, create: bool)
    requires Valid(fs)
    requires GetDir(fs, cwd, path, create).result.Ok? && GetDir(fs, cwd, path, create).result.value in fs
    ensures GetDir(fs, cwd, path, create).fs == fs
    decreases |path|
  {
    var p := StripLead(path);
    var parts := Split(p);
    var s := GetDirectory(fs, cwd, parts[0], create);
    if |parts| > 1 {
      RestShorter(p);
      var r := GetDir(s.fs, s.result.value, Join(parts[1..]), create);
      AncestorsAreDirs(fs, s.result.value, r.result.value);
      assert s.fs == fs;
      GetDirStaysPut(s.fs, s.result.value, Join(parts[1..]), create);
    }
  }

  /** In a well-formed tree, a file that opens without `create` opens
      without changing anything: its directories were all there. */
  lemma GetFileStaysPut(fs: FileSystem, p: string)
    requires Valid(fs) && GetFile(fs, p, false).result.Ok?
    ensures GetFile(fs, p, false).fs == fs
  {
    if |Split(p)| > 1 {
      var d := GetDir(fs, [], Parent(p), true);
      var loc := d.result.value + [Last(p)];
      assert loc in fs;
      assert loc[..|loc| - 1] == d.result.value;
      GetDirStaysPut(fs, [], Parent(p), true);
    }
  }

  // ---------------------------------------------------------------------
  // A lead that the normalisation drops changes nothing

  /** A walk whose path normalises to nothing stays where it starts. */
  lemma GetDirNowhere(fs: FileSystem, cwd: Location, path: string, create: bool)
    requires StripLead(path) == ""
    ensures GetDir(fs, cwd, path, create) == Step(fs, Ok(cwd))
  {
  }

  /** A leading `/` or `./` (see `LeadOf`) does not change where the walk
      of `_getDir` goes, from any directory, on any tree. */
  lemma GetDirLead(fs: FileSystem, cwd: Location, p: string, q: string, create: bool)
    requires LeadOf(p, q)
    ensures GetDir(fs, cwd, p, create) == GetDir(fs, cwd, q, create)
  {
    if p == "./" + q {
      assert StripLead(p) == "/" + q;
      assert Split("/" + q) == [""] + Split(q) by {
        assert ("/" + q)[1..] == q;
      }
      assert ([""] + Split(q))[1..] == Split(q);
      JoinSplit(q);
    } else {
      assert StripLead(p) == q;
    }
  }

  /** ... nor where `_getFile` resolves the directory part. */
  lemma ParentWalkLead(fs: FileSystem, p: string, q: string, create: bool)
    requires LeadOf(p, q)
    ensures GetDir(fs, [], Parent(p), create) == GetDir(fs, [], Parent(q), create)
  {
    LeadPieces(p, q);
    if |Split(q)| == 1 {
      GetDirNowhere(fs, [], Parent(p), create);
      GetDirNowhere(fs, [], Parent(q), create);
    } else {
      GetDirLead(fs, [], Parent(p), Parent(q), create);
    }
  }

  /** ... nor which file `_getFile` opens. */
  lemma GetFileLead(fs: FileSystem, p: string, q: string, create: bool)
    requires LeadOf(p, q)
    ensures GetFile(fs, p, create) == GetFile(fs, q, create)
  {
    LeadPieces(p, q);
    ParentWalkLead(fs, p, q, true);
    if |Split(q)| == 1 {
      SplitSingle(q);
      ParentLast(q);
    }
  }

  /** Both resolutions together, on every tree. */
  lemma LeadResolves(p: string, q: string)
    requires LeadOf(p, q)
    ensures forall fs, cwd, create :: GetDir(fs, cwd, p, create) == GetDir(fs, cwd, q, create)
    ensures forall fs, create :: GetFile(fs, p, create) == GetFile(fs, q, create)
    ensures forall fs, create :: GetDir(fs, [], Parent(p), create) == GetDir(fs, [], Parent(q), create)
  {
    forall fs, cwd, create
      ensures GetDir(fs, cwd, p, create) == GetDir(fs, cwd, q, create)
    {
      GetDirLead(fs, cwd, p, q, create);
    }
    forall fs, create
      ensures GetFile(fs, p, create) == GetFile(fs, q, create)
      ensures GetDir(fs, [], Parent(p), create) == GetDir(fs, [], Parent(q), create)
    {
      GetFileLead(fs, p, q, create);
      ParentWalkLead(fs, p, q, create);
    }
  }
}

