/** The storage contract of the native adapter: what each operation leaves
    in the tree and what it reports.  The read-back properties hold on every
    path; the exact effect of each operation is stated for plain paths. */
module NativeProofs {
  import opened Outcomes
  import opened Paths
  import opened FileTree
  import opened Native
  import opened Resolution

  /** What reading `p` would see: the file's contents, or nothing. */
  function Contents(fs: FileSystem, p: string): (contents: string)
  {
    if IsFile(fs, Loc(p)) then fs[Loc(p)].contents else ""
  }

  // ---------------------------------------------------------------------
  // Helpers about prepared directories

  /** A location counts as a directory along `parts` in the tree `fs`
      exactly when it is one of the prefixes. */
  lemma DirsExistSnoc(fs: FileSystem, parts: seq<string>)
    requires |parts| > 0
    ensures DirsExistAlong(fs, [], parts) <==>
            DirsExistAlong(fs, [], parts[..|parts| - 1]) && IsDir(fs, parts)
  {
    var dirs := parts[..|parts| - 1];
    assert [] + parts[..|parts|] == parts;
    forall i | 0 < i <= |dirs|
      ensures [] + dirs[..i] == [] + parts[..i]
    {
    }
  }

  /** Adding directories never removes one. */
  lemma DirsExistGrow(fs: FileSystem, m: FileSystem, parts: seq<string>)
    requires DirsExistAlong(fs, [], parts)
    requires forall k :: k in m ==> m[k] == Dir
    ensures DirsExistAlong(fs + m, [], parts)
  {
  }

  /** Once the directories of `p` are there, they stay there when the
      entry `Loc(p)` or anything below it changes, and preparing `p` again
      changes nothing. */
  lemma StaysPrepared(fs: FileSystem, fs': FileSystem, p: string)
    requires DirsExistAlong(fs, [], DirsOf(p))
    requires forall l :: IsDir(fs, l) && |l| < |Loc(p)| ==> IsDir(fs', l)
    ensures Ready(fs', p) && Prepared(fs', p) == fs'
  {
    forall i | 0 < i <= |DirsOf(p)|
      ensures IsDir(fs', [] + DirsOf(p)[..i])
    {
      assert IsDir(fs, [] + DirsOf(p)[..i]);
    }
    ExistingDirsAlong(fs', [], DirsOf(p));
  }

  /** The prepared tree has the directories of `p`, and preparing again,
      after `Loc(p)` itself changed, changes nothing. */
  lemma PreparedIsStable(fs: FileSystem, p: string, e: Entry)
    ensures Ready(Prepared(fs, p)[Loc(p) := e], p)
    ensures Prepared(Prepared(fs, p)[Loc(p) := e], p) == Prepared(fs, p)[Loc(p) := e]
    ensures Ready(Prepared(fs, p), p) && Prepared(Prepared(fs, p), p) == Prepared(fs, p)
  {
    PreparedDirsExist(fs, [], DirsOf(p));
    StaysPrepared(Prepared(fs, p), Prepared(fs, p)[Loc(p) := e], p);
    StaysPrepared(Prepared(fs, p), Prepared(fs, p), p);
  }

  /** In a valid tree, a path naming an existing entry is already prepared. */
  lemma EntryIsPrepared(fs: FileSystem, p: string)
    requires Valid(fs) && Loc(p) in fs
    ensures DirsExistAlong(fs, [], DirsOf(p))
    ensures Ready(fs, p) && Prepared(fs, p) == fs
  {
    EntryDirsExist(fs, Loc(p));
    ExistingDirsAlong(fs, [], DirsOf(p));
  }

  // ---------------------------------------------------------------------
  // exists, writeFile, appendFile, readFile

  /** `existsNative` on a plain path: true exactly when a file or a
      directory is there; as a side effect the directories of the path are
      made. */
  lemma ExistsPlain(fs: FileSystem, p: string)
    requires Plain(p) && Ready(fs, p)
    ensures Exists(fs, p) == Probe(Prepared(fs, p), Loc(p) in fs)
  {
    if IsFile(fs, Loc(p)) {
      GetFilePlain(fs, p, false);
    } else {
      ExistsNotFile(fs, p);
    }
  }

  /** The directory branch of `existsNative`, reached when no file opens. */
  lemma ExistsNotFile(fs: FileSystem, p: string)
    requires Plain(p) && Ready(fs, p) && !IsFile(fs, Loc(p))
    ensures Exists(fs, p) == Probe(Prepared(fs, p), Loc(p) in fs)
  {
    var fs1 := Prepared(fs, p);
    assert GetFile(fs, p, false).fs == fs1 && GetFile(fs, p, false).result.Err? by {
      GetFilePlain(fs, p, false);
    }
    assert GetDir(fs1, [], p, false).result.Ok? <==> Loc(p) in fs by {
      PreparedKeepsLoc(fs, p);
      JoinSplit(p);
      GetDirLooksUp(fs1, [], Loc(p));
      PreparedDirsExist(fs, [], DirsOf(p));
      DirsExistSnoc(fs1, Loc(p));
      assert [] + Loc(p) == Loc(p);
    }
  }

  /** `writeFileNative` / `appendFileNative` on a plain path: the
      directories are made, and the file is created if needed and then
      overwritten with, or extended by, the data.  A directory in the way
      is a failure. */
  lemma WriteFilePlain(fs: FileSystem, p: string, data: string, append: bool)
    requires Plain(p) && Ready(fs, p)
    ensures !IsDir(fs, Loc(p)) ==>
              WriteFile(fs, p, data, append)
              == Step(Prepared(fs, p)[Loc(p) := File(if append then Contents(fs, p) + data else data)], Ok(()))
    ensures IsDir(fs, Loc(p)) ==> WriteFile(fs, p, data, append) == Step(Prepared(fs, p), Err(IOFailure))
  {
    if IsDir(fs, Loc(p)) {
      WriteFileOnDir(fs, p, data, append);
    } else {
      WriteFileOnFile(fs, p, data, append);
    }
  }

  lemma WriteFileOnDir(fs: FileSystem, p: string, data: string, append: bool)
    requires Plain(p) && Ready(fs, p) && IsDir(fs, Loc(p))
    ensures WriteFile(fs, p, data, append) == Step(Prepared(fs, p), Err(IOFailure))
  {
    GetFilePlain(fs, p, true);
  }

  lemma WriteFileOnFile(fs: FileSystem, p: string, data: string, append: bool)
    requires Plain(p) && Ready(fs, p) && !IsDir(fs, Loc(p))
    ensures WriteFile(fs, p, data, append)
            == Step(Prepared(fs, p)[Loc(p) := File(if append then Contents(fs, p) + data else data)], Ok(()))
  {
    var f := GetFile(fs, p, true);
    var e := File(if append then Contents(fs, p) + data else data);
    assert f.result == Ok(Loc(p)) && f.fs[Loc(p)].contents == Contents(fs, p)
        && f.fs[Loc(p) := e] == Prepared(fs, p)[Loc(p) := e] by {
      GetFilePlain(fs, p, true);
      PreparedKeepsLoc(fs, p);
    }
    assert WriteFile(fs, p, data, append) == Step(Write(f.fs, Loc(p), data, append), Ok(()));
  }

  /** `readFileNative` on a plain path: the contents of the file; a missing
      file is created empty (with its directories) and reads as empty. */
  lemma ReadFilePlain(fs: FileSystem, p: string)
    requires Plain(p) && Ready(fs, p)
    ensures !IsDir(fs, Loc(p)) ==>
              ReadFile(fs, p) == Step(Prepared(fs, p)[Loc(p) := File(Contents(fs, p))], Ok(Contents(fs, p)))
    ensures IsDir(fs, Loc(p)) ==> ReadFile(fs, p) == Step(Prepared(fs, p), Err(IOFailure))
  {
    GetFilePlain(fs, p, true);
    PreparedKeepsLoc(fs, p);
    if IsFile(fs, Loc(p)) {
      assert Prepared(fs, p)[Loc(p) := File(Contents(fs, p))] == Prepared(fs, p);
    }
  }

  /** On any path, a write that succeeded opened a file, and that file
      opens again, unchanged, for the next read or write: reading back
      returns the data (after the old contents, for an append) and changes
      nothing. */
  lemma ReadAfterWrite(fs: FileSystem, p: string, data: string, append: bool)
    requires WriteFile(fs, p, data, append).result.Ok?
    ensures var w := WriteFile(fs, p, data, append);
            && ReadFile(fs, p).result.Ok?
            && ReadFile(w.fs, p) == Step(w.fs, Ok(if append then ReadFile(fs, p).result.value + data else data))
            && GetFile(w.fs, p, true) == Step(w.fs, GetFile(fs, p, true).result)
  {
    var f := GetFile(fs, p, true);
    var w := Write(f.fs, f.result.value, data, append);
    GetFileRepeats(fs, p, true, w, true);
  }

  /** Reading back a write returns exactly the data written, whatever the
      file held before, and the read changes nothing.  This holds on every
      path the write succeeds on; on a plain path no file blocks, with no
      directory in the way, the write always succeeds. */
  lemma WriteThenRead(fs: FileSystem, p: string, data: string)
    ensures var w := WriteFile(fs, p, data, false);
            && (w.result.Ok? ==> ReadFile(w.fs, p) == Step(w.fs, Ok(data)))
            && (Plain(p) && Ready(fs, p) && !IsDir(fs, Loc(p)) ==> w.result.Ok?)
  {
    if WriteFile(fs, p, data, false).result.Ok? {
      ReadAfterWrite(fs, p, data, false);
    }
    if Plain(p) && Ready(fs, p) && !IsDir(fs, Loc(p)) {
      WriteFilePlain(fs, p, data, false);
    }
  }

  /** A write on a tree where `p` is already prepared touches only the
      file itself, and leaves the tree prepared. */
  lemma WriteOnPrepared(fs: FileSystem, p: string, data: string, append: bool)
    requires Plain(p) && Ready(fs, p) && Prepared(fs, p) == fs && !IsDir(fs, Loc(p))
    ensures var e := File(if append then Contents(fs, p) + data else data);
            && WriteFile(fs, p, data, append) == Step(fs[Loc(p) := e], Ok(()))
            && Ready(fs[Loc(p) := e], p) && Prepared(fs[Loc(p) := e], p) == fs[Loc(p) := e]
  {
    var e := File(if append then Contents(fs, p) + data else data);
    WriteFilePlain(fs, p, data, append);
    PreparedIsStable(fs, p, e);
  }

  /** Two appends read back as what the file held, then the two pieces of
      data, with no separator; once the first append succeeds, so does the
      second.  This holds on every path; on a plain path no file blocks,
      where nothing is there yet, the first append succeeds and the file
      reads back as exactly the two pieces. */
  lemma AppendTwiceThenRead(fs: FileSystem, p: string, d1: string, d2: string)
    ensures var a1 := AppendFile(fs, p, d1);
            var a2 := AppendFile(a1.fs, p, d2);
            && (a1.result.Ok? ==>
                  a2.result.Ok? && ReadFile(a2.fs, p).result == Ok(ReadFile(fs, p).result.value + d1 + d2))
            && (Plain(p) && Ready(fs, p) && Loc(p) !in fs ==>
                  a1.result.Ok? && ReadFile(a2.fs, p).result == Ok(d1 + d2))
  {
    var a1 := AppendFile(fs, p, d1);
    var a2 := AppendFile(a1.fs, p, d2);
    assert a1.result.Ok? ==> a2.result.Ok? && ReadFile(a2.fs, p).result == Ok(ReadFile(fs, p).result.value + d1 + d2) by {
      if a1.result.Ok? {
        AppendTwiceAnyPath(fs, p, d1, d2);
      }
    }
    assert Plain(p) && Ready(fs, p) && Loc(p) !in fs ==> a1.result.Ok? && ReadFile(a2.fs, p).result == Ok(d1 + d2) by {
      if Plain(p) && Ready(fs, p) && Loc(p) !in fs {
        AppendTwiceToMissing(fs, p, d1, d2);
      }
    }
  }

  /** The plain-path half of `AppendTwiceThenRead`. */
  lemma AppendTwiceToMissing(fs: FileSystem, p: string, d1: string, d2: string)
    requires Plain(p) && Ready(fs, p) && Loc(p) !in fs
    ensures var a1 := AppendFile(fs, p, d1);
            a1.result.Ok? && ReadFile(AppendFile(a1.fs, p, d2).fs, p).result == Ok(d1 + d2)
  {
    AppendToMissing(fs, p, d1);
    AppendTwiceAnyPath(fs, p, d1, d2);
    EmptyThenTwo(d1, d2);
  }

  lemma EmptyThenTwo(a: string, b: string)
    ensures "" + a + b == a + b
  {
  }

  /** The every-path half of `AppendTwiceThenRead`. */
  lemma AppendTwiceAnyPath(fs: FileSystem, p: string, d1: string, d2: string)
    requires AppendFile(fs, p, d1).result.Ok?
    ensures var a2 := AppendFile(AppendFile(fs, p, d1).fs, p, d2);
            a2.result.Ok? && ReadFile(a2.fs, p).result == Ok(ReadFile(fs, p).result.value + d1 + d2)
  {
    var a1 := AppendFile(fs, p, d1);
    ReadAfterWrite(fs, p, d1, true);
    ReadAfterWrite(a1.fs, p, d2, true);
    assert ReadFile(fs, p).result.value + d1 + d2 == ReadFile(fs, p).result.value + (d1 + d2);
  }

  /** Appending to a missing file on a plain path no file blocks succeeds,
      and the file read before the append was empty. */
  lemma AppendToMissing(fs: FileSystem, p: string, d: string)
    requires Plain(p) && Ready(fs, p) && Loc(p) !in fs
    ensures AppendFile(fs, p, d).result.Ok? && ReadFile(fs, p).result == Ok("")
  {
    WriteFilePlain(fs, p, d, true);
    ReadFilePlain(fs, p);
  }

  // ---------------------------------------------------------------------
  // unlink, ensureFileDoesntExist, mkdirp

  /** `unlinkNative` on a plain path: a file is removed, a directory is
      removed with everything below it, and a missing path is an error.
      The directories of the path are made first in every case. */
  lemma UnlinkPlain(fs: FileSystem, p: string)
    requires Plain(p) && Ready(fs, p)
    ensures IsFile(fs, Loc(p)) ==> Unlink(fs, p) == Step(Prepared(fs, p) - {Loc(p)}, Ok(()))
    ensures IsDir(fs, Loc(p)) ==> Unlink(fs, p) == RemoveRecursively(Prepared(fs, p), Loc(p))
    ensures IsDir(fs, Loc(p)) ==> Unlink(fs, p).result.Ok?
    ensures Loc(p) !in fs ==> Unlink(fs, p).fs == Prepared(fs, p) && Unlink(fs, p).result.Err?
  {
    if IsFile(fs, Loc(p)) {
      GetFilePlain(fs, p, false);
    } else {
      UnlinkNotFile(fs, p);
    }
  }

  /** The directory branch of `unlinkNative`, reached when no file opens. */
  lemma UnlinkNotFile(fs: FileSystem, p: string)
    requires Plain(p) && Ready(fs, p) && !IsFile(fs, Loc(p))
    ensures Loc(p) in fs ==> Unlink(fs, p) == RemoveRecursively(Prepared(fs, p), Loc(p))
    ensures Loc(p) in fs ==> Unlink(fs, p).result.Ok?
    ensures Loc(p) !in fs ==> Unlink(fs, p).fs == Prepared(fs, p) && Unlink(fs, p).result.Err?
  {
    var fs1 := Prepared(fs, p);
    assert GetFile(fs, p, false) == Step(fs1, Err(if Loc(p) in fs then IOFailure else NotFound)) by {
      GetFilePlain(fs, p, false);
    }
    assert GetDir(fs1, [], p, false) == Step(fs1, if Loc(p) in fs then Ok(Loc(p)) else Err(NotFound))
        || (Loc(p) !in fs && GetDir(fs1, [], p, false).fs == fs1 && GetDir(fs1, [], p, false).result.Err?) by {
      PreparedKeepsLoc(fs, p);
      JoinSplit(p);
      GetDirLooksUp(fs1, [], Loc(p));
      PreparedDirsExist(fs, [], DirsOf(p));
      DirsExistSnoc(fs1, Loc(p));
      assert [] + Loc(p) == Loc(p);
    }
  }

  /** `ensureFileDoesntExistNative` on a plain path: always a success, and
      afterwards nothing is at the path.  A missing path leaves the tree as
      it was apart from the directories the probe made. */
  lemma EnsureFileDoesntExistPlain(fs: FileSystem, p: string)
    requires Plain(p) && Ready(fs, p)
    ensures var r := EnsureFileDoesntExist(fs, p);
            && r.result == Ok(())
            && Loc(p) !in r.fs
            && (Loc(p) !in fs ==> r.fs == Prepared(fs, p))
            && (IsFile(fs, Loc(p)) ==> r.fs == Prepared(fs, p) - {Loc(p)})
            && Ready(r.fs, p) && Prepared(r.fs, p) == r.fs
  {
    var fs1 := Prepared(fs, p);
    ExistsPlain(fs, p);
    PreparedIsStable(fs, p, Dir);
    PreparedKeepsLoc(fs, p);
    if Loc(p) in fs {
      PreparedDirsExist(fs, [], DirsOf(p));
      UnlinkPrepared(fs1, p);
    }
  }

  /** Unlinking an entry of a prepared path succeeds, removes it, and
      leaves the directories above it. */
  lemma UnlinkPrepared(fs: FileSystem, p: string)
    requires Plain(p) && DirsExistAlong(fs, [], DirsOf(p)) && Loc(p) in fs
    ensures var r := Unlink(fs, p);
            && r.result == Ok(()) && Loc(p) !in r.fs
            && (IsFile(fs, Loc(p)) ==> r.fs == fs - {Loc(p)})
            && Ready(r.fs, p) && Prepared(r.fs, p) == r.fs
  {
    var r := Unlink(fs, p);
    assert Ready(fs, p) && Prepared(fs, p) == fs by {
      StaysPrepared(fs, fs, p);
    }
    UnlinkPlain(fs, p);
    assert Below(Loc(p), Loc(p));
    forall l | IsDir(fs, l) && |l| < |Loc(p)|
      ensures IsDir(r.fs, l)
    {
      if IsDir(fs, Loc(p)) {
        assert !Below(Loc(p), l);
      } else {
        assert r.fs == fs - {Loc(p)} && l != Loc(p);
      }
    }
    StaysPrepared(fs, r.fs, p);
  }

  /** Removing twice is removing once: the second call succeeds and
      changes nothing. */
  lemma EnsureFileDoesntExistIdempotent(fs: FileSystem, p: string)
    requires Plain(p) && Ready(fs, p)
    ensures var r := EnsureFileDoesntExist(fs, p);
            EnsureFileDoesntExist(r.fs, p) == Step(r.fs, Ok(()))
  {
    var r := EnsureFileDoesntExist(fs, p);
    EnsureFileDoesntExistPlain(fs, p);
    EnsureFileDoesntExistPlain(r.fs, p);
  }

  /** Why idempotence needs a plain path.  `_getFile` opens the last piece
      as written, but the fallback walk of `_getDir` drops the leading `.`
      of `.y`: with a file `x/.y` beside a directory `x/y`, the first call
      removes the file and the second, finding no file, walks to `x/y` and
      removes that directory. */
  lemma DottedPathNotIdempotent()
    ensures var r1 := EnsureFileDoesntExist(DottedTree(), "x/.y");
            var r2 := EnsureFileDoesntExist(r1.fs, "x/.y");
            && r1 == Step(DottedTree() - {["x", ".y"]}, Ok(()))
            && r2 == Step(r1.fs - {["x", "y"]}, Ok(()))
            && ["x", "y"] in r1.fs && r2.fs != r1.fs
  {
    FirstCall();
    SecondCall();
    SiblingSurvivesFirst();
  }

  lemma SiblingSurvivesFirst()
    ensures ["x", "y"] in DottedTree() - {["x", ".y"]}
  {
  }

  /** How `x/.y` is cut: by `split`, and by the strip of `_getDir`. */
  lemma SplitDotted()
    ensures Split("x/.y") == ["x", ".y"] && Split("y") == ["y"] && Split("x") == ["x"]
    ensures Parent("x/.y") == "x" && Last("x/.y") == ".y"
    ensures StripLead("x/.y") == "x/.y" && StripLead(".y") == "y" && StripLead("x") == "x"
    ensures Join([".y"]) == ".y"
  {
    assert Split("") == [""];
    assert Split("y") == ["y"] by {
      assert "y"[1..] == "" && "y"[0] == 'y' && ['y'] + "" == "y";
    }
    assert Split("x") == ["x"] by {
      assert "x"[1..] == "" && "x"[0] == 'x' && ['x'] + "" == "x";
    }
    assert Split(".y") == [".y"] by {
      assert ".y"[1..] == "y" && ".y"[0] == '.' && ['.'] + "y" == ".y";
    }
    assert Split("/.y") == ["", ".y"] by {
      assert "/.y"[1..] == ".y" && "/.y"[0] == '/';
    }
    assert Split("x/.y") == ["x", ".y"] by {
      assert "x/.y"[1..] == "/.y" && "x/.y"[0] == 'x' && ['x'] + "" == "x";
      assert [["x/.y"[0]] + Split("/.y")[0]] + Split("/.y")[1..] == ["x", ".y"];
    }
    assert StripLead(".y") == "y" by { assert ".y"[1..] == "y"; }
  }

  /** A tree with a file `x/.y` and, beside it, a directory `x/y`. */
  function DottedTree(): (fs: FileSystem)
  {
    map[[] := Dir, ["x"] := Dir, ["x", ".y"] := File(""), ["x", "y"] := Dir]
  }

  /** The first call removes the file `x/.y`. */
  lemma FirstCall()
    ensures EnsureFileDoesntExist(DottedTree(), "x/.y") == Step(DottedTree() - {["x", ".y"]}, Ok(()))
  {
    var fs := DottedTree();
    SplitDotted();
    assert GetDir(fs, [], "x", true) == Step(fs, Ok(["x"])) by {
      assert [] + ["x"] == ["x"];
    }
    assert GetFile(fs, "x/.y", false) == Step(fs, Ok(["x", ".y"])) by {
      assert ["x"] + [".y"] == ["x", ".y"];
    }
  }

  /** The second call removes the directory `x/y`. */
  lemma SecondCall()
    ensures var fs := DottedTree() - {["x", ".y"]};
            EnsureFileDoesntExist(fs, "x/.y") == Step(fs - {["x", "y"]}, Ok(()))
  {
    var fs := DottedTree() - {["x", ".y"]};
    var gone := fs - {["x", "y"]};
    assert Exists(fs, "x/.y") == Probe(fs, true) by { SecondWalks(); }
    assert Unlink(fs, "x/.y") == Step(gone, Ok(())) by {
      SecondWalks();
      SecondRemoves();
    }
  }

  /** Nothing else lies below `x/y`. */
  lemma SecondRemoves()
    ensures var fs := DottedTree() - {["x", ".y"]};
            RemoveRecursively(fs, ["x", "y"]) == Step(fs - {["x", "y"]}, Ok(()))
  {
  }

  /** With the file gone, `x/.y` no longer opens as a file, but the walk
      of `_getDir` reaches the directory `x/y`. */
  lemma SecondWalks()
    ensures var fs := DottedTree() - {["x", ".y"]};
            && GetFile(fs, "x/.y", false) == Step(fs, Err(NotFound))
            && GetDir(fs, [], "x/.y", false) == Step(fs, Ok(["x", "y"]))
  {
    var fs := DottedTree() - {["x", ".y"]};
    SplitDotted();
    assert GetDir(fs, [], "x", true) == Step(fs, Ok(["x"])) by {
      assert [] + ["x"] == ["x"];
    }
    assert GetFile(fs, "x/.y", false) == Step(fs, Err(NotFound)) by {
      assert ["x"] + [".y"] == ["x", ".y"];
    }
    assert GetDir(fs, ["x"], ".y", false) == Step(fs, Ok(["x", "y"])) by {
      assert ["x"] + ["y"] == ["x", "y"];
    }
    assert GetDir(fs, [], "x/.y", false) == Step(fs, Ok(["x", "y"])) by {
      assert [] + ["x"] == ["x"];
      assert Split("x/.y")[1..] == [".y"];
    }
  }

  /** The empty path names the root, which cannot be removed: every call
      fails and leaves the tree as it was, so a second call does not
      succeed either. */
  lemma EmptyPathFails(fs: FileSystem)
    ensures EnsureFileDoesntExist(fs, "") == Step(fs, Err(IOFailure))
  {
    assert Split("") == [""];
  }

  // ---------------------------------------------------------------------
  // A lead that the normalisation drops changes nothing

  /** Every device operation does the same on `p` as on the path `q` behind
      it, when `p` adds a leading `/` or `./` (see `LeadOf`), on every
      tree.  So each property stated here for a plain path also holds for
      that path behind such a lead. */
  lemma LeadIgnored(p: string, q: string)
    requires LeadOf(p, q)
    ensures forall fs :: Exists(fs, p) == Exists(fs, q)
    ensures forall fs, data, append :: WriteFile(fs, p, data, append) == WriteFile(fs, q, data, append)
    ensures forall fs :: ReadFile(fs, p) == ReadFile(fs, q)
    ensures forall fs :: Unlink(fs, p) == Unlink(fs, q)
    ensures forall fs :: Mkdirp(fs, p) == Mkdirp(fs, q)
    ensures forall fs :: EnsureFileDoesntExist(fs, p) == EnsureFileDoesntExist(fs, q)
    ensures forall fs :: EnsureDatafileIntegrity(fs, p) == EnsureDatafileIntegrity(fs, q)
  {
    LeadResolves(p, q);
    forall fs
      ensures EnsureDatafileIntegrity(fs, p) == EnsureDatafileIntegrity(fs, q)
    {
      IntegrityIgnoresLead(fs, p, q);
    }
  }

  /** The start-up reconciliation ignores the lead too: the temporary
      sibling keeps it, and the recovery rename resolves through the
      directory part and the file names only. */
  lemma IntegrityIgnoresLead(fs: FileSystem, p: string, q: string)
    requires LeadOf(p, q)
    ensures EnsureDatafileIntegrity(fs, p) == EnsureDatafileIntegrity(fs, q)
  {
    LeadTemp(p, q);
    var e := Exists(fs, p);
    assert e == Exists(fs, q) by { ExistsLead(fs, p, q); }
    var t := Exists(e.fs, Temp(p));
    assert t == Exists(e.fs, Temp(q)) by { ExistsLead(e.fs, Temp(p), Temp(q)); }
    assert WriteFile(t.fs, p, "", false) == WriteFile(t.fs, q, "", false) by {
      LeadResolves(p, q);
    }
    assert Rename(t.fs, Temp(p), p) == Rename(t.fs, Temp(q), q) by {
      RecoveryRenameLead(t.fs, p, q);
    }
  }

  lemma ExistsLead(fs: FileSystem, p: string, q: string)
    requires LeadOf(p, q)
    ensures Exists(fs, p) == Exists(fs, q)
  {
    LeadResolves(p, q);
  }

  /** The recovery rename stays in the data file's directory, which the
      lead does not change. */
  lemma RecoveryRenameLead(fs: FileSystem, p: string, q: string)
    requires LeadOf(p, q)
    ensures Rename(fs, Temp(p), p) == Rename(fs, Temp(q), q)
  {
    LeadTemp(p, q);
    LeadPieces(p, q);
    LeadPieces(Temp(p), Temp(q));
    ParentWalkLead(fs, Temp(p), Temp(q), false);
    assert InPlace(Temp(p), p) && InPlace(Temp(q), q);
  }

  /** `renameNative` picks the same branch with a leading `/` on both paths
      as without. */
  lemma InPlaceSlashLead(a: string, b: string)
    requires StripLead(a) == a && StripLead(b) == b
    ensures InPlace("/" + a, "/" + b) <==> InPlace(a, b)
  {
    ParentSlash(a);
    ParentSlash(b);
    if |Split(a)| > 1 && |Split(b)| > 1 {
      assert ("/" + Parent(a))[1..] == Parent(a);
      assert ("/" + Parent(b))[1..] == Parent(b);
    }
  }

  /** A leading `/` on both paths changes nothing about a rename. */
  lemma RenameSlashLead(fs: FileSystem, a: string, b: string)
    requires StripLead(a) == a && StripLead(b) == b
    ensures Rename(fs, "/" + a, "/" + b) == Rename(fs, a, b)
  {
    InPlaceSlashLead(a, b);
    LeadPieces("/" + a, a);
    LeadPieces("/" + b, b);
    if InPlace(a, b) {
      ParentWalkLead(fs, "/" + a, a, false);
    } else {
      ParentWalkLead(fs, "/" + b, b, true);
      LeadResolves("/" + a, a);
    }
  }

  /** A tree with one file, `a/f`. */
  function OneFileTree(): (fs: FileSystem)
  {
    map[[] := Dir, ["a"] := Dir, ["a", "f"] := File("x")]
  }

  /** A leading `./` does change a rename: `renameNative` compares the
      directory parts as text (line 65), and `./g` has the directory part
      `.`, which is neither empty nor `./a`.  So `rename("a/f", "g")`
      renames the file inside `a`, while `rename("./a/f", "./g")` moves it
      to the root. */
  lemma DotLeadChangesRename()
    ensures Rename(OneFileTree(), "a/f", "g")
            == Step((OneFileTree() - {["a", "f"]})[["a", "g"] := File("x")], Ok(()))
    ensures Rename(OneFileTree(), "./a/f", "./g")
            == Step((OneFileTree() - {["a", "f"]})[["g"] := File("x")], Ok(()))
  {
    RenamedInPlace();
    RenamedToRoot();
  }

  lemma RenamedInPlace()
    ensures Rename(OneFileTree(), "a/f", "g")
            == Step((OneFileTree() - {["a", "f"]})[["a", "g"] := File("x")], Ok(()))
  {
    var fs := OneFileTree();
    SplitRenamed();
    assert InPlace("a/f", "g");
    assert GetDir(fs, [], "a", false) == Step(fs, Ok(["a"])) by {
      assert [] + ["a"] == ["a"];
    }
    assert GetFileAt(fs, ["a"], "f", false) == Step(fs, Ok(["a", "f"])) by {
      assert ["a"] + ["f"] == ["a", "f"];
    }
    assert ["a"] + ["g"] == ["a", "g"];
  }

  lemma RenamedToRoot()
    ensures Rename(OneFileTree(), "./a/f", "./g")
            == Step((OneFileTree() - {["a", "f"]})[["g"] := File("x")], Ok(()))
  {
    DotLeadMoves();
    MovedToRoot();
  }

  /** The directory parts `./a` and `.` differ, and `.` is not empty. */
  lemma DotLeadMoves()
    ensures !InPlace("./a/f", "./g")
  {
    SplitRenamed();
    DotG();
    LeadPieces("./a/f", "a/f");
  }

  lemma MovedToRoot()
    ensures MoveFile(OneFileTree(), "./a/f", "./g")
            == Step((OneFileTree() - {["a", "f"]})[["g"] := File("x")], Ok(()))
  {
    DotG();
    DotFileFound();
    MoveToRoot();
  }

  /** `./a/f` opens the file `a/f`. */
  lemma DotFileFound()
    ensures GetFile(OneFileTree(), "./a/f", false) == Step(OneFileTree(), Ok(["a", "f"]))
  {
    FileAtAF();
    GetFileLead(OneFileTree(), "./a/f", "a/f", false);
  }

  lemma MoveToRoot()
    ensures MoveTo(OneFileTree(), ["a", "f"], [], "g").fs
            == (OneFileTree() - {["a", "f"]})[["g"] := File("x")]
  {
    assert [] + ["g"] == ["g"];
    assert ["g"] !in OneFileTree();
  }

  lemma DotG()
    ensures Parent("./g") == "." && Last("./g") == "g" && StripLead(".") == ""
  {
    assert Split("g") == ["g"] by {
      assert "g"[1..] == "" && "g"[0] == 'g' && ['g'] + "" == "g";
    }
    var h := LeadSplit("./g", "g");
    assert StripLead(".") == "" by { assert "."[1..] == ""; }
  }

  lemma FileAtAF()
    ensures GetFile(OneFileTree(), "a/f", false) == Step(OneFileTree(), Ok(["a", "f"]))
  {
    var fs := OneFileTree();
    SplitRenamed();
    assert GetDir(fs, [], "a", true) == Step(fs, Ok(["a"])) by {
      assert [] + ["a"] == ["a"];
    }
    assert ["a"] + ["f"] == ["a", "f"];
  }

  lemma SplitRenamed()
    ensures Split("a/f") == ["a", "f"] && Parent("a/f") == "a" && Last("a/f") == "f"
    ensures Split("g") == ["g"] && Parent("g") == "" && Last("g") == "g"
  {
    assert Split("") == [""];
    assert Split("g") == ["g"] by {
      assert "g"[1..] == "" && "g"[0] == 'g' && ['g'] + "" == "g";
    }
    assert Split("f") == ["f"] by {
      assert "f"[1..] == "" && "f"[0] == 'f' && ['f'] + "" == "f";
    }
    assert Split("/f") == ["", "f"] by {
      assert "/f"[1..] == "f" && "/f"[0] == '/';
    }
    assert Split("a/f") == ["a", "f"] by {
      assert "a/f"[1..] == "/f" && "a/f"[0] == 'a' && ['a'] + "" == "a";
    }
  }

  /** Idempotence carries over to a plain path behind a leading `/` or
      `./`. */
  lemma EnsureFileDoesntExistIdempotentLead(fs: FileSystem, p: string, q: string)
    requires LeadOf(p, q) && Plain(q) && Ready(fs, q)
    ensures var r := EnsureFileDoesntExist(fs, p);
            EnsureFileDoesntExist(r.fs, p) == Step(r.fs, Ok(()))
  {
    LeadIgnored(p, q);
    EnsureFileDoesntExistIdempotent(fs, q);
  }

  /** `mkdirpNative` on a plain path not blocked by a file: every directory
      along the path is there afterwards, and nothing else changed. */
  lemma MkdirpPlain(fs: FileSystem, p: string)
    requires Plain(p) && NoFileAlong(fs, [], Loc(p))
    ensures Mkdirp(fs, p) == Step(fs + DirsAlong([], Loc(p)), Ok(()))
    ensures DirsExistAlong(Mkdirp(fs, p).fs, [], Loc(p))
  {
    JoinSplit(p);
    GetDirCreates(fs, [], Loc(p));
    PreparedDirsExist(fs, [], Loc(p));
  }

  // ---------------------------------------------------------------------
  // rename

  lemma JoinNonEmpty(parts: seq<string>)
    requires |parts| > 0 && parts[0] != ""
    ensures Join(parts) != ""
  {
    if |parts| > 1 {
      assert Join(parts) == parts[0] + "/" + Join(parts[1..]);
    }
  }

  /** The directory part of a plain path determines its directory pieces. */
  lemma ParentDetermines(p: string, q: string)
    requires Plain(p) && Plain(q) && Parent(p) == Parent(q)
    ensures DirsOf(p) == DirsOf(q)
  {
    if DirsOf(p) != [] {
      JoinNonEmpty(DirsOf(p));
      SplitJoin(DirsOf(p));
    }
    if DirsOf(q) != [] {
      JoinNonEmpty(DirsOf(q));
      SplitJoin(DirsOf(q));
    }
  }

  /** The entry a rename lands on, when it stays in the old directory. */
  function InPlaceTarget(oldPath: string, newPath: string): (target: Location)
  {
    DirsOf(oldPath) + [Last(newPath)]
  }

  /** The in-place branch opens the old file in its own directory. */
  lemma RenameFileOpens(fs: FileSystem, oldPath: string, newPath: string)
    requires Plain(oldPath) && DirsExistAlong(fs, [], DirsOf(oldPath)) && IsFile(fs, Loc(oldPath))
    ensures RenameFile(fs, oldPath, newPath)
            == Step(MoveTo(fs, Loc(oldPath), DirsOf(oldPath), Last(newPath)).fs, Ok(()))
  {
    if |Split(oldPath)| == 1 {
      SinglePiece(oldPath);
      assert Parent(oldPath) == Join(DirsOf(oldPath)) == "";
      assert Split("") == [""];
      assert GetDir(fs, [], "", false) == Step(fs, Ok([]));
      assert Last(oldPath) == oldPath;
      assert [] + [Last(oldPath)] == Loc(oldPath);
    } else {
      SeveralPieces(oldPath);
      GetDirLooksUp(fs, [], DirsOf(oldPath));
      assert [] + DirsOf(oldPath) == DirsOf(oldPath);
    }
  }

  /** `renameNative` when the new path has no directory part or the same
      one as the old path: the file moves, contents intact, to the new file
      name inside the OLD path's directory; a directory or the file itself
      in the way leaves the tree unchanged.  The completion is a success
      either way. */
  lemma RenameInPlace(fs: FileSystem, oldPath: string, newPath: string)
    requires Valid(fs) && Plain(oldPath) && IsFile(fs, Loc(oldPath)) && InPlace(oldPath, newPath)
    ensures var target := InPlaceTarget(oldPath, newPath);
            var r := Rename(fs, oldPath, newPath);
            && r.result == Ok(())
            && (Last(newPath) != "" && target != Loc(oldPath) && !IsDir(fs, target) ==>
                  r.fs == (fs - {Loc(oldPath)})[target := fs[Loc(oldPath)]])
            && (Last(newPath) == "" || target == Loc(oldPath) || IsDir(fs, target) ==> r.fs == fs)
  {
    EntryIsPrepared(fs, oldPath);
    RenameFileOpens(fs, oldPath, newPath);
  }

  /** When both paths are plain and share their directory part, the
      in-place target is exactly the new path. */
  lemma InPlaceTargetIsNew(oldPath: string, newPath: string)
    requires Plain(oldPath) && Plain(newPath) && Parent(oldPath) == Parent(newPath)
    ensures InPlaceTarget(oldPath, newPath) == Loc(newPath)
  {
    ParentDetermines(oldPath, newPath);
  }

  /** Two plain paths naming the same location are the same path. */
  lemma LocInjective(p: string, q: string)
    requires Loc(p) == Loc(q)
    ensures p == q
  {
    JoinSplit(p);
    JoinSplit(q);
  }

  /** A file is never one of the directories along a path whose way no
      file blocks. */
  lemma FileNotAlong(fs: FileSystem, file: Location, parts: seq<string>)
    requires IsFile(fs, file) && NoFileAlong(fs, [], parts)
    ensures file !in DirsAlong([], parts)
  {
    InDirsAlong([], parts, file);
  }

  /** The three steps of `_moveFile`: make the destination directory, open
      the old file, move it. */
  lemma MoveFileSteps(fs: FileSystem, oldPath: string, newPath: string, fs1: FileSystem, dir: Location, fs2: FileSystem, file: Location)
    requires GetDir(fs, [], Parent(newPath), true) == Step(fs1, Ok(dir))
    requires GetFile(fs1, oldPath, false) == Step(fs2, Ok(file))
    ensures file in fs2
    ensures MoveFile(fs, oldPath, newPath) == Step(MoveTo(fs2, file, dir, Last(newPath)).fs, Ok(()))
  {
  }

  /** After the new path's directories are made, the old file opens as
      before: its own directories are already there. */
  lemma OldFileStillOpens(fs: FileSystem, oldPath: string, m: FileSystem, dirs: seq<string>)
    requires Valid(fs) && Plain(oldPath) && IsFile(fs, Loc(oldPath))
    requires NoFileAlong(fs, [], dirs) && m == DirsAlong([], dirs)
    ensures IsFile(fs + m, Loc(oldPath)) && (fs + m)[Loc(oldPath)] == fs[Loc(oldPath)]
    ensures GetFile(fs + m, oldPath, false) == Step(fs + m, Ok(Loc(oldPath)))
  {
    EntryIsPrepared(fs, oldPath);
    DirsExistGrow(fs, m, DirsOf(oldPath));
    ExistingDirsAlong(fs + m, [], DirsOf(oldPath));
    FileNotAlong(fs, Loc(oldPath), dirs);
    GetFilePlain(fs + m, oldPath, false);
  }

  /** `renameNative` when the directory parts differ: the new path's
      directories are made first, then the file moves there under the new
      file name, contents intact. */
  lemma RenameMoves(fs: FileSystem, oldPath: string, newPath: string)
    requires Valid(fs) && Plain(oldPath) && Plain(newPath) && !InPlace(oldPath, newPath)
    requires IsFile(fs, Loc(oldPath)) && Ready(fs, newPath) && !IsDir(fs, Loc(newPath))
    ensures Rename(fs, oldPath, newPath)
            == Step((Prepared(fs, newPath) - {Loc(oldPath)})[Loc(newPath) := fs[Loc(oldPath)]], Ok(()))
  {
    if |Split(newPath)| == 1 {
      SinglePiece(newPath);
      assert false;
    }
    var fs1 := Prepared(fs, newPath);
    assert GetDir(fs, [], Parent(newPath), true) == Step(fs1, Ok(DirsOf(newPath))) by {
      SeveralPieces(newPath);
      GetDirCreates(fs, [], DirsOf(newPath));
      assert [] + DirsOf(newPath) == DirsOf(newPath);
    }
    OldFileStillOpens(fs, oldPath, DirsAlong([], DirsOf(newPath)), DirsOf(newPath));
    MoveFileSteps(fs, oldPath, newPath, fs1, DirsOf(newPath), fs1, Loc(oldPath));
    assert DirsOf(newPath) + [Last(newPath)] == Loc(newPath) && Last(newPath) != "" by {
      SeveralPieces(newPath);
    }
    assert !IsDir(fs1, Loc(newPath)) by {
      PreparedKeepsLoc(fs, newPath);
    }
    if Loc(newPath) == Loc(oldPath) {
      LocInjective(newPath, oldPath);
    }
  }

  // ---------------------------------------------------------------------
  // The code as written: `_renameFile` and `_moveFile`

  /** `_renameFile` as written walks the whole old path as directories, so
      it stops at the old file itself: renaming a file named by a plain path
      always fails and never changes the tree. */
  lemma RenameFileAsWrittenFails(fs: FileSystem, oldPath: string, newPath: string)
    requires Plain(oldPath) && IsFile(fs, Loc(oldPath))
    ensures RenameFileAsWritten(fs, oldPath, newPath).fs == fs
    ensures RenameFileAsWritten(fs, oldPath, newPath).result.Err?
  {
    JoinSplit(oldPath);
    GetDirLooksUp(fs, [], Loc(oldPath));
    DirsExistSnoc(fs, Loc(oldPath));
    assert [] + Loc(oldPath) == Loc(oldPath);
  }

  lemma NoFileAlongSnoc(fs: FileSystem, p: string)
    requires Ready(fs, p) && Loc(p) !in fs
    ensures NoFileAlong(fs, [], Loc(p))
  {
    forall i | 0 < i <= |Loc(p)|
      ensures !IsFile(fs, [] + Loc(p)[..i])
    {
      if i < |Loc(p)| {
        assert Loc(p)[..i] == DirsOf(p)[..i];
      } else {
        assert [] + Loc(p)[..i] == Loc(p);
      }
    }
  }

  /** `_moveFile` as written makes a directory of the whole new path and
      moves the file into it under the new file name: the new path ends up
      a directory, and the contents sit one level too deep. */
  lemma MoveFileAsWrittenNests(fs: FileSystem, oldPath: string, newPath: string)
    requires Valid(fs) && Plain(oldPath) && Plain(newPath)
    requires IsFile(fs, Loc(oldPath)) && Ready(fs, newPath) && Loc(newPath) !in fs
    ensures var r := MoveFileAsWritten(fs, oldPath, newPath);
            var nested := Loc(newPath) + [Last(newPath)];
            && r.result == Ok(())
            && IsDir(r.fs, Loc(newPath))
            && nested in r.fs && r.fs[nested] == fs[Loc(oldPath)]
            && Loc(oldPath) !in r.fs
  {
    var nested := Loc(newPath) + [Last(newPath)];
    var m := DirsAlong([], Loc(newPath));
    var fs1 := fs + m;
    WholePathMade(fs, newPath);
    assert GetFile(fs1, oldPath, false) == Step(fs1, Ok(Loc(oldPath)))
        && fs1[Loc(oldPath)] == fs[Loc(oldPath)] by {
      NoFileAlongSnoc(fs, newPath);
      OldFileStillOpens(fs, oldPath, m, Loc(newPath));
    }
    MoveFileAsWrittenSteps(fs, oldPath, newPath, fs1, Loc(newPath), fs1, Loc(oldPath));
    assert nested != Loc(oldPath) && Loc(newPath) != Loc(oldPath) && Loc(newPath) != nested;
  }

  /** Walking the whole of a missing plain path with `create` set makes
      every piece a directory, the last one included, and nothing yet sits
      below that last directory. */
  lemma WholePathMade(fs: FileSystem, p: string)
    requires Valid(fs) && Plain(p) && Ready(fs, p) && Loc(p) !in fs
    ensures var fs1 := fs + DirsAlong([], Loc(p));
            && GetDir(fs, [], p, true) == Step(fs1, Ok(Loc(p)))
            && IsDir(fs1, Loc(p)) && Loc(p) + [Last(p)] !in fs1 && Last(p) != ""
  {
    WholePathWalk(fs, p);
    WholePathShape(fs, p);
  }

  lemma WholePathWalk(fs: FileSystem, p: string)
    requires Plain(p) && Ready(fs, p) && Loc(p) !in fs
    ensures GetDir(fs, [], p, true) == Step(fs + DirsAlong([], Loc(p)), Ok(Loc(p)))
  {
    NoFileAlongSnoc(fs, p);
    JoinSplit(p);
    GetDirCreates(fs, [], Loc(p));
    assert [] + Loc(p) == Loc(p);
  }

  lemma WholePathShape(fs: FileSystem, p: string)
    requires Valid(fs) && Plain(p) && Loc(p) !in fs
    ensures var fs1 := fs + DirsAlong([], Loc(p));
            IsDir(fs1, Loc(p)) && Loc(p) + [Last(p)] !in fs1 && Last(p) != ""
  {
    var m := DirsAlong([], Loc(p));
    var nested := Loc(p) + [Last(p)];
    assert nested !in fs + m by {
      assert Below(Loc(p), nested);
      AbsentHasNoDescendants(fs, Loc(p), nested);
      InDirsAlong([], Loc(p), nested);
    }
    assert IsDir(fs + m, Loc(p)) by {
      assert [] + Loc(p)[..|Loc(p)|] == Loc(p);
      InDirsAlong([], Loc(p), Loc(p));
    }
    assert Last(p) != "" by {
      assert Split(p)[|Split(p)| - 1] != "";
    }
  }

  /** The three steps of `_moveFile` as written. */
  lemma MoveFileAsWrittenSteps(fs: FileSystem, oldPath: string, newPath: string, fs1: FileSystem, dir: Location, fs2: FileSystem, file: Location)
    requires GetDir(fs, [], newPath, true) == Step(fs1, Ok(dir))
    requires GetFile(fs1, oldPath, false) == Step(fs2, Ok(file))
    ensures file in fs2
    ensures MoveFileAsWritten(fs, oldPath, newPath) == Step(MoveTo(fs2, file, dir, Last(newPath)).fs, Ok(()))
  {
  }

  // ---------------------------------------------------------------------
  // ensureDatafileIntegrity

  /** The temporary sibling of a plain path is plain, lives in the same
      directory, and is named after the last piece with `~` appended. */
  lemma TempPlain(p: string)
    requires Plain(p)
    ensures Plain(Temp(p)) && DirsOf(Temp(p)) == DirsOf(p)
    ensures Loc(Temp(p)) == DirsOf(p) + [Last(p) + "~"]
    ensures Parent(Temp(p)) == Parent(p) && Last(Temp(p)) == Last(p) + "~"
    ensures Loc(Temp(p)) != Loc(p)
  {
    assert Plain(Temp(p)) && Loc(Temp(p)) == ExtendLast(Loc(p), '~') by {
      TempStaysPlain(p);
    }
    var parts := Split(Temp(p));
    assert parts[..|parts| - 1] + [parts[|parts| - 1]] == parts;
    assert Loc(p)[..|Loc(p)| - 1] + [Loc(p)[|Loc(p)| - 1]] == Loc(p);
    assert |Last(p) + "~"| != |Last(p)|;
  }

  /** Adding `~` to the last piece keeps every piece a plain name. */
  lemma TempStaysPlain(p: string)
    requires Plain(p)
    ensures Plain(Temp(p)) && Loc(Temp(p)) == ExtendLast(Loc(p), '~')
  {
    SplitAppend(p, '~');
    var ps := Split(p);
    var qs := Split(Temp(p));
    forall i | 0 <= i < |qs|
      ensures qs[i] != "" && qs[i][0] != '.' && '/' !in qs[i]
    {
      if i < |ps| - 1 {
        assert qs[i] == ps[i];
      } else {
        assert qs[i] == ps[i] + "~" && qs[i][0] == ps[i][0];
      }
    }
  }

  /** The data file exists: nothing to do, success, tree unchanged,
      whether or not the temporary file exists.  On any path this holds
      when the data file opens as a file; on a plain path it holds for any
      entry there, a directory included. */
  lemma IntegrityWhenPresent(fs: FileSystem, p: string)
    requires Valid(fs)
    ensures (Plain(p) && Loc(p) in fs) || GetFile(fs, p, false).result.Ok? ==>
              EnsureDatafileIntegrity(fs, p) == Step(fs, Ok(()))
  {
    if GetFile(fs, p, false).result.Ok? {
      GetFileStaysPut(fs, p);
    } else if Plain(p) && Loc(p) in fs {
      EntryIsPrepared(fs, p);
      ExistsPlain(fs, p);
    }
  }

  /** Neither the data file nor its temporary sibling exists (first run):
      an empty data file is created, along with its directories. */
  lemma IntegrityFreshStart(fs: FileSystem, p: string)
    requires Plain(p) && Ready(fs, p) && Loc(p) !in fs && Loc(Temp(p)) !in fs
    ensures EnsureDatafileIntegrity(fs, p) == Step(Prepared(fs, p)[Loc(p) := File("")], Ok(()))
  {
    var fs1 := Prepared(fs, p);
    TempPlain(p);
    ExistsPlain(fs, p);
    PreparedIsStable(fs, p, Dir);
    PreparedKeepsLoc(fs, Temp(p));
    ExistsPlain(fs1, Temp(p));
    PreparedKeepsLoc(fs, p);
    WriteFilePlain(fs1, p, "", false);
  }

  /** The data file is missing but its temporary sibling holds the last
      complete write: the sibling is renamed onto the data file, which then
      holds the sibling's former contents, and the sibling is gone. */
  lemma IntegrityRecovers(fs: FileSystem, p: string)
    requires Valid(fs) && Plain(p) && Loc(p) !in fs && IsFile(fs, Loc(Temp(p)))
    ensures EnsureDatafileIntegrity(fs, p)
            == Step((fs - {Loc(Temp(p))})[Loc(p) := fs[Loc(Temp(p))]], Ok(()))
  {
    TempPlain(p);
    assert EnsureDatafileIntegrity(fs, p) == Rename(fs, Temp(p), p) by {
      EntryIsPrepared(fs, Temp(p));
      ExistsPlain(fs, p);
      ExistsPlain(fs, Temp(p));
      RecoveryBranch(fs, p);
    }
    assert Rename(fs, Temp(p), p) == Step(MoveTo(fs, Loc(Temp(p)), DirsOf(p), Last(p)).fs, Ok(())) by {
      EntryIsPrepared(fs, Temp(p));
      RenameFileOpens(fs, Temp(p), p);
    }
    assert DirsOf(p) + [Last(p)] == Loc(p) && Last(p) != "" by {
      if |Split(p)| == 1 {
        SinglePiece(p);
        assert Split(p)[0] == p;
      } else {
        SeveralPieces(p);
      }
    }
  }

  /** With the data file missing and the temporary file present, the
      reconciliation is the rename of the temporary file onto the data file. */
  lemma RecoveryBranch(fs: FileSystem, p: string)
    requires Exists(fs, p) == Probe(fs, false) && Exists(fs, Temp(p)) == Probe(fs, true)
    ensures EnsureDatafileIntegrity(fs, p) == Rename(fs, Temp(p), p)
  {
  }

  /** The data file is missing and a directory stands where the temporary
      file would be: the recovery rename cannot open it as a file, and
      reports the failure without changing the tree. */
  lemma IntegrityTempIsDirectory(fs: FileSystem, p: string)
    requires Valid(fs) && Plain(p) && Loc(p) !in fs && IsDir(fs, Loc(Temp(p)))
    ensures EnsureDatafileIntegrity(fs, p) == Step(fs, Err(IOFailure))
  {
    TempPlain(p);
    EntryIsPrepared(fs, Temp(p));
    ExistingDirsAlong(fs, [], DirsOf(p));
    ExistsPlain(fs, p);
    ExistsPlain(fs, Temp(p));
    if |Split(p)| == 1 {
      SinglePiece(p);
      assert Split("") == [""];
      assert GetDir(fs, [], "", false) == Step(fs, Ok([]));
    } else {
      SeveralPieces(p);
      GetDirLooksUp(fs, [], DirsOf(p));
      assert [] + DirsOf(p) == DirsOf(p);
    }
  }
}
