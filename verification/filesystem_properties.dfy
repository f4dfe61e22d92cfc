/**
  Properties of the filesystem service across calls: every operation keeps
  the disk valid, a successful write can be read back and invalidates older
  snapshots, a move leaves the source gone and the target present, a copy
  leaves its source alone, and the existence checks answer exactly when the
  resource is (or is not) there.

  Many of the statements are about a `Healthy` disk: a valid tree with no
  read fault anywhere, so that every stat read sees the tree as it is.
*/
module FileSystemProperties {
  import opened Wrappers
  import opened FileTree
  import opened Errors
  import opened StatTree
  import opened FsOptions
  import opened Disk
  import opened FileSystemNode

  predicate Healthy(fs: FsState) {
    Valid(fs) && fs.faults == map[]
  }

  /** `q` is left alone between two trees: what was there is still there, and nothing new appears. */
  predicate Beside(before: Node, after: Node, q: Path) {
    && (Resolve(before, q).Found? ==> Resolve(after, q) == Resolve(before, q))
    && (Resolve(after, q).Found? ==> Resolve(before, q).Found?)
  }

  /** Creating the directories along `d` leaves every path that is not an ancestor of `d` alone. */
  lemma MkdirsBeside(n: Node, d: Path, now: nat, q: Path)
    requires Mkdirs(n, d, now).Success? && !(q <= d)
    ensures Beside(n, Mkdirs(n, d, now).value, q)
  {
    MkdirsFrame(n, d, now, q);
  }

  /** On a healthy disk a stat read answers from the tree: found, not found, or ENOTDIR. */
  lemma StatOnHealthy(fs: FsState, p: Path, depth: nat)
    requires Healthy(fs)
    ensures Resolve(fs.root, p).Found? ==>
      DoGetStat(fs, p, depth) == Success(Some(StatOf(Resolve(fs.root, p).node, p, depth)))
    ensures Resolve(fs.root, p).Absent? <==> DoGetStat(fs, p, depth) == Success(None)
    ensures Resolve(fs.root, p).NotADirectory? <==> DoGetStat(fs, p, depth) == Failure(OsError(ENOTDIR))
  {
    if Resolve(fs.root, p).Found? {
      DoGetStatIsStatOf(fs, p, depth);
    }
  }

  /** `getFileStat` on a healthy disk is the reference stat, or "not found" exactly when absent. */
  lemma GetFileStatOnHealthy(fs: FsState, p: Path)
    requires Healthy(fs)
    ensures Resolve(fs.root, p).Found? ==> GetFileStat(fs, p) == Success(StatOf(Resolve(fs.root, p).node, p, 1))
    ensures Resolve(fs.root, p).Absent? <==> GetFileStat(fs, p) == Failure(NotFound(p))
  {
    StatOnHealthy(fs, p, 1);
  }

  /**
    `getEncoding` on a healthy disk: the configured encoding for a file,
    "is a directory" for a directory, "not found" exactly for a missing
    path, and ENOTDIR for a path through a file.
  */
  lemma GetEncodingOnHealthy(fs: FsState, cfg: Config, p: Path)
    requires Healthy(fs)
    ensures Resolve(fs.root, p).Found? && Resolve(fs.root, p).node.File? ==> GetEncoding(fs, cfg, p) == Success(cfg.encoding)
    ensures DirAt(fs.root, p) ==> GetEncoding(fs, cfg, p) == Failure(IsADirectory(p))
    ensures Resolve(fs.root, p).Absent? <==> GetEncoding(fs, cfg, p) == Failure(NotFound(p))
    ensures Resolve(fs.root, p).NotADirectory? ==> GetEncoding(fs, cfg, p) == Failure(OsError(ENOTDIR))
  {
    StatOnHealthy(fs, p, 0);
  }

  // ----- Every operation keeps the disk valid -----

  lemma SetContentKeepsValid(fs: FsState, file: Stat, content: string, now: nat)
    requires Valid(fs) && SetContent(fs, file, content, now).Success?
    ensures Valid(SetContent(fs, file, content, now).value.state)
    ensures SetContent(fs, file, content, now).value.state.faults == fs.faults
  {
    WriteFileWellFormed(fs.root, file.path, content, now);
  }

  lemma CopyKeepsValid(fs: FsState, cfg: Config, s: Path, t: Path, opts: CallOptions, now: nat)
    requires Valid(fs) && Copy(fs, cfg, s, t, opts, now).Success?
    ensures Valid(Copy(fs, cfg, s, t, opts, now).value.state)
    ensures Copy(fs, cfg, s, t, opts, now).value.state.faults == fs.faults
  {
    CopyTreeWellFormed(fs.root, s, t, now);
  }

  lemma DeleteKeepsValid(fs: FsState, cfg: Config, p: Path, opts: CallOptions)
    requires Valid(fs) && Delete(fs, cfg, p, opts).Success?
    ensures Valid(Delete(fs, cfg, p, opts).value)
    ensures Delete(fs, cfg, p, opts).value.faults == fs.faults
  {
    PutWellFormed(fs.root, p, None);
  }

  lemma MoveAsWrittenKeepsValid(fs: FsState, cfg: Config, s: Path, t: Path, opts: CallOptions, now: nat)
    requires Valid(fs) && MoveAsWritten(fs, cfg, s, t, opts, now).Success?
    ensures Valid(MoveAsWritten(fs, cfg, s, t, opts, now).value.state)
    ensures MoveAsWritten(fs, cfg, s, t, opts, now).value.state.faults == fs.faults
  {
    var src := DoGetStat(fs, s, 1).value;
    var tgt := DoGetStat(fs, t, 1).value;
    var overwrite := DoGetOverwrite(cfg, opts);
    if EmptyOntoEmpty(fs, overwrite, s, src, t, tgt) {
      UtimesWellFormed(fs.root, t, now);
      RmdirWellFormed(Utimes(fs.root, t, now).value, s);
    } else if BothDirectories(overwrite, src, tgt) && !MayHaveChildren(fs, t) && MayHaveChildren(fs, s) {
      var o := CallOptions(None, Some(true), None, None, None);
      CopyKeepsValid(fs, cfg, s, t, o, now);
      DeleteKeepsValid(Copy(fs, cfg, s, t, o, now).value.state, cfg, s, NoOptions);
    } else {
      RenameWellFormed(fs.root, s, t, overwrite, now);
    }
  }

  lemma MoveKeepsValid(fs: FsState, cfg: Config, s: Path, t: Path, opts: CallOptions, now: nat)
    requires Valid(fs) && Move(fs, cfg, s, t, opts, now).Success?
    ensures Valid(Move(fs, cfg, s, t, opts, now).value.state)
    ensures Move(fs, cfg, s, t, opts, now).value.state.faults == fs.faults
  {
    if Move(fs, cfg, s, t, opts, now) == MoveAsWritten(fs, cfg, s, t, opts, now) {
      MoveAsWrittenKeepsValid(fs, cfg, s, t, opts, now);
    }
  }

  lemma CreateFileKeepsValid(fs: FsState, p: Path, opts: CallOptions, now: nat)
    requires Valid(fs) && CreateFile(fs, p, opts, now).Success?
    ensures Valid(CreateFile(fs, p, opts, now).value.state)
    ensures CreateFile(fs, p, opts, now).value.state.faults == fs.faults
  {
    var parent := if p == [] then [] else Parent(p);
    var root1 := if DoGetStat(fs, parent, 0).value.None? then Mkdirs(fs.root, parent, now).value else fs.root;
    if DoGetStat(fs, parent, 0).value.None? {
      MkdirsWellFormed(fs.root, parent, now);
    }
    WriteFileWellFormed(root1, p, DoGetContent(opts), now);
  }

  lemma CreateFolderKeepsValid(fs: FsState, p: Path, now: nat)
    requires Valid(fs) && CreateFolder(fs, p, now).Success?
    ensures Valid(CreateFolder(fs, p, now).value.state)
    ensures CreateFolder(fs, p, now).value.state.faults == fs.faults
  {
    MkdirsWellFormed(fs.root, p, now);
  }

  lemma TouchFileKeepsValid(fs: FsState, p: Path, now: nat)
    requires Valid(fs) && TouchFile(fs, p, now).Success?
    ensures Valid(TouchFile(fs, p, now).value.state)
    ensures TouchFile(fs, p, now).value.state.faults == fs.faults
  {
    if DoGetStat(fs, p, 0).value.None? {
      CreateFileKeepsValid(fs, p, NoOptions, now);
    } else {
      UtimesWellFormed(fs.root, p, now);
    }
  }

  /**
    `createFolder` leaves alone every path that is not an ancestor of the new
    folder; an existing ancestor stays a directory.
  */
  lemma CreateFolderFrame(fs: FsState, p: Path, now: nat, q: Path)
    requires CreateFolder(fs, p, now).Success?
    ensures !(q <= p) ==> Beside(fs.root, CreateFolder(fs, p, now).value.state.root, q)
    ensures q < p ==> DirAt(CreateFolder(fs, p, now).value.state.root, q)
  {
    MkdirsFrame(fs.root, p, now, q);
    if q < p {
      ResolveAncestorIsDir(CreateFolder(fs, p, now).value.state.root, p, q);
    }
  }

  /**
    `createFile` leaves alone every path beside the new file; the parent
    directories it creates are ancestors of the file, so they are not beside it.
  */
  lemma CreateFileFrame(fs: FsState, p: Path, opts: CallOptions, now: nat, q: Path)
    requires CreateFile(fs, p, opts, now).Success?
    requires !(q <= p) && !(p <= q)
    ensures Beside(fs.root, CreateFile(fs, p, opts, now).value.state.root, q)
  {
    var parent := if p == [] then [] else Parent(p);
    var root1 := if DoGetStat(fs, parent, 0).value.None? then Mkdirs(fs.root, parent, now).value else fs.root;
    assert p != [];
    if DoGetStat(fs, parent, 0).value.None? {
      assert Parent(p) <= p;
      MkdirsBeside(fs.root, parent, now, q);
    }
    PutElsewhere(root1, p, Some(File(now, |DoGetContent(opts)|, DoGetContent(opts))), q);
  }

  /** `touchFile` leaves alone every path beside the touched one. */
  lemma TouchFileFrame(fs: FsState, p: Path, now: nat, q: Path)
    requires TouchFile(fs, p, now).Success?
    requires !(q <= p) && !(p <= q)
    ensures Beside(fs.root, TouchFile(fs, p, now).value.state.root, q)
  {
    if DoGetStat(fs, p, 0).value.None? {
      CreateFileFrame(fs, p, NoOptions, now, q);
    } else {
      PutElsewhere(fs.root, p, Some(WithMtime(Resolve(fs.root, p).node, now)), q);
    }
  }

  // ----- setContent -----

  /** What `setContent` wrote is what `resolveContent` reads back, with the new timestamp and size. */
  lemma SetContentThenRead(fs: FsState, file: Stat, content: string, now: nat)
    requires SetContent(fs, file, content, now).Success?
    requires file.path !in fs.faults
    ensures ResolveContent(SetContent(fs, file, content, now).value.state, file.path) ==
      Success(Contents(FileStat(file.path, now, |content|), content))
  {
    var p := file.path;
    var after := SetContent(fs, file, content, now).value.state;
    assert OsStat(fs, p).Success?;
    assert OsStat(after, p) == Success(File(now, |content|, content));
    assert DoGetStat(after, p, 0) == Success(Some(FileStat(p, now, |content|)));
  }

  /**
    Optimistic concurrency: once a write has landed with a new timestamp, a
    second write made from the old snapshot is rejected as out of sync.
  */
  lemma StaleSnapshotRejected(fs: FsState, file: Stat, first: string, second: string, now: nat, later: nat)
    requires SetContent(fs, file, first, now).Success?
    requires file.lastModification != now
    ensures SetContent(SetContent(fs, file, first, now).value.state, file, second, later) ==
      Failure(OutOfSync(file.path, Timestamp))
  {
    var p := file.path;
    var after := SetContent(fs, file, first, now).value.state;
    assert OsStat(fs, p).Success?;
    assert OsStat(after, p) == Success(File(now, |first|, first));
    assert DoGetStat(after, p, 0) == Success(Some(FileStat(p, now, |first|)));
  }

  /** The stat a write resolves with is a valid snapshot: writing again from it succeeds. */
  lemma FreshSnapshotAccepted(fs: FsState, file: Stat, first: string, second: string, now: nat, later: nat)
    requires SetContent(fs, file, first, now).Success?
    ensures var r := SetContent(fs, file, first, now).value;
      && r.stat.Some?
      && SetContent(r.state, r.stat.value, second, later).Success?
  {
    var p := file.path;
    var r := SetContent(fs, file, first, now).value;
    var x := File(now, |first|, first);
    assert OsStat(fs, p).Success?;
    PutHere(fs.root, p, Some(x));
    PutAbove(fs.root, p, Some(x), Parent(p));
    assert OsStat(r.state, p) == Success(x);
    assert DoGetStat(r.state, p, 0) == Success(Some(FileStat(p, now, |first|)));
    var y := File(later, |second|, second);
    var root2 := Put(r.state.root, p, Some(y));
    PutHere(r.state.root, p, Some(y));
    assert WriteFile(r.state.root, p, second, later) == Success(root2);
    assert OsStat(FsState(root2, fs.faults), p) == Success(y);
    assert DoGetStat(FsState(root2, fs.faults), p, 1).Success?;
  }

  /** A write changes the written file and nothing beside it. */
  lemma SetContentFrame(fs: FsState, file: Stat, content: string, now: nat, q: Path)
    requires SetContent(fs, file, content, now).Success?
    requires !(q <= file.path) && !(file.path <= q)
    ensures Resolve(SetContent(fs, file, content, now).value.state.root, q) == Resolve(fs.root, q)
  {
    PutElsewhere(fs.root, file.path, Some(File(now, |content|, content)), q);
  }

  // ----- move -----

  /**
    Without overwrite, a move from an existing source rejects with "already
    exists" exactly when the target exists.
  */
  lemma MoveOverwriteCheck(fs: FsState, cfg: Config, s: Path, t: Path, opts: CallOptions, now: nat)
    requires Healthy(fs) && Resolve(fs.root, s).Found?
    requires !DoGetOverwrite(cfg, opts)
    ensures Move(fs, cfg, s, t, opts, now) == Failure(AlreadyExists(t)) <==> Resolve(fs.root, t).Found?
  {
    StatOnHealthy(fs, s, 1);
    StatOnHealthy(fs, t, 1);
    if !Resolve(fs.root, t).Found? {
      var tgt := DoGetStat(fs, t, 1);
      assert !(tgt.Success? && tgt.value.Some?);
      assert Move(fs, cfg, s, t, opts, now) == MoveAsWritten(fs, cfg, s, t, opts, now);
      if tgt.Success? {
        RenameBranch(fs, cfg, s, t, opts, now);
      }
    }
  }

  /** When the target is not found, `move` renames, so it can only fail with an errno error. */
  lemma RenameBranch(fs: FsState, cfg: Config, s: Path, t: Path, opts: CallOptions, now: nat)
    requires DoGetStat(fs, s, 1).Success? && DoGetStat(fs, s, 1).value.Some?
    requires DoGetStat(fs, t, 1) == Success(None)
    ensures var r := MoveAsWritten(fs, cfg, s, t, opts, now);
      r.Failure? ==> IsErrnoException(r.error)
  {
  }

  /** On success of any of the three branches, the source is gone and the target is there. */
  lemma MoveRelocates(fs: FsState, cfg: Config, s: Path, t: Path, opts: CallOptions, now: nat)
    requires Healthy(fs) && s != t
    requires Move(fs, cfg, s, t, opts, now).Success?
    ensures Resolve(Move(fs, cfg, s, t, opts, now).value.state.root, s).Absent?
    ensures Resolve(Move(fs, cfg, s, t, opts, now).value.state.root, t).Found?
  {
    StatOnHealthy(fs, s, 1);
    StatOnHealthy(fs, t, 1);
    var src := DoGetStat(fs, s, 1).value;
    var tgt := DoGetStat(fs, t, 1).value;
    var overwrite := DoGetOverwrite(cfg, opts);
    if EmptyOntoEmpty(fs, overwrite, s, src, t, tgt) {
      MoveEmptyBranch(fs, s, t, now);
    } else if BothDirectories(overwrite, src, tgt) && !MayHaveChildren(fs, t) && MayHaveChildren(fs, s) {
      MayHaveChildrenCases(fs, t);
      CopyBranchRelocates(fs, cfg, s, t, now);
    } else {
      RenameRelocates(fs.root, s, t, overwrite, now);
    }
  }

  /** The second branch of `move`: copying onto an empty directory and deleting the source relocates it. */
  lemma CopyBranchRelocates(fs: FsState, cfg: Config, s: Path, t: Path, now: nat)
    requires Healthy(fs) && s != t && Resolve(fs.root, s).Found?
    requires DirAt(fs.root, t) && Resolve(fs.root, t).node.entries == []
    requires var o := CallOptions(None, Some(true), None, None, None);
      && Copy(fs, cfg, s, t, o, now).Success?
      && Delete(Copy(fs, cfg, s, t, o, now).value.state, cfg, s, NoOptions).Success?
    ensures var o := CallOptions(None, Some(true), None, None, None);
      var after := Delete(Copy(fs, cfg, s, t, o, now).value.state, cfg, s, NoOptions).value;
      Resolve(after.root, s).Absent? && Resolve(after.root, t).Found?
  {
    var n := fs.root;
    var o := CallOptions(None, Some(true), None, None, None);
    var copied := Copy(fs, cfg, s, t, o, now).value;
    if t < s {
      NothingBelowEmpty(n, t, s);
    }
    assert t != [];
    var n1 := Mkdirs(n, Parent(t), now).value;
    if Resolve(n1, t).Found? {
      PutHere(n1, t, Some(Merge(Resolve(n, s).node, Resolve(n1, t).node, now).value));
    } else {
      PutHere(n1, t, Some(Restamp(Resolve(n, s).node, now)));
    }
    assert Resolve(copied.state.root, t).Found?;
    PutElsewhere(copied.state.root, s, None, t);
  }

  /** The third branch of `move`: a rename from one path to another relocates the node. */
  lemma RenameRelocates(n: Node, s: Path, t: Path, clobber: bool, now: nat)
    requires s != t && Rename(n, s, t, clobber, now).Success?
    ensures Resolve(Rename(n, s, t, clobber, now).value, s).Absent?
    ensures Resolve(Rename(n, s, t, clobber, now).value, t).Found?
  {
    var n1 := Mkdirs(n, Parent(t), now).value;
    PrepareRelocate(n, s, t, now);
    if t < s {
      ResolveAncestorIsDir(n1, s, t);
      NothingBelowEmpty(n1, t, s);
    }
    PutHere(n1, s, None);
    PutHere(Put(n1, s, None), t, Some(Resolve(n, s).node));
    PutElsewhere(Put(n1, s, None), t, Some(Resolve(n, s).node), s);
  }

  /**
    The first branch of `move`: both are empty directories, the target is
    touched and the source removed.
  */
  lemma MoveEmptyBranch(fs: FsState, s: Path, t: Path, now: nat)
    requires Healthy(fs) && s != t
    requires DirAt(fs.root, s) && Resolve(fs.root, s).node.entries == []
    requires DirAt(fs.root, t) && Resolve(fs.root, t).node.entries == []
    ensures var touched := Utimes(fs.root, t, now).value;
      && Rmdir(touched, s).Success?
      && Resolve(Rmdir(touched, s).value, s).Absent?
      && Resolve(Rmdir(touched, s).value, t) == Found(Dir(now, []))
      && DoGetStat(FsState(Rmdir(touched, s).value, fs.faults), t, 1).Success?
  {
    var n := fs.root;
    if s < t {
      NothingBelowEmpty(n, s, t);
    }
    if t < s {
      NothingBelowEmpty(n, t, s);
    }
    if t != [] {
      ResolveAncestorIsDir(n, t, Parent(t));
    }
    var x := Dir(now, []);
    var touched := Put(n, t, Some(x));
    PutHere(n, t, Some(x));
    if t != [] {
      PutElsewhere(n, t, Some(x), s);
    }
    ResolveAncestorIsDir(touched, s, Parent(s));
    var after := Put(touched, s, None);
    assert Rmdir(touched, s) == Success(after);
    PutHere(touched, s, None);
    PutElsewhere(touched, s, None, t);
    UtimesWellFormed(n, t, now);
    RmdirWellFormed(touched, s);
    StatOnHealthy(FsState(after, fs.faults), t, 1);
  }

  /**
    Moving an empty directory onto an empty directory with overwrite leaves
    one empty directory at the target, touched, and none at the source.
  */
  lemma MoveEmptyOntoEmpty(fs: FsState, cfg: Config, s: Path, t: Path, opts: CallOptions, now: nat)
    requires Healthy(fs) && s != t && DoGetOverwrite(cfg, opts)
    requires DirAt(fs.root, s) && Resolve(fs.root, s).node.entries == []
    requires DirAt(fs.root, t) && Resolve(fs.root, t).node.entries == []
    ensures Move(fs, cfg, s, t, opts, now).Success?
    ensures Resolve(Move(fs, cfg, s, t, opts, now).value.state.root, s).Absent?
    ensures Resolve(Move(fs, cfg, s, t, opts, now).value.state.root, t) == Found(Dir(now, []))
  {
    StatOnHealthy(fs, s, 1);
    StatOnHealthy(fs, t, 1);
    MayHaveChildrenCases(fs, s);
    MayHaveChildrenCases(fs, t);
    MoveEmptyBranch(fs, s, t, now);
  }

  /**
    As written, moving an empty directory onto itself with overwrite takes
    the empty-directories branch: the directory is touched and then removed,
    and the move resolves as if it had succeeded.
  */
  lemma MoveOntoItselfRemovesAsWritten(fs: FsState, cfg: Config, s: Path, opts: CallOptions, now: nat)
    requires Healthy(fs) && s != [] && DoGetOverwrite(cfg, opts)
    requires DirAt(fs.root, s) && Resolve(fs.root, s).node.entries == []
    ensures MoveAsWritten(fs, cfg, s, s, opts, now).Success?
    ensures Resolve(MoveAsWritten(fs, cfg, s, s, opts, now).value.state.root, s).Absent?
  {
    var n := fs.root;
    StatOnHealthy(fs, s, 1);
    MayHaveChildrenCases(fs, s);
    ResolveAncestorIsDir(n, s, Parent(s));
    var touched := Put(n, s, Some(Dir(now, [])));
    PutHere(n, s, Some(Dir(now, [])));
    ResolveAncestorIsDir(touched, s, Parent(s));
    var after := Put(touched, s, None);
    assert Rmdir(touched, s) == Success(after);
    PutHere(touched, s, None);
    UtimesWellFormed(n, s, now);
    RmdirWellFormed(touched, s);
    StatOnHealthy(FsState(after, fs.faults), s, 1);
  }

  /** Corrected, the same call succeeds and the empty directory stays where it was. */
  lemma MoveOntoItselfKeepsDirectory(fs: FsState, cfg: Config, s: Path, opts: CallOptions, now: nat)
    requires Healthy(fs) && s != [] && DoGetOverwrite(cfg, opts)
    requires DirAt(fs.root, s) && Resolve(fs.root, s).node.entries == []
    ensures Move(fs, cfg, s, s, opts, now).Success?
    ensures Resolve(Move(fs, cfg, s, s, opts, now).value.state.root, s) == Resolve(fs.root, s)
  {
    StatOnHealthy(fs, s, 1);
    MayHaveChildrenCases(fs, s);
  }

  /** Corrected, moving any path onto itself leaves the file system as it was. */
  lemma MoveOntoItselfKeepsState(fs: FsState, cfg: Config, s: Path, opts: CallOptions, now: nat)
    requires Move(fs, cfg, s, s, opts, now).Success?
    ensures Move(fs, cfg, s, s, opts, now).value.state == fs
  {
  }

  /** Moving to a path that does not exist renames: the target holds the source node unchanged. */
  lemma MoveToFreshPath(fs: FsState, cfg: Config, s: Path, t: Path, opts: CallOptions, now: nat)
    requires Healthy(fs) && Resolve(fs.root, t).Absent?
    requires Move(fs, cfg, s, t, opts, now).Success?
    ensures Resolve(fs.root, s).Found?
    ensures Resolve(Move(fs, cfg, s, t, opts, now).value.state.root, t) == Found(Resolve(fs.root, s).node)
  {
    var n := fs.root;
    StatOnHealthy(fs, s, 1);
    StatOnHealthy(fs, t, 1);
    var n1 := Mkdirs(n, Parent(t), now).value;
    PrepareRelocate(n, s, t, now);
    PutHere(Put(n1, s, None), t, Some(Resolve(n, s).node));
  }

  /** A successful move changes nothing beside its source and target. */
  lemma MoveFrame(fs: FsState, cfg: Config, s: Path, t: Path, opts: CallOptions, now: nat, q: Path)
    requires Move(fs, cfg, s, t, opts, now).Success?
    requires !(q <= s) && !(s <= q) && !(q <= t) && !(t <= q)
    ensures Beside(fs.root, Move(fs, cfg, s, t, opts, now).value.state.root, q)
  {
    if Move(fs, cfg, s, t, opts, now) == MoveAsWritten(fs, cfg, s, t, opts, now) {
      MoveAsWrittenFrame(fs, cfg, s, t, opts, now, q);
    }
  }

  lemma MoveAsWrittenFrame(fs: FsState, cfg: Config, s: Path, t: Path, opts: CallOptions, now: nat, q: Path)
    requires MoveAsWritten(fs, cfg, s, t, opts, now).Success?
    requires !(q <= s) && !(s <= q) && !(q <= t) && !(t <= q)
    ensures Beside(fs.root, MoveAsWritten(fs, cfg, s, t, opts, now).value.state.root, q)
  {
    var src := DoGetStat(fs, s, 1).value;
    var tgt := DoGetStat(fs, t, 1).value;
    var overwrite := DoGetOverwrite(cfg, opts);
    if EmptyOntoEmpty(fs, overwrite, s, src, t, tgt) {
      TouchRmdirFrame(fs.root, s, t, now, q);
    } else if BothDirectories(overwrite, src, tgt) && !MayHaveChildren(fs, t) && MayHaveChildren(fs, s) {
      CopyDeleteFrame(fs, cfg, s, t, now, q);
    } else {
      RenameFrame(fs.root, s, t, overwrite, now, q);
    }
  }

  lemma TouchRmdirFrame(n: Node, s: Path, t: Path, now: nat, q: Path)
    requires Utimes(n, t, now).Success? && Rmdir(Utimes(n, t, now).value, s).Success?
    requires !(q <= s) && !(s <= q) && !(q <= t) && !(t <= q)
    ensures Beside(n, Rmdir(Utimes(n, t, now).value, s).value, q)
  {
    PutElsewhere(n, t, Some(WithMtime(Resolve(n, t).node, now)), q);
    PutElsewhere(Utimes(n, t, now).value, s, None, q);
  }

  lemma RenameFrame(n: Node, s: Path, t: Path, clobber: bool, now: nat, q: Path)
    requires Rename(n, s, t, clobber, now).Success?
    requires !(q <= s) && !(s <= q) && !(q <= t) && !(t <= q)
    ensures Beside(n, Rename(n, s, t, clobber, now).value, q)
  {
    if s != t {
      var n1 :| && Mkdirs(n, Parent(t), now) == Success(n1)
        && RelocateReady(n1, s, t)
        && Rename(n, s, t, clobber, now).value == Put(Put(n1, s, None), t, Some(Resolve(n, s).node));
      assert Parent(t) <= t;
      MkdirsBeside(n, Parent(t), now, q);
      PutElsewhere(n1, s, None, q);
      PutElsewhere(Put(n1, s, None), t, Some(Resolve(n, s).node), q);
    }
  }

  lemma CopyDeleteFrame(fs: FsState, cfg: Config, s: Path, t: Path, now: nat, q: Path)
    requires var o := CallOptions(None, Some(true), None, None, None);
      && Copy(fs, cfg, s, t, o, now).Success?
      && Delete(Copy(fs, cfg, s, t, o, now).value.state, cfg, s, NoOptions).Success?
    requires !(q <= s) && !(s <= q) && !(q <= t) && !(t <= q)
    ensures var o := CallOptions(None, Some(true), None, None, None);
      Beside(fs.root, Delete(Copy(fs, cfg, s, t, o, now).value.state, cfg, s, NoOptions).value.root, q)
  {
    var o := CallOptions(None, Some(true), None, None, None);
    var copied := Copy(fs, cfg, s, t, o, now).value.state;
    assert t != [];
    var n1 :| && Mkdirs(fs.root, Parent(t), now) == Success(n1)
      && (Resolve(n1, t).Found? ==>
            (Merge(Resolve(fs.root, s).node, Resolve(n1, t).node, now).Some? &&
             copied.root == Put(n1, t, Some(Merge(Resolve(fs.root, s).node, Resolve(n1, t).node, now).value))))
      && (!Resolve(n1, t).Found? ==> copied.root == Put(n1, t, Some(Restamp(Resolve(fs.root, s).node, now))));
    assert Parent(t) <= t;
    MkdirsBeside(fs.root, Parent(t), now, q);
    if Resolve(n1, t).Found? {
      PutElsewhere(n1, t, Some(Merge(Resolve(fs.root, s).node, Resolve(n1, t).node, now).value), q);
    } else {
      PutElsewhere(n1, t, Some(Restamp(Resolve(fs.root, s).node, now)), q);
    }
    PutElsewhere(copied.root, s, None, q);
  }

  /**
    Moving a file onto an existing file with overwrite renames: the target
    then holds the source file as it was, and the source is gone.
  */
  lemma MoveFileOntoFile(fs: FsState, cfg: Config, s: Path, t: Path, opts: CallOptions, now: nat)
    requires Healthy(fs) && s != t && DoGetOverwrite(cfg, opts)
    requires Resolve(fs.root, s).Found? && Resolve(fs.root, s).node.File?
    requires Resolve(fs.root, t).Found? && Resolve(fs.root, t).node.File?
    ensures Move(fs, cfg, s, t, opts, now).Success?
    ensures Resolve(Move(fs, cfg, s, t, opts, now).value.state.root, t) == Found(Resolve(fs.root, s).node)
    ensures Resolve(Move(fs, cfg, s, t, opts, now).value.state.root, s).Absent?
  {
    var n := fs.root;
    RenameFileOntoFile(n, s, t, now);
    var r := Rename(n, s, t, true, now).value;
    RenameRelocates(n, s, t, true, now);
    WellFormedAfterRename(fs, s, t, now);
    StatOnHealthy(FsState(r, fs.faults), t, 1);
    RenameBranchTaken(fs, cfg, s, t, opts, now);
  }

  /** On a healthy disk, a move with overwrite of a file onto a file takes the rename branch. */
  lemma RenameBranchTaken(fs: FsState, cfg: Config, s: Path, t: Path, opts: CallOptions, now: nat)
    requires Healthy(fs) && s != t && DoGetOverwrite(cfg, opts)
    requires Resolve(fs.root, s).Found? && Resolve(fs.root, s).node.File?
    requires Resolve(fs.root, t).Found? && Resolve(fs.root, t).node.File?
    ensures Rename(fs.root, s, t, true, now).Success?
    ensures Move(fs, cfg, s, t, opts, now) == Settle(fs, Rename(fs.root, s, t, true, now).value, t)
  {
    RenameFileOntoFile(fs.root, s, t, now);
    StatOnHealthy(fs, s, 1);
    StatOnHealthy(fs, t, 1);
    var src := DoGetStat(fs, s, 1).value;
    var tgt := DoGetStat(fs, t, 1).value;
    assert !tgt.value.IsDirectory() && !src.value.IsDirectory();
    assert !BothDirectories(true, src, tgt);
    assert MoveAsWritten(fs, cfg, s, t, opts, now) == Settle(fs, Rename(fs.root, s, t, true, now).value, t);
  }

  /**
    Moving a non-empty directory onto an empty directory with overwrite
    copies and deletes: the target then holds the source tree with fresh
    timestamps, and the source is gone.
  */
  lemma MoveDirOntoEmptyDir(fs: FsState, cfg: Config, s: Path, t: Path, opts: CallOptions, now: nat)
    requires Healthy(fs) && DoGetOverwrite(cfg, opts) && !(s <= t)
    requires DirAt(fs.root, s) && Resolve(fs.root, s).node.entries != []
    requires DirAt(fs.root, t) && Resolve(fs.root, t).node.entries == []
    ensures Move(fs, cfg, s, t, opts, now).Success?
    ensures Resolve(Move(fs, cfg, s, t, opts, now).value.state.root, t) == Found(Restamp(Resolve(fs.root, s).node, now))
    ensures Resolve(Move(fs, cfg, s, t, opts, now).value.state.root, s).Absent?
  {
    assert !(t <= s) by {
      if t < s { NothingBelowEmpty(fs.root, t, s); }
    }
    var o := CallOptions(None, Some(true), None, None, None);
    CopyOntoEmptyDir(fs, cfg, s, t, now);
    DeleteCopiedSource(Copy(fs, cfg, s, t, o, now).value.state, cfg, s, t);
    CopyBranchTaken(fs, cfg, s, t, opts, now);
  }

  /** Deleting the source after the copy succeeds and leaves the copy at the target. */
  lemma DeleteCopiedSource(fs: FsState, cfg: Config, s: Path, t: Path)
    requires Healthy(fs) && !(s <= t) && !(t <= s) && Resolve(fs.root, s).Found?
    ensures Delete(fs, cfg, s, NoOptions).Success?
    ensures Resolve(Delete(fs, cfg, s, NoOptions).value.root, t) == Resolve(fs.root, t)
  {
    assert s != [] by { assert [] <= t; }
    StatOnHealthy(fs, s, 0);
    ResolveAncestorIsDir(fs.root, s, Parent(s));
    assert Delete(fs, cfg, s, NoOptions).Success?;
    PutElsewhere(fs.root, s, None, t);
  }

  /**
    On a healthy disk, a move with overwrite of a non-empty directory onto an
    empty one takes the copy-then-delete branch.
  */
  lemma CopyBranchTaken(fs: FsState, cfg: Config, s: Path, t: Path, opts: CallOptions, now: nat)
    requires Healthy(fs) && DoGetOverwrite(cfg, opts) && !(s <= t)
    requires DirAt(fs.root, s) && Resolve(fs.root, s).node.entries != []
    requires DirAt(fs.root, t) && Resolve(fs.root, t).node.entries == []
    ensures var o := CallOptions(None, Some(true), None, None, None);
      && Copy(fs, cfg, s, t, o, now).Success?
      && Delete(Copy(fs, cfg, s, t, o, now).value.state, cfg, s, NoOptions).Success?
    ensures var o := CallOptions(None, Some(true), None, None, None);
      var copied := Copy(fs, cfg, s, t, o, now).value;
      Move(fs, cfg, s, t, opts, now) == Success(Reply(Delete(copied.state, cfg, s, NoOptions).value, copied.stat))
  {
    assert !(t <= s) by {
      if t < s { NothingBelowEmpty(fs.root, t, s); }
    }
    CopyOntoEmptyDir(fs, cfg, s, t, now);
    DeleteCopiedSource(Copy(fs, cfg, s, t, CallOptions(None, Some(true), None, None, None), now).value.state, cfg, s, t);
    CopyBranchEquation(fs, cfg, s, t, opts, now);
  }

  /** The branch choice of CopyBranchTaken, once the copy and the delete are known to succeed. */
  lemma CopyBranchEquation(fs: FsState, cfg: Config, s: Path, t: Path, opts: CallOptions, now: nat)
    requires Healthy(fs) && DoGetOverwrite(cfg, opts) && s != t
    requires DirAt(fs.root, s) && Resolve(fs.root, s).node.entries != []
    requires DirAt(fs.root, t) && Resolve(fs.root, t).node.entries == []
    requires var o := CallOptions(None, Some(true), None, None, None);
      && Copy(fs, cfg, s, t, o, now).Success?
      && Delete(Copy(fs, cfg, s, t, o, now).value.state, cfg, s, NoOptions).Success?
    ensures var o := CallOptions(None, Some(true), None, None, None);
      var copied := Copy(fs, cfg, s, t, o, now).value;
      Move(fs, cfg, s, t, opts, now) == Success(Reply(Delete(copied.state, cfg, s, NoOptions).value, copied.stat))
  {
    StatOnHealthy(fs, s, 1);
    StatOnHealthy(fs, t, 1);
    MayHaveChildrenCases(fs, s);
    MayHaveChildrenCases(fs, t);
    var src := DoGetStat(fs, s, 1).value;
    var tgt := DoGetStat(fs, t, 1).value;
    assert BothDirectories(true, src, tgt);
    assert !EmptyOntoEmpty(fs, true, s, src, t, tgt);
  }

  /** Copying a directory onto an empty directory replaces it by a restamped replica of the source. */
  lemma CopyOntoEmptyDir(fs: FsState, cfg: Config, s: Path, t: Path, now: nat)
    requires Healthy(fs) && !(s <= t) && !(t <= s)
    requires DirAt(fs.root, s)
    requires DirAt(fs.root, t) && Resolve(fs.root, t).node.entries == []
    ensures var o := CallOptions(None, Some(true), None, None, None);
      && Copy(fs, cfg, s, t, o, now).Success?
      && Healthy(Copy(fs, cfg, s, t, o, now).value.state)
      && Resolve(Copy(fs, cfg, s, t, o, now).value.state.root, t) == Found(Restamp(Resolve(fs.root, s).node, now))
      && Resolve(Copy(fs, cfg, s, t, o, now).value.state.root, s) == Resolve(fs.root, s)
  {
    StatOnHealthy(fs, s, 0);
    StatOnHealthy(fs, t, 0);
    CopyTreeOntoEmptyDir(fs.root, s, t, now);
    var root := CopyTree(fs.root, s, t, now).value;
    CopyTreeWellFormed(fs.root, s, t, now);
    StatOnHealthy(FsState(root, fs.faults), t, 1);
  }

  /** The `fs.copy` primitive onto an empty directory: the restamped source lands there, the source stays. */
  lemma CopyTreeOntoEmptyDir(n: Node, s: Path, t: Path, now: nat)
    requires n.Dir? && WellFormed(n) && !(s <= t) && !(t <= s)
    requires DirAt(n, s)
    requires DirAt(n, t) && Resolve(n, t).node.entries == []
    ensures CopyTree(n, s, t, now).Success?
    ensures Resolve(CopyTree(n, s, t, now).value, t) == Found(Restamp(Resolve(n, s).node, now))
    ensures Resolve(CopyTree(n, s, t, now).value, s) == Resolve(n, s)
  {
    var src := Resolve(n, s).node;
    assert t != [] && Parent(t) < t;
    ResolveAncestorIsDir(n, t, Parent(t));
    MkdirsSucceeds(n, Parent(t), now);
    var n1 := Mkdirs(n, Parent(t), now).value;
    MkdirsFrame(n, Parent(t), now, t);
    MkdirsFrame(n, Parent(t), now, s);
    MkdirsFrame(n, Parent(t), now, Parent(t));
    ResolvedWellFormed(n, s);
    MergeOntoEmpty(src, Resolve(n, t).node.mtime, now);
    var root := Put(n1, t, Some(Restamp(src, now)));
    assert CopyTree(n, s, t, now) == Success(root);
    PutHere(n1, t, Some(Restamp(src, now)));
    PutElsewhere(n1, t, Some(Restamp(src, now)), s);
  }

  lemma WellFormedAfterRename(fs: FsState, s: Path, t: Path, now: nat)
    requires Healthy(fs) && Rename(fs.root, s, t, true, now).Success?
    ensures Healthy(FsState(Rename(fs.root, s, t, true, now).value, fs.faults))
  {
    RenameWellFormed(fs.root, s, t, true, now);
  }

  /** The rename primitive with clobber puts a file in place of another file. */
  lemma RenameFileOntoFile(n: Node, s: Path, t: Path, now: nat)
    requires n.Dir? && s != t
    requires Resolve(n, s).Found? && Resolve(n, s).node.File?
    requires Resolve(n, t).Found? && Resolve(n, t).node.File?
    ensures Rename(n, s, t, true, now).Success?
    ensures Resolve(Rename(n, s, t, true, now).value, t) == Found(Resolve(n, s).node)
  {
    assert !(s <= t) by {
      if s < t { ResolveAncestorIsDir(n, t, s); }
    }
    assert s != [] && t != [];
    assert Parent(t) < t;
    ResolveAncestorIsDir(n, t, Parent(t));
    MkdirsSucceeds(n, Parent(t), now);
    var n1 := Mkdirs(n, Parent(t), now).value;
    MkdirsFrame(n, Parent(t), now, t);
    assert Resolve(n1, t) == Resolve(n, t);
    PrepareRelocate(n, s, t, now);
    var r := Put(Put(n1, s, None), t, Some(Resolve(n, s).node));
    assert Rename(n, s, t, true, now) == Success(r);
    PutHere(Put(n1, s, None), t, Some(Resolve(n, s).node));
  }

  // ----- copy -----

  /**
    Copying to a path that does not exist puts a fresh-stamped replica of the
    source there and leaves the source as it was.
  */
  lemma CopyToFreshPath(fs: FsState, cfg: Config, s: Path, t: Path, opts: CallOptions, now: nat)
    requires !Resolve(fs.root, t).Found?
    requires Copy(fs, cfg, s, t, opts, now).Success?
    ensures Resolve(fs.root, s).Found?
    ensures Resolve(Copy(fs, cfg, s, t, opts, now).value.state.root, t) == Found(Restamp(Resolve(fs.root, s).node, now))
    ensures Resolve(Copy(fs, cfg, s, t, opts, now).value.state.root, s) == Resolve(fs.root, s)
  {
    var n := fs.root;
    var src := Resolve(n, s).node;
    if t < s {
      ResolveAncestorIsDir(n, s, t);
    }
    var n1 := Mkdirs(n, Parent(t), now).value;
    MkdirsFrame(n, Parent(t), now, t);
    MkdirsFrame(n, Parent(t), now, s);
    PutHere(n1, t, Some(Restamp(src, now)));
    PutElsewhere(n1, t, Some(Restamp(src, now)), s);
  }

  /** Copying to a fresh path and deleting the copy leaves the source as it was. */
  lemma CopyThenDeleteKeepsSource(fs: FsState, cfg: Config, s: Path, t: Path, opts: CallOptions, now: nat)
    requires !Resolve(fs.root, t).Found?
    requires Copy(fs, cfg, s, t, opts, now).Success?
    requires Delete(Copy(fs, cfg, s, t, opts, now).value.state, cfg, t, NoOptions).Success?
    ensures Resolve(Delete(Copy(fs, cfg, s, t, opts, now).value.state, cfg, t, NoOptions).value.root, s) ==
      Resolve(fs.root, s)
  {
    CopyToFreshPath(fs, cfg, s, t, opts, now);
    var copied := Copy(fs, cfg, s, t, opts, now).value.state;
    if t < s {
      ResolveAncestorIsDir(fs.root, s, t);
    }
    PutElsewhere(copied.root, t, None, s);
  }

  // ----- The existence checks -----

  /** On a healthy disk, `copy` rejects with "not found" exactly when the source is absent. */
  lemma CopyExistenceCheck(fs: FsState, cfg: Config, s: Path, t: Path, opts: CallOptions, now: nat)
    requires Healthy(fs)
    ensures Copy(fs, cfg, s, t, opts, now) == Failure(NotFound(s)) <==> Resolve(fs.root, s).Absent?
  {
    StatOnHealthy(fs, s, 0);
    StatOnHealthy(fs, t, 0);
  }

  /** On a healthy disk, `delete` rejects with "not found" exactly when the target is absent. */
  lemma DeleteExistenceCheck(fs: FsState, cfg: Config, p: Path, opts: CallOptions)
    requires Healthy(fs)
    ensures Delete(fs, cfg, p, opts) == Failure(NotFound(p)) <==> Resolve(fs.root, p).Absent?
  {
    StatOnHealthy(fs, p, 0);
  }

  /** On a healthy disk, `createFile` rejects with "already exists" exactly when the target exists. */
  lemma CreateFileExistenceCheck(fs: FsState, p: Path, opts: CallOptions, now: nat)
    requires Healthy(fs)
    ensures CreateFile(fs, p, opts, now) == Failure(AlreadyExists(p)) <==> Resolve(fs.root, p).Found?
  {
    StatOnHealthy(fs, p, 0);
  }

  /** On a healthy disk, `createFolder` rejects with "already exists" exactly when the target exists. */
  lemma CreateFolderExistenceCheck(fs: FsState, p: Path, now: nat)
    requires Healthy(fs)
    ensures CreateFolder(fs, p, now) == Failure(AlreadyExists(p)) <==> Resolve(fs.root, p).Found?
  {
    StatOnHealthy(fs, p, 0);
  }

  /**
    On a healthy disk, creating a file whose directory is missing succeeds:
    the directory is created and the file holds the given content or "".
  */
  lemma CreateFileMakesParent(fs: FsState, p: Path, opts: CallOptions, now: nat)
    requires Healthy(fs) && p != [] && Resolve(fs.root, Parent(p)).Absent?
    ensures CreateFile(fs, p, opts, now).Success?
    ensures DirAt(CreateFile(fs, p, opts, now).value.state.root, Parent(p))
    ensures Resolve(CreateFile(fs, p, opts, now).value.state.root, p) ==
      Found(File(now, |DoGetContent(opts)|, DoGetContent(opts)))
  {
    var n := fs.root;
    var content := DoGetContent(opts);
    assert Parent(p) < p;
    ResolveAppend(n, Parent(p), [p[|p| - 1]]);
    assert Parent(p) + [p[|p| - 1]] == p;
    StatOnHealthy(fs, p, 0);
    StatOnHealthy(fs, Parent(p), 0);
    MkdirsSucceeds(n, Parent(p), now);
    var n1 := Mkdirs(n, Parent(p), now).value;
    MkdirsFrame(n, Parent(p), now, p);
    MkdirsWellFormed(n, Parent(p), now);
    var x := File(now, |content|, content);
    var n2 := Put(n1, p, Some(x));
    assert WriteFile(n1, p, content, now) == Success(n2);
    PutHere(n1, p, Some(x));
    PutAbove(n1, p, Some(x), Parent(p));
    PutWellFormed(n1, p, Some(x));
    StatOnHealthy(FsState(n2, fs.faults), p, 1);
  }

  /** On a healthy disk, creating a folder at a missing path succeeds. */
  lemma CreateFolderMakesPath(fs: FsState, p: Path, now: nat)
    requires Healthy(fs) && Resolve(fs.root, p).Absent?
    ensures CreateFolder(fs, p, now).Success?
    ensures DirAt(CreateFolder(fs, p, now).value.state.root, p)
  {
    StatOnHealthy(fs, p, 0);
    MkdirsSucceeds(fs.root, p, now);
    MkdirsWellFormed(fs.root, p, now);
    StatOnHealthy(FsState(Mkdirs(fs.root, p, now).value, fs.faults), p, 1);
  }

  // ----- delete and touchFile -----

  /** After a delete the path reads as not found, and nothing beside it changed. */
  lemma DeleteThenNotFound(fs: FsState, cfg: Config, p: Path, opts: CallOptions, q: Path)
    requires Healthy(fs) && Delete(fs, cfg, p, opts).Success?
    ensures GetFileStat(Delete(fs, cfg, p, opts).value, p) == Failure(NotFound(p))
    ensures !(q <= p) && !(p <= q) ==> Resolve(Delete(fs, cfg, p, opts).value.root, q) == Resolve(fs.root, q)
  {
    DeleteKeepsValid(fs, cfg, p, opts);
    GetFileStatOnHealthy(Delete(fs, cfg, p, opts).value, p);
    if !(q <= p) && !(p <= q) {
      PutElsewhere(fs.root, p, None, q);
    }
  }

  /** Touching an existing entry on a healthy disk succeeds and changes only its timestamp. */
  lemma TouchExisting(fs: FsState, p: Path, now: nat)
    requires Healthy(fs) && Resolve(fs.root, p).Found?
    ensures TouchFile(fs, p, now).Success?
    ensures var x := Resolve(fs.root, p).node;
      Resolve(TouchFile(fs, p, now).value.state.root, p) == Found(WithMtime(x, now))
  {
    var x := Resolve(fs.root, p).node;
    StatOnHealthy(fs, p, 0);
    UtimesWellFormed(fs.root, p, now);
    var root := Utimes(fs.root, p, now).value;
    PutHere(fs.root, p, Some(WithMtime(x, now)));
    StatOnHealthy(FsState(root, fs.faults), p, 1);
  }
}
