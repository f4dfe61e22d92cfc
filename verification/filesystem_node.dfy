/**
  The node filesystem service. Every operation is a function of the disk
  state (and, where it writes, of the current time `now`) that either rejects
  with an error or returns the new state together with the stat it resolves
  with. The checks run in the order the service runs them.
*/
module FileSystemNode {
  import opened Wrappers
  import opened FileTree
  import opened Errors
  import opened StatTree
  import opened FsOptions
  import opened Disk

  /** What a mutating operation resolves with: the new disk and the final stat read. */
  datatype Reply = Reply(state: FsState, stat: Option<Stat>)

  datatype Contents = Contents(stat: Stat, content: string)

  /** The size a stat carries: files have one, directories none. */
  function SizeOf(s: Stat): Option<nat> {
    if s.FileStat? then Some(s.size) else None
  }

  /** True when the shallow stat read of `p` finds something. */
  predicate Seen(fs: FsState, p: Path) {
    DoGetStat(fs, p, 0).Success? && DoGetStat(fs, p, 0).value.Some?
  }

  /** The disk after a primitive changed the tree, with the deep stat of `p` read from it. */
  function Settle(fs: FsState, root: Node, p: Path): (r: Result<Reply, Error>)
    ensures r.Success? ==> r.value.state == FsState(root, fs.faults)
    ensures r.Success? && r.value.stat.Some? ==> r.value.stat.value.path == p
    ensures r.Failure? ==> IsErrnoException(r.error)
  {
    var after := FsState(root, fs.faults);
    var st :- DoGetStat(after, p, 1);
    Success(Reply(after, st))
  }

  /** `getFileStat`: the stat of `p` one level deep, rejected when it is not found. */
  function GetFileStat(fs: FsState, p: Path): (r: Result<Stat, Error>)
    ensures DoGetStat(fs, p, 1).Failure? ==> r == Failure(DoGetStat(fs, p, 1).error)
    ensures DoGetStat(fs, p, 1) == Success(None) <==> r == Failure(NotFound(p))
    ensures r.Success? ==> r.value.path == p && OsStat(fs, p).Success?
    ensures r.Success? ==> r.value.lastModification == OsStat(fs, p).value.mtime
    ensures r.Success? ==> r.value.IsDirectory() == OsStat(fs, p).value.Dir?
  {
    match DoGetStat(fs, p, 1)
    case Failure(e) => Failure(e)
    case Success(None) => Failure(NotFound(p))
    case Success(Some(st)) => Success(st)
  }

  /** `resolveContent`: the shallow stat and the text of a file. */
  function ResolveContent(fs: FsState, p: Path): (r: Result<Contents, Error>)
    ensures DoGetStat(fs, p, 0).Failure? ==> r == Failure(DoGetStat(fs, p, 0).error)
    ensures DoGetStat(fs, p, 0) == Success(None) ==> r == Failure(NotFound(p))
    ensures Seen(fs, p) && DoGetStat(fs, p, 0).value.value.IsDirectory() ==> r == Failure(IsADirectory(p))
    ensures Seen(fs, p) && !DoGetStat(fs, p, 0).value.value.IsDirectory() && ReadFile(fs, p).Failure? ==>
      r == Failure(ReadFile(fs, p).error)
    ensures r.Success? ==>
      && p !in fs.faults && Resolve(fs.root, p).Found? && Resolve(fs.root, p).node.File?
      && r.value == Contents(DoGetStat(fs, p, 0).value.value, Resolve(fs.root, p).node.content)
  {
    var st :- DoGetStat(fs, p, 0);
    if st.None? then Failure(NotFound(p))
    else if st.value.IsDirectory() then Failure(IsADirectory(p))
    else
      var text :- ReadFile(fs, p);
      Success(Contents(st.value, text))
  }

  /**
    `setContent`: the optimistic-concurrency write. It rejects, in this
    order, a missing file, a directory, a stale timestamp and a stale size;
    only when all four checks pass is the content replaced.
  */
  function SetContent(fs: FsState, file: Stat, content: string, now: nat): (r: Result<Reply, Error>)
    ensures var cur := DoGetStat(fs, file.path, 0);
      && (cur.Failure? ==> r == Failure(cur.error))
      && (cur == Success(None) ==> r == Failure(NotFound(file.path)))
      && (cur.Success? && cur.value.Some? ==>
           var st := cur.value.value;
           && (st.IsDirectory() ==> r == Failure(IsADirectory(file.path)))
           && (!st.IsDirectory() && st.lastModification != file.lastModification ==>
                 r == Failure(OutOfSync(file.path, Timestamp)))
           && (!st.IsDirectory() && st.lastModification == file.lastModification && SizeOf(st) != SizeOf(file) ==>
                 r == Failure(OutOfSync(file.path, Size))))
    ensures r.Success? ==>
      && Seen(fs, file.path)
      && DoGetStat(fs, file.path, 0).value.value.lastModification == file.lastModification
      && SizeOf(DoGetStat(fs, file.path, 0).value.value) == SizeOf(file)
      && Resolve(r.value.state.root, file.path) == Found(File(now, |content|, content))
      && r.value.stat == Some(FileStat(file.path, now, |content|))
  {
    var p := file.path;
    var st :- DoGetStat(fs, p, 0);
    if st.None? then Failure(NotFound(p))
    else if st.value.IsDirectory() then Failure(IsADirectory(p))
    else if st.value.lastModification != file.lastModification then Failure(OutOfSync(p, Timestamp))
    else if SizeOf(st.value) != SizeOf(file) then Failure(OutOfSync(p, Size))
    else
      var root :- WriteFile(fs.root, p, content, now);
      PutHere(fs.root, p, Some(File(now, |content|, content)));
      Settle(fs, root, p)
  }

  /**
    `move` as the service writes it: rejects a missing source, an existing
    target without overwrite, and a target of the other kind; then either
    touches an empty target and removes an empty source, copies a non-empty
    source onto an empty target and deletes the source, or renames.
    When source and target are the same empty directory, the first branch
    removes it (see `Move` for the corrected operation).
  */
  function MoveAsWritten(fs: FsState, cfg: Config, s: Path, t: Path, opts: CallOptions, now: nat): (r: Result<Reply, Error>)
    ensures var src := DoGetStat(fs, s, 1);
      && (src.Failure? ==> r == Failure(src.error))
      && (src == Success(None) ==> r == Failure(NotFound(s)))
      && (src.Success? && src.value.Some? ==>
           var tgt := DoGetStat(fs, t, 1);
           && (tgt.Failure? ==> r == Failure(tgt.error))
           && (tgt.Success? && tgt.value.Some? && !DoGetOverwrite(cfg, opts) ==> r == Failure(AlreadyExists(t)))
           && (tgt.Success? && tgt.value.Some? && DoGetOverwrite(cfg, opts) &&
                 src.value.value.IsDirectory() != tgt.value.value.IsDirectory() ==>
                 r == Failure(TypeConflict(s, t))))
    ensures r.Success? ==> Seen(fs, s)
  {
    var src :- DoGetStat(fs, s, 1);
    if src.None? then Failure(NotFound(s))
    else
      var overwrite := DoGetOverwrite(cfg, opts);
      var tgt :- DoGetStat(fs, t, 1);
      if tgt.Some? && !overwrite then Failure(AlreadyExists(t))
      else if tgt.Some? && src.value.IsDirectory() != tgt.value.IsDirectory() then Failure(TypeConflict(s, t))
      else if EmptyOntoEmpty(fs, overwrite, s, src, t, tgt) then
        // The target was just found, so touching it cannot fail here.
        var touched := Utimes(fs.root, t, now).value;
        var root :- Rmdir(touched, s);
        Settle(fs, root, t)
      else if BothDirectories(overwrite, src, tgt) && !MayHaveChildren(fs, t) && MayHaveChildren(fs, s) then
        var copied :- Copy(fs, cfg, s, t, CallOptions(None, Some(true), None, None, None), now);
        var deleted :- Delete(copied.state, cfg, s, NoOptions);
        Success(Reply(deleted, copied.stat))
      else
        var root :- Rename(fs.root, s, t, overwrite, now);
        Settle(fs, root, t)
  }

  /** The guard shared by the two special cases of `move`. */
  predicate BothDirectories(overwrite: bool, src: Option<Stat>, tgt: Option<Stat>) {
    overwrite && tgt.Some? && tgt.value.IsDirectory() && src.Some? && src.value.IsDirectory()
  }

  /** The guard of the first special case: overwriting an empty directory with an empty directory. */
  predicate EmptyOntoEmpty(fs: FsState, overwrite: bool, s: Path, src: Option<Stat>, t: Path, tgt: Option<Stat>) {
    BothDirectories(overwrite, src, tgt) && !MayHaveChildren(fs, t) && !MayHaveChildren(fs, s)
  }

  /**
    `move`, corrected: moving an empty directory onto itself with overwrite
    leaves it in place (as a rename of a path onto itself does) instead of
    removing it. Every other call behaves as `MoveAsWritten`.
  */
  function Move(fs: FsState, cfg: Config, s: Path, t: Path, opts: CallOptions, now: nat): (r: Result<Reply, Error>)
    ensures var src := DoGetStat(fs, s, 1);
      && (src.Failure? ==> r == Failure(src.error))
      && (src == Success(None) ==> r == Failure(NotFound(s)))
      && (src.Success? && src.value.Some? ==>
           var tgt := DoGetStat(fs, t, 1);
           && (tgt.Failure? ==> r == Failure(tgt.error))
           && (tgt.Success? && tgt.value.Some? && !DoGetOverwrite(cfg, opts) ==> r == Failure(AlreadyExists(t)))
           && (tgt.Success? && tgt.value.Some? && DoGetOverwrite(cfg, opts) &&
                 src.value.value.IsDirectory() != tgt.value.value.IsDirectory() ==>
                 r == Failure(TypeConflict(s, t))))
    ensures r.Success? ==> Seen(fs, s)
    ensures s != t ==> r == MoveAsWritten(fs, cfg, s, t, opts, now)
  {
    var src := DoGetStat(fs, s, 1);
    var tgt := DoGetStat(fs, t, 1);
    if s == t && src.Success? && tgt.Success? && EmptyOntoEmpty(fs, DoGetOverwrite(cfg, opts), s, src.value, t, tgt.value) then
      Settle(fs, fs.root, t)
    else MoveAsWritten(fs, cfg, s, t, opts, now)
  }

  /** `copy`: rejects a missing source and an existing target without overwrite, then copies. */
  function Copy(fs: FsState, cfg: Config, s: Path, t: Path, opts: CallOptions, now: nat): (r: Result<Reply, Error>)
    ensures var src := DoGetStat(fs, s, 0);
      && (src.Failure? ==> r == Failure(src.error))
      && (src == Success(None) ==> r == Failure(NotFound(s)))
      && (src.Success? && src.value.Some? ==>
           var tgt := DoGetStat(fs, t, 0);
           && (tgt.Failure? ==> r == Failure(tgt.error))
           && (tgt.Success? && tgt.value.Some? && !DoGetOverwrite(cfg, opts) ==> r == Failure(AlreadyExists(t))))
    ensures r.Success? ==> Seen(fs, s) && CopyTree(fs.root, s, t, now).Success?
    ensures r.Success? ==> r.value.state == FsState(CopyTree(fs.root, s, t, now).value, fs.faults)
  {
    var src :- DoGetStat(fs, s, 0);
    if src.None? then Failure(NotFound(s))
    else
      var overwrite := DoGetOverwrite(cfg, opts);
      var tgt :- DoGetStat(fs, t, 0);
      if tgt.Some? && !overwrite then Failure(AlreadyExists(t))
      else
        var root :- CopyTree(fs.root, s, t, now);
        Settle(fs, root, t)
  }

  /**
    `createFile`: rejects an existing target; creates the parent directory
    when it is not found, then writes the content, which defaults to "".
  */
  function CreateFile(fs: FsState, p: Path, opts: CallOptions, now: nat): (r: Result<Reply, Error>)
    ensures DoGetStat(fs, p, 0).Failure? ==> r == Failure(DoGetStat(fs, p, 0).error)
    ensures Seen(fs, p) <==> r == Failure(AlreadyExists(p))
    ensures r.Success? ==> DoGetStat(fs, p, 0) == Success(None)
    ensures r.Success? ==> Resolve(r.value.state.root, p) == Found(File(now, |DoGetContent(opts)|, DoGetContent(opts)))
  {
    var st :- DoGetStat(fs, p, 0);
    if st.Some? then Failure(AlreadyExists(p))
    else
      var parent := if p == [] then [] else Parent(p);
      var parentStat :- DoGetStat(fs, parent, 0);
      var root1 :- if parentStat.None? then Mkdirs(fs.root, parent, now) else Success(fs.root);
      var content := DoGetContent(opts);
      var root2 :- WriteFile(root1, p, content, now);
      PutHere(root1, p, Some(File(now, |content|, content)));
      Settle(fs, root2, p)
  }

  /** `createFolder`: rejects an existing target, then creates it and any missing parents. */
  function CreateFolder(fs: FsState, p: Path, now: nat): (r: Result<Reply, Error>)
    ensures DoGetStat(fs, p, 0).Failure? ==> r == Failure(DoGetStat(fs, p, 0).error)
    ensures Seen(fs, p) <==> r == Failure(AlreadyExists(p))
    ensures r.Success? ==> DoGetStat(fs, p, 0) == Success(None) && DirAt(r.value.state.root, p)
  {
    var st :- DoGetStat(fs, p, 0);
    if st.Some? then Failure(AlreadyExists(p))
    else
      var root :- Mkdirs(fs.root, p, now);
      Settle(fs, root, p)
  }

  /** `touchFile`: creates a missing file, otherwise sets its timestamp to `now`. */
  function TouchFile(fs: FsState, p: Path, now: nat): (r: Result<Reply, Error>)
    ensures DoGetStat(fs, p, 0).Failure? ==> r == Failure(DoGetStat(fs, p, 0).error)
    ensures DoGetStat(fs, p, 0) == Success(None) ==> r == CreateFile(fs, p, NoOptions, now)
    ensures Seen(fs, p) ==>
      && Resolve(fs.root, p).Found?
      && (r.Success? ==> Resolve(r.value.state.root, p) == Found(WithMtime(Resolve(fs.root, p).node, now)))
  {
    var st :- DoGetStat(fs, p, 0);
    if st.None? then CreateFile(fs, p, NoOptions, now)
    else
      var root :- Utimes(fs.root, p, now);
      PutHere(fs.root, p, Some(WithMtime(Resolve(fs.root, p).node, now)));
      Settle(fs, root, p)
  }

  /** `delete`: rejects a missing target, then trashes or removes it. */
  function Delete(fs: FsState, cfg: Config, p: Path, opts: CallOptions): (r: Result<FsState, Error>)
    ensures DoGetStat(fs, p, 0).Failure? ==> r == Failure(DoGetStat(fs, p, 0).error)
    ensures DoGetStat(fs, p, 0) == Success(None) ==> r == Failure(NotFound(p))
    ensures r.Success? ==> Seen(fs, p) && Resolve(r.value.root, p).Absent? && r.value.faults == fs.faults
    ensures r.Success? ==> p != [] && DirAt(fs.root, Parent(p)) && r.value.root == Put(fs.root, p, None)
  {
    var st :- DoGetStat(fs, p, 0);
    if st.None? then Failure(NotFound(p))
    else
      var moveToTrash := DoGetMoveToTrash(cfg, opts);
      var root :- if moveToTrash then Trash(fs.root, p) else Remove(fs.root, p);
      PutHere(fs.root, p, None);
      Success(FsState(root, fs.faults))
  }

  /** `getEncoding`: the process-wide encoding, for an existing file only. */
  function GetEncoding(fs: FsState, cfg: Config, p: Path): (r: Result<string, Error>)
    ensures DoGetStat(fs, p, 0).Failure? ==> r == Failure(DoGetStat(fs, p, 0).error)
    ensures DoGetStat(fs, p, 0) == Success(None) ==> r == Failure(NotFound(p))
    ensures Seen(fs, p) && DoGetStat(fs, p, 0).value.value.IsDirectory() ==> r == Failure(IsADirectory(p))
    ensures Seen(fs, p) && !DoGetStat(fs, p, 0).value.value.IsDirectory() ==> r == Success(cfg.encoding)
  {
    var st :- DoGetStat(fs, p, 0);
    if st.None? then Failure(NotFound(p))
    else if st.value.IsDirectory() then Failure(IsADirectory(p))
    else Success(cfg.encoding)
  }
}
