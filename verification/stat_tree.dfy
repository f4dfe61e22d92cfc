/**
  The state of the disk and the stat-tree reader.

  The disk is a tree plus a set of read faults: a path of which nothing can
  be read, neither its metadata nor its contents (`StatFails`, as for a busy
  or unreachable entry), or one whose metadata can be read but whose contents,
  a directory listing or file data, cannot (`ReadFails`, as for an entry
  without read permission). Faults affect the read calls only.
*/
module StatTree {
  import opened Wrappers
  import opened FileTree
  import opened Errors

  datatype Fault = StatFails(code: Code) | ReadFails(code: Code)

  datatype FsState = FsState(root: Node, faults: map<Path, Fault>)

  /** The root is a directory and no directory repeats a name. */
  predicate Valid(fs: FsState) {
    fs.root.Dir? && WellFormed(fs.root)
  }

  /** No read fault at `p` or anywhere below it. */
  predicate FaultFreeUnder(fs: FsState, p: Path) {
    forall q :: q in fs.faults ==> !(p <= q)
  }

  /** No fault below a directory means none below any of its children. */
  lemma FaultFreeBelow(fs: FsState, p: Path, name: Name)
    requires FaultFreeUnder(fs, p)
    ensures FaultFreeUnder(fs, p + [name])
  {
  }

  /** The operating system's metadata read of one path. */
  function OsStat(fs: FsState, p: Path): (r: Result<Node, Error>)
    ensures r.Failure? ==> IsErrnoException(r.error)
    ensures r.Success? ==> Resolve(fs.root, p) == Found(r.value)
  {
    if p in fs.faults && fs.faults[p].StatFails? then Failure(OsError(fs.faults[p].code))
    else
      match Resolve(fs.root, p)
      case Found(n) => Success(n)
      case Absent => Failure(OsError(ENOENT))
      case NotADirectory => Failure(OsError(ENOTDIR))
  }

  /** The operating system's listing of a directory, in listing order. */
  function ReadDir(fs: FsState, p: Path): (r: Result<seq<Entry>, Error>)
    ensures r.Failure? ==> IsErrnoException(r.error)
    ensures r.Success? ==> DirAt(fs.root, p) && r.value == Resolve(fs.root, p).node.entries
  {
    if p in fs.faults then Failure(OsError(fs.faults[p].code))
    else
      match Resolve(fs.root, p)
      case Found(n) => if n.Dir? then Success(n.entries) else Failure(OsError(ENOTDIR))
      case Absent => Failure(OsError(ENOENT))
      case NotADirectory => Failure(OsError(ENOTDIR))
  }

  /** The operating system's read of a file's text: any fault at the path, or a non-file, fails it. */
  function ReadFile(fs: FsState, p: Path): (r: Result<string, Error>)
    ensures r.Success? <==> p !in fs.faults && Resolve(fs.root, p).Found? && Resolve(fs.root, p).node.File?
    ensures r.Success? ==> r.value == Resolve(fs.root, p).node.content
    ensures r.Failure? ==> IsErrnoException(r.error)
  {
    if p in fs.faults then Failure(OsError(fs.faults[p].code))
    else
      match Resolve(fs.root, p)
      case Found(n) => if n.File? then Success(n.content) else Failure(OsError(EISDIR))
      case Absent => Failure(OsError(ENOENT))
      case NotADirectory => Failure(OsError(ENOTDIR))
  }

  /**
    A snapshot of one entry. A file carries its size; a directory carries the
    stats of its children, read to the depth that was asked for.
  */
  datatype Stat =
    | FileStat(path: Path, lastModification: nat, size: nat)
    | DirStat(path: Path, lastModification: nat, children: seq<Stat>)
  {
    predicate IsDirectory() {
      DirStat?
    }
  }

  /**
    The stat of `p` read `depth` levels deep: `None` when the read fails with
    a code that means "not there", a propagated error for any other failure.
  */
  function DoGetStat(fs: FsState, p: Path, depth: nat): (r: Result<Option<Stat>, Error>)
    ensures r.Failure? ==> IsErrnoException(r.error) && !StatSwallows(r.error)
    ensures r == Success(None) <==> StatAt(fs, p, depth).Failure? && StatSwallows(StatAt(fs, p, depth).error)
    ensures r.Success? && r.value.Some? ==>
      && OsStat(fs, p).Success?
      && r.value.value.path == p
      && r.value.value.lastModification == OsStat(fs, p).value.mtime
      && r.value.value.IsDirectory() == OsStat(fs, p).value.Dir?
      && (!r.value.value.IsDirectory() ==> r.value.value.size == OsStat(fs, p).value.size)
      && (r.value.value.IsDirectory() && depth == 0 ==> r.value.value.children == [])
    decreases depth, 3
  {
    match StatAt(fs, p, depth)
    case Success(s) => Success(Some(s))
    case Failure(e) => if StatSwallows(e) then Success(None) else Failure(e)
  }

  /** The body of the stat read, before its errors are sorted. */
  function StatAt(fs: FsState, p: Path, depth: nat): (r: Result<Stat, Error>)
    ensures r.Success? ==> OsStat(fs, p).Success? && r.value.path == p
    ensures r.Failure? ==> IsErrnoException(r.error)
    decreases depth, 2
  {
    var n :- OsStat(fs, p);
    match n
    case File(_, _, _) => Success(DoCreateFileStat(p, n))
    case Dir(_, _) =>
      if depth > 0 then
        var cs :- DoGetChildren(fs, p, depth);
        Success(DoCreateDirectoryStat(p, n, cs))
      else Success(DoCreateDirectoryStat(p, n, []))
  }

  function DoCreateFileStat(p: Path, n: Node): (s: Stat)
    requires n.File?
    ensures !s.IsDirectory() && s.path == p
    ensures s.lastModification == n.mtime && s.size == n.size
  {
    FileStat(p, n.mtime, n.size)
  }

  function DoCreateDirectoryStat(p: Path, n: Node, children: seq<Stat>): (s: Stat)
    requires n.Dir?
    ensures s.IsDirectory() && s.path == p
    ensures s.lastModification == n.mtime && s.children == children
  {
    DirStat(p, n.mtime, children)
  }

  /** The stats, one level shallower, of the listed children that were found. */
  function DoGetChildren(fs: FsState, p: Path, depth: nat): (r: Result<seq<Stat>, Error>)
    requires depth > 0
    ensures r.Success? ==> ReadDir(fs, p).Success? && |r.value| <= |ReadDir(fs, p).value|
    ensures r.Failure? ==> IsErrnoException(r.error)
    decreases depth, 1
  {
    var es :- ReadDir(fs, p);
    CollectChildren(fs, p, Names(es), depth)
  }

  function CollectChildren(fs: FsState, p: Path, names: seq<Name>, depth: nat): (r: Result<seq<Stat>, Error>)
    requires depth > 0
    ensures r.Success? ==> |r.value| <= |names|
    ensures r.Failure? ==> IsErrnoException(r.error)
    ensures r.Success? ==> forall k :: 0 <= k < |r.value| ==>
      exists i :: 0 <= i < |names| && r.value[k].path == p + [names[i]]
    decreases depth, 0, |names|
  {
    if names == [] then Success([])
    else
      var child :- DoGetStat(fs, p + [names[0]], depth - 1);
      var rest :- CollectChildren(fs, p, names[1..], depth);
      assert forall k :: 0 <= k < |rest| ==> exists i :: 0 <= i < |names| && rest[k].path == p + [names[i]] by {
        forall k | 0 <= k < |rest|
          ensures exists i :: 0 <= i < |names| && rest[k].path == p + [names[i]]
        {
          var i :| 0 <= i < |names[1..]| && rest[k].path == p + [names[1..][i]];
          assert names[1..][i] == names[i + 1];
        }
      }
      Success(if child.Some? then [child.value] + rest else rest)
  }

  /** What the stat read of `q` found, with a failed read counted as finding nothing. */
  function ReadOf(fs: FsState, q: Path, depth: nat): Option<Stat> {
    match DoGetStat(fs, q, depth)
    case Success(o) => o
    case Failure(_) => None
  }

  /** The reads of the listed children, in listing order. */
  function Reads(fs: FsState, p: Path, names: seq<Name>, depth: nat): (r: seq<Option<Stat>>)
    requires depth > 0
    ensures |r| == |names|
  {
    seq(|names|, i requires 0 <= i < |names| => ReadOf(fs, p + [names[i]], depth - 1))
  }

  /**
    `r` is the found entries of `xs` in order, and `idx` maps each element of
    `r` back to its position in `xs`: the positions increase, each holds that
    element, and every found entry of `xs` has its position in `idx`.
  */
  predicate Picks<T(==)>(xs: seq<Option<T>>, r: seq<T>, idx: seq<nat>) {
    && |idx| == |r|
    && (forall k :: 0 <= k < |idx| ==> idx[k] < |xs| && xs[idx[k]] == Some(r[k]))
    && (forall k, l :: 0 <= k < l < |idx| ==> idx[k] < idx[l])
    && (forall i :: 0 <= i < |xs| && xs[i].Some? ==> i in idx)
  }

  /** Putting one more entry in front keeps the picking: a found one is picked first. */
  lemma PicksCons<T>(x: Option<T>, xs: seq<Option<T>>, r: seq<T>, idx: seq<nat>) returns (idx': seq<nat>)
    requires Picks(xs, r, idx)
    ensures Picks([x] + xs, if x.Some? then [x.value] + r else r, idx')
  {
    var shifted := PicksShift(x, xs, r, idx);
    if x.Some? {
      idx' := PicksTake(x.value, xs, r, shifted);
    } else {
      idx' := shifted;
    }
  }

  /** A found head entry is picked at position 0, in front of the shifted positions. */
  lemma PicksTake<T>(v: T, xs: seq<Option<T>>, r: seq<T>, shifted: seq<nat>) returns (idx': seq<nat>)
    requires |shifted| == |r|
    requires forall k :: 0 <= k < |shifted| ==> 0 < shifted[k] < |xs| + 1 && ([Some(v)] + xs)[shifted[k]] == Some(r[k])
    requires forall k, l :: 0 <= k < l < |shifted| ==> shifted[k] < shifted[l]
    requires forall i :: 1 <= i < |xs| + 1 && ([Some(v)] + xs)[i].Some? ==> i in shifted
    ensures Picks([Some(v)] + xs, [v] + r, idx')
  {
    idx' := [0] + shifted;
    var ys := [Some(v)] + xs;
    var r' := [v] + r;
    forall k | 0 < k < |idx'|
      ensures idx'[k] == shifted[k - 1] && r'[k] == r[k - 1]
    {
    }
    forall i | 0 <= i < |ys| && ys[i].Some?
      ensures i in idx'
    {
      if i > 0 {
        var k :| 0 <= k < |shifted| && shifted[k] == i;
        assert idx'[k + 1] == i;
      }
    }
  }

  /** The positions of a picking, moved one place on behind a new head entry. */
  lemma PicksShift<T>(x: Option<T>, xs: seq<Option<T>>, r: seq<T>, idx: seq<nat>) returns (shifted: seq<nat>)
    requires Picks(xs, r, idx)
    ensures |shifted| == |r|
    ensures forall k :: 0 <= k < |shifted| ==> 0 < shifted[k] < |xs| + 1 && ([x] + xs)[shifted[k]] == Some(r[k])
    ensures forall k, l :: 0 <= k < l < |shifted| ==> shifted[k] < shifted[l]
    ensures forall i :: 1 <= i < |xs| + 1 && ([x] + xs)[i].Some? ==> i in shifted
  {
    shifted := seq(|idx|, k requires 0 <= k < |idx| => idx[k] + 1);
    var ys := [x] + xs;
    forall k | 0 <= k < |idx|
      ensures shifted[k] < |ys| && ys[shifted[k]] == xs[idx[k]]
    {
    }
    forall i | 1 <= i < |ys| && ys[i].Some?
      ensures i in shifted
    {
      assert ys[i] == xs[i - 1];
      var k :| 0 <= k < |idx| && idx[k] == i - 1;
      assert shifted[k] == i;
    }
  }

  /**
    The children kept are exactly the listed ones whose stat read finds
    something, in listing order: every found child is kept, no child
    answering "not found" appears, and the kept list is the found reads
    as a subsequence of the listing.
  */
  lemma {:induction false} ChildrenKeepFound(fs: FsState, p: Path, names: seq<Name>, depth: nat)
    requires depth > 0 && CollectChildren(fs, p, names, depth).Success?
    ensures var r := CollectChildren(fs, p, names, depth).value;
      forall i :: 0 <= i < |names| ==>
        var st := DoGetStat(fs, p + [names[i]], depth - 1);
        && st.Success?
        && (st.value.Some? ==> st.value.value in r)
        && (st.value.None? ==> forall k :: 0 <= k < |r| ==> r[k].path != p + [names[i]])
    ensures exists idx :: Picks(Reads(fs, p, names, depth), CollectChildren(fs, p, names, depth).value, idx)
    decreases |names|
  {
    var idx := ChildrenIndex(fs, p, names, depth);
    if names != [] {
      var r := CollectChildren(fs, p, names, depth).value;
      var child := DoGetStat(fs, p + [names[0]], depth - 1).value;
      var rest := CollectChildren(fs, p, names[1..], depth).value;
      assert r == if child.Some? then [child.value] + rest else rest;
      ChildrenKeepFound(fs, p, names[1..], depth);
      forall i | 1 <= i < |names|
        ensures names[1..][i - 1] == names[i]
      {
      }
    }
  }

  /** The listing positions of the kept children. */
  lemma {:induction false} ChildrenIndex(fs: FsState, p: Path, names: seq<Name>, depth: nat) returns (idx: seq<nat>)
    requires depth > 0 && CollectChildren(fs, p, names, depth).Success?
    ensures Picks(Reads(fs, p, names, depth), CollectChildren(fs, p, names, depth).value, idx)
    decreases |names|
  {
    if names == [] {
      idx := [];
    } else {
      var child := DoGetStat(fs, p + [names[0]], depth - 1).value;
      var rest := CollectChildren(fs, p, names[1..], depth).value;
      assert CollectChildren(fs, p, names, depth).value == if child.Some? then [child.value] + rest else rest;
      var tail := ChildrenIndex(fs, p, names[1..], depth);
      ReadsCons(fs, p, names, depth);
      idx := PicksCons(child, Reads(fs, p, names[1..], depth), rest, tail);
    }
  }

  lemma ReadsCons(fs: FsState, p: Path, names: seq<Name>, depth: nat)
    requires depth > 0 && names != []
    ensures Reads(fs, p, names, depth) == [ReadOf(fs, p + [names[0]], depth - 1)] + Reads(fs, p, names[1..], depth)
  {
    var a := Reads(fs, p, names, depth);
    var b := [ReadOf(fs, p + [names[0]], depth - 1)] + Reads(fs, p, names[1..], depth);
    forall i | 0 <= i < |a|
      ensures a[i] == b[i]
    {
      if i > 0 {
        assert names[1..][i - 1] == names[i];
      }
    }
  }

  // ----- Reference definition -----

  /** The stat of a node read straight from the tree, with nothing in the way. */
  function StatOf(n: Node, p: Path, depth: nat): Stat
    decreases depth, 0
  {
    match n
    case File(m, size, _) => FileStat(p, m, size)
    case Dir(m, es) => DirStat(p, m, if depth == 0 then [] else StatsOf(es, p, depth - 1))
  }

  function StatsOf(es: seq<Entry>, p: Path, depth: nat): seq<Stat>
    decreases depth, 1, |es|
  {
    if es == [] then [] else [StatOf(es[0].node, p + [es[0].name], depth)] + StatsOf(es[1..], p, depth)
  }

  /**
    On a well-formed tree with no read fault at or below `p`, the stat read
    returns exactly the reference stat: every listed child, in listing order,
    none dropped.
  */
  lemma {:induction false} DoGetStatIsStatOf(fs: FsState, p: Path, depth: nat)
    requires Valid(fs) && FaultFreeUnder(fs, p)
    requires Resolve(fs.root, p).Found?
    ensures DoGetStat(fs, p, depth) == Success(Some(StatOf(Resolve(fs.root, p).node, p, depth)))
    decreases depth, 1
  {
    var n := Resolve(fs.root, p).node;
    assert p <= p;
    if n.Dir? && depth > 0 {
      EntriesAreChildren(fs, p);
      ChildrenAreStatsOf(fs, p, n.entries, depth);
      assert ReadDir(fs, p) == Success(n.entries);
      assert DoGetChildren(fs, p, depth) == Success(StatsOf(n.entries, p, depth - 1));
    }
  }

  lemma {:induction false} ChildrenAreStatsOf(fs: FsState, p: Path, es: seq<Entry>, depth: nat)
    requires Valid(fs) && FaultFreeUnder(fs, p) && depth > 0
    requires DirAt(fs.root, p)
    requires forall i :: 0 <= i < |es| ==> Child(Resolve(fs.root, p).node.entries, es[i].name) == Some(es[i].node)
    ensures CollectChildren(fs, p, Names(es), depth) == Success(StatsOf(es, p, depth - 1))
    decreases depth, 0, |es|
  {
    if es != [] {
      var c := p + [es[0].name];
      ResolveChild(fs.root, p, es[0].name);
      FaultFreeBelow(fs, p, es[0].name);
      DoGetStatIsStatOf(fs, c, depth - 1);
      assert Names(es)[0] == es[0].name && Names(es)[1..] == Names(es[1..]);
      ChildrenAreStatsOf(fs, p, es[1..], depth);
      CollectCons(fs, p, Names(es), depth, StatOf(es[0].node, c, depth - 1), StatsOf(es[1..], p, depth - 1));
    }
  }

  /** A found first child heads the collected children. */
  lemma CollectCons(fs: FsState, p: Path, names: seq<Name>, depth: nat, st: Stat, rest: seq<Stat>)
    requires depth > 0 && names != []
    requires DoGetStat(fs, p + [names[0]], depth - 1) == Success(Some(st))
    requires CollectChildren(fs, p, names[1..], depth) == Success(rest)
    ensures CollectChildren(fs, p, names, depth) == Success([st] + rest)
  {
  }

  /** Every entry of a directory in a valid state is the child of its own name. */
  lemma EntriesAreChildren(fs: FsState, p: Path)
    requires Valid(fs) && DirAt(fs.root, p)
    ensures var es := Resolve(fs.root, p).node.entries;
      forall i :: 0 <= i < |es| ==> Child(es, es[i].name) == Some(es[i].node)
  {
    var es := Resolve(fs.root, p).node.entries;
    ResolvedWellFormed(fs.root, p);
    forall i | 0 <= i < |es|
      ensures Child(es, es[i].name) == Some(es[i].node)
    {
      ChildOfDistinct(es, i);
    }
  }

  /** The stat of a directory read on a valid, fault-free tree, named at the top. */
  lemma DirectoryStatListsEntries(fs: FsState, p: Path, depth: nat)
    requires Valid(fs) && FaultFreeUnder(fs, p) && DirAt(fs.root, p) && depth > 0
    ensures var es := Resolve(fs.root, p).node.entries;
      && DoGetStat(fs, p, depth).Success?
      && DoGetStat(fs, p, depth).value.Some?
      && var s := DoGetStat(fs, p, depth).value.value;
      && s.IsDirectory()
      && |s.children| == |es|
      && forall i :: 0 <= i < |es| ==> s.children[i].path == p + [es[i].name]
  {
    DoGetStatIsStatOf(fs, p, depth);
    var es := Resolve(fs.root, p).node.entries;
    StatsOfPaths(es, p, depth - 1);
  }

  lemma {:induction false} StatsOfPaths(es: seq<Entry>, p: Path, depth: nat)
    ensures |StatsOf(es, p, depth)| == |es|
    ensures forall i :: 0 <= i < |es| ==> StatsOf(es, p, depth)[i].path == p + [es[i].name]
    decreases |es|
  {
    if es != [] {
      StatsOfPaths(es[1..], p, depth);
    }
  }

  // ----- Errors of the stat read -----

  /**
    How a shallow stat read of a path with no fault answers: the node when it
    resolves, "not found" when a component is missing, and a propagated
    ENOTDIR when a file stands in the way.
  */
  lemma StatWithoutFault(fs: FsState, p: Path)
    requires p !in fs.faults
    ensures Resolve(fs.root, p).Found? ==> DoGetStat(fs, p, 0).Success? && DoGetStat(fs, p, 0).value.Some?
    ensures Resolve(fs.root, p).Absent? <==> DoGetStat(fs, p, 0) == Success(None)
    ensures Resolve(fs.root, p).NotADirectory? <==> DoGetStat(fs, p, 0) == Failure(OsError(ENOTDIR))
  {
  }

  /**
    A stat fault at the path yields "not found" exactly for ENOENT, EACCES,
    EBUSY and EPERM; every other code propagates unchanged.
  */
  lemma StatWithFault(fs: FsState, p: Path, depth: nat)
    requires p in fs.faults && fs.faults[p].StatFails?
    ensures var c := fs.faults[p].code;
      && (c in {ENOENT, EACCES, EBUSY, EPERM} ==> DoGetStat(fs, p, depth) == Success(None))
      && (c !in {ENOENT, EACCES, EBUSY, EPERM} ==> DoGetStat(fs, p, depth) == Failure(OsError(c)))
  {
  }

  // ----- mayHaveChildren -----

  /**
    Whether `p` might have children. Any doubt (not found, unreadable, an
    error listing the children) answers true, so that callers never treat a
    directory as empty without proof.
  */
  function MayHaveChildren(fs: FsState, p: Path): (r: bool)
    ensures !r ==> OsStat(fs, p).Success?
    ensures !r && OsStat(fs, p).value.Dir? ==>
      DoGetStat(fs, p, 1).Success? && DoGetStat(fs, p, 1).value.Some? &&
      DoGetStat(fs, p, 1).value.value.IsDirectory() && DoGetStat(fs, p, 1).value.value.children == []
  {
    match DoGetStat(fs, p, 0)
    case Failure(_) => true
    case Success(None) => true
    case Success(Some(s)) =>
      if !s.IsDirectory() then false
      else
        match DoGetStat(fs, p, 1)
        case Success(Some(DirStat(_, _, cs))) => |cs| > 0
        case _ => true
  }

  /**
    The three rows of the decision: absent or unreadable paths may have
    children, files have none, and a readable directory with no fault below
    it has children exactly when it lists at least one entry.
  */
  lemma MayHaveChildrenCases(fs: FsState, p: Path)
    requires Valid(fs)
    ensures DoGetStat(fs, p, 0).Failure? || DoGetStat(fs, p, 0) == Success(None) ==> MayHaveChildren(fs, p)
    ensures OsStat(fs, p).Success? && OsStat(fs, p).value.File? ==> !MayHaveChildren(fs, p)
    ensures FaultFreeUnder(fs, p) && DirAt(fs.root, p) ==>
      (MayHaveChildren(fs, p) <==> |Resolve(fs.root, p).node.entries| > 0)
  {
    if FaultFreeUnder(fs, p) && DirAt(fs.root, p) {
      DirectoryStatListsEntries(fs, p, 1);
      DoGetStatIsStatOf(fs, p, 0);
    }
  }
}
