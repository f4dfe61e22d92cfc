/**
  The effect on the tree of the operating-system calls the filesystem service
  makes: creating directories, writing a file, removing, touching, renaming
  and copying. Each returns the new tree or the errno-style error the call
  raises. Read faults play no part here.
*/
module Disk {
  import opened Wrappers
  import opened FileTree
  import opened Errors

  /** The node at `p`, or the error a call naming `p` raises. */
  function Lookup(n: Node, p: Path): (r: Result<Node, Error>)
    ensures r.Success? <==> Resolve(n, p).Found?
    ensures r.Success? ==> r.value == Resolve(n, p).node
  {
    match Resolve(n, p)
    case Found(x) => Success(x)
    case Absent => Failure(OsError(ENOENT))
    case NotADirectory => Failure(OsError(ENOTDIR))
  }

  function WithMtime(n: Node, now: nat): (r: Node)
    ensures r.mtime == now && r.Dir? == n.Dir?
    ensures r.File? ==> r.size == n.size && r.content == n.content
    ensures r.Dir? ==> r.entries == n.entries
  {
    match n
    case File(_, size, c) => File(now, size, c)
    case Dir(_, es) => Dir(now, es)
  }

  /** A fresh copy of a node: same shape and contents, every timestamp `now`. */
  function Restamp(n: Node, now: nat): (r: Node)
    ensures r.mtime == now && r.Dir? == n.Dir?
    ensures r.File? ==> r.size == n.size && r.content == n.content
    ensures r.Dir? ==> Names(r.entries) == Names(n.entries)
    decreases n
  {
    match n
    case File(_, size, c) => File(now, size, c)
    case Dir(_, es) => Dir(now, RestampAll(es, now))
  }

  function RestampAll(es: seq<Entry>, now: nat): (r: seq<Entry>)
    ensures Names(r) == Names(es)
    decreases es
  {
    if es == [] then [] else [Entry(es[0].name, Restamp(es[0].node, now))] + RestampAll(es[1..], now)
  }

  /** Every missing directory along `p` created, as `mkdir -p` does. */
  function Mkdirs(n: Node, p: Path, now: nat): (r: Result<Node, Error>)
    ensures r.Success? ==> r.value.Dir? && DirAt(r.value, p)
    ensures r.Success? ==> n.Dir? && r.value.mtime == n.mtime
    ensures r.Failure? ==> IsErrnoException(r.error)
    decreases |p|
  {
    match n
    case File(_, _, _) => Failure(OsError(if p == [] then EEXIST else ENOTDIR))
    case Dir(m, es) =>
      if p == [] then Success(n)
      else
        var c := Child(es, p[0]).GetOr(Dir(now, []));
        var c' :- Mkdirs(c, p[1..], now);
        var r := Dir(m, WithEntry(es, p[0], Some(c')));
        assert Resolve(r, p) == Resolve(c', p[1..]);
        Success(r)
  }

  /** `fs.writeFile`: the file at `p` created or truncated and rewritten. */
  function WriteFile(n: Node, p: Path, content: string, now: nat): (r: Result<Node, Error>)
    ensures r.Success? ==> p != [] && DirAt(n, Parent(p)) && !DirAt(n, p)
    ensures r.Success? ==> r.value == Put(n, p, Some(File(now, |content|, content)))
    ensures r.Failure? ==> IsErrnoException(r.error)
  {
    if p == [] then Failure(OsError(EISDIR))
    else
      match Resolve(n, Parent(p))
      case Found(d) =>
        if d.File? then Failure(OsError(ENOTDIR))
        else if DirAt(n, p) then Failure(OsError(EISDIR))
        else Success(Put(n, p, Some(File(now, |content|, content))))
      case Absent => Failure(OsError(ENOENT))
      case NotADirectory => Failure(OsError(ENOTDIR))
  }

  /** `fs.rmdir`: removes an empty directory, and nothing else. */
  function Rmdir(n: Node, p: Path): (r: Result<Node, Error>)
    ensures r.Success? ==> p != [] && DirAt(n, p) && Resolve(n, p).node.entries == []
    ensures r.Success? ==> DirAt(n, Parent(p)) && r.value == Put(n, p, None)
  {
    var x :- Lookup(n, p);
    if x.File? then Failure(OsError(ENOTDIR))
    else if x.entries != [] then Failure(OsError(ENOTEMPTY))
    else if p == [] then Failure(OsError(EBUSY))
    else
      ResolveAncestorIsDir(n, p, Parent(p));
      Success(Put(n, p, None))
  }

  /** `fs.remove`: removes a file or a whole directory; a missing path is not an error. */
  function Remove(n: Node, p: Path): (r: Result<Node, Error>)
    ensures Resolve(n, p).Absent? ==> r == Success(n)
    ensures r.Success? && Resolve(n, p).Found? ==> p != [] && DirAt(n, Parent(p)) && r.value == Put(n, p, None)
  {
    match Resolve(n, p)
    case Absent => Success(n)
    case NotADirectory => Failure(OsError(ENOTDIR))
    case Found(_) =>
      if p == [] then Failure(OsError(EBUSY))
      else
        ResolveAncestorIsDir(n, p, Parent(p));
        Success(Put(n, p, None))
  }

  /** Moving to the trash takes the entry out of the tree just as removing it does. */
  function Trash(n: Node, p: Path): Result<Node, Error> {
    Remove(n, p)
  }

  /** `fs.utimes` and `touch` on an existing path: only its timestamp changes. */
  function Utimes(n: Node, p: Path, now: nat): (r: Result<Node, Error>)
    ensures r.Success? <==> Resolve(n, p).Found?
    ensures r.Success? ==> (p == [] || DirAt(n, Parent(p)))
    ensures r.Success? ==> r.value == Put(n, p, Some(WithMtime(Resolve(n, p).node, now)))
  {
    var x :- Lookup(n, p);
    if p != [] then ResolveAncestorIsDir(n, p, Parent(p)); Success(Put(n, p, Some(WithMtime(x, now))))
    else Success(Put(n, p, Some(WithMtime(x, now))))
  }

  /**
    `mv` with parent creation: the node at `s` now lives at `t`. The target
    is replaced only when `clobber` is set, only by a node of the same kind,
    and a directory target only when it is empty.
  */
  function Rename(n: Node, s: Path, t: Path, clobber: bool, now: nat): (r: Result<Node, Error>)
    ensures r.Success? && s != t ==> Resolve(n, s).Found? && s != [] && t != [] && !(s <= t)
    ensures r.Success? && s != t ==> exists n1 ::
      && Mkdirs(n, Parent(t), now) == Success(n1)
      && RelocateReady(n1, s, t)
      && r.value == Put(Put(n1, s, None), t, Some(Resolve(n, s).node))
    ensures r.Success? && s != t && Resolve(Mkdirs(n, Parent(t), now).value, t).Found? ==>
      && clobber
      && var x := Resolve(Mkdirs(n, Parent(t), now).value, t).node;
      && x.Dir? == Resolve(n, s).node.Dir?
      && (x.Dir? ==> x.entries == [])
    ensures s == t && Resolve(n, s).Found? ==> r == Success(n)
    ensures r.Failure? ==> IsErrnoException(r.error)
  {
    var src :- Lookup(n, s);
    if s == t then Success(n)
    else if s <= t then Failure(OsError(EINVAL))
    else if t == [] then Failure(OsError(EBUSY))
    else
      var n1 :- Mkdirs(n, Parent(t), now);
      match Resolve(n1, t)
      case Found(x) =>
        if !clobber then Failure(OsError(EEXIST))
        else if x.Dir? && src.File? then Failure(OsError(EISDIR))
        else if x.File? && src.Dir? then Failure(OsError(ENOTDIR))
        else if x.Dir? && x.entries != [] then Failure(OsError(ENOTEMPTY))
        else
          PrepareRelocate(n, s, t, now);
          Success(Put(Put(n1, s, None), t, Some(src)))
      case _ =>
        PrepareRelocate(n, s, t, now);
        Success(Put(Put(n1, s, None), t, Some(src)))
  }

  /** The conditions under which `s` can be taken out of `n1` and put back at `t`. */
  predicate RelocateReady(n1: Node, s: Path, t: Path) {
    && s != [] && t != []
    && DirAt(n1, Parent(s))
    && DirAt(Put(n1, s, None), Parent(t))
  }

  lemma PrepareRelocate(n: Node, s: Path, t: Path, now: nat)
    requires Resolve(n, s).Found? && s != [] && t != [] && !(s <= t)
    requires Mkdirs(n, Parent(t), now).Success?
    ensures RelocateReady(Mkdirs(n, Parent(t), now).value, s, t)
    ensures Resolve(Mkdirs(n, Parent(t), now).value, s) == Resolve(n, s)
  {
    var n1 := Mkdirs(n, Parent(t), now).value;
    assert !(s < Parent(t));
    MkdirsFrame(n, Parent(t), now, s);
    ResolveAncestorIsDir(n1, s, Parent(s));
    if Parent(t) < s {
      PutAbove(n1, s, None, Parent(t));
    } else {
      PutElsewhere(n1, s, None, Parent(t));
    }
  }

  /**
    `fs.copy` (which overwrites by default): the node at `s` copied to `t`
    with fresh timestamps, creating the parents of `t`. A directory is merged
    into an existing directory; a file replaces an existing file.
  */
  function CopyTree(n: Node, s: Path, t: Path, now: nat): (r: Result<Node, Error>)
    ensures r.Success? ==> Resolve(n, s).Found? && !(s <= t)
    ensures r.Success? && t != [] ==> exists n1 ::
      && Mkdirs(n, Parent(t), now) == Success(n1)
      && (Resolve(n1, t).Found? ==>
            (Merge(Resolve(n, s).node, Resolve(n1, t).node, now).Some? &&
             r.value == Put(n1, t, Some(Merge(Resolve(n, s).node, Resolve(n1, t).node, now).value))))
      && (!Resolve(n1, t).Found? ==> r.value == Put(n1, t, Some(Restamp(Resolve(n, s).node, now))))
    ensures r.Success? && t == [] ==> Merge(Resolve(n, s).node, n, now) == Some(r.value)
  {
    var src :- Lookup(n, s);
    if s <= t then Failure(CopyRefused(s, t))
    else if t == [] then
      match Merge(src, n, now)
      case None => Failure(CopyRefused(s, t))
      case Some(m) => Success(m)
    else
      var n1 :- Mkdirs(n, Parent(t), now);
      match Resolve(n1, t)
      case Found(x) =>
        (match Merge(src, x, now)
         case None => Failure(CopyRefused(s, t))
         case Some(m) => Success(Put(n1, t, Some(m))))
      case _ => Success(Put(n1, t, Some(Restamp(src, now))))
  }

  /**
    Copying `src` over an existing `dst`: files replace files, directories
    merge entry by entry, and a file meeting a directory is refused (`None`).
  */
  function Merge(src: Node, dst: Node, now: nat): (r: Option<Node>)
    ensures r.Some? ==> r.value.Dir? == dst.Dir? && r.value.Dir? == src.Dir? && r.value.mtime == now
    ensures r.Some? && src.File? ==> r.value == Restamp(src, now)
    decreases src
  {
    match src
    case File(_, _, _) => if dst.File? then Some(Restamp(src, now)) else None
    case Dir(_, ses) =>
      if dst.File? then None
      else
        match MergeEntries(ses, dst.entries, now)
        case None => None
        case Some(es) => Some(Dir(now, es))
  }

  function MergeEntries(ses: seq<Entry>, des: seq<Entry>, now: nat): (r: Option<seq<Entry>>)
    decreases ses
  {
    if ses == [] then Some(des)
    else
      var e := ses[0];
      var merged := match Child(des, e.name)
        case None => Some(Restamp(e.node, now))
        case Some(d) => Merge(e.node, d, now);
      match merged
      case None => None
      case Some(m) => MergeEntries(ses[1..], WithEntry(des, e.name, Some(m)), now)
  }

  /**
    Copying a directory onto an empty directory yields a fresh-stamped
    replica of the source: with nothing to merge into, every entry is
    appended in listing order.
  */
  lemma MergeOntoEmpty(src: Node, m: nat, now: nat)
    requires WellFormed(src) && src.Dir?
    ensures Merge(src, Dir(m, []), now) == Some(Restamp(src, now))
  {
    MergeEntriesIntoFresh(src.entries, [], now);
    assert [] + RestampAll(src.entries, now) == RestampAll(src.entries, now);
  }

  /** Merging entries none of whose names the target has appends their fresh copies. */
  lemma {:induction false} MergeEntriesIntoFresh(ses: seq<Entry>, des: seq<Entry>, now: nat)
    requires DistinctNames(ses)
    requires forall i :: 0 <= i < |ses| ==> Child(des, ses[i].name).None?
    ensures MergeEntries(ses, des, now) == Some(des + RestampAll(ses, now))
    decreases ses
  {
    if ses != [] {
      var e := ses[0];
      var x := Restamp(e.node, now);
      ReplacedAbsent(des, e.name, x);
      var des' := des + [Entry(e.name, x)];
      assert WithEntry(des, e.name, Some(x)) == des';
      forall i | 0 <= i < |ses[1..]|
        ensures Child(des', ses[1..][i].name).None?
      {
        assert ses[1..][i] == ses[i + 1];
      }
      assert DistinctNames(ses[1..]) by {
        forall a, b | 0 <= a < b < |ses[1..]|
          ensures ses[1..][a].name != ses[1..][b].name
        {
          assert ses[1..][a] == ses[a + 1] && ses[1..][b] == ses[b + 1];
        }
      }
      assert MergeEntries(ses, des, now) == MergeEntries(ses[1..], des', now);
      MergeEntriesIntoFresh(ses[1..], des', now);
      assert RestampAll(ses, now) == [Entry(e.name, x)] + RestampAll(ses[1..], now);
      AppendOne(des, Entry(e.name, x), RestampAll(ses[1..], now));
    } else {
      assert des + [] == des;
    }
  }

  lemma AppendOne(a: seq<Entry>, e: Entry, b: seq<Entry>)
    ensures (a + [e]) + b == a + ([e] + b)
  {
  }

  // ----- Frame and well-formedness of the primitives -----

  /**
    `Mkdirs` only adds: everything that resolved and is not a proper ancestor
    of `p` resolves to the same node, and paths beside `p` are untouched.
  */
  lemma {:induction false} MkdirsFrame(n: Node, p: Path, now: nat, q: Path)
    requires Mkdirs(n, p, now).Success?
    ensures Resolve(n, q).Found? && !(q < p) ==> Resolve(Mkdirs(n, p, now).value, q) == Resolve(n, q)
    ensures !(q <= p) && !(p <= q) ==> Resolve(Mkdirs(n, p, now).value, q) == Resolve(n, q)
    ensures !Resolve(n, q).Found? && !(q <= p) ==> !Resolve(Mkdirs(n, p, now).value, q).Found?
    decreases |p|
  {
    var r := Mkdirs(n, p, now).value;
    if p != [] && q != [] && q[0] == p[0] {
      var c := Child(n.entries, p[0]).GetOr(Dir(now, []));
      var c' := Mkdirs(c, p[1..], now).value;
      assert Resolve(r, q) == Resolve(c', q[1..]);
      assert q == [q[0]] + q[1..] && p == [p[0]] + p[1..];
      MkdirsFrame(c, p[1..], now, q[1..]);
      if Child(n.entries, p[0]).None? && !(q <= p) && !(p <= q) {
        assert q[1..] != [];
      }
    }
  }

  lemma {:induction false} MkdirsWellFormed(n: Node, p: Path, now: nat)
    requires WellFormed(n) && Mkdirs(n, p, now).Success?
    ensures WellFormed(Mkdirs(n, p, now).value)
    decreases |p|
  {
    if p != [] {
      var c := Child(n.entries, p[0]).GetOr(Dir(now, []));
      ChildWellFormed(n.entries, p[0]);
      MkdirsWellFormed(c, p[1..], now);
      WithEntryWellFormed(n.mtime, n.entries, p[0], Some(Mkdirs(c, p[1..], now).value));
    }
  }

  lemma {:induction false} RestampWellFormed(n: Node, now: nat)
    requires WellFormed(n)
    ensures WellFormed(Restamp(n, now))
    decreases n
  {
    match n
    case File(_, _, _) =>
    case Dir(_, es) =>
      RestampAllWellFormed(es, now);
      var r := RestampAll(es, now);
      assert DistinctNames(r) by {
        forall i, j | 0 <= i < j < |r|
          ensures r[i].name != r[j].name
        {
          assert Names(r)[i] == Names(es)[i] && Names(r)[j] == Names(es)[j];
        }
      }
  }

  lemma {:induction false} RestampAllWellFormed(es: seq<Entry>, now: nat)
    requires forall i :: 0 <= i < |es| ==> WellFormed(es[i].node)
    ensures forall i :: 0 <= i < |RestampAll(es, now)| ==> WellFormed(RestampAll(es, now)[i].node)
    decreases es
  {
    if es != [] {
      RestampWellFormed(es[0].node, now);
      RestampAllWellFormed(es[1..], now);
    }
  }

  lemma {:induction false} MergeWellFormed(src: Node, dst: Node, now: nat)
    requires WellFormed(src) && WellFormed(dst)
    requires Merge(src, dst, now).Some?
    ensures WellFormed(Merge(src, dst, now).value)
    decreases src
  {
    match src
    case File(_, _, _) =>
    case Dir(_, ses) =>
      MergeEntriesWellFormed(ses, dst.entries, now, dst.mtime);
  }

  lemma {:induction false} MergeEntriesWellFormed(ses: seq<Entry>, des: seq<Entry>, now: nat, m: nat)
    requires forall i :: 0 <= i < |ses| ==> WellFormed(ses[i].node)
    requires WellFormed(Dir(m, des))
    requires MergeEntries(ses, des, now).Some?
    ensures WellFormed(Dir(now, MergeEntries(ses, des, now).value))
    decreases ses
  {
    if ses != [] {
      var e := ses[0];
      var merged := match Child(des, e.name)
        case None => Some(Restamp(e.node, now))
        case Some(d) => Merge(e.node, d, now);
      match Child(des, e.name) {
        case None => RestampWellFormed(e.node, now);
        case Some(d) =>
          ChildWellFormed(des, e.name);
          MergeWellFormed(e.node, d, now);
      }
      WithEntryWellFormed(m, des, e.name, merged);
      MergeEntriesWellFormed(ses[1..], WithEntry(des, e.name, merged), now, m);
    }
  }

  lemma WriteFileWellFormed(n: Node, p: Path, content: string, now: nat)
    requires WellFormed(n) && WriteFile(n, p, content, now).Success?
    ensures WellFormed(WriteFile(n, p, content, now).value) && WriteFile(n, p, content, now).value.Dir?
  {
    PutWellFormed(n, p, Some(File(now, |content|, content)));
  }

  lemma RmdirWellFormed(n: Node, p: Path)
    requires WellFormed(n) && Rmdir(n, p).Success?
    ensures WellFormed(Rmdir(n, p).value) && Rmdir(n, p).value.Dir?
  {
    PutWellFormed(n, p, None);
  }

  lemma RemoveWellFormed(n: Node, p: Path)
    requires WellFormed(n) && n.Dir? && Remove(n, p).Success?
    ensures WellFormed(Remove(n, p).value) && Remove(n, p).value.Dir?
  {
    if Resolve(n, p).Found? {
      PutWellFormed(n, p, None);
    }
  }

  lemma UtimesWellFormed(n: Node, p: Path, now: nat)
    requires WellFormed(n) && n.Dir? && Utimes(n, p, now).Success?
    ensures WellFormed(Utimes(n, p, now).value) && Utimes(n, p, now).value.Dir?
  {
    ResolvedWellFormed(n, p);
    PutWellFormed(n, p, Some(WithMtime(Resolve(n, p).node, now)));
  }

  lemma RenameWellFormed(n: Node, s: Path, t: Path, clobber: bool, now: nat)
    requires WellFormed(n) && n.Dir? && Rename(n, s, t, clobber, now).Success?
    ensures WellFormed(Rename(n, s, t, clobber, now).value) && Rename(n, s, t, clobber, now).value.Dir?
  {
    if s != t {
      var n1 := Mkdirs(n, Parent(t), now).value;
      MkdirsWellFormed(n, Parent(t), now);
      ResolvedWellFormed(n, s);
      PutWellFormed(n1, s, None);
      PutWellFormed(Put(n1, s, None), t, Some(Resolve(n, s).node));
    }
  }

  lemma CopyTreeWellFormed(n: Node, s: Path, t: Path, now: nat)
    requires WellFormed(n) && n.Dir? && CopyTree(n, s, t, now).Success?
    ensures WellFormed(CopyTree(n, s, t, now).value) && CopyTree(n, s, t, now).value.Dir?
  {
    var src := Resolve(n, s).node;
    ResolvedWellFormed(n, s);
    if t == [] {
      MergeWellFormed(src, n, now);
    } else {
      var n1 := Mkdirs(n, Parent(t), now).value;
      MkdirsWellFormed(n, Parent(t), now);
      if Resolve(n1, t).Found? {
        ResolvedWellFormed(n1, t);
        MergeWellFormed(src, Resolve(n1, t).node, now);
        PutWellFormed(n1, t, Some(Merge(src, Resolve(n1, t).node, now).value));
      } else {
        RestampWellFormed(src, now);
        PutWellFormed(n1, t, Some(Restamp(src, now)));
      }
    }
  }

  /** `mkdir -p` succeeds whenever nothing but directories stands on the way to `p`. */
  lemma {:induction false} MkdirsSucceeds(n: Node, p: Path, now: nat)
    requires n.Dir?
    requires Resolve(n, p).Absent? || DirAt(n, p)
    ensures Mkdirs(n, p, now).Success?
    decreases |p|
  {
    if p != [] {
      match Child(n.entries, p[0])
      case None =>
        assert Resolve(Dir(now, []), p[1..]).Absent? || p[1..] == [];
        MkdirsSucceeds(Dir(now, []), p[1..], now);
      case Some(c) =>
        assert Resolve(n, p) == Resolve(c, p[1..]);
        assert c.Dir?;
        MkdirsSucceeds(c, p[1..], now);
    }
  }
}
