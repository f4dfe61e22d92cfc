/**
  The directory tree the filesystem service and the search walk operate on.

  A path is a sequence of names below the filesystem root; the root itself is
  the empty path. A directory keeps its entries in listing order, which is the
  order a directory read returns them in.
*/
module FileTree {
  import opened Wrappers

  type Name = string
  type Path = seq<Name>

  datatype Node =
    | File(mtime: nat, size: nat, content: string)
    | Dir(mtime: nat, entries: seq<Entry>)

  datatype Entry = Entry(name: Name, node: Node)

  function Parent(p: Path): Path
    requires p != []
  {
    p[..|p| - 1]
  }

  /** The names of a listing, in listing order. */
  function Names(es: seq<Entry>): (r: seq<Name>)
    ensures |r| == |es| && forall i :: 0 <= i < |es| ==> r[i] == es[i].name
  {
    if es == [] then [] else [es[0].name] + Names(es[1..])
  }

  /** The node listed under `name`, the first one when a name repeats. */
  function Child(es: seq<Entry>, name: Name): (r: Option<Node>)
    ensures r.Some? <==> exists i :: 0 <= i < |es| && es[i].name == name
    ensures r.Some? ==> exists i :: 0 <= i < |es| && es[i] == Entry(name, r.value)
  {
    if es == [] then None
    else if es[0].name == name then Some(es[0].node)
    else
      var r := Child(es[1..], name);
      assert forall i :: 0 < i < |es| ==> es[i] == es[1..][i - 1];
      r
  }

  /** The entries without any entry called `name`. */
  function Without(es: seq<Entry>, name: Name): (r: seq<Entry>)
    ensures Child(r, name).None?
    ensures forall m :: m != name ==> Child(r, m) == Child(es, m)
    ensures forall i :: 0 <= i < |r| ==> r[i] in es
  {
    if es == [] then []
    else if es[0].name == name then Without(es[1..], name)
    else [es[0]] + Without(es[1..], name)
  }

  /** The entries with the one called `name` replaced, removed or appended. */
  function WithEntry(es: seq<Entry>, name: Name, sub: Option<Node>): (r: seq<Entry>)
    ensures Child(r, name) == sub
    ensures forall m :: m != name ==> Child(r, m) == Child(es, m)
  {
    match sub
    case None => Without(es, name)
    case Some(x) => Replaced(es, name, x)
  }

  function Replaced(es: seq<Entry>, name: Name, x: Node): (r: seq<Entry>)
    ensures Child(r, name) == Some(x)
    ensures forall m :: m != name ==> Child(r, m) == Child(es, m)
    ensures Child(es, name).Some? ==> |r| == |es|
    ensures forall i :: 0 <= i < |r| ==> r[i] in es || r[i] == Entry(name, x)
  {
    if es == [] then [Entry(name, x)]
    else if es[0].name == name then [Entry(name, x)] + es[1..]
    else [es[0]] + Replaced(es[1..], name, x)
  }

  /** What a path lookup meets: the node, a missing component, or a file in the way. */
  datatype Resolution = Found(node: Node) | Absent | NotADirectory

  function Resolve(n: Node, p: Path): Resolution
    decreases |p|
  {
    if p == [] then Found(n)
    else
      match n
      case File(_, _, _) => NotADirectory
      case Dir(_, es) =>
        match Child(es, p[0])
        case None => Absent
        case Some(c) => Resolve(c, p[1..])
  }

  predicate DirAt(n: Node, p: Path) {
    Resolve(n, p).Found? && Resolve(n, p).node.Dir?
  }

  predicate DistinctNames(es: seq<Entry>) {
    forall i, j :: 0 <= i < j < |es| ==> es[i].name != es[j].name
  }

  /** No directory anywhere in the tree lists the same name twice. */
  predicate WellFormed(n: Node) {
    match n
    case File(_, _, _) => true
    case Dir(_, es) => DistinctNames(es) && forall i :: 0 <= i < |es| ==> WellFormed(es[i].node)
  }

  /**
    The tree with the entry at `p` set to `sub`: replaced or created when
    `sub` is a node, removed when it is `None`. Only the root can be replaced
    at the empty path, and the parent of `p` must be a directory.
  */
  function Put(n: Node, p: Path, sub: Option<Node>): (r: Node)
    requires p == [] ==> sub.Some?
    requires p != [] ==> DirAt(n, Parent(p))
    ensures p != [] ==> r.Dir? && r.mtime == n.mtime
    decreases |p|
  {
    if p == [] then sub.value
    else if |p| == 1 then Dir(n.mtime, WithEntry(n.entries, p[0], sub))
    else
      var c := Child(n.entries, p[0]).value;
      assert Parent(p)[1..] == Parent(p[1..]);
      Dir(n.mtime, WithEntry(n.entries, p[0], Some(Put(c, p[1..], sub))))
  }

  // ----- Lemmas about lookups -----

  /** Resolving a concatenated path resolves the first part, then the rest. */
  lemma {:induction false} ResolveAppend(n: Node, p: Path, q: Path)
    ensures Resolve(n, p).Found? ==> Resolve(n, p + q) == Resolve(Resolve(n, p).node, q)
    ensures !Resolve(n, p).Found? ==> Resolve(n, p + q) == Resolve(n, p)
    decreases |p|
  {
    if p != [] {
      assert (p + q)[0] == p[0];
      assert (p + q)[1..] == p[1..] + q;
      if n.Dir? && Child(n.entries, p[0]).Some? {
        ResolveAppend(Child(n.entries, p[0]).value, p[1..], q);
      }
    } else {
      assert p + q == q;
    }
  }

  /** Every proper prefix of a path that resolves is a directory. */
  lemma {:induction false} ResolveAncestorIsDir(n: Node, p: Path, q: Path)
    requires Resolve(n, p).Found?
    requires q < p
    ensures DirAt(n, q)
  {
    var rest := p[|q|..];
    assert p == q + rest;
    ResolveAppend(n, q, rest);
    assert rest != [];
  }

  /** A directory's child resolves to the entry of that name. */
  lemma ResolveChild(n: Node, p: Path, name: Name)
    requires DirAt(n, p)
    ensures Resolve(n, p + [name]) ==
      match Child(Resolve(n, p).node.entries, name)
      case None => Absent
      case Some(c) => Found(c)
  {
    ResolveAppend(n, p, [name]);
  }

  /** In a directory with distinct names, each entry is the child of its name. */
  lemma {:induction false} ChildOfDistinct(es: seq<Entry>, i: nat)
    requires DistinctNames(es) && i < |es|
    ensures Child(es, es[i].name) == Some(es[i].node)
    decreases i
  {
    if i > 0 {
      assert es[0].name != es[i].name;
      assert DistinctNames(es[1..]) by {
        forall a, b | 0 <= a < b < |es[1..]|
          ensures es[1..][a].name != es[1..][b].name
        {
          assert es[1..][a] == es[a + 1] && es[1..][b] == es[b + 1];
        }
      }
      ChildOfDistinct(es[1..], i - 1);
    }
  }

  // ----- Lemmas about Put -----

  /** After `Put`, the path and everything below it is what was put there. */
  lemma {:induction false} PutBelow(n: Node, p: Path, sub: Option<Node>, q: Path)
    requires p == [] ==> sub.Some?
    requires p != [] ==> DirAt(n, Parent(p))
    ensures sub.Some? ==> Resolve(Put(n, p, sub), p + q) == Resolve(sub.value, q)
    ensures sub.None? ==> Resolve(Put(n, p, sub), p + q) == Absent
    decreases |p|
  {
    if p == [] {
      assert p + q == q;
    } else {
      var r := Put(n, p, sub);
      assert (p + q)[0] == p[0];
      assert (p + q)[1..] == p[1..] + q;
      if |p| == 1 {
        assert p[1..] + q == q;
      } else {
        var c := Child(n.entries, p[0]).value;
        assert Parent(p)[1..] == Parent(p[1..]);
        PutBelow(c, p[1..], sub, q);
      }
    }
  }

  /** After `Put`, the point itself holds what was put. */
  lemma PutHere(n: Node, p: Path, sub: Option<Node>)
    requires p == [] ==> sub.Some?
    requires p != [] ==> DirAt(n, Parent(p))
    ensures sub.Some? ==> Resolve(Put(n, p, sub), p) == Found(sub.value)
    ensures sub.None? ==> Resolve(Put(n, p, sub), p) == Absent
  {
    PutBelow(n, p, sub, []);
    assert p + [] == p;
  }

  /** `Put` leaves every path unchanged that is neither above nor below the point. */
  lemma {:induction false} PutElsewhere(n: Node, p: Path, sub: Option<Node>, q: Path)
    requires p == [] ==> sub.Some?
    requires p != [] ==> DirAt(n, Parent(p))
    requires !(p <= q) && !(q <= p)
    ensures Resolve(Put(n, p, sub), q) == Resolve(n, q)
    decreases |p|
  {
    assert p != [] && q != [];
    if p[0] != q[0] {
    } else {
      var c := Child(n.entries, p[0]).value;
      assert Parent(p)[1..] == Parent(p[1..]);
      assert p == [p[0]] + p[1..] && q == [q[0]] + q[1..];
      PutElsewhere(c, p[1..], sub, q[1..]);
    }
  }

  /** `Put` keeps every proper ancestor of the point a directory with its timestamp. */
  lemma {:induction false} PutAbove(n: Node, p: Path, sub: Option<Node>, q: Path)
    requires p != [] && DirAt(n, Parent(p))
    requires q < p
    ensures DirAt(n, q) && DirAt(Put(n, p, sub), q)
    ensures Resolve(Put(n, p, sub), q).node.mtime == Resolve(n, q).node.mtime
    decreases |p|
  {
    if q < Parent(p) {
      ResolveAncestorIsDir(n, Parent(p), q);
    }
    if q != [] && |p| > 1 {
      var c := Child(n.entries, p[0]).value;
      assert Parent(p)[1..] == Parent(p[1..]);
      assert q[1..] < p[1..];
      PutAbove(c, p[1..], sub, q[1..]);
    }
  }

  // ----- Well-formedness -----

  lemma {:induction false} WithoutDistinct(es: seq<Entry>, name: Name)
    requires DistinctNames(es)
    ensures DistinctNames(Without(es, name))
    decreases |es|
  {
    if es != [] {
      WithoutDistinct(es[1..], name);
      if es[0].name != name {
        var r := Without(es[1..], name);
        forall i | 0 <= i < |r|
          ensures r[i].name != es[0].name
        {
          assert r[i] in es[1..];
        }
      }
    }
  }

  lemma {:induction false} ReplacedDistinct(es: seq<Entry>, name: Name, x: Node)
    requires DistinctNames(es)
    ensures DistinctNames(Replaced(es, name, x))
    decreases |es|
  {
    if es != [] && es[0].name != name {
      ReplacedDistinct(es[1..], name, x);
      var r := Replaced(es[1..], name, x);
      forall i | 0 <= i < |r|
        ensures r[i].name != es[0].name
      {
        assert r[i] in es[1..] || r[i] == Entry(name, x);
      }
      ConsDistinct(es[0], r);
    }
  }

  /** Replacing a name the listing does not have appends the entry at the end. */
  lemma {:induction false} ReplacedAbsent(es: seq<Entry>, name: Name, x: Node)
    requires Child(es, name).None?
    ensures Replaced(es, name, x) == es + [Entry(name, x)]
    decreases |es|
  {
    if es != [] {
      assert es[0].name != name;
      assert Child(es[1..], name) == Child(es, name);
      ReplacedAbsent(es[1..], name, x);
      assert Replaced(es, name, x) == [es[0]] + (es[1..] + [Entry(name, x)]);
      assert [es[0]] + (es[1..] + [Entry(name, x)]) == es + [Entry(name, x)];
    }
  }

  /** An entry whose name the rest does not use keeps the names distinct. */
  lemma ConsDistinct(e: Entry, r: seq<Entry>)
    requires DistinctNames(r)
    requires forall i :: 0 <= i < |r| ==> r[i].name != e.name
    ensures DistinctNames([e] + r)
  {
    var full := [e] + r;
    forall i, j | 0 <= i < j < |full|
      ensures full[i].name != full[j].name
    {
      assert full[j] == r[j - 1];
      if i > 0 {
        assert full[i] == r[i - 1];
      }
    }
  }

  /** Every entry of `WithEntry` is an old entry or the one that was put. */
  lemma WithEntryFrom(es: seq<Entry>, name: Name, sub: Option<Node>)
    ensures forall e :: e in WithEntry(es, name, sub) ==> e in es || (sub.Some? && e == Entry(name, sub.value))
  {
    var r := WithEntry(es, name, sub);
    forall e | e in r
      ensures e in es || (sub.Some? && e == Entry(name, sub.value))
    {
      var i :| 0 <= i < |r| && r[i] == e;
    }
  }

  lemma WithEntryWellFormed(m: nat, es: seq<Entry>, name: Name, sub: Option<Node>)
    requires WellFormed(Dir(m, es))
    requires sub.Some? ==> WellFormed(sub.value)
    ensures WellFormed(Dir(m, WithEntry(es, name, sub)))
  {
    match sub {
      case None => WithoutDistinct(es, name);
      case Some(x) => ReplacedDistinct(es, name, x);
    }
    WithEntryFrom(es, name, sub);
    var r := WithEntry(es, name, sub);
    forall i | 0 <= i < |r|
      ensures WellFormed(r[i].node)
    {
      assert r[i] in r;
      if r[i] in es {
        var j :| 0 <= j < |es| && es[j] == r[i];
      }
    }
  }

  lemma ChildWellFormed(es: seq<Entry>, name: Name)
    requires forall i :: 0 <= i < |es| ==> WellFormed(es[i].node)
    ensures Child(es, name).Some? ==> WellFormed(Child(es, name).value)
  {
  }

  /** `Put` of a well-formed node into a well-formed tree keeps it well-formed. */
  lemma {:induction false} PutWellFormed(n: Node, p: Path, sub: Option<Node>)
    requires p == [] ==> sub.Some?
    requires p != [] ==> DirAt(n, Parent(p))
    requires WellFormed(n)
    requires sub.Some? ==> WellFormed(sub.value)
    ensures WellFormed(Put(n, p, sub))
    decreases |p|
  {
    if p == [] {
    } else if |p| == 1 {
      WithEntryWellFormed(n.mtime, n.entries, p[0], sub);
    } else {
      var c := Child(n.entries, p[0]).value;
      assert Parent(p)[1..] == Parent(p[1..]);
      ChildWellFormed(n.entries, p[0]);
      PutWellFormed(c, p[1..], sub);
      WithEntryWellFormed(n.mtime, n.entries, p[0], Some(Put(c, p[1..], sub)));
    }
  }

  /** Every node reachable in a well-formed tree is well-formed. */
  lemma {:induction false} ResolvedWellFormed(n: Node, p: Path)
    requires WellFormed(n) && Resolve(n, p).Found?
    ensures WellFormed(Resolve(n, p).node)
    decreases |p|
  {
    if p != [] {
      ChildWellFormed(n.entries, p[0]);
      ResolvedWellFormed(Child(n.entries, p[0]).value, p[1..]);
    }
  }

  /** Nothing resolves strictly below an empty directory. */
  lemma NothingBelowEmpty(n: Node, d: Path, q: Path)
    requires DirAt(n, d) && Resolve(n, d).node.entries == []
    requires d < q
    ensures Resolve(n, q).Absent?
  {
    var rest := q[|d|..];
    assert q == d + rest;
    ResolveAppend(n, d, rest);
  }
}
