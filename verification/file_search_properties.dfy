/**
  What the search returns, stated against a reference: `Files` lists every
  file below a directory that the filter lets through, in depth-first
  listing order, and `Matching` keeps the ones the match rule accepts.
  On a tree with no read fault below the base, the search returns exactly
  the first `limit` of those matches.
*/
module FileSearchProperties {
  import opened Wrappers
  import opened FileTree
  import opened Errors
  import opened StatTree
  import opened TextMatch
  import opened FileSearch

  // ----- Reference definitions -----

  /** The files below the directory `p` with entries `es`, skipping denied subtrees. */
  function Files(env: Env, p: Path, es: seq<Entry>): seq<Path>
    decreases es
  {
    if es == [] then [] else EntryFiles(env, p, es[0]) + Files(env, p, es[1..])
  }

  /** The files at or below the entry `e` of the directory `p`; none when the filter denies it. */
  function EntryFiles(env: Env, p: Path, e: Entry): seq<Path>
    decreases e
  {
    if Skips(env, e.name) then [] else FilesUnder(env, p + [e.name], e.node)
  }

  /** The files at or below the entry `n` at path `c`. */
  function FilesUnder(env: Env, c: Path, n: Node): seq<Path>
    decreases n
  {
    if n.File? then [c] else Files(env, c, n.entries)
  }

  /** The paths the match rule accepts, in order. */
  function Matching(env: Env, xs: seq<Path>): seq<Path> {
    if xs == [] then []
    else (if Matches(env, xs[0]) then [xs[0]] else []) + Matching(env, xs[1..])
  }

  function Min(a: int, b: int): int {
    if a <= b then a else b
  }

  predicate Distinct(s: seq<Path>) {
    forall i, j :: 0 <= i < j < |s| ==> s[i] != s[j]
  }

  /** No segment of `x` from position `from` on is denied by the filter. */
  predicate Unskipped(env: Env, x: Path, from: nat) {
    forall k :: from <= k < |x| ==> !Skips(env, x[k])
  }

  // ----- Lemmas about the reference -----

  lemma {:induction false} MatchingAppend(env: Env, a: seq<Path>, b: seq<Path>)
    ensures Matching(env, a + b) == Matching(env, a) + Matching(env, b)
    decreases |a|
  {
    if a == [] {
      assert a + b == b;
    } else {
      assert (a + b)[0] == a[0] && (a + b)[1..] == a[1..] + b;
      MatchingAppend(env, a[1..], b);
    }
  }

  /** `Matching` keeps exactly the accepted elements, so it keeps distinctness. */
  lemma {:induction false} MatchingIsFilter(env: Env, xs: seq<Path>)
    ensures forall x :: x in Matching(env, xs) <==> x in xs && Matches(env, x)
    ensures Distinct(xs) ==> Distinct(Matching(env, xs))
    decreases |xs|
  {
    if xs != [] {
      MatchingIsFilter(env, xs[1..]);
      assert forall x :: x in xs <==> x == xs[0] || x in xs[1..];
      if Distinct(xs) {
        assert Distinct(xs[1..]);
        assert xs[0] !in xs[1..];
        DistinctAppend((if Matches(env, xs[0]) then [xs[0]] else []), Matching(env, xs[1..]));
      }
    }
  }

  lemma DistinctAppend(a: seq<Path>, b: seq<Path>)
    requires Distinct(a) && Distinct(b)
    requires forall x :: x in a ==> x !in b
    ensures Distinct(a + b)
  {
    forall i, j | 0 <= i < j < |a + b|
      ensures (a + b)[i] != (a + b)[j]
    {
      if i < |a| && |a| <= j {
        assert (a + b)[i] in a && (a + b)[j] in b;
      }
    }
  }

  // ----- The walk computes the reference -----

  /**
    The walk ended as the reference says it should after collecting `all`:
    it did not fail, holds `all` cut at the cap, and stopped early only with
    exactly the cap collected.
  */
  predicate CutOf(r: Walk, all: seq<Path>, cap: nat) {
    && !r.status.Failed?
    && r.found == all[..Min(|all|, cap)]
    && (r.status.Running? ==> |all| <= cap)
    && (r.status.LimitReached? ==> |r.found| == cap)
  }

  /**
    On entries with no read fault at or below `p`, the walk never fails and
    collects the matches of `Files` after what it had, cut at the cap; it
    stops early only with exactly the cap collected.
  */
  lemma {:induction false} WalkEntriesIsReference(fs: FsState, p: Path, es: seq<Entry>, env: Env, w: Walk)
    requires w.status.Running? && |w.found| <= Cap(env)
    requires FaultFreeUnder(fs, p)
    ensures CutOf(WalkEntries(fs, p, es, env, w), w.found + Matching(env, Files(env, p, es)), Cap(env))
    decreases es
  {
    if es == [] {
      assert w.found + Matching(env, []) == w.found;
    } else {
      var e := es[0];
      var c := p + [e.name];
      var w1 := if Skips(env, e.name) then w else WalkChild(fs, c, e.node, env, w);
      var head := EntryFiles(env, p, e);
      var rest := Files(env, p, es[1..]);
      assert Files(env, p, es) == head + rest;
      MatchingAppend(env, head, rest);
      if Skips(env, e.name) {
        assert w.found + Matching(env, head) == w.found;
      } else {
        FaultFreeBelow(fs, p, e.name);
        WalkChildIsReference(fs, c, e.node, env, w);
      }
      if w1.status.Running? {
        WalkEntriesIsReference(fs, p, es[1..], env, w1);
      }
      ComposeCut(w.found, Matching(env, head), Matching(env, rest), w1, WalkEntries(fs, p, es, env, w), Cap(env));
    }
  }

  /** The same for one entry the filter let through: a file is offered, a directory is walked. */
  lemma {:induction false} WalkChildIsReference(fs: FsState, c: Path, n: Node, env: Env, w: Walk)
    requires w.status.Running? && |w.found| <= Cap(env)
    requires FaultFreeUnder(fs, c)
    ensures CutOf(WalkChild(fs, c, n, env, w), w.found + Matching(env, FilesUnder(env, c, n)), Cap(env))
    decreases n
  {
    assert c <= c;
    if n.File? {
      assert Matching(env, [c]) == if Matches(env, c) then [c] else [];
    } else {
      WalkEntriesIsReference(fs, c, n.entries, env, w);
    }
  }

  /**
    Walking one entry and then the rest ends as walking both at once: when
    the first stops at the cap, what the rest would add is cut away.
  */
  lemma ComposeCut(wf: seq<Path>, mh: seq<Path>, mr: seq<Path>, w1: Walk, r: Walk, cap: nat)
    requires |wf| <= cap
    requires CutOf(w1, wf + mh, cap)
    requires w1.status.Running? ==> CutOf(r, w1.found + mr, cap)
    requires !w1.status.Running? ==> r == w1
    ensures CutOf(r, wf + (mh + mr), cap)
  {
    assert wf + mh + mr == wf + (mh + mr);
    if w1.status.Running? {
      assert w1.found == wf + mh;
    } else {
      CutAfterCap(wf + mh, mr, cap);
    }
  }

  /** Once `a` holds the cap, what follows it is cut away. */
  lemma CutAfterCap(a: seq<Path>, b: seq<Path>, cap: nat)
    requires cap <= |a|
    ensures (a + b)[..Min(|a + b|, cap)] == a[..Min(|a|, cap)]
  {
    assert (a + b)[..cap] == a[..cap];
  }

  /**
    The walk's reads of a listed entry agree with the operating system's:
    its stat fails exactly when a stat fault is there and otherwise reports
    the listed node; a listed directory's listing fails exactly when a fault
    is there and otherwise yields its entries.
  */
  lemma WalkReadsAgree(fs: FsState, c: Path, n: Node)
    requires Resolve(fs.root, c) == Found(n)
    ensures OsStat(fs, c).Failure? <==> c in fs.faults && fs.faults[c].StatFails?
    ensures OsStat(fs, c).Success? ==> OsStat(fs, c).value == n
    ensures n.Dir? ==> (ReadDir(fs, c).Failure? <==> c in fs.faults)
    ensures n.Dir? && c !in fs.faults ==> ReadDir(fs, c) == Success(n.entries)
  {
  }

  /**
    With no fault below the base, `find` answers exactly the first
    `max(limit, 0)` matching files of the reference, in its order.
  */
  lemma FindIsCappedMatches(fs: FsState, base: Path, pattern: string, options: SearchOptions, matcher: Matcher)
    requires Valid(fs) && DirAt(fs.root, base) && FaultFreeUnder(fs, base)
    ensures var env := SearchEnv(fs, base, pattern, options, matcher);
      var all := Matching(env, Files(env, base, Resolve(fs.root, base).node.entries));
      Find(fs, base, pattern, options, matcher) == Success(all[..Min(|all|, Cap(env))])
  {
    var env := SearchEnv(fs, base, pattern, options, matcher);
    var es := Resolve(fs.root, base).node.entries;
    assert base <= base;
    assert ReadDir(fs, base) == Success(es);
    WalkEntriesIsReference(fs, base, es, env, Walk([], Running));
    assert [] + Matching(env, Files(env, base, es)) == Matching(env, Files(env, base, es));
  }

  /** `find` answers every match exactly when the matches do not exceed the cap. */
  lemma FindBelowLimit(fs: FsState, base: Path, pattern: string, options: SearchOptions, matcher: Matcher)
    requires Valid(fs) && DirAt(fs.root, base) && FaultFreeUnder(fs, base)
    ensures var env := SearchEnv(fs, base, pattern, options, matcher);
      var all := Matching(env, Files(env, base, Resolve(fs.root, base).node.entries));
      var r := Find(fs, base, pattern, options, matcher);
      r.Success? && (r.value == all <==> |all| <= Cap(env))
  {
    FindIsCappedMatches(fs, base, pattern, options, matcher);
  }

  // ----- What the reference lists -----

  /**
    The reference lists only files, each once, each below one of the
    listed entries, and none under a name the filter denies.
  */
  lemma {:induction false} FilesFacts(fs: FsState, env: Env, p: Path, es: seq<Entry>)
    requires Valid(fs) && DistinctNames(es)
    requires forall j :: 0 <= j < |es| ==> Resolve(fs.root, p + [es[j].name]) == Found(es[j].node)
    ensures forall x :: x in Files(env, p, es) ==>
      && p < x && x[|p|] in Names(es)
      && Resolve(fs.root, x).Found? && Resolve(fs.root, x).node.File?
      && Unskipped(env, x, |p|)
    ensures Distinct(Files(env, p, es))
    decreases es
  {
    if es != [] {
      var e := es[0];
      var head := EntryFiles(env, p, e);
      var rest := Files(env, p, es[1..]);
      assert Files(env, p, es) == head + rest;
      assert forall j :: 0 <= j < |es[1..]| ==> es[1..][j] == es[j + 1];
      FilesFacts(fs, env, p, es[1..]);
      EntryFilesFacts(fs, env, p, e);
      JoinFacts(p, es, head, rest);
    }
  }

  /**
    The files under the first entry and those under the rest lie under
    different names, so together they are distinct and each lies under a
    listed name.
  */
  lemma JoinFacts(p: Path, es: seq<Entry>, head: seq<Path>, rest: seq<Path>)
    requires es != [] && DistinctNames(es)
    requires Distinct(head) && Distinct(rest)
    requires forall x :: x in head ==> p < x && x[|p|] == es[0].name
    requires forall x :: x in rest ==> p < x && x[|p|] in Names(es[1..])
    ensures forall x :: x in head + rest ==> p < x && x[|p|] in Names(es)
    ensures Distinct(head + rest)
  {
    RestNamesFollow(p, es, rest);
    assert es[0].name == Names(es)[0];
    assert forall x :: x in head ==> x !in rest;
    DistinctAppend(head, rest);
  }

  /** The files under one entry lie below it, are files, pass the filter, and are distinct. */
  lemma {:induction false} EntryFilesFacts(fs: FsState, env: Env, p: Path, e: Entry)
    requires Valid(fs) && Resolve(fs.root, p + [e.name]) == Found(e.node)
    ensures var head := EntryFiles(env, p, e);
      && Distinct(head)
      && forall x :: x in head ==>
           && p < x && x[|p|] == e.name
           && Resolve(fs.root, x).Found? && Resolve(fs.root, x).node.File?
           && Unskipped(env, x, |p|)
    decreases e
  {
    if !Skips(env, e.name) {
      var c := p + [e.name];
      FilesUnderFacts(fs, env, c, e.node);
      forall x | x in FilesUnder(env, c, e.node)
        ensures p < x && x[|p|] == e.name && Unskipped(env, x, |p|)
      {
        assert x[..|c|] == c;
        assert x[|p|] == c[|p|];
        assert x[..|p|] == c[..|p|];
      }
    }
  }

  /** A path whose segment after `p` names one of the later entries names one of all entries. */
  lemma RestNamesFollow(p: Path, es: seq<Entry>, rest: seq<Path>)
    requires es != []
    requires forall x :: x in rest ==> p < x && x[|p|] in Names(es[1..])
    ensures forall x :: x in rest ==> x[|p|] in Names(es)
  {
    forall x | x in rest
      ensures x[|p|] in Names(es)
    {
      var j :| 0 <= j < |es[1..]| && Names(es[1..])[j] == x[|p|];
      assert Names(es)[j + 1] == x[|p|];
    }
  }

  lemma {:induction false} FilesUnderFacts(fs: FsState, env: Env, c: Path, n: Node)
    requires Valid(fs) && Resolve(fs.root, c) == Found(n)
    ensures forall x :: x in FilesUnder(env, c, n) ==>
      && c <= x
      && Resolve(fs.root, x).Found? && Resolve(fs.root, x).node.File?
      && Unskipped(env, x, |c|)
    ensures Distinct(FilesUnder(env, c, n))
    decreases n
  {
    if n.Dir? {
      ResolvedWellFormed(fs.root, c);
      EntriesAreChildren(fs, c);
      forall j | 0 <= j < |n.entries|
        ensures Resolve(fs.root, c + [n.entries[j].name]) == Found(n.entries[j].node)
      {
        ResolveChild(fs.root, c, n.entries[j].name);
      }
      FilesFacts(fs, env, c, n.entries);
    }
  }

  /**
    On a valid tree with no read fault below the base, every path the search
    returns is a file below the base that matches, no segment below the
    base is denied by the filter (a denied directory hides its whole
    subtree), and no path is returned twice.
  */
  lemma FindResultsAreMatchingFiles(fs: FsState, base: Path, pattern: string, options: SearchOptions, matcher: Matcher)
    requires Valid(fs) && DirAt(fs.root, base) && FaultFreeUnder(fs, base)
    ensures var r := Find(fs, base, pattern, options, matcher);
      var env := SearchEnv(fs, base, pattern, options, matcher);
      && r.Success?
      && Distinct(r.value)
      && forall x :: x in r.value ==>
           && base < x
           && Resolve(fs.root, x).Found? && Resolve(fs.root, x).node.File?
           && Unskipped(env, x, |base|)
           && Matches(env, x)
  {
    var env := SearchEnv(fs, base, pattern, options, matcher);
    var es := Resolve(fs.root, base).node.entries;
    FindIsCappedMatches(fs, base, pattern, options, matcher);
    ResolvedWellFormed(fs.root, base);
    EntriesAreChildren(fs, base);
    forall j | 0 <= j < |es|
      ensures Resolve(fs.root, base + [es[j].name]) == Found(es[j].node)
    {
      ResolveChild(fs.root, base, es[j].name);
    }
    FilesFacts(fs, env, base, es);
    var all := Matching(env, Files(env, base, es));
    MatchingIsFilter(env, Files(env, base, es));
    var r := all[..Min(|all|, Cap(env))];
    assert forall x :: x in r ==> x in all;
  }

  // ----- Read faults -----

  /**
    A fault the walk reaches among the entries `es` of the directory `p`:
    one at an entry the filter lets through that fails its stat, or one at
    such a directory that fails its listing, or one further below.
  */
  predicate FaultIn(fs: FsState, env: Env, p: Path, es: seq<Entry>)
    decreases es
  {
    es != [] && (EntryFault(fs, env, p, es[0]) || FaultIn(fs, env, p, es[1..]))
  }

  predicate EntryFault(fs: FsState, env: Env, p: Path, e: Entry)
    decreases e
  {
    !Skips(env, e.name) && NodeFault(fs, env, p + [e.name], e.node)
  }

  predicate NodeFault(fs: FsState, env: Env, c: Path, n: Node)
    decreases n
  {
    || (c in fs.faults && (fs.faults[c].StatFails? || n.Dir?))
    || (n.Dir? && FaultIn(fs, env, c, n.entries))
  }

  /**
    How many paths a walk collects: no more than the matches it could
    reach, and it stops at the limit only once the matches reach it.
  */
  lemma {:induction false} WalkEntriesBound(fs: FsState, p: Path, es: seq<Entry>, env: Env, w: Walk)
    requires w.status.Running?
    ensures var r := WalkEntries(fs, p, es, env, w);
      && (!r.status.Failed? ==> |r.found| <= |w.found| + |Matching(env, Files(env, p, es))|)
      && (r.status.LimitReached? ==> |w.found| + |Matching(env, Files(env, p, es))| >= env.options.limit)
    decreases es
  {
    if es != [] {
      var e := es[0];
      var w1 := if Skips(env, e.name) then w else WalkChild(fs, p + [e.name], e.node, env, w);
      var head := EntryFiles(env, p, e);
      var rest := Files(env, p, es[1..]);
      assert Files(env, p, es) == head + rest;
      MatchingAppend(env, head, rest);
      if !Skips(env, e.name) {
        WalkChildBound(fs, p + [e.name], e.node, env, w);
      }
      if w1.status.Running? {
        WalkEntriesBound(fs, p, es[1..], env, w1);
      }
    }
  }

  lemma {:induction false} WalkChildBound(fs: FsState, c: Path, n: Node, env: Env, w: Walk)
    requires w.status.Running?
    ensures var r := WalkChild(fs, c, n, env, w);
      && (!r.status.Failed? ==> |r.found| <= |w.found| + |Matching(env, FilesUnder(env, c, n))|)
      && (r.status.LimitReached? ==> |w.found| + |Matching(env, FilesUnder(env, c, n))| >= env.options.limit)
    decreases n
  {
    if n.File? {
      assert Matching(env, [c]) == if Matches(env, c) then [c] else [];
    } else if c !in fs.faults {
      WalkEntriesBound(fs, c, n.entries, env, w);
    }
  }

  /**
    Below the limit, the walk fails exactly when it reaches a fault: a
    reached fault always rejects it, and nothing else does.
  */
  lemma {:induction false} WalkEntriesFailsOnFault(fs: FsState, p: Path, es: seq<Entry>, env: Env, w: Walk)
    requires w.status.Running?
    requires |w.found| + |Matching(env, Files(env, p, es))| < env.options.limit
    ensures WalkEntries(fs, p, es, env, w).status.Failed? <==> FaultIn(fs, env, p, es)
    decreases es
  {
    if es != [] {
      var e := es[0];
      var w1 := if Skips(env, e.name) then w else WalkChild(fs, p + [e.name], e.node, env, w);
      var head := EntryFiles(env, p, e);
      var rest := Files(env, p, es[1..]);
      assert Files(env, p, es) == head + rest;
      MatchingAppend(env, head, rest);
      if !Skips(env, e.name) {
        WalkChildBound(fs, p + [e.name], e.node, env, w);
        WalkChildFailsOnFault(fs, p + [e.name], e.node, env, w);
      }
      assert !w1.status.LimitReached?;
      if w1.status.Running? {
        WalkEntriesFailsOnFault(fs, p, es[1..], env, w1);
      }
    }
  }

  lemma {:induction false} WalkChildFailsOnFault(fs: FsState, c: Path, n: Node, env: Env, w: Walk)
    requires w.status.Running?
    requires |w.found| + |Matching(env, FilesUnder(env, c, n))| < env.options.limit
    ensures WalkChild(fs, c, n, env, w).status.Failed? <==> NodeFault(fs, env, c, n)
    decreases n
  {
    if n.Dir? && c !in fs.faults {
      WalkEntriesFailsOnFault(fs, c, n.entries, env, w);
    }
  }

  /**
    A fault at a path the walk would reach is reached: the path lies below
    `c` in the tree `n`, no segment below `c` is denied, and the fault
    either fails the stat or sits at a directory.
  */
  lemma {:induction false} ReachFault(fs: FsState, env: Env, c: Path, n: Node, q: Path)
    requires c <= q && Resolve(n, q[|c|..]).Found?
    requires q in fs.faults && (fs.faults[q].StatFails? || Resolve(n, q[|c|..]).node.Dir?)
    requires Unskipped(env, q, |c|)
    ensures NodeFault(fs, env, c, n)
    decreases |q| - |c|
  {
    if c != q {
      var name := q[|c|];
      assert q[|c|..] == [name] + q[|c| + 1..];
      var x := Child(n.entries, name).value;
      var j :| 0 <= j < |n.entries| && n.entries[j] == Entry(name, x);
      var c' := c + [name];
      assert q[..|c'|] == q[..|c|] + [name];
      assert q[|c'|..] == q[|c|..][1..];
      ReachFault(fs, env, c', x, q);
      FaultAtIndex(fs, env, c, n.entries, j);
    } else {
      assert q[|c|..] == [];
    }
  }

  lemma {:induction false} FaultAtIndex(fs: FsState, env: Env, p: Path, es: seq<Entry>, j: nat)
    requires j < |es| && EntryFault(fs, env, p, es[j])
    ensures FaultIn(fs, env, p, es)
    decreases j
  {
    if j > 0 {
      assert es[1..][j - 1] == es[j];
      FaultAtIndex(fs, env, p, es[1..], j - 1);
    }
  }

  /**
    While the matching files stay below the limit, `find` fails exactly
    when the base cannot be listed or the walk reaches a fault.
  */
  lemma FindFailsExactly(fs: FsState, base: Path, pattern: string, options: SearchOptions, matcher: Matcher)
    requires DirAt(fs.root, base)
    requires var env := SearchEnv(fs, base, pattern, options, matcher);
      |Matching(env, Files(env, base, Resolve(fs.root, base).node.entries))| < env.options.limit
    ensures Find(fs, base, pattern, options, matcher).Failure? <==>
      base in fs.faults || FaultIn(fs, SearchEnv(fs, base, pattern, options, matcher), base, Resolve(fs.root, base).node.entries)
  {
    var env := SearchEnv(fs, base, pattern, options, matcher);
    var es := Resolve(fs.root, base).node.entries;
    if base !in fs.faults {
      assert ReadDir(fs, base) == Success(es);
      assert [] + Matching(env, Files(env, base, es)) == Matching(env, Files(env, base, es));
      WalkEntriesFailsOnFault(fs, base, es, env, Walk([], Running));
    }
  }

  /**
    While the matching files stay below the limit, a fault anywhere the
    search would reach rejects `find`: a failed stat of an entry below the
    base that the filter lets through, or a failed listing of such a
    directory.
  */
  lemma FindFailsOnFault(fs: FsState, base: Path, pattern: string, options: SearchOptions, matcher: Matcher, q: Path)
    requires DirAt(fs.root, base)
    requires var env := SearchEnv(fs, base, pattern, options, matcher);
      |Matching(env, Files(env, base, Resolve(fs.root, base).node.entries))| < env.options.limit
    requires base < q && Resolve(fs.root, q).Found?
    requires q in fs.faults && (fs.faults[q].StatFails? || Resolve(fs.root, q).node.Dir?)
    requires Unskipped(SearchEnv(fs, base, pattern, options, matcher), q, |base|)
    ensures Find(fs, base, pattern, options, matcher).Failure?
  {
    var env := SearchEnv(fs, base, pattern, options, matcher);
    var n := Resolve(fs.root, base).node;
    var rest := q[|base|..];
    assert q == base + rest;
    ResolveAppend(fs.root, base, rest);
    ReachFault(fs, env, base, n, q);
    if base !in fs.faults {
      assert ReadDir(fs, base) == Success(n.entries);
      assert [] + Matching(env, Files(env, base, n.entries)) == Matching(env, Files(env, base, n.entries));
      WalkEntriesFailsOnFault(fs, base, n.entries, env, Walk([], Running));
    }
  }

  // ----- Search options -----

  /**
    No options give fuzzy matching, no practical limit and the gitignore
    honoured; fully given options are taken as they are; each field is
    resolved on its own; and resolving what was resolved changes nothing.
  */
  lemma ResolveOptionsLaws(o: SearchOptions, f: bool, l: int, g: bool)
    ensures ResolveOptions(NoSearchOptions) == Options(true, MaxSafeInteger, true)
    ensures ResolveOptions(SearchOptions(Some(f), Some(l), Some(g))) == Options(f, l, g)
    ensures ResolveOptions(o.(limit := Some(l))) == ResolveOptions(o).(limit := l)
    ensures ResolveOptions(o.(fuzzyMatch := Some(f))) == ResolveOptions(o).(fuzzyMatch := f)
    ensures ResolveOptions(o.(useGitignore := Some(g))) == ResolveOptions(o).(useGitignore := g)
    ensures var r := ResolveOptions(o);
      ResolveOptions(SearchOptions(Some(r.fuzzyMatch), Some(r.limit), Some(r.useGitignore))) == r
  {
  }

  // ----- The ignore filter -----

  /**
    `.git` is always denied; otherwise a name is denied exactly when
    gitignore is in use, a gitignore was found, and its rules deny the name.
  */
  lemma FilterRule(fs: FsState, base: Path, o: Options, matcher: Matcher, name: string)
    ensures Denies(GetFiltered(fs, base, o), matcher, ".git")
    ensures !DefaultDenies(name) ==>
      (Denies(GetFiltered(fs, base, o), matcher, name) <==>
        o.useGitignore && FindGitIgnore(fs, base).Some? && matcher(FindGitIgnore(fs, base).value.contents, name))
  {
  }

  // ----- A query every path satisfies -----

  lemma {:induction false} NativePathAppend(a: Path, b: Path)
    ensures NativePath(a + b) == NativePath(a) + NativePath(b)
    decreases |a|
  {
    if a == [] {
      assert a + b == b;
    } else {
      assert (a + b)[0] == a[0] && (a + b)[1..] == a[1..] + b;
      NativePathAppend(a[1..], b);
    }
  }

  lemma {:induction false} LowerAppend(a: string, b: string)
    ensures Lower(a + b) == Lower(a) + Lower(b)
  {
  }

  lemma {:induction false} ContainsExtend(a: string, b: string, sub: string)
    requires Contains(a, sub)
    ensures Contains(a + b, sub)
    decreases |a|
  {
    if StartsWith(a, sub) {
      assert (a + b)[..|sub|] == a[..|sub|];
    } else {
      assert (a + b)[1..] == a[1..] + b;
      ContainsExtend(a[1..], b, sub);
    }
  }

  /**
    When the base path itself contains the query (ignoring case), every
    file below it matches, so the search returns every file the filter lets
    through, up to the limit.
  */
  lemma QueryInBasePathMatchesAll(fs: FsState, base: Path, pattern: string, options: SearchOptions, matcher: Matcher)
    requires Valid(fs) && DirAt(fs.root, base) && FaultFreeUnder(fs, base)
    requires Contains(Lower(NativePath(base)), Lower(pattern))
    ensures var env := SearchEnv(fs, base, pattern, options, matcher);
      var files := Files(env, base, Resolve(fs.root, base).node.entries);
      Find(fs, base, pattern, options, matcher) == Success(files[..Min(|files|, Cap(env))])
  {
    var env := SearchEnv(fs, base, pattern, options, matcher);
    var es := Resolve(fs.root, base).node.entries;
    var files := Files(env, base, es);
    ResolvedWellFormed(fs.root, base);
    EntriesAreChildren(fs, base);
    forall j | 0 <= j < |es|
      ensures Resolve(fs.root, base + [es[j].name]) == Found(es[j].node)
    {
      ResolveChild(fs.root, base, es[j].name);
    }
    FilesFacts(fs, env, base, es);
    forall x | x in files
      ensures Matches(env, x)
    {
      var rest := x[|base|..];
      assert x == base + rest;
      NativePathAppend(base, rest);
      LowerAppend(NativePath(base), NativePath(rest));
      ContainsExtend(Lower(NativePath(base)), Lower(NativePath(rest)), Lower(pattern));
    }
    AllMatch(env, files);
    FindIsCappedMatches(fs, base, pattern, options, matcher);
  }

  lemma {:induction false} AllMatch(env: Env, xs: seq<Path>)
    requires forall x :: x in xs ==> Matches(env, x)
    ensures Matching(env, xs) == xs
    decreases |xs|
  {
    if xs != [] {
      assert xs[0] in xs;
      assert forall x :: x in xs[1..] ==> x in xs;
      AllMatch(env, xs[1..]);
    }
  }
}
