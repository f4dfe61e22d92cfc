/**
  The recursive file search. It lists the base directory, walks it depth
  first in listing order, skips every entry the ignore filter denies
  (together with its whole subtree), and offers each file it reaches to the
  acceptor, which collects the paths that pass the match rule until the
  limit is reached. Reaching the limit ends the walk without an error; any
  error of the listing or stat calls rejects the search.

  Paths are segment sequences; the text the match rule sees is the
  native path, "/" followed by the segments joined with "/".
*/
module FileSearch {
  import opened Wrappers
  import opened FileTree
  import opened Errors
  import opened StatTree
  import opened TextMatch

  /** `Number.MAX_SAFE_INTEGER`, the limit when none is given. */
  const MaxSafeInteger: int := 9007199254740991

  /** The options a caller may pass; an absent field takes its default. */
  datatype SearchOptions = SearchOptions(fuzzyMatch: Option<bool>, limit: Option<int>, useGitignore: Option<bool>)

  /** The options the search runs with. */
  datatype Options = Options(fuzzyMatch: bool, limit: int, useGitignore: bool)

  const NoSearchOptions: SearchOptions := SearchOptions(None, None, None)

  /** The defaults (fuzzy matching, no practical limit, gitignore honoured) overridden by what is given. */
  function ResolveOptions(o: SearchOptions): (r: Options)
    ensures r.fuzzyMatch == (if o.fuzzyMatch.Some? then o.fuzzyMatch.value else true)
    ensures r.limit == (if o.limit.Some? then o.limit.value else MaxSafeInteger)
    ensures r.useGitignore == (if o.useGitignore.Some? then o.useGitignore.value else true)
  {
    Options(o.fuzzyMatch.GetOr(true), o.limit.GetOr(MaxSafeInteger), o.useGitignore.GetOr(true))
  }

  function NativePath(p: Path): string
    decreases |p|
  {
    if p == [] then "" else "/" + p[0] + NativePath(p[1..])
  }

  // ----- The ignore filter -----

  /** The built-in filter: the `.git` directory is never searched. */
  predicate DefaultDenies(name: string) {
    name == ".git" || StartsWith(name, ".git/")
  }

  /** The gitignore file found for a search: the directory holding it and its text. */
  datatype Gitignore = Gitignore(dir: Path, contents: string)

  /** The filter a search runs with: the built-in one alone, or also a gitignore's rules. */
  datatype IgnoreFilter = BuiltinOnly | WithGitignore(contents: string)

  /**
    The compiled gitignore rules: whether the rules in the given text deny a
    name. The rule language itself is not part of this model.
  */
  type Matcher = (string, string) -> bool

  /** Whether the filter denies an entry, by its simple name. */
  predicate Denies(f: IgnoreFilter, matcher: Matcher, name: string) {
    DefaultDenies(name) || (f.WithGitignore? && matcher(f.contents, name))
  }

  const GitignoreName: Name := ".gitignore"

  /** The gitignore path of a directory. */
  function GitignoreOf(dir: Path): Path {
    dir + [GitignoreName]
  }

  /**
    `findGitIgnore`: the nearest directory, starting at `base` and ascending
    towards the root, whose gitignore can be read; `None` when there is none.
  */
  function FindGitIgnore(fs: FsState, base: Path): (r: Option<Gitignore>)
    ensures r.Some? ==> r.value.dir <= base && ReadFile(fs, GitignoreOf(r.value.dir)) == Success(r.value.contents)
    ensures r.Some? ==> forall k :: |r.value.dir| < k <= |base| ==> ReadFile(fs, GitignoreOf(base[..k])).Failure?
    ensures r.None? ==> forall k :: 0 <= k <= |base| ==> ReadFile(fs, GitignoreOf(base[..k])).Failure?
    decreases |base|
  {
    match ReadFile(fs, GitignoreOf(base))
    case Success(text) => Some(Gitignore(base, text))
    case Failure(_) =>
      if base == [] then None
      else
        assert base[..|base|] == base;
        assert forall k :: 0 <= k <= |Parent(base)| ==> Parent(base)[..k] == base[..k];
        FindGitIgnore(fs, Parent(base))
  }

  /** `getFiltered`: the built-in filter, extended by the nearest gitignore when asked to. */
  function GetFiltered(fs: FsState, base: Path, o: Options): (r: IgnoreFilter)
    ensures r.WithGitignore? <==> o.useGitignore && FindGitIgnore(fs, base).Some?
    ensures r.WithGitignore? ==> r.contents == FindGitIgnore(fs, base).value.contents
  {
    if o.useGitignore then
      match FindGitIgnore(fs, base)
      case Some(g) => WithGitignore(g.contents)
      case None => BuiltinOnly
    else BuiltinOnly
  }

  // ----- The walk -----

  /** Whether the walk goes on, stopped at the limit, or failed. */
  datatype Status = Running | LimitReached | Failed(error: Error)

  /** The paths collected so far and whether the walk goes on. */
  datatype Walk = Walk(found: seq<Path>, status: Status)

  /** Everything the walk needs to decide about an entry. */
  datatype Env = Env(pattern: string, options: Options, filter: IgnoreFilter, matcher: Matcher)

  /** The most paths a search may return: the limit, or none when it is not positive. */
  function Cap(env: Env): nat {
    if env.options.limit < 0 then 0 else env.options.limit
  }

  /** Whether the walk skips the entry called `name`. */
  predicate Skips(env: Env, name: Name) {
    Denies(env.filter, env.matcher, name)
  }

  /** Whether a file at `c` is a match. */
  predicate Matches(env: Env, c: Path) {
    Accepts(env.options.fuzzyMatch, env.pattern, NativePath(c))
  }

  /**
    The acceptor: stops the walk when the limit is already reached, and
    otherwise collects the file when it matches.
  */
  function Offer(env: Env, c: Path, w: Walk): (r: Walk)
    requires w.status.Running?
    ensures r.status.LimitReached? <==> |w.found| >= env.options.limit
    ensures r.status.Running? <==> |w.found| < env.options.limit
    ensures r.found == w.found + (if r.status.Running? && Matches(env, c) then [c] else [])
  {
    if |w.found| >= env.options.limit then Walk(w.found, LimitReached)
    else if Matches(env, c) then Walk(w.found + [c], Running)
    else w
  }

  /**
    `findRecursive` over the listed entries `es` of the directory `p`: each
    entry the filter lets through is walked in listing order, until the
    walk stops.
  */
  function WalkEntries(fs: FsState, p: Path, es: seq<Entry>, env: Env, w: Walk): (r: Walk)
    requires w.status.Running?
    ensures w.found <= r.found
    ensures |w.found| <= Cap(env) ==> |r.found| <= Cap(env)
    ensures forall i :: |w.found| <= i < |r.found| ==> p < r.found[i]
    ensures r.status.Failed? ==> IsErrnoException(r.status.error)
    decreases es
  {
    if es == [] then w
    else
      var c := p + [es[0].name];
      var w1 := if Skips(env, es[0].name) then w else WalkChild(fs, c, es[0].node, env, w);
      if !w1.status.Running? then w1
      else WalkEntries(fs, p, es[1..], env, w1)
  }

  /**
    One entry the filter let through, at path `c`: its stat is read; a file
    is offered to the acceptor, a directory is listed and walked.
  */
  function WalkChild(fs: FsState, c: Path, n: Node, env: Env, w: Walk): (r: Walk)
    requires w.status.Running?
    ensures w.found <= r.found
    ensures |w.found| <= Cap(env) ==> |r.found| <= Cap(env)
    ensures forall i :: |w.found| <= i < |r.found| ==> c <= r.found[i]
    ensures r.status.Failed? ==> IsErrnoException(r.status.error)
    decreases n
  {
    if c in fs.faults && fs.faults[c].StatFails? then Walk(w.found, Failed(OsError(fs.faults[c].code)))
    else if n.File? then Offer(env, c, w)
    else if c in fs.faults then Walk(w.found, Failed(OsError(fs.faults[c].code)))
    else WalkEntries(fs, c, n.entries, env, w)
  }

  /** The environment a search of `base` runs with. */
  function SearchEnv(fs: FsState, base: Path, pattern: string, options: SearchOptions, matcher: Matcher): Env {
    var o := ResolveOptions(options);
    Env(pattern, o, GetFiltered(fs, base, o), matcher)
  }

  /**
    `find`: the matching files below `base`, at most `limit` of them. A
    failure to list the base or anything below it rejects the search;
    reaching the limit does not.
  */
  function Find(fs: FsState, base: Path, pattern: string, options: SearchOptions, matcher: Matcher): (r: Result<seq<Path>, Error>)
    ensures ReadDir(fs, base).Failure? ==> r == Failure(ReadDir(fs, base).error)
    ensures r.Success? ==> |r.value| <= Cap(SearchEnv(fs, base, pattern, options, matcher))
    ensures r.Success? ==> forall i :: 0 <= i < |r.value| ==> base < r.value[i]
    ensures r.Failure? ==> IsErrnoException(r.error)
  {
    var env := SearchEnv(fs, base, pattern, options, matcher);
    var es :- ReadDir(fs, base);
    var w := WalkEntries(fs, base, es, env, Walk([], Running));
    if w.status.Failed? then Failure(w.status.error) else Success(w.found)
  }
}
