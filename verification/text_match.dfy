/**
  The two text tests the file search applies to a candidate path: the fuzzy
  test (the pattern's characters occur in the path in order, ignoring case)
  and the substring test (the lower-cased path contains the lower-cased
  pattern). Case folding is modelled for ASCII letters only.
*/
module TextMatch {

  function LowerChar(ch: char): char {
    if 'A' <= ch <= 'Z' then (ch as int + 32) as char else ch
  }

  /** The lower-cased text, character by character. */
  function Lower(s: string): (r: string)
    ensures |r| == |s|
    ensures forall i :: 0 <= i < |s| ==> r[i] == LowerChar(s[i])
  {
    if s == [] then [] else [LowerChar(s[0])] + Lower(s[1..])
  }

  predicate StartsWith(s: string, prefix: string) {
    |prefix| <= |s| && s[..|prefix|] == prefix
  }

  /** `indexOf(sub) != -1`: `sub` occurs in `s` at some position. */
  function Contains(s: string, sub: string): bool
    decreases |s|
  {
    StartsWith(s, sub) || (s != [] && Contains(s[1..], sub))
  }

  /** Greedy in-order matching of the characters of `sub` against `s`. */
  function IsSubsequence(sub: string, s: string): bool
    decreases |s|
  {
    if sub == [] then true
    else if s == [] then false
    else if sub[0] == s[0] then IsSubsequence(sub[1..], s[1..])
    else IsSubsequence(sub, s[1..])
  }

  /** The fuzzy test: case-insensitive in-order matching of the pattern against the text. */
  function FuzzyTest(pattern: string, text: string): bool {
    IsSubsequence(Lower(pattern), Lower(text))
  }

  /**
    The match rule of the search: the fuzzy test when fuzzy matching is on,
    falling through to the case-insensitive substring test.
  */
  function Accepts(fuzzyMatch: bool, pattern: string, path: string): bool {
    (fuzzyMatch && FuzzyTest(pattern, path)) || Contains(Lower(path), Lower(pattern))
  }

  // ----- Reference definitions -----

  /** `sub` occurs in `s` starting at `i`. */
  predicate OccursAt(s: string, sub: string, i: int) {
    0 <= i && i + |sub| <= |s| && s[i..i + |sub|] == sub
  }

  /** `idx` places the characters of `sub` at strictly increasing positions of `s`. */
  predicate Embedding(sub: string, s: string, idx: seq<int>) {
    && |idx| == |sub|
    && (forall k :: 0 <= k < |idx| ==> 0 <= idx[k] < |s| && s[idx[k]] == sub[k])
    && (forall j, k :: 0 <= j < k < |idx| ==> idx[j] < idx[k])
  }

  /** The substring search answers exactly whether an occurrence exists. */
  lemma {:induction false} ContainsIffOccurs(s: string, sub: string)
    ensures Contains(s, sub) <==> exists i :: OccursAt(s, sub, i)
    decreases |s|
  {
    assert StartsWith(s, sub) <==> OccursAt(s, sub, 0);
    if s != [] {
      ContainsIffOccurs(s[1..], sub);
      if exists i :: OccursAt(s[1..], sub, i) {
        var i :| OccursAt(s[1..], sub, i);
        assert s[i + 1..i + 1 + |sub|] == s[1..][i..i + |sub|];
        assert OccursAt(s, sub, i + 1);
      }
      if exists i :: OccursAt(s, sub, i) {
        var i :| OccursAt(s, sub, i);
        if i > 0 {
          assert s[1..][i - 1..i - 1 + |sub|] == s[i..i + |sub|];
          assert OccursAt(s[1..], sub, i - 1);
        }
      }
    } else {
      if exists i :: OccursAt(s, sub, i) {
        var i :| OccursAt(s, sub, i);
        assert i == 0;
      }
    }
  }

  /** Greedy matching succeeds exactly when some in-order placement exists. */
  lemma SubsequenceIffEmbedding(sub: string, s: string)
    ensures IsSubsequence(sub, s) <==> exists idx :: Embedding(sub, s, idx)
  {
    if IsSubsequence(sub, s) {
      var idx := GreedyEmbedding(sub, s);
    }
    if exists idx :: Embedding(sub, s, idx) {
      var idx :| Embedding(sub, s, idx);
      EmbeddingIsFound(sub, s, idx);
    }
  }

  /** The placement greedy matching finds. */
  lemma {:induction false} GreedyEmbedding(sub: string, s: string) returns (idx: seq<int>)
    requires IsSubsequence(sub, s)
    ensures Embedding(sub, s, idx)
    decreases |s|
  {
    if sub == [] {
      idx := [];
    } else if sub[0] == s[0] {
      var rest := GreedyEmbedding(sub[1..], s[1..]);
      idx := [0] + Shift(rest, 1);
    } else {
      var rest := GreedyEmbedding(sub, s[1..]);
      idx := Shift(rest, 1);
    }
  }

  function Shift(idx: seq<int>, d: int): (r: seq<int>)
    ensures |r| == |idx| && forall k :: 0 <= k < |idx| ==> r[k] == idx[k] + d
  {
    if idx == [] then [] else [idx[0] + d] + Shift(idx[1..], d)
  }

  /** Any placement is enough for greedy matching to succeed. */
  lemma {:induction false} EmbeddingIsFound(sub: string, s: string, idx: seq<int>)
    requires Embedding(sub, s, idx)
    ensures IsSubsequence(sub, s)
    decreases |s|
  {
    if sub != [] {
      assert 0 <= idx[0] < |s|;
      if sub[0] == s[0] {
        var rest := Shift(idx[1..], -1);
        forall k | 0 <= k < |rest|
          ensures 0 <= rest[k]
        {
          assert idx[0] < idx[k + 1];
        }
        assert Embedding(sub[1..], s[1..], rest);
        EmbeddingIsFound(sub[1..], s[1..], rest);
      } else {
        var rest := Shift(idx, -1);
        forall k | 0 <= k < |rest|
          ensures 0 <= rest[k]
        {
          assert idx[0] != 0;
          assert 0 < k ==> idx[0] < idx[k];
        }
        assert Embedding(sub, s[1..], rest);
        EmbeddingIsFound(sub, s[1..], rest);
      }
    }
  }

  /** An occurrence is in particular an in-order placement. */
  lemma ContainsIsSubsequence(s: string, sub: string)
    requires Contains(s, sub)
    ensures IsSubsequence(sub, s)
  {
    ContainsIffOccurs(s, sub);
    var i :| OccursAt(s, sub, i);
    var idx := Shift(Range(|sub|), i);
    forall k | 0 <= k < |sub|
      ensures s[idx[k]] == sub[k]
    {
      assert s[i..i + |sub|][k] == s[i + k];
    }
    assert Embedding(sub, s, idx);
    EmbeddingIsFound(sub, s, idx);
  }

  /** The positions 0, 1, ..., n - 1. */
  function Range(n: nat): (r: seq<int>)
    ensures |r| == n && forall k :: 0 <= k < n ==> r[k] == k
  {
    if n == 0 then [] else Range(n - 1) + [n - 1]
  }

  /**
    The match rule reduces to one test: with fuzzy matching on, a path is
    accepted exactly when the fuzzy test passes (every substring match is
    also a fuzzy match); with it off, exactly when the substring test passes.
  */
  lemma AcceptRule(fuzzyMatch: bool, pattern: string, path: string)
    ensures fuzzyMatch ==> (Accepts(fuzzyMatch, pattern, path) <==> FuzzyTest(pattern, path))
    ensures !fuzzyMatch ==> (Accepts(fuzzyMatch, pattern, path) <==> Contains(Lower(path), Lower(pattern)))
  {
    if Contains(Lower(path), Lower(pattern)) {
      ContainsIsSubsequence(Lower(path), Lower(pattern));
    }
  }

  /** Both tests accept every path for the empty pattern. */
  lemma EmptyPatternAcceptsAll(fuzzyMatch: bool, path: string)
    ensures Accepts(fuzzyMatch, "", path)
  {
    assert StartsWith(Lower(path), Lower(""));
  }
}
