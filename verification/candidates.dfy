/** The ISBN candidate pattern `[0-9Xx][0-9Xx\- ]{8,16}[0-9Xx]` and its
    `findall`: the engine's own procedure (leftmost start, greedy middle,
    backtracking to the last end character, scanning on after each match)
    written out, and proved equal to the declarative reading "the longest
    candidate at each start, non-overlapping, none missed in between". */
module Candidates {
  import opened Text

  const MinLength: nat := 10
  const MaxLength: nat := 18

  /** `[0-9Xx]`: the first and last character of a candidate. */
  predicate IsEdgeChar(c: char) {
    IsDigit(c) || c == 'X' || c == 'x'
  }

  /** `[0-9Xx\- ]`: a character inside a candidate. */
  predicate IsInnerChar(c: char) {
    IsEdgeChar(c) || c == '-' || c == ' '
  }

  /** A text the whole pattern matches. */
  predicate IsCandidate(t: string) {
    MinLength <= |t| <= MaxLength
    && IsEdgeChar(t[0]) && IsEdgeChar(t[|t| - 1])
    && forall k :: 0 < k < |t| - 1 ==> IsInnerChar(t[k])
  }

  /** The pattern matches the `n` characters of `s` from `i`. */
  predicate MatchesAt(s: string, i: nat, n: nat) {
    i + n <= |s| && IsCandidate(s[i..i + n])
  }

  /** No match of any length starts at `i`. */
  ghost predicate NoMatchAt(s: string, i: nat) {
    forall n: nat :: !MatchesAt(s, i, n)
  }

  /** `n` is the longest match starting at `i`. */
  ghost predicate LongestAt(s: string, i: nat, n: nat) {
    MatchesAt(s, i, n) && forall m: nat :: n < m ==> !MatchesAt(s, i, m)
  }

  /** Greedy repetition: how many inner characters follow from `j`, at most
      `cap`. */
  function InnerRun(s: string, j: nat, cap: nat): (r: nat)
    requires j <= |s|
    ensures r <= cap && j + r <= |s|
    ensures forall k :: j <= k < j + r ==> IsInnerChar(s[k])
    ensures r < cap && j + r < |s| ==> !IsInnerChar(s[j + r])
    decreases cap
  {
    if cap == 0 || j == |s| || !IsInnerChar(s[j]) then 0
    else 1 + InnerRun(s, j + 1, cap - 1)
  }

  /** Backtracking: give back middle characters, from `k` of them down to
      the minimum of 8, until an end character follows; the match length,
      or 0 when none is left. */
  function Backtrack(s: string, i: nat, k: nat): (n: nat)
    requires i + 1 + k <= |s|
    decreases k
  {
    if k < MinLength - 2 then 0
    else if i + 1 + k < |s| && IsEdgeChar(s[i + 1 + k]) then k + 2
    else Backtrack(s, i, k - 1)
  }

  /** The engine's attempt at position `i`: the match length, 0 for none. */
  function MatchAt(s: string, i: nat): (n: nat)
    requires i <= |s|
  {
    if i < |s| && IsEdgeChar(s[i]) then Backtrack(s, i, InnerRun(s, i + 1, MaxLength - 2))
    else 0
  }

  /** What the backtracking finds, given a middle run that is a maximal run
      of inner characters (capped). */
  lemma {:induction false} BacktrackFinds(s: string, i: nat, run: nat, k: nat)
    requires i < |s| && IsEdgeChar(s[i])
    requires run <= MaxLength - 2 && i + 1 + run <= |s|
    requires forall p :: i + 1 <= p < i + 1 + run ==> IsInnerChar(s[p])
    requires run < MaxLength - 2 && i + 1 + run < |s| ==> !IsInnerChar(s[i + 1 + run])
    requires k <= run
    requires forall m: nat :: k + 2 < m ==> !MatchesAt(s, i, m)
    ensures var n := Backtrack(s, i, k);
      (n == 0 ==> NoMatchAt(s, i)) && (n != 0 ==> LongestAt(s, i, n))
    decreases k
  {
    var n := Backtrack(s, i, k);
    if k < MinLength - 2 {
      forall m: nat ensures !MatchesAt(s, i, m) {
        if k + 2 < m { } else { assert m < MinLength; }
      }
    } else if i + 1 + k < |s| && IsEdgeChar(s[i + 1 + k]) {
      var t := s[i..i + k + 2];
      assert forall p :: 0 < p < |t| - 1 ==> t[p] == s[i + p];
      assert MatchesAt(s, i, k + 2);
    } else {
      assert !MatchesAt(s, i, k + 2) by {
        if i + k + 2 <= |s| {
          assert s[i..i + k + 2][k + 1] == s[i + 1 + k];
        }
      }
      BacktrackFinds(s, i, run, k - 1);
    }
  }

  /** A match longer than the greedy run plus its two ends would need an
      inner character where the run stopped. */
  lemma NothingBeyondRun(s: string, i: nat, run: nat, m: nat)
    requires i < |s|
    requires run <= MaxLength - 2 && i + 1 + run <= |s|
    requires run < MaxLength - 2 && i + 1 + run < |s| ==> !IsInnerChar(s[i + 1 + run])
    requires run + 2 < m
    ensures !MatchesAt(s, i, m)
  {
    if i + m <= |s| && m <= MaxLength {
      assert s[i..i + m][run + 1] == s[i + 1 + run];
    }
  }

  /** The engine's attempt at `i` finds the longest match there, and finds
      nothing exactly when no match starts there. */
  lemma MatchAtIsLongest(s: string, i: nat)
    requires i <= |s|
    ensures MatchAt(s, i) == 0 ==> NoMatchAt(s, i)
    ensures MatchAt(s, i) != 0 ==> LongestAt(s, i, MatchAt(s, i))
  {
    if i < |s| && IsEdgeChar(s[i]) {
      var run := InnerRun(s, i + 1, MaxLength - 2);
      forall m: nat | run + 2 < m ensures !MatchesAt(s, i, m) {
        NothingBeyondRun(s, i, run, m);
      }
      BacktrackFinds(s, i, run, run);
    }
  }

  /** A match found by `findall`: where it starts and how long it is. */
  datatype Span = Span(start: nat, len: nat)

  /** `findall` from position `i`: try each position in turn; after a match
      carry on right after it. */
  function Spans(s: string, i: nat): (r: seq<Span>)
    requires i <= |s|
    decreases |s| - i
  {
    if i == |s| then []
    else
      var n := MatchAt(s, i);
      if n == 0 then Spans(s, i + 1)
      else
        MatchAtIsLongest(s, i);
        [Span(i, n)] + Spans(s, i + n)
  }

  /** Every span found from `i` lies at or after `i` and is the longest
      match at its start. */
  lemma {:induction false} SpansAreLongestMatches(s: string, i: nat)
    requires i <= |s|
    ensures forall k :: 0 <= k < |Spans(s, i)| ==>
      i <= Spans(s, i)[k].start && LongestAt(s, Spans(s, i)[k].start, Spans(s, i)[k].len)
    decreases |s| - i
  {
    if i < |s| {
      var n := MatchAt(s, i);
      MatchAtIsLongest(s, i);
      if n == 0 {
        SpansAreLongestMatches(s, i + 1);
      } else {
        SpansAreLongestMatches(s, i + n);
      }
    }
  }

  /** Spans come left to right and never overlap. */
  lemma {:induction false} SpansOrdered(s: string, i: nat)
    requires i <= |s|
    ensures forall k :: 0 <= k < |Spans(s, i)| ==> i <= Spans(s, i)[k].start
    ensures forall k :: 0 <= k < |Spans(s, i)| ==> Spans(s, i)[k].start + Spans(s, i)[k].len <= |s|
    ensures forall k :: 0 <= k < |Spans(s, i)| - 1 ==>
      Spans(s, i)[k].start + Spans(s, i)[k].len <= Spans(s, i)[k + 1].start
    decreases |s| - i
  {
    if i < |s| {
      var n := MatchAt(s, i);
      MatchAtIsLongest(s, i);
      if n == 0 {
        SpansOrdered(s, i + 1);
      } else {
        SpansOrdered(s, i + n);
      }
    }
  }

  /** Position `p` lies inside one of the spans. */
  predicate Covered(spans: seq<Span>, p: nat) {
    exists k :: 0 <= k < |spans| && spans[k].start <= p < spans[k].start + spans[k].len
  }

  /** Coverage by a span list is coverage by its head or by its tail. */
  lemma CoveredCons(first: Span, rest: seq<Span>, p: nat)
    ensures Covered([first] + rest, p) <==> (first.start <= p < first.start + first.len || Covered(rest, p))
  {
    var all := [first] + rest;
    assert all[0] == first;
    if Covered(rest, p) {
      var k :| 0 <= k < |rest| && rest[k].start <= p < rest[k].start + rest[k].len;
      assert all[k + 1] == rest[k];
    }
    if Covered(all, p) {
      var k :| 0 <= k < |all| && all[k].start <= p < all[k].start + all[k].len;
      if k > 0 {
        assert all[k] == rest[k - 1];
      }
    }
  }

  /** No match is skipped: every position from `i` that no span covers
      starts no match. */
  lemma {:induction false} SpansMissNothing(s: string, i: nat, p: nat)
    requires i <= p < |s|
    requires !Covered(Spans(s, i), p)
    ensures NoMatchAt(s, p)
    decreases |s| - i
  {
    var n := MatchAt(s, i);
    MatchAtIsLongest(s, i);
    if n == 0 {
      if p == i {
      } else {
        SpansMissNothing(s, i + 1, p);
      }
    } else {
      CoveredCons(Span(i, n), Spans(s, i + n), p);
      SpansMissNothing(s, i + n, p);
    }
  }

  /** The strings `findall` returns. */
  function FindAll(s: string): (r: seq<string>)
  {
    SpansOrdered(s, 0);
    var spans := Spans(s, 0);
    seq(|spans|, k requires 0 <= k < |spans| => s[spans[k].start..spans[k].start + spans[k].len])
  }

  /** Every string `findall` returns is a whole match of the pattern: 10 to
      18 characters, first and last from `[0-9Xx]`, the rest from
      `[0-9Xx -]`. */
  lemma FindAllMatches(s: string)
    ensures forall k :: 0 <= k < |FindAll(s)| ==> IsCandidate(FindAll(s)[k])
  {
    SpansAreLongestMatches(s, 0);
    SpansOrdered(s, 0);
  }

  /** A text shorter than the shortest candidate has no matches. */
  lemma {:induction false} ShortTextNoMatch(s: string, i: nat)
    requires i <= |s| < MinLength
    ensures Spans(s, i) == []
    decreases |s| - i
  {
    if i < |s| {
      MatchAtIsLongest(s, i);
      assert !MatchesAt(s, i, MatchAt(s, i));
      ShortTextNoMatch(s, i + 1);
    }
  }
}
