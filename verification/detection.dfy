/** ISBN detection over a list of strings: every regex match of every
    non-empty string is normalised, and the non-empty results are kept —
    all of them as a set (`_find_isbns_in_strings`), or the first one
    (`_find_first_isbn`). */
module Detection {
  import opened Wrappers
  import opened Isbn
  import opened Candidates

  /** The ISBNs one string yields: the non-empty normal forms of its
      matches. */
  function IsbnsIn(s: string): (r: set<string>)
    ensures forall x :: x in r ==> IsValidIsbn(x)
  {
    set m | m in FindAll(s) && NormalizeCandidate(m) != "" :: NormalizeCandidate(m)
  }

  /** `_find_isbns_in_strings`: the union over the non-empty strings. */
  function FindIsbnsInStrings(strings: seq<string>): (r: set<string>)
    ensures forall x :: x in r ==> IsValidIsbn(x)
  {
    if |strings| == 0 then {}
    else
      var last := strings[|strings| - 1];
      FindIsbnsInStrings(strings[..|strings| - 1]) + (if last == "" then {} else IsbnsIn(last))
  }

  /** `x` comes out of the match `m` of the non-empty input string at `k`. */
  ghost predicate FoundAt(strings: seq<string>, x: string, k: int) {
    0 <= k < |strings| && strings[k] != ""
    && exists m :: m in FindAll(strings[k]) && NormalizeCandidate(m) == x && x != ""
  }

  /** The set holds exactly the non-empty normal forms of the matches of the
      non-empty strings. */
  lemma {:induction false} FindIsbnsExactly(strings: seq<string>, x: string)
    ensures x in FindIsbnsInStrings(strings) <==> exists k :: FoundAt(strings, x, k)
  {
    if |strings| > 0 {
      var init := strings[..|strings| - 1];
      FindIsbnsExactly(init, x);
      FoundAtSplit(strings, init, x);
      FoundAtLast(strings, x);
    }
  }

  /** A find in a list is a find in all but its last string, or in the
      last one. */
  lemma FoundAtSplit(strings: seq<string>, init: seq<string>, x: string)
    requires |strings| > 0 && init == strings[..|strings| - 1]
    ensures (exists k :: FoundAt(strings, x, k))
      <==> (exists k :: FoundAt(init, x, k)) || FoundAt(strings, x, |strings| - 1)
  {
    if exists k :: FoundAt(init, x, k) {
      var k :| FoundAt(init, x, k);
      assert init[k] == strings[k];
      assert FoundAt(strings, x, k);
    }
    if exists k :: FoundAt(strings, x, k) {
      var k :| FoundAt(strings, x, k);
      if k < |strings| - 1 {
        assert init[k] == strings[k];
        assert FoundAt(init, x, k);
      }
    }
  }

  /** A find in the last string is a member of its ISBN set. */
  lemma FoundAtLast(strings: seq<string>, x: string)
    requires |strings| > 0
    ensures FoundAt(strings, x, |strings| - 1)
      <==> strings[|strings| - 1] != "" && x in IsbnsIn(strings[|strings| - 1])
  {
    var last := strings[|strings| - 1];
    if last != "" && x in IsbnsIn(last) {
      var m :| m in FindAll(last) && NormalizeCandidate(m) != "" && NormalizeCandidate(m) == x;
      assert FoundAt(strings, x, |strings| - 1);
    }
    if FoundAt(strings, x, |strings| - 1) {
      var m :| m in FindAll(last) && NormalizeCandidate(m) == x && x != "";
      assert x in IsbnsIn(last);
    }
  }

  /** Splitting the input list splits the result: the set for a
      concatenation is the union of the sets for the parts. */
  lemma {:induction false} FindIsbnsConcat(a: seq<string>, b: seq<string>)
    ensures FindIsbnsInStrings(a + b) == FindIsbnsInStrings(a) + FindIsbnsInStrings(b)
    decreases |b|
  {
    if |b| == 0 {
      assert a + b == a;
    } else {
      var init := b[..|b| - 1];
      assert (a + b)[..|a + b| - 1] == a + init;
      assert (a + b)[|a + b| - 1] == b[|b| - 1];
      FindIsbnsConcat(a, init);
    }
  }

  /** Skipping empty strings changes nothing: an empty string has no
      matches. */
  lemma EmptyStringYieldsNothing()
    ensures IsbnsIn("") == {}
  {
    ShortTextNoMatch("", 0);
  }

  /** Every one of the first `n` matches normalises to nothing. */
  predicate AllRejected(matches: seq<string>, n: nat)
    requires n <= |matches|
  {
    forall j :: 0 <= j < n ==> NormalizeCandidate(matches[j]) == ""
  }

  /** The match at `k` is the first to normalise to something, namely `x`. */
  ghost predicate FirstAcceptedAt(matches: seq<string>, k: int, x: string) {
    0 <= k < |matches| && x != "" && NormalizeCandidate(matches[k]) == x && AllRejected(matches, k)
  }

  /** The first non-empty normal form among `matches`. */
  function FirstValid(matches: seq<string>): (r: Option<string>)
    ensures r.None? <==> AllRejected(matches, |matches|)
    ensures r.Some? ==> exists k :: FirstAcceptedAt(matches, k, r.value)
  {
    if |matches| == 0 then None
    else
      var normalized := NormalizeCandidate(matches[0]);
      if normalized != "" then
        assert FirstAcceptedAt(matches, 0, normalized);
        Some(normalized)
      else
        var rest := FirstValid(matches[1..]);
        FirstValidShift(matches, rest);
        rest
  }

  /** Moving the witnesses of the tail's result to the whole list. */
  lemma FirstValidShift(matches: seq<string>, rest: Option<string>)
    requires |matches| > 0 && NormalizeCandidate(matches[0]) == ""
    requires rest.None? <==> AllRejected(matches[1..], |matches| - 1)
    requires rest.Some? ==> exists k :: FirstAcceptedAt(matches[1..], k, rest.value)
    ensures rest.None? <==> AllRejected(matches, |matches|)
    ensures rest.Some? ==> exists k :: FirstAcceptedAt(matches, k, rest.value)
  {
    var tail := matches[1..];
    assert forall k :: 0 <= k < |tail| ==> matches[k + 1] == tail[k];
    if rest.Some? {
      var k :| FirstAcceptedAt(tail, k, rest.value);
      assert FirstAcceptedAt(matches, k + 1, rest.value);
    }
  }

  /** `_find_first_isbn`: scan the strings in order, skipping empty ones,
      and return the first non-empty normal form of a match. */
  function FindFirstIsbn(strings: seq<string>): (r: Option<string>)
    ensures r.Some? ==> IsValidIsbn(r.value)
  {
    if |strings| == 0 then None
    else if strings[0] == "" then FindFirstIsbn(strings[1..])
    else
      match FirstValid(FindAll(strings[0]))
      case Some(x) => Some(x)
      case None => FindFirstIsbn(strings[1..])
  }

  /** String `k` is non-empty and has an accepted match whose normal form
      is `x`, and no earlier non-empty string has one. */
  ghost predicate FirstHitAt(strings: seq<string>, k: int, x: string) {
    0 <= k < |strings| && strings[k] != "" && FirstValid(FindAll(strings[k])) == Some(x)
    && forall j :: 0 <= j < k ==> Misses(strings[j])
  }

  /** A string that yields no accepted match: empty, or every match
      rejected. */
  predicate Misses(s: string) {
    s == "" || FirstValid(FindAll(s)).None?
  }

  /** `_find_first_isbn` answers from the first string with an accepted
      match, and with that string's first accepted match; it answers
      `None` exactly when every string misses. */
  lemma {:induction false} FindFirstIsbnIsFirst(strings: seq<string>, x: string)
    ensures FindFirstIsbn(strings) == Some(x) <==> exists k :: FirstHitAt(strings, k, x)
    ensures FindFirstIsbn(strings).None? <==> forall j :: 0 <= j < |strings| ==> Misses(strings[j])
  {
    if |strings| > 0 {
      var rest := strings[1..];
      FindFirstIsbnIsFirst(rest, x);
      if Misses(strings[0]) {
        FirstHitSkip(strings, x);
        assert forall j :: 0 < j < |strings| ==> strings[j] == rest[j - 1];
      } else {
        assert FirstHitAt(strings, 0, FirstValid(FindAll(strings[0])).value);
        assert forall k :: 0 < k ==> !FirstHitAt(strings, k, x);
      }
    }
  }

  /** Skipping a first string that misses moves every first hit by one. */
  lemma FirstHitSkip(strings: seq<string>, x: string)
    requires |strings| > 0 && Misses(strings[0])
    ensures (exists k :: FirstHitAt(strings, k, x)) <==> (exists k :: FirstHitAt(strings[1..], k, x))
  {
    if exists k :: FirstHitAt(strings, k, x) {
      var k :| FirstHitAt(strings, k, x);
      FirstHitDown(strings, k, x);
    }
    if exists k :: FirstHitAt(strings[1..], k, x) {
      var k :| FirstHitAt(strings[1..], k, x);
      FirstHitUp(strings, k, x);
    }
  }

  lemma FirstHitDown(strings: seq<string>, k: int, x: string)
    requires |strings| > 0 && Misses(strings[0]) && FirstHitAt(strings, k, x)
    ensures FirstHitAt(strings[1..], k - 1, x)
  {
    var rest := strings[1..];
    assert k > 0;
    assert rest[k - 1] == strings[k];
    forall j | 0 <= j < k - 1
      ensures Misses(rest[j])
    {
      assert rest[j] == strings[j + 1];
    }
  }

  lemma FirstHitUp(strings: seq<string>, k: int, x: string)
    requires |strings| > 0 && Misses(strings[0]) && FirstHitAt(strings[1..], k, x)
    ensures FirstHitAt(strings, k + 1, x)
  {
    var rest := strings[1..];
    assert strings[k + 1] == rest[k];
    forall j | 0 <= j < k + 1
      ensures Misses(strings[j])
    {
      if j > 0 {
        assert strings[j] == rest[j - 1];
      }
    }
  }

  /** The first non-empty normal form is one of the string's ISBNs, and
      there is none exactly when the string yields no ISBN. */
  lemma FirstValidInSet(s: string)
    ensures FirstValid(FindAll(s)).None? <==> IsbnsIn(s) == {}
    ensures FirstValid(FindAll(s)).Some? ==> FirstValid(FindAll(s)).value in IsbnsIn(s)
  {
    var ms := FindAll(s);
    var r := FirstValid(ms);
    if r.Some? {
      var k :| FirstAcceptedAt(ms, k, r.value);
      assert ms[k] in ms;
      assert NormalizeCandidate(ms[k]) in IsbnsIn(s);
    }
  }

  /** `_find_first_isbn` and `_find_isbns_in_strings` agree: the first is
      `None` exactly when the set is empty, and otherwise one of its
      members. */
  lemma {:induction false} FirstIsbnInSet(strings: seq<string>)
    ensures FindFirstIsbn(strings).None? <==> FindIsbnsInStrings(strings) == {}
    ensures FindFirstIsbn(strings).Some? ==> FindFirstIsbn(strings).value in FindIsbnsInStrings(strings)
  {
    if |strings| > 0 {
      var head := strings[0];
      var rest := strings[1..];
      assert strings == [head] + rest;
      FindIsbnsConcat([head], rest);
      assert [head][..0] == [];
      assert FindIsbnsInStrings([head]) == (if head == "" then {} else IsbnsIn(head));
      FirstIsbnInSet(rest);
      FirstValidInSet(head);
    }
  }
}
