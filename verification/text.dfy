/** Character classes and the few `str` methods of Python the core relies on:
    whitespace as `str.isspace` (and the `\s` class of `re`) sees it, ASCII
    case mapping, `strip`, `endswith`, the substring test `in`, and
    `" ".join`. */
module Text {
  import opened Seqs

  /** Python's `str.isspace` / `re` `\s` on a single character. */
  predicate IsSpace(c: char) {
    || ('\t' <= c <= '\r')
    || ('\U{1C}' <= c <= ' ')
    || c == '\U{85}' || c == '\U{A0}' || c == '\U{1680}'
    || ('\U{2000}' <= c <= '\U{200A}')
    || c == '\U{2028}' || c == '\U{2029}' || c == '\U{202F}'
    || c == '\U{205F}' || c == '\U{3000}'
  }

  predicate NotSpace(c: char) {
    !IsSpace(c)
  }

  /** Every character of `s` is whitespace. */
  predicate AllSpace(s: string) {
    forall i :: 0 <= i < |s| ==> IsSpace(s[i])
  }

  /** The non-whitespace characters of `s`, in order: what the whitespace
      passes must neither lose nor reorder. */
  function Visible(s: string): string {
    Filter(NotSpace, s)
  }

  predicate IsDigit(c: char) {
    '0' <= c <= '9'
  }

  predicate IsUpper(c: char) {
    'A' <= c <= 'Z'
  }

  function LowerChar(c: char): (r: char)
    ensures !IsUpper(r)
    ensures !IsUpper(c) ==> r == c
  {
    if IsUpper(c) then (c as int + 32) as char else c
  }

  function UpperChar(c: char): (r: char)
    ensures 'a' <= c <= 'z' ==> IsUpper(r)
  {
    if 'a' <= c <= 'z' then (c as int - 32) as char else c
  }

  /** `s.lower()` restricted to ASCII letters. */
  function Lower(s: string): (r: string)
    ensures |r| == |s|
    ensures forall i :: 0 <= i < |s| ==> r[i] == LowerChar(s[i])
  {
    seq(|s|, i requires 0 <= i < |s| => LowerChar(s[i]))
  }

  /** No leading and no trailing whitespace: what `strip()` guarantees. */
  predicate Trimmed(s: string) {
    |s| == 0 || (!IsSpace(s[0]) && !IsSpace(s[|s| - 1]))
  }

  /** Number of leading whitespace characters. */
  function LeftSpaces(s: string): (n: nat)
    ensures n <= |s|
    ensures forall i :: 0 <= i < n ==> IsSpace(s[i])
    ensures n < |s| ==> !IsSpace(s[n])
  {
    if |s| > 0 && IsSpace(s[0]) then 1 + LeftSpaces(s[1..]) else 0
  }

  /** Number of trailing whitespace characters. */
  function RightSpaces(s: string): (n: nat)
    ensures n <= |s|
    ensures forall i :: |s| - n <= i < |s| ==> IsSpace(s[i])
    ensures n < |s| ==> !IsSpace(s[|s| - n - 1])
  {
    if |s| > 0 && IsSpace(s[|s| - 1]) then 1 + RightSpaces(s[..|s| - 1]) else 0
  }

  function TrimLeft(s: string): string {
    s[LeftSpaces(s)..]
  }

  function TrimRight(s: string): string {
    s[..|s| - RightSpaces(s)]
  }

  /** `r` occurs in `s` at `a` with nothing but whitespace around it. */
  ghost predicate PaddedAt(s: string, r: string, a: int) {
    0 <= a && a + |r| <= |s| && s[a..a + |r|] == r && AllSpace(s[..a]) && AllSpace(s[a + |r|..])
  }

  /** `s.strip()`: the text between the leading and the trailing whitespace. */
  function Trim(s: string): (r: string)
    ensures Trimmed(r)
    ensures exists a :: PaddedAt(s, r, a)
    ensures |r| <= |s|
    ensures r == "" <==> AllSpace(s)
    ensures Trimmed(s) ==> r == s
  {
    var a := LeftSpaces(s);
    var t := TrimLeft(s);
    var r := TrimRight(t);
    assert |t| > 0 ==> |r| > 0 && r[0] == t[0];
    assert s[a..a + |r|] == r;
    assert s[a + |r|..] == t[|r|..];
    assert PaddedAt(s, r, a);
    r
  }

  /** Whitespace has nothing visible. */
  lemma {:induction false} VisibleOfSpace(s: string)
    requires AllSpace(s)
    ensures Visible(s) == ""
  {
    if |s| > 0 {
      VisibleOfSpace(s[..|s| - 1]);
    }
  }

  /** `strip()` removes only whitespace: the visible characters stay, in
      order. */
  lemma TrimKeepsVisible(s: string)
    ensures Visible(Trim(s)) == Visible(s)
  {
    var r := Trim(s);
    var a :| PaddedAt(s, r, a);
    var left := s[..a];
    var right := s[a + |r|..];
    PaddedSplit(s, r, a);
    VisibleConcat(left + r, right);
    VisibleConcat(left, r);
    VisibleOfSpace(left);
    VisibleOfSpace(right);
  }

  lemma PaddedSplit(s: string, r: string, a: int)
    requires PaddedAt(s, r, a)
    ensures s == s[..a] + r + s[a + |r|..]
  {
    assert s[..a + |r|] == s[..a] + r;
    assert s == s[..a + |r|] + s[a + |r|..];
  }

  lemma VisibleConcat(x: string, y: string)
    ensures Visible(x + y) == Visible(x) + Visible(y)
  {
    FilterConcat(NotSpace, x, y);
  }

  /** `s.endswith(suffix)`. */
  predicate EndsWith(s: string, suffix: string) {
    |suffix| <= |s| && s[|s| - |suffix|..] == suffix
  }

  /** `sub in s` for strings. */
  predicate Contains(s: string, sub: string)
    decreases |s|
  {
    sub <= s || (|s| > 0 && Contains(s[1..], sub))
  }

  /** `" ".join(parts)`. */
  function Join(parts: seq<string>): (r: string)
    ensures |parts| == 0 ==> r == ""
    ensures |parts| == 1 ==> r == parts[0]
  {
    if |parts| == 0 then ""
    else if |parts| == 1 then parts[0]
    else Join(parts[..|parts| - 1]) + " " + parts[|parts| - 1]
  }

  /** `s[:n]` for `n >= 0`. */
  function Prefix(s: string, n: nat): (r: string)
    ensures |r| <= n && |r| <= |s|
    ensures r <= s
    ensures |s| <= n ==> r == s
  {
    if n <= |s| then s[..n] else s
  }

  /** Cutting a text and any extension of it at a length the text reaches
      gives the same result. */
  lemma PrefixOfLonger(x: string, y: string, n: nat)
    requires x <= y && n <= |x|
    ensures Prefix(x, n) == Prefix(y, n)
  {
    assert y[..n] == x[..n];
  }

  /** The join of more parts starts with the join of fewer. */
  lemma {:induction false} JoinExtends(parts: seq<string>, more: seq<string>)
    ensures Join(parts) <= Join(parts + more)
    decreases |more|
  {
    if |more| == 0 {
      assert parts + more == parts;
    } else {
      var all := parts + more;
      var init := more[..|more| - 1];
      assert all[..|all| - 1] == parts + init;
      JoinExtends(parts, init);
      if |parts| == 0 {
      } else if |all| >= 2 {
        assert Join(all) == Join(parts + init) + " " + all[|all| - 1];
      }
    }
  }

  /** Joining non-empty, stripped parts with single spaces gives a stripped
      text without two whitespace characters in a row. */
  lemma {:induction false} JoinClean(parts: seq<string>)
    requires forall k :: 0 <= k < |parts| ==> parts[k] != "" && Trimmed(parts[k])
    requires forall k :: 0 <= k < |parts| ==> NoDoubleSpace(parts[k])
    ensures Trimmed(Join(parts))
    ensures NoDoubleSpace(Join(parts))
    ensures |parts| > 0 ==> |Join(parts)| > 0 && Join(parts)[0] == parts[0][0]
  {
    if |parts| >= 2 {
      var init := parts[..|parts| - 1];
      var last := parts[|parts| - 1];
      JoinClean(init);
      var a := Join(init);
      var r := a + " " + last;
      assert Join(parts) == r;
      forall i | 0 <= i < |r| - 1
        ensures !(IsSpace(r[i]) && IsSpace(r[i + 1]))
      {
        if i < |a| - 1 {
          assert r[i] == a[i] && r[i + 1] == a[i + 1];
        } else if i == |a| - 1 {
          assert r[i] == a[|a| - 1];
        } else if i == |a| {
          assert r[i + 1] == last[0];
        } else {
          assert r[i] == last[i - |a| - 1] && r[i + 1] == last[i - |a|];
        }
      }
      assert r[0] == a[0];
      assert r[|r| - 1] == last[|last| - 1];
    }
  }

  /** No two whitespace characters in a row. */
  predicate NoDoubleSpace(s: string) {
    forall i :: 0 <= i < |s| - 1 ==> !(IsSpace(s[i]) && IsSpace(s[i + 1]))
  }

  /** Every whitespace character is a plain space. */
  predicate OnlyPlainSpaces(s: string) {
    forall i :: 0 <= i < |s| && IsSpace(s[i]) ==> s[i] == ' '
  }

  /** `strip()` cuts a piece out of the middle, so it keeps the spacing
      properties of its input. */
  lemma TrimKeepsSpacing(s: string)
    ensures NoDoubleSpace(s) ==> NoDoubleSpace(Trim(s))
    ensures OnlyPlainSpaces(s) ==> OnlyPlainSpaces(Trim(s))
  {
    var a := LeftSpaces(s);
    var t := TrimLeft(s);
    var r := Trim(s);
    assert r == s[a..][..|t| - RightSpaces(t)];
    assert forall i :: 0 <= i < |r| ==> r[i] == s[a + i];
  }
}
