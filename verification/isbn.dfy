/** ISBN check-digit rules of ISO 2108 as the source implements them
    (`_is_valid_isbn10`, `_is_valid_isbn13`) and the clean-up of a candidate
    (`_normalize_isbn_candidate`). */
module Isbn {
  import opened Text

  /** A character an ISBN-10 may hold: a digit, or `X` standing for 10. */
  predicate IsIsbnChar(c: char) {
    IsDigit(c) || c == 'X'
  }

  /** Numeric value of a digit, 10 for `X`. */
  function CharValue(c: char): (n: nat)
    ensures n <= 10
    ensures IsDigit(c) ==> n <= 9
  {
    if c == 'X' then 10 else if IsDigit(c) then c as int - '0' as int else 0
  }

  /** Σ (10 − i)·value(v[i]) over the first `n` characters. */
  function Isbn10Sum(v: string, n: nat): int
    requires n <= |v|
  {
    if n == 0 then 0 else Isbn10Sum(v, n - 1) + (10 - (n - 1)) * CharValue(v[n - 1])
  }

  /** Ten characters: nine digits, then a digit or `X`. */
  predicate Isbn10Shape(v: string) {
    |v| == 10 && (forall i :: 0 <= i < 9 ==> IsDigit(v[i])) && IsIsbnChar(v[9])
  }

  /** `_is_valid_isbn10`. */
  predicate IsValidIsbn10(v: string) {
    Isbn10Shape(v) && Isbn10Sum(v, 10) % 11 == 0
  }

  predicate AllDigits(v: string) {
    forall i :: 0 <= i < |v| ==> IsDigit(v[i])
  }

  /** ISBN-13 weights: 1 at even positions, 3 at odd ones. */
  function Isbn13Weight(i: nat): nat {
    if i % 2 == 0 then 1 else 3
  }

  /** Σ weight(i)·value(v[i]) over the first `n` characters. */
  function Isbn13Sum(v: string, n: nat): int
    requires n <= |v|
  {
    if n == 0 then 0 else Isbn13Sum(v, n - 1) + CharValue(v[n - 1]) * Isbn13Weight(n - 1)
  }

  /** The check digit the first twelve digits call for. */
  function Isbn13Check(v: string): (d: nat)
    requires 12 <= |v|
    ensures d <= 9
  {
    (10 - Isbn13Sum(v, 12) % 10) % 10
  }

  /** `_is_valid_isbn13`. */
  predicate IsValidIsbn13(v: string) {
    |v| == 13 && AllDigits(v) && Isbn13Check(v) == CharValue(v[12])
  }

  /** What `_normalize_isbn_candidate` accepts. */
  predicate IsValidIsbn(v: string) {
    (|v| == 10 && IsValidIsbn10(v)) || (|v| == 13 && IsValidIsbn13(v))
  }

  /** `re.sub(r"[^0-9Xx]", "", s).upper()`. */
  function Clean(s: string): string {
    if |s| == 0 then ""
    else
      var c := s[0];
      (if IsIsbnChar(c) then [c] else if c == 'x' then ['X'] else []) + Clean(s[1..])
  }

  /** `_normalize_isbn_candidate`: the cleaned candidate when it is a valid
      ISBN-10 or ISBN-13, and `""` otherwise. */
  function NormalizeCandidate(s: string): (r: string)
    ensures r == "" || r == Clean(s)
    ensures r != "" <==> IsValidIsbn(Clean(s))
    ensures r != "" ==> IsValidIsbn(r)
  {
    var cleaned := Clean(s);
    if |cleaned| == 10 && IsValidIsbn10(cleaned) then cleaned
    else if |cleaned| == 13 && IsValidIsbn13(cleaned) then cleaned
    else ""
  }

  /** A valid ISBN-10 ends in the one character its first nine digits call
      for: the value that brings the weighted sum to a multiple of 11, `X`
      when that value is 10. */
  lemma Isbn10CheckCharacter(v: string)
    requires Isbn10Shape(v)
    ensures IsValidIsbn10(v) <==> CharValue(v[9]) == (11 - Isbn10Sum(v, 9) % 11) % 11
  {
    var s := Isbn10Sum(v, 9);
    var d := CharValue(v[9]);
    assert Isbn10Sum(v, 10) == s + d;
    var q := s / 11;
    var r := s % 11;
    assert s + d == 11 * q + (r + d);
  }

  /** `X` is accepted only as the last character of an ISBN-10. */
  lemma Isbn10XOnlyLast(v: string, i: nat)
    requires i < |v| && i != 9 && v[i] == 'X'
    ensures !IsValidIsbn10(v)
  {
    if |v| == 10 {
      assert !IsDigit(v[i]);
    }
  }

  /** The ISBN-13 rule read as a whole: all thirteen weighted digits sum to a
      multiple of 10. */
  lemma Isbn13WeightedSum(v: string)
    requires |v| == 13 && AllDigits(v)
    ensures IsValidIsbn13(v) <==> Isbn13Sum(v, 13) % 10 == 0
  {
    var s := Isbn13Sum(v, 12);
    var d := CharValue(v[12]);
    assert Isbn13Sum(v, 13) == s + d;
    var q := s / 10;
    var r := s % 10;
    assert s + d == 10 * q + (r + d);
  }

  /** Changing the character at `i` moves the ISBN-10 sum by its weight
      times the change in value. */
  lemma {:induction false} Isbn10SumUpdate(v: string, i: nat, c: char, n: nat)
    requires i < |v| && n <= |v|
    ensures Isbn10Sum(v[i := c], n)
      == Isbn10Sum(v, n) + (if i < n then (10 - i) * (CharValue(c) - CharValue(v[i])) else 0)
  {
    if n > 0 {
      Isbn10SumUpdate(v, i, c, n - 1);
      var k := n - 1;
      if k == i {
        assert v[i := c][k] == c;
        Distribute(10 - k, CharValue(c), CharValue(v[k]));
      } else {
        assert v[i := c][k] == v[k];
      }
    }
  }

  /** Changing the character at `i` moves the ISBN-13 sum by its weight
      times the change in value. */
  lemma {:induction false} Isbn13SumUpdate(v: string, i: nat, c: char, n: nat)
    requires i < |v| && n <= |v|
    ensures Isbn13Sum(v[i := c], n)
      == Isbn13Sum(v, n) + (if i < n then Isbn13Weight(i) * (CharValue(c) - CharValue(v[i])) else 0)
  {
    if n > 0 {
      Isbn13SumUpdate(v, i, c, n - 1);
    }
  }

  lemma Distribute(w: int, a: int, b: int)
    ensures w * a == w * b + w * (a - b)
  {
  }

  /** 11 is prime: a weight from 1 to 10 times a non-zero change of at
      most 10 is never a multiple of 11. */
  lemma NoMultipleOf11(w: int, d: int)
    requires 1 <= w <= 10 && -10 <= d <= 10 && d != 0
    ensures (w * d) % 11 != 0
  {
    if d == 1 { } else if d == 2 { } else if d == 3 { } else if d == 4 { } else if d == 5 { }
    else if d == 6 { } else if d == 7 { } else if d == 8 { } else if d == 9 { } else if d == 10 { }
    else if d == -1 { } else if d == -2 { } else if d == -3 { } else if d == -4 { } else if d == -5 { }
    else if d == -6 { } else if d == -7 { } else if d == -8 { } else if d == -9 { } else { }
  }

  /** A weight of 1 or 3 times a non-zero change of at most 9 is never a
      multiple of 10. */
  lemma NoMultipleOf10(w: int, d: int)
    requires (w == 1 || w == 3) && -9 <= d <= 9 && d != 0
    ensures (w * d) % 10 != 0
  {
    if w == 1 { } else { }
  }

  /** Moving the weighted sum by a non-multiple of 10 changes the check
      digit. */
  lemma ShiftChangesCheck(s: int, delta: int)
    requires delta % 10 != 0
    ensures (10 - (s + delta) % 10) % 10 != (10 - s % 10) % 10
  {
    var a := s % 10;
    var b := (s + delta) % 10;
    assert s == 10 * (s / 10) + a;
    assert delta == 10 * (delta / 10) + delta % 10;
    assert s + delta == 10 * (s / 10 + delta / 10) + (a + delta % 10);
    assert a != b;
  }

  /** Distinct ISBN characters have distinct values. */
  lemma CharValueInjective(a: char, b: char)
    requires IsIsbnChar(a) && IsIsbnChar(b) && a != b
    ensures CharValue(a) != CharValue(b)
  {
  }

  /** A multiple of 11 moved by a weight from 1 to 10 times a non-zero
      change of at most 10 is no longer a multiple of 11. */
  lemma Shift11(s: int, w: int, d: int)
    requires s % 11 == 0 && 1 <= w <= 10 && -10 <= d <= 10 && d != 0
    ensures (s + w * d) % 11 != 0
  {
    NoMultipleOf11(w, d);
    var p := w * d;
    assert s == 11 * (s / 11);
    assert p == 11 * (p / 11) + p % 11;
    assert s + p == 11 * (s / 11 + p / 11) + p % 11;
  }

  /** Replacing any one character of a valid ISBN-10 by a different one
      makes it invalid. */
  lemma Isbn10DetectsSingleChange(v: string, i: nat, c: char)
    requires IsValidIsbn10(v) && i < 10 && c != v[i]
    ensures !IsValidIsbn10(v[i := c])
  {
    var w := v[i := c];
    if Isbn10Shape(w) {
      assert w[i] == c;
      assert IsIsbnChar(c) && IsIsbnChar(v[i]);
      CharValueInjective(c, v[i]);
      Isbn10SumUpdate(v, i, c, 10);
      Shift11(Isbn10Sum(v, 10), 10 - i, CharValue(c) - CharValue(v[i]));
    }
  }

  /** Replacing any one character of a valid ISBN-13 by a different one
      makes it invalid. */
  lemma Isbn13DetectsSingleChange(v: string, i: nat, c: char)
    requires IsValidIsbn13(v) && i < 13 && c != v[i]
    ensures !IsValidIsbn13(v[i := c])
  {
    var w := v[i := c];
    if |w| == 13 && AllDigits(w) {
      assert w[i] == c;
      assert IsDigit(c) && IsDigit(v[i]);
      CharValueInjective(c, v[i]);
      if i < 12 {
        Isbn13SumUpdate(v, i, c, 12);
        var d := Isbn13Weight(i) * (CharValue(c) - CharValue(v[i]));
        NoMultipleOf10(Isbn13Weight(i), CharValue(c) - CharValue(v[i]));
        ShiftChangesCheck(Isbn13Sum(v, 12), d);
        assert w[12] == v[12];
      } else {
        Isbn13SumUpdate(v, i, c, 12);
      }
    }
  }

  /** A valid ISBN is its own normal form. */
  lemma ValidIsbnIsNormal(v: string)
    requires IsValidIsbn(v)
    ensures NormalizeCandidate(v) == v
  {
    CleanOutput(v);
  }

  /** Normalising a normalised candidate changes nothing. */
  lemma NormalizeIdempotent(s: string)
    requires NormalizeCandidate(s) != ""
    ensures NormalizeCandidate(NormalizeCandidate(s)) == NormalizeCandidate(s)
  {
    ValidIsbnIsNormal(NormalizeCandidate(s));
  }

  /** Cleaning keeps only ISBN characters, and keeps a text made of them
      unchanged. */
  lemma {:induction false} CleanOutput(s: string)
    ensures |Clean(s)| <= |s|
    ensures forall i :: 0 <= i < |Clean(s)| ==> IsIsbnChar(Clean(s)[i])
    ensures (forall i :: 0 <= i < |s| ==> IsIsbnChar(s[i])) ==> Clean(s) == s
  {
    if |s| > 0 {
      CleanOutput(s[1..]);
      if forall i :: 0 <= i < |s| ==> IsIsbnChar(s[i]) {
        assert forall i :: 0 <= i < |s[1..]| ==> IsIsbnChar(s[1..][i]) by {
          forall i | 0 <= i < |s[1..]| ensures IsIsbnChar(s[1..][i]) {
            assert s[1..][i] == s[i + 1];
          }
        }
        assert s == [s[0]] + s[1..];
      }
    }
  }

  /** Cleaning works character by character. */
  lemma {:induction false} CleanConcat(a: string, b: string)
    ensures Clean(a + b) == Clean(a) + Clean(b)
  {
    if |a| > 0 {
      assert (a + b)[1..] == a[1..] + b;
      CleanConcat(a[1..], b);
    } else {
      assert a + b == b;
    }
  }

  /** The ISBN-10 0-306-40615-2 passes the check. */
  lemma Example10Valid()
    ensures IsValidIsbn10("0306406152")
  {
  }

  /** The ISBN-13 978-0-306-40615-7 passes the check. */
  lemma Example13Valid()
    ensures IsValidIsbn13("9780306406157")
  {
    var v := "9780306406157";
    assert Isbn13Sum(v, 1) == 9;
    assert Isbn13Sum(v, 2) == 30;
    assert Isbn13Sum(v, 3) == 38;
    assert Isbn13Sum(v, 4) == 38;
    assert Isbn13Sum(v, 5) == 41;
    assert Isbn13Sum(v, 6) == 41;
    assert Isbn13Sum(v, 7) == 47;
    assert Isbn13Sum(v, 8) == 59;
    assert Isbn13Sum(v, 9) == 59;
    assert Isbn13Sum(v, 10) == 77;
    assert Isbn13Sum(v, 11) == 78;
    assert Isbn13Sum(v, 12) == 93;
  }

  /** `"0-306-40615-2"` normalises to its ten characters. */
  lemma NormalizeExample10()
    ensures NormalizeCandidate("0-306-40615-2") == "0306406152"
  {
    CleanHyphenated4("0", "306", "40615", "2");
    assert "0" + "-" + "306" + "-" + "40615" + "-" + "2" == "0-306-40615-2";
    assert "0" + "306" + "40615" + "2" == "0306406152";
    Example10Valid();
  }

  /** `"978-0-306-40615-7"` normalises to its thirteen digits. The groups
      are parameters pinned by the precondition: stated on the whole literal,
      the solver unfolds `Clean` character by character and the proof
      becomes too costly. */
  lemma NormalizeExample13(a: string, b: string, c: string, d: string, e: string)
    requires a == "978" && b == "0" && c == "306" && d == "40615" && e == "7"
    ensures NormalizeCandidate(a + "-" + b + "-" + c + "-" + d + "-" + e) == "9780306406157"
  {
    CleanHyphenated5(a, b, c, d, e);
    assert a + b + c + d + e == "9780306406157";
    Example13Valid();
  }

  /** Hyphens between groups of digits are dropped and the digits kept. */
  lemma CleanHyphenated4(a: string, b: string, c: string, d: string)
    requires AllDigits(a) && AllDigits(b) && AllDigits(c) && AllDigits(d)
    ensures Clean(a + "-" + b + "-" + c + "-" + d) == a + b + c + d
  {
    CleanDigits(a); CleanDigits(b); CleanDigits(c); CleanDigits(d);
    CleanDash(a, b);
    CleanDash(a + "-" + b, c);
    CleanDash(a + "-" + b + "-" + c, d);
  }

  lemma CleanHyphenated5(a: string, b: string, c: string, d: string, e: string)
    requires AllDigits(a) && AllDigits(b) && AllDigits(c) && AllDigits(d) && AllDigits(e)
    ensures Clean(a + "-" + b + "-" + c + "-" + d + "-" + e) == a + b + c + d + e
  {
    CleanHyphenated4(a, b, c, d);
    CleanDigits(e);
    CleanDash(a + "-" + b + "-" + c + "-" + d, e);
  }

  /** Digits pass through cleaning unchanged. */
  lemma CleanDigits(s: string)
    requires AllDigits(s)
    ensures Clean(s) == s
  {
    CleanOutput(s);
  }

  /** A hyphen contributes nothing to the cleaned text. */
  lemma CleanDash(a: string, b: string)
    ensures Clean(a + "-" + b) == Clean(a) + Clean(b)
  {
    CleanConcat(a + "-", b);
    CleanConcat(a, "-");
  }
}
