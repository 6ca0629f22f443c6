/** Markup stripping (`_strip_html`): every `<[^>]+>` run becomes one
    space, then every whitespace run becomes one space, then the ends are
    trimmed. */
module Markup {
  import opened Wrappers
  import opened Text
  import opened Seqs

  /** Index of the first `>` in `t`, if any. */
  function CloseIndex(t: string): (r: Option<nat>)
    ensures r.Some? ==> r.value < |t| && t[r.value] == '>' && '>' !in t[..r.value]
    ensures r.None? ==> '>' !in t
  {
    if |t| == 0 then None
    else if t[0] == '>' then Some(0)
    else match CloseIndex(t[1..])
      case Some(k) =>
        assert t[..k + 1] == [t[0]] + t[1..][..k];
        Some(k + 1)
      case None =>
        assert t == [t[0]] + t[1..];
        None
  }

  /** Length of the tag `<[^>]+>` that starts `t`, if one does: a `<`, at
      least one character other than `>`, then the first `>`. */
  function TagAt(t: string): (r: Option<nat>)
    ensures r.Some? ==>
              3 <= r.value <= |t| && t[0] == '<' && t[r.value - 1] == '>' && '>' !in t[1..r.value - 1]
  {
    if |t| > 0 && t[0] == '<' then
      match CloseIndex(t[1..])
      case Some(k) => if k > 0 then Some(k + 2) else None
      case None => None
    else None
  }

  /** No tag starts anywhere in `s`. */
  predicate NoTags(s: string) {
    forall i :: 0 <= i < |s| ==> TagAt(s[i..]).None?
  }

  /** `re.sub(r"<[^>]+>", " ", s)`: scanning left to right, a tag starting
      at the current position is replaced by a space, any other character
      is kept. */
  function RemoveTags(s: string): (r: string)
    ensures NoTags(r)
    ensures '>' in r ==> '>' in s
    ensures |s| > 0 && s[0] != '<' ==> |r| > 0 && r[0] == s[0]
    ensures '<' !in s ==> r == s
    decreases |s|
  {
    if |s| == 0 then ""
    else match TagAt(s)
      case Some(n) =>
        var rest := RemoveTags(s[n..]);
        NoTagsCons(' ', rest);
        " " + rest
      case None =>
        var rest := RemoveTags(s[1..]);
        ConsKeepsNoTags(s, rest);
        [s[0]] + rest
  }

  /** The first `>` after a run without one is at the end of the run. */
  lemma CloseIndexAfter(x: string, v: string)
    requires '>' !in x
    ensures CloseIndex(x + ">" + v) == Some(|x|)
  {
    var t := x + ">" + v;
    assert t[|x|] == '>';
    assert t[..|x|] == x;
  }

  /** A tag `<x>` (with `x` non-empty and free of `>`) becomes one space;
      the text after it is processed on its own. */
  lemma RemoveTagsTag(x: string, v: string)
    requires |x| > 0 && '>' !in x
    ensures RemoveTags("<" + x + ">" + v) == " " + RemoveTags(v)
  {
    var s := "<" + x + ">" + v;
    assert s[1..] == x + ">" + v;
    CloseIndexAfter(x, v);
    assert TagAt(s) == Some(|x| + 2);
    assert s[|x| + 2..] == v;
  }

  /** A character that opens no tag is kept, and the rest is processed on
      its own. */
  lemma RemoveTagsChar(c: char, v: string)
    requires TagAt([c] + v).None?
    ensures RemoveTags([c] + v) == [c] + RemoveTags(v)
  {
    var s := [c] + v;
    assert s[1..] == v;
  }

  /** A `<` that no later `>` closes is kept in place. */
  lemma UnclosedAngleKept(v: string)
    requires '>' !in v
    ensures RemoveTags("<" + v) == "<" + RemoveTags(v)
  {
    var s := "<" + v;
    assert s[1..] == v;
    assert TagAt(s).None?;
    RemoveTagsChar('<', v);
  }

  /** A character put in front of a tag-free text starts no tag of its own
      unless it is a `<` that a later `>` closes. */
  lemma NoTagsCons(c: char, rest: string)
    requires c == '<' ==> '>' !in rest || rest[0] == '>'
    ensures NoTags(rest) ==> NoTags([c] + rest)
  {
    var s := [c] + rest;
    if NoTags(rest) {
    forall i | 0 <= i < |s|
      ensures TagAt(s[i..]).None?
    {
      if i == 0 {
        if c == '<' {
          assert s[1..] == rest;
        }
      } else {
        assert s[i..] == rest[i - 1..];
      }
    }
    }
  }

  /** Keeping the first character of `s` in front of the processed rest
      creates no tag when none starts at that character. */
  lemma ConsKeepsNoTags(s: string, rest: string)
    requires |s| > 0
    requires '>' in rest ==> '>' in s[1..]
    requires |s| > 1 && s[1] == '>' ==> |rest| > 0 && rest[0] == '>'
    ensures TagAt(s).None? && NoTags(rest) ==> NoTags([s[0]] + rest)
  {
    if TagAt(s).None? && NoTags(rest) {
      if s[0] == '<' && '>' in rest {
        assert s[1] == '>';
      }
      NoTagsCons(s[0], rest);
    }
  }

  lemma NoTagsHead(s: string)
    requires |s| > 0
    ensures NoTags(s) ==> TagAt(s).None?
  {
    assert s[0..] == s;
  }

  /** Length of the whitespace run that starts `s`. */
  function SpaceRun(s: string): (n: nat)
    ensures n <= |s|
    ensures forall i :: 0 <= i < n ==> IsSpace(s[i])
    ensures n < |s| ==> !IsSpace(s[n])
  {
    LeftSpaces(s)
  }

  /** `re.sub(r"\s+", " ", s)`. */
  function Collapse(s: string): (r: string)
    ensures |r| <= |s|
    ensures r == "" <==> s == ""
    decreases |s|
  {
    if |s| == 0 then ""
    else
      var n := SpaceRun(s);
      if n > 0 then " " + Collapse(s[n..]) else [s[0]] + Collapse(s[1..])
  }

  /** After the whitespace pass every whitespace character is a lone plain
      space; the text starts with whitespace exactly when the input did,
      and otherwise with the input's first character. */
  lemma {:induction false} CollapseShape(s: string)
    ensures NoDoubleSpace(Collapse(s)) && OnlyPlainSpaces(Collapse(s))
    ensures |s| > 0 ==> |Collapse(s)| > 0 && (IsSpace(s[0]) <==> IsSpace(Collapse(s)[0]))
    ensures |s| > 0 && !IsSpace(s[0]) ==> Collapse(s)[0] == s[0]
    decreases |s|
  {
    if |s| > 0 {
      var n := SpaceRun(s);
      var r := Collapse(s);
      if n > 0 {
        var rest := Collapse(s[n..]);
        CollapseShape(s[n..]);
        assert r == " " + rest;
        assert forall i :: 0 < i < |r| ==> r[i] == rest[i - 1];
      } else {
        var rest := Collapse(s[1..]);
        CollapseShape(s[1..]);
        assert r == [s[0]] + rest;
        assert forall i :: 0 < i < |r| ==> r[i] == rest[i - 1];
      }
    }
  }

  /** A run of whitespace before a non-whitespace character (or the end)
      becomes exactly one space. */
  lemma CollapseRun(w: string, v: string)
    requires |w| > 0 && AllSpace(w) && (|v| == 0 || !IsSpace(v[0]))
    ensures Collapse(w + v) == " " + Collapse(v)
  {
    var s := w + v;
    assert SpaceRun(s) == |w| by {
      if |w| < |s| {
        assert s[|w|] == v[0];
      }
    }
    assert s[|w|..] == v;
  }

  /** A non-whitespace character is kept, and the rest is processed on its
      own. */
  lemma CollapseChar(c: char, v: string)
    requires !IsSpace(c)
    ensures Collapse([c] + v) == [c] + Collapse(v)
  {
    var s := [c] + v;
    assert SpaceRun(s) == 0;
    assert s[1..] == v;
  }

  /** The whitespace pass changes only whitespace: the visible characters
      stay, in order. */
  lemma {:induction false} CollapseKeepsVisible(s: string)
    ensures Visible(Collapse(s)) == Visible(s)
    decreases |s|
  {
    if |s| > 0 {
      var n := SpaceRun(s);
      if n > 0 {
        var rest := s[n..];
        CollapseKeepsVisible(rest);
        VisibleAfterSpaces(s, n);
        VisibleCons(' ', Collapse(rest));
      } else {
        var rest := s[1..];
        CollapseKeepsVisible(rest);
        assert s == [s[0]] + rest;
        VisibleCons(s[0], rest);
        VisibleCons(s[0], Collapse(rest));
      }
    }
  }

  /** A leading character adds itself to the visible text unless it is
      whitespace. */
  lemma VisibleCons(c: char, v: string)
    ensures Visible([c] + v) == (if IsSpace(c) then "" else [c]) + Visible(v)
  {
    FilterConcat(NotSpace, [c], v);
    assert [c][..0] == [];
  }

  /** Leading whitespace adds nothing to the visible text. */
  lemma VisibleAfterSpaces(s: string, n: nat)
    requires n <= |s| && forall i :: 0 <= i < n ==> IsSpace(s[i])
    ensures Visible(s) == Visible(s[n..])
  {
    assert s == s[..n] + s[n..];
    FilterConcat(NotSpace, s[..n], s[n..]);
    VisibleOfSpace(s[..n]);
  }

  /** The whitespace pass creates no `>` and no tag. */
  lemma {:induction false} CollapseNoTags(s: string)
    ensures '>' in Collapse(s) ==> '>' in s
    ensures NoTags(s) ==> NoTags(Collapse(s))
    decreases |s|
  {
    if |s| > 0 {
      var n := SpaceRun(s);
      var r := Collapse(s);
      if n > 0 {
        var rest := Collapse(s[n..]);
        CollapseNoTags(s[n..]);
        assert r == " " + rest;
        assert '>' in rest ==> '>' in s by {
          if '>' in rest {
            var k :| 0 <= k < |s[n..]| && s[n..][k] == '>';
            assert s[n + k] == '>';
          }
        }
        NoTagsSuffix(s, n);
        NoTagsCons(' ', rest);
      } else {
        var rest := Collapse(s[1..]);
        CollapseNoTags(s[1..]);
        CollapseShape(s[1..]);
        assert r == [s[0]] + rest;
        assert '>' in rest ==> '>' in s[1..];
        NoTagsSuffix(s, 1);
        NoTagsHead(s);
        ConsKeepsNoTags(s, rest);
      }
    }
  }

  lemma NoTagsSuffix(s: string, k: nat)
    requires k <= |s|
    ensures NoTags(s) ==> NoTags(s[k..])
  {
    if NoTags(s) {
      forall i | 0 <= i < |s[k..]|
        ensures TagAt(s[k..][i..]).None?
      {
        assert s[k..][i..] == s[k + i..];
      }
    }
  }

  /** A tag that starts a prefix of `t` starts `t` itself. */
  lemma TagAtPrefix(t: string, m: nat)
    requires m <= |t|
    ensures TagAt(t[..m]).Some? ==> TagAt(t) == TagAt(t[..m])
  {
    if TagAt(t[..m]).Some? {
      var u := t[..m][1..];
      var v := t[1..];
      assert u == v[..m - 1];
      var k := CloseIndex(u).value;
      assert v[k] == '>';
      assert CloseIndex(v) == Some(k);
    }
  }

  lemma NoTagsPrefix(s: string, m: nat)
    requires m <= |s|
    ensures NoTags(s) ==> NoTags(s[..m])
  {
    if NoTags(s) {
      forall i | 0 <= i < m
        ensures TagAt(s[..m][i..]).None?
      {
        assert s[..m][i..] == s[i..][..m - i];
        TagAtPrefix(s[i..], m - i);
      }
    }
  }

  /** `strip()` keeps a text tag-free. */
  lemma NoTagsTrim(s: string)
    ensures NoTags(s) ==> NoTags(Trim(s))
  {
    var a := LeftSpaces(s);
    NoTagsSuffix(s, a);
    var t := s[a..];
    var m := |t| - RightSpaces(t);
    assert Trim(s) == t[..m];
    NoTagsPrefix(t, m);
  }

  /** `_strip_html`. */
  function StripHtml(raw: string): (r: string)
    ensures Trimmed(r)
    ensures NoDoubleSpace(r)
    ensures OnlyPlainSpaces(r)
    ensures NoTags(r)
  {
    var c := Collapse(RemoveTags(raw));
    CollapseShape(RemoveTags(raw));
    CollapseNoTags(RemoveTags(raw));
    NoTagsTrim(c);
    TrimKeepsSpacing(c);
    Trim(c)
  }

  /** Apart from the tags it drops, stripping keeps every visible
      character of the text, in order. */
  lemma StripHtmlKeepsVisible(raw: string)
    ensures Visible(StripHtml(raw)) == Visible(RemoveTags(raw))
  {
    var c := Collapse(RemoveTags(raw));
    CollapseKeepsVisible(RemoveTags(raw));
    TrimKeepsVisible(c);
  }

  /** A tag-free text is left as it is by the tag pass. */
  lemma {:induction false} RemoveTagsKeepsClean(s: string)
    requires NoTags(s)
    ensures RemoveTags(s) == s
    decreases |s|
  {
    if |s| > 0 {
      assert TagAt(s[0..]).None? && s[0..] == s;
      NoTagsSuffix(s, 1);
      RemoveTagsKeepsClean(s[1..]);
      assert s == [s[0]] + s[1..];
    }
  }

  /** A text whose only whitespace is single plain spaces is left as it is
      by the whitespace pass. */
  lemma {:induction false} CollapseKeepsClean(s: string)
    requires NoDoubleSpace(s) && OnlyPlainSpaces(s)
    ensures Collapse(s) == s
    decreases |s|
  {
    if |s| > 0 {
      var n := SpaceRun(s);
      if n > 0 {
        assert s[0] == ' ';
        CollapseKeepsClean(s[1..]);
        assert s == [s[0]] + s[1..];
      } else {
        CollapseKeepsClean(s[1..]);
        assert s == [s[0]] + s[1..];
      }
    }
  }

  /** Stripping an already stripped text changes nothing. */
  lemma StripHtmlIdempotent(raw: string)
    ensures StripHtml(StripHtml(raw)) == StripHtml(raw)
  {
    var s := StripHtml(raw);
    RemoveTagsKeepsClean(s);
    CollapseKeepsClean(s);
  }
}
