/** Text assembly from an archive: `_extract_full_text` (no bound) and
    `extract_text_from_epub` (stop once the joined text reaches the bound,
    then cut it there). The archive is `None` when it cannot be opened
    (a bad container or a missing file). */
module Extraction {
  import opened Wrappers
  import opened Text
  import opened Entries
  import opened Markup

  /** What one entry adds to the text: its stripped text, unless the entry
      cannot be read or strips to nothing. */
  function Piece(e: Entry): (r: seq<string>)
    ensures |r| <= 1
    ensures |r| == 1 ==> e.content.Some? && r[0] == StripHtml(e.content.value)
    ensures e.content.Some? && StripHtml(e.content.value) != "" ==> r == [StripHtml(e.content.value)]
    ensures forall k :: 0 <= k < |r| ==> r[k] != "" && Trimmed(r[k]) && NoDoubleSpace(r[k])
  {
    match e.content
    case None => []
    case Some(raw) =>
      var t := StripHtml(raw);
      if t == "" then [] else [t]
  }

  /** The `texts` list the loop builds from `entries`. */
  function Pieces(entries: seq<Entry>): (r: seq<string>)
  {
    if |entries| == 0 then []
    else Pieces(entries[..|entries| - 1]) + Piece(entries[|entries| - 1])
  }

  /** One entry gives exactly its own piece. */
  lemma PiecesSingle(e: Entry)
    ensures Pieces([e]) == Piece(e)
  {
    assert [e][..0] == [];
  }

  /** Each entry adds at most one piece. */
  lemma {:induction false} PiecesAtMostOneEach(entries: seq<Entry>)
    ensures |Pieces(entries)| <= |entries|
  {
    if |entries| > 0 {
      PiecesAtMostOneEach(entries[..|entries| - 1]);
    }
  }

  lemma {:induction false} PiecesConcat(a: seq<Entry>, b: seq<Entry>)
    ensures Pieces(a + b) == Pieces(a) + Pieces(b)
    decreases |b|
  {
    if |b| == 0 {
      assert a + b == a;
    } else {
      var init := b[..|b| - 1];
      assert (a + b)[..|a + b| - 1] == a + init;
      PiecesConcat(a, init);
    }
  }

  /** The unbounded text of an archive. */
  function FullText(archive: Option<seq<Entry>>): (r: string)
    ensures Trimmed(r)
    ensures NoDoubleSpace(r)
  {
    match archive
    case None => ""
    case Some(entries) =>
      var pieces := Pieces(TextEntries(entries));
      PiecesClean(TextEntries(entries));
      JoinClean(pieces);
      Trim(Join(pieces))
  }

  /** The final `strip()` never has anything to remove: the full text is the
      single-space join of the non-empty stripped readable entries, in
      reading order. */
  lemma FullTextIsJoin(entries: seq<Entry>)
    ensures FullText(Some(entries)) == Join(Pieces(TextEntries(entries)))
  {
    PiecesClean(TextEntries(entries));
    JoinClean(Pieces(TextEntries(entries)));
  }

  /** An archive without document entries yields no text. */
  lemma {:induction false} NoDocumentsNoText(entries: seq<Entry>)
    requires forall k :: 0 <= k < |entries| ==> !IsDocument(entries[k].name)
    ensures FullText(Some(entries)) == ""
  {
    var docs := TextEntries(entries);
    if |docs| > 0 {
      assert false;
    }
    assert Pieces(docs) == [];
    assert Join([]) == "";
  }

  lemma {:induction false} PiecesClean(entries: seq<Entry>)
    ensures forall k :: 0 <= k < |Pieces(entries)| ==> var p := Pieces(entries)[k]; p != "" && Trimmed(p) && NoDoubleSpace(p)
  {
    if |entries| > 0 {
      PiecesClean(entries[..|entries| - 1]);
    }
  }

  lemma PiecesJoinTrimmed(entries: seq<Entry>)
    ensures Trim(Join(Pieces(entries))) == Join(Pieces(entries))
  {
    PiecesClean(entries);
    JoinClean(Pieces(entries));
  }

  /** Once the text joined from the first `i` entries reaches `bound`
      characters, the remaining entries cannot change its first `bound`
      characters. */
  lemma EarlyStopAgrees(order: seq<Entry>, i: nat, bound: nat)
    requires i <= |order|
    requires |Join(Pieces(order[..i]))| >= bound
    ensures Prefix(Join(Pieces(order[..i])), bound) == Prefix(Join(Pieces(order)), bound)
  {
    PiecesSplit(order, i);
    JoinExtends(Pieces(order[..i]), Pieces(order[i..]));
    PrefixOfLonger(Join(Pieces(order[..i])), Join(Pieces(order)), bound);
  }

  lemma PiecesSplit(order: seq<Entry>, i: nat)
    requires i <= |order|
    ensures Pieces(order) == Pieces(order[..i]) + Pieces(order[i..])
  {
    assert order == order[..i] + order[i..];
    PiecesConcat(order[..i], order[i..]);
  }

  /** The loop of `extract_text_from_epub` over the entries in reading
      order: read entries until the joined text reaches `maxChars`, then
      strip the join and cut it at `maxChars`. */
  method ReadUntil(order: seq<Entry>, maxChars: nat) returns (text: string)
    ensures text == Prefix(Join(Pieces(order)), maxChars)
  {
    var texts: seq<string> := [];
    var i := 0;
    while i < |order|
      invariant 0 <= i <= |order|
      invariant texts == Pieces(order[..i])
    {
      var e := order[i];
      i := i + 1;
      assert order[..i][..i - 1] == order[..i - 1];
      assert Pieces(order[..i]) == texts + Piece(e);
      if e.content.None? {
        continue;
      }
      var stripped := StripHtml(e.content.value);
      if stripped != "" {
        texts := texts + [stripped];
      }
      assert texts == Pieces(order[..i]);
      if |Join(texts)| >= maxChars {
        EarlyStopAgrees(order, i, maxChars);
        break;
      }
    }
    if i == |order| {
      assert order[..i] == order;
    }
    PiecesJoinTrimmed(order[..i]);
    var combined := Trim(Join(texts));
    text := Prefix(combined, maxChars);
  }

  /** `extract_text_from_epub` with the bound `maxChars`: the first
      `maxChars` characters of the full text, and `""` for an archive that
      cannot be opened. */
  method ExtractText(archive: Option<seq<Entry>>, maxChars: nat) returns (text: string)
    ensures text == Prefix(FullText(archive), maxChars)
    ensures |text| <= maxChars
  {
    if archive.None? {
      return "";
    }
    text := ReadUntil(TextEntries(archive.value), maxChars);
    FullTextIsJoin(archive.value);
  }
}
