/** The ISBN survey of one book and of a batch (`isbn_scan`): search the
    metadata strings first, the full text only when the metadata yields
    nothing, and tally the outcomes as meta / text / none. */
module Scan {
  import opened Wrappers
  import opened Seqs
  import opened Entries
  import opened Extraction
  import opened Detection
  import opened Manifest

  /** The `extra` table flattened: each key followed by its values, keys in
      insertion order. */
  function ExtraStrings(extra: seq<Field>): (r: seq<string>)
    ensures forall k :: 0 <= k < |extra| ==> extra[k].key in r
  {
    if |extra| == 0 then []
    else ExtraStrings(extra[..|extra| - 1]) + [extra[|extra| - 1].key] + extra[|extra| - 1].values
  }

  /** `s` is the key or one of the values of field `k`. */
  ghost predicate InField(extra: seq<Field>, k: int, s: string) {
    0 <= k < |extra| && (s == extra[k].key || s in extra[k].values)
  }

  /** The flattened table holds exactly the keys and the values. */
  lemma {:induction false} ExtraStringsMembers(extra: seq<Field>, s: string)
    ensures s in ExtraStrings(extra) <==> exists k :: InField(extra, k, s)
  {
    if |extra| > 0 {
      var init := extra[..|extra| - 1];
      var f := extra[|extra| - 1];
      ExtraStringsMembers(init, s);
      assert ExtraStrings(extra) == ExtraStrings(init) + ([f.key] + f.values);
      if exists k :: InField(init, k, s) {
        var k :| InField(init, k, s);
        assert InField(extra, k, s);
      }
      if s in [f.key] + f.values {
        assert InField(extra, |extra| - 1, s);
      }
      if exists k :: InField(extra, k, s) {
        var k :| InField(extra, k, s);
        if k < |extra| - 1 {
          assert InField(init, k, s);
        } else {
          assert s in [f.key] + f.values;
        }
      }
    }
  }

  /** Flattening a table of one field gives its key, then its values. */
  lemma ExtraStringsSingle(f: Field)
    ensures ExtraStrings([f]) == [f.key] + f.values
  {
    assert [f][..0] == [];
  }

  /** The metadata strings before empty ones are dropped: the six scalars,
      the identifiers, then the flattened `extra` table. */
  function AllMetadataStrings(m: Metadata): seq<string> {
    [m.title, m.creator, m.publisher, m.language, m.identifier, m.description]
      + m.identifiers + ExtraStrings(m.extra)
  }

  predicate NonEmpty(s: string) {
    s != ""
  }

  /** `_collect_metadata_strings`: the non-empty metadata strings, in
      order. */
  function MetadataStrings(m: Metadata): (r: seq<string>)
    ensures forall s :: s in r ==> s != ""
  {
    Filter(NonEmpty, AllMetadataStrings(m))
  }

  /** A string is collected exactly when it is a non-empty metadata string,
      and as often as it occurs there. */
  lemma MetadataStringsMembers(m: Metadata, s: string)
    ensures s in MetadataStrings(m) <==> s in AllMetadataStrings(m) && s != ""
    ensures s != "" ==> multiset(MetadataStrings(m))[s] == multiset(AllMetadataStrings(m))[s]
  {
    FilterCount(NonEmpty, AllMetadataStrings(m));
  }

  /** Dropping empty strings is harmless: the ISBN search skips them
      anyway. */
  lemma {:induction false} DroppingEmptiesKeepsIsbns(strings: seq<string>)
    ensures FindIsbnsInStrings(Filter(NonEmpty, strings)) == FindIsbnsInStrings(strings)
  {
    if |strings| > 0 {
      var init := strings[..|strings| - 1];
      var last := strings[|strings| - 1];
      DroppingEmptiesKeepsIsbns(init);
      FindIsbnsConcat(Filter(NonEmpty, init), if last != "" then [last] else []);
      if last != "" {
        assert [last][..0] == [];
      }
    }
  }

  /** What the scan of one book reports. */
  datatype Outcome = Outcome(hasMeta: bool, hasText: bool)

  /** `scan_epub_for_isbn` once the metadata strings and the text are
      known: metadata first; the text is searched only when the metadata
      yields no ISBN. */
  function Decide(metaStrings: seq<string>, text: string): (r: Outcome)
    ensures !(r.hasMeta && r.hasText)
    ensures r.hasMeta <==> FindIsbnsInStrings(metaStrings) != {}
    ensures r.hasText <==> FindIsbnsInStrings(metaStrings) == {} && IsbnsIn(text) != {}
  {
    if FindIsbnsInStrings(metaStrings) != {} then Outcome(true, false)
    else
      EmptyStringYieldsNothing();
      assert [text][..0] == [];
      assert FindIsbnsInStrings([text]) == FindIsbnsInStrings([]) + (if text == "" then {} else IsbnsIn(text));
      Outcome(false, FindIsbnsInStrings([text]) != {})
  }

  /** Once the metadata holds an ISBN the text plays no part. */
  lemma TextIgnoredAfterMetaHit(metaStrings: seq<string>, text1: string, text2: string)
    requires FindIsbnsInStrings(metaStrings) != {}
    ensures Decide(metaStrings, text1) == Decide(metaStrings, text2) == Outcome(true, false)
  {
  }

  /** `scan_epub_for_isbn` on an archive; `parse` reads the package
      document. */
  function ScanBook(archive: Option<seq<Entry>>, parse: string -> Option<seq<Element>>): (r: Outcome)
    ensures !(r.hasMeta && r.hasText)
    ensures r.hasMeta <==> FindIsbnsInStrings(AllMetadataStrings(MetadataOf(archive, parse))) != {}
    ensures r.hasText <==> !r.hasMeta && IsbnsIn(FullText(archive)) != {}
  {
    var m := MetadataOf(archive, parse);
    DroppingEmptiesKeepsIsbns(AllMetadataStrings(m));
    Decide(MetadataStrings(m), FullText(archive))
  }

  /** Strings that are all empty yield no ISBN. */
  lemma {:induction false} EmptyStringsYieldNothing(strings: seq<string>)
    requires forall k :: 0 <= k < |strings| ==> strings[k] == ""
    ensures FindIsbnsInStrings(strings) == {}
  {
    if |strings| > 0 {
      EmptyStringsYieldNothing(strings[..|strings| - 1]);
    }
  }

  /** A book that cannot be opened has no metadata and no text, so it
      counts as "none". */
  lemma MissingBookFindsNothing(parse: string -> Option<seq<Element>>)
    ensures ScanBook(None, parse) == Outcome(false, false)
  {
    var m := MetadataOf(None, parse);
    assert m == Empty;
    assert ExtraStrings([]) == [];
    EmptyStringsYieldNothing(AllMetadataStrings(m));
    DroppingEmptiesKeepsIsbns(AllMetadataStrings(m));
    EmptyStringYieldsNothing();
  }

  /** The running counters of the survey. */
  datatype Tally = Tally(meta: nat, text: nat, none: nat, processed: nat)

  const Start: Tally := Tally(0, 0, 0, 0)

  /** The counter update for one finished scan. */
  function Count(t: Tally, o: Outcome): (r: Tally)
    ensures r.processed == t.processed + 1
    ensures !(o.hasMeta && o.hasText) ==> r.meta + r.text + r.none == t.meta + t.text + t.none + 1
    ensures r.meta >= t.meta && r.text >= t.text && r.none >= t.none
  {
    Tally(
      t.meta + (if o.hasMeta then 1 else 0),
      t.text + (if o.hasText then 1 else 0),
      t.none + (if !o.hasMeta && !o.hasText then 1 else 0),
      t.processed + 1)
  }

  /** The counters after the outcomes arrive in the order given. */
  function Fold(t: Tally, outcomes: seq<Outcome>): (r: Tally)
    ensures r.processed == t.processed + |outcomes|
    ensures r.meta >= t.meta && r.text >= t.text && r.none >= t.none
    decreases |outcomes|
  {
    if |outcomes| == 0 then t else Fold(Count(t, outcomes[0]), outcomes[1..])
  }

  /** The counters depend only on how many outcomes of each kind arrived. */
  lemma {:induction false} FoldCounts(t: Tally, outcomes: seq<Outcome>)
    ensures var m := multiset(outcomes);
      Fold(t, outcomes) == Tally(
        t.meta + m[Outcome(true, false)] + m[Outcome(true, true)],
        t.text + m[Outcome(false, true)] + m[Outcome(true, true)],
        t.none + m[Outcome(false, false)],
        t.processed + |outcomes|)
    decreases |outcomes|
  {
    if |outcomes| > 0 {
      FoldCounts(Count(t, outcomes[0]), outcomes[1..]);
      assert outcomes == [outcomes[0]] + outcomes[1..];
      assert multiset(outcomes) == multiset{outcomes[0]} + multiset(outcomes[1..]);
    }
  }

  /** The arrival order of the outcomes does not matter. */
  lemma OrderDoesNotMatter(xs: seq<Outcome>, ys: seq<Outcome>)
    requires multiset(xs) == multiset(ys)
    ensures Fold(Start, xs) == Fold(Start, ys)
  {
    FoldCounts(Start, xs);
    FoldCounts(Start, ys);
    assert |xs| == |multiset(xs)| == |multiset(ys)| == |ys|;
  }

  /** With outcomes of single scans (never both hits), every book lands in
      exactly one of the three counters. */
  lemma CountersAddUp(outcomes: seq<Outcome>)
    requires forall k :: 0 <= k < |outcomes| ==> !(outcomes[k].hasMeta && outcomes[k].hasText)
    ensures var t := Fold(Start, outcomes); t.meta + t.text + t.none == t.processed
  {
    FoldCounts(Start, outcomes);
    var m := multiset(outcomes);
    assert Outcome(true, true) !in outcomes;
    MultisetOfFour(outcomes);
  }

  /** Every outcome is one of the four kinds. */
  lemma {:induction false} MultisetOfFour(outcomes: seq<Outcome>)
    ensures var m := multiset(outcomes);
      m[Outcome(true, false)] + m[Outcome(true, true)] + m[Outcome(false, true)] + m[Outcome(false, false)]
        == |outcomes|
  {
    if |outcomes| > 0 {
      MultisetOfFour(outcomes[1..]);
      assert outcomes == [outcomes[0]] + outcomes[1..];
      assert multiset(outcomes) == multiset{outcomes[0]} + multiset(outcomes[1..]);
      var o := outcomes[0];
      assert o == Outcome(true, false) || o == Outcome(true, true)
        || o == Outcome(false, true) || o == Outcome(false, false);
    }
  }
}
