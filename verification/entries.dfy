/** Which archive entries are read for text, and in what order
    (`_iter_text_files`): document entries only, those whose name mentions a
    front-matter keyword first, each group in archive order. */
module Entries {
  import opened Wrappers
  import opened Text
  import opened Seqs

  /** One archive member: its name and its decoded text, or `None` when
      reading or decoding it fails. */
  datatype Entry = Entry(name: string, content: Option<string>)

  /** Keywords that mark front matter in an entry name. */
  const PreferredKeywords: seq<string> :=
    ["cover", "titlepage", "title-page", "front", "frontmatter", "copyright"]

  /** The lower-cased name ends in `.xhtml`, `.html` or `.htm`. */
  predicate IsDocument(name: string) {
    var n := Lower(name);
    EndsWith(n, ".xhtml") || EndsWith(n, ".html") || EndsWith(n, ".htm")
  }

  predicate MentionsAny(name: string, keywords: seq<string>)
    decreases |keywords|
  {
    |keywords| > 0 && (Contains(name, keywords[0]) || MentionsAny(name, keywords[1..]))
  }

  /** The lower-cased name contains one of the front-matter keywords. */
  predicate IsPreferred(name: string) {
    MentionsAny(Lower(name), PreferredKeywords)
  }

  /** A document entry that goes to the `prioritized` list. */
  predicate IsPrioritized(e: Entry) {
    IsDocument(e.name) && IsPreferred(e.name)
  }

  /** A document entry that goes to the `fallback` list. */
  predicate IsFallback(e: Entry) {
    IsDocument(e.name) && !IsPreferred(e.name)
  }

  /** Every preferred entry comes before every other one. */
  predicate PreferredFirst(entries: seq<Entry>) {
    forall i, j :: 0 <= i < j < |entries| && IsPreferred(entries[j].name) ==> IsPreferred(entries[i].name)
  }

  /** The document entries in reading order: the prioritized list followed by
      the fallback list, both filled in one pass over the archive. */
  function TextEntries(entries: seq<Entry>): (r: seq<Entry>)
    ensures forall e :: e in r <==> e in entries && IsDocument(e.name)
    ensures forall e :: multiset(r)[e] == if IsDocument(e.name) then multiset(entries)[e] else 0
    ensures PreferredFirst(r)
    ensures Filter(IsPrioritized, r) == Filter(IsPrioritized, entries)
    ensures Filter(IsFallback, r) == Filter(IsFallback, entries)
  {
    TwoGroupsCount(IsPrioritized, IsFallback, entries);
    TwoGroupsRefilter(IsPrioritized, IsFallback, entries);
    GroupsMembers(entries);
    GroupsOrder(entries);
    Filter(IsPrioritized, entries) + Filter(IsFallback, entries)
  }

  lemma GroupsMembers(entries: seq<Entry>)
    ensures var r := Filter(IsPrioritized, entries) + Filter(IsFallback, entries);
      forall e :: e in r <==> e in entries && IsDocument(e.name)
  {
    var r := Filter(IsPrioritized, entries) + Filter(IsFallback, entries);
    TwoGroupsCount(IsPrioritized, IsFallback, entries);
    forall e ensures e in r <==> e in entries && IsDocument(e.name) {
      assert IsPrioritized(e) || IsFallback(e) <==> IsDocument(e.name);
      assert e in entries <==> multiset(entries)[e] > 0;
      assert e in r <==> multiset(r)[e] > 0;
    }
  }

  lemma GroupsOrder(entries: seq<Entry>)
    ensures PreferredFirst(Filter(IsPrioritized, entries) + Filter(IsFallback, entries))
  {
    var r := Filter(IsPrioritized, entries) + Filter(IsFallback, entries);
    TwoGroupsOrder(IsPrioritized, IsFallback, entries);
    forall i, j | 0 <= i < j < |r| && IsPreferred(r[j].name)
      ensures IsPreferred(r[i].name)
    {
      ElementOfConcat(Filter(IsPrioritized, entries), Filter(IsFallback, entries), j);
      var x := r[j];
      assert IsPrioritized(x) || IsFallback(x);
      assert IsPrioritized(r[i]);
    }
  }
}
