/** Package-document metadata (`extract_metadata_from_epub`) after parsing:
    the Dublin Core scalars, the ordered identifier list with its fallback,
    and the `extra` table built from `<meta>` elements and `dc:subject`.
    The parsed document is given as the root's descendants in document
    order; parsing itself is a parameter. */
module Manifest {
  import opened Wrappers
  import opened Text
  import opened Entries

  /** The Dublin Core elements namespace bound to the `dc` prefix. */
  const DcNamespace: string := "http://purl.org/dc/elements/1.1/"

  /** A descendant element of the package document: namespace (`""` for
      none), local name, attributes, and text (`None` when the element has
      no text node before its first child). */
  datatype Element = Element(ns: string, local: string, attrs: map<string, string>, text: Option<string>)

  /** ElementTree's tag: `{namespace}local`, or just `local`. */
  function Tag(e: Element): (r: string)
    ensures EndsWith(r, e.local)
  {
    if e.ns == "" then e.local else "{" + e.ns + "}" + e.local
  }

  /** The element is `dc:<name>`. */
  predicate IsDc(e: Element, name: string) {
    e.ns == DcNamespace && e.local == name
  }

  /** The element is `{*}meta`: a `meta` in any namespace or none. */
  predicate IsMeta(e: Element) {
    e.local == "meta"
  }

  /** `(el.text or "").strip()` */
  function TextOf(e: Element): (r: string)
    ensures Trimmed(r)
    ensures r == "" <==> e.text.None? || AllSpace(e.text.value)
    ensures e.text.Some? ==> Visible(r) == Visible(e.text.value)
  {
    match e.text
    case None => ""
    case Some(t) =>
      TrimKeepsVisible(t);
      Trim(t)
  }

  /** `el.get(name)` where a missing attribute reads as `""`; both are
      falsy, which is all the source asks of them. */
  function Attr(e: Element, name: string): string {
    if name in e.attrs then e.attrs[name] else ""
  }

  /** The element at `k` is the first `dc:<name>` one. */
  ghost predicate FirstDcAt(els: seq<Element>, name: string, k: int) {
    0 <= k < |els| && IsDc(els[k], name) && forall j :: 0 <= j < k ==> !IsDc(els[j], name)
  }

  /** `_get_text(".//dc:<name>")`: the stripped text of the FIRST matching
      element, `""` when there is none or its text is blank. Later
      elements are never looked at. */
  function FirstText(els: seq<Element>, name: string): (r: string)
    ensures Trimmed(r)
    ensures (forall k :: 0 <= k < |els| ==> !IsDc(els[k], name)) ==> r == ""
    ensures forall k :: FirstDcAt(els, name, k) ==> r == TextOf(els[k])
  {
    if |els| == 0 then ""
    else if IsDc(els[0], name) then
      assert forall k :: FirstDcAt(els, name, k) ==> k == 0;
      TextOf(els[0])
    else
      var r := FirstText(els[1..], name);
      FirstTextShift(els, name, r);
      r
  }

  lemma FirstTextShift(els: seq<Element>, name: string, r: string)
    requires |els| > 0 && !IsDc(els[0], name)
    requires (forall k :: 0 <= k < |els| - 1 ==> !IsDc(els[1..][k], name)) ==> r == ""
    requires forall k :: FirstDcAt(els[1..], name, k) ==> r == TextOf(els[1..][k])
    ensures (forall k :: 0 <= k < |els| ==> !IsDc(els[k], name)) ==> r == ""
    ensures forall k :: FirstDcAt(els, name, k) ==> r == TextOf(els[k])
  {
    var tail := els[1..];
    assert forall k :: 0 <= k < |tail| ==> els[k + 1] == tail[k];
    forall k | FirstDcAt(els, name, k) ensures r == TextOf(els[k]) {
      assert FirstDcAt(tail, name, k - 1);
    }
  }

  /** What one element adds to `identifiers`. */
  function IdentifierOf(e: Element): (r: seq<string>)
    ensures |r| <= 1
  {
    if IsDc(e, "identifier") && TextOf(e) != "" then [TextOf(e)] else []
  }

  /** All `dc:identifier` texts, stripped, blank ones dropped, in document
      order. */
  function Identifiers(els: seq<Element>): (r: seq<string>)
    ensures forall k :: 0 <= k < |r| ==> r[k] != "" && Trimmed(r[k])
  {
    if |els| == 0 then [] else IdentifierOf(els[0]) + Identifiers(els[1..])
  }

  /** The identifier list of a concatenation is the concatenation of the
      lists. */
  lemma {:induction false} IdentifiersConcat(a: seq<Element>, b: seq<Element>)
    ensures Identifiers(a + b) == Identifiers(a) + Identifiers(b)
  {
    if |a| == 0 {
      assert a + b == b;
    } else {
      assert (a + b)[1..] == a[1..] + b;
      IdentifiersConcat(a[1..], b);
    }
  }

  /** One element adds its stripped text when it is a `dc:identifier`
      with a non-blank text, and nothing otherwise. */
  lemma IdentifiersSingle(e: Element)
    ensures Identifiers([e]) == if IsDc(e, "identifier") && TextOf(e) != "" then [TextOf(e)] else []
  {
    assert [e][1..] == [];
  }

  /** When the first `dc:identifier` has a non-blank text, that text is also
      the head of the identifier list. */
  lemma {:induction false} FirstIdentifierHeadsList(els: seq<Element>)
    ensures FirstText(els, "identifier") != ""
      ==> Identifiers(els) != [] && Identifiers(els)[0] == FirstText(els, "identifier")
  {
    if |els| > 0 && !IsDc(els[0], "identifier") {
      FirstIdentifierHeadsList(els[1..]);
    }
  }

  /** One entry of the `extra` table: a key and its values in insertion
      order. */
  datatype Field = Field(key: string, values: seq<string>)

  /** The keys of the table, in insertion order. */
  function Keys(extra: seq<Field>): (r: seq<string>)
    ensures |r| == |extra|
    ensures forall k :: 0 <= k < |r| ==> r[k] == extra[k].key
  {
    seq(|extra|, k requires 0 <= k < |extra| => extra[k].key)
  }

  /** No key occurs twice, as in a dict. */
  predicate UniqueKeys(extra: seq<Field>) {
    forall i, j :: 0 <= i < j < |extra| ==> extra[i].key != extra[j].key
  }

  /** `extra.get(key, [])` */
  function Lookup(extra: seq<Field>, key: string): (r: seq<string>)
    ensures (forall k :: 0 <= k < |extra| ==> extra[k].key != key) ==> r == []
  {
    if |extra| == 0 then []
    else if extra[0].key == key then extra[0].values
    else Lookup(extra[1..], key)
  }

  /** `extra.setdefault(key, []).append(value)` */
  function Append(extra: seq<Field>, key: string, value: string): (r: seq<Field>)
    ensures |r| == |extra| || |r| == |extra| + 1
  {
    if |extra| == 0 then [Field(key, [value])]
    else if extra[0].key == key then
      [Field(key, extra[0].values + [value])] + extra[1..]
    else
      [extra[0]] + Append(extra[1..], key, value)
  }

  /** Every key holds at least one value: a key enters the table only
      together with its first value. */
  predicate NoEmptyField(extra: seq<Field>) {
    forall k :: 0 <= k < |extra| ==> extra[k].values != []
  }

  /** Appending keeps every key's list non-empty. */
  lemma {:induction false} AppendKeepsFilled(extra: seq<Field>, key: string, value: string)
    requires NoEmptyField(extra)
    ensures NoEmptyField(Append(extra, key, value))
  {
    if |extra| > 0 && extra[0].key != key {
      AppendKeepsFilled(extra[1..], key, value);
      var r := Append(extra, key, value);
      forall k | 0 <= k < |r|
        ensures r[k].values != []
      {
        if k > 0 {
          assert r[k] == Append(extra[1..], key, value)[k - 1];
        }
      }
    }
  }

  /** Appending files the value at the end of its key's list and leaves
      every other key's list alone. */
  lemma {:induction false} AppendLookup(extra: seq<Field>, key: string, value: string, other: string)
    ensures Lookup(Append(extra, key, value), key) == Lookup(extra, key) + [value]
    ensures other != key ==> Lookup(Append(extra, key, value), other) == Lookup(extra, other)
  {
    if |extra| > 0 && extra[0].key != key {
      AppendLookup(extra[1..], key, value, other);
      assert Append(extra, key, value)[1..] == Append(extra[1..], key, value);
    }
  }

  /** The keys of a table with a field in front. */
  lemma KeysCons(f: Field, rest: seq<Field>)
    ensures Keys([f] + rest) == [f.key] + Keys(rest)
  {
    assert forall k :: 0 < k < |rest| + 1 ==> ([f] + rest)[k] == rest[k - 1];
  }

  /** A new key goes last; an existing key keeps its place. */
  lemma {:induction false} AppendKeys(extra: seq<Field>, key: string, value: string)
    ensures Keys(Append(extra, key, value)) == if key in Keys(extra) then Keys(extra) else Keys(extra) + [key]
  {
    if |extra| == 0 {
      assert Keys(Append(extra, key, value)) == [key];
    } else {
      var head := extra[0];
      var tail := extra[1..];
      assert extra == [head] + tail;
      KeysCons(head, tail);
      if head.key == key {
        KeysCons(Field(key, head.values + [value]), tail);
        assert key == Keys(extra)[0];
      } else {
        AppendKeys(tail, key, value);
        KeysCons(head, Append(tail, key, value));
        assert key in Keys(extra) <==> key in Keys(tail);
        if key !in Keys(tail) {
          assert [head.key] + (Keys(tail) + [key]) == ([head.key] + Keys(tail)) + [key];
        }
      }
    }
  }

  /** Appending never duplicates a key. */
  lemma AppendKeepsUnique(extra: seq<Field>, key: string, value: string)
    ensures UniqueKeys(extra) ==> UniqueKeys(Append(extra, key, value))
  {
    if UniqueKeys(extra) {
      var r := Append(extra, key, value);
      AppendKeys(extra, key, value);
      assert forall k :: 0 <= k < |r| ==> r[k].key == Keys(r)[k];
    }
  }

  /** One `extra.setdefault(key, []).append(value)` a loop performs. */
  datatype Filing = Filing(key: string, value: string)

  /** `setdefault(...).append(...)` for each filing in turn. */
  function FileAll(extra: seq<Field>, filings: seq<Filing>): seq<Field>
    decreases |filings|
  {
    if |filings| == 0 then extra
    else FileAll(Append(extra, filings[0].key, filings[0].value), filings[1..])
  }

  /** Filing keeps every key's list non-empty. */
  lemma {:induction false} FileAllKeepsFilled(extra: seq<Field>, filings: seq<Filing>)
    requires NoEmptyField(extra)
    ensures NoEmptyField(FileAll(extra, filings))
    decreases |filings|
  {
    if |filings| > 0 {
      AppendKeepsFilled(extra, filings[0].key, filings[0].value);
      FileAllKeepsFilled(Append(extra, filings[0].key, filings[0].value), filings[1..]);
    }
  }

  /** The values filed under `key`, in order. */
  function ValuesFor(filings: seq<Filing>, key: string): seq<string> {
    if |filings| == 0 then []
    else (if filings[0].key == key then [filings[0].value] else []) + ValuesFor(filings[1..], key)
  }

  /** After filing, each key holds what it held before followed by the
      values filed under it, in filing order. */
  lemma {:induction false} FileAllContents(extra: seq<Field>, filings: seq<Filing>, key: string)
    ensures Lookup(FileAll(extra, filings), key) == Lookup(extra, key) + ValuesFor(filings, key)
    decreases |filings|
  {
    if |filings| == 0 {
      assert Lookup(extra, key) + [] == Lookup(extra, key);
    } else {
      var f := filings[0];
      var next := Append(extra, f.key, f.value);
      var later := ValuesFor(filings[1..], key);
      var before := Lookup(extra, key);
      AppendLookup(extra, f.key, f.value, key);
      FileAllContents(next, filings[1..], key);
      if f.key == key {
        assert ValuesFor(filings, key) == [f.value] + later;
        assert (before + [f.value]) + later == before + ([f.value] + later);
      } else {
        assert ValuesFor(filings, key) == [] + later;
        assert [] + later == later;
      }
    }
  }

  /** Filing never duplicates a key. */
  lemma {:induction false} FileAllUnique(extra: seq<Field>, filings: seq<Filing>)
    ensures UniqueKeys(extra) ==> UniqueKeys(FileAll(extra, filings))
    decreases |filings|
  {
    if |filings| > 0 {
      AppendKeepsUnique(extra, filings[0].key, filings[0].value);
      FileAllUnique(Append(extra, filings[0].key, filings[0].value), filings[1..]);
    }
  }

  /** The key of a `meta` element: `name`, else `property`, else the tag,
      stripped. */
  function MetaKey(e: Element): (r: string)
    ensures Trimmed(r)
  {
    var name := Attr(e, "name");
    var property := Attr(e, "property");
    Trim(if name != "" then name else if property != "" then property else Tag(e))
  }

  /** The value of a `meta` element: `content` when non-empty, else the
      text, stripped. A blank but non-empty `content` wins over the text. */
  function MetaValue(e: Element): (r: string)
    ensures Trimmed(r)
  {
    var content := Attr(e, "content");
    Trim(if content != "" then content else match e.text case None => "" case Some(t) => t)
  }

  /** The first loop, over `{*}meta` elements: a blank value is skipped,
      any other is filed under the element's key. */
  function MetaFilings(els: seq<Element>): (r: seq<Filing>)
    ensures |r| <= |els|
    ensures forall k :: 0 <= k < |r| ==> r[k].value != "" && Trimmed(r[k].value)
  {
    if |els| == 0 then []
    else
      var e := els[0];
      (if IsMeta(e) && MetaValue(e) != "" then [Filing(MetaKey(e), MetaValue(e))] else [])
        + MetaFilings(els[1..])
  }

  /** A `content` attribute of only whitespace wins over the element's text
      and then strips to nothing, so the element files no value. */
  lemma BlankContentFilesNothing(e: Element)
    requires Attr(e, "content") != "" && Trim(Attr(e, "content")) == ""
    ensures MetaFilings([e]) == []
  {
    assert MetaValue(e) == "";
    assert [e][1..] == [];
  }

  /** The `dc:subject` texts, stripped, blank ones dropped, in document
      order. */
  function Subjects(els: seq<Element>): (r: seq<string>)
    ensures |r| <= |els|
    ensures forall k :: 0 <= k < |r| ==> r[k] != "" && Trimmed(r[k])
  {
    if |els| == 0 then []
    else (if IsDc(els[0], "subject") && TextOf(els[0]) != "" then [TextOf(els[0])] else []) + Subjects(els[1..])
  }

  /** Each text filed under `"subject"`. */
  function AsSubjects(texts: seq<string>): (r: seq<Filing>)
    ensures |r| == |texts|
    ensures forall k :: 0 <= k < |r| ==> r[k] == Filing("subject", texts[k])
  {
    if |texts| == 0 then [] else [Filing("subject", texts[0])] + AsSubjects(texts[1..])
  }

  /** The second loop, over `dc:subject` elements: a blank text is
      skipped, any other is filed under `"subject"`. */
  function SubjectFilings(els: seq<Element>): (r: seq<Filing>)
    ensures |r| <= |els|
    ensures forall k :: 0 <= k < |r| ==> r[k].key == "subject" && r[k].value != "" && Trimmed(r[k].value)
  {
    AsSubjects(Subjects(els))
  }

  /** Filing texts as subjects puts them under `"subject"` and nothing
      under any other key. */
  lemma {:induction false} SubjectValues(texts: seq<string>, key: string)
    ensures ValuesFor(AsSubjects(texts), key) == if key == "subject" then texts else []
  {
    if |texts| > 0 {
      SubjectValues(texts[1..], key);
      if key == "subject" {
        assert texts == [texts[0]] + texts[1..];
      }
    }
  }

  /** Every value in the `extra` table is stripped and non-blank. */
  lemma {:induction false} ExtraValuesClean(els: seq<Element>)
    ensures forall f :: f in MetaFilings(els) ==> f.value != "" && Trimmed(f.value) && Trimmed(f.key)
    ensures forall x :: x in Subjects(els) ==> x != "" && Trimmed(x)
  {
    MetaFilingsClean(els);
    SubjectsClean(els);
  }

  lemma {:induction false} MetaFilingsClean(els: seq<Element>)
    ensures forall f :: f in MetaFilings(els) ==> f.value != "" && Trimmed(f.value) && Trimmed(f.key)
  {
    if |els| > 0 {
      MetaFilingsClean(els[1..]);
      var e := els[0];
      var head := if IsMeta(e) && MetaValue(e) != "" then [Filing(MetaKey(e), MetaValue(e))] else [];
      assert MetaFilings(els) == head + MetaFilings(els[1..]);
    }
  }

  lemma {:induction false} SubjectsClean(els: seq<Element>)
    ensures forall x :: x in Subjects(els) ==> x != "" && Trimmed(x)
  {
    if |els| > 0 {
      SubjectsClean(els[1..]);
      var e := els[0];
      var head := if IsDc(e, "subject") && TextOf(e) != "" then [TextOf(e)] else [];
      assert Subjects(els) == head + Subjects(els[1..]);
    }
  }

  /** The `extra` table of a parsed document: both loops from an empty
      table. */
  function Extra(els: seq<Element>): (r: seq<Field>)
    ensures UniqueKeys(r)
    ensures NoEmptyField(r)
  {
    var metas := FileAll([], MetaFilings(els));
    FileAllUnique([], MetaFilings(els));
    FileAllUnique(metas, SubjectFilings(els));
    FileAllKeepsFilled([], MetaFilings(els));
    FileAllKeepsFilled(metas, SubjectFilings(els));
    FileAll(metas, SubjectFilings(els))
  }

  /** `EpubMetadata`. */
  datatype Metadata = Metadata(
    title: string, creator: string, publisher: string, language: string,
    identifier: string, description: string,
    identifiers: seq<string>, extra: seq<Field>)

  /** The metadata of a book whose package document cannot be found, read
      or parsed. */
  const Empty: Metadata := Metadata("", "", "", "", "", "", [], [])

  /** The metadata of a parsed package document; `None` when parsing
      failed. */
  function FromDocument(parsed: Option<seq<Element>>): (r: Metadata)
    ensures UniqueKeys(r.extra)
    ensures r.identifier != "" <==> r.identifiers != []
    ensures r.identifiers != [] ==> r.identifier == r.identifiers[0]
    ensures parsed.None? ==> r == Empty
    ensures parsed.Some? ==> r.extra == Extra(parsed.value)
  {
    match parsed
    case None => Empty
    case Some(els) =>
      var ids := Identifiers(els);
      var first := FirstText(els, "identifier");
      FirstIdentifierHeadsList(els);
      Metadata(
        FirstText(els, "title"), FirstText(els, "creator"), FirstText(els, "publisher"),
        FirstText(els, "language"),
        if first == "" && ids != [] then ids[0] else first,
        FirstText(els, "description"),
        ids, Extra(els))
  }

  /** What the `extra` table holds under each key: the `meta` values filed
      under it, then, for `"subject"`, the subjects. */
  lemma ExtraContents(els: seq<Element>, key: string)
    ensures Lookup(Extra(els), key)
      == ValuesFor(MetaFilings(els), key) + (if key == "subject" then Subjects(els) else [])
  {
    var metas := FileAll([], MetaFilings(els));
    var fromMetas := ValuesFor(MetaFilings(els), key);
    FileAllContents([], MetaFilings(els), key);
    assert Lookup([], key) + fromMetas == fromMetas;
    FileAllContents(metas, SubjectFilings(els), key);
    SubjectValues(Subjects(els), key);
  }

  /** The entry name ends in `.opf`, case-insensitively. */
  predicate IsPackageName(name: string) {
    EndsWith(Lower(name), ".opf")
  }

  /** The entry at `k` is the first package document of the archive. */
  ghost predicate FirstPackageAt(entries: seq<Entry>, k: int) {
    0 <= k < |entries| && IsPackageName(entries[k].name)
    && forall j :: 0 <= j < k ==> !IsPackageName(entries[j].name)
  }

  /** The archive's first entry named `*.opf`. */
  function FindPackage(entries: seq<Entry>): (r: Option<Entry>)
    ensures r.Some? ==> exists k :: FirstPackageAt(entries, k) && entries[k] == r.value
    ensures r.None? <==> forall k :: 0 <= k < |entries| ==> !IsPackageName(entries[k].name)
  {
    if |entries| == 0 then None
    else if IsPackageName(entries[0].name) then
      assert FirstPackageAt(entries, 0);
      Some(entries[0])
    else
      var r := FindPackage(entries[1..]);
      assert forall k :: 0 < k < |entries| ==> entries[k] == entries[1..][k - 1];
      assert forall k :: FirstPackageAt(entries[1..], k) ==> FirstPackageAt(entries, k + 1);
      r
  }

  /** `extract_metadata_from_epub`: no archive, no package document or an
      unreadable one give the empty metadata; otherwise the package
      document is parsed with `parse`. */
  function MetadataOf(archive: Option<seq<Entry>>, parse: string -> Option<seq<Element>>): (r: Metadata)
    ensures archive.None? ==> r == Empty
    ensures archive.Some? && FindPackage(archive.value).None? ==> r == Empty
    ensures archive.Some? && FindPackage(archive.value).Some? && FindPackage(archive.value).value.content.None?
      ==> r == Empty
    ensures archive.Some? && FindPackage(archive.value).Some? && FindPackage(archive.value).value.content.Some?
      ==> r == FromDocument(parse(FindPackage(archive.value).value.content.value))
  {
    match archive
    case None => Empty
    case Some(entries) =>
      match FindPackage(entries)
      case None => Empty
      case Some(package) =>
        match package.content
        case None => Empty
        case Some(raw) => FromDocument(parse(raw))
  }
}
