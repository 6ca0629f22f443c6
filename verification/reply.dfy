/** The webhook reply: a decoded JSON value, unwrapped and re-keyed
    (`_normalize_n8n_response`, `_normalize_single_n8n_object`), then read
    into a result with defaults (`EpubResult.from_dict`). Python
    truthiness and `str()` are modelled on the JSON values. */
module Reply {
  import opened Wrappers
  import opened Text

  /** A decoded JSON value. A number carries its Python `str()` rendering
      and whether it is zero. */
  datatype Json =
    | JNull
    | JBool(b: bool)
    | JNum(text: string, zero: bool)
    | JStr(s: string)
    | JArr(items: seq<Json>)
    | JObj(fields: map<string, Json>)

  /** Python truthiness. */
  predicate Truthy(v: Json) {
    match v
    case JNull => false
    case JBool(b) => b
    case JNum(_, zero) => !zero
    case JStr(s) => s != ""
    case JArr(items) => |items| > 0
    case JObj(fields) => |fields| > 0
  }

  /** Python `str()`; containers get a fixed non-blank rendering. */
  function PyStr(v: Json): string {
    match v
    case JNull => "None"
    case JBool(b) => if b then "True" else "False"
    case JNum(text, _) => text
    case JStr(s) => s
    case JArr(_) => "[...]"
    case JObj(_) => "{...}"
  }

  /** `not str(x).strip()` */
  predicate Blank(s: string) {
    Trim(s) == ""
  }

  /** `str(data.get(key, "")).strip()` is empty: the key is missing or holds
      something whose text is blank. A `null` is not blank: it reads
      "None". */
  predicate BlankAt(data: map<string, Json>, key: string) {
    key !in data || Blank(PyStr(data[key]))
  }

  /** `data.pop(key, None) is not None`: present and not `null`. */
  predicate Given(data: map<string, Json>, key: string) {
    key in data && data[key] != JNull
  }

  /** The English key `from` is copied to the French key `to`. */
  predicate Copies(obj: map<string, Json>, from: string, to: string) {
    Given(obj, from) && BlankAt(obj, to)
  }

  /** `_normalize_single_n8n_object`: drop `title` and `author`; a given
      `title` fills a blank or missing `titre`, and likewise `author` and
      `auteur`. */
  function NormalizeSingle(obj: map<string, Json>): (r: map<string, Json>)
    ensures "title" !in r && "author" !in r
    ensures forall k :: k in obj && k != "title" && k != "author" ==> k in r
    ensures forall k :: k in r ==>
      (k in obj || (k == "titre" && Copies(obj, "title", "titre")) || (k == "auteur" && Copies(obj, "author", "auteur")))
    ensures forall k :: k in r && k != "titre" && k != "auteur" ==> r[k] == obj[k]
    ensures "titre" in r ==> r["titre"] == if Copies(obj, "title", "titre") then obj["title"] else obj["titre"]
    ensures "auteur" in r ==> r["auteur"] == if Copies(obj, "author", "auteur") then obj["author"] else obj["auteur"]
    ensures "titre" in r <==> "titre" in obj || Copies(obj, "title", "titre")
    ensures "auteur" in r <==> "auteur" in obj || Copies(obj, "author", "auteur")
  {
    var data := obj - {"title", "author"};
    var withTitle := if Copies(obj, "title", "titre") then data["titre" := obj["title"]] else data;
    if Copies(obj, "author", "auteur") then withTitle["auteur" := obj["author"]] else withTitle
  }

  /** A non-blank `titre` or `auteur` is never overwritten. */
  lemma KeepsFilledFields(obj: map<string, Json>)
    ensures "titre" in obj && !Blank(PyStr(obj["titre"])) ==> NormalizeSingle(obj)["titre"] == obj["titre"]
    ensures "auteur" in obj && !Blank(PyStr(obj["auteur"])) ==> NormalizeSingle(obj)["auteur"] == obj["auteur"]
  {
  }

  /** An explicit `null` under `titre` blocks the copy: it reads "None". */
  lemma NullBlocksCopy(obj: map<string, Json>)
    requires "titre" in obj && obj["titre"] == JNull
    ensures NormalizeSingle(obj)["titre"] == JNull
  {
    assert !IsSpace("None"[0]) && !IsSpace("None"[3]);
  }

  /** Normalising twice is normalising once. */
  lemma NormalizeSingleIdempotent(obj: map<string, Json>)
    ensures NormalizeSingle(NormalizeSingle(obj)) == NormalizeSingle(obj)
  {
    var r := NormalizeSingle(obj);
    assert !Copies(r, "title", "titre") && !Copies(r, "author", "auteur");
    assert NormalizeSingle(r) == r - {"title", "author"};
    assert r - {"title", "author"} == r;
  }

  /** The object a reply holds: a dict-valued `output` member, else the
      dict itself. */
  function Unwrap(fields: map<string, Json>): (r: map<string, Json>)
    ensures "output" in fields && fields["output"].JObj? ==> r == fields["output"].fields
    ensures !("output" in fields && fields["output"].JObj?) ==> r == fields
  {
    if "output" in fields && fields["output"].JObj? then fields["output"].fields else fields
  }

  /** `_normalize_n8n_response`: a dict, or the first element of a
      non-empty list (a falsy one counting as `{}`), unwrapped and
      normalised; anything else gives `{}`. */
  function NormalizeResponse(data: Json): (r: map<string, Json>)
    ensures "title" !in r && "author" !in r
    ensures !data.JObj? && !data.JArr? ==> r == map[]
    ensures data.JArr? && (|data.items| == 0 || !Truthy(data.items[0])) ==> r == map[]
  {
    match data
    case JObj(fields) => NormalizeSingle(Unwrap(fields))
    case JArr(items) =>
      if |items| == 0 then map[]
      else
        var first := if Truthy(items[0]) then items[0] else JObj(map[]);
        EmptyStaysEmpty();
        if first.JObj? then NormalizeSingle(Unwrap(first.fields)) else map[]
    case _ => map[]
  }

  /** An empty object normalises to an empty object. */
  lemma EmptyStaysEmpty()
    ensures NormalizeSingle(Unwrap(map[])) == map[]
  {
    var r := NormalizeSingle(map[]);
    assert r.Keys == {};
  }

  /** A list answers like its first element when that is a dict. */
  lemma ListLikeFirst(items: seq<Json>)
    requires |items| > 0 && items[0].JObj?
    ensures NormalizeResponse(JArr(items)) == NormalizeResponse(items[0])
  {
    if !Truthy(items[0]) {
      assert items[0].fields == map[];
    }
  }

  /** A list whose first element is neither a dict nor falsy gives `{}`. */
  lemma ListOfOtherIsEmpty(items: seq<Json>)
    requires |items| > 0 && !items[0].JObj? && Truthy(items[0])
    ensures NormalizeResponse(JArr(items)) == map[]
  {
  }

  /** `{"output": {"title": "Dune", "author": "Herbert"}}` becomes
      `{"titre": "Dune", "auteur": "Herbert"}`. */
  lemma WrappedEnglishExample()
    ensures NormalizeResponse(JObj(map["output" := JObj(map["title" := JStr("Dune"), "author" := JStr("Herbert")])]))
      == map["titre" := JStr("Dune"), "auteur" := JStr("Herbert")]
  {
    var inner := map["title" := JStr("Dune"), "author" := JStr("Herbert")];
    var r := NormalizeSingle(inner);
    assert Copies(inner, "title", "titre") && Copies(inner, "author", "auteur");
    assert r.Keys == {"titre", "auteur"};
  }

  /** An object already keyed in French, with no `output` member, passes
      through unchanged. */
  lemma FrenchPassesThrough(obj: map<string, Json>)
    requires "title" !in obj && "author" !in obj && "output" !in obj
    ensures NormalizeResponse(JObj(obj)) == obj
  {
    assert Unwrap(obj) == obj;
    assert !Copies(obj, "title", "titre") && !Copies(obj, "author", "auteur");
    assert obj - {"title", "author"} == obj;
  }

  /** `[{"titre": "Foo", "confiance": "0.95"}]` passes through unchanged. */
  lemma FrenchListExample()
    ensures NormalizeResponse(JArr([JObj(map["titre" := JStr("Foo"), "confiance" := JStr("0.95")])]))
      == map["titre" := JStr("Foo"), "confiance" := JStr("0.95")]
  {
    var obj := map["titre" := JStr("Foo"), "confiance" := JStr("0.95")];
    assert "titre" in obj;
    ListLikeFirst([JObj(obj)]);
    FrenchPassesThrough(obj);
  }

  /** `EpubResult`. */
  datatype EpubResult = EpubResult(titre: string, auteur: string, confiance: string, explication: string)

  const Unknown: string := "inconnu"

  /** `str(data.get(key) or "")` */
  function FieldText(data: map<string, Json>, key: string): string {
    if key in data && Truthy(data[key]) then PyStr(data[key]) else ""
  }

  /** `str(data.get(key) or "").strip() or "inconnu"` */
  function TextOrUnknown(data: map<string, Json>, key: string): (r: string)
    ensures r != "" && Trimmed(r)
    ensures Trim(FieldText(data, key)) != "" ==> r == Trim(FieldText(data, key))
    ensures Trim(FieldText(data, key)) == "" ==> r == Unknown
  {
    var t := Trim(FieldText(data, key));
    if t == "" then
      UnknownTrimmed();
      Unknown
    else t
  }

  /** `str(data.get("confiance") or "").strip().lower() or "inconnu"` */
  function Confidence(data: map<string, Json>): (r: string)
    ensures r != "" && Trimmed(r)
    ensures forall k :: 0 <= k < |r| ==> !IsUpper(r[k])
    ensures Trim(FieldText(data, "confiance")) != "" ==> r == Lower(Trim(FieldText(data, "confiance")))
    ensures Trim(FieldText(data, "confiance")) == "" ==> r == Unknown
  {
    var u := Trim(FieldText(data, "confiance"));
    var t := Lower(u);
    LowerKeepsTrimmed(u);
    assert t == "" <==> u == "";
    if t == "" then
      UnknownTrimmed();
      Unknown
    else t
  }

  /** `EpubResult.from_dict`. */
  function FromDict(data: map<string, Json>): (r: EpubResult)
    ensures IsNormal(r)
    ensures Trim(FieldText(data, "titre")) != "" ==> r.titre == Trim(FieldText(data, "titre"))
    ensures Trim(FieldText(data, "auteur")) != "" ==> r.auteur == Trim(FieldText(data, "auteur"))
    ensures Trim(FieldText(data, "titre")) == "" ==> r.titre == Unknown
    ensures Trim(FieldText(data, "auteur")) == "" ==> r.auteur == Unknown
    ensures Trim(FieldText(data, "confiance")) == "" ==> r.confiance == Unknown
    ensures Trim(FieldText(data, "confiance")) != "" ==> r.confiance == Lower(Trim(FieldText(data, "confiance")))
    ensures r.explication == Trim(FieldText(data, "explication"))
  {
    EpubResult(
      TextOrUnknown(data, "titre"),
      TextOrUnknown(data, "auteur"),
      Confidence(data),
      Trim(FieldText(data, "explication")))
  }

  lemma UnknownTrimmed()
    ensures Trimmed(Unknown)
  {
    assert !IsSpace(Unknown[0]) && !IsSpace(Unknown[|Unknown| - 1]);
  }

  /** The dict a result reads back from: each field as a JSON string. */
  function AsDict(r: EpubResult): map<string, Json> {
    map["titre" := JStr(r.titre), "auteur" := JStr(r.auteur),
        "confiance" := JStr(r.confiance), "explication" := JStr(r.explication)]
  }

  /** Reading a result back changes nothing: its fields are already
      stripped, lower-cased and defaulted. */
  lemma FromDictRoundTrip(data: map<string, Json>)
    ensures FromDict(AsDict(FromDict(data))) == FromDict(data)
  {
    NormalReadsBack(FromDict(data));
  }

  /** The fields of a result as `from_dict` leaves them: stripped, the
      first three non-empty, the confidence in lower case. */
  predicate IsNormal(r: EpubResult) {
    r.titre != "" && r.auteur != "" && r.confiance != ""
    && Trimmed(r.titre) && Trimmed(r.auteur) && Trimmed(r.confiance) && Trimmed(r.explication)
    && forall k :: 0 <= k < |r.confiance| ==> !IsUpper(r.confiance[k])
  }

  /** A result in normal form reads back as itself. */
  lemma NormalReadsBack(r: EpubResult)
    requires IsNormal(r)
    ensures FromDict(AsDict(r)) == r
  {
    var d := AsDict(r);
    assert d["titre"] == JStr(r.titre) && d["auteur"] == JStr(r.auteur);
    assert d["confiance"] == JStr(r.confiance) && d["explication"] == JStr(r.explication);
    TextReadBack(d, "titre", r.titre);
    TextReadBack(d, "auteur", r.auteur);
    ConfidenceReadBack(d, r.confiance);
    ReadBack(d, "explication", r.explication);
  }

  /** A stripped string stored under `key` reads back as itself. */
  lemma ReadBack(d: map<string, Json>, key: string, v: string)
    requires key in d && d[key] == JStr(v) && Trimmed(v)
    ensures Trim(FieldText(d, key)) == v
  {
    if v == "" {
      assert FieldText(d, key) == "";
    }
  }

  /** A stripped non-empty string reads back as itself. */
  lemma TextReadBack(d: map<string, Json>, key: string, v: string)
    requires key in d && d[key] == JStr(v) && Trimmed(v) && v != ""
    ensures TextOrUnknown(d, key) == v
  {
    ReadBack(d, key, v);
  }

  /** A stripped, lower-case, non-empty confidence reads back as itself. */
  lemma ConfidenceReadBack(d: map<string, Json>, v: string)
    requires "confiance" in d && d["confiance"] == JStr(v) && Trimmed(v) && v != ""
    requires forall k :: 0 <= k < |v| ==> !IsUpper(v[k])
    ensures Confidence(d) == v
  {
    ReadBack(d, "confiance", v);
    LowerIdentity(v);
  }

  /** Case mapping leaves whitespace alone, so it keeps a text stripped. */
  lemma LowerKeepsTrimmed(s: string)
    requires Trimmed(s)
    ensures Trimmed(Lower(s))
  {
  }

  /** A text without upper-case letters is its own lower case. */
  lemma LowerIdentity(s: string)
    requires forall k :: 0 <= k < |s| ==> !IsUpper(s[k])
    ensures Lower(s) == s
  {
  }
}
