# EPUB content extraction and ISBN detection, modelled in Dafny

This project models the pure core of an EPUB processing tool: the part that
turns an archive into text and metadata, finds ISBNs in them, and reconciles
the replies of an external identification service. The tool is written in
Python (`src/epub_metadata.py` and the ISBN survey script `src/isbn_scan.py`).
The model covers:

- choosing which archive entries are read for text, and in what order;
- stripping markup from an entry;
- assembling the bounded and the unbounded book text;
- post-processing the parsed package document (OPF) into the metadata record;
- the ISBN-10 / ISBN-13 check-digit rules of ISO 2108, candidate
  normalisation, and the candidate pattern's `findall` written out as an
  explicit left-to-right scanner;
- the first-ISBN and all-ISBNs searches over a list of strings;
- normalising a webhook reply and reading it into a result with defaults;
- the survey of one book (metadata first, text only when the metadata has no
  ISBN) and the meta / text / none tally over many books.

Everything is a pure function over immutable data:

- An archive is `Option<seq<Entry>>`. `None` stands for a missing or corrupt
  file. An entry's content is `None` when reading or decoding it fails.
- The parsed package document is the root's descendant elements in document
  order.
- XML parsing itself is a function parameter.
- A JSON reply is a closed `Json` datatype.
- A Python dict is a Dafny `map`, except the `extra` table. Its insertion
  order is visible to the ISBN survey, so it is an association list with
  unique keys.

Modules, one per file: `Wrappers`, `Text`, `Seqs`, `Entries`, `Markup`,
`Extraction`, `Isbn`, `Candidates`, `Detection`, `Manifest`, `Reply`, `Scan`.

The model follows the code in these details:

- A `<meta>` value is its `content` attribute when that is non-empty, not
  merely when it is present. A whitespace-only `content` therefore hides the
  element's text, and the element is skipped.
- A list reply whose first element is truthy but not a dict gives `{}`.
- An `X` is accepted in an ISBN-10 only in the last position.
- The bounded text mode accepts a cap of 0.

## Model

| member | source | states |
|---|---|---|
| Entries.TextEntries | src/epub_metadata.py:161-177 | exactly the document entries (`.xhtml`/`.html`/`.htm`, any case), each as often as in the archive; every keyword entry before every other; each bucket in archive order |
| Entries.GroupsMembers | src/epub_metadata.py:164-175 | an entry is returned iff it is in the archive and its lower-cased name ends in a document extension |
| Entries.GroupsOrder | src/epub_metadata.py:172-177 | every entry whose name holds a front-matter keyword precedes every entry whose name does not |
| Seqs.TwoGroupsCount | src/epub_metadata.py:164-177 | two disjoint buckets, concatenated, hold each selected element as often as the input, and nothing else |
| Seqs.TwoGroupsOrder | src/epub_metadata.py:177 | in `prioritized + fallback` no prioritized element follows a fallback one |
| Seqs.TwoGroupsRefilter | src/epub_metadata.py:172-175 | selecting either bucket again from the result gives that bucket: appends keep archive order |
| Seqs.FilterConcat | src/isbn_scan.py:92 | keeping the non-empty strings of a concatenation keeps them part by part |
| Seqs.FilterCount | src/isbn_scan.py:92 | a filter keeps every element that passes, as often as it occurs, and nothing else |
| Markup.RemoveTags | src/epub_metadata.py:182 | replacing each `<[^>]+>` by a space leaves no tag; a `>` in the output was in the input; a text without `<` comes out unchanged |
| Markup.RemoveTagsTag | src/epub_metadata.py:182 | a tag `<x>` (non-empty `x` without `>`) becomes exactly one space and the text after it is processed on its own |
| Markup.RemoveTagsChar | src/epub_metadata.py:182 | a character that opens no tag (anything but `<`, or a `<` not followed by a non-empty run closed by `>`) is kept in place and the text after it is processed on its own |
| Markup.UnclosedAngleKept | src/epub_metadata.py:182 | a `<` that no later `>` closes is kept as text |
| Markup.Collapse | src/epub_metadata.py:183 | the whitespace pass never lengthens the text and empties only the empty text |
| Markup.CollapseRun | src/epub_metadata.py:183 | a whitespace run followed by a visible character or the end becomes exactly one space |
| Markup.CollapseChar | src/epub_metadata.py:183 | a non-whitespace character is kept and the text after it is processed on its own |
| Markup.CollapseKeepsVisible | src/epub_metadata.py:183 | the whitespace pass keeps every non-whitespace character, in order |
| Markup.CollapseShape | src/epub_metadata.py:183 | after `\s+` → `" "` every whitespace character is a lone plain space; the first character is whitespace iff the input's was |
| Markup.CollapseNoTags | src/epub_metadata.py:183 | collapsing whitespace creates no `>` and no new tag |
| Markup.StripHtml | src/epub_metadata.py:180-183 | the output has no leading or trailing whitespace, no two whitespace characters in a row, only plain spaces, and no tag |
| Markup.StripHtmlKeepsVisible | src/epub_metadata.py:180-183 | every non-whitespace character outside the tags survives stripping, in order |
| Markup.StripHtmlIdempotent | src/epub_metadata.py:180-183 | stripping a stripped text changes nothing |
| Markup.RemoveTagsKeepsClean | src/epub_metadata.py:182 | a text with no tag is left as it is by the tag pass |
| Markup.CollapseKeepsClean | src/epub_metadata.py:183 | a text with only single plain spaces is left as it is by the whitespace pass |
| Text.Trim | src/epub_metadata.py:183 | `strip()` returns a piece of the input with only whitespace before and after it and none at its own ends; it is empty iff the input is all whitespace |
| Text.TrimKeepsVisible | src/epub_metadata.py:183 | `strip()` keeps every non-whitespace character, in order |
| Text.TrimKeepsSpacing | src/epub_metadata.py:183 | `strip()` keeps "no double whitespace" and "only plain spaces" |
| Text.JoinClean | src/epub_metadata.py:296-297 | `" ".join` of non-empty stripped parts is already stripped |
| Isbn.IsValidIsbn10 | src/epub_metadata.py:203-213 | ten characters, nine digits then a digit or `X`, whose weighted sum Σ(10−i)·dᵢ is a multiple of 11; read as a check character by `Isbn10CheckCharacter` |
| Isbn.IsValidIsbn13 | src/epub_metadata.py:216-226 | thirteen digits whose last equals (10 − Σ₁₂ mod 10) mod 10 with weights 1,3,1,…; read as a whole-sum rule by `Isbn13WeightedSum` |
| Isbn.Clean | src/epub_metadata.py:193 | drops every character outside `[0-9Xx]` and upper-cases `x`; its output is characterised by `CleanOutput` and `CleanConcat` |
| Isbn.NormalizeCandidate | src/epub_metadata.py:186-200 | the result is `""` or the cleaned candidate (only `[0-9X]`, `x` upper-cased); it is non-empty iff the cleaned text is a valid ISBN-10 or ISBN-13, and then it is valid |
| Isbn.Isbn10CheckCharacter | src/epub_metadata.py:203-213 | a 9-digits-then-digit-or-`X` string passes iff its last value is the one that brings Σ(10−i)·dᵢ to a multiple of 11 (`X` = 10) |
| Isbn.Isbn10XOnlyLast | src/epub_metadata.py:204 | an `X` anywhere but the last position is rejected |
| Isbn.Isbn10DetectsSingleChange | src/epub_metadata.py:203-213 | changing any one character of a valid ISBN-10 makes it invalid |
| Isbn.Isbn10SumUpdate | src/epub_metadata.py:207-211 | changing the character at `i` moves the weighted sum by (10−i) times the change in value |
| Isbn.NoMultipleOf11 | src/epub_metadata.py:213 | a weight 1..10 times a non-zero change of at most 10 is never a multiple of 11 |
| Isbn.Isbn13WeightedSum | src/epub_metadata.py:216-226 | with 13 digits, the check-digit rule holds iff the sum of all 13 weighted digits (weights 1,3,1,…) is a multiple of 10 |
| Isbn.Isbn13DetectsSingleChange | src/epub_metadata.py:216-226 | changing any one digit of a valid ISBN-13 makes it invalid |
| Isbn.Isbn13SumUpdate | src/epub_metadata.py:220-222 | changing the digit at `i` moves the weighted sum by its weight times the change |
| Isbn.ValidIsbnIsNormal | src/epub_metadata.py:186-200 | a valid ISBN normalises to itself |
| Isbn.NormalizeIdempotent | src/epub_metadata.py:186-200 | normalising a non-empty normal form changes nothing |
| Isbn.CleanOutput | src/epub_metadata.py:193 | cleaning keeps only `[0-9X]` and leaves a text of those unchanged |
| Isbn.CleanConcat | src/epub_metadata.py:193 | cleaning a concatenation cleans the parts |
| Isbn.NormalizeExample10 | src/epub_metadata.py:186-200 | `"0-306-40615-2"` normalises to `"0306406152"` |
| Isbn.NormalizeExample13 | src/epub_metadata.py:186-200 | `"978-0-306-40615-7"` normalises to `"9780306406157"` |
| Isbn.CleanHyphenated4 | src/epub_metadata.py:193 | digit groups joined by hyphens clean to their concatenation |
| Candidates.InnerRun | src/isbn_scan.py:31 | the greedy `[0-9Xx\- ]{…}` run: all inner characters, stopped by the cap, the end of text, or a non-inner character |
| Candidates.MatchAtIsLongest | src/isbn_scan.py:31 | the engine's attempt at a position finds the longest match starting there, and nothing iff no match starts there |
| Candidates.BacktrackFinds | src/epub_metadata.py:38 | giving back middle characters stops at the longest length whose last character is `[0-9Xx]` |
| Candidates.NothingBeyondRun | src/epub_metadata.py:38 | no match is longer than the greedy run plus its two end characters |
| Candidates.SpansAreLongestMatches | src/isbn_scan.py:31 | every span `findall` reports is the longest match at its start |
| Candidates.SpansOrdered | src/isbn_scan.py:31 | spans lie inside the text, left to right, never overlapping |
| Candidates.SpansMissNothing | src/isbn_scan.py:31 | every position no span covers starts no match |
| Candidates.FindAll | src/isbn_scan.py:65 | the text of each span of the scanner, in order; those spans are the leftmost-longest matches (`SpansAreLongestMatches`, `SpansOrdered`, `SpansMissNothing`) |
| Candidates.FindAllMatches | src/isbn_scan.py:31 | every returned string is 10–18 characters, `[0-9Xx]` at both ends and `[0-9Xx -]` inside |
| Candidates.ShortTextNoMatch | src/epub_metadata.py:38 | a text shorter than 10 characters has no match |
| Detection.IsbnsIn | src/isbn_scan.py:65-68 | every ISBN found in one string is valid |
| Detection.FindIsbnsInStrings | src/isbn_scan.py:57-70 | every member of the result is a valid ISBN |
| Detection.FindIsbnsExactly | src/isbn_scan.py:57-70 | `x` is in the set iff some match of some non-empty input string normalises to `x` |
| Detection.FindIsbnsConcat | src/isbn_scan.py:57-70 | the set for a concatenated list is the union of the sets for the parts |
| Detection.EmptyStringYieldsNothing | src/isbn_scan.py:61-62 | the empty string yields no ISBN, so skipping it changes nothing |
| Detection.FirstValid | src/epub_metadata.py:235-238 | `None` iff every match normalises to `""`; otherwise the normal form of the first match that normalises to something |
| Detection.FindFirstIsbn | src/epub_metadata.py:229-240 | a returned value is a valid ISBN |
| Detection.FindFirstIsbnIsFirst | src/epub_metadata.py:229-240 | the result is `Some(x)` iff `x` is the first accepted match of the first non-empty string that has one, and `None` iff every string misses |
| Detection.FirstIsbnInSet | src/epub_metadata.py:229-240 | on the same list the first ISBN is `None` iff the set of all ISBNs is empty, and otherwise one of its members |
| Detection.FirstValidInSet | src/epub_metadata.py:233-238 | for one string, the first accepted match is one of the string's ISBNs, and there is none iff it has none |
| Extraction.Piece | src/epub_metadata.py:288-294 | an entry contributes at most one piece: its stripped text when readable and non-blank, and that piece exactly when the entry is readable and strips to something |
| Extraction.FullText | src/isbn_scan.py:34-54 | the full text has no surrounding whitespace and no two whitespace characters in a row |
| Extraction.FullTextIsJoin | src/epub_metadata.py:278-297 | the full text is the single-space join of the non-empty stripped entries in reading order |
| Extraction.NoDocumentsNoText | src/epub_metadata.py:278-297 | an archive with no document entry has no text |
| Extraction.PiecesSingle | src/epub_metadata.py:284-294 | a single entry contributes exactly its own piece |
| Extraction.PiecesAtMostOneEach | src/epub_metadata.py:284-294 | the loop appends at most one text per entry |
| Extraction.PiecesConcat | src/epub_metadata.py:284-294 | the pieces of concatenated entry lists are the concatenated pieces |
| Extraction.PiecesJoinTrimmed | src/epub_metadata.py:297 | the final `.strip()` of the join changes nothing |
| Extraction.EarlyStopAgrees | src/epub_metadata.py:270-275 | once the join of the first pieces reaches the cap, the cut text no longer depends on the rest |
| Extraction.ReadUntil | src/epub_metadata.py:258-275 | the early-stopping read loop returns the first `max_chars` characters of the join of all pieces |
| Extraction.ExtractText | src/epub_metadata.py:243-275 | the bounded text is the first `max_chars` characters of the unbounded text, so at most `max_chars` long |
| Manifest.TextOf | src/epub_metadata.py:329 | an element's text, stripped: empty exactly when there is no text or it is all whitespace, and its non-whitespace characters kept in order |
| Manifest.FirstText | src/epub_metadata.py:327-336 | a scalar is the stripped text of the first matching Dublin Core element and never of a later one; `""` when none exists |
| Manifest.Identifiers | src/epub_metadata.py:338-343 | every collected identifier is non-empty and stripped |
| Manifest.IdentifiersSingle | src/epub_metadata.py:338-343 | one element adds its stripped text exactly when it is a `dc:identifier` with non-blank text, and nothing otherwise |
| Manifest.IdentifiersConcat | src/epub_metadata.py:338-343 | identifiers are collected in document order |
| Manifest.FirstIdentifierHeadsList | src/epub_metadata.py:332-346 | a non-blank first `dc:identifier` is also the head of the identifier list |
| Manifest.FromDocument | src/epub_metadata.py:325-362 | `identifier` is non-empty iff `identifiers` is, and then is its first element; `extra` has no duplicate key; a parse failure gives the empty record |
| Manifest.MetaKey | src/epub_metadata.py:350 | the key is the stripped `name`, else `property`, else the tag; it is always stripped |
| Manifest.MetaValue | src/epub_metadata.py:351 | the value is `content` when that is non-empty, else the element's text, then stripped; it is always stripped |
| Manifest.Append | src/epub_metadata.py:354 | `setdefault(key, []).append(value)` adds at most one field; `AppendLookup` and `AppendKeys` give its contents |
| Manifest.AppendLookup | src/epub_metadata.py:354 | `setdefault(key, []).append(v)` puts `v` at the end of `key`'s list and leaves other keys alone |
| Manifest.AppendKeys | src/epub_metadata.py:354 | a new key goes last, an existing key keeps its place |
| Manifest.AppendKeepsUnique | src/epub_metadata.py:354 | appending never duplicates a key |
| Manifest.FileAllContents | src/epub_metadata.py:349-360 | after the loops each key holds its old values followed by the values filed under it, in order |
| Manifest.FileAllUnique | src/epub_metadata.py:349-360 | the loops never duplicate a key |
| Manifest.MetaFilings | src/epub_metadata.py:349-355 | the meta loop files at most one value per element, and every filed value is stripped and non-empty |
| Manifest.Subjects | src/epub_metadata.py:356-360 | the subject loop keeps at most one text per element, each stripped and non-empty |
| Manifest.SubjectFilings | src/epub_metadata.py:356-360 | every subject filing goes under `"subject"` with a stripped, non-empty value |
| Manifest.AppendKeepsFilled | src/epub_metadata.py:354 | `setdefault(...).append(...)` never leaves a key with an empty list |
| Manifest.FileAllKeepsFilled | src/epub_metadata.py:349-360 | a run of filings never leaves a key with an empty list |
| Manifest.SubjectValues | src/epub_metadata.py:357-360 | the subject loop files its texts under `"subject"` and nothing under any other key |
| Manifest.ExtraValuesClean | src/epub_metadata.py:349-360 | every filed key and value is stripped and every value non-empty |
| Manifest.BlankContentFilesNothing | src/epub_metadata.py:351-353 | a whitespace-only `content` wins over the text and the element is skipped |
| Manifest.Extra | src/epub_metadata.py:349-360 | the `extra` table has no duplicate key and every key holds at least one value, so (with ExtraContents) its keys are exactly the filed keys |
| Manifest.ExtraContents | src/epub_metadata.py:349-360 | under each key: the `meta` values filed under it in document order, then for `"subject"` the subject texts |
| Manifest.FindPackage | src/epub_metadata.py:305-308 | the first entry whose lower-cased name ends in `.opf`; `None` iff there is none |
| Manifest.MetadataOf | src/epub_metadata.py:300-323 | no archive, no package entry or an unreadable one give the empty record; otherwise the parsed package document is processed |
| Reply.NormalizeSingle | src/epub_metadata.py:365-382 | no `title`/`author` key remains; every other key is kept with its value, except that a non-null `title` fills a missing or blank-text `titre` (and `author`/`auteur` alike); `titre` is present exactly when it was already present or `title` was copied, and `auteur` alike |
| Reply.KeepsFilledFields | src/epub_metadata.py:378-381 | a `titre` or `auteur` with non-blank text is never overwritten |
| Reply.NullBlocksCopy | src/epub_metadata.py:378 | a `null` `titre` reads `"None"`, so it blocks the copy |
| Reply.NormalizeSingleIdempotent | src/epub_metadata.py:365-382 | normalising twice is normalising once |
| Reply.Unwrap | src/epub_metadata.py:387-388 | when `output` holds a dict that dict is used; otherwise the reply itself |
| Reply.NormalizeResponse | src/epub_metadata.py:385-399 | the result never holds `title` or `author`; anything but a dict or a list gives `{}`, and so does an empty list or one whose first element is falsy |
| Reply.ListLikeFirst | src/epub_metadata.py:391-397 | a list whose first element is a dict answers like that element on its own |
| Reply.ListOfOtherIsEmpty | src/epub_metadata.py:391-399 | a list whose first element is truthy but not a dict gives `{}` |
| Reply.WrappedEnglishExample | src/epub_metadata.py:385-389 | `{"output": {"title": "Dune", "author": "Herbert"}}` becomes `{"titre": "Dune", "auteur": "Herbert"}` |
| Reply.FrenchPassesThrough | src/epub_metadata.py:365-389 | an unwrapped object already keyed in French passes through unchanged |
| Reply.FrenchListExample | src/epub_metadata.py:391-397 | `[{"titre": "Foo", "confiance": "0.95"}]` passes through unchanged |
| Reply.TextOrUnknown | src/epub_metadata.py:116-117 | the stripped text of a truthy value, or `"inconnu"` when that is empty |
| Reply.Confidence | src/epub_metadata.py:118 | the stripped, lower-cased text, or `"inconnu"`; never upper-case, never empty |
| Reply.FromDict | src/epub_metadata.py:113-120 | `titre`/`auteur`/`confiance` non-empty (default `"inconnu"`), all four fields stripped, `confiance` lower-case, `explication` the stripped text |
| Reply.NormalReadsBack | src/epub_metadata.py:113-120 | a result already in this normal form reads back from its own dict as itself |
| Reply.FromDictRoundTrip | src/epub_metadata.py:113-120 | reading back a result read from any dict changes nothing |
| Scan.ExtraStrings | src/isbn_scan.py:88-90 | every key of the `extra` table appears among the flattened strings |
| Scan.ExtraStringsMembers | src/isbn_scan.py:88-90 | a string is among the flattened strings exactly when it is some field's key or one of its values |
| Scan.ExtraStringsSingle | src/isbn_scan.py:88-90 | one field flattens to its key followed by its values, in order |
| Scan.MetadataStrings | src/isbn_scan.py:73-92 | no collected metadata string is empty |
| Scan.MetadataStringsMembers | src/isbn_scan.py:73-92 | a string is collected iff it is a non-empty metadata string, and as often as it occurs there |
| Scan.DroppingEmptiesKeepsIsbns | src/isbn_scan.py:92 | dropping empty strings does not change the ISBNs found |
| Scan.Decide | src/isbn_scan.py:95-110 | never both flags; the metadata flag iff the metadata strings hold an ISBN; the text flag iff they do not and the text does |
| Scan.TextIgnoredAfterMetaHit | src/isbn_scan.py:103-104 | once the metadata holds an ISBN the text plays no part |
| Scan.ScanBook | src/isbn_scan.py:95-110 | a book never counts as both; its metadata flag is set iff its metadata strings hold an ISBN, and its text flag iff the metadata holds none and the full text holds one |
| Scan.MissingBookFindsNothing | src/isbn_scan.py:95-110 | a book that cannot be opened counts as "none" |
| Scan.Count | src/isbn_scan.py:212-219 | each finished scan adds one to `processed`, and a scan that is not both hits moves exactly one of meta / text / none; no counter decreases |
| Scan.Fold | src/isbn_scan.py:209-219 | after a run `processed` grew by the number of outcomes and no counter went down |
| Scan.FoldCounts | src/isbn_scan.py:209-219 | the counters after any sequence of outcomes are fixed by how many outcomes of each kind arrived |
| Scan.OrderDoesNotMatter | src/isbn_scan.py:209 | the arrival order of the outcomes does not change the counters |
| Scan.CountersAddUp | src/isbn_scan.py:209-219 | for outcomes of single scans, meta + text + none = processed |

## Left out

- Reading the zip container and UTF-8 decoding are library calls. An archive is a list of named entries with optional decoded contents.
- Which exceptions are swallowed is modelled only as `None` results. `FileNotFoundError` and `BadZipFile` give `None` for the archive, and `KeyError` on the package read gives an unreadable entry.
- Manifest.MetadataOf: every unreadable package entry gives the empty record. The source swallows only `BadZipFile`, `FileNotFoundError` and `KeyError` around the read (src/epub_metadata.py:314-318). Other read errors propagate: `RuntimeError` for an encrypted entry, `NotImplementedError` for an unsupported compression method, `zlib.error`. In the survey these end the whole run at `future.result()` (src/isbn_scan.py:210). Exceptions are not modelled.
- XML parsing and ElementTree's path lookups are not modelled. `parse` is a parameter returning the root's descendants in document order, or `None` on a parse error. `find` is the first match in that order.
- Case folding is ASCII-only (`Text.Lower`). Python's `lower()` also folds non-ASCII letters. This affects entry names with non-ASCII letters and the confidence value (next lines).
- Reply.Confidence: lower-cases ASCII letters only. Python turns `"ÉLEVÉE"` into `"élevée"`; the model gives `"ÉlevÉe"`. Unicode case mapping is not modelled.
- Reply.FromDict: `confiance` is folded for ASCII only, as in `Reply.Confidence`. A list or dict value becomes a fixed placeholder, not Python's `str()` rendering: `{"titre": ["Dune"]}` gives `"['Dune']"` in Python and `"[...]"` here.
- `\d`, `isdigit()` and `int()` also accept non-ASCII digits. They are modelled on ASCII digits only. Candidates reach the validators after every character outside `[0-9Xx]` has been removed, so the difference cannot show through `_normalize_isbn_candidate`.
- Reply.PyStr: `str()` of a list or dict is a fixed non-blank placeholder instead of Python's rendering. That is exact for the reply normalisation, which asks only whether the text is blank. It is not exact for `from_dict`, where the rendering becomes the field value (previous line).
- A JSON number carries its Python `str()` rendering and a zero flag as given data. Float formatting is not modelled.
- Extraction.ExtractText: `max_chars` is a `nat`. A negative cap would select with Python's negative slicing and is not modelled.
- Reading `DEFAULT_MAX_TEXT_CHARS` and the other settings from the environment is not modelled, nor is `Config.load`.
- The HTTP call to the webhook is not modelled, and neither are its error type or the network smoke scripts.
- Logging, console output and progress/ETA arithmetic are not modelled.
- Folder traversal, argument parsing, `process_epub` and `process_folder` are not modelled.
- The worker pool is not modelled. Only the counter update it feeds is modelled, as a fold over outcomes in arrival order, with the order shown not to matter.
- Renaming, slug derivation and confidence thresholds do not exist in this code, which renames nothing. They are not modelled.
