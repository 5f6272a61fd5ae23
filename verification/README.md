# Seoul OpenStreetMap clean-up: a Dafny model of `p3.py`

`p3.py` loads an OpenStreetMap export of Seoul into a document store and
corrects the English names of hospitals. This project models the logic of
that script and proves properties of the model. There are three parts.

- **Record extraction** (`get_data`, `strip_postalcode`, `problemchars`),
  in `extract.dfy`. Every `node` or `way` element becomes one record. The
  record holds the element's attributes and a `tags` map. Tags are collected
  in document order. Collection stops for good at the first key that holds
  a problem character (`= + / & < > ; ' " ? % # $ @ , .`, space, tab, CR or
  LF), and the record is emitted anyway. `addr:postcode` values lose every
  `-`. A later tag with the same key overwrites an earlier one.
- **Name normalisation** (`mapping`, `update_name`, `update_clinic`), in
  `normalize.dfy`, with case-insensitive matching in `text.dfy`. Each rule
  `(pattern, replacement)` is tried in turn. When the pattern occurs in the
  name, ignoring case, every non-overlapping occurrence is replaced by
  `" " + replacement + " "`, scanning left to right. `update_clinic` appends
  `" Clinic"` unless the name already mentions "clinic" or "hospital".
- **Correction selection** (`update_hospital_name`), in `corrections.dfy`.
  It builds a map from document id to new name. An id is added only when
  `update_name` changed the document's name. The suffix rule is applied to
  those names only.

The loops of the source are methods with loop invariants: the extraction
loop with its `break`, the attribute copy, the rule loop and the selection
loop. Each method is proved equal to a specification function. The
properties are proved as lemmas about those functions.

Two behaviours of the code are worth stating plainly:

- The suffix rule runs only when `update_name` changed the name
  (p3.py:45-46). So a name that no rule touches is never selected, even when
  it lacks "Clinic" and "Hospital" (`Corrections.UntouchedNotSelected`).
- Tag collection breaks at the first key that holds a problem character
  (p3.py:81-82). Every later tag is dropped too, including well-formed ones
  (`Extract.CleanTagsIgnoresRest`).

Python 2 iterates the `mapping` dict in an unspecified order. So the rule
table is an explicit ordered `seq<Rule>` parameter. `Normalize.Mapping`
lists the rules in the order the source writes them. The order matters:
`Normalize.RuleOrderMatters` shows that "yeoseongbyeongwon" normalises
differently depending on whether the long or the short rule runs first.

## Model

| member | source | states |
|---|---|---|
| `Extract.StripPostalcode` | p3.py:129-130 | the result contains no `-` and is no longer than the input |
| `Extract.StripPostalcodeAppend` | p3.py:129-130 | stripping distributes over concatenation, so it works character by character and keeps order |
| `Extract.StripPostalcodeCounts` | p3.py:129-130 | exactly the hyphens are removed: every other character keeps its number of occurrences |
| `Extract.StripPostalcodeKeeps` | p3.py:129-130 | a value without hyphens is returned unchanged |
| `Extract.StripPostalcodeIdempotent` | p3.py:129-130 | stripping twice equals stripping once |
| `Extract.FirstProblem` | p3.py:77-82 | the index where tag collection stops: no key before it holds a problem character, and the key at it does (or the list ends there) |
| `Extract.TagDictKeys` | p3.py:87 | storing tags one by one puts a key in the dict exactly when some tag carries it |
| `Extract.TagDictLast` | p3.py:87 | a stored key holds the cleaned value of the last tag with that key |
| `Extract.TagDictValues` | p3.py:84-87 | every stored value is the cleaned value of some tag with that key |
| `Extract.CleanTagsKeys` | p3.py:77-87 | a key is in the record's tags iff a tag before the first problem key carries it; no stored key holds a problem character |
| `Extract.CleanTagsValue` | p3.py:77-87 | a key's stored value is its last value before the first problem key: hyphen-stripped for `addr:postcode`, verbatim otherwise |
| `Extract.CleanTagsStored` | p3.py:84-87 | a stored postal code holds no `-`; any other stored value is exactly a collected tag's value |
| `Extract.FirstProblemAppend` | p3.py:81-82 | the first problem key stays the first when more tags follow |
| `Extract.CleanTagsIgnoresRest` | p3.py:81-82 | after a problem key, whatever tags follow have no effect (break, not skip) |
| `Extract.RecordOf` | p3.py:72-76 | a record's fields are the element's attributes plus `tags`; each attribute other than `tags` is copied verbatim; `tags` is always the cleaned tag map |
| `Extract.BuildRecord` | p3.py:72-88 | the attribute-copy loop and the tag loop with its early break build exactly `RecordOf(e)` |
| `Extract.ExtractAppend` | p3.py:70-88 | extraction goes element by element: the records of a concatenation are the concatenation of the records |
| `Extract.ExtractOne` | p3.py:71-88 | a node or a way yields exactly one record, any other element none |
| `Extract.ExtractClean` | p3.py:76-87 | every extracted record has a tags map whose keys hold no problem character and whose postal code holds no `-` |
| `Extract.GetData` | p3.py:69-90 | the extraction loop returns exactly `Extract(elems)`: one record per node or way, in order |
| `Normalize.InsertEverywhere` | p3.py:63 | substituting an empty pattern into an `n`-character name yields `n` characters plus `n + 1` copies of the replacement |
| `Normalize.InsertEverywhereOne` | p3.py:63 | for a one-character name, the replacement goes before the character and after it |
| `Normalize.InsertEverywhereAppend` | p3.py:63 | empty-pattern substitution works character by character: the result for `a + b` is that of `a` followed by that of `b` minus its leading replacement |
| `Normalize.ReplaceFromNoMatch` | p3.py:63 | with no occurrence left, the substitution scan copies the rest of the text unchanged |
| `Normalize.ReplaceFromLeftmost` | p3.py:63 | the scan keeps the text before the leftmost occurrence, replaces that occurrence and resumes right after it (non-overlapping, left to right) |
| `Normalize.ReplaceAllNoOccurrence` | p3.py:62-63 | substitution of an absent non-empty pattern leaves the name unchanged |
| `Normalize.PaddedJoinClear` | p3.py:63 | the padding spaces keep a space-free pattern from straddling a replacement |
| `Normalize.ReplaceFromClears` | p3.py:63 | for a space-free pattern absent from its replacement, no occurrence is left in what the scan produces |
| `Normalize.ReplaceAllClears` | p3.py:63 | for a space-free pattern absent from its replacement, no occurrence remains after substitution |
| `Normalize.StepClears` | p3.py:61-63 | one rule step with such a pattern leaves no occurrence of it |
| `Normalize.ApplyRulesNoMatch` | p3.py:60-64 | a name in which no rule's pattern occurs is returned unchanged |
| `Normalize.ApplyRulesAppend` | p3.py:60-64 | running the rules in two batches equals running them all in order |
| `Normalize.UpdateName` | p3.py:59-64 | the rule loop returns exactly `ApplyRules(name, rules)` |
| `Normalize.UpdateClinic` | p3.py:53-57 | the name is kept iff it mentions "clinic" or "hospital" in any case; otherwise the result is the name followed by " Clinic" |
| `Normalize.UpdateClinicMarks` | p3.py:53-57 | the result always mentions "clinic" or "hospital" |
| `Normalize.UpdateClinicIdempotent` | p3.py:53-57 | applying the suffix rule twice equals applying it once |
| `Normalize.TableRulesClear` | p3.py:22-37 | every rule of the table has a non-empty, space-free pattern that does not occur in its replacement |
| `Normalize.TableStepClears` | p3.py:60-63 | at its turn, each table rule removes every occurrence of its pattern from the name |
| `Normalize.RuleOrderLongFirst` | p3.py:60-63 | with "yeoseongbyeongwon" tried before "yeoseong", the whole word becomes " Obstetrics & Gynecology " |
| `Normalize.RuleOrderShortFirst` | p3.py:60-63 | with "yeoseong" tried first, the result is " Obstetrics & Gynecology byeongwon" |
| `Normalize.RuleOrderMatters` | p3.py:60 | the two orders of these prefix-sharing rules give different names |
| `Corrections.SelectionKeys` | p3.py:42-47 | an id is selected iff some document with that id has its name changed by `update_name` |
| `Corrections.SelectionValue` | p3.py:42-47 | the selected name is `update_clinic(update_name(old))` of the last changed document with that id |
| `Corrections.SelectionUnique` | p3.py:42-47 | with unique ids: a document is selected iff `update_name` changes its name, and then with `update_clinic(update_name(old))` |
| `Corrections.UntouchedNotSelected` | p3.py:44-47 | a name in which no rule's pattern occurs is never selected, whether or not it mentions a clinic or a hospital |
| `Corrections.UpdateHospitalName` | p3.py:39-51 | the selection loop returns exactly `Selection(hs, rules)` |

## Left out

- XML parsing and file opening (`open`, `ET.iterparse`, p3.py:68-70) are not modelled. An element arrives as its kind, its attribute map and its `(k, v)` tag list in document order. With "start" events, a parser may report an element before its children are read. That is a parser concern and is outside the model. So are missing `k`/`v` attributes on a tag.
- The UTF-8 `encode` and `format` calls (p3.py:78-79) are treated as the identity. Every problem character is ASCII, and no byte of a multi-byte UTF-8 sequence is.
- Nothing that talks to MongoDB is modelled: `MongoClient`, `delete_many`, `insert_data`, `update_db`, `find`, `aggregate` and the `test` driver (p3.py:92-109, 132-160). The store is a foreign library, and its grouping and sorting run inside the store.
- `make_pipeline_postcode`, `make_pipeline_city` and `make_query` (p3.py:111-127) are not modelled. They only return constant query literals.
- The `print` statements and `hospitals.count()` are not modelled. They only log.
- A hospital document is reduced to its `id` and `tags["name:en"]` (`Corrections.Hospital`). The store query supplies these fields. The `KeyError` raised by a document missing either field is not modelled.
- Rule patterns are matched as literal strings, not as regular expressions. Every key in the table is plain lowercase letters, so the two agree. Backslash escapes in replacement strings are not processed either; no replacement in the table contains one.
- Case folding is ASCII only. This is what the regular-expression engine does under IGNORECASE without its UNICODE flag. Unicode case folding is not modelled.
- `Normalize.Mapping` fixes one order of the rule table, the order the source writes it. The order Python 2 actually uses to iterate that dict is not modelled; every operation takes the rule order as a parameter.
- `Corrections.UntouchedNotSelected` and `Corrections.SelectionUnique` assume that every hospital document has its own `id`. Nothing in `p3.py` ensures this: no unique index is created, the input file may hold several documents, and OpenStreetMap numbers nodes and ways separately, so a node and a way can share an `id`. When ids repeat, `Corrections.SelectionKeys` and `Corrections.SelectionValue` give the behaviour: the id is selected iff some document with it is changed, and the last changed document with that id decides the new name.
