# usp-cs-courses catalog scraper, modelled in Dafny

The scraper reads the University of São Paulo course-catalog index page for
the computer-science course. It visits every discipline's detail page and
writes one configuration entry per discipline code: `name`, `url`, `deps`,
`bibliography`, `description` and `program`. A second program turns that
configuration into asset definitions. Each discipline name is made a valid
asset name, and each prerequisite code is resolved to the name of the asset
it points at.

This project models the pure logic of both programs and proves properties of it.

- `wrappers.dfy` (`Wrappers`): `Option`, `Result`, and `MapResults`. `MapResults` models a Python loop that stops at the first exception.
- `seqs.dfy` (`Seqs`): small facts about concatenating and slicing sequences, shared by the string and document proofs.
- `pystr.dfy` (`PyStr`): Python string behaviour the code relies on.
  - `str.isspace`, `strip`, `startswith`, `join`.
  - Slicing with negative or out-of-range bounds.
- `document.dfy` (`Document`): a parsed page as a flat sequence of tags in document (pre-order) order.
  - Each tag has a name, a class set, attributes, bs4's optional `.string`, and the text fragments `get_text` joins.
  - `find`, `find_next`, `find_previous` and `find_all` become index searches. Their contracts say exactly which index they return: the first match, the first match after `i`, the last match before `i`, and all matches in order.
  - `get_text(strip=True, separator=…)`.
- `extraction.dfy` (`Extraction`): `DisciplineMetadataConfig.get_content`, `_get_discipline_name`, and the three fixed label/tag rules.
- `catalog.dfy` (`Catalog`): the configuration dict (entries plus key insertion order) and the two passes of `main`.
  - The node pass builds one record per discipline link.
  - The edge pass appends each prerequisite annotation's code to the `deps` of the nearest preceding link.
  - `Build` runs both passes.
- `assets.dfy` (`Assets`): `_make_dagster_name`, the dependency-name lambda, and the set of dependency names of an asset.

Failures are explicit `Result` values. In Python they are exceptions: a
`KeyError`, or an `AttributeError`/`TypeError` raised on a `None` search
result or a missing `.string`. The model checks them in the order Python
evaluates the statements.

Details of the code's behaviour that the model follows:
- A label matches on the tag's own `.string`, stripped, and not on its whole text. A tag whose `.string` is absent or empty never matches.
- The name marker is tested with `startswith` on the unstripped `.string`.
- A discipline name is whatever text the `span` holds; an empty name is stored as it is.
- An annotation whose owner code is not a key raises `KeyError`. After a successful node pass this cannot happen (`Catalog.OwnersAreKeys`).
- A prerequisite code is appended whether or not it is a key.
- A label that is present with a blank following tag gives `""`. A missing label is an error.

## Model

| member | source | states |
|---|---|---|
| `Document.Find` | generate_assets_config/main.py:47-49 | returns the first tag satisfying the predicate, and nothing exactly when no tag satisfies it |
| `Document.FindNext` | generate_assets_config/main.py:51 | returns the first matching tag strictly after the given tag, and nothing exactly when none follows |
| `Document.FindPrevious` | generate_assets_config/main.py:128 | returns the nearest matching tag strictly before the given tag, and nothing exactly when none precedes it |
| `Document.FindAll` | generate_assets_config/main.py:96 | returns every matching tag once, in strictly increasing document order, and no other |
| `Document.GetText` | generate_assets_config/main.py:51-53 | `get_text(strip=True, separator=sep)` never starts or ends with whitespace, and is empty exactly when every fragment is blank |
| `Document.GetTextIsStrippedJoin` | generate_assets_config/main.py:51-53 | for any separator, the text is the stripped fragments with blank ones dropped and exactly one separator between consecutive kept ones, as defined independently by `StrippedJoin` |
| `Document.Cleaned` | generate_assets_config/main.py:51-53 | what `strip=True` keeps: every kept piece is non-empty with no whitespace at its ends, and nothing is kept exactly when every fragment is blank |
| `Document.CleanedAppend` | generate_assets_config/main.py:51-53 | the kept pieces of two runs of fragments are the kept pieces of the first followed by those of the second |
| `Document.CleanedSingle` | generate_assets_config/main.py:51-53 | one fragment contributes its stripped text when that is non-empty and nothing otherwise |
| `PyStr.Join` | generate_assets_config/main.py:51-53 | `sep.join(parts)` is empty for no parts, starts with the first part and ends with the last |
| `PyStr.JoinPart` | generate_assets_config/main.py:51-53 | each part appears unchanged at its offset, the total length of the parts and separators before it |
| `PyStr.JoinSeparator` | generate_assets_config/main.py:51-53 | exactly one separator stands between each part and the next |
| `PyStr.JoinLength` | generate_assets_config/main.py:51-53 | nothing follows the last part: the length is the parts plus one separator between each pair |
| `Document.GetTextNoSeparator` | generate_assets_config/main.py:77 | with the empty separator the text is the concatenation of the stripped fragments |
| `PyStr.Strip` | generate_assets_config/main.py:48 | the result is the infix of the input left after removing whitespace at both ends; it has no whitespace at either end and is empty exactly when the input is all whitespace |
| `PyStr.StripIdempotent` | generate_assets_config/main.py:130 | stripping a stripped string changes nothing |
| `PyStr.SliceTo` | usp_cs_courses/assets.py:27 | `s[:k]` is a prefix of `s` of length min(k, len) for k >= 0 and max(0, len + k) for k < 0 |
| `PyStr.SliceFrom` | generate_assets_config/main.py:101 | `s[k:]` is a suffix of `s`; for k < 0 its length is min(-k, len) |
| `Extraction.GetContent` | generate_assets_config/main.py:38-53 | binds to the first tag, of any name, whose non-empty own string strips to the label word; the result is the newline-joined text of the first later tag of the given type, and of the given class when the filter is non-empty; it fails with a label error exactly when no label exists, with a target error exactly when nothing qualifies after the label, and never yields text with whitespace at its ends |
| `Extraction.DisciplineName` | generate_assets_config/main.py:65-77 | binds to the first `b` tag whose non-empty, unstripped own string starts with "Disciplina"; returns the separator-free text of the next `span`; fails exactly when either tag is missing |
| `Catalog.CodeOf` | generate_assets_config/main.py:101 | a discipline code is the last min(7, len) characters of the link's string |
| `Catalog.DepCodeOf` | generate_assets_config/main.py:130 | a prerequisite code is the first min(7, len) characters of the stripped annotation string |
| `Catalog.ResolveDiscipline` | generate_assets_config/main.py:106-119 | the record holds the name and the bibliography ("Bibliografia"/`pre`), description ("Objetivos"/`i`) and program ("Programa"/`i`) contents, the URL and empty `deps`; otherwise it fails with the error of the first of name, bibliography, description, program (in that order) that cannot be located, naming that field |
| `Catalog.ResolveLink` | generate_assets_config/main.py:99-121 | a link without `href` fails first, then one without a string, then an unfetchable URL, then a detail page whose record cannot be built (with that page's error); it succeeds exactly when the link has `href` and a string, the URL is fetched and the record can be built; on success the URL is base URL followed by `href` and the code is the link string's tail |
| `Wrappers.MapResults` | generate_assets_config/main.py:99-121 | the loop succeeds exactly when every iteration does, giving one value per element in order; otherwise it fails with the error of the first failing element |
| `Catalog.Upsert` | generate_assets_config/main.py:110-121 | a new key is appended to the key order; an existing key keeps its position and takes the new record |
| `Catalog.FromEntries` | generate_assets_config/main.py:110-121 | the dict the loop of updates builds is well formed: keys are distinct and the key order lists exactly the keys (its contents are stated by `FromEntriesOrder` and `FromEntriesLastWins`) |
| `Catalog.FromEntriesOrder` | generate_assets_config/main.py:110-121 | after the loop the keys are exactly the stored codes, in order of first appearance |
| `Catalog.FromEntriesLastWins` | generate_assets_config/main.py:110-121 | a repeated code holds the record of its last occurrence |
| `Catalog.NodePass` | generate_assets_config/main.py:96-121 | fails with the first failing link's error; on success every link has a string, the keys are the link codes in order of first appearance, every `deps` is empty, and the last link with a code provides that code's record |
| `Catalog.Links` | generate_assets_config/main.py:96 | `find_all("a", class_="link_gray")`: every discipline link of the page, and only those, each once, in strictly increasing document order |
| `Catalog.Annotations` | generate_assets_config/main.py:126 | `find_all("span", class_="txt_arial_8pt_red")`: every prerequisite annotation, in strictly increasing document order, and only those |
| `Catalog.EdgeOf` | generate_assets_config/main.py:127-131 | the owner is the code of the nearest preceding link and the prerequisite the head of the annotation's stripped string; it fails when there is no preceding link, then when the link or the annotation has no string, then when the owner is not a key; the prerequisite is never checked against the keys |
| `Catalog.AnnotationEdges` | generate_assets_config/main.py:126-130 | one edge per annotation, in document order, each owned by an existing key, or the first annotation's failure |
| `Catalog.AppendDep` | generate_assets_config/main.py:131 | the owner's `deps` gains the prerequisite at its end; its other fields, every other record, the keys and their order are unchanged |
| `Catalog.ApplyEdges` | generate_assets_config/main.py:131 | keys, key order and every field but `deps` are unchanged; each `deps` grows by exactly the prerequisites of the edges it owns, in edge order |
| `Catalog.EdgePass` | generate_assets_config/main.py:126-131 | succeeds exactly when every annotation yields an edge; the result keeps keys, order and non-`deps` fields and extends each `deps` by its own annotations' codes in document order |
| `Catalog.DepsFor` | generate_assets_config/main.py:131 | a code is among the prerequisites the edges give a key exactly when some edge owned by that key carries it |
| `Catalog.Build` | generate_assets_config/main.py:92-131 | an unfetchable index page fails; otherwise the run fails with the node pass's error, or else with the edge pass's, and succeeds exactly when both passes do; a result has a valid key order listing exactly the link codes in order of first appearance, keeps every field but `deps` of the node pass's records, and gives each key as `deps` exactly the prerequisites of the annotations the edge pass attributes to it, in document order |
| `Catalog.LinkCodesAreKeys` | generate_assets_config/main.py:96-121 | after a successful node pass every link of the page has a string and its code is a key |
| `Catalog.OwnersAreKeys` | generate_assets_config/main.py:96-131 | after a successful node pass the edge pass can only fail for an annotation with no preceding link or no string; an unknown owner cannot occur |
| `Catalog.OneCodePerAnnotation` | generate_assets_config/main.py:126-131 | after both passes the `deps` lists hold, in all, exactly as many codes as there are annotations |
| `Assets.Sanitize` | usp_cs_courses/assets.py:29 | length is kept; each character in the class stays, each other becomes `_`; every output character is in the class |
| `Assets.NameClassMembers` | usp_cs_courses/assets.py:29 | the class as written is ASCII letters, digits, `_`, `.`, `-` plus `[`, `\`, `]`, `^` and the backquote |
| `Assets.SanitizeFixesClass` | usp_cs_courses/assets.py:29 | text already inside the class passes through unchanged |
| `Assets.SanitizeIdempotent` | usp_cs_courses/assets.py:29 | replacing twice equals replacing once |
| `Assets.Truncate` | usp_cs_courses/assets.py:26-27 | a name longer than the bound is cut to its first `max_length` characters; a name that fits is untouched |
| `Assets.MakeDagsterName` | usp_cs_courses/assets.py:19-29 | every character of the result is in the class, whatever the transliteration does |
| `Assets.NameLength` | usp_cs_courses/assets.py:26-29 | for ASCII input the result is exactly as long as the stripped, truncated name, hence at most `max_length` |
| `Assets.MakeDagsterNameIdempotent` | usp_cs_courses/assets.py:19-29 | for ASCII input and a non-negative bound, making a name of a made name changes nothing |
| `Assets.AssetName` | usp_cs_courses/assets.py:35 | an asset's key uses only characters of the class |
| `Assets.DepName` | usp_cs_courses/assets.py:38-40 | a resolved dependency name uses only characters of the class |
| `Assets.DepNameIsAssetName` | usp_cs_courses/assets.py:35-40 | a code that is a key with a non-empty name resolves to exactly the asset key of that discipline |
| `Assets.DepNameFallback` | usp_cs_courses/assets.py:39 | a code that is not a key, or whose record has an empty name, is itself made a name, under the same bound |
| `Assets.UnresolvedCodeKept` | usp_cs_courses/assets.py:39 | a code that is not a key, or whose name is empty, and that is already a valid name of at most 63 characters resolves to itself |
| `Assets.DepNames` | usp_cs_courses/assets.py:36-42 | a name is in an asset's deps exactly when some dependency code resolves to it |
| `Assets.DepNamesOnlyElements` | usp_cs_courses/assets.py:36-42 | deps lists with the same codes give the same set: duplicates collapse and order is irrelevant |

## Left out

- HTTP fetching and charset detection (`_get_soup`, generate_assets_config/main.py:56-62): network I/O. A fetch is a lookup in a map from URL to parsed page. A missing URL is a fetch failure.
- HTML parsing: BeautifulSoup is a foreign library. A page is given already flattened into tags, each with its `.string` and its text fragments. A class filter matches by membership in the tag's class set. bs4 also matches the whole class attribute string, which none of the calls here rely on.
- Logging setup and progress messages (generate_assets_config/main.py:14-26, 94-124): side effects only.
- JSON serialisation to disk (generate_assets_config/main.py:132-134): I/O. The model keeps the dict's entries and its key insertion order, which is the order `json.dump` writes.
- Error attribution: Python raises a bare exception. The model's errors carry the link index, the discipline code or the field so that one can tell them apart.
- Configuration read at module load and the dagster calls (`external_assets_from_specs`, `AssetSpec`, `MetadataValue`, usp_cs_courses/assets.py:13-16, 32-54): file I/O and a third-party framework. Only the asset key and the dependency-name set are modelled.
- `unidecode_expect_ascii`: a foreign, table-driven transliteration. It is the parameter `translit`. Properties that need it to be the identity on ASCII text say so.
- `usp_cs_courses/settings.py`: constants only. The base URL and the course path are parameters of `Catalog.Build`.
- Assets.NameLength: stated for ASCII input only, because the length of a transliteration of other text depends on the foreign table.
- Assets.MakeDagsterNameIdempotent: stated for ASCII input and a non-negative bound only. For other input it depends on the transliteration. A negative bound cuts characters again on every application.
