# Guttenread lookup core, modelled in Dafny

Guttenread looks book titles up in Project Gutenberg's catalog through the
Gutendex search API. Its one tool, `search_gutenberg`, takes a list of
titles. For each title it runs one search, normalizes every object-shaped
record into a canonical match, and can download an excerpt of the book's
text. It returns `{"results": [...]}`, with one entry per cleaned title, in
input order. A small command-line front end splits a typed line into titles
and prints a summary.

This project models the pure logic of that core:

- `formats.dfy` (`Formats`): `_pick_best_text_format`. It searches five
  preferred MIME types in a fixed order, then falls back to the first
  `text/*` entry. Zip URLs are never chosen.
- `download.dfy` (`Download`): `_download_text` once the HTTP body is known.
  It wraps the error text and cuts the body to `max_chars` characters.
- `normalize.dfy` (`Normalize`): `_normalize_book`. It fills defaults for
  falsy fields, projects the authors, derives the catalog URL, picks the
  text URL and sets the `text`/`text_error` keys. It also renders the
  record as JSON.
- `search.dfy` (`Search`): `search_gutenberg` with the result handling of
  `_search_gutendex`. It cleans and clamps the inputs, slices the raw
  results, skips non-objects, isolates per-title errors and keeps title
  order.
- `cli.dfy` (`Cli`): the splitting done by `prompt_for_titles`, and the
  "Unknown" fallbacks of the summary.
- `json.dfy`, `text.dfy`, `basics.dfy`: decoded JSON values and Python
  truthiness; the Python string operations the core uses (`strip`, `split`,
  `join`, `replace`, `str(int)`, the `.zip` suffix test); `Option` and
  `Outcome`.

JSON objects are association lists, so the insertion order the fallback
relies on is observable. The two network calls are oracle parameters.
`Search.Remote.search` maps a title to what the search request produced:
a transport failure, an undecodable body, or the decoded JSON.
`Search.Remote.fetch` maps a URL to the downloaded text or a failure. The
concurrent `asyncio.gather` fan-out becomes a map over the titles. That is
faithful because `gather` returns results in task order.

A Python exception that escapes `search_gutenberg` is modelled as
`Outcome.Raises`. `Search.Options` holds the tool's other arguments with
the same defaults: three matches per title, no download, and a
20000-character limit.

Decisions on Python semantics:

- `isinstance(True, int)` holds in Python. So a boolean `id` gets a catalog
  URL ending in `True` or `False`, and `Normalize.GutenbergUrl` models this.
- `x or default` replaces every falsy value (`null`, `false`, `0`, `""`,
  `[]`, `{}`) and passes every truthy value through, whatever its type.
- `str.strip()` removes exactly the characters for which `str.isspace()`
  holds.
- `.lower().endswith(".zip")` is decided with ASCII case folding. No other
  character lower-cases to `.`, `z`, `i` or `p`.

## Behaviour worth knowing

- On a failed download the code sets `text` to `null` and also sets
  `text_error` (guttenread_mcp/server.py:173-176). So the `text` key is
  present whenever a download was requested, even when it failed.
- Three inputs make `search_gutenberg` raise an exception that escapes
  from the whole call, not just from one title's entry:
  - a truthy `formats` that is not an object (`formats.get`,
    guttenread_mcp/server.py:54);
  - a truthy `authors` that is a number or boolean (iteration,
    guttenread_mcp/server.py:137);
  - a search body that decodes to something other than an object
    (`data.get`, guttenread_mcp/server.py:91).

  `Normalize.Unnormalizable` and `Search.SearchGutendex` state exactly when
  each of these happens.
## Model

| member | source | states |
|---|---|---|
| Json.Get | guttenread_mcp/server.py:125-135 | `d.get(key)` finds something iff the key is among the object's keys, and what it finds is bound to that key in the object |
| Text.Strip | guttenread_mcp/server.py:237 | `str.strip()`: neither end of the result is whitespace; the result is empty iff the input is all whitespace; it is no longer than the input |
| Text.StripPadding | cli.py:48 | a string is its stripped self between two runs of whitespace, the ones strip removes |
| Text.StripSpacePrefix | cli.py:54 | whitespace put in front of a string does not change its strip |
| Text.StripSpaceSuffix | cli.py:54 | whitespace put after a string does not change its strip |
| Text.StripCount | cli.py:48 | `strip()` never adds an occurrence of any character |
| Text.CleanList | guttenread_mcp/server.py:237 | the clean-up comprehension keeps only non-empty, stripped strings and never lengthens the list |
| Text.CleanPiece | guttenread_mcp/server.py:237 | one piece cleans to nothing iff it is blank, and otherwise to its strip, which is non-empty and stripped |
| Text.CleanListAppend | guttenread_mcp/server.py:237 | cleaning works piece by piece, so it keeps input order: cleaning a concatenation concatenates the cleaned parts |
| Text.CleanListAvoids | cli.py:53-56 | a character no piece contains appears in no cleaned title |
| Text.Split | cli.py:53 | `s.split(sep)` gives one more piece than there are separators, and no piece holds the separator |
| Text.JoinSplit | cli.py:53 | joining the pieces of a split with the separator gives the string back |
| Text.SplitAvoids | cli.py:53 | a character absent from `s` is in no piece of `s.split(sep)` |
| Text.SplitCons | cli.py:53 | a separator in front starts a new empty piece; any other character joins the first piece |
| Text.SplitAppend | cli.py:53 | splitting `a + sep + b` gives the pieces of `a` followed by the pieces of `b` |
| Text.CountReplaced | cli.py:53 | after `replace(";", ",")` no `;` is left, and the commas number the old commas plus the old semicolons |
| Text.ParseIntToString | guttenread_mcp/server.py:151 | `str(n)` of an int reads back as `n` |
| Text.IntToString | guttenread_mcp/server.py:151 | `str(n)` is a canonical numeral: no leading zero except in `0`, and a minus sign exactly for negative `n` |
| Text.CanonicalIntUnique | guttenread_mcp/server.py:151 | every canonical numeral is `str` of the number it reads as, so `str(n)` is the only canonical numeral for `n` |
| Formats.PickBestTextFormat | guttenread_mcp/server.py:31-67 | an empty mapping gives None; any URL returned is a string stored in the mapping under a `text/` key and does not end in `.zip` in any case |
| Formats.PickPreferred | guttenread_mcp/server.py:53-58 | the preferred-key loop finds nothing iff no preferred key holds a non-empty, non-zip string |
| Formats.PickFallback | guttenread_mcp/server.py:60-65 | the fallback finds nothing iff no entry has a `text/` key and a non-zip string value |
| Formats.PreferredPriority | guttenread_mcp/server.py:45-58 | if preferred key k holds a non-empty, non-zip string and no earlier one does, that URL is returned, whatever else the mapping holds |
| Formats.FallbackChoice | guttenread_mcp/server.py:60-65 | if no preferred key qualifies, the first entry in mapping order with a `text/` key and a non-zip string, possibly empty, is returned |
| Formats.NoTextFormat | guttenread_mcp/server.py:60-67 | if neither a preferred key nor any `text/` entry qualifies, the result is None |
| Formats.FallbackAcceptsEmptyString | guttenread_mcp/server.py:55-65 | an empty string under `text/plain` is rejected by the preferred loop but accepted by the fallback |
| Formats.ZipSkippedForHtml | guttenread_mcp/server.py:53-58 | a zipped `text/plain; charset=utf-8` URL is skipped and `text/html` is chosen |
| Formats.SelectTextUrl | guttenread_mcp/server.py:42-54 | a falsy `formats` gives no URL; the call raises iff `formats` is truthy and not an object |
| Download.Truncate | guttenread_mcp/server.py:114-117 | the result is always a prefix of the text; with a positive limit its length is the smaller of the limit and the text length; with no limit or a non-positive one the text is unchanged |
| Download.TruncateCuts | guttenread_mcp/server.py:114-115 | a text longer than a positive limit becomes exactly `text[:max_chars]` |
| Download.TruncateIdempotent | guttenread_mcp/server.py:114-117 | cutting an already cut text changes nothing |
| Download.DownloadText | guttenread_mcp/server.py:98-117 | exactly one of text and error is set; a successful fetch gives the truncated body; a failed one gives a longer error that ends with the failure's description |
| Normalize.ProjectAuthors | guttenread_mcp/server.py:135-146 | never more authors than raw entries, and as many iff every raw entry is an object |
| Normalize.ProjectAuthorsAppend | guttenread_mcp/server.py:137-146 | authors keep their raw order: projecting a concatenation concatenates the projections |
| Normalize.ProjectAuthorsFromObjects | guttenread_mcp/server.py:137-146 | each kept author has exactly the name and years of some object in the raw list |
| Normalize.GutenbergUrl | guttenread_mcp/server.py:148-151 | a URL exists iff the id is an int (booleans included); it starts with the ebooks base; for an int the rest is a canonical numeral that reads back as the id; for a boolean it is `True` or `False` |
| Normalize.GutenbergUrlOfInt | guttenread_mcp/server.py:150-151 | the URL of an integer id is exactly the ebooks base followed by `str(id)` |
| Normalize.GutenbergUrlExample | guttenread_mcp/server.py:148-151 | id 1661 gives `https://www.gutenberg.org/ebooks/1661`; a string id gives none |
| Normalize.NormalizeBook | guttenread_mcp/server.py:120-178 | normalization raises exactly on an uniterable `authors` or a non-object `formats`; the text fields exist iff a download was requested |
| Normalize.RequestText | guttenread_mcp/server.py:155-176 | the text fields exist iff downloads were asked for; no URL or an empty one gives `text: null` without a fetch; a failed fetch gives `text: null` and a non-empty error; a successful one the truncated body and no error |
| Normalize.AssembleBook | guttenread_mcp/server.py:125-171 | falsy list fields become `[]` and truthy ones pass unchanged; `id`, `title`, `download_count`, `copyright` are copied; the catalog URL is the one derived from the copied id |
| Normalize.NormalizeDefaults | guttenread_mcp/server.py:125-135 | missing or falsy `languages`, `subjects`, `bookshelves` and `authors` become empty lists; a falsy `formats` gives no text URL; truthy list fields pass unchanged; `id`, `title`, `download_count`, `copyright` are copied; the catalog URL is the one derived from the id |
| Normalize.NormalizeAuthors | guttenread_mcp/server.py:135-146 | a raw author list becomes its object entries, projected, in order, never longer; a string or object in its place gives no author |
| Normalize.NormalizeTextUrl | guttenread_mcp/server.py:132-153 | the text URL is the format choice over the record's formats object, and None without one |
| Normalize.NormalizeText | guttenread_mcp/server.py:155-158 | there is no download, so `text` is null, when the text URL is None or `""`; a failed download leaves `text` null and sets a non-empty error; a successful one stores the truncated body with no error |
| Normalize.AuthorJsonKeys | guttenread_mcp/server.py:140-146 | each output author has exactly the keys `name`, `birth_year`, `death_year` |
| Normalize.BookJsonKeys | guttenread_mcp/server.py:160-176 | `text` is present iff a download was requested, and `text_error` iff one was requested and an error recorded |
| Normalize.NormalizedKeyPresence | guttenread_mcp/server.py:155-176 | on `_normalize_book`'s output, `text` is present iff `download_text`, and `text_error` only when the download was attempted and failed |
| Search.TakePrefix | guttenread_mcp/server.py:95 | `results[:n]` is a prefix of the results, of length min(n, len) for n ≥ 0 |
| Search.SearchGutendex | guttenread_mcp/server.py:83-95 | a request, decode or shape failure gives no results and an error starting with that failure's own prefix; the error is absent iff `results` is a list; a non-object body raises; a success gives exactly `results[:max_results]` |
| Search.NormalizeOne | guttenread_mcp/server.py:254-257 | one raw result adds at most one match, and raises iff it is an object that normalization rejects |
| Search.NormalizeMatches | guttenread_mcp/server.py:252-257 | the loop raises iff some raw object is rejected by normalization; otherwise it never yields more matches than raw results |
| Search.NormalizeMatchesAppend | guttenread_mcp/server.py:253-257 | matches keep the order of the raw results: normalizing a concatenation concatenates the parts |
| Search.NormalizeMatchesSingle | guttenread_mcp/server.py:254-257 | a non-object result yields no match, and an acceptable object yields exactly its normalized record |
| Search.HandleTitle | guttenread_mcp/server.py:249-266 | an entry carries its query; after a successful search its matches are the normalization of the objects among `results[:limit]`, in order; after a failed one it carries that search's error and no match; it raises iff the body is not an object or normalization rejects one of those first results |
| Search.HandleAll | guttenread_mcp/server.py:268-270 | the gathered list has one entry per title, the i-th being title i's own result; the call raises iff some title's handling raises |
| Search.ClampLimit | guttenread_mcp/server.py:241-242 | a non-positive per-title limit becomes exactly 1, and a positive limit is kept |
| Search.SearchGutenberg | guttenread_mcp/server.py:237-272 | no cleaned title gives `{"results": []}`; otherwise one entry per cleaned title in input order, each query non-empty and stripped, at most max(1, limit) matches, no matches when an error is set |
| Search.NoTitlesNoRemoteCall | guttenread_mcp/server.py:237-239 | for blank titles the result is `{"results": []}` whatever the remote services would answer |
| Search.SearchMatches | guttenread_mcp/server.py:241-257 | a title whose search succeeded gets as matches the normalized objects among its first max(1, `max_results_per_title`) raw results, in server order |
| Search.FailureIsolation | guttenread_mcp/server.py:249-270 | a title's entry is what handling that title alone gives, and depends on no other title's search |
| Search.HandleTitleIsLocal | guttenread_mcp/server.py:249-266 | handling a title reads the search service only for that title |
| Search.RaisesOnlyFromATitle | guttenread_mcp/server.py:268-270 | an exception escapes iff handling some cleaned title raises |
| Search.ClampedLimitGivesOneMatch | guttenread_mcp/server.py:241-257 | with a non-positive limit, a search returning several results, the first an acceptable object, yields exactly one match |
| Search.HandleTitleLimitOne | guttenread_mcp/server.py:249-257 | with limit 1, a title whose first raw result is an acceptable object gets exactly one match |
| Search.QueryResultKeys | guttenread_mcp/server.py:259-264 | a rendered entry has an `error` key iff it carries an error, and an empty `matches` renders as `[]` |
| Search.ErrorKeyOnlyOnSearchFailure | guttenread_mcp/server.py:259-264 | an entry has an `error` key iff its title's search failed, and then its matches are `[]` |
| Cli.SplitTitles | cli.py:47-57 | a blank line gives no titles; every title is non-empty, stripped and free of `,` and `;`; there are at most separators + 1 titles |
| Cli.SplitTitlesIgnoresOuterStrip | cli.py:48-56 | stripping the whole line first changes no title |
| Cli.SemicolonIsComma | cli.py:53 | replacing every `;` with `,` beforehand gives the same titles |
| Cli.SplitTitlesAtSeparator | cli.py:52-57 | titles keep input order: a line cut at `,` or `;` gives the titles before the cut, then the titles after it |
| Cli.SplitTitlesOnePiece | cli.py:53-56 | a line without separators gives its stripped self as the one title, or nothing if it is blank |
| Cli.NameLabels | cli.py:94 | one label per author; a missing or empty name gives "Unknown" in its slot; the labels fail iff some name is a truthy non-string |
| Cli.AuthorNames | cli.py:93-94 | no authors renders as "Unknown"; the text is never empty; otherwise it is the `", "` join of one label per author, each the author's name, or "Unknown" for a missing or empty one; it raises iff some name is a truthy non-string |
| Cli.LanguagesLabel | cli.py:95 | no languages renders as "Unknown"; a list of strings renders as their join, or "Unknown" when that join is empty; a string renders as its characters joined, an object as its keys joined; it raises iff the value is a truthy number or boolean or a list holding a non-string |

## Left out

- HTTP through `requests` (timeouts, `raise_for_status`, JSON decoding, charset choice) in `_search_gutendex` and `_download_text` is external I/O. It is replaced by the oracles `Search.Remote.search` and `Search.Remote.fetch`, and exception texts are opaque strings.
- The asyncio event loop, `run_in_executor` and `gather` are concurrency. The model is a sequential map, which gives the same, order-preserving result.
- The FastMCP server object, the tool decorator and `main` are library wiring.
- `reading_list_app.py` is an OpenAI chat loop. Its only link to the core is calling `search_gutenberg`.
- `cli.py`'s argparse, `input()`, printing and 400-character preview are presentation. Only the line splitting and the "Unknown" fallbacks are modelled.
- The `TypeError` for a non-list `titles`, and `str(t)` on non-string items, cannot happen: the model's titles are typed as a sequence of strings.
- JSON numbers with a fraction are not in `Json.Value`. In the code, `0.0` is falsy and gets the `or []` or `or {}` default. A truthy float `authors` raises `TypeError` at the iteration (guttenread_mcp/server.py:137). A truthy float `formats` raises `AttributeError` at `formats.get` (guttenread_mcp/server.py:54). A float `id` gets no catalog URL. In every other field a float is copied unchanged.
- Each oracle is a function of its argument. A title or text URL that occurs twice therefore gets the same reply both times, while the code sends a separate request each time and may get different replies.
- Which exception escapes is not recorded: `Outcome.Raises` carries no class or message.
- Python strings may hold lone surrogates; Dafny characters cannot.
- A decoded JSON object never repeats a key. On an association list that does, `Json.Get` takes the first binding and the fallback scan walks every entry.
