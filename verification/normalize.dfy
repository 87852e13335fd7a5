/** `_normalize_book`: a raw catalog record, any of whose fields may be missing
    or of an unexpected type, made into the canonical match record. */
module Normalize {
  import opened Basics
  import opened Json
  import opened Text
  import opened Formats
  import opened Download

  /** An author of a match: exactly the three fields kept from the raw author
      object, each `null` when the raw object lacks it. */
  datatype Author = Author(name: Value, birthYear: Value, deathYear: Value)

  /** The `text` and `text_error` part of a match. `NotRequested`: neither key
      is present. `Requested`: `text` is present (possibly `null`) and
      `text_error` is present exactly when `textError` is set. */
  datatype TextFields = NotRequested | Requested(text: Option<string>, textError: Option<string>)

  /** A normalized match. */
  datatype Book = Book(
    id: Value,
    title: Value,
    authors: seq<Author>,
    languages: Value,
    downloadCount: Value,
    subjects: Value,
    bookshelves: Value,
    copyright: Value,
    gutenbergUrl: Option<string>,
    textUrl: Option<string>,
    textFields: TextFields)

  const EbooksBase := "https://www.gutenberg.org/ebooks/"

  function ProjectAuthor(fields: seq<(string, Value)>): Author {
    Author(GetOrNull(fields, "name"), GetOrNull(fields, "birth_year"), GetOrNull(fields, "death_year"))
  }

  /** The loop over a list of raw authors: objects are projected, anything else is skipped. */
  function ProjectAuthors(items: seq<Value>): (r: seq<Author>)
    ensures |r| <= |items|
    ensures |r| == |items| <==> forall i :: 0 <= i < |items| ==> items[i].JObj?
    decreases |items|
  {
    if |items| == 0 then []
    else
      var rest := ProjectAuthors(items[1..]);
      assert forall i :: 1 <= i < |items| ==> items[i] == items[1..][i - 1];
      (if items[0].JObj? then [ProjectAuthor(items[0].fields)] else []) + rest
  }

  /** Authors are kept in their raw order: the projection of a concatenation
      is the concatenation of the projections. */
  lemma {:induction false} ProjectAuthorsAppend(a: seq<Value>, b: seq<Value>)
    ensures ProjectAuthors(a + b) == ProjectAuthors(a) + ProjectAuthors(b)
    decreases |a|
  {
    if a == [] {
      assert a + b == b;
    } else {
      assert (a + b)[1..] == a[1..] + b;
      ProjectAuthorsAppend(a[1..], b);
    }
  }

  /** `a` is the projection of some object of `items`. */
  predicate ProjectedFrom(items: seq<Value>, a: Author) {
    exists i :: 0 <= i < |items| && items[i].JObj? && a == ProjectAuthor(items[i].fields)
  }

  /** Every kept author is the projection of an object of the raw list. */
  lemma {:induction false} ProjectAuthorsFromObjects(items: seq<Value>)
    ensures forall a :: a in ProjectAuthors(items) ==> ProjectedFrom(items, a)
    decreases |items|
  {
    if items != [] {
      ProjectAuthorsFromObjects(items[1..]);
      var rest := ProjectAuthors(items[1..]);
      assert ProjectAuthors(items) == (if items[0].JObj? then [ProjectAuthor(items[0].fields)] else []) + rest;
      forall a | a in ProjectAuthors(items) ensures ProjectedFrom(items, a) {
        if a in rest {
          var i :| 0 <= i < |items[1..]| && items[1..][i].JObj? && a == ProjectAuthor(items[1..][i].fields);
          assert items[i + 1] == items[1..][i];
        } else {
          assert items[0].JObj? && a == ProjectAuthor(items[0].fields);
        }
      }
    }
  }

  /** `for author in raw_authors` on the value left by `or []`: a list is
      walked, a string or an object only yields characters or keys (never
      dicts), and a number or boolean is not iterable. */
  function AuthorsOf(raw: Value): Outcome<seq<Author>> {
    match raw
    case JArr(items) => Returns(ProjectAuthors(items))
    case JStr(_) => Returns([])
    case JObj(_) => Returns([])
    case _ => Raises
  }

  /** The canonical catalog URL. `isinstance(book_id, int)` also holds for
      Python's booleans, whose `str` is `True` or `False`. */
  function GutenbergUrl(id: Value): (r: Option<string>)
    ensures r.Some? <==> id.JInt? || id.JBool?
    ensures r.Some? ==> StartsWith(r.value, EbooksBase) && |r.value| > |EbooksBase|
    ensures id.JInt? ==>
      var suffix := r.value[|EbooksBase|..];
      CanonicalInt(suffix) && ParseInt(suffix) == Some(id.i)
    ensures id.JBool? ==> r.value[|EbooksBase|..] == if id.b then "True" else "False"
  {
    match id
    case JInt(n) =>
      ParseIntToString(n);
      assert (EbooksBase + IntToString(n))[|EbooksBase|..] == IntToString(n);
      Some(EbooksBase + IntToString(n))
    case JBool(b) => Some(EbooksBase + (if b then "True" else "False"))
    case _ => None
  }

  /** The URL of an integer id ends in exactly `str(id)`: the only canonical
      numeral that reads back as the id. */
  lemma GutenbergUrlOfInt(n: int)
    ensures GutenbergUrl(JInt(n)).Some?
    ensures GutenbergUrl(JInt(n)).value == EbooksBase + IntToString(n)
  {
    var url := GutenbergUrl(JInt(n)).value;
    var suffix := url[|EbooksBase|..];
    CanonicalIntUnique(suffix);
    assert url == EbooksBase + suffix;
  }

  lemma GutenbergUrlExample()
    ensures GutenbergUrl(JInt(1661)) == Some("https://www.gutenberg.org/ebooks/1661")
    ensures GutenbergUrl(JStr("1661")) == None
  {
    assert NatToString(1) == "1";
    assert NatToString(16) == "16";
    assert NatToString(166) == "166";
    assert NatToString(1661) == "1661";
    assert IntToString(1661) == "1661";
    assert EbooksBase + "1661" == "https://www.gutenberg.org/ebooks/1661";
  }

  /** `book.get("authors") or []` and `book.get("formats") or {}`. */
  function RawAuthors(book: seq<(string, Value)>): Value {
    Or(GetOrNull(book, "authors"), JArr([]))
  }

  function RawFormats(book: seq<(string, Value)>): Value {
    Or(GetOrNull(book, "formats"), JObj([]))
  }

  /** The records on which normalization raises: a truthy `authors` that cannot
      be iterated, or a truthy `formats` that is not an object. */
  predicate Unnormalizable(book: seq<(string, Value)>) {
    var authors := GetOrNull(book, "authors");
    var formats := GetOrNull(book, "formats");
    (Truthy(authors) && (authors.JInt? || authors.JBool?))
    || (Truthy(formats) && !formats.JObj?)
  }

  /** The `text` and `text_error` fields of a match whose text URL is
      `textUrl`: absent unless downloads were asked for; `text` is `null` with
      no fetch when the URL is missing or empty; a failed fetch leaves `text`
      null and sets a non-empty error; a successful one stores the truncated
      body and no error. */
  function RequestText(downloadText: bool, textUrl: Option<string>, maxChars: Option<int>,
                       fetch: string -> TextReply): (t: TextFields)
    ensures t.Requested? <==> downloadText
    ensures downloadText && (textUrl.None? || textUrl == Some("")) ==> t == Requested(None, None)
    ensures t.Requested? && t.textError.Some? ==>
      && textUrl.Some? && fetch(textUrl.value).TextFailed?
      && t.text.None? && t.textError.value != ""
    ensures downloadText && textUrl.Some? && textUrl.value != "" && fetch(textUrl.value).TextFailed? ==>
      t.textError.Some?
    ensures downloadText && textUrl.Some? && textUrl.value != "" && fetch(textUrl.value).TextBody? ==>
      t == Requested(Some(Truncate(fetch(textUrl.value).body, maxChars)), None)
  {
    if !downloadText then NotRequested
    else if textUrl.Some? && textUrl.value != "" then
      var fetched := DownloadText(textUrl.value, maxChars, fetch);
      Requested(fetched.0, if fetched.1.Some? && fetched.1.value != "" then fetched.1 else None)
    else Requested(None, None)
  }

  /** A list field keeps a truthy raw value as it is and turns a missing or
      falsy one into `[]`. */
  predicate ListDefault(field: Value, raw: Value) {
    (Truthy(raw) ==> field == raw) && (!Truthy(raw) ==> field == JArr([]))
  }

  /** The match built from a raw record once its authors, text URL and text
      fields are known: missing or falsy `languages`, `subjects` and
      `bookshelves` become `[]`, `id`, `title`, `download_count` and
      `copyright` are copied (`null` when missing), and the catalog URL is
      derived from the id. */
  function AssembleBook(book: seq<(string, Value)>, authors: seq<Author>, textUrl: Option<string>,
                        textFields: TextFields): (b: Book)
    ensures ListDefault(b.languages, GetOrNull(book, "languages"))
    ensures ListDefault(b.subjects, GetOrNull(book, "subjects"))
    ensures ListDefault(b.bookshelves, GetOrNull(book, "bookshelves"))
    ensures b.id == GetOrNull(book, "id") && b.title == GetOrNull(book, "title")
    ensures b.downloadCount == GetOrNull(book, "download_count")
    ensures b.copyright == GetOrNull(book, "copyright")
    ensures b.gutenbergUrl == GutenbergUrl(b.id)
    ensures b.authors == authors && b.textUrl == textUrl && b.textFields == textFields
  {
    var id := GetOrNull(book, "id");
    Book(
      id,
      GetOrNull(book, "title"),
      authors,
      Or(GetOrNull(book, "languages"), JArr([])),
      GetOrNull(book, "download_count"),
      Or(GetOrNull(book, "subjects"), JArr([])),
      Or(GetOrNull(book, "bookshelves"), JArr([])),
      GetOrNull(book, "copyright"),
      GutenbergUrl(id),
      textUrl,
      textFields)
  }

  /** `_normalize_book(book, download_text, max_chars)`, with the download made
      through the oracle `fetch`. */
  function NormalizeBook(book: seq<(string, Value)>, downloadText: bool, maxChars: Option<int>,
                         fetch: string -> TextReply): (r: Outcome<Book>)
    ensures r.Raises? <==> Unnormalizable(book)
    ensures r.Returns? ==> (r.value.textFields.Requested? <==> downloadText)
  {
    match AuthorsOf(RawAuthors(book))
    case Raises => Raises
    case Returns(authors) =>
      match SelectTextUrl(RawFormats(book))
      case Raises => Raises
      case Returns(textUrl) =>
        Returns(AssembleBook(book, authors, textUrl, RequestText(downloadText, textUrl, maxChars, fetch)))
  }

  /** A match that normalization returns is assembled from the record's
      authors and text URL. */
  lemma NormalizedParts(book: seq<(string, Value)>, downloadText: bool, maxChars: Option<int>,
                        fetch: string -> TextReply)
    requires NormalizeBook(book, downloadText, maxChars, fetch).Returns?
    ensures AuthorsOf(RawAuthors(book)).Returns? && SelectTextUrl(RawFormats(book)).Returns?
    ensures var authors := AuthorsOf(RawAuthors(book)).value;
      var textUrl := SelectTextUrl(RawFormats(book)).value;
      NormalizeBook(book, downloadText, maxChars, fetch).value ==
        AssembleBook(book, authors, textUrl, RequestText(downloadText, textUrl, maxChars, fetch))
  {
  }

  /** Defaults: missing or falsy `languages`, `subjects`, `bookshelves` and
      `authors` become empty lists and a missing or falsy `formats` gives no
      text URL; `id`, `title`, `download_count` and `copyright` are copied
      (`null` when missing), and the catalog URL is derived from the id. */
  lemma NormalizeDefaults(book: seq<(string, Value)>, downloadText: bool, maxChars: Option<int>,
                          fetch: string -> TextReply)
    requires NormalizeBook(book, downloadText, maxChars, fetch).Returns?
    ensures var b := NormalizeBook(book, downloadText, maxChars, fetch).value;
      && ListDefault(b.languages, GetOrNull(book, "languages"))
      && ListDefault(b.subjects, GetOrNull(book, "subjects"))
      && ListDefault(b.bookshelves, GetOrNull(book, "bookshelves"))
      && (!Truthy(GetOrNull(book, "authors")) ==> b.authors == [])
      && (!Truthy(GetOrNull(book, "formats")) ==> b.textUrl == None)
      && b.id == GetOrNull(book, "id") && b.title == GetOrNull(book, "title")
      && b.downloadCount == GetOrNull(book, "download_count")
      && b.copyright == GetOrNull(book, "copyright")
      && b.gutenbergUrl == GutenbergUrl(b.id)
  {
    NormalizedParts(book, downloadText, maxChars, fetch);
  }

  /** Authors: a raw list is filtered to its objects, in order, each reduced to
      name and years; a string or an object in place of the list yields no
      author. There are never more authors than raw entries. */
  lemma NormalizeAuthors(book: seq<(string, Value)>, downloadText: bool, maxChars: Option<int>,
                         fetch: string -> TextReply)
    requires NormalizeBook(book, downloadText, maxChars, fetch).Returns?
    ensures var b := NormalizeBook(book, downloadText, maxChars, fetch).value;
      var raw := GetOrNull(book, "authors");
      && (raw.JArr? ==> b.authors == ProjectAuthors(raw.items) && |b.authors| <= |raw.items|)
      && (raw.JStr? || raw.JObj? || !Truthy(raw) ==> b.authors == [])
  {
    NormalizedParts(book, downloadText, maxChars, fetch);
    var raw := GetOrNull(book, "authors");
    if raw.JArr? && !Truthy(raw) {
      assert raw == JArr([]);
    }
  }

  /** The text URL is the choice of `_pick_best_text_format` among the record's
      formats, and nothing when the record has no formats object. */
  lemma NormalizeTextUrl(book: seq<(string, Value)>, downloadText: bool, maxChars: Option<int>,
                         fetch: string -> TextReply)
    requires NormalizeBook(book, downloadText, maxChars, fetch).Returns?
    ensures var b := NormalizeBook(book, downloadText, maxChars, fetch).value;
      var raw := GetOrNull(book, "formats");
      && (raw.JObj? ==> b.textUrl == PickBestTextFormat(raw.fields))
      && (!raw.JObj? ==> b.textUrl == None)
  {
    NormalizedParts(book, downloadText, maxChars, fetch);
    var raw := GetOrNull(book, "formats");
    if !Truthy(raw) {
      assert RawFormats(book) == JObj([]);
      if raw.JObj? {
        assert raw.fields == [];
      }
    } else {
      assert RawFormats(book) == raw;
    }
  }

  /** Downloads: no fetch without a non-empty text URL, so `text` is `null`
      then; a failed fetch leaves `text` null and sets a non-empty error; a
      successful one stores the truncated body and no error. */
  lemma NormalizeText(book: seq<(string, Value)>, downloadText: bool, maxChars: Option<int>,
                      fetch: string -> TextReply)
    requires NormalizeBook(book, downloadText, maxChars, fetch).Returns?
    requires downloadText
    ensures var b := NormalizeBook(book, downloadText, maxChars, fetch).value;
      && b.textFields.Requested?
      && (b.textUrl.None? || b.textUrl == Some("") ==> b.textFields == Requested(None, None))
      && (b.textFields.textError.Some? ==>
            b.textUrl.Some? && fetch(b.textUrl.value).TextFailed? && b.textFields.text.None?
            && b.textFields.textError.value != "")
      && (b.textUrl.Some? && b.textUrl.value != "" && fetch(b.textUrl.value).TextFailed? ==>
            b.textFields.textError.Some?)
      && (b.textUrl.Some? && b.textUrl.value != "" && fetch(b.textUrl.value).TextBody? ==>
            b.textFields == Requested(Some(Truncate(fetch(b.textUrl.value).body, maxChars)), None))
  {
    NormalizedParts(book, downloadText, maxChars, fetch);
  }

  // JSON rendering of the normalized records, keys in the order the source inserts them.

  function AuthorJson(a: Author): Value {
    JObj([("name", a.name), ("birth_year", a.birthYear), ("death_year", a.deathYear)])
  }

  function TextFieldsJson(t: TextFields): seq<(string, Value)> {
    match t
    case NotRequested => []
    case Requested(text, err) =>
      [("text", OptString(text))] + (if err.Some? then [("text_error", JStr(err.value))] else [])
  }

  function BookJson(b: Book): Value {
    JObj([
      ("id", b.id),
      ("title", b.title),
      ("authors", JArr(seq(|b.authors|, i requires 0 <= i < |b.authors| => AuthorJson(b.authors[i])))),
      ("languages", b.languages),
      ("download_count", b.downloadCount),
      ("subjects", b.subjects),
      ("bookshelves", b.bookshelves),
      ("copyright", b.copyright),
      ("gutenberg_url", OptString(b.gutenbergUrl)),
      ("text_url", OptString(b.textUrl))
    ] + TextFieldsJson(b.textFields))
  }

  /** Each rendered author has exactly the keys `name`, `birth_year`, `death_year`. */
  lemma AuthorJsonKeys(a: Author)
    ensures Keys(AuthorJson(a).fields) == ["name", "birth_year", "death_year"]
  {
  }

  /** Key presence in a rendered match: `text` appears exactly when a download
      was requested, `text_error` exactly when, in addition, it failed. */
  lemma BookJsonKeys(b: Book)
    ensures HasKey(BookJson(b), "text") <==> b.textFields.Requested?
    ensures HasKey(BookJson(b), "text_error") <==> b.textFields.Requested? && b.textFields.textError.Some?
  {
    var ks := Keys(BookJson(b).fields);
    var head := ["id", "title", "authors", "languages", "download_count", "subjects",
                 "bookshelves", "copyright", "gutenberg_url", "text_url"];
    var tail := Keys(TextFieldsJson(b.textFields));
    assert ks[..10] == head;
    assert ks[10..] == tail;
    assert ks == head + tail;
    assert "text" !in head && "text_error" !in head;
    match b.textFields
    case NotRequested =>
      assert tail == [];
    case Requested(_, err) =>
      if err.Some? {
        assert tail == ["text", "text_error"];
      } else {
        assert tail == ["text"];
      }
  }

  /** The same, stated on `_normalize_book`'s output: `text` is present iff the
      caller asked for downloads, and `text_error` only when the download was
      attempted and failed. */
  lemma NormalizedKeyPresence(book: seq<(string, Value)>, downloadText: bool, maxChars: Option<int>,
                              fetch: string -> TextReply)
    requires NormalizeBook(book, downloadText, maxChars, fetch).Returns?
    ensures var b := NormalizeBook(book, downloadText, maxChars, fetch).value;
      && (HasKey(BookJson(b), "text") <==> downloadText)
      && (HasKey(BookJson(b), "text_error") ==>
            downloadText && b.textUrl.Some? && fetch(b.textUrl.value).TextFailed?)
  {
    var b := NormalizeBook(book, downloadText, maxChars, fetch).value;
    BookJsonKeys(b);
    if downloadText {
      NormalizeText(book, downloadText, maxChars, fetch);
    }
  }
}
