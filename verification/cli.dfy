/** The pure parts of the command-line front end: splitting the typed line
    into titles, and the "Unknown" fallbacks of the summary. */
module Cli {
  import opened Basics
  import opened Json
  import opened Text
  import opened Normalize

  /** `raw.replace(";", ",")`. */
  function SemicolonsToCommas(raw: string): string {
    ReplaceChar(raw, ';', ',')
  }

  /** `prompt_for_titles` as a function of the line typed: `;` counts as `,`,
      every piece is stripped and empty pieces are dropped. */
  function SplitTitles(raw: string): (r: seq<string>)
    ensures AllSpace(raw) ==> r == []
    ensures forall t :: t in r ==> t != "" && Stripped(t) && ',' !in t && ';' !in t
    ensures |r| <= Count(raw, ',') + Count(raw, ';') + 1
  {
    var line := Strip(raw);
    if line == "" then []
    else
      var pieces := Split(SemicolonsToCommas(line), ',');
      PiecesFacts(raw, line);
      CleanList(pieces)
  }

  lemma PiecesFacts(raw: string, line: string)
    requires line == Strip(raw)
    ensures var pieces := Split(SemicolonsToCommas(line), ',');
      && (forall t :: t in CleanList(pieces) ==> ',' !in t && ';' !in t)
      && |pieces| <= Count(raw, ',') + Count(raw, ';') + 1
  {
    var replaced := SemicolonsToCommas(line);
    var pieces := Split(replaced, ',');
    CountReplaced(line, ';', ',');
    SplitAvoids(replaced, ',', ';');
    CleanListAvoids(pieces, ',');
    CleanListAvoids(pieces, ';');
    StripCount(raw, ',');
    StripCount(raw, ';');
  }

  lemma SpacesUnchanged(w: string)
    requires AllSpace(w)
    ensures SemicolonsToCommas(w) == w
  {
    SpaceAvoids(w, ';');
    ReplaceCharAbsent(w, ';', ',');
  }

  /** The titles of the pieces of a line, without the initial strip. */
  function PieceTitles(s: string): seq<string> {
    CleanList(Split(SemicolonsToCommas(s), ','))
  }

  lemma PieceTitlesEmpty()
    ensures PieceTitles("") == []
  {
    assert SemicolonsToCommas("") == "";
    CleanListSingle("");
  }

  lemma {:induction false} CleanSplitSpacePrefix(w: string, y: string)
    requires AllSpace(w)
    ensures CleanList(Split(w + y, ',')) == CleanList(Split(y, ','))
  {
    var p := Split(y, ',');
    var q := Split(w + y, ',');
    SpaceAvoids(w, ',');
    SplitPrefixJoinsFirst(w, y, ',');
    assert q[0] == w + p[0] && q[1..] == p[1..];
    StripSpacePrefix(w, p[0]);
    CleanListFirst(q, p);
  }

  lemma {:induction false} CleanSplitSpaceSuffix(x: string, w: string)
    requires AllSpace(w)
    ensures CleanList(Split(x + w, ',')) == CleanList(Split(x, ','))
  {
    var q := Split(x, ',');
    var r := Split(x + w, ',');
    SpaceAvoids(w, ',');
    SplitSuffixJoinsLast(x, w, ',');
    assert r[..|r| - 1] == q[..|q| - 1] && r[|r| - 1] == q[|q| - 1] + w;
    StripSpaceSuffix(q[|q| - 1], w);
    CleanListLast(r, q);
  }

  lemma {:induction false} PieceTitlesSpacePadding(w1: string, x: string, w2: string)
    requires AllSpace(w1) && AllSpace(w2)
    ensures PieceTitles(w1 + x + w2) == PieceTitles(x)
  {
    var y := SemicolonsToCommas(x);
    assert SemicolonsToCommas(w1 + x + w2) == w1 + (y + w2) by {
      SpacesUnchanged(w1);
      SpacesUnchanged(w2);
      ReplaceCharAppend(w1 + x, w2, ';', ',');
      ReplaceCharAppend(w1, x, ';', ',');
    }
    CleanSplitSpacePrefix(w1, y + w2);
    CleanSplitSpaceSuffix(y, w2);
  }

  /** The initial `strip()` of the line changes no title: splitting the raw
      line directly gives the same list. */
  lemma {:induction false} SplitTitlesIgnoresOuterStrip(raw: string)
    ensures SplitTitles(raw) == PieceTitles(raw)
  {
    var line := Strip(raw);
    StripPadding(raw);
    PieceTitlesSpacePadding(LeadingSpace(raw), line, TrailingSpace(raw));
    if line == "" {
      PieceTitlesEmpty();
    }
  }

  /** Replacing every `;` of the line by `,` beforehand changes nothing. */
  lemma {:induction false} SemicolonIsComma(raw: string)
    ensures SplitTitles(SemicolonsToCommas(raw)) == SplitTitles(raw)
  {
    var once := SemicolonsToCommas(raw);
    CountReplaced(raw, ';', ',');
    ReplaceCharAbsent(once, ';', ',');
    SplitTitlesIgnoresOuterStrip(raw);
    SplitTitlesIgnoresOuterStrip(once);
  }

  lemma PieceTitlesAtSeparator(a: string, b: string, sep: char)
    requires sep == ',' || sep == ';'
    ensures PieceTitles(a + [sep] + b) == PieceTitles(a) + PieceTitles(b)
  {
    ReplaceCharAppend(a + [sep], b, ';', ',');
    ReplaceCharAppend(a, [sep], ';', ',');
    assert SemicolonsToCommas(a + [sep] + b) == SemicolonsToCommas(a) + [','] + SemicolonsToCommas(b);
    SplitAppend(SemicolonsToCommas(a), SemicolonsToCommas(b), ',');
    CleanListAppend(Split(SemicolonsToCommas(a), ','), Split(SemicolonsToCommas(b), ','));
  }

  /** Titles keep their order: the titles of a line cut at a separator are
      the titles before it followed by the titles after it. */
  lemma SplitTitlesAtSeparator(a: string, b: string, sep: char)
    requires sep == ',' || sep == ';'
    ensures SplitTitles(a + [sep] + b) == SplitTitles(a) + SplitTitles(b)
  {
    SplitTitlesIgnoresOuterStrip(a + [sep] + b);
    SplitTitlesIgnoresOuterStrip(a);
    SplitTitlesIgnoresOuterStrip(b);
    PieceTitlesAtSeparator(a, b, sep);
  }

  /** A line without separators is one title, its stripped self, unless it is blank. */
  lemma {:induction false} SplitTitlesOnePiece(s: string)
    requires ',' !in s && ';' !in s
    ensures SplitTitles(s) == if AllSpace(s) then [] else [Strip(s)]
  {
    SplitTitlesIgnoresOuterStrip(s);
    ReplaceCharAbsent(s, ';', ',');
    SplitWithoutSeparator(s, ',');
    CleanListSingle(s);
  }

  const Unknown := "Unknown"

  /** `a.get("name") or "Unknown"` as `", ".join` sees it: `None` when the
      name is a truthy non-string, which the join rejects with a TypeError. */
  function NameLabel(name: Value): Option<string> {
    if !Truthy(name) then Some(Unknown)
    else if name.JStr? then Some(name.s)
    else None
  }

  /** The labels of all authors, `None` if any of them cannot be joined. */
  function NameLabels(authors: seq<Author>): (r: Option<seq<string>>)
    ensures r.None? <==> exists i :: 0 <= i < |authors| && NameLabel(authors[i].name).None?
    ensures r.Some? ==>
      && |r.value| == |authors|
      && forall i :: 0 <= i < |authors| ==> Some(r.value[i]) == NameLabel(authors[i].name) && r.value[i] != ""
    decreases |authors|
  {
    if |authors| == 0 then Some([])
    else
      var rest := NameLabels(authors[1..]);
      assert forall i :: 1 <= i < |authors| ==> authors[i] == authors[1..][i - 1];
      match NameLabel(authors[0].name)
      case None => None
      case Some(l) =>
        match rest
        case None => None
        case Some(ls) => Some([l] + ls)
  }

  /** `x or "Unknown"` on a joined string. */
  function OrUnknown(s: string): string {
    if s == "" then Unknown else s
  }

  lemma {:induction false} JoinNonEmpty(parts: seq<string>, sep: string)
    ensures |parts| > 0 && parts[0] != "" ==> Join(parts, sep) != ""
    decreases |parts|
  {
    if |parts| > 1 {
      assert |Join(parts, sep)| >= |parts[0]|;
    }
  }

  /** The "Author(s)" line of a match: "Unknown" when there is no author, and
      each author with a missing or empty name shows as "Unknown" in its slot.
      `None` when the join raises. */
  function AuthorNames(authors: seq<Author>): (r: Option<string>)
    ensures authors == [] ==> r == Some(Unknown)
    ensures r.None? <==> exists i :: 0 <= i < |authors| && NameLabel(authors[i].name).None?
    ensures r.Some? ==> r.value != ""
    ensures r.Some? && authors != [] ==>
      exists labels ::
        && |labels| == |authors|
        && r.value == Join(labels, ", ")
        && forall i :: 0 <= i < |authors| ==> Some(labels[i]) == NameLabel(authors[i].name)
    ensures r.Some? && authors != [] ==> NameLabels(authors).Some? && r.value == Join(NameLabels(authors).value, ", ")
  {
    match NameLabels(authors)
    case None => None
    case Some(labels) =>
      JoinNonEmpty(labels, ", ");
      Some(OrUnknown(Join(labels, ", ")))
  }

  /** The strings of a list whose items are all strings. */
  function StringItems(items: seq<Value>): (r: seq<string>)
    requires forall i :: 0 <= i < |items| ==> items[i].JStr?
    ensures |r| == |items| && forall i :: 0 <= i < |items| ==> r[i] == items[i].s
    decreases |items|
  {
    if |items| == 0 then [] else [items[0].s] + StringItems(items[1..])
  }

  /** A string as the sequence of its one-character strings, as iteration yields it. */
  function Characters(s: string): (r: seq<string>)
    ensures |r| == |s| && forall i :: 0 <= i < |s| ==> r[i] == [s[i]]
    decreases |s|
  {
    if |s| == 0 then [] else [[s[0]]] + Characters(s[1..])
  }

  /** `", ".join(languages) or "Unknown"`, where `languages` is the match's
      value after `or []`: a list of strings, or a string or object, which
      the join walks character by character or key by key. `None` when the
      join raises: a list holding a non-string, or a number or boolean. */
  function LanguagesLabel(languages: Value): (r: Option<string>)
    ensures !Truthy(languages) ==> r == Some(Unknown)
    ensures r.Some? ==> r.value != ""
    ensures languages.JArr? && (forall i :: 0 <= i < |languages.items| ==> languages.items[i].JStr?) ==>
      && r.Some?
      && (Join(StringItems(languages.items), ", ") != "" ==> r.value == Join(StringItems(languages.items), ", "))
      && (Join(StringItems(languages.items), ", ") == "" ==> r.value == Unknown)
    ensures languages.JArr? && (exists i :: 0 <= i < |languages.items| && !languages.items[i].JStr?) ==> r.None?
    ensures languages.JStr? && languages.s != "" ==> r == Some(Join(Characters(languages.s), ", "))
    ensures languages.JObj? && languages.fields != [] ==> r == Some(OrUnknown(Join(Keys(languages.fields), ", ")))
    ensures r.None? <==>
      || ((languages.JInt? || languages.JBool?) && Truthy(languages))
      || (languages.JArr? && exists i :: 0 <= i < |languages.items| && !languages.items[i].JStr?)
  {
    if !Truthy(languages) then Some(Unknown)
    else
      match languages
      case JArr(items) =>
        if forall i :: 0 <= i < |items| ==> items[i].JStr? then Some(OrUnknown(Join(StringItems(items), ", ")))
        else None
      case JStr(s) => Some(OrUnknown(Join(Characters(s), ", ")))
      case JObj(fields) => Some(OrUnknown(Join(Keys(fields), ", ")))
      case _ => None
  }
}
