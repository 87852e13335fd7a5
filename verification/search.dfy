/** `search_gutenberg` and the part of `_search_gutendex` that follows the
    HTTP request: per-title searches with independent failures, results kept
    in the order of the titles. The remote calls are oracles; the concurrent
    fan-out is a map over the titles, which is what `asyncio.gather` returns. */
module Search {
  import opened Basics
  import opened Json
  import opened Text
  import opened Download
  import opened Normalize

  /** What the search request produced: an exception from the request or from
      `raise_for_status`, an exception from decoding the body as JSON, or the
      decoded body. The strings describe the exceptions. */
  datatype SearchReply = HttpFailure(reason: string) | DecodeFailure(reason: string) | Decoded(body: Value)

  /** The two remote collaborators: the catalog search, by title, and the text fetch, by URL. */
  datatype Remote = Remote(search: string -> SearchReply, fetch: string -> TextReply)

  /** The arguments of `search_gutenberg` other than the titles, with the
      source's defaults: three matches per title, no download, 20000 characters. */
  datatype Options = Options(maxResultsPerTitle: int := 3, downloadText: bool := false,
                             maxChars: Option<int> := Some(20000))

  /** One entry of the response: the query, its matches, and an error when the search failed. */
  datatype QueryResult = QueryResult(query: string, matches: seq<Book>, error: Option<string>)

  datatype Response = Response(results: seq<QueryResult>)

  const HttpErrorPrefix := "HTTP error while querying Gutendex: "
  const DecodeErrorPrefix := "Failed to decode JSON response from Gutendex: "
  const NotAListError := "Unexpected Gutendex response format: 'results' is not a list"

  /** Python's `items[:n]`: a negative `n` counts from the end. */
  function TakePrefix(items: seq<Value>, n: int): (r: seq<Value>)
    ensures r <= items
    ensures n >= 0 ==> |r| == Min(n, |items|)
    ensures n < 0 ==> |r| == Max(0, |items| + n)
  {
    if n >= 0 then items[..Min(n, |items|)] else items[..Max(0, |items| + n)]
  }

  /** The search succeeded: the body is an object whose `results`, if present, is a list. */
  predicate ResultsAreList(reply: SearchReply) {
    && reply.Decoded?
    && reply.body.JObj?
    && (var v := Get(reply.body.fields, "results"); v.None? || v.value.JArr?)
  }

  /** The raw results of a successful search: `data.get("results", [])`. */
  function ResultsOf(reply: SearchReply): seq<Value>
    requires ResultsAreList(reply)
  {
    match Get(reply.body.fields, "results")
    case None => []
    case Some(v) => v.items
  }

  /** `_search_gutendex(title, max_results)` once the request has been made:
      a failed request, an undecodable body or a `results` that is not a list
      gives no results and a non-empty error; a body that is not an object
      makes `data.get` raise; otherwise the first `max_results` results. */
  function SearchGutendex(reply: SearchReply, maxResults: int): (r: Outcome<(seq<Value>, Option<string>)>)
    ensures r.Raises? <==> reply.Decoded? && !reply.body.JObj?
    ensures r.Returns? ==> (r.value.1.None? <==> ResultsAreList(reply))
    ensures r.Returns? && r.value.1.Some? ==> r.value.0 == [] && r.value.1.value != ""
    ensures reply.HttpFailure? ==> r == Returns(([], Some(HttpErrorPrefix + reply.reason)))
    ensures reply.DecodeFailure? ==> r == Returns(([], Some(DecodeErrorPrefix + reply.reason)))
    ensures reply.Decoded? && reply.body.JObj? && !ResultsAreList(reply) ==> r == Returns(([], Some(NotAListError)))
    ensures ResultsAreList(reply) ==> r == Returns((TakePrefix(ResultsOf(reply), maxResults), None))
  {
    match reply
    case HttpFailure(reason) => Returns(([], Some(HttpErrorPrefix + reason)))
    case DecodeFailure(reason) => Returns(([], Some(DecodeErrorPrefix + reason)))
    case Decoded(body) =>
      if !body.JObj? then Raises
      else
        var results := match Get(body.fields, "results") case None => JArr([]) case Some(v) => v;
        if results.JArr? then Returns((TakePrefix(results.items, maxResults), None))
        else Returns(([], Some(NotAListError)))
  }

  /** A raw result on which normalization raises. */
  predicate Poisoned(v: Value) {
    v.JObj? && Unnormalizable(v.fields)
  }

  /** Both outcomes returned: the concatenation; otherwise the call raised. */
  function Concat(a: Outcome<seq<Book>>, b: Outcome<seq<Book>>): Outcome<seq<Book>> {
    if a.Returns? && b.Returns? then Returns(a.value + b.value) else Raises
  }

  /** One pass of the loop over raw results: an object is normalized, anything else is skipped. */
  function NormalizeOne(v: Value, opts: Options, fetch: string -> TextReply): (r: Outcome<seq<Book>>)
    ensures r.Raises? <==> Poisoned(v)
    ensures r.Returns? ==> |r.value| <= 1
  {
    if !v.JObj? then Returns([])
    else
      match NormalizeBook(v.fields, opts.downloadText, opts.maxChars, fetch)
      case Raises => Raises
      case Returns(b) => Returns([b])
  }

  /** The loop over the raw results of one title: objects are normalized,
      anything else is skipped, and a record on which normalization raises
      makes the whole loop raise. */
  function NormalizeMatches(raw: seq<Value>, opts: Options, fetch: string -> TextReply): (r: Outcome<seq<Book>>)
    ensures r.Raises? <==> exists i :: 0 <= i < |raw| && Poisoned(raw[i])
    ensures r.Returns? ==> |r.value| <= |raw|
    decreases |raw|
  {
    if |raw| == 0 then Returns([])
    else
      var rest := NormalizeMatches(raw[1..], opts, fetch);
      assert forall i :: 1 <= i < |raw| ==> raw[i] == raw[1..][i - 1];
      Concat(NormalizeOne(raw[0], opts, fetch), rest)
  }

  lemma ConcatAssociative(x: Outcome<seq<Book>>, y: Outcome<seq<Book>>, z: Outcome<seq<Book>>)
    ensures Concat(x, Concat(y, z)) == Concat(Concat(x, y), z)
  {
    if x.Returns? && y.Returns? && z.Returns? {
      assert x.value + (y.value + z.value) == (x.value + y.value) + z.value;
    }
  }

  lemma NormalizeMatchesCons(v: Value, rest: seq<Value>, opts: Options, fetch: string -> TextReply)
    ensures NormalizeMatches([v] + rest, opts, fetch) == Concat(NormalizeOne(v, opts, fetch), NormalizeMatches(rest, opts, fetch))
  {
    assert ([v] + rest)[0] == v && ([v] + rest)[1..] == rest;
  }

  /** Matches come in the order of the raw results: normalizing a
      concatenation concatenates the normalized parts. */
  lemma {:induction false} NormalizeMatchesAppend(a: seq<Value>, b: seq<Value>, opts: Options, fetch: string -> TextReply)
    ensures NormalizeMatches(a + b, opts, fetch) == Concat(NormalizeMatches(a, opts, fetch), NormalizeMatches(b, opts, fetch))
    decreases |a|
  {
    var y := NormalizeMatches(b, opts, fetch);
    if a == [] {
      assert a + b == b;
      if y.Returns? {
        assert [] + y.value == y.value;
      }
    } else {
      var v, rest := a[0], a[1..];
      assert a == [v] + rest && a + b == [v] + (rest + b);
      NormalizeMatchesCons(v, rest + b, opts, fetch);
      NormalizeMatchesCons(v, rest, opts, fetch);
      NormalizeMatchesAppend(rest, b, opts, fetch);
      ConcatAssociative(NormalizeOne(v, opts, fetch), NormalizeMatches(rest, opts, fetch), y);
    }
  }

  /** One raw result yields its normalization if it is an object and nothing otherwise. */
  lemma NormalizeMatchesSingle(v: Value, opts: Options, fetch: string -> TextReply)
    ensures !v.JObj? ==> NormalizeMatches([v], opts, fetch) == Returns([])
    ensures v.JObj? && !Unnormalizable(v.fields) ==>
      NormalizeMatches([v], opts, fetch) == Returns([NormalizeBook(v.fields, opts.downloadText, opts.maxChars, fetch).value])
  {
    assert [v][1..] == [];
    var h := NormalizeOne(v, opts, fetch);
    if h.Returns? {
      assert h.value + [] == h.value;
    }
  }

  /** `handle_single_title(q)` with the per-title limit already clamped: the
      matches are the normalized objects among the first `limit` raw results,
      in the order the service gave them; a failed search gives its error and
      no match. It raises when the search body is not an object or when
      normalization rejects one of those first `limit` results. */
  function HandleTitle(q: string, limit: int, opts: Options, remote: Remote): (r: Outcome<QueryResult>)
    ensures r.Raises? <==>
      || (remote.search(q).Decoded? && !remote.search(q).body.JObj?)
      || (ResultsAreList(remote.search(q)) && NormalizeMatches(TakePrefix(ResultsOf(remote.search(q)), limit), opts, remote.fetch).Raises?)
    ensures r.Returns? ==> r.value.query == q
    ensures r.Returns? && limit >= 0 ==> |r.value.matches| <= limit
    ensures r.Returns? ==> (r.value.error.Some? <==> !ResultsAreList(remote.search(q)))
    ensures r.Returns? && r.value.error.Some? ==>
      r.value.matches == [] && r.value.error == SearchGutendex(remote.search(q), limit).value.1
    ensures r.Returns? && ResultsAreList(remote.search(q)) ==>
      Returns(r.value.matches) == NormalizeMatches(TakePrefix(ResultsOf(remote.search(q)), limit), opts, remote.fetch)
  {
    match SearchGutendex(remote.search(q), limit)
    case Raises => Raises
    case Returns(found) =>
      match NormalizeMatches(found.0, opts, remote.fetch)
      case Raises => Raises
      case Returns(matches) =>
        Returns(QueryResult(q, matches, if found.1.Some? && found.1.value != "" then found.1 else None))
  }

  /** `asyncio.gather` over the titles: one result per title, in title order;
      an exception in any task escapes from the whole call. */
  function HandleAll(queries: seq<string>, limit: int, opts: Options, remote: Remote): (r: Outcome<seq<QueryResult>>)
    ensures r.Raises? <==> exists i :: 0 <= i < |queries| && HandleTitle(queries[i], limit, opts, remote).Raises?
    ensures r.Returns? ==>
      && |r.value| == |queries|
      && forall i :: 0 <= i < |queries| ==> HandleTitle(queries[i], limit, opts, remote) == Returns(r.value[i])
    decreases |queries|
  {
    if |queries| == 0 then Returns([])
    else
      var rest := HandleAll(queries[1..], limit, opts, remote);
      assert forall i :: 1 <= i < |queries| ==> queries[i] == queries[1..][i - 1];
      match HandleTitle(queries[0], limit, opts, remote)
      case Raises => Raises
      case Returns(e) =>
        match rest
        case Raises => Raises
        case Returns(es) => Returns([e] + es)
  }

  /** A non-positive per-title limit is raised to 1. */
  function ClampLimit(n: int): (r: int)
    ensures r >= 1
    ensures n >= 1 ==> r == n
    ensures n <= 0 ==> r == 1
  {
    if n <= 0 then 1 else n
  }

  /** `search_gutenberg(titles, max_results_per_title, download_text, max_chars)`.
      One entry per cleaned title, in order; each entry has at most the clamped
      number of matches, and none when it carries an error. */
  function SearchGutenberg(titles: seq<string>, opts: Options, remote: Remote): (r: Outcome<Response>)
    ensures CleanList(titles) == [] ==> r == Returns(Response([]))
    ensures r.Returns? ==>
      && |r.value.results| == |CleanList(titles)|
      && forall i :: 0 <= i < |r.value.results| ==> r.value.results[i].query == CleanList(titles)[i]
    ensures r.Returns? ==> forall e :: e in r.value.results ==>
      && e.query != "" && Stripped(e.query)
      && |e.matches| <= ClampLimit(opts.maxResultsPerTitle)
      && (e.error.Some? ==> e.matches == [])
  {
    var cleaned := CleanList(titles);
    if cleaned == [] then Returns(Response([]))
    else
      var limit := ClampLimit(opts.maxResultsPerTitle);
      match HandleAll(cleaned, limit, opts, remote)
      case Raises => Raises
      case Returns(entries) =>
        EntriesWellFormed(cleaned, limit, opts, remote);
        Returns(Response(entries))
  }

  lemma EntriesWellFormed(queries: seq<string>, limit: int, opts: Options, remote: Remote)
    requires limit >= 1
    requires forall q :: q in queries ==> q != "" && Stripped(q)
    requires HandleAll(queries, limit, opts, remote).Returns?
    ensures forall e :: e in HandleAll(queries, limit, opts, remote).value ==>
      && e.query != "" && Stripped(e.query)
      && |e.matches| <= limit
      && (e.error.Some? ==> e.matches == [])
  {
    var es := HandleAll(queries, limit, opts, remote).value;
    forall e | e in es
      ensures e.query != "" && Stripped(e.query) && |e.matches| <= limit && (e.error.Some? ==> e.matches == [])
    {
      var i :| 0 <= i < |es| && es[i] == e;
      assert HandleTitle(queries[i], limit, opts, remote) == Returns(e);
      assert queries[i] in queries;
    }
  }

  /** With no usable title the answer is `{"results": []}` whatever the remote
      services would have answered: no request is made. */
  lemma NoTitlesNoRemoteCall(titles: seq<string>, opts: Options, remote1: Remote, remote2: Remote)
    requires forall t :: t in titles ==> AllSpace(t)
    ensures SearchGutenberg(titles, opts, remote1) == SearchGutenberg(titles, opts, remote2) == Returns(Response([]))
  {
    AllBlankCleansToNothing(titles);
  }

  lemma {:induction false} AllBlankCleansToNothing(titles: seq<string>)
    requires forall t :: t in titles ==> AllSpace(t)
    ensures CleanList(titles) == []
    decreases |titles|
  {
    if titles != [] {
      assert titles[0] in titles;
      AllBlankCleansToNothing(titles[1..]);
    }
  }

  /** Failure isolation: the entry of a title is what handling that title
      alone gives, and depends on no other title's search. */
  lemma FailureIsolation(titles: seq<string>, opts: Options, remote1: Remote, remote2: Remote, i: nat)
    requires i < |CleanList(titles)|
    requires remote1.fetch == remote2.fetch
    requires remote1.search(CleanList(titles)[i]) == remote2.search(CleanList(titles)[i])
    requires SearchGutenberg(titles, opts, remote1).Returns? && SearchGutenberg(titles, opts, remote2).Returns?
    ensures SearchGutenberg(titles, opts, remote1).value.results[i] == SearchGutenberg(titles, opts, remote2).value.results[i]
    ensures Returns(SearchGutenberg(titles, opts, remote1).value.results[i])
         == HandleTitle(CleanList(titles)[i], ClampLimit(opts.maxResultsPerTitle), opts, remote1)
  {
    var q := CleanList(titles)[i];
    var limit := ClampLimit(opts.maxResultsPerTitle);
    SearchEntries(titles, opts, remote1);
    SearchEntries(titles, opts, remote2);
    HandleTitleIsLocal(q, limit, opts, remote1, remote2);
  }

  /** The matches of a title whose search succeeded are the normalized
      objects among its first max(1, `max_results_per_title`) raw results, in
      the order the service returned them. */
  lemma SearchMatches(titles: seq<string>, opts: Options, remote: Remote, i: nat)
    requires SearchGutenberg(titles, opts, remote).Returns?
    requires i < |CleanList(titles)|
    requires ResultsAreList(remote.search(CleanList(titles)[i]))
    ensures i < |SearchGutenberg(titles, opts, remote).value.results|
    ensures var raw := ResultsOf(remote.search(CleanList(titles)[i]));
      Returns(SearchGutenberg(titles, opts, remote).value.results[i].matches)
        == NormalizeMatches(TakePrefix(raw, ClampLimit(opts.maxResultsPerTitle)), opts, remote.fetch)
  {
    SearchEntries(titles, opts, remote);
    assert Returns(SearchGutenberg(titles, opts, remote).value.results[i])
        == HandleTitle(CleanList(titles)[i], ClampLimit(opts.maxResultsPerTitle), opts, remote);
  }

  /** The entries of a successful search are those `HandleAll` returns for the cleaned titles. */
  lemma SearchEntries(titles: seq<string>, opts: Options, remote: Remote)
    requires SearchGutenberg(titles, opts, remote).Returns?
    ensures var h := HandleAll(CleanList(titles), ClampLimit(opts.maxResultsPerTitle), opts, remote);
      h.Returns? && SearchGutenberg(titles, opts, remote).value.results == h.value
  {
  }

  /** Handling a title reads the search service only for that title. */
  lemma HandleTitleIsLocal(q: string, limit: int, opts: Options, remote1: Remote, remote2: Remote)
    requires remote1.fetch == remote2.fetch && remote1.search(q) == remote2.search(q)
    ensures HandleTitle(q, limit, opts, remote1) == HandleTitle(q, limit, opts, remote2)
  {
  }

  /** An exception escapes from `search_gutenberg` exactly when handling some
      cleaned title raises. */
  lemma RaisesOnlyFromATitle(titles: seq<string>, opts: Options, remote: Remote)
    ensures SearchGutenberg(titles, opts, remote).Raises? <==>
      exists i :: 0 <= i < |CleanList(titles)|
        && HandleTitle(CleanList(titles)[i], ClampLimit(opts.maxResultsPerTitle), opts, remote).Raises?
  {
    var cleaned := CleanList(titles);
    if cleaned != [] {
      var limit := ClampLimit(opts.maxResultsPerTitle);
      var h := HandleAll(cleaned, limit, opts, remote);
      assert SearchGutenberg(titles, opts, remote).Raises? <==> h.Raises?;
      assert h.Raises? <==> exists i :: 0 <= i < |cleaned| && HandleTitle(cleaned[i], limit, opts, remote).Raises?;
    }
  }

  /** A non-positive limit is treated as 1: a title whose search returns
      several results, the first of them a normalizable object, gets exactly one match. */
  lemma ClampedLimitGivesOneMatch(titles: seq<string>, opts: Options, remote: Remote, i: nat)
    requires opts.maxResultsPerTitle <= 0
    requires i < |CleanList(titles)|
    requires ResultsAreList(remote.search(CleanList(titles)[i]))
    requires |ResultsOf(remote.search(CleanList(titles)[i]))| > 1
    requires !Poisoned(ResultsOf(remote.search(CleanList(titles)[i]))[0])
    requires ResultsOf(remote.search(CleanList(titles)[i]))[0].JObj?
    requires SearchGutenberg(titles, opts, remote).Returns?
    ensures |SearchGutenberg(titles, opts, remote).value.results[i].matches| == 1
  {
    SearchEntries(titles, opts, remote);
    HandleTitleLimitOne(CleanList(titles)[i], opts, remote);
  }

  lemma HandleTitleLimitOne(q: string, opts: Options, remote: Remote)
    requires ResultsAreList(remote.search(q)) && |ResultsOf(remote.search(q))| > 0
    requires ResultsOf(remote.search(q))[0].JObj? && !Poisoned(ResultsOf(remote.search(q))[0])
    requires HandleTitle(q, 1, opts, remote).Returns?
    ensures |HandleTitle(q, 1, opts, remote).value.matches| == 1
  {
    var raw := ResultsOf(remote.search(q));
    var found := SearchGutendex(remote.search(q), 1);
    assert found.Returns? && found.value.0 == [raw[0]];
    NormalizeMatchesSingle(raw[0], opts, remote.fetch);
  }

  // JSON rendering of the response, keys in the order the source inserts them.

  function QueryResultJson(e: QueryResult): Value {
    JObj([("query", JStr(e.query)),
          ("matches", JArr(seq(|e.matches|, i requires 0 <= i < |e.matches| => BookJson(e.matches[i]))))]
         + (if e.error.Some? then [("error", JStr(e.error.value))] else []))
  }

  function ResponseJson(r: Response): Value {
    JObj([("results", JArr(seq(|r.results|, i requires 0 <= i < |r.results| => QueryResultJson(r.results[i]))))])
  }

  /** The rendered entry has the keys `query`, `matches` and, only when
      there is an error, `error`. */
  lemma QueryResultKeys(e: QueryResult)
    ensures HasKey(QueryResultJson(e), "error") <==> e.error.Some?
    ensures QueryResultJson(e).fields[1].0 == "matches"
    ensures e.matches == [] ==> QueryResultJson(e).fields[1].1 == JArr([])
  {
    var ks := Keys(QueryResultJson(e).fields);
    if e.error.Some? {
      assert ks == ["query", "matches", "error"];
    } else {
      assert ks == ["query", "matches"];
    }
  }

  /** An entry has an `error` key exactly when its search failed, and then its
      `matches` list is empty. */
  lemma ErrorKeyOnlyOnSearchFailure(titles: seq<string>, opts: Options, remote: Remote, i: nat)
    requires SearchGutenberg(titles, opts, remote).Returns?
    requires i < |SearchGutenberg(titles, opts, remote).value.results|
    ensures var e := SearchGutenberg(titles, opts, remote).value.results[i];
      && (HasKey(QueryResultJson(e), "error") <==> !ResultsAreList(remote.search(CleanList(titles)[i])))
      && (HasKey(QueryResultJson(e), "error") ==> QueryResultJson(e).fields[1].1 == JArr([]))
  {
    var e := SearchGutenberg(titles, opts, remote).value.results[i];
    QueryResultKeys(e);
    assert Returns(e) == HandleTitle(CleanList(titles)[i], ClampLimit(opts.maxResultsPerTitle), opts, remote);
  }
}
