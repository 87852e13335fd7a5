/** Choosing the URL to download a book's text from, given the record's
    `formats` object (MIME type to URL). */
module Formats {
  import opened Basics
  import opened Json
  import opened Text

  /** The MIME types tried first, best first. */
  const PreferredKeys: seq<string> := [
    "text/plain; charset=utf-8",
    "text/plain; charset=us-ascii",
    "text/plain",
    "text/html; charset=utf-8",
    "text/html"
  ]

  /** What the preferred-key loop accepts from `formats.get(key)`: a truthy
      string, i.e. a non-empty one, that is not a zip archive. */
  predicate PreferredUrl(v: Option<Value>) {
    v.Some? && v.value.JStr? && v.value.s != "" && !HasZipSuffix(v.value.s)
  }

  /** What the fallback loop accepts: an entry under a `text/` key whose value
      is a string, possibly empty, that is not a zip archive. */
  predicate FallbackEntry(e: (string, Value)) {
    e.1.JStr? && StartsWith(e.0, "text/") && !HasZipSuffix(e.1.s)
  }

  /** The first of `keys` whose value in `formats` is acceptable. */
  function PickPreferred(formats: seq<(string, Value)>, keys: seq<string>): (r: Option<string>)
    ensures r.None? <==> forall k :: 0 <= k < |keys| ==> !PreferredUrl(Get(formats, keys[k]))
    decreases |keys|
  {
    if |keys| == 0 then None
    else
      var v := Get(formats, keys[0]);
      if PreferredUrl(v) then Some(v.value.s)
      else
        var r := PickPreferred(formats, keys[1..]);
        assert forall k :: 1 <= k < |keys| ==> keys[k] == keys[1..][k - 1];
        r
  }

  /** The first acceptable entry of `formats`, in insertion order. */
  function PickFallback(formats: seq<(string, Value)>): (r: Option<string>)
    ensures r.None? <==> forall i :: 0 <= i < |formats| ==> !FallbackEntry(formats[i])
    decreases |formats|
  {
    if |formats| == 0 then None
    else if FallbackEntry(formats[0]) then Some(formats[0].1.s)
    else
      var r := PickFallback(formats[1..]);
      assert forall i :: 1 <= i < |formats| ==> formats[i] == formats[1..][i - 1];
      r
  }

  /** `_pick_best_text_format` on a dict. Whatever it returns is a string
      stored in `formats` under a `text/` key and is not a zip archive. */
  function PickBestTextFormat(formats: seq<(string, Value)>): (r: Option<string>)
    ensures |formats| == 0 ==> r.None?
    ensures r.Some? ==> !HasZipSuffix(r.value)
    ensures r.Some? ==> exists key :: (key, JStr(r.value)) in formats && StartsWith(key, "text/")
  {
    if |formats| == 0 then None
    else
      match PickPreferred(formats, PreferredKeys)
      case Some(url) =>
        PreferredSound(formats, PreferredKeys);
        Some(url)
      case None =>
        FallbackSound(formats);
        PickFallback(formats)
  }

  lemma {:induction false} PreferredSound(formats: seq<(string, Value)>, keys: seq<string>)
    requires forall k :: 0 <= k < |keys| ==> StartsWith(keys[k], "text/")
    ensures var r := PickPreferred(formats, keys);
      r.Some? ==> !HasZipSuffix(r.value) && exists key :: (key, JStr(r.value)) in formats && StartsWith(key, "text/")
    decreases |keys|
  {
    if |keys| > 0 && !PreferredUrl(Get(formats, keys[0])) {
      PreferredSound(formats, keys[1..]);
    }
  }

  lemma {:induction false} FallbackSound(formats: seq<(string, Value)>)
    ensures var r := PickFallback(formats);
      r.Some? ==> !HasZipSuffix(r.value) && exists key :: (key, JStr(r.value)) in formats && StartsWith(key, "text/")
    decreases |formats|
  {
    if |formats| > 0 && !FallbackEntry(formats[0]) {
      FallbackSound(formats[1..]);
      var r := PickFallback(formats);
      if r.Some? {
        var key :| (key, JStr(r.value)) in formats[1..] && StartsWith(key, "text/");
        assert (key, JStr(r.value)) in formats;
      }
    }
  }

  /** The `formats` value of a raw record after `or {}`, handed to
      `_pick_best_text_format`: a falsy value picks nothing, an object is
      searched, and any other truthy value makes `formats.get` raise. */
  function SelectTextUrl(formats: Value): (r: Outcome<Option<string>>)
    ensures r.Raises? <==> Truthy(formats) && !formats.JObj?
    ensures !Truthy(formats) ==> r == Returns(None)
  {
    if !Truthy(formats) then Returns(None)
    else if formats.JObj? then Returns(PickBestTextFormat(formats.fields))
    else Raises
  }

  lemma {:induction false} PreferredFirstWins(formats: seq<(string, Value)>, keys: seq<string>, k: nat)
    requires k < |keys|
    requires PreferredUrl(Get(formats, keys[k]))
    requires forall j :: 0 <= j < k ==> !PreferredUrl(Get(formats, keys[j]))
    ensures PickPreferred(formats, keys) == Some(Get(formats, keys[k]).value.s)
    decreases k
  {
    if k > 0 {
      assert !PreferredUrl(Get(formats, keys[0]));
      assert keys[1..][k - 1] == keys[k];
      PreferredFirstWins(formats, keys[1..], k - 1);
    }
  }

  /** Priority: the first preferred MIME type holding a non-empty, non-zip
      string decides, whatever else `formats` holds. */
  lemma PreferredPriority(formats: seq<(string, Value)>, k: nat)
    requires k < |PreferredKeys|
    requires PreferredUrl(Get(formats, PreferredKeys[k]))
    requires forall j :: 0 <= j < k ==> !PreferredUrl(Get(formats, PreferredKeys[j]))
    ensures PickBestTextFormat(formats) == Some(Get(formats, PreferredKeys[k]).value.s)
  {
    PreferredFirstWins(formats, PreferredKeys, k);
  }

  lemma {:induction false} FallbackFirstWins(formats: seq<(string, Value)>, i: nat)
    requires i < |formats| && FallbackEntry(formats[i])
    requires forall j :: 0 <= j < i ==> !FallbackEntry(formats[j])
    ensures PickFallback(formats) == Some(formats[i].1.s)
    decreases i
  {
    if i > 0 {
      assert !FallbackEntry(formats[0]);
      assert formats[1..][i - 1] == formats[i];
      FallbackFirstWins(formats[1..], i - 1);
    }
  }

  /** Fallback: when no preferred MIME type qualifies, the first `text/` entry
      holding a non-zip string is chosen, in the object's own order. */
  lemma FallbackChoice(formats: seq<(string, Value)>, i: nat)
    requires forall k :: 0 <= k < |PreferredKeys| ==> !PreferredUrl(Get(formats, PreferredKeys[k]))
    requires i < |formats| && FallbackEntry(formats[i])
    requires forall j :: 0 <= j < i ==> !FallbackEntry(formats[j])
    ensures PickBestTextFormat(formats) == Some(formats[i].1.s)
  {
    FallbackFirstWins(formats, i);
  }

  /** When neither a preferred MIME type nor any `text/` entry qualifies, no URL is chosen. */
  lemma NoTextFormat(formats: seq<(string, Value)>)
    requires forall k :: 0 <= k < |PreferredKeys| ==> !PreferredUrl(Get(formats, PreferredKeys[k]))
    requires forall i :: 0 <= i < |formats| ==> !FallbackEntry(formats[i])
    ensures PickBestTextFormat(formats) == None
  {
  }

  /** The fallback accepts an empty string, which the preferred keys do not. */
  lemma FallbackAcceptsEmptyString()
    ensures PickBestTextFormat([("text/plain", JStr("")), ("text/x-rst", JStr(""))]) == Some("")
  {
    var f := [("text/plain", JStr("")), ("text/x-rst", JStr(""))];
    FallbackChoice(f, 0);
  }

  /** A zipped plain-text URL is skipped in favour of the HTML one. */
  lemma ZipSkippedForHtml()
    ensures PickBestTextFormat([("text/plain; charset=utf-8", JStr("A.zip")), ("text/html", JStr("B.html"))]) == Some("B.html")
  {
    var f := [("text/plain; charset=utf-8", JStr("A.zip")), ("text/html", JStr("B.html"))];
    assert Get(f, PreferredKeys[4]) == Some(JStr("B.html"));
    PreferredPriority(f, 4);
  }
}
