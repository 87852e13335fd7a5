/** `_download_text` once the HTTP body is in hand: the network fetch is an
    oracle, and what the model keeps is the error wrapping and the truncation. */
module Download {
  import opened Basics

  /** What the HTTP GET of a text URL produced: the body decoded as text, or
      the description of the exception the request raised. */
  datatype TextReply = TextFailed(reason: string) | TextBody(body: string)

  const DownloadErrorPrefix := "HTTP error while downloading text: "

  /** The character-count cut applied to a downloaded body: with a positive
      `maxChars` the text keeps its first `maxChars` characters, otherwise it
      is kept whole. */
  function Truncate(text: string, maxChars: Option<int>): (r: string)
    ensures r <= text
    ensures maxChars.Some? && maxChars.value > 0 ==> |r| == Min(|text|, maxChars.value)
    ensures maxChars.None? || maxChars.value <= 0 ==> r == text
  {
    if maxChars.Some? && maxChars.value > 0 && |text| > maxChars.value then text[..maxChars.value]
    else text
  }

  /** Truncating an already truncated text changes nothing. */
  lemma TruncateIdempotent(text: string, maxChars: Option<int>)
    ensures Truncate(Truncate(text, maxChars), maxChars) == Truncate(text, maxChars)
  {
  }

  /** The exact cut: a text longer than a positive limit becomes its prefix of that length. */
  lemma TruncateCuts(text: string, n: int)
    requires 0 < n < |text|
    ensures Truncate(text, Some(n)) == text[..n]
  {
  }

  /** `_download_text(url, max_chars)`: a pair (text, error) of which exactly
      one is set; the error is never empty and ends with the failure's
      description, and the text is the truncated body. */
  function DownloadText(url: string, maxChars: Option<int>, fetch: string -> TextReply): (r: (Option<string>, Option<string>))
    ensures r.0.Some? <==> r.1.None?
    ensures fetch(url).TextBody? ==> r.0 == Some(Truncate(fetch(url).body, maxChars))
    ensures fetch(url).TextFailed? ==>
      (r.1.Some? && |r.1.value| > |fetch(url).reason|
       && r.1.value[|r.1.value| - |fetch(url).reason|..] == fetch(url).reason)
  {
    match fetch(url)
    case TextFailed(reason) => (None, Some(DownloadErrorPrefix + reason))
    case TextBody(body) => (Some(Truncate(body, maxChars)), None)
  }
}
