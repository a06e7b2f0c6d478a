/**
 * `fetchSiteText(url, maxChars)` of functions/asistente.ts:26-45: download
 * a page, reduce it to plain text, bound its length, and report every
 * failure as a sentinel string instead of throwing.  The HTTP request and
 * `res.text()` are not modelled; their outcome is the FetchOutcome value.
 */
module SiteFetcher {
  import opened JsStrings
  import HtmlText
  import Whitespace

  const TruncationMarker: JsString := Lit(" ...[TRUNCADO]")
  const NoTextSentinel: JsString := Lit("SIN_TEXTO_EXTRAÍDO")
  const DownloadErrorPrefix: JsString := Lit("ERROR_AL_DESCARGAR_SITIO: ")

  /** How the GET request and the read of its body ended. */
  datatype FetchOutcome =
    | Received(status: nat, body: JsString)  // the response and, when read, its text
    | Threw(message: JsString)               // `fetch` or `res.text()` raised; String(e.message || e)

  /** `res.ok`: the status is in the 2xx range. */
  predicate IsOk(status: nat)
  {
    200 <= status <= 299
  }

  /**
   * `if (text.length > maxChars) text = text.slice(0, maxChars) + " ...[TRUNCADO]"`,
   * lengths counted in code units.
   */
  function Truncate(text: JsString, maxChars: nat): (r: JsString)
    ensures |text| <= maxChars ==> r == text
    ensures |text| > maxChars ==> |r| == maxChars + |TruncationMarker|
    ensures |text| > maxChars ==> r[..maxChars] == text[..maxChars] && r[maxChars..] == TruncationMarker
  {
    if |text| > maxChars then text[..maxChars] + TruncationMarker else text
  }

  /** The truncated text is never longer than the bound plus the 14-unit marker. */
  lemma TruncateBound(text: JsString, maxChars: nat)
    ensures |Truncate(text, maxChars)| <= maxChars + 14
    ensures Truncate(text, maxChars) == [] <==> text == []
  {
  }

  /** `text || "SIN_TEXTO_EXTRAÍDO"`: the empty string is falsy. */
  function OrNoText(text: JsString): (r: JsString)
    ensures r != []
    ensures text == [] ==> r == NoTextSentinel
    ensures text != [] ==> r == text
  {
    if text == [] then NoTextSentinel else text
  }

  /** The pure part of fetchSiteText: from the page's HTML to the text handed to the model. */
  function CleanText(html: JsString, maxChars: nat): (r: JsString)
    ensures r != []
  {
    var text := Whitespace.Normalize(HtmlText.StripMarkup(html));
    OrNoText(Truncate(text, maxChars))
  }

  /** fetchSiteText: never throws and never returns the empty string. */
  function FetchSiteText(outcome: FetchOutcome, maxChars: nat): (r: JsString)
    ensures r != []
  {
    match outcome
    case Threw(message) => DownloadErrorPrefix + message
    case Received(status, body) =>
      if !IsOk(status) then DownloadErrorPrefix + Decimal(status)
      else CleanText(body, maxChars)
  }

  /**
   * The result of the cleanup, case by case: a page with no words gives
   * the sentinel; a short one gives its words separated by single spaces,
   * in the normalised shape; a long one gives its first maxChars units and
   * the marker.
   */
  lemma CleanTextCases(html: JsString, maxChars: nat)
    ensures var text := Whitespace.Normalize(HtmlText.StripMarkup(html));
      && (text == [] ==> CleanText(html, maxChars) == NoTextSentinel)
      && (0 < |text| <= maxChars ==>
            && CleanText(html, maxChars) == Whitespace.Join(Whitespace.Words(HtmlText.StripMarkup(html)))
            && Whitespace.Normalized(CleanText(html, maxChars)))
      && (|text| > maxChars ==>
            && |CleanText(html, maxChars)| == maxChars + 14
            && CleanText(html, maxChars)[..maxChars] == text[..maxChars]
            && CleanText(html, maxChars)[maxChars..] == TruncationMarker)
  {
    var stripped := HtmlText.StripMarkup(html);
    Whitespace.NormalizeIsJoinOfWords(stripped);
    Whitespace.NormalizeShape(stripped);
  }

  /** Whatever the page holds, the text is bounded by the longer of the two fixed strings. */
  lemma CleanTextBound(html: JsString, maxChars: nat)
    ensures |CleanText(html, maxChars)| <= if maxChars + 14 < 18 then 18 else maxChars + 14
  {
    TruncateBound(Whitespace.Normalize(HtmlText.StripMarkup(html)), maxChars);
  }

  /** A thrown error is reported with its message after the fixed prefix. */
  lemma ThrownErrorReported(message: JsString, maxChars: nat)
    ensures var r := FetchSiteText(Threw(message), maxChars);
      && |r| == |DownloadErrorPrefix| + |message|
      && r[..|DownloadErrorPrefix|] == DownloadErrorPrefix
      && r[|DownloadErrorPrefix|..] == message
  {
  }

  /**
   * A failed download is reported with the fixed prefix followed by the
   * decimal status, and the status can be read back from it.
   */
  lemma FailedStatusReported(status: nat, body: JsString, maxChars: nat)
    requires !IsOk(status)
    ensures var r := FetchSiteText(Received(status, body), maxChars);
      && r[..|DownloadErrorPrefix|] == DownloadErrorPrefix
      && (forall i :: |DownloadErrorPrefix| <= i < |r| ==> '0' as int <= r[i] <= '9' as int)
      && DigitsValue(r[|DownloadErrorPrefix|..]) == status
  {
    var r := FetchSiteText(Received(status, body), maxChars);
    assert r[|DownloadErrorPrefix|..] == Decimal(status);
    DecimalRoundTrip(status);
  }

  /** A successful download gives the cleaned page, whatever the body. */
  lemma OkStatusCleans(status: nat, body: JsString, maxChars: nat)
    requires IsOk(status)
    ensures FetchSiteText(Received(status, body), maxChars) == CleanText(body, maxChars)
  {
  }
}
