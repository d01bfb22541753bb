/** The response side: the content script's rewrite of a `fetch`
    response by `responseModify` (content.js), the capture of response
    bodies for logging with their size caps (content.js, inject.js), and
    the decisions whether a captured payload is forwarded (content.js,
    inject.js, background.js).

    Header collections are maps from lower-case names to values, as a
    `Headers` object stores them. */
module Response {
  import opened Common
  import opened Text
  import opened Json
  import opened Rules
  import opened Config
  import opened Headers
  import opened Transform

  /** `MAX_BODY_SIZE` of content.js (1 MiB). JavaScript measures it in
      UTF-16 code units, the model in characters; see README.md. */
  const MaxBodySize: nat := 1048576

  /** `MAX` of inject.js. */
  const MaxCapture: nat := 262144

  /** `if (s && s.length > max) s = s.slice(0, max)`. */
  function Cap(s: string, max: nat): (r: string)
    ensures |r| == if |s| > max then max else |s|
    ensures r == s[..|r|]
  {
    if |s| > max then s[..max] else s
  }

  /** Capping keeps short text as it is, and capping twice is capping
      once. */
  lemma CapFacts(s: string, max: nat)
    ensures |s| <= max ==> Cap(s, max) == s
    ensures Cap(Cap(s, max), max) == Cap(s, max)
    ensures |Cap(s, max)| <= max
  {
  }

  // ---------------------------------------------------------------------
  // Rewriting a fetch response (content.js)

  /** A response as the rewrite sees it. */
  datatype Resp = Resp(status: int, statusText: string, headers: map<string, string>, text: string)

  /** The headers and body text of a post-response record. */
  datatype Record = Record(headers: map<string, string>, body: string)

  /** The response the page receives and the post-response record; None
      when the step threw before the record was built, so that nothing is
      logged or forwarded. */
  datatype Rewrite = Rewrite(response: Resp, log: Option<Record>)

  /** Statuses for which `new Response(body, {status})` throws: outside
      200 to 599 (a RangeError), or a null-body status (204, 205, 304)
      given a body, which the empty string also is (a TypeError). */
  predicate RebuildRejects(status: int) {
    status < 200 || status > 599 || status == 204 || status == 205 || status == 304
  }

  /** `newHeaders.get("content-type")` is falsy: absent or empty. */
  predicate LacksContentType(h: map<string, string>) {
    "content-type" !in h || h["content-type"] == ""
  }

  /** The type the Fetch Standard gives a body built from a string. */
  const TextPlain := "text/plain;charset=UTF-8"

  /** The headers of `new Response(text, {headers})`: a string body is
      typed `text/plain;charset=UTF-8` when the header list does not
      contain a Content-Type, as the Fetch Standard's "initialize a
      response" algorithm does. */
  function WithBodyType(h: map<string, string>): (r: map<string, string>)
    ensures "content-type" in r && r.Keys == h.Keys + {"content-type"}
    ensures "content-type" in h ==> r == h
    ensures "content-type" !in h ==> r["content-type"] == TextPlain && forall k :: k in h ==> r[k] == h[k]
  {
    if "content-type" in h then h else h["content-type" := TextPlain]
  }

  /** What `orig` is for a `jsonMerge`: the parsed body, or `{}` for an
      empty body; None when the body does not parse. */
  function MergeBase(jc: JsonCodec, text: string): (o: Option<Json>)
    ensures |text| == 0 ==> o == Some(JObj(map[]))
    ensures |text| > 0 ==> o == jc.parse(text)
  {
    if |text| > 0 then jc.parse(text) else Some(JObj(map[]))
  }

  /** The body part of `responseModify` applied to the response text: a
      truthy `jsonMerge` shallow-merges into the parsed body and sets the
      content type when the response has none (a body that does not parse
      keeps its text and headers); otherwise a `stringReplace` replaces
      every occurrence. */
  function RewriteBody(jc: JsonCodec, rb: BodyChange, text: string, h: map<string, string>)
    : (r: (string, map<string, string>))
    ensures TruthyOpt(rb.jsonMerge) && MergeBase(jc, text).None? ==> r == (text, h)
    ensures TruthyOpt(rb.jsonMerge) && MergeBase(jc, text).Some? ==>
      r.0 == jc.stringify(JObj(Spread(Props(MergeBase(jc, text).value), Props(rb.jsonMerge.value))))
      && (LacksContentType(h) ==> r.1 == h["content-type" := "application/json"])
      && (!LacksContentType(h) ==> r.1 == h)
    ensures !TruthyOpt(rb.jsonMerge) ==> r.1 == h
    ensures !TruthyOpt(rb.jsonMerge) && rb.stringReplace.None? ==> r.0 == text
    ensures !TruthyOpt(rb.jsonMerge) && rb.stringReplace.Some? ==>
      r.0 == JsReplaceAll(text, rb.stringReplace.value.from.GetOr(""), rb.stringReplace.value.to.GetOr(""))
  {
    if TruthyOpt(rb.jsonMerge) then
      match MergeBase(jc, text)
      case None => (text, h)
      case Some(orig) =>
        var merged := Spread(Props(orig), Props(rb.jsonMerge.value));
        (jc.stringify(JObj(merged)), if LacksContentType(h) then h["content-type" := "application/json"] else h)
    else if rb.stringReplace.Some? then
      (JsReplaceAll(text, rb.stringReplace.value.from.GetOr(""), rb.stringReplace.value.to.GetOr("")), h)
    else (text, h)
  }

  /** Whether the rule rebuilds the response (`rule && rule.responseModify`). */
  predicate Modifies(rule: Option<Rule>) {
    rule.Some? && rule.value.responseModify.Some?
  }

  /** The post-response step of the content script's `fetch`: a matched
      rule with `responseModify` rebuilds the response with its body
      rewritten and capped, keeping status and status text, and the record
      carries the new body and the edited headers, which do not include
      the type the rebuilt response may add; otherwise the record carries
      the original headers and capped body. When the rebuild throws for
      the response's status, the surrounding `catch` keeps the original
      response and no record is built. */
  function ContentResponse(jc: JsonCodec, rule: Option<Rule>, resp: Resp): (r: Rewrite)
    ensures r.response.status == resp.status && r.response.statusText == resp.statusText
    ensures !Modifies(rule) ==> r == Rewrite(resp, Some(Record(resp.headers, Cap(resp.text, MaxBodySize))))
    ensures Modifies(rule) && RebuildRejects(resp.status) ==> r == Rewrite(resp, None)
    ensures Modifies(rule) && !RebuildRejects(resp.status) ==>
      r.log.Some? && |r.response.text| <= MaxBodySize && r.log.value.body == r.response.text
      && r.response.headers == WithBodyType(r.log.value.headers)
    ensures Modifies(rule) && !RebuildRejects(resp.status) && rule.value.responseModify.value.body.None? ==>
      r.response == resp.(text := Cap(resp.text, MaxBodySize), headers := WithBodyType(resp.headers))
      && r.log == Some(Record(resp.headers, r.response.text))
    ensures Modifies(rule) && !RebuildRejects(resp.status) && rule.value.responseModify.value.body.Some? ==>
      var (text, h) := RewriteBody(jc, rule.value.responseModify.value.body.value, resp.text, resp.headers);
      r.response == resp.(text := Cap(text, MaxBodySize), headers := WithBodyType(h))
      && r.log == Some(Record(h, r.response.text))
  {
    if Modifies(rule) then
      var rm := rule.value.responseModify.value;
      var (text, h) := if rm.body.Some? then RewriteBody(jc, rm.body.value, resp.text, resp.headers) else (resp.text, resp.headers);
      var finalText := Cap(text, MaxBodySize);
      if RebuildRejects(resp.status) then Rewrite(resp, None)
      else Rewrite(resp.(text := finalText, headers := WithBodyType(h)), Some(Record(h, Cap(finalText, MaxBodySize))))
    else Rewrite(resp, Some(Record(resp.headers, Cap(resp.text, MaxBodySize))))
  }

  /** A rebuilt response always has a content type. When neither the
      response nor the body change supplies one, the page sees
      `text/plain;charset=UTF-8` while the record shows no content
      type. */
  lemma RebuiltResponseIsTyped(jc: JsonCodec, r: Rule, resp: Resp)
    requires r.responseModify.Some? && !RebuildRejects(resp.status)
    ensures "content-type" in ContentResponse(jc, Some(r), resp).response.headers
    ensures "content-type" !in resp.headers && r.responseModify.value.body.None? ==>
      var out := ContentResponse(jc, Some(r), resp);
      out.response.headers["content-type"] == TextPlain && "content-type" !in out.log.value.headers
  {
  }

  /** A 204 response to a rule that rewrites responses reaches the page
      unchanged, and nothing is recorded. */
  lemma NoContentResponseIsKept(jc: JsonCodec, r: Rule, resp: Resp)
    requires r.responseModify.Some? && resp.status == 204
    ensures ContentResponse(jc, Some(r), resp) == Rewrite(resp, None)
  {
  }

  /** A JSON merge into a response whose body is a JSON object: when the
      merged text fits under the cap, it parses back to the object in
      which every merged name holds the merged value and every other name
      keeps its value, and a present content type is left alone. */
  lemma ResponseMergeResult(jc: JsonCodec, r: Rule, resp: Resp, fields: map<string, Json>)
    requires RoundTrips(jc)
    requires r.responseModify.Some? && r.responseModify.value.body.Some?
    requires TruthyOpt(r.responseModify.value.body.value.jsonMerge)
    requires jc.parse(resp.text) == Some(JObj(fields)) && |resp.text| > 0
    requires |jc.stringify(JObj(Spread(fields, Props(r.responseModify.value.body.value.jsonMerge.value))))| <= MaxBodySize
    ensures var out := ContentResponse(jc, Some(r), resp).response;
      var m := Props(r.responseModify.value.body.value.jsonMerge.value);
      !RebuildRejects(resp.status) ==>
      jc.parse(out.text) == Some(JObj(Spread(fields, m)))
      && (forall k :: k in m ==> Spread(fields, m)[k] == m[k])
      && (forall k :: k in fields && k !in m ==> Spread(fields, m)[k] == fields[k])
      && (!LacksContentType(resp.headers) ==> out.headers == resp.headers)
  {
  }

  /** An empty response body counts as `{}`: the rewritten body is the
      merge object's own properties, and the content type becomes JSON
      when the response has none. */
  lemma EmptyResponseMergesIntoEmptyObject(jc: JsonCodec, r: Rule, resp: Resp)
    requires r.responseModify.Some? && r.responseModify.value.body.Some?
    requires TruthyOpt(r.responseModify.value.body.value.jsonMerge)
    requires resp.text == ""
    ensures var out := ContentResponse(jc, Some(r), resp).response;
      !RebuildRejects(resp.status) ==>
      out.text == Cap(jc.stringify(JObj(Props(r.responseModify.value.body.value.jsonMerge.value))), MaxBodySize)
      && (LacksContentType(resp.headers) ==> out.headers == resp.headers["content-type" := "application/json"])
  {
    SpreadIdentity(Props(r.responseModify.value.body.value.jsonMerge.value));
  }

  /** `jsonMerge` takes precedence: with a truthy `jsonMerge`, the
      `stringReplace` of the same body change is never applied. */
  lemma MergeShadowsStringReplace(jc: JsonCodec, rb: BodyChange, text: string, h: map<string, string>, sr: StringReplace)
    requires TruthyOpt(rb.jsonMerge)
    ensures RewriteBody(jc, rb.(stringReplace := Some(sr)), text, h) == RewriteBody(jc, rb.(stringReplace := None), text, h)
  {
  }

  // ---------------------------------------------------------------------
  // Capturing response bodies for the log

  /** The page script's `fetch` capture before the cap, as written: a
      content type containing "application/json" (compared with case)
      reads the body with `json()` and re-serialises it; when that fails
      the body stream is already consumed, so the `text()` fallback fails
      too and the capture stays "". */
  function CaptureAsWritten(jc: JsonCodec, ct: string, text: string): (r: string)
    ensures !Contains(ct, "application/json") ==> r == text
    ensures Contains(ct, "application/json") && jc.parse(text).Some? ==> r == jc.stringify(jc.parse(text).value)
    ensures Contains(ct, "application/json") && jc.parse(text).None? ==> r == ""
  {
    if Contains(ct, "application/json") then
      match jc.parse(text)
      case Some(j) => jc.stringify(j)
      case None => ""
    else text
  }

  /** The capture the fallback evidently intends: a JSON body that does
      not parse is logged as its text. */
  function Capture(jc: JsonCodec, ct: string, text: string): (r: string)
    ensures !Contains(ct, "application/json") ==> r == text
    ensures Contains(ct, "application/json") && jc.parse(text).Some? ==> r == jc.stringify(jc.parse(text).value)
    ensures Contains(ct, "application/json") && jc.parse(text).None? ==> r == text
  {
    if Contains(ct, "application/json") then
      match jc.parse(text)
      case Some(j) => jc.stringify(j)
      case None => text
    else text
  }

  /** As written, a response labelled JSON whose body does not parse is
      logged with an empty body; the corrected capture keeps the text. The
      two agree on every body that parses and on every other content
      type. */
  lemma CaptureFallbackLost(jc: JsonCodec, ct: string, text: string)
    ensures Contains(ct, "application/json") && jc.parse(text).None? && |text| > 0 ==>
      CaptureAsWritten(jc, ct, text) == "" && Capture(jc, ct, text) == text && CaptureAsWritten(jc, ct, text) != Capture(jc, ct, text)
    ensures !Contains(ct, "application/json") || jc.parse(text).Some? ==>
      CaptureAsWritten(jc, ct, text) == Capture(jc, ct, text)
  {
  }

  /** The capture of a `fetch` response in a reading. */
  function CaptureIn(jc: JsonCodec, ct: string, text: string, mode: Reading): string {
    if mode.AsWritten? then CaptureAsWritten(jc, ct, text) else Capture(jc, ct, text)
  }

  /** The body the page script logs for a `fetch` response: the capture,
      cut to `MAX` characters. */
  function InjectFetchLogBody(jc: JsonCodec, ct: string, text: string, mode: Reading): (r: string)
    ensures |r| <= MaxCapture && |r| <= |CaptureIn(jc, ct, text, mode)|
    ensures r == CaptureIn(jc, ct, text, mode)[..|r|]
    ensures |CaptureIn(jc, ct, text, mode)| <= MaxCapture ==> r == CaptureIn(jc, ct, text, mode)
  {
    Cap(CaptureIn(jc, ct, text, mode), MaxCapture)
  }

  /** As written, the page script logs an empty body for a response
      labelled JSON whose text does not parse; corrected, it logs the
      start of the text. On every other response the two logs agree. */
  lemma InjectFetchLogFallback(jc: JsonCodec, ct: string, text: string)
    ensures Contains(ct, "application/json") && jc.parse(text).None? ==>
      InjectFetchLogBody(jc, ct, text, AsWritten) == ""
      && InjectFetchLogBody(jc, ct, text, Corrected) == Cap(text, MaxCapture)
    ensures !Contains(ct, "application/json") || jc.parse(text).Some? ==>
      InjectFetchLogBody(jc, ct, text, AsWritten) == InjectFetchLogBody(jc, ct, text, Corrected)
  {
    CaptureFallbackLost(jc, ct, text);
  }

  /** What an XMLHttpRequest `load` handler logs: the response text under
      the script's cap and the parsed header block. */
  datatype XhrLog = XhrLog(body: string, headers: map<string, string>)

  function XhrLoad(max: nat, responseText: string, rawHeaders: string): (r: XhrLog)
    ensures |r.body| <= max && |r.body| <= |responseText| && r.body == responseText[..|r.body|]
    ensures |responseText| <= max ==> r.body == responseText
    ensures forall k :: k in r.headers ==> Lower(k) == k
  {
    XhrLog(Cap(responseText, max), ParseHeaderBlock(rawHeaders))
  }

  /** The content script logs up to four times as much of a response as
      the page script. */
  lemma ContentCapsAboveInject(responseText: string, raw: string)
    ensures |XhrLoad(MaxCapture, responseText, raw).body| <= |XhrLoad(MaxBodySize, responseText, raw).body|
    ensures XhrLoad(MaxCapture, responseText, raw).body == XhrLoad(MaxBodySize, responseText, raw).body[..|XhrLoad(MaxCapture, responseText, raw).body|]
  {
  }

  // ---------------------------------------------------------------------
  // Forwarding

  /** `shouldForward(rule)` of content.js: the rule opts in with
      `forward === true` and the cached configuration has a forward URL. */
  predicate ContentShouldForward(rule: Option<Rule>, config: Json) {
    rule.Some? && rule.value.forward == Some(true) && TruthyOpt(ForwardUrl(config))
  }

  /** The post-response record of a content-script `fetch` that is posted
      for forwarding: the record, when it was built and `shouldForward`
      holds. */
  function ContentForwarded(jc: JsonCodec, rule: Option<Rule>, config: Json, resp: Resp): (body: Option<string>)
    ensures body.Some? ==> ContentShouldForward(rule, config) && |body.value| <= MaxBodySize
    ensures body.Some? ==> !Modifies(rule) || !RebuildRejects(resp.status)
    ensures ContentShouldForward(rule, config) && !(Modifies(rule) && RebuildRejects(resp.status)) ==> body.Some?
    ensures body.Some? && Modifies(rule) ==> body.value == ContentResponse(jc, rule, resp).response.text
  {
    var out := ContentResponse(jc, rule, resp);
    if out.log.Some? && ContentShouldForward(rule, config) then Some(out.log.value.body) else None
  }

  /** The page script posts a payload for forwarding when it is enabled
      and the rule has `forward === true`. */
  predicate InjectShouldForward(c: Config, rule: Option<Rule>) {
    Flag(c, "enabled") && rule.Some? && rule.value.forward == Some(true)
  }

  /** Where a page-script payload ends up: the background posts it only
      if the page script asked for forwarding and the background's
      `forward` has `enabled` and a URL. */
  function PageForwardTarget(page: Config, background: Config, rule: Option<Rule>): (r: Option<Json>)
    ensures r.Some? <==> InjectShouldForward(page, rule) && ForwardPayloadTarget(background).Some?
    ensures r.Some? ==> r == ForwardPayloadTarget(background)
  {
    if InjectShouldForward(page, rule) then ForwardPayloadTarget(background) else None
  }

  /** Forwarding is opt-in per rule: without `forward === true` neither
      script forwards, whatever the configuration says. */
  lemma ForwardIsOptIn(jc: JsonCodec, rule: Option<Rule>, config: Json, resp: Resp, c: Config, background: Config)
    requires rule.None? || rule.value.forward != Some(true)
    ensures !ContentShouldForward(rule, config)
    ensures ContentForwarded(jc, rule, config, resp).None?
    ensures !InjectShouldForward(c, rule)
    ensures PageForwardTarget(c, background, rule).None?
  {
  }

  /** With the background's defaults nothing a page script asks for is
      posted. */
  lemma DefaultBackgroundNeverForwards(page: Config, rule: Option<Rule>)
    ensures PageForwardTarget(page, DefaultConfig, rule).None?
  {
    DefaultsDoNotForward();
  }
}
