/** The request side of the two interceptors: what the overridden
    `fetch` and the wrapped `XMLHttpRequest` of content.js and inject.js
    do with a request before handing it to the browser. Each finds the
    first matching rule and applies its query edit, body edit and
    redirect; the page script does so only while `config.enabled` is
    truthy, and records a pre-request entry either way.

    The request's URL, method and body are parameters; building the
    `Request` object, the native call and the response are not modelled
    here. */
module Pipeline {
  import opened Common
  import opened Text
  import opened Json
  import opened Url
  import opened Rules
  import opened Matcher
  import opened Transform
  import opened Config

  /** What is handed to the browser: the final URL and body, and the rule
      that matched, if any. */
  datatype Outgoing = Outgoing(url: string, body: Body, rule: Option<Rule>)

  /** The `pre-request` record the page script posts: the URL as given,
      the URL sent, and whether a rule matched. */
  datatype PreRequest = PreRequest(url: string, finalUrl: string, matched: bool)

  /** The rule a search result points at. */
  function RuleAt(rs: seq<Rule>, k: Option<nat>): (r: Option<Rule>)
    ensures r.Some? <==> k.Some? && k.value < |rs|
    ensures r.Some? ==> r.value == rs[k.value]
  {
    if k.Some? && k.value < |rs| then Some(rs[k.value]) else None
  }

  /** The rule's query change, when it has `modify.query`. */
  function QueryOf(r: Rule): Option<QueryChange> {
    if r.modification.Some? then r.modification.value.query else None
  }

  /** The rule's request body change, when it has `modify.body`. */
  function BodyOf(r: Rule): Option<BodyChange> {
    if r.modification.Some? then r.modification.value.body else None
  }

  // ---------------------------------------------------------------------
  // content.js

  /** The URL rewrite of the content script for a matched rule: the query
      edit, then the redirect (an http string replaces the URL; an object
      applies its host and path replacements). */
  function ContentUrlRewrite(uc: UrlCodec, page: Page, r: Rule, url: string): (u: string)
    ensures IsHttpRedirect(r.redirect) ==> u == r.redirect.url
    ensures QueryOf(r).None? && (r.redirect.NoRedirect? || (r.redirect.RedirectTo? && !IsHttpRedirect(r.redirect))) ==> u == url
  {
    var afterQuery := if QueryOf(r).Some? then ContentQueryChange(uc, page, url, QueryOf(r).value) else url;
    ContentRedirect(uc, page, afterQuery, r.redirect)
  }

  /** The overridden `fetch` of content.js up to the native call. The rule
      is searched with the URL as given; a matched rule edits the query
      and, with the init headers, the body, then redirects. A rule cache
      that is neither an array nor a string makes the search throw, and
      the call rejects. */
  function ContentFetch(rx: RegexOracle, uc: UrlCodec, jc: JsonCodec, page: Page, rules: RulesValue,
                        url: string, verb: string, body: Body, h: HeaderSource): (res: Completion<Outgoing>)
    ensures res.Throw? <==> FindIn(rx, ContentScript, AsWritten, url, verb, rules).Throw?
    ensures FindIn(rx, ContentScript, AsWritten, url, verb, rules) == Normal(None) ==> res == Normal(Outgoing(url, body, None))
    ensures var f := FindIn(rx, ContentScript, AsWritten, url, verb, rules);
      f.Normal? && f.value.Some? ==> res.Normal? && res.value.rule == Some(rules.rs[f.value.value])
    ensures res.Normal? && res.value.rule.Some? ==>
      var r := res.value.rule.value;
      MatchRule(rx, ContentScript, AsWritten, url, verb, r) == Normal(true)
      && res.value.url == ContentUrlRewrite(uc, page, r, url)
      && res.value.body == (if BodyOf(r).Some? then ContentBodyChange(jc, body, h, BodyOf(r).value) else body)
  {
    match FindIn(rx, ContentScript, AsWritten, url, verb, rules)
    case Throw(e) => Throw(e)
    case Normal(k) =>
      match RuleAt(Elements(rules).value, k)
      case None => Normal(Outgoing(url, body, None))
      case Some(r) =>
        var newBody := if BodyOf(r).Some? then ContentBodyChange(jc, body, h, BodyOf(r).value) else body;
        Normal(Outgoing(ContentUrlRewrite(uc, page, r, url), newBody, Some(r)))
  }

  /** `new URL(url, location.href).toString()`, or the URL itself when
      it does not parse. */
  function Absolute(uc: UrlCodec, page: Page, url: string): (r: string)
    ensures uc.parse(url, page.href).None? ==> r == url
  {
    match uc.parse(url, page.href)
    case Some(u) => uc.serialize(u)
    case None => url
  }

  /** `xhr.open` of content.js: the rule is searched with the URL as
      given; a matched rule rewrites the absolute form of the URL. */
  function ContentXhrOpen(rx: RegexOracle, uc: UrlCodec, page: Page, rules: RulesValue, url: string, verb: string)
    : (res: Completion<(string, Option<Rule>)>)
    ensures res.Throw? <==> FindIn(rx, ContentScript, AsWritten, url, verb, rules).Throw?
    ensures FindIn(rx, ContentScript, AsWritten, url, verb, rules) == Normal(None) ==> res == Normal((url, None))
    ensures var f := FindIn(rx, ContentScript, AsWritten, url, verb, rules);
      f.Normal? && f.value.Some? ==> res.Normal? && res.value.1 == Some(rules.rs[f.value.value])
    ensures res.Normal? && res.value.1.Some? ==>
      MatchRule(rx, ContentScript, AsWritten, url, verb, res.value.1.value) == Normal(true)
      && res.value.0 == ContentUrlRewrite(uc, page, res.value.1.value, Absolute(uc, page, url))
  {
    match FindIn(rx, ContentScript, AsWritten, url, verb, rules)
    case Throw(e) => Throw(e)
    case Normal(k) =>
      match RuleAt(Elements(rules).value, k)
      case None => Normal((url, None))
      case Some(r) => Normal((ContentUrlRewrite(uc, page, r, Absolute(uc, page, url)), Some(r)))
  }

  /** `xhr.send` of content.js: the body change of the rule chosen at
      `open`, with an empty header object. */
  function ContentXhrSend(jc: JsonCodec, rule: Option<Rule>, body: Body): (r: Body)
    ensures rule.None? || BodyOf(rule.value).None? ==> r == body
    ensures rule.Some? && BodyOf(rule.value).Some? ==> r == ContentBodyChange(jc, body, HeaderMap(map[]), BodyOf(rule.value).value)
  {
    if rule.Some? && BodyOf(rule.value).Some? then ContentBodyChange(jc, body, HeaderMap(map[]), BodyOf(rule.value).value)
    else body
  }

  /** An XMLHttpRequest text body is never JSON-merged by the content
      script: it is string-replaced or sent as it is. */
  lemma ContentXhrTextNeverMerged(jc: JsonCodec, rule: Option<Rule>, s: string)
    ensures var r := ContentXhrSend(jc, rule, TextBody(s));
      r == TextBody(s)
      || (rule.Some? && BodyOf(rule.value).Some? && BodyOf(rule.value).value.stringReplace.Some?
          && r == TextBody(JsReplaceAll(s, BodyOf(rule.value).value.stringReplace.value.from.GetOr(""),
                                        BodyOf(rule.value).value.stringReplace.value.to.GetOr(""))))
  {
    if rule.Some? && BodyOf(rule.value).Some? {
      assert ContentTypeOf(HeaderMap(map[])) == "";
      assert !MentionsJson("") by { assert Lower("") == ""; }
      TextBodyWithoutJsonTypeIsNotMerged(jc, s, HeaderMap(map[]), BodyOf(rule.value).value);
    }
  }

  // ---------------------------------------------------------------------
  // inject.js

  /** The URL rewrite of the page script for a matched rule: the query
      edit, then the redirect (an http string replaces the URL; otherwise
      only `pathReplace` applies). */
  function InjectUrlRewrite(uc: UrlCodec, page: Page, r: Rule, url: string): (u: string)
    ensures IsHttpRedirect(r.redirect) ==> u == r.redirect.url
    ensures QueryOf(r).None? && !r.redirect.RedirectParts? && !IsHttpRedirect(r.redirect) ==> u == url
  {
    var afterQuery := if QueryOf(r).Some? then InjectQueryChange(uc, page, url, QueryOf(r).value) else url;
    InjectRedirect(uc, page, afterQuery, r.redirect)
  }

  /** Whether the page script rewrites: `config.enabled && rule`. */
  predicate Rewrites(c: Config, rule: Option<Rule>) {
    Flag(c, "enabled") && rule.Some?
  }

  /** The overridden `fetch` of inject.js up to the native call. The rule
      is searched with the absolute URL; when interception is enabled a
      matched rule edits the query and body of the request as given and
      redirects. The pre-request record is produced either way. */
  function InjectFetch(rx: RegexOracle, uc: UrlCodec, jc: JsonCodec, page: Page, s: PageState,
                       url: string, verb: string, body: Body): (res: Completion<(Outgoing, PreRequest)>)
    ensures res.Throw? <==> Find(rx, PageScript, AsWritten, Absolute(uc, page, url), verb, s.rules).Throw?
    ensures res.Normal? ==>
      var (out, pre) := res.value;
      pre == PreRequest(url, out.url, out.rule.Some?)
      && (out.rule.Some? <==> Find(rx, PageScript, AsWritten, Absolute(uc, page, url), verb, s.rules).value.Some?)
      && (out.rule.Some? ==> out.rule.value == s.rules[Find(rx, PageScript, AsWritten, Absolute(uc, page, url), verb, s.rules).value.value])
      && (out.rule.Some? ==> MatchRule(rx, PageScript, AsWritten, Absolute(uc, page, url), verb, out.rule.value) == Normal(true))
      && (!Rewrites(s.config, out.rule) ==> out.url == url && out.body == body)
      && (Rewrites(s.config, out.rule) ==>
            out.url == InjectUrlRewrite(uc, page, out.rule.value, url)
            && out.body == (if BodyOf(out.rule.value).Some? then InjectBodyChange(jc, body, BodyOf(out.rule.value).value) else body))
  {
    match Find(rx, PageScript, AsWritten, Absolute(uc, page, url), verb, s.rules)
    case Throw(e) => Throw(e)
    case Normal(k) =>
      var rule := RuleAt(s.rules, k);
      var out :=
        if Rewrites(s.config, rule) then
          var r := rule.value;
          var newBody := if BodyOf(r).Some? then InjectBodyChange(jc, body, BodyOf(r).value) else body;
          Outgoing(InjectUrlRewrite(uc, page, r, url), newBody, rule)
        else Outgoing(url, body, rule);
      Normal((out, PreRequest(url, out.url, rule.Some?)))
  }

  /** `x.open` of inject.js: the rule is searched with the absolute URL;
      when interception is enabled a matched rule rewrites the URL as
      given. */
  function InjectXhrOpen(rx: RegexOracle, uc: UrlCodec, page: Page, s: PageState, url: string, verb: string)
    : (res: Completion<(string, Option<Rule>)>)
    ensures res.Throw? <==> Find(rx, PageScript, AsWritten, Absolute(uc, page, url), verb, s.rules).Throw?
    ensures res.Normal? ==>
      (res.value.1.Some? <==> Find(rx, PageScript, AsWritten, Absolute(uc, page, url), verb, s.rules).value.Some?)
      && (res.value.1.Some? ==> res.value.1.value == s.rules[Find(rx, PageScript, AsWritten, Absolute(uc, page, url), verb, s.rules).value.value])
      && (!Rewrites(s.config, res.value.1) ==> res.value.0 == url)
      && (Rewrites(s.config, res.value.1) ==> res.value.0 == InjectUrlRewrite(uc, page, res.value.1.value, url))
  {
    match Find(rx, PageScript, AsWritten, Absolute(uc, page, url), verb, s.rules)
    case Throw(e) => Throw(e)
    case Normal(k) =>
      var rule := RuleAt(s.rules, k);
      Normal((if Rewrites(s.config, rule) then InjectUrlRewrite(uc, page, rule.value, url) else url, rule))
  }

  /** `x.send` of inject.js: with the configuration current at `send`,
      the body change of the rule chosen at `open`, and the pre-request
      record with the URL given to `open` and the URL it opened. */
  function InjectXhrSend(jc: JsonCodec, c: Config, rule: Option<Rule>, orig: string, sent: string, body: Body)
    : (res: (Body, PreRequest))
    ensures res.1 == PreRequest(orig, sent, rule.Some?)
    ensures !Rewrites(c, rule) || BodyOf(rule.value).None? ==> res.0 == body
    ensures Rewrites(c, rule) && BodyOf(rule.value).Some? ==> res.0 == InjectBodyChange(jc, body, BodyOf(rule.value).value)
  {
    var b := if Rewrites(c, rule) && BodyOf(rule.value).Some? then InjectBodyChange(jc, body, BodyOf(rule.value).value) else body;
    (b, PreRequest(orig, sent, rule.Some?))
  }

  // ---------------------------------------------------------------------
  // Properties across the interceptors

  /** While the page script is disabled, neither `fetch` nor
      XMLHttpRequest changes anything, whatever the rules say; the
      records still say whether a rule matched. */
  lemma DisabledPageScriptChangesNothing(rx: RegexOracle, uc: UrlCodec, jc: JsonCodec, page: Page, s: PageState,
                                         url: string, verb: string, body: Body, rule: Option<Rule>)
    requires !Flag(s.config, "enabled")
    ensures InjectFetch(rx, uc, jc, page, s, url, verb, body).Normal? ==>
      var (out, pre) := InjectFetch(rx, uc, jc, page, s, url, verb, body).value;
      out.url == url && out.body == body && pre.finalUrl == url
    ensures InjectXhrOpen(rx, uc, page, s, url, verb).Normal? ==> InjectXhrOpen(rx, uc, page, s, url, verb).value.0 == url
    ensures InjectXhrSend(jc, s.config, rule, url, url, body).0 == body
  {
  }

  /** The two interceptors of the content script agree: an
      XMLHttpRequest finds the rule `fetch` finds for the same URL and
      method, and sends the body `fetch` would send without init headers.
      Its URL is the rewrite of the absolute form, which is `fetch`'s
      URL whenever the URL given is already absolute. */
  lemma ContentXhrAgreesWithFetch(rx: RegexOracle, uc: UrlCodec, jc: JsonCodec, page: Page, rules: RulesValue,
                                  url: string, verb: string, body: Body)
    ensures var o := ContentXhrOpen(rx, uc, page, rules, url, verb);
      var f := ContentFetch(rx, uc, jc, page, rules, url, verb, body, HeaderMap(map[]));
      (o.Throw? <==> f.Throw?)
      && (o.Normal? ==>
            o.value.1 == f.value.rule
            && ContentXhrSend(jc, o.value.1, body) == f.value.body
            && (Absolute(uc, page, url) == url ==> o.value.0 == f.value.url))
  {
  }

  /** The two interceptors of the page script agree: opening and sending
      an XMLHttpRequest under one configuration sends the URL, body and
      pre-request record `fetch` produces for the same request. */
  lemma InjectXhrAgreesWithFetch(rx: RegexOracle, uc: UrlCodec, jc: JsonCodec, page: Page, s: PageState,
                                 url: string, verb: string, body: Body)
    ensures var o := InjectXhrOpen(rx, uc, page, s, url, verb);
      var f := InjectFetch(rx, uc, jc, page, s, url, verb, body);
      (o.Throw? <==> f.Throw?)
      && (o.Normal? ==>
            var sent := InjectXhrSend(jc, s.config, o.value.1, url, o.value.0, body);
            o.value.1 == f.value.0.rule && o.value.0 == f.value.0.url
            && sent.0 == f.value.0.body && sent.1 == f.value.1)
  {
  }

  /** The content script searches `v || []` and the page script
      `Array.isArray(v) ? v : []`. Both find nothing in a string, so the
      searches differ only on a truthy value that is neither an array nor
      a string: the content script's search throws and the page script's
      finds nothing. */
  lemma StoredReadingsSearchAlike(rx: RegexOracle, ctx: Context, mode: Reading, url: string, verb: string, v: StoredRules)
    ensures v != Some(NotArray(true)) ==>
      FindIn(rx, ctx, mode, url, verb, OrEmpty(v)) == FindIn(rx, ctx, mode, url, verb, RuleArray(ArrayOrEmpty(v)))
    ensures v == Some(NotArray(true)) ==>
      FindIn(rx, ctx, mode, url, verb, OrEmpty(v)) == Throw(TypeError)
      && FindIn(rx, ctx, mode, url, verb, RuleArray(ArrayOrEmpty(v))) == Normal(None)
  {
    ArrayOrEmptyAgreesWithOrEmpty(v);
    assert Find(rx, ctx, mode, url, verb, []) == Normal(None);
  }

  /** A rule with an http string redirect sends the request to that URL
      in both scripts, whatever its query edit would have done. */
  lemma HttpRedirectOverridesQuery(uc: UrlCodec, page: Page, r: Rule, url: string)
    requires IsHttpRedirect(r.redirect)
    ensures ContentUrlRewrite(uc, page, r, url) == r.redirect.url
    ensures InjectUrlRewrite(uc, page, r, url) == r.redirect.url
  {
  }

  /** A host replacement only has an effect in the content script: for a
      rule whose redirect replaces the host alone, the page script's URL is
      just the query edit. */
  lemma HostReplaceIgnoredByPageScript(uc: UrlCodec, page: Page, r: Rule, url: string)
    requires r.redirect.RedirectParts? && r.redirect.pathReplace.None? && QueryOf(r).None?
    ensures InjectUrlRewrite(uc, page, r, url) == url
    ensures r.redirect.hostReplace.Some? ==> ContentUrlRewrite(uc, page, r, url) == ContentHostReplace(uc, page, url, r.redirect.hostReplace.value)
  {
  }

  /** The page script matches the absolute form of a relative URL, the
      content script the URL as given: a rule whose exact URL is the
      absolute form is found by the first and not by the second. */
  lemma RelativeUrlMatchesOnlyInPageScript(rx: RegexOracle, uc: UrlCodec, page: Page, url: string, verb: string, u: Url, r: Rule)
    requires uc.parse(url, page.href) == Some(u) && uc.serialize(u) != url && uc.serialize(u) != ""
    requires r == EmptyRule.(exact := uc.serialize(u))
    ensures Find(rx, PageScript, AsWritten, Absolute(uc, page, url), verb, [r]) == Normal(Some(0))
    ensures Find(rx, ContentScript, AsWritten, url, verb, [r]) == Normal(None)
  {
    var abs := Absolute(uc, page, url);
    assert [abs == r.exact] + [] + [] == [true];
    assert ScalarConds(rx, PageScript, AsWritten, abs, r) == Normal([true]);
    assert MatchRule(rx, PageScript, AsWritten, abs, verb, r) == Normal(true);
    assert [url == r.exact] + [] + [] == [false];
    assert ScalarConds(rx, ContentScript, AsWritten, url, r) == Normal([false]);
    assert MatchRule(rx, ContentScript, AsWritten, url, verb, r) == Normal(false);
    FindFromPasses(rx, ContentScript, AsWritten, url, verb, [r], 0);
  }
}
