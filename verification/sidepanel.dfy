/** The side panel's edits of the stored rule list and configuration
    (sidepanel.js): the per-rule forward and enabled checkboxes, delete,
    the rule wizard's confirm (replace or append) and its read-back when a
    rule is opened for editing, and the configuration the master switch
    writes. Reading the DOM becomes the fields of `WizardInput`; storing
    and messaging the result is left out. */
module SidePanel {
  import opened Common
  import opened Text
  import opened Json
  import opened Url
  import opened Rules
  import opened Matcher
  import opened Config
  import opened Transform
  import opened Response
  import Dnr

  // ---------------------------------------------------------------------
  // Rule table

  /** The table ticks a rule's forward box unless `forward === false`. */
  predicate ForwardBoxChecked(r: Rule) {
    r.forward != Some(false)
  }

  /** The table ticks a rule's enabled box unless `enabled === false`. */
  predicate EnabledBoxChecked(r: Rule) {
    r.enabled != Some(false)
  }

  /** The forward checkbox as written: unticking stores `forward: false`,
      ticking deletes `forward`. Only that rule's `forward` changes. */
  function ForwardToggle(rules: seq<Rule>, idx: nat, checked: bool): (r: seq<Rule>)
    requires idx < |rules|
    ensures |r| == |rules|
    ensures forall j :: 0 <= j < |r| && j != idx ==> r[j] == rules[j]
    ensures r[idx] == rules[idx].(forward := r[idx].forward)
    ensures ForwardBoxChecked(r[idx]) == checked
    ensures r[idx].forward != Some(true)
  {
    rules[idx := rules[idx].(forward := if checked then None else Some(false))]
  }

  /** Ticking the box shows the rule as forwarding, yet neither script
      forwards its traffic, whatever the configuration: both require
      `forward === true`, which the toggle never stores. */
  lemma TickedForwardBoxNeverForwards(jc: JsonCodec, rules: seq<Rule>, idx: nat, config: Json, resp: Resp, page: Config, background: Config)
    requires idx < |rules|
    ensures ForwardBoxChecked(ForwardToggle(rules, idx, true)[idx])
    ensures ContentForwarded(jc, Some(ForwardToggle(rules, idx, true)[idx]), config, resp).None?
    ensures PageForwardTarget(page, background, Some(ForwardToggle(rules, idx, true)[idx])).None?
  {
    ForwardIsOptIn(jc, Some(ForwardToggle(rules, idx, true)[idx]), config, resp, page, background);
  }

  /** The forward box as it evidently should read: ticked exactly when the
      rule opts in with `forward === true`. */
  predicate ForwardBoxCheckedOptIn(r: Rule) {
    r.forward == Some(true)
  }

  /** The forward checkbox corrected: the box's state is stored as
      `forward`. */
  function ForwardToggleOptIn(rules: seq<Rule>, idx: nat, checked: bool): (r: seq<Rule>)
    requires idx < |rules|
    ensures |r| == |rules|
    ensures forall j :: 0 <= j < |r| && j != idx ==> r[j] == rules[j]
    ensures r[idx] == rules[idx].(forward := r[idx].forward)
    ensures ForwardBoxCheckedOptIn(r[idx]) == checked
  {
    rules[idx := rules[idx].(forward := Some(checked))]
  }

  /** With the corrected toggle the box says what the scripts do: a
      rule's traffic is forwarded exactly when its box is ticked and the
      configuration allows forwarding at all. */
  lemma ForwardBoxMeansForwarding(rules: seq<Rule>, idx: nat, checked: bool, config: Json, page: Config)
    requires idx < |rules|
    ensures var r := ForwardToggleOptIn(rules, idx, checked)[idx];
      (ContentShouldForward(Some(r), config) <==> ForwardBoxCheckedOptIn(r) && TruthyOpt(ForwardUrl(config)))
      && (InjectShouldForward(page, Some(r)) <==> ForwardBoxCheckedOptIn(r) && Flag(page, "enabled"))
      && (ForwardBoxCheckedOptIn(r) <==> checked)
  {
  }

  /** The enabled checkbox: `{...rule, enabled: checked}`. */
  function EnabledToggle(rules: seq<Rule>, idx: nat, checked: bool): (r: seq<Rule>)
    requires idx < |rules|
    ensures |r| == |rules|
    ensures forall j :: 0 <= j < |r| && j != idx ==> r[j] == rules[j]
    ensures r[idx] == rules[idx].(enabled := r[idx].enabled)
    ensures EnabledBoxChecked(r[idx]) == checked
  {
    rules[idx := rules[idx].(enabled := Some(checked))]
  }

  /** Unticking takes the rule out of both scripts' search and out of the
      redirect rules the service worker installs; ticking puts it back
      wherever its redirect qualifies. */
  lemma EnabledToggleGovernsRule(rules: seq<Rule>, idx: nat, checked: bool, ctx: Context, mode: Reading)
    requires idx < |rules|
    ensures var r := EnabledToggle(rules, idx, checked)[idx];
      (Skipped(ctx, r) <==> !checked && ctx != ServiceWorker)
      && (!checked ==> !Dnr.Compiles(r, mode))
      && (checked ==> (Dnr.Eligible(r) <==> IsHttpRedirect(rules[idx].redirect)))
  {
  }

  /** `rulesCache.splice(idx, 1)`: removes the element at `idx`, keeping
      the others in order; an index past the end removes nothing. */
  function DeleteAt(rules: seq<Rule>, idx: nat): (r: seq<Rule>)
    ensures idx >= |rules| ==> r == rules
    ensures idx < |rules| ==>
      (|r| == |rules| - 1
      && (forall j :: 0 <= j < idx ==> r[j] == rules[j])
      && (forall j :: idx <= j < |r| ==> r[j] == rules[j + 1]))
  {
    if idx < |rules| then rules[..idx] + rules[idx + 1..] else rules
  }

  /** Deleting removes exactly one copy of the deleted rule. */
  lemma DeleteAtMultiset(rules: seq<Rule>, idx: nat)
    requires idx < |rules|
    ensures multiset(DeleteAt(rules, idx)) + multiset{rules[idx]} == multiset(rules)
  {
    assert rules == rules[..idx] + [rules[idx]] + rules[idx + 1..];
  }

  // ---------------------------------------------------------------------
  // Rule wizard

  /** What the wizard's fields hold when confirm is clicked. */
  datatype WizardInput = WizardInput(
    name: string,
    matchType: string,
    pattern: string,
    headerRows: seq<Pair>,
    queryRows: seq<Pair>,
    reqBody: string,
    pathFrom: string,
    pathTo: string,
    resHeaderRows: seq<Pair>,
    resBody: string)

  /** A table's rows with key and value trimmed, dropping rows whose key is
      blank. */
  function TrimRows(raw: seq<Pair>): (r: seq<Pair>)
    ensures |r| <= |raw|
    ensures forall i :: 0 <= i < |r| ==> |r[i].0| > 0
    decreases |raw|
  {
    if |raw| == 0 then []
    else
      var row := (Trim(raw[0].0), Trim(raw[0].1));
      (if |row.0| > 0 then [row] else []) + TrimRows(raw[1..])
  }

  /** A row with a non-blank key survives, trimmed. */
  lemma {:induction false} TrimRowsKeeps(raw: seq<Pair>, i: nat)
    requires i < |raw| && |Trim(raw[i].0)| > 0
    ensures (Trim(raw[i].0), Trim(raw[i].1)) in TrimRows(raw)
    decreases |raw|
  {
    if i > 0 {
      TrimRowsKeeps(raw[1..], i - 1);
    }
  }

  /** The fields as confirm reads them: every text trimmed, every table
      through `TrimRows`; the match type is read as it is. */
  function Read(w: WizardInput): WizardInput {
    WizardInput(Trim(w.name), w.matchType, Trim(w.pattern),
      TrimRows(w.headerRows), TrimRows(w.queryRows), Trim(w.reqBody),
      Trim(w.pathFrom), Trim(w.pathTo), TrimRows(w.resHeaderRows), Trim(w.resBody))
  }

  /** `Object.fromEntries(rows)`: every key occurs once, holding the value
      of its last row. */
  function FromEntries(rows: seq<Pair>): (r: seq<Pair>)
    ensures forall k :: Named(r, k) == (match Lookup(rows, k) case Some(v) => [v] case None => [])
  {
    SetAll([], rows)
  }

  /** No rows make the empty object. */
  lemma FromEntriesEmpty()
    ensures FromEntries([]) == []
  {
    assert SetAll([], []) == [];
  }

  /** An editor's text as a body change: JSON becomes `jsonMerge`, any
      other non-empty text `stringReplace` from "" to the text. */
  function BodyFromText(jc: JsonCodec, text: string): (b: Option<BodyChange>)
    ensures b.None? <==> |text| == 0
    ensures b.Some? ==> b.value.remove == [] && b.value.setEntries == []
    ensures b.Some? && jc.parse(text).Some? ==> b.value.jsonMerge == jc.parse(text) && b.value.stringReplace.None?
    ensures b.Some? && jc.parse(text).None? ==>
      b.value.jsonMerge.None? && b.value.stringReplace == Some(StringReplace(Some(""), Some(text)))
  {
    if |text| == 0 then None
    else match jc.parse(text)
      case Some(j) => Some(BodyChange(Some(j), None, [], []))
      case None => Some(BodyChange(None, Some(StringReplace(Some(""), Some(text))), [], []))
  }

  /** `rule.modify` rebuilt from read fields: absent unless a header row,
      a query row or a request body was given. */
  function BuildModify(jc: JsonCodec, t: WizardInput): (m: Option<Modify>)
    ensures m.None? <==> |t.headerRows| == 0 && |t.queryRows| == 0 && |t.reqBody| == 0
    ensures m.Some? ==> m.value.body == BodyFromText(jc, t.reqBody)
    ensures m.Some? ==> (m.value.headers.Some? <==> |t.headerRows| > 0) && (m.value.query.Some? <==> |t.queryRows| > 0)
    ensures m.Some? && m.value.headers.Some? ==> m.value.headers.value == HeaderChange(FromEntries(t.headerRows), [])
    ensures m.Some? && m.value.query.Some? ==> m.value.query.value == QueryChange(FromEntries(t.queryRows), [])
  {
    var body := BodyFromText(jc, t.reqBody);
    if |t.headerRows| == 0 && |t.queryRows| == 0 && body.None? then None
    else Some(Modify(
      if |t.headerRows| > 0 then Some(HeaderChange(FromEntries(t.headerRows), [])) else None,
      if |t.queryRows| > 0 then Some(QueryChange(FromEntries(t.queryRows), [])) else None,
      body))
  }

  /** `rule.responseModify` rebuilt the same way from the response
      fields. */
  function BuildResponseModify(jc: JsonCodec, t: WizardInput): (m: Option<ResponseModify>)
    ensures m.None? <==> |t.resHeaderRows| == 0 && |t.resBody| == 0
    ensures m.Some? ==> m.value.body == BodyFromText(jc, t.resBody)
    ensures m.Some? ==> (m.value.headers.Some? <==> |t.resHeaderRows| > 0)
    ensures m.Some? && m.value.headers.Some? ==> m.value.headers.value == HeaderChange(FromEntries(t.resHeaderRows), [])
  {
    var body := BodyFromText(jc, t.resBody);
    if |t.resHeaderRows| == 0 && body.None? then None
    else Some(ResponseModify(if |t.resHeaderRows| > 0 then Some(HeaderChange(FromEntries(t.resHeaderRows), [])) else None, body))
  }

  /** The redirect after confirm: a path replacement replaces the whole
      redirect only when both its ends are non-empty. */
  function PathRedirect(current: Redirect, from: string, to: string): (r: Redirect)
    ensures |from| == 0 || |to| == 0 ==> r == current
    ensures |from| > 0 && |to| > 0 ==> r == RedirectParts(None, Some(Single(ReplacePair(Some(from), Some(to)))))
  {
    if |from| > 0 && |to| > 0 then RedirectParts(None, Some(Single(ReplacePair(Some(from), Some(to)))))
    else current
  }

  /** The `wildcard` and `regex` fields confirm writes: the pattern goes
      to `wildcard` when that type is chosen and to `regex` otherwise. */
  function PatternFields(matchType: string, pattern: string): (f: (string, string))
    ensures f.0 + f.1 == pattern
    ensures |f.0| == 0 || |f.1| == 0
    ensures |f.0| > 0 ==> matchType == "wildcard"
    ensures |f.1| > 0 ==> matchType != "wildcard"
  {
    if matchType == "wildcard" then (pattern, "") else ("", pattern)
  }

  /** The rule confirm builds from `base` (`{}` for a new rule, a copy of
      the edited rule otherwise) and the read fields: the three conditions
      are cleared and the pattern set as a wildcard or a regular
      expression, a blank name is dropped, and the request and response
      changes are rebuilt; method, enabled, sub-rules and forward are
      kept. */
  function BuildRule(jc: JsonCodec, base: Rule, t: WizardInput): (r: Rule)
    ensures r.exact == ""
    ensures (r.wildcard, r.regex) == PatternFields(t.matchType, t.pattern)
    ensures r.name.Some? <==> |t.name| > 0
    ensures r.name.Some? ==> r.name.value == t.name
    ensures r.modification == BuildModify(jc, t)
    ensures r.redirect == PathRedirect(base.redirect, t.pathFrom, t.pathTo)
    ensures r.responseModify == BuildResponseModify(jc, t)
    ensures r.enabled == base.enabled && r.httpMethod == base.httpMethod && r.forward == base.forward
    ensures r.any == base.any && r.all == base.all
  {
    var f := PatternFields(t.matchType, t.pattern);
    base.(
      name := if |t.name| > 0 then Some(t.name) else None,
      exact := "",
      wildcard := f.0,
      regex := f.1,
      modification := BuildModify(jc, t),
      redirect := PathRedirect(base.redirect, t.pathFrom, t.pathTo),
      responseModify := BuildResponseModify(jc, t))
  }

  /** Confirm on the read fields (`Read` of what the wizard holds): a
      blank pattern saves nothing; an edit replaces the rule at
      `editingIndex` with one built from a copy of it, a new rule is
      appended. Editing an index past the end serialises `undefined`,
      and parsing that throws a SyntaxError. */
  function ConfirmRule(jc: JsonCodec, rules: seq<Rule>, editingIndex: int, t: WizardInput): (res: Completion<seq<Rule>>)
    ensures |t.pattern| == 0 ==> res == Normal(rules)
    ensures |t.pattern| > 0 && editingIndex >= |rules| ==> res == Throw(SyntaxError)
    ensures |t.pattern| > 0 && 0 <= editingIndex < |rules| ==>
      res.Normal? && |res.value| == |rules|
      && (forall j :: 0 <= j < |rules| && j != editingIndex ==> res.value[j] == rules[j])
      && res.value[editingIndex] == BuildRule(jc, rules[editingIndex], t)
    ensures |t.pattern| > 0 && editingIndex < 0 ==>
      res.Normal? && |res.value| == |rules| + 1 && res.value[..|rules|] == rules
      && res.value[|rules|] == BuildRule(jc, EmptyRule, t)
  {
    if |t.pattern| == 0 then Normal(rules)
    else if editingIndex >= |rules| then Throw(SyntaxError)
    else if editingIndex >= 0 then Normal(rules[editingIndex := BuildRule(jc, rules[editingIndex], t)])
    else Normal(rules + [BuildRule(jc, EmptyRule, t)])
  }

  /** What `fillWizardFromRule` shows for a rule. */
  datatype WizardView = WizardView(
    name: string,
    matchType: string,
    pattern: string,
    pathFrom: string,
    pathTo: string,
    headerRows: seq<Pair>,
    queryRows: seq<Pair>,
    resHeaderRows: seq<Pair>)

  /** `fillWizardFromRule`: the wizard has no exact type, so an exact rule
      is shown as a regular expression whose text is the URL. */
  function Fill(r: Rule): (v: WizardView)
    ensures v.matchType == "wildcard" || v.matchType == "regex"
    ensures |r.wildcard| > 0 ==> v.matchType == "wildcard" && v.pattern == r.wildcard
    ensures |r.wildcard| == 0 && |r.regex| > 0 ==> v.matchType == "regex" && v.pattern == r.regex
    ensures |r.wildcard| == 0 && |r.regex| == 0 && |r.exact| > 0 ==> v.matchType == "regex" && v.pattern == r.exact
  {
    var matchType := if |r.wildcard| > 0 then "wildcard" else if |r.regex| > 0 then "regex"
      else if |r.exact| > 0 then "regex" else "wildcard";
    var pattern := if |r.wildcard| > 0 then r.wildcard else if |r.regex| > 0 then r.regex else r.exact;
    var path := PathOf(r.redirect);
    WizardView(r.name.GetOr(""), matchType, pattern, path.0, path.1, HeaderRowsOf(r), QueryRowsOf(r), ResHeaderRowsOf(r))
  }

  /** The path replacement's ends, "" when absent or given as a list. */
  function PathOf(rd: Redirect): (string, string) {
    match rd
    case RedirectParts(_, Some(Single(p))) => (p.from.GetOr(""), p.to.GetOr(""))
    case _ => ("", "")
  }

  /** The rows of `modify.headers.set`, none when it is absent. */
  function HeaderRowsOf(r: Rule): seq<Pair> {
    if r.modification.Some? && r.modification.value.headers.Some? then r.modification.value.headers.value.setEntries else []
  }

  /** The rows of `modify.query.set`. */
  function QueryRowsOf(r: Rule): seq<Pair> {
    if r.modification.Some? && r.modification.value.query.Some? then r.modification.value.query.value.setEntries else []
  }

  /** The rows of `responseModify.headers.set`. */
  function ResHeaderRowsOf(r: Rule): seq<Pair> {
    if r.responseModify.Some? && r.responseModify.value.headers.Some? then r.responseModify.value.headers.value.setEntries else []
  }

  /** Confirm then edit shows what was read: the name and pattern, and the
      chosen type, where anything but "wildcard" reads back as "regex". */
  lemma WizardRoundTrip(jc: JsonCodec, base: Rule, t: WizardInput)
    requires |t.pattern| > 0
    ensures var v := Fill(BuildRule(jc, base, t));
      v.name == t.name
      && v.pattern == t.pattern
      && v.matchType == (if t.matchType == "wildcard" then "wildcard" else "regex")
  {
    var r := BuildRule(jc, base, t);
    if t.matchType == "wildcard" {
      assert r.wildcard == t.pattern;
    } else {
      assert r.wildcard == "" && r.regex == t.pattern;
    }
  }

  /** A path replacement given in full reads back as entered. */
  lemma WizardPathRoundTrip(jc: JsonCodec, base: Rule, t: WizardInput)
    requires |t.pathFrom| > 0 && |t.pathTo| > 0
    ensures var v := Fill(BuildRule(jc, base, t));
      v.pathFrom == t.pathFrom && v.pathTo == t.pathTo
  {
    var r := BuildRule(jc, base, t);
    assert r.redirect == PathRedirect(base.redirect, t.pathFrom, t.pathTo);
    assert PathOf(r.redirect) == (t.pathFrom, t.pathTo);
  }

  /** Each table reads back as `Object.fromEntries` of its rows. */
  lemma WizardRowsRoundTrip(jc: JsonCodec, base: Rule, t: WizardInput)
    ensures HeaderRowsOf(BuildRule(jc, base, t)) == FromEntries(t.headerRows)
    ensures QueryRowsOf(BuildRule(jc, base, t)) == FromEntries(t.queryRows)
    ensures ResHeaderRowsOf(BuildRule(jc, base, t)) == FromEntries(t.resHeaderRows)
  {
    var r := BuildRule(jc, base, t);
    assert r.modification == BuildModify(jc, t);
    assert r.responseModify == BuildResponseModify(jc, t);
    FromEntriesEmpty();
  }

  /** Opening an exact rule and confirming it unchanged turns it into a
      regular-expression rule whose text is the URL, so its `.` and `?`
      become pattern syntax. */
  lemma EditingExactRuleMakesRegex(jc: JsonCodec, rules: seq<Rule>, idx: nat, t: WizardInput)
    requires idx < |rules|
    requires |rules[idx].exact| > 0 && |rules[idx].wildcard| == 0 && |rules[idx].regex| == 0
    requires t.matchType == Fill(rules[idx]).matchType && t.pattern == Fill(rules[idx]).pattern
    ensures ConfirmRule(jc, rules, idx, t).Normal?
    ensures var r := ConfirmRule(jc, rules, idx, t).value[idx];
      r.exact == "" && r.wildcard == "" && r.regex == rules[idx].exact
  {
    assert t.matchType == "regex";
    var r := BuildRule(jc, rules[idx], t);
    assert r.regex == rules[idx].exact;
  }

  /** A request or response body entered as text that is not JSON becomes
      a replacement of the empty string, which `replaceAll` inserts before
      every character of the body and once more at its end. */
  lemma NonJsonWizardBodyIsInterleaved(jc: JsonCodec, t: string, s: string, h: HeaderSource, rh: map<string, string>)
    requires |t| > 0 && jc.parse(t).None? && NoDollar(t)
    ensures var c := BodyFromText(jc, t).value;
      ContentBodyChange(jc, TextBody(s), h, c) == TextBody(ReplaceAll(s, "", t))
      && RewriteBody(jc, c, s, rh) == (ReplaceAll(s, "", t), rh)
      && |ReplaceAll(s, "", t)| == |s| + (|s| + 1) * |t|
  {
    JsReplaceAllLiteral(s, "", t);
    ReplaceAllEmptyLength(s, t);
  }

  // ---------------------------------------------------------------------
  // Master switch

  /** The configuration the enabled switch writes, as written: a fresh
      object of four keys, with `forward` cut down to its URL and
      `sensitiveKeys` dropped. */
  function EnabledToggleConfig(stored: Option<Json>, checked: bool): (c: Json)
    ensures c.JObj? && c.fields.Keys == {"enabled", "forward", "historyLimit", "historyMatchOnly"}
    ensures c.fields["enabled"] == JBool(checked)
    ensures c.fields["forward"].JObj? && c.fields["forward"].fields.Keys == {"url"}
    ensures TruthyOpt(ForwardUrl(stored.GetOr(JNull))) ==> ForwardUrl(c) == ForwardUrl(stored.GetOr(JNull))
    ensures Truthy(c.fields["historyLimit"])
    ensures TruthyOpt(Get(stored.GetOr(JNull), "historyLimit")) ==> c.fields["historyLimit"] == Get(stored.GetOr(JNull), "historyLimit").value
    ensures c.fields["historyMatchOnly"] == JBool(TruthyOpt(Get(stored.GetOr(JNull), "historyMatchOnly")))
  {
    var cfg := stored.GetOr(JNull);
    var url := ForwardUrl(cfg);
    var limit := Get(cfg, "historyLimit");
    var matchOnly := Get(cfg, "historyMatchOnly");
    JObj(map[
      "enabled" := JBool(checked),
      "forward" := JObj(map["url" := if TruthyOpt(url) then url.value else JStr("")]),
      "historyLimit" := if TruthyOpt(limit) then limit.value else JNum(500),
      "historyMatchOnly" := JBool(matchOnly.Some? && Truthy(matchOnly.value))])
  }

  /** Whether the background forwards depends only on its `forward`
      entry. */
  lemma ForwardTargetReadsForward(c1: Config, c2: Config)
    requires "forward" in c1 <==> "forward" in c2
    requires "forward" in c1 ==> c1["forward"] == c2["forward"]
    ensures ForwardPayloadTarget(c1) == ForwardPayloadTarget(c2)
  {
    assert ForwardEnabled(JObj(c1)) == ForwardEnabled(JObj(c2));
    assert ForwardUrl(JObj(c1)) == ForwardUrl(JObj(c2));
  }

  /** Overlaying a configuration whose `forward` lacks `enabled` leaves
      the background not forwarding. */
  lemma ForwardOffWithoutEnabled(base: Config, c: Json)
    requires c.JObj? && "forward" in c.fields && c.fields["forward"].JObj?
    requires "enabled" !in c.fields["forward"].fields
    ensures ForwardPayloadTarget(Spread(base, Props(c))).None?
  {
    var m := Spread(base, Props(c));
    assert m["forward"] == c.fields["forward"];
    assert ForwardEnabled(JObj(m)).None?;
  }

  /** As written, flipping the switch turns forwarding off in the
      background, by either route the new configuration takes there: it
      has no `forward.enabled`. */
  lemma EnabledToggleStopsForwarding(stored: Option<Json>, checked: bool, b: Background)
    ensures ForwardPayloadTarget(SetConfig(b, Some(EnabledToggleConfig(stored, checked))).config).None?
    ensures ForwardPayloadTarget(BackgroundConfigChanged(b, Some(EnabledToggleConfig(stored, checked))).config).None?
  {
    var c := EnabledToggleConfig(stored, checked);
    ForwardOffWithoutEnabled(b.config, c);
    ForwardOffWithoutEnabled(DefaultConfig, c);
  }

  /** A stored configuration that forwards to "http://x" stops forwarding
      once the switch is flipped. */
  lemma EnabledToggleForwardingExample(checked: bool, b: Background)
    ensures var before := Some(JObj(map["forward" := JObj(map["enabled" := JBool(true), "url" := JStr("http://x")])]));
      ForwardPayloadTarget(BackgroundConfigChanged(b, before).config) == Some(JStr("http://x"))
      && ForwardPayloadTarget(BackgroundConfigChanged(b, Some(EnabledToggleConfig(before, checked))).config).None?
  {
    var f := JObj(map["enabled" := JBool(true), "url" := JStr("http://x")]);
    var before := Some(JObj(map["forward" := f]));
    var m := BackgroundConfigChanged(b, before).config;
    assert m["forward"] == f;
    assert ForwardEnabled(JObj(m)) == Some(JBool(true));
    assert ForwardUrl(JObj(m)) == Some(JStr("http://x"));
    EnabledToggleStopsForwarding(before, checked, b);
  }

  /** The switch corrected: the stored configuration with only `enabled`
      replaced. */
  function EnabledOnlyConfig(stored: Option<Json>, checked: bool): (c: Json)
    ensures c.JObj? && c.fields.Keys == Props(stored.GetOr(JNull)).Keys + {"enabled"}
    ensures c.fields["enabled"] == JBool(checked)
    ensures forall k :: k in Props(stored.GetOr(JNull)) && k != "enabled" ==> c.fields[k] == Props(stored.GetOr(JNull))[k]
  {
    JObj(Spread(Props(stored.GetOr(JNull)), map["enabled" := JBool(checked)]))
  }

  /** Two overlays that agree on `forward` give configurations that agree
      on `forward`. */
  lemma SpreadAgreesOnForward(base: Config, p: map<string, Json>, q: map<string, Json>)
    requires "forward" in p <==> "forward" in q
    requires "forward" in p ==> p["forward"] == q["forward"]
    ensures ForwardPayloadTarget(Spread(base, p)) == ForwardPayloadTarget(Spread(base, q))
  {
    ForwardTargetReadsForward(Spread(base, p), Spread(base, q));
  }

  /** With the corrected switch the background's forwarding target is what
      it would be for the stored configuration, by either route. */
  lemma EnabledOnlyKeepsForwarding(stored: Option<Json>, checked: bool, b: Background)
    ensures ForwardPayloadTarget(SetConfig(b, Some(EnabledOnlyConfig(stored, checked))).config)
      == ForwardPayloadTarget(SetConfig(b, stored).config)
    ensures ForwardPayloadTarget(BackgroundConfigChanged(b, Some(EnabledOnlyConfig(stored, checked))).config)
      == ForwardPayloadTarget(BackgroundConfigChanged(b, stored).config)
    ensures Flag(SetConfig(b, Some(EnabledOnlyConfig(stored, checked))).config, "enabled") == checked
  {
    var c := EnabledOnlyConfig(stored, checked);
    var p := Props(stored.GetOr(JNull));
    assert Props(c) == c.fields;
    SpreadAgreesOnForward(b.config, c.fields, p);
    SpreadAgreesOnForward(DefaultConfig, c.fields, p);
  }
}
