/** Configuration objects and the rule and configuration caches of the
    three contexts: the defaults each starts from, and the updates that
    replace or shallow-merge them (background.js, content.js, inject.js).
    A configuration is the map of an object's own properties. */
module Config {
  import opened Common
  import opened Json
  import opened Rules

  type Config = map<string, Json>

  /** `DEFAULT_CONFIG` of background.js. */
  const DefaultConfig: Config := map[
    "enabled" := JBool(true),
    "forward" := JObj(map["enabled" := JBool(false), "url" := JStr("")]),
    "sensitiveKeys" := JArr([JStr("authorization"), JStr("token"), JStr("password"), JStr("cookie")]),
    "historyLimit" := JNum(500)]

  /** The initial `config` of inject.js: interception stays off until a
      configuration arrives. */
  const PageInitialConfig: Config := map[
    "enabled" := JBool(false),
    "forward" := JObj(map["enabled" := JBool(false), "url" := JStr("")]),
    "historyLimit" := JNum(500),
    "historyMatchOnly" := JBool(false)]

  /** The initial `configCache` of content.js. */
  const ContentInitialConfig: Json := JObj(map[
    "forward" := JObj(map["url" := JStr("")]),
    "historyLimit" := JNum(500),
    "historyMatchOnly" := JBool(false)])

  /** `!!config[k]`. */
  predicate Flag(c: Config, k: string) {
    k in c && Truthy(c[k])
  }

  /** `config.forward && config.forward[field]`, read from any value. */
  function ForwardField(c: Json, field: string): (r: Option<Json>)
    ensures r.Some? ==> c.JObj? && "forward" in c.fields && c.fields["forward"].JObj?
  {
    match Get(c, "forward")
    case Some(f) => Get(f, field)
    case None => None
  }

  /** `config.forward && config.forward.url`. */
  function ForwardUrl(c: Json): Option<Json> {
    ForwardField(c, "url")
  }

  /** `config.forward && config.forward.enabled`. */
  function ForwardEnabled(c: Json): Option<Json> {
    ForwardField(c, "enabled")
  }

  /** A value stored or received where a rule list is expected: `undefined`
      (None), or a value. */
  type StoredRules = Option<RulesValue>

  /** `Array.isArray(v) ? v : []`. */
  function ArrayOrEmpty(v: StoredRules): (rs: seq<Rule>)
    ensures v.Some? && v.value.RuleArray? ==> rs == v.value.rs
    ensures !(v.Some? && v.value.RuleArray?) ==> rs == []
  {
    if v.Some? && v.value.RuleArray? then v.value.rs else []
  }

  /** `v || []`: a truthy value is kept as it is, array or not. */
  function OrEmpty(v: StoredRules): (r: RulesValue)
    ensures TruthyRules(r)
    ensures v.Some? && TruthyRules(v.value) ==> r == v.value
    ensures v.None? || !TruthyRules(v.value) ==> r == RuleArray([])
  {
    match v
    case Some(rv) => if TruthyRules(rv) then rv else RuleArray([])
    case None => RuleArray([])
  }

  /** A truthy value that is not an array: the one kind of stored value
      on which the two readings of a rule list part ways. */
  predicate TruthyNonArray(v: StoredRules) {
    v.Some? && TruthyRules(v.value) && !v.value.RuleArray?
  }

  /** The two readings of a stored rule list agree except on a truthy
      value that is not an array: `v || []` keeps it while the
      array-or-empty reading drops it. */
  lemma ArrayOrEmptyAgreesWithOrEmpty(v: StoredRules)
    ensures !TruthyNonArray(v) ==> OrEmpty(v) == RuleArray(ArrayOrEmpty(v))
    ensures TruthyNonArray(v) ==> OrEmpty(v) == v.value && ArrayOrEmpty(v) == []
  {
  }

  // ---------------------------------------------------------------------
  // Background service worker

  datatype Background = Background(rules: RulesValue, config: Config)

  /** `initConfig()`: stored rules (default `[]`) unless they are not an
      array, and `DEFAULT_CONFIG` overlaid by the stored configuration
      (default `DEFAULT_CONFIG`). */
  function InitBackground(storedRules: StoredRules, storedConfig: Option<Json>): (b: Background)
    ensures b.rules == RuleArray(ArrayOrEmpty(storedRules))
    ensures b.config.Keys >= DefaultConfig.Keys
    ensures storedConfig.None? ==> b.config == DefaultConfig
    ensures storedConfig.Some? ==> forall k :: k in Props(storedConfig.value) ==> k in b.config && b.config[k] == Props(storedConfig.value)[k]
  {
    var c := match storedConfig case Some(j) => Props(j) case None => DefaultConfig;
    Background(RuleArray(ArrayOrEmpty(storedRules)), Spread(DefaultConfig, c))
  }

  /** A `config` storage change: `DEFAULT_CONFIG` overlaid by the new value,
      so every key the new value lacks goes back to its default. */
  function BackgroundConfigChanged(b: Background, newValue: Option<Json>): (r: Background)
    ensures r.rules == b.rules
    ensures r.config.Keys == DefaultConfig.Keys + Props(newValue.GetOr(JNull)).Keys
    ensures forall k :: k in DefaultConfig && k !in Props(newValue.GetOr(JNull)) ==> r.config[k] == DefaultConfig[k]
    ensures forall k :: k in Props(newValue.GetOr(JNull)) ==> r.config[k] == Props(newValue.GetOr(JNull))[k]
  {
    b.(config := Spread(DefaultConfig, Props(newValue.GetOr(JNull))))
  }

  /** A `rules` storage change: `newValue || []`. */
  function BackgroundRulesChanged(b: Background, newValue: StoredRules): (r: Background)
    ensures r.config == b.config
    ensures r.rules == OrEmpty(newValue)
  {
    b.(rules := OrEmpty(newValue))
  }

  /** The `setRules` message: a non-array becomes `[]`. */
  function SetRules(b: Background, msgRules: StoredRules): (r: Background)
    ensures r.config == b.config
    ensures r.rules.RuleArray?
    ensures msgRules.Some? && msgRules.value.RuleArray? ==> r.rules == msgRules.value
  {
    b.(rules := RuleArray(ArrayOrEmpty(msgRules)))
  }

  /** The `setConfig` message: the message's configuration shallow-merged
      over the cache, so keys it does not mention keep their values. */
  function SetConfig(b: Background, msgConfig: Option<Json>): (r: Background)
    ensures r.rules == b.rules
    ensures r.config.Keys == b.config.Keys + Props(msgConfig.GetOr(JNull)).Keys
    ensures forall k :: k in b.config && k !in Props(msgConfig.GetOr(JNull)) ==> r.config[k] == b.config[k]
    ensures forall k :: k in Props(msgConfig.GetOr(JNull)) ==> r.config[k] == Props(msgConfig.GetOr(JNull))[k]
  {
    b.(config := Spread(b.config, Props(msgConfig.GetOr(JNull))))
  }

  /** A `setConfig` with an empty or missing configuration changes nothing,
      and repeating a `setConfig` is the same as sending it once. */
  lemma SetConfigIdempotent(b: Background, msgConfig: Option<Json>)
    ensures SetConfig(SetConfig(b, msgConfig), msgConfig) == SetConfig(b, msgConfig)
    ensures SetConfig(b, None) == b
  {
    SpreadIdempotent(b.config, Props(msgConfig.GetOr(JNull)));
    SpreadIdentity(b.config);
  }

  /** A storage change forgets keys a `setConfig` added: after a change
      whose value lacks `k`, `k` holds its default (or is gone). */
  lemma StorageChangeResetsToDefaults(b: Background, newValue: Option<Json>, k: string)
    requires k !in Props(newValue.GetOr(JNull))
    ensures k in DefaultConfig ==> BackgroundConfigChanged(b, newValue).config[k] == DefaultConfig[k]
    ensures k !in DefaultConfig ==> k !in BackgroundConfigChanged(b, newValue).config
  {
  }

  /** Whether `forwardPayload` posts: `forward.enabled` must be truthy and
      `forward.url` non-empty. */
  function ForwardPayloadTarget(c: Config): (r: Option<Json>)
    ensures r.Some? <==> TruthyOpt(ForwardEnabled(JObj(c))) && TruthyOpt(ForwardUrl(JObj(c)))
    ensures r.Some? ==> Some(r.value) == ForwardUrl(JObj(c))
  {
    if TruthyOpt(ForwardEnabled(JObj(c))) && TruthyOpt(ForwardUrl(JObj(c))) then ForwardUrl(JObj(c)) else None
  }

  /** The defaults never forward: `forward.enabled` is false. */
  lemma DefaultsDoNotForward()
    ensures ForwardPayloadTarget(DefaultConfig).None?
  {
    assert ForwardEnabled(JObj(DefaultConfig)) == Some(JBool(false));
  }

  // ---------------------------------------------------------------------
  // Content script

  datatype ContentState = ContentState(rules: RulesValue, config: Json)

  /** The `getConfig` reply (`resp.rules || []`, `resp.config ||
      configCache`), a local `config` change (`newValue || configCache`)
      and a sync `rules` change (`newValue || []`): each replaces the
      cache wholesale. */
  function ContentInit(s: ContentState, respRules: StoredRules, respConfig: Option<Json>): (r: ContentState)
    ensures r.rules == OrEmpty(respRules)
    ensures TruthyOpt(respConfig) ==> r.config == respConfig.value
    ensures !TruthyOpt(respConfig) ==> r.config == s.config
  {
    ContentState(OrEmpty(respRules), if TruthyOpt(respConfig) then respConfig.value else s.config)
  }

  function ContentConfigChanged(s: ContentState, newValue: Option<Json>): (r: ContentState)
    ensures r.rules == s.rules
    ensures TruthyOpt(newValue) ==> r.config == newValue.value
    ensures !TruthyOpt(newValue) ==> r.config == s.config
  {
    s.(config := if TruthyOpt(newValue) then newValue.value else s.config)
  }

  /** The `AF_CONFIG_UPDATE` data the content script posts to the page
      script. */
  datatype Bridge = Bridge(rules: RulesValue, config: Json)

  /** A sync `rules` change in the content script: the cache becomes
      `newValue || []`, and the new cache is posted on to the page script
      with the cached configuration. */
  function ContentRulesChanged(s: ContentState, newValue: StoredRules): (r: (ContentState, Bridge))
    ensures r.0.config == s.config
    ensures r.0.rules == OrEmpty(newValue)
    ensures r.1 == Bridge(r.0.rules, s.config)
  {
    var s2 := s.(rules := OrEmpty(newValue));
    (s2, Bridge(s2.rules, s2.config))
  }

  /** A rules change reaches the page script as the array-or-empty reading
      of the stored value: a truthy non-array the content script keeps
      arrives as no rules. */
  lemma RulesChangeReachesPage(s: ContentState, ps: PageState, newValue: StoredRules)
    ensures var msg := ContentRulesChanged(s, newValue).1;
      PageConfigUpdate(ps, Some(msg.rules), Some(msg.config)).rules == ArrayOrEmpty(newValue)
  {
    ArrayOrEmptyAgreesWithOrEmpty(newValue);
  }

  // ---------------------------------------------------------------------
  // Page script

  datatype PageState = PageState(rules: seq<Rule>, config: Config)

  /** The `AF_CONFIG_UPDATE` message with data `{config, rules}`: the rules
      are replaced (a non-array becomes `[]`) and the configuration is
      shallow-merged over the current one. */
  function PageConfigUpdate(s: PageState, dataRules: StoredRules, dataConfig: Option<Json>): (r: PageState)
    ensures r.rules == ArrayOrEmpty(dataRules)
    ensures r.config.Keys == s.config.Keys + Props(dataConfig.GetOr(JNull)).Keys
    ensures forall k :: k in s.config && k !in Props(dataConfig.GetOr(JNull)) ==> r.config[k] == s.config[k]
    ensures forall k :: k in Props(dataConfig.GetOr(JNull)) ==> r.config[k] == Props(dataConfig.GetOr(JNull))[k]
  {
    PageState(ArrayOrEmpty(dataRules), Spread(s.config, Props(dataConfig.GetOr(JNull))))
  }

  /** The configuration the background hands out always has `enabled`;
      once it has travelled through the content script to the page script,
      the page script's `enabled` is the background's. */
  lemma BridgeCarriesEnabled(b: Background, cs: ContentState, ps: PageState)
    requires b.config.Keys >= DefaultConfig.Keys
    ensures var cs2 := ContentInit(cs, Some(b.rules), Some(JObj(b.config)));
      var ps2 := PageConfigUpdate(ps, Some(cs2.rules), Some(cs2.config));
      Flag(ps2.config, "enabled") <==> Flag(b.config, "enabled")
  {
    assert "enabled" in DefaultConfig;
    var cs2 := ContentInit(cs, Some(b.rules), Some(JObj(b.config)));
    assert cs2.config == JObj(b.config);
    assert Props(cs2.config) == b.config;
    var ps2 := PageConfigUpdate(ps, Some(cs2.rules), Some(cs2.config));
    assert ps2.config["enabled"] == b.config["enabled"];
  }

  /** The page script starts disabled, and a configuration without
      `enabled` leaves it so. */
  lemma PageStartsDisabled(dataRules: StoredRules, dataConfig: Option<Json>)
    requires "enabled" !in Props(dataConfig.GetOr(JNull))
    ensures !Flag(PageConfigUpdate(PageState([], PageInitialConfig), dataRules, dataConfig).config, "enabled")
  {
  }
}
