/** The rule records the extension stores and evaluates.

    A field the source tests for truthiness is modelled by what makes it
    truthy: a string condition (`exact`, `wildcard`, `regex`) is absent
    when empty, an object-valued field is an `Option`, and a flag compared
    with `=== true` / `=== false` is an `Option<bool>`. */
module Rules {
  import opened Common
  import opened Json

  /** `rule.method`: absent, one method name, or a list of names. */
  datatype MethodSpec = AnyMethod | OneMethod(m: string) | MethodList(ms: seq<string>)

  /** `rule.any` / `rule.all`: absent (or not an array), or a list of
      sub-rules. */
  datatype SubRules = NoSubRules | SubRules(rules: seq<Rule>)

  /** One `{from, to}` entry of a host or path replacement. */
  datatype ReplacePair = ReplacePair(from: Option<string>, to: Option<string>)

  /** `hostReplace` / `pathReplace`: a single entry or an array of them. */
  datatype ReplaceSpec = Single(pair: ReplacePair) | Many(pairs: seq<ReplacePair>)

  /** `rule.action.redirect`: absent, a string, or an object with optional
      host and path replacements. */
  datatype Redirect =
    | NoRedirect
    | RedirectTo(url: string)
    | RedirectParts(hostReplace: Option<ReplaceSpec>, pathReplace: Option<ReplaceSpec>)

  /** `{from, to}` of a body `stringReplace`; both default to "". */
  datatype StringReplace = StringReplace(from: Option<string>, to: Option<string>)

  /** A body change. The content script reads `jsonMerge` and
      `stringReplace`; the page script reads `remove` and `set` (here `setEntries`). */
  datatype BodyChange = BodyChange(
    jsonMerge: Option<Json>,
    stringReplace: Option<StringReplace>,
    remove: seq<string>,
    setEntries: seq<(string, Json)>)

  /** `{set, remove}` for query parameters; `setEntries` lists the entries of the
      source's object, values already converted with `String`. */
  datatype QueryChange = QueryChange(setEntries: seq<(string, string)>, remove: seq<string>)

  /** `{set, remove}` for headers, carried but applied elsewhere. */
  datatype HeaderChange = HeaderChange(setEntries: seq<(string, string)>, remove: seq<string>)

  datatype Modify = Modify(headers: Option<HeaderChange>, query: Option<QueryChange>, body: Option<BodyChange>)

  datatype ResponseModify = ResponseModify(headers: Option<HeaderChange>, body: Option<BodyChange>)

  datatype Rule = Rule(
    name: Option<string>,
    enabled: Option<bool>,
    httpMethod: MethodSpec,
    exact: string,
    wildcard: string,
    regex: string,
    any: SubRules,
    all: SubRules,
    modification: Option<Modify>,
    redirect: Redirect,
    responseModify: Option<ResponseModify>,
    forward: Option<bool>)

  /** The rule `{}`. */
  const EmptyRule := Rule(None, None, AnyMethod, "", "", "", NoSubRules, NoSubRules, None, NoRedirect, None, None)

  /** The three places the rule engine runs: the content script
      (content.js), the page-world script (inject.js) and the background
      service worker (background.js). */
  datatype Context = ContentScript | PageScript | ServiceWorker

  /** A stored or messaged rule list: an array, a string, or some other
      value, which is truthy or not. */
  datatype RulesValue = RuleArray(rs: seq<Rule>) | RuleText(text: string) | NotArray(truthy: bool)

  /** An array is truthy, a string when it is not empty. */
  predicate TruthyRules(rv: RulesValue) {
    match rv
    case RuleArray(_) => true
    case RuleText(t) => |t| > 0
    case NotArray(t) => t
  }

  /** What `for...of` visits: the elements of an array, or the characters
      of a string, each a one-character string that has none of a rule's
      properties and so reads as the rule `{}`. Any other value is not
      iterable. */
  function Elements(rv: RulesValue): (rs: Option<seq<Rule>>)
    ensures rs.None? <==> rv.NotArray?
    ensures rv.RuleArray? ==> rs == Some(rv.rs)
    ensures rv.RuleText? ==> |rs.value| == |rv.text| && forall i :: 0 <= i < |rs.value| ==> rs.value[i] == EmptyRule
  {
    match rv
    case RuleArray(rs) => Some(rs)
    case RuleText(t) => Some(seq(|t|, _ => EmptyRule))
    case NotArray(_) => None
  }
}
