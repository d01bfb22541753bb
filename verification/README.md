# APIForward rule engine in Dafny

A model of the rule engine of the APIForward browser extension. The engine
is copied, with differences, into three contexts:

- the content script (content.js);
- the page script it injects (inject.js);
- the service worker (background.js).

The side panel (sidepanel.js) edits the stored rule list and configuration.

A rule is a recursive record:

- conditions `exact`, `wildcard` and `regex`;
- optional `any` / `all` sub-rule lists;
- an optional `method`;
- request edits (`modify.query`, `modify.body`, `action.redirect`);
- a response edit (`responseModify`);
- the `enabled` and `forward` flags.

Every context finds the first rule that matches a request. It rewrites the
request's query, body and URL, captures the response for the history, and
may forward the capture to a collector. The service worker also compiles
the redirect rules into declarative redirect entries.

The modules follow the source's structure:

| module | what it holds |
|---|---|
| `Common` | `Option` for missing JavaScript values and `Completion` (normal or thrown) |
| `Text` | the String operations the engine uses: `indexOf`, `replace`/`replaceAll` with ECMAScript `$` substitution, `split`, `trim`, ASCII case mapping |
| `Json` | JavaScript values that JSON can carry; truthiness, object spread `{...a, ...b}`, `delete`, assignment; a parse/stringify oracle |
| `Url` | parsed URLs, `URLSearchParams` `set`/`delete` (section 6.2 of the WHATWG URL Standard), a parse/serialise oracle |
| `Rules` | the rule record and its parts |
| `Wildcard` | the wildcard-to-regular-expression translation and a small ECMAScript pattern compiler for the patterns it produces; the glob reading of a wildcard |
| `Matcher` | `matchByRule`/`match` and `findFirstMatch`/`find`, parameterised by the context |
| `Transform` | query edits, body edits, host/path replacement and redirect choice of both scripts |
| `Pipeline` | what the wrapped `fetch` and `XMLHttpRequest` of both scripts do with a request |
| `Response` | the content script's response rewrite, capture caps, and the forwarding decisions |
| `Headers` | the unsafe request-header test and the `getAllResponseHeaders()` parser |
| `History` | `pushHistory`, its gate in the webRequest listeners, and the side panel's filtered view |
| `Config` | defaults and the cache updates of the three contexts |
| `Dnr` | `applyDNRFromRules` as a pure compile from installed ids and rules to `{addRules, removeRuleIds}` |
| `SidePanel` | the forward and enabled checkboxes, delete, the wizard's confirm and read-back, the master switch's configuration |

Regular expressions written by the user (`rule.regex`) are an oracle
(`RegexOracle`). It answers None when `new RegExp` throws. The oracle is
used only for that condition.

Wildcards are modelled concretely. Their translation is compiled by
`Wildcard.Compile`, a parser for the pattern language the translation can
produce.

URL parsing and serialisation are an oracle (`Url.UrlCodec`). Its
`parse(input, base)` may fail. `JSON.parse` and `JSON.stringify` are an
oracle (`Json.JsonCodec`). Lemmas that need a round trip assume it as a
predicate of the oracle (`Transform.RoundTrips`, `Transform.UrlRoundTrips`).

Where the three copies differ, one definition takes a `Context`. Where a
source defect changes behaviour, the affected definitions take a
`Common.Reading`: `AsWritten` follows the code, `Corrected` the evident
intent (see Findings). The interceptors of `Pipeline` use `AsWritten`.

Two defects concern wildcards. The translation leaves `?` a
regular-expression quantifier, and a wildcard starting with `?` makes
constructing the expression throw a SyntaxError, which escapes the rule
search. `Wildcard.WildcardTest` gives both readings of one test. The
`Corrected` reading is the glob: `*` is any run of characters other than
line terminators, and every other character is literal.
`Matcher.ReadingsAgree` shows that the two readings agree on every rule
whose wildcards have no `?`.

The extension's own description calls `*` "any characters". The code's
translation uses `.*` without the `s` flag, so a line terminator is not
matched. The model follows the code.

## Model

| member | source | states |
|---|---|---|
| Text.IndexFrom | content.js:477 | the index returned is an occurrence at or after the start with none before it; None means no occurrence at or after the start |
| Text.IndexOf | content.js:477 | `indexOf` gives the leftmost occurrence; None means the pattern occurs nowhere |
| Text.ReplaceFirst | content.js:46 | a literal first-occurrence replacement: the text before the leftmost match, the replacement, the text after; no match leaves the string unchanged |
| Text.JsReplace | content.js:46 | `replace` with a string pattern leaves a string without the pattern unchanged, and agrees with the literal `ReplaceFirst` when the replacement has no `$` |
| Text.SubstitutionLiteral | content.js:46 | a replacement without `$` is inserted verbatim by GetSubstitution |
| Text.MatchedTextSubstitution | content.js:46 | `$&` in a replacement stands for the matched text |
| Text.JsReplaceAllLiteral | content.js:196-197 | `replaceAll` with a `$`-free replacement is the literal replace-all, including the interleaving an empty pattern causes |
| Text.ReplaceAllAbsent | content.js:196-197 | replacing a non-empty pattern that does not occur changes nothing |
| Text.ReplaceAllSelf | content.js:196-197 | replacing a pattern by itself changes nothing |
| Text.ReplaceAllEmptyLength | content.js:196-197 | an empty pattern inserts the replacement at each of the positions before, between and after the characters, one more than the length |
| Text.Split | content.js:476 | `split` on one character gives at least one piece and no piece contains the separator |
| Text.SplitJoin | content.js:476 | joining the pieces with the separator gives back the original text |
| Text.TrimStart | sidepanel.js:315 | the result is a suffix that starts with a non-space character, and everything removed is white space |
| Text.TrimEnd | sidepanel.js:315 | the result is a prefix that ends with a non-space character, and everything removed is white space |
| Text.Trim | sidepanel.js:315 | `trim` gives the input less a run of white space at each end, and the result neither starts nor ends with white space; it is empty exactly when the input is all white space |
| Text.TrimSpan | sidepanel.js:315 | the trimmed text is the input with white space removed from both ends and nothing else: input = leading space + result + trailing space |
| Text.Upper | content.js:112 | `toUpperCase` keeps the length and maps every character by the ASCII upper-case map |
| Text.Lower | inject.js:109 | `toLowerCase` keeps the length and maps every character by the ASCII lower-case map |
| Text.UpperIdempotent | content.js:112 | upper-casing twice is upper-casing once |
| Text.LowerIdempotent | inject.js:109 | lower-casing twice is lower-casing once |
| Text.LowerOfUpper | inject.js:109 | lower-casing forgets an earlier upper-casing, the basis of case-insensitive comparison |
| Text.UpperEqualsIffLowerEquals | content.js:112 | two strings are equal after upper-casing exactly when they are equal after lower-casing, so the matcher and the redirect entries compare methods alike |
| Json.Get | content.js:243 | a property read yields a value exactly for an object that has the key |
| Json.DecimalStringInjective | inject.js:507 | different array indices give different property names |
| Json.IndexProps | inject.js:507 | spreading an array gives exactly the properties "0", "1", … holding its elements |
| Json.Chars | inject.js:507 | a string spreads into its characters, one per index |
| Json.Props | inject.js:507 | the own enumerable properties `{...v}` takes: an object's fields, an array's or string's index properties, nothing from null, booleans or numbers |
| Json.Spread | background.js:19 | `{...a, ...b}` has the keys of both, and a key of `b` wins over `a` |
| Json.SpreadIdentity | background.js:19 | spreading a map over itself or merging with the empty object changes nothing |
| Json.SpreadIdempotent | background.js:148 | merging the same update twice is merging it once |
| Json.DeleteKeys | inject.js:92 | `delete o[k]` for each listed key removes exactly those keys and keeps every other value |
| Json.SetKeysIsSpread | inject.js:93 | assigning the entries in order equals one spread of the object those entries build |
| Json.EntriesObjectCons | inject.js:93 | the object built from entries lets a later entry override an earlier one |
| Json.EntriesObjectKeys | inject.js:93 | the object built from entries has exactly the entries' names as keys |
| Url.NamedConcat | content.js:148 | the values of one name in concatenated parameter lists are the values of each list in order |
| Url.DeleteParam | content.js:149 | `searchParams.delete(k)` removes every value of `k` and leaves every other name's values untouched |
| Url.DeleteParamAbsent | content.js:149 | deleting an absent name leaves the list identical |
| Url.SetFirst | content.js:148 | `set` on a present name leaves it the single value `v`, never lengthens the list, and changes no other name; `SetFirstPlace` states where the pair goes |
| Url.SetParam | content.js:148 | `searchParams.set(k, v)` leaves `k` with the single value `v`, at the position of its first old pair when present and at the end otherwise, and changes no other name |
| Url.SetFirstPlace | content.js:148 | `set` on a present name puts the new pair at the position of the first old pair of that name, and deletes the later pairs of that name |
| Url.SetParamIdentity | inject.js:79 | setting a name to the single value it already has leaves the list identical |
| Url.SetFirstIdentity | inject.js:79 | the in-place case of `SetParamIdentity` |
| Url.LookupDistinct | inject.js:79 | with distinct names, each entry's name looks up that entry's value |
| Url.SetAll | content.js:148 | setting all entries in order leaves each named key with its last set value and every other name as it was |
| Url.DeleteAll | content.js:149 | deleting all listed names empties exactly those names |
| Url.SetAllStable | inject.js:79 | setting entries that already hold leaves the list identical |
| Url.SetAllIdempotent | inject.js:79 | applying the same distinct `set` entries twice gives the same list as once |
| Wildcard.EscapeChars | content.js:99 | escaping never shortens the pattern |
| Wildcard.EscapeThenStar | content.js:98-101 | the escape pass followed by the `*` pass equals translating each pattern character on its own |
| Wildcard.TranslateWithoutQuestion | content.js:98-101 | for a pattern without `?`, the source's translation and the `?`-escaping one agree |
| Wildcard.GlobTerms | content.js:98-101 | a glob pattern stands for one term per character: `*` a starred any-character, others a literal |
| Wildcard.GlobTermsMatch | content.js:116 | the compiled terms of a glob match a string exactly when the glob does |
| Wildcard.CompileTranslateLiteral | content.js:98-101 | the `?`-escaping translation compiles to the glob's terms |
| Wildcard.LiteralTranslationIsGlob | content.js:98-101 | the `?`-escaping translation matches exactly the strings the glob matches, with or without case folding |
| Wildcard.CompileTranslate | content.js:98-101 | the source's translation compiles as the token stream in which `?` stays a quantifier |
| Wildcard.QuestionIsQuantifier | content.js:98-101 | the source's translation of "a?b" makes `a` optional, so it matches "b", which the glob does not |
| Wildcard.LeadingQuestionRejected | content.js:98-101 | the source's translation of "?a" is a pattern `new RegExp` rejects |
| Wildcard.TranslateCompilesOrRepeatsNothing | content.js:98-101 | the source's translation of any wildcard either compiles or is rejected because a quantifier repeats nothing; no other construction error arises |
| Wildcard.WildcardTest | content.js:116 | as written the test throws a SyntaxError exactly when the translation repeats nothing; corrected it never throws and answers the glob |
| Wildcard.ReadingsAgreeWithoutQuestion | inject.js:24-27 | for a wildcard without `?`, both readings of the test give the glob's answer |
| Wildcard.QuestionWildcardTests | inject.js:46 | as written "a?b" accepts "b" and "?a" throws; corrected both reject |
| Wildcard.CompileSourceLiteral | background.js:202 | the `.source` text of the translation compiles back to the glob's terms when the pattern has no line terminator |
| Wildcard.LiteralTerms | background.js:201 | an escaped exact string stands for one literal term per character |
| Wildcard.LiteralTermsMatch | background.js:201 | literal terms match a string exactly when it equals the exact string |
| Wildcard.LiteralTermsMatchFolded | background.js:201 | ignoring case, literal terms match a string exactly when it equals the exact string up to ASCII case |
| Wildcard.GlobMatchFolded | background.js:202 | the glob ignoring case accepts exactly what the upper-cased glob accepts of the upper-cased text with case |
| Wildcard.GlobMatchCaseImpliesFolded | background.js:202 | whatever the glob accepts with case it accepts ignoring case |
| Wildcard.CompileEscapedLiteral | background.js:201 | escaping every syntax character and anchoring compiles to the literal terms |
| Matcher.MethodOk | content.js:111-113 | a method list throws TypeError; a non-empty scalar method rejects exactly the requests whose method differs after upper-casing |
| Matcher.ScalarConds | content.js:115-117 | the wildcard test throws out of the rule exactly when its reading throws; otherwise a present condition contributes, one of them is true exactly when the exact URL, the wildcard or the regex matches, and a failed regex contributes nothing |
| Matcher.MatchRule | content.js:110-121 | a list-valued method throws a TypeError and a wildcard the reading rejects a SyntaxError; nothing else throws; a match implies the method passes and some present condition holds |
| Matcher.SomeMatch | content.js:118 | an empty `any` list gives false; only the matcher's TypeError or SyntaxError escapes |
| Matcher.EveryMatch | content.js:119 | an empty `all` list gives true; only the matcher's TypeError or SyntaxError escapes |
| Matcher.MatchRuleMeaning | content.js:110-121 | for a rule tree without method lists (and, as written, without rejected wildcards), matching equals the declarative reading `Holds`: method check and the OR of present conditions, `any` as a disjunction and `all` as a conjunction |
| Matcher.SomeMatchMeaning | content.js:118 | `some` over throw-free sub-rules is the existential over the list |
| Matcher.EveryMatchMeaning | content.js:119 | `every` over throw-free sub-rules is the universal over the list |
| Matcher.MethodMismatchIsFalse | content.js:112 | a rule whose single method differs from the request's never matches |
| Matcher.EmptyListsDecide | content.js:118-120 | a rule with only an empty `any` never matches; one with only an empty `all` always matches |
| Matcher.FindFrom | content.js:129-135 | a returned index is a rule that is not skipped and matches |
| Matcher.FindFromSpec | content.js:129-135 | nothing before the returned index was selectable; None means no rule was; a throw comes from the first rule whose match throws |
| Matcher.FindIn | content.js:129-135 | a rule cache that is neither an array nor a string is not iterable and throws TypeError; a string cache iterates characters, none of which matches, so nothing is found; an array gives a match, or None when nothing is selectable |
| Matcher.EmptyRuleNeverMatches | content.js:110-121 | the rule `{}` (and so each character of a string cache) passes the method test and has no condition, so it never matches |
| Matcher.FindEarliest | content.js:129-135 | the earliest selectable matching rule is the one found |
| Matcher.DisabledRuleOnlyInServiceWorker | background.js:73-78 | a disabled matching rule is found by the service worker and skipped by the content and page scripts |
| Matcher.ReadingsAgree | content.js:110-121 | on a rule tree whose wildcards have no `?`, the code as written and the corrected matcher give the same outcome, errors included |
| Matcher.SomeReadingsAgree | content.js:118 | the same agreement for an `any` list |
| Matcher.EveryReadingsAgree | content.js:119 | the same agreement for an `all` list |
| Matcher.WildcardOnlyRule | content.js:116 | a rule with only a wildcard and an accepted method matches exactly as the wildcard test answers, a throw included |
| Matcher.FindOne | content.js:129-135 | the search over one rule that is not disabled returns that rule when it matches, nothing when it does not, and its error when it throws |
| Matcher.QuestionWildcardSearch | inject.js:46 | as written, the search selects a rule "a?b" for "b" and throws a SyntaxError for a rule "?a"; corrected, neither rule is selected |
| Transform.ContentQueryEdit | content.js:148-149 | set then remove: a removed name ends empty even if it was set; a set name holds its last value; others keep theirs |
| Transform.InjectQueryEdit | inject.js:78-79 | remove then set: a set name holds its last value even if removed; removed names end empty; others keep theirs |
| Transform.QueryEditsDisagreeOnlyOnConflicts | inject.js:78-79 | the two query edits agree on every name except one both set and removed |
| Transform.QueryChangeWith | content.js:145-152 | an unparseable URL is returned unchanged; otherwise the serialised URL carries the edited query |
| Transform.InjectQueryEditTwice | inject.js:75-84 | applying the page script's query edit twice leaves every name as after once; with only distinct `set` entries the list itself is identical |
| Transform.InjectQuerySetIdempotent | inject.js:75-84 | with a round-tripping URL codec, a set-only query change applied twice gives the same URL as once |
| Transform.ContentTypeOf | content.js:173-175 | the content type is read from the lower-cased header map, empty when there are no headers |
| Transform.TryParseJson | content.js:173-178 | a string body with a JSON content type gives its parse, or nothing when it does not parse; a string body of another type gives nothing; a plain object body is taken as is; an opaque body counts as `{}`; no body gives nothing |
| Transform.ContentBodyChange | content.js:187-201 | a truthy parsed body with an object merge becomes the serialised right-biased merge; otherwise a string body with `stringReplace` has every occurrence replaced; in every other case the body is sent as it was |
| Transform.ContentMergeResult | content.js:187-195 | the merged body parses back to the spread of the body's fields and the merge object |
| Transform.ContentMergeIdempotent | content.js:187-195 | merging the same object into an already merged body changes nothing |
| Transform.TextBodyWithoutJsonTypeIsNotMerged | content.js:173-175 | without a JSON content type a string body is never merged, only string-replaced |
| Transform.InjectBodyChange | inject.js:88-98 | non-string and unparseable bodies come back unchanged; an object body has the `remove` keys deleted and the `set` keys assigned before re-serialising |
| Transform.InjectBodyResult | inject.js:88-98 | the edited body parses back to an object in which set keys hold their values, removed keys are gone and other keys are kept |
| Transform.ApplyPair | content.js:45-46 | an entry without `from` changes nothing; one with `from` replaces its first occurrence by `to`, or by "" when `to` is missing |
| Transform.ApplyPairsConcat | content.js:42-48 | the entries are applied in array order, one after another |
| Transform.ApplyPairsAbsent | content.js:42-48 | entries whose `from` does not occur change nothing |
| Transform.EmptyFromPrepends | content.js:46 | an entry whose `from` is empty inserts `to` at the front |
| Transform.ApplySpecAbsent | content.js:42-48 | replacement entries none of whose `from` texts occur leave the text unchanged |
| Transform.UnmatchedReplaceKeepsUrl | content.js:35-91 | for a URL already in serialised form, host or path entries whose `from` does not occur send the request to the same URL; the page script also ignores an entry array |
| Transform.PathReplaceScriptsAgree | inject.js:223-231 | for an entry with a `from`, the page script's path replacement is the content script's |
| Transform.InjectPathEdit | inject.js:223-231 | the page script ignores an array of path entries |
| Transform.MissingFromDiffers | inject.js:223-231 | an entry without `from` is skipped by the content script but prepends `to` in the page script |
| Transform.ContentRedirect | content.js:313-318 | an "http" string redirect replaces the URL; no redirect or another string keeps it |
| Transform.InjectRedirect | inject.js:219-231 | an "http" string redirect replaces the URL; otherwise only a path replacement can change it |
| Config.OrEmpty | content.js:520 | a truthy stored value is kept whatever its type (an array, a non-empty string or another value); a missing or falsy one becomes the empty list |
| Config.ArrayOrEmptyAgreesWithOrEmpty | background.js:18 | the service worker's array-or-empty reading and the content script's `v || []` agree, except on a truthy non-array value, which the first drops and the second keeps |
| Pipeline.StoredReadingsSearchAlike | content.js:520 | searching `v || []` and searching the array-or-empty reading give the same result for every stored value, a string included, except a truthy value that is neither array nor string, where the first throws and the second finds nothing |
| Config.InitBackground | background.js:13-21 | the service worker starts from the defaults overlaid by the stored configuration, with an array rule list |
| Config.BackgroundConfigChanged | background.js:34 | a configuration change rebuilds from the defaults overlaid by the new value; rules are untouched |
| Config.StorageChangeResetsToDefaults | background.js:34 | a key missing from the new value returns to its default, or disappears when it has none |
| Config.BackgroundRulesChanged | background.js:37 | a rules change replaces the rule cache wholesale; configuration is untouched |
| Config.SetRules | background.js:143 | `setRules` stores an array as given and anything else as the empty list |
| Config.SetConfig | background.js:148 | `setConfig` shallow-merges the message over the cache; keys it does not name keep their values |
| Config.SetConfigIdempotent | background.js:148 | the same `setConfig` twice equals once, and an empty message changes nothing |
| Config.ForwardPayloadTarget | background.js:165-169 | forwarding proceeds exactly when `forward.enabled` and `forward.url` are both truthy, and goes to that URL |
| Config.DefaultsDoNotForward | background.js:3-8 | the default configuration never forwards |
| Config.ContentInit | content.js:209-210 | the content script takes the answered configuration if truthy and the rules with the empty-list fallback |
| Config.ContentConfigChanged | content.js:513 | a falsy new configuration keeps the old one; rules untouched |
| Config.ContentRulesChanged | content.js:519-522 | a rules change replaces the content script's rules with `newValue || []`, keeps its configuration, and posts both to the page script |
| Config.RulesChangeReachesPage | content.js:519-522 | the page script receives the array-or-empty reading of the stored rules, whatever the content script keeps |
| Config.PageConfigUpdate | inject.js:502-509 | the page script replaces its rules wholesale and shallow-merges the configuration |
| Config.BridgeCarriesEnabled | inject.js:507 | after the content script relays the service worker's state, the page script's `enabled` equals the service worker's |
| Config.PageStartsDisabled | inject.js:13-18 | until an update names `enabled`, the page script does not rewrite |
| History.SliceEnd | background.js:84 | `slice(0, end)` clamps to the list and counts a negative end from the back |
| History.HistoryLimit | background.js:84 | a missing or zero limit falls back to 500; a non-zero numeric limit is used as is |
| History.PushHistoryShape | background.js:84 | with a positive limit the entry is at the head, the length is at most the limit, and the tail is an in-order prefix of the old history |
| History.PushHistoryBounded | background.js:84 | any number of pushes under a positive limit never exceeds it |
| History.ZeroLimitMeansDefault | background.js:84 | a zero or missing limit keeps at most 500 entries |
| History.OnNetworkEventShape | background.js:81-101 | while recording is on under a positive limit, an event puts its entry first, keeps at most the limit, and keeps the newest old entries in order |
| History.NonNumericLimitEmptiesHistory | background.js:84 | a truthy limit that is neither a number nor `true` reads as 0, so a recorded event leaves the history empty |
| History.HistoryView | sidepanel.js:111-119 | the view shows at most 200 entries |
| History.ViewFor | sidepanel.js:113 | an empty keyword shows the first 200 stored entries |
| History.FilterContaining | sidepanel.js:113 | filtering never grows the list |
| History.FilterContainingSpec | sidepanel.js:113 | an entry survives exactly when its lower-cased URL contains the keyword; filtering is idempotent |
| History.HistoryViewMatches | sidepanel.js:111-119 | every shown entry matches the keyword; below the cap, every matching entry is shown |
| Headers.UnsafeHeaderNameIgnoresCase | inject.js:101-113 | the unsafe test gives the same answer for a name in any ASCII case |
| Headers.UnsafePrefixFamily | inject.js:101-113 | every name that starts with "sec-" or "proxy-", in any ASCII case, is unsafe whatever follows |
| Headers.UnsafeHeaderExamples | inject.js:101-113 | "content-type" and "x-api-key" are safe; "Cookie" and "Sec-Fetch-Mode" are not |
| Headers.ParseLine | content.js:477-479 | a line without a colon yields nothing; a parsed name is lower case |
| Headers.ParseLines | content.js:476-480 | folding the lines keeps every name lower case |
| Headers.ParseHeaderBlock | content.js:474-480 | every name in the parsed block is lower case |
| Headers.ParseLinesLastWins | content.js:474-480 | a name's value comes from the last line that names it |
| Headers.ParseLinesUntouched | content.js:474-480 | a name no line mentions keeps its earlier value or stays absent |
| Headers.ParseNameValueLine | inject.js:447-450 | `name: value` yields the trimmed lower-cased name and the trimmed rest, even if the rest has colons |
| Pipeline.ContentUrlRewrite | content.js:306-318 | an "http" string redirect wins over any query edit; with no edit and no applicable redirect the URL is unchanged |
| Pipeline.ContentFetch | content.js:297-318 | a throw comes only from the rule search; no rule means the request is untouched; the rule applied is the one at the index the search returns, it matches, and its URL and body edits are applied |
| Pipeline.Absolute | content.js:434 | an unparseable URL stays as written |
| Pipeline.ContentXhrOpen | content.js:427-450 | a throw comes only from the rule search; the rule kept is the one at the index the search returns, and the URL is rewritten only by it, after absolutising |
| Pipeline.ContentXhrTextNeverMerged | content.js:461 | a string XHR body is either unchanged or string-replaced, never JSON-merged |
| Pipeline.ContentXhrAgreesWithFetch | content.js:457-466 | an XMLHttpRequest picks the rule `fetch` picks and sends the body `fetch` sends without init headers; for an absolute URL it also goes to the same URL |
| Pipeline.InjectUrlRewrite | inject.js:193-231 | an "http" string redirect wins; with no edit and no object redirect the URL is unchanged |
| Pipeline.InjectFetch | inject.js:178-247 | the rule search runs on the absolutised URL and the rule applied is the one at the index it returns; rewrites happen only when enabled and matched; the pre-request record reports the original URL, the final URL and whether a rule matched |
| Pipeline.InjectXhrOpen | inject.js:364-388 | the rule kept is the one at the index the search of the absolutised URL returns; the URL is rewritten only when enabled and matched |
| Pipeline.InjectXhrAgreesWithFetch | inject.js:407-432 | opening and sending an XMLHttpRequest under one configuration yields the rule, URL, body and pre-request record `fetch` yields for the same request |
| Pipeline.DisabledPageScriptChangesNothing | inject.js:191 | with `enabled` falsy the page script changes neither URL nor body, and records the URL unchanged |
| Pipeline.HttpRedirectOverridesQuery | inject.js:219-222 | an "http" string redirect overrides any query edit in both scripts |
| Pipeline.HostReplaceIgnoredByPageScript | inject.js:219-231 | a host-only replacement is applied by the content script and ignored by the page script |
| Pipeline.RelativeUrlMatchesOnlyInPageScript | inject.js:178-179 | an exact rule on the absolute URL matches a relative request in the page script but not in the content script |
| Response.Cap | content.js:388 | truncation keeps a prefix of length at most the cap |
| Response.CapFacts | content.js:388 | short text is kept whole, and truncating twice is truncating once |
| Response.MergeBase | content.js:376-377 | an empty response body merges as `{}`; otherwise its parse |
| Response.ContentResponse | content.js:365-396 | status and status text are preserved; without `responseModify` the response is untouched and its headers and capped body are logged; with it the body is capped at 1,048,576 characters, the record holds the edited headers and the new body, and the rebuilt response holds those headers plus `text/plain;charset=UTF-8` when they have no content type; when the status forbids rebuilding, the response stays as it was with no record |
| Response.WithBodyType | content.js:389 | a response built from a string always has a content type: the given one when present, otherwise `text/plain;charset=UTF-8`, with every other header kept |
| Response.RebuiltResponseIsTyped | content.js:389-392 | a rebuilt response always has a content type; when neither the response nor the rule supplies one, the page sees `text/plain;charset=UTF-8` while the record shows none |
| Response.NoContentResponseIsKept | content.js:389 | a 204 response to a rule that rewrites responses reaches the page unchanged and nothing is recorded |
| Response.ResponseMergeResult | content.js:376-382 | for a status that allows rebuilding, the rewritten response parses back to the right-biased merge of the body and `jsonMerge` |
| Response.EmptyResponseMergesIntoEmptyObject | content.js:376-382 | for a status that allows rebuilding, an empty body merged with `jsonMerge` becomes the merge object itself, typed as JSON when untyped |
| Response.MergeShadowsStringReplace | content.js:376-382 | when `jsonMerge` is truthy, `stringReplace` has no effect |
| Response.CaptureAsWritten | inject.js:291-305 | a JSON response is captured re-serialised, a non-JSON one as text, and an unparseable JSON one as empty |
| Response.Capture | inject.js:291-305 | as above, but an unparseable JSON response falls back to its text |
| Response.CaptureFallbackLost | inject.js:293-300 | as written an unparseable JSON response is captured as "", corrected as its text; the two agree on everything else |
| Response.InjectFetchLogBody | inject.js:307 | the logged body is a prefix of the capture of at most 262,144 characters, the whole capture when it fits |
| Response.InjectFetchLogFallback | inject.js:291-307 | as written an unparseable JSON response is logged as "", corrected as the start of its text; on every other response the two logs agree |
| Response.XhrLoad | inject.js:442-451 | the XHR capture is a prefix of the response text no longer than the cap, and header names are lower case |
| Response.ContentCapsAboveInject | inject.js:6 | the page script's capture is a prefix of the content script's |
| Response.ContentForwarded | content.js:396-410 | a record is posted only when the rule opts in and a forward URL is set, and then always unless the rebuild failed; it is capped and carries the rewritten body |
| Response.PageForwardTarget | inject.js:325 | a page capture reaches the collector exactly when the page script forwards it and the service worker's forwarding is on |
| Response.ForwardIsOptIn | content.js:243 | a rule without `forward === true` is never forwarded by either script |
| Response.DefaultBackgroundNeverForwards | background.js:3-8 | under the default configuration nothing reaches the collector |
| Dnr.WildcardFilter | background.js:202 | as written, only a translation `new RegExp` rejects throws; with `?` escaped the filter is the translation's source |
| Dnr.AbortsMeans | background.js:213 | the compile aborts exactly when some rule's filter throws |
| Dnr.Entry | background.js:200-209 | each entry has the given id, priority 1, the redirect URL, the fixed resource types, the rule's filter text and its lower-cased methods |
| Dnr.Selected | background.js:196-204 | only rules that compile to a filter are selected, in order |
| Dnr.SelectedMembers | background.js:196-204 | a rule is selected exactly when it is in the list and compiles |
| Dnr.Entries | background.js:194 | the entries number the selected rules 1000, 1001, … in order |
| Dnr.CompileDnr | background.js:188-214 | a cache that is neither an array nor a string throws; otherwise the update aborts exactly when some filter throws, and otherwise adds the entries of the selected rules and removes every installed id; a string cache adds nothing and removes every installed id |
| Dnr.CompileList | background.js:196-212 | over the rules iterated, the update aborts with a SyntaxError exactly when some eligible rule's filter throws, and otherwise adds the entries of the selected rules numbered from 1000 and removes every installed id |
| Dnr.TextSelectsNothing | background.js:196-199 | copies of `{}` (the characters of a string cache) have no redirect, so none gives an entry and none aborts the update |
| Dnr.ExactFilterMatchesUpToCase | background.js:201-205 | with every syntax character escaped, the installed exact filter, which ignores case, matches exactly the URLs equal to the exact URL up to ASCII case; compared with case it would match only the exact URL |
| Dnr.ExactFilterAsWrittenMissesItself | background.js:195 | as written, the exact filter of "a?b" matches "b" and not "a?b" |
| Dnr.ExactFilterAgreesWithMatcher | background.js:201-205 | the installed escaped exact filter accepts a URL exactly when the service worker's matcher accepts it with URL and rule upper-cased; every URL the matcher accepts is redirected |
| Dnr.ExactOnlyRule | background.js:63 | the service worker tests an exact-only rule by string equality with the URL |
| Dnr.ExactFilterIgnoresCase | background.js:201-205 | a redirect installed for "http://a.com/Path" fires for "http://a.com/path", which the service worker's matcher rejects |
| Dnr.WildcardFilterAgreesWithMatcher | background.js:202-205 | for a wildcard-only rule the installed escaped filter accepts a URL exactly when the corrected matcher accepts it with URL and pattern upper-cased, and accepts every URL the matcher accepts; without `?` in the pattern the matcher as written answers as the corrected one |
| Dnr.RequestMethodsAgreeWithMatcher | background.js:206-208 | a request passes an entry's method condition exactly when it passes the matcher's method test |
| Dnr.WildcardFilterIsGlob | background.js:202-205 | with `?` escaped, the installed wildcard filter matches exactly what the glob matches ignoring case, and compared with case exactly what the glob matches with case |
| Dnr.LeadingQuestionAbortsUpdate | background.js:213 | as written, one wildcard "?a" makes the whole update fail silently; with `?` escaped it does not |
| Dnr.EscapedNeverAborts | background.js:202 | with `?` escaped, no rule list aborts the update |
| SidePanel.ForwardToggle | sidepanel.js:132-141 | only the toggled rule changes, and only its `forward`; the box shows the new state; the rule never has `forward === true` |
| SidePanel.TickedForwardBoxNeverForwards | sidepanel.js:136 | a rule whose forward box is ticked is forwarded by neither script |
| SidePanel.ForwardToggleOptIn | sidepanel.js:136 | the corrected toggle: only the toggled rule's `forward` changes and the box shows the new state |
| SidePanel.ForwardBoxMeansForwarding | content.js:243 | with the corrected toggle, a rule is forwarded exactly when its box is ticked and forwarding is otherwise on |
| SidePanel.EnabledToggle | sidepanel.js:145-151 | only the toggled rule changes, and only its `enabled`; the box shows the new state |
| SidePanel.EnabledToggleGovernsRule | sidepanel.js:147 | an unticked rule is skipped by the two scripts and never compiled into a redirect entry; a ticked one is eligible exactly when it has an "http" redirect |
| SidePanel.DeleteAt | sidepanel.js:166-172 | deleting removes exactly the element at the index and keeps the rest in order |
| SidePanel.DeleteAtMultiset | sidepanel.js:168 | the deleted element plus the remaining ones are the original list as a multiset |
| SidePanel.TrimRows | sidepanel.js:325-326 | rows are trimmed and rows with an empty name dropped |
| SidePanel.TrimRowsKeeps | sidepanel.js:325-326 | every row with a non-blank name is kept, trimmed |
| SidePanel.FromEntries | sidepanel.js:335-336 | the object built from rows maps each name to its last value |
| SidePanel.FromEntriesEmpty | sidepanel.js:335 | no rows build the empty object |
| SidePanel.BodyFromText | sidepanel.js:338 | empty text gives no body change; JSON text becomes `jsonMerge`; other text becomes `stringReplace` from the empty string |
| SidePanel.BuildModify | sidepanel.js:332-340 | `modify` is present exactly when some header row, query row or request body was given; a part is present exactly when its rows are, holding the object built from them |
| SidePanel.BuildResponseModify | sidepanel.js:353-360 | `responseModify` is present exactly when some response header row or response body was given; headers are present exactly when their rows are |
| SidePanel.PathRedirect | sidepanel.js:343-346 | the redirect is replaced by a path replacement only when both fields are non-empty |
| SidePanel.PatternFields | sidepanel.js:321-322 | the pattern goes to exactly one of `wildcard` and `regex`, chosen by the match type |
| SidePanel.BuildRule | sidepanel.js:318-360 | the built rule drops `exact`, holds the pattern in one field, has a name exactly when a non-blank one was given, carries the rebuilt request, redirect and response changes, and keeps `enabled`, `method`, `forward`, `any` and `all` of the edited rule |
| SidePanel.ConfirmRule | sidepanel.js:313-372 | a blank pattern saves nothing; an edit replaces only the edited element; a new rule is appended after all others |
| SidePanel.Fill | sidepanel.js:231-291 | opening a rule shows its wildcard, else its regex, else its exact string as a regex |
| SidePanel.WizardRoundTrip | sidepanel.js:234-236 | building a rule from the wizard and opening it again shows the same name, pattern and match type |
| SidePanel.WizardPathRoundTrip | sidepanel.js:343-346 | a path replacement entered in the wizard reads back unchanged |
| SidePanel.WizardRowsRoundTrip | sidepanel.js:335-336 | header and query rows read back as the object built from them |
| SidePanel.EditingExactRuleMakesRegex | sidepanel.js:236 | confirming an unchanged exact rule stores its URL as a regex and drops `exact` |
| SidePanel.NonJsonWizardBodyIsInterleaved | sidepanel.js:338 | non-JSON wizard body text is inserted between every two characters of the body, in both request and response |
| SidePanel.EnabledToggleConfig | sidepanel.js:179-189 | the master switch writes exactly `enabled`, `forward: {url}`, `historyLimit` (default 500) and a boolean `historyMatchOnly` |
| SidePanel.EnabledToggleStopsForwarding | sidepanel.js:181-186 | after the master switch is used, the service worker never forwards |
| SidePanel.EnabledToggleForwardingExample | sidepanel.js:181-186 | a configuration that forwarded stops forwarding after the switch is flipped |
| SidePanel.EnabledOnlyConfig | sidepanel.js:179 | the corrected switch changes `enabled` and keeps every other stored key |
| SidePanel.EnabledOnlyKeepsForwarding | sidepanel.js:179 | with the corrected switch, forwarding is what it was before, and `enabled` is the switch's state |

## Left out

- I/O and host APIs. These are: storage, runtime messaging, `postMessage` bridging, webRequest listeners, the native `fetch`/XHR calls, `Request` construction, stream cloning, `Response` construction beyond its status check and the content type it adds (`Response.WithBodyType`), the declarative-rule install call, the forwarding HTTP POST, downloads and export. They are I/O, so their inputs and results are parameters.
- The ordering of propagation between contexts, and its races. These are concurrency.
- Timestamps, durations, logging records and console output. These are clocks and side effects.
- options.js. It is form handling.
- The side panel's loading of configuration and sample rules, and all rendering. These are display only.
- The header-mutation helpers `applyHeaderChanges` (content.js) and `hChange` (inject.js). Their call sites are commented out, and headers are left to the declarative rules.
- ECMAScript regular expressions in general, and the RE2 dialect the declarative rules use. `rule.regex` is an oracle. `Wildcard.Compile` covers only the patterns the wildcard translation can produce. The declarative rules' default of matching `regexFilter` without case (`isUrlFilterCaseSensitive` is absent) is modelled as `Dnr.FilterFoldsCase`.
- URL parsing and serialisation, and the normalisation the `pathname`/`host` setters apply. These are an oracle; a setter stores the text as given.
- JSON key order and floating-point numbers. Object property order is not represented, and `JNum` holds integers.
- Unicode case mapping. `Upper`/`Lower` and the `i` flag fold ASCII letters only.
- Non-record entries inside a rule array: `null`, numbers and the like (background.js:197). A rule array holds records. A string stored as the whole rule list is modelled (`Rules.RuleText`): `for...of` visits its characters, which read as the rule `{}`.
- A `method` that is neither a string nor an array.
- A `from: null` replacement entry. It is treated like a missing `from`.
- `SidePanel.ForwardToggle`, `SidePanel.EnabledToggle`: require an index inside the list. The table renders only in-range indices, and a write past the end (an array with holes) has no counterpart in a sequence.
- `SidePanel.ConfirmRule`: the JSON clone of the edited rule (sidepanel.js:318) is treated as the identity, because rule records hold only JSON values.
- `SidePanel.Fill`: the read-back of body editors and header/query tables is modelled through `HeaderRowsOf`/`QueryRowsOf`/`PathOf` only. The pretty-printed JSON text is not.
- `Transform.InjectBodyChange`: an array body is left unchanged, while the source's `delete`/assignment would edit its index properties. Rule bodies are objects.
- `History.HistoryLimit`: a truthy limit that is neither a number nor `true` reads as 0, so the next recorded event empties the history (`History.NonNumericLimitEmptiesHistory`). JavaScript's `slice` would convert numeric text such as "50" to 50, and the model does not. No writer in the extension stores anything but a number or the default 500.
- `Response.Cap`: lengths are counted in characters, while JavaScript's `length` and `slice` count UTF-16 code units. The same holds for the constants `Response.MaxBodySize` and `Response.MaxCapture`. The model agrees with the source on text without characters outside the Basic Multilingual Plane.
- `Response.XhrLoad`: the cap on the captured text is counted in characters, not UTF-16 code units, as for `Response.Cap`.
- `Json.Chars`: a string has one index property per character, while JavaScript has one per UTF-16 code unit; the two agree on text within the Basic Multilingual Plane.
- `Json.Props`: the index properties of a string are per character, not per UTF-16 code unit, as for `Json.Chars`.
- `SidePanel.NonJsonWizardBodyIsInterleaved`: the positions the empty-pattern `replaceAll` fills are between characters, while JavaScript fills them between UTF-16 code units; the two agree on text within the Basic Multilingual Plane.
- `Response.ContentResponse`: of the failures the `catch` at content.js:411 absorbs, only the rejection of a rebuilt response for its status is modelled (a null-body status 204, 205 or 304, or a status outside 200-599). A failing `clone()` or header copy is not modelled, and `clone().text()` is taken to succeed.
- `Transform.UrlRoundTrips`: the round trip is assumed for every URL record, not only for records the parser returns, because the page script serialises records it has edited.

## Findings

| source | as written | input that shows it | evidently intended | confidence | as-written member | corrected member |
|---|---|---|---|---|---|---|
| content.js:110-121 | the wildcard's expression is built outside any `try`, so a wildcard starting with `?` throws a SyntaxError out of the rule search, and the wrapped `fetch` and `open` throw with it; "a?b" selects requests for "b" | a rule with wildcard "?a" and a request for "a" | a wildcard is a glob that matches or not, and the search goes on | not executed; high | Matcher.QuestionWildcardSearch | Matcher.MatchRuleMeaning |
| content.js:98-101 | the wildcard escape class omits `?`, so `?` stays a regex quantifier | wildcard "a?b" matches "b" | `*` is the only wildcard character; everything else is literal | not executed; high | Wildcard.QuestionIsQuantifier | Wildcard.LiteralTranslationIsGlob |
| background.js:202 | a wildcard starting with `?` makes `new RegExp` throw; the catch at line 213 drops the whole declarative update | one enabled rule with wildcard "?a" and redirect "http://x" | every eligible rule is compiled and the rest are unaffected | not executed; high | Dnr.LeadingQuestionAbortsUpdate | Dnr.EscapedNeverAborts |
| background.js:195 | `escapeRegExp` for `exact` omits `*` and `?` | exact "a?b" yields a filter matching "b" and not "a?b" | the exact filter matches only the exact URL, up to the case the installed rule ignores | not executed; high | Dnr.ExactFilterAsWrittenMissesItself | Dnr.ExactFilterMatchesUpToCase |
| sidepanel.js:181-186 | the master switch rebuilds the configuration with `forward: {url}`, dropping `forward.enabled` | stored `forward: {enabled: true, url: "http://x"}`, then flip the switch | the switch changes only `enabled`, as its comment says | not executed; high | SidePanel.EnabledToggleStopsForwarding | SidePanel.EnabledOnlyKeepsForwarding |
| inject.js:293-300 | `c.json()` consumes the body, so the `c.text()` fallback always throws and the capture is empty | a response typed `application/json` whose body is "not json" | an unparseable JSON response is captured as its text | not executed; high | Response.CaptureAsWritten | Response.Capture |
| sidepanel.js:136 | ticking the forward box deletes `forward`, but both scripts forward only on `forward === true` | tick the box of any rule | a ticked box means the rule is forwarded | not executed; medium | SidePanel.TickedForwardBoxNeverForwards | SidePanel.ForwardToggleOptIn |
