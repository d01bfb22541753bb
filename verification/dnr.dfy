/** `applyDNRFromRules` of background.js as a pure compile: from the ids
    of the dynamic rules installed now and the cached rule list, the
    `{addRules, removeRuleIds}` update it hands to
    `chrome.declarativeNetRequest.updateDynamicRules`.

    Every rule that is not disabled and whose redirect is a string
    starting with "http" yields one redirect entry, filtered by a regular
    expression taken from `exact`, else `wildcard`, else `regex`. Any
    error inside the compile is caught and nothing is updated, which is
    modelled as a `Throw` result.

    The filter texts are built in one of the two readings of
    `Common.Reading`: `AsWritten` escapes as the source does (neither `?`
    nor, for an exact URL, `*` is escaped), `Corrected` escapes every pattern
    syntax character of an exact URL and `?` in a wildcard; see the
    Findings section of README.md. */
module Dnr {
  import opened Common
  import opened Text
  import opened Wildcard
  import opened Rules
  import opened Matcher
  import opened Transform

  /** The resource types every entry is limited to. */
  const ResourceTypes: seq<string> := ["main_frame", "sub_frame", "xmlhttprequest", "other"]

  /** The id of the first added entry. */
  const FirstId: nat := 1000

  /** One dynamic rule: `{id, priority, action: {type: 'redirect',
      redirect: {url}}, condition: {regexFilter, resourceTypes,
      requestMethods?}}`. */
  datatype DnrRule = DnrRule(
    id: nat,
    priority: nat,
    redirectUrl: string,
    regexFilter: string,
    resourceTypes: seq<string>,
    requestMethods: Option<seq<string>>)

  datatype DnrUpdate = DnrUpdate(addRules: seq<DnrRule>, removeRuleIds: seq<nat>)

  /** `'^' + escapeRegExp(rule.exact) + '$'`. */
  function ExactFilter(e: string, mode: Reading): string {
    "^" + EscapeChars(e, if mode == AsWritten then MetaOnly else AllSyntax) + "$"
  }

  /** `wildcardToRegExp(rule.wildcard).source`: constructing the regular
      expression throws a SyntaxError when the translated text repeats
      nothing (a leading `?`, say). */
  function WildcardFilter(w: string, mode: Reading): (f: Completion<string>)
    ensures f.Throw? ==> mode.AsWritten? && f.error == SyntaxError && Compile(Translate(w)) == NothingToRepeat
    ensures mode.Corrected? ==> f == Normal(Source(TranslateLiteral(w)))
  {
    if mode.Corrected? then Normal(Source(TranslateLiteral(w)))
    else if Compile(Translate(w)) == NothingToRepeat then Throw(SyntaxError)
    else Normal(Source(Translate(w)))
  }

  /** The `regexFilter` of a rule, by priority exact, wildcard, regex;
      None when the rule has none of the three. */
  function RegexFilter(r: Rule, mode: Reading): (f: Option<Completion<string>>)
    ensures f.None? <==> |r.exact| == 0 && |r.wildcard| == 0 && |r.regex| == 0
    ensures |r.exact| > 0 ==> f == Some(Normal(ExactFilter(r.exact, mode)))
    ensures |r.exact| == 0 && |r.wildcard| > 0 ==> f == Some(WildcardFilter(r.wildcard, mode))
    ensures |r.exact| == 0 && |r.wildcard| == 0 && |r.regex| > 0 ==> f == Some(Normal(r.regex))
  {
    if |r.exact| > 0 then Some(Normal(ExactFilter(r.exact, mode)))
    else if |r.wildcard| > 0 then Some(WildcardFilter(r.wildcard, mode))
    else if |r.regex| > 0 then Some(Normal(r.regex))
    else None
  }

  /** The filter text, or "" when there is none. */
  function FilterText(r: Rule, mode: Reading): string {
    match RegexFilter(r, mode)
    case Some(Normal(t)) => t
    case _ => ""
  }

  /** Rules the loop considers: not `enabled === false`, with an http
      string redirect. */
  predicate Eligible(r: Rule) {
    r.enabled != Some(false) && IsHttpRedirect(r.redirect)
  }

  /** Eligible rules that also have a filter source give an entry. */
  predicate Compiles(r: Rule, mode: Reading) {
    Eligible(r) && RegexFilter(r, mode).Some?
  }

  /** Eligible rules whose wildcard throws abort the whole update. */
  predicate Breaks(r: Rule, mode: Reading) {
    Compiles(r, mode) && RegexFilter(r, mode).value.Throw?
  }

  /** Some rule of the list aborts the update. */
  predicate Aborts(rs: seq<Rule>, mode: Reading)
    decreases |rs|
  {
    |rs| > 0 && (Aborts(rs[..|rs| - 1], mode) || Breaks(rs[|rs| - 1], mode))
  }

  /** The update is aborted exactly when some rule of the list breaks. */
  lemma {:induction false} AbortsMeans(rs: seq<Rule>, mode: Reading)
    ensures Aborts(rs, mode) <==> exists i :: 0 <= i < |rs| && Breaks(rs[i], mode)
    decreases |rs|
  {
    if |rs| > 0 {
      var init := rs[..|rs| - 1];
      AbortsMeans(init, mode);
      if Aborts(init, mode) {
        var i :| 0 <= i < |init| && Breaks(init[i], mode);
        assert rs[i] == init[i];
      }
      if exists i :: 0 <= i < |rs| && Breaks(rs[i], mode) {
        var i :| 0 <= i < |rs| && Breaks(rs[i], mode);
        if i < |rs| - 1 {
          assert init[i] == rs[i];
        }
      }
    }
  }

  /** `requestMethods`: absent when the rule has no (or an empty) method,
      every listed method lower-cased otherwise. */
  function RequestMethods(spec: MethodSpec): (ms: Option<seq<string>>)
    ensures spec.AnyMethod? ==> ms.None?
    ensures spec.OneMethod? ==> ms == if |spec.m| == 0 then None else Some([Lower(spec.m)])
    ensures spec.MethodList? ==>
      ms.Some? && |ms.value| == |spec.ms| && forall i :: 0 <= i < |spec.ms| ==> ms.value[i] == Lower(spec.ms[i])
  {
    match spec
    case AnyMethod => None
    case OneMethod(m) => if |m| == 0 then None else Some([Lower(m)])
    case MethodList(ms) => Some(seq(|ms|, i requires 0 <= i < |ms| => Lower(ms[i])))
  }

  /** The method condition of an entry admits the same requests as the
      matcher's method test: a request whose lower-cased method is listed,
      or any request when the condition is absent. */
  lemma RequestMethodsAgreeWithMatcher(spec: MethodSpec, verb: string)
    requires !spec.MethodList?
    ensures (RequestMethods(spec).None? || Lower(verb) in RequestMethods(spec).value) <==> MethodAccepts(spec, Upper(verb))
  {
    if spec.OneMethod? && |spec.m| > 0 {
      UpperEqualsIffLowerEquals(spec.m, verb);
      UpperIdempotent(verb);
    }
  }

  /** The entry a compiled rule gives. */
  function Entry(r: Rule, id: nat, mode: Reading): (d: DnrRule)
    requires Eligible(r)
    ensures d.id == id && d.priority == 1 && d.redirectUrl == r.redirect.url
    ensures d.resourceTypes == ResourceTypes
    ensures d.regexFilter == FilterText(r, mode) && d.requestMethods == RequestMethods(r.httpMethod)
  {
    DnrRule(id, 1, r.redirect.url, FilterText(r, mode), ResourceTypes, RequestMethods(r.httpMethod))
  }

  /** The rules that give an entry, in list order. */
  function Selected(rs: seq<Rule>, mode: Reading): (sel: seq<Rule>)
    ensures |sel| <= |rs|
    ensures forall j :: 0 <= j < |sel| ==> Compiles(sel[j], mode)
    decreases |rs|
  {
    if |rs| == 0 then []
    else
      var last := rs[|rs| - 1];
      Selected(rs[..|rs| - 1], mode) + (if Compiles(last, mode) then [last] else [])
  }

  /** A rule gives an entry exactly when it is in the list and
      compiles. */
  lemma {:induction false} SelectedMembers(rs: seq<Rule>, mode: Reading)
    ensures forall r :: r in Selected(rs, mode) <==> r in rs && Compiles(r, mode)
    decreases |rs|
  {
    if |rs| > 0 {
      var init := rs[..|rs| - 1];
      SelectedMembers(init, mode);
      assert rs == init + [rs[|rs| - 1]];
    }
  }

  /** The entries for a selection, numbered from 1000 in order. */
  function Entries(sel: seq<Rule>, mode: Reading): (d: seq<DnrRule>)
    requires forall j :: 0 <= j < |sel| ==> Eligible(sel[j])
    ensures |d| == |sel|
    ensures forall j :: 0 <= j < |sel| ==> d[j] == Entry(sel[j], FirstId + j, mode)
  {
    seq(|sel|, j requires 0 <= j < |sel| => Entry(sel[j], FirstId + j, mode))
  }

  /** The compile. A rule value that is neither an array nor a string
      makes `for...of` throw, and a wildcard that does not compile throws
      a SyntaxError; either aborts the update. Otherwise every installed
      rule is removed and one entry is added per compiling rule, numbered
      from 1000 in list order; the characters of a string have no
      redirect, so a string cache removes every installed rule and adds
      none. */
  method CompileDnr(existing: seq<nat>, rv: RulesValue, mode: Reading) returns (res: Completion<DnrUpdate>)
    ensures rv.NotArray? <==> res == Throw(TypeError)
    ensures !rv.NotArray? ==> (res.Throw? <==> Aborts(Elements(rv).value, mode))
    ensures res.Throw? && !rv.NotArray? ==> res.error == SyntaxError
    ensures res.Normal? ==> !rv.NotArray? && res.value == DnrUpdate(Entries(Selected(Elements(rv).value, mode), mode), existing)
    ensures rv.RuleText? ==> res == Normal(DnrUpdate([], existing))
  {
    if rv.NotArray? {
      return Throw(TypeError);
    }
    var rs := Elements(rv).value;
    if rv.RuleText? {
      TextSelectsNothing(rs, mode);
    }
    res := CompileList(existing, rs, mode);
  }

  /** The loop of the compile over the rules it iterates. */
  method CompileList(existing: seq<nat>, rs: seq<Rule>, mode: Reading) returns (res: Completion<DnrUpdate>)
    ensures res.Throw? <==> Aborts(rs, mode)
    ensures res.Throw? ==> res.error == SyntaxError
    ensures res.Normal? ==> res.value == DnrUpdate(Entries(Selected(rs, mode), mode), existing)
  {
    var add: seq<DnrRule> := [];
    ghost var sel: seq<Rule> := [];
    var i := 0;
    while i < |rs|
      invariant 0 <= i <= |rs|
      invariant !Aborts(rs[..i], mode)
      invariant sel == Selected(rs[..i], mode)
      invariant add == Entries(sel, mode)
    {
      SelectedStep(rs, i, mode);
      assert rs[..i + 1][..i] == rs[..i];
      if Breaks(rs[i], mode) {
        AbortsExtends(rs, i, mode);
        return Throw(SyntaxError);
      }
      if Compiles(rs[i], mode) {
        EntriesStep(sel, rs[i], mode);
        add := add + [Entry(rs[i], FirstId + |add|, mode)];
        sel := sel + [rs[i]];
      }
      i := i + 1;
    }
    assert rs[..i] == rs;
    return Normal(DnrUpdate(add, existing));
  }

  /** Copies of `{}` have no redirect: none gives an entry and none
      aborts the update. */
  lemma {:induction false} TextSelectsNothing(rs: seq<Rule>, mode: Reading)
    requires forall j :: 0 <= j < |rs| ==> rs[j] == EmptyRule
    ensures Selected(rs, mode) == [] && !Aborts(rs, mode)
    decreases |rs|
  {
    if |rs| > 0 {
      TextSelectsNothing(rs[..|rs| - 1], mode);
      assert !Compiles(rs[|rs| - 1], mode);
    }
  }

  /** A rule that breaks aborts every list it is in. */
  lemma AbortsExtends(rs: seq<Rule>, i: nat, mode: Reading)
    requires i < |rs| && Breaks(rs[i], mode)
    ensures Aborts(rs, mode)
  {
    AbortsMeans(rs, mode);
  }

  /** Selecting one more rule appends its entry. */
  lemma EntriesStep(sel: seq<Rule>, r: Rule, mode: Reading)
    requires forall j :: 0 <= j < |sel| ==> Eligible(sel[j])
    requires Eligible(r)
    ensures Entries(sel + [r], mode) == Entries(sel, mode) + [Entry(r, FirstId + |sel|, mode)]
  {
  }

  /** One more rule either adds itself at the end of the selection or
      leaves it as it was. */
  lemma SelectedStep(rs: seq<Rule>, i: nat, mode: Reading)
    requires i < |rs|
    ensures Selected(rs[..i + 1], mode) == Selected(rs[..i], mode) + (if Compiles(rs[i], mode) then [rs[i]] else [])
  {
    assert rs[..i + 1][..i] == rs[..i];
  }

  // ---------------------------------------------------------------------
  // What the installed filters match

  /** An entry's condition has no `isUrlFilterCaseSensitive`, whose
      default in the declarativeNetRequest API is false, so the browser
      tests its `regexFilter` ignoring ASCII case. The service worker's
      own matcher compares with case. */
  const FilterFoldsCase := true

  /** With every syntax character escaped, an exact filter accepts
      exactly the URLs equal to the rule's up to ASCII case; compared
      with case it would accept the rule's URL alone. */
  lemma ExactFilterMatchesUpToCase(e: string, s: string)
    ensures Compile(ExactFilter(e, Corrected)) == Terms(LiteralTerms(e))
    ensures TermsMatch(Compile(ExactFilter(e, Corrected)).ts, s, FilterFoldsCase) <==> Upper(s) == Upper(e)
    ensures TermsMatch(Compile(ExactFilter(e, Corrected)).ts, s, false) <==> s == e
  {
    CompileEscapedLiteral(e);
    LiteralTermsMatch(e, s);
    LiteralTermsMatchFolded(e, s);
  }

  /** As written, the exact filter of "a?b" reads `?` as a quantifier: it
      accepts "b" and rejects "a?b" itself. */
  lemma ExactFilterAsWrittenMissesItself()
    ensures Compile(ExactFilter("a?b", AsWritten)) == Terms([Term(Char('a'), Opt), Term(Char('b'), One)])
    ensures TermsMatch(Compile(ExactFilter("a?b", AsWritten)).ts, "b", false)
    ensures !TermsMatch(Compile(ExactFilter("a?b", AsWritten)).ts, "a?b", false)
  {
    assert EscapeChars("b", MetaOnly) == "b";
    assert EscapeChars("?b", MetaOnly) == "?b";
    assert EscapeChars("a?b", MetaOnly) == "a?b";
    EscapeThenStar("a?b", MetaOnly);
    assert Flat("b", MetaOnly) == "b";
    assert Flat("?b", MetaOnly) == "?b";
    assert Flat("a?b", MetaOnly) == "a?b";
    assert ExactFilter("a?b", AsWritten) == Translate("a?b");
    QuestionIsQuantifier();
    var ts := [Term(Char('a'), Opt), Term(Char('b'), One)];
    assert "a?b"[1..] == "?b";
    assert !TermsMatch(ts[1..], "?b", false);
  }

  /** The service worker's test of an exact-only rule is string
      equality with the URL. */
  lemma ExactOnlyRule(rx: RegexOracle, mode: Reading, r: Rule, url: string, verb: string)
    requires |r.exact| > 0 && |r.wildcard| == 0 && |r.regex| == 0
    requires r.any.NoSubRules? && r.all.NoSubRules?
    requires !r.httpMethod.MethodList? && MethodAccepts(r.httpMethod, Upper(verb))
    ensures MatchRule(rx, ServiceWorker, mode, url, verb, r) == Normal(url == r.exact)
  {
    assert MethodOk(r.httpMethod, Upper(verb)) == Normal(true);
    assert [url == r.exact] + [] + [] == [url == r.exact];
    assert ScalarConds(rx, ServiceWorker, mode, url, r) == Normal([url == r.exact]);
  }

  /** For an exact-only rule the installed redirect and the service
      worker's matcher agree up to ASCII case: the filter accepts a URL
      exactly when the matcher accepts it once URL and rule are both
      upper-cased, so every URL the matcher accepts is redirected, and so
      is every URL that differs from the rule's only in case. */
  lemma ExactFilterAgreesWithMatcher(rx: RegexOracle, r: Rule, url: string, verb: string)
    requires |r.exact| > 0 && |r.wildcard| == 0 && |r.regex| == 0
    requires r.any.NoSubRules? && r.all.NoSubRules?
    requires !r.httpMethod.MethodList? && MethodAccepts(r.httpMethod, Upper(verb))
    ensures Compile(ExactFilter(r.exact, Corrected)) == Terms(LiteralTerms(r.exact))
    ensures MatchRule(rx, ServiceWorker, AsWritten, url, verb, r) == Normal(url == r.exact)
    ensures TermsMatch(Compile(ExactFilter(r.exact, Corrected)).ts, url, FilterFoldsCase) <==>
      MatchRule(rx, ServiceWorker, AsWritten, Upper(url), verb, r.(exact := Upper(r.exact))) == Normal(true)
    ensures MatchRule(rx, ServiceWorker, AsWritten, url, verb, r) == Normal(true) ==>
      TermsMatch(Compile(ExactFilter(r.exact, Corrected)).ts, url, FilterFoldsCase)
  {
    ExactFilterMatchesUpToCase(r.exact, url);
    ExactOnlyRule(rx, AsWritten, r, url, verb);
    ExactOnlyRule(rx, AsWritten, r.(exact := Upper(r.exact)), Upper(url), verb);
  }

  /** A redirect installed for "http://a.com/Path" also fires for
      "http://a.com/path", which the service worker's matcher rejects. */
  lemma ExactFilterIgnoresCase(rx: RegexOracle, r: Rule, verb: string)
    requires r.exact == "http://a.com/Path" && |r.wildcard| == 0 && |r.regex| == 0
    requires r.any.NoSubRules? && r.all.NoSubRules?
    requires !r.httpMethod.MethodList? && MethodAccepts(r.httpMethod, Upper(verb))
    ensures Compile(ExactFilter(r.exact, Corrected)) == Terms(LiteralTerms(r.exact))
    ensures TermsMatch(Compile(ExactFilter(r.exact, Corrected)).ts, "http://a.com/path", FilterFoldsCase)
    ensures MatchRule(rx, ServiceWorker, AsWritten, "http://a.com/path", verb, r) == Normal(false)
  {
    ExactFilterMatchesUpToCase(r.exact, "http://a.com/path");
    ExactOnlyRule(rx, AsWritten, r, "http://a.com/path", verb);
    assert Upper("http://a.com/path") == Upper(r.exact) by {
      assert Upper("http://a.com/path")[13] == UpperChar('p') == 'P';
      assert Upper(r.exact)[13] == UpperChar('P') == 'P';
    }
    assert "http://a.com/path"[13] != r.exact[13];
  }

  /** For a wildcard without line terminators the escaped filter is the
      glob reading of the pattern: ignoring case as installed, and with
      case when compared as the service worker compares. */
  lemma WildcardFilterIsGlob(w: string, s: string)
    requires NoLineTerminator(w)
    ensures Compile(WildcardFilter(w, Corrected).value) == Terms(GlobTerms(w))
    ensures TermsMatch(Compile(WildcardFilter(w, Corrected).value).ts, s, FilterFoldsCase) == GlobMatch(w, s, true)
    ensures TermsMatch(Compile(WildcardFilter(w, Corrected).value).ts, s, false) == GlobMatch(w, s, false)
  {
    CompileSourceLiteral(w);
    GlobTermsMatch(w, s, true);
    GlobTermsMatch(w, s, false);
  }

  /** For a wildcard-only rule the installed redirect and the service
      worker's matcher agree up to ASCII case: the filter accepts a URL
      exactly when the (corrected) matcher accepts it once URL and
      pattern are both upper-cased, and every URL the matcher accepts is
      redirected. When the pattern has no `?` the matcher as written
      gives the same answers as the corrected one. */
  lemma WildcardFilterAgreesWithMatcher(rx: RegexOracle, r: Rule, url: string, verb: string)
    requires |r.exact| == 0 && |r.wildcard| > 0 && |r.regex| == 0 && NoLineTerminator(r.wildcard)
    requires r.any.NoSubRules? && r.all.NoSubRules?
    requires !r.httpMethod.MethodList? && MethodAccepts(r.httpMethod, Upper(verb))
    ensures FilterText(r, Corrected) == WildcardFilter(r.wildcard, Corrected).value
    ensures Compile(FilterText(r, Corrected)) == Terms(GlobTerms(r.wildcard))
    ensures MatchRule(rx, ServiceWorker, Corrected, url, verb, r) == Normal(GlobMatch(r.wildcard, url, false))
    ensures TermsMatch(Compile(FilterText(r, Corrected)).ts, url, FilterFoldsCase) <==>
      MatchRule(rx, ServiceWorker, Corrected, Upper(url), verb, r.(wildcard := Upper(r.wildcard))) == Normal(true)
    ensures MatchRule(rx, ServiceWorker, Corrected, url, verb, r) == Normal(true) ==>
      TermsMatch(Compile(FilterText(r, Corrected)).ts, url, FilterFoldsCase)
    ensures '?' !in r.wildcard ==>
      MatchRule(rx, ServiceWorker, AsWritten, url, verb, r) == MatchRule(rx, ServiceWorker, Corrected, url, verb, r)
  {
    WildcardFilterIsGlob(r.wildcard, url);
    GlobMatchFolded(r.wildcard, url);
    GlobMatchCaseImpliesFolded(r.wildcard, url);
    WildcardOnlyRule(rx, ServiceWorker, Corrected, url, verb, r);
    WildcardOnlyRule(rx, ServiceWorker, Corrected, Upper(url), verb, r.(wildcard := Upper(r.wildcard)));
    WildcardOnlyRule(rx, ServiceWorker, AsWritten, url, verb, r);
    if '?' !in r.wildcard {
      ReadingsAgreeWithoutQuestion(r.wildcard, url, false);
    }
  }

  /** As written, one eligible rule whose wildcard starts with `?` aborts
      the whole update, so no redirect is installed and none removed; with
      `?` escaped the same list compiles. */
  lemma LeadingQuestionAbortsUpdate(rs: seq<Rule>, i: nat)
    requires i < |rs| && Eligible(rs[i]) && |rs[i].exact| == 0 && rs[i].wildcard == "?a"
    ensures Aborts(rs, AsWritten)
    ensures !Aborts(rs, Corrected)
  {
    LeadingQuestionRejected();
    assert Breaks(rs[i], AsWritten);
    AbortsExtends(rs, i, AsWritten);
    EscapedNeverAborts(rs);
  }

  /** With `?` escaped every wildcard compiles, so no list aborts. */
  lemma {:induction false} EscapedNeverAborts(rs: seq<Rule>)
    ensures !Aborts(rs, Corrected)
    decreases |rs|
  {
    if |rs| > 0 {
      EscapedNeverAborts(rs[..|rs| - 1]);
    }
  }
}
