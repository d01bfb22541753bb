/** Rule matching: `matchByRule` / `findFirstMatch` (content.js,
    background.js) and `match` / `find` (inject.js).

    One definition serves all three copies; the `Context` selects the two
    places where they differ: the wildcard comparison ignores ASCII case
    only in the content script, and only the service worker does not skip
    rules whose `enabled` is `false`. A wildcard condition is decided by
    `Wildcard.WildcardTest` in one of two readings: `AsWritten`, the
    source's translation, in which `?` is a quantifier and a pattern such
    as "?a" makes the `RegExp` constructor throw out of the search, and
    `Corrected`, in which the test is the glob reading of the pattern. The
    interceptors use `AsWritten`; `ReadingsAgree` shows the readings
    coincide on rules without `?` in a wildcard. A `regex` condition asks
    an oracle, which answers None when `new RegExp` throws. */
module Matcher {
  import opened Common
  import opened Text
  import opened Wildcard
  import opened Rules

  /** `new RegExp(pattern).test(url)`, or None when the pattern does not
      compile. */
  type RegexOracle = (string, string) -> Option<bool>

  /** Whether the wildcard comparison ignores case in this context. */
  predicate FoldsCase(ctx: Context) {
    ctx == ContentScript
  }

  /** The method test `!rule.method || rule.method.toUpperCase() === m ||
      ...`, where `m` is already upper-cased. A list-valued method has no
      `toUpperCase`, so the call throws a TypeError before `Array.isArray`
      is reached. */
  function MethodOk(spec: MethodSpec, m: string): (r: Completion<bool>)
    ensures r.Throw? <==> spec.MethodList?
    ensures r.Throw? ==> r.error == TypeError
    ensures r == Normal(false) <==> spec.OneMethod? && |spec.m| > 0 && Upper(spec.m) != m
  {
    match spec
    case AnyMethod => Normal(true)
    case OneMethod(s) => Normal(|s| == 0 || Upper(s) == m)
    case MethodList(_) => Throw(TypeError)
  }

  /** The wildcard test in this context and reading. */
  function WildcardIn(ctx: Context, mode: Reading, url: string, w: string): Completion<bool> {
    WildcardTest(w, url, FoldsCase(ctx), mode)
  }

  /** The conditions pushed for `exact`, `wildcard` and `regex`, in that
      order; a regex that does not compile pushes nothing (its error is
      caught), while a wildcard whose expression does not compile throws
      out of the matcher before the regex is looked at. */
  function ScalarConds(rx: RegexOracle, ctx: Context, mode: Reading, url: string, r: Rule): (cs: Completion<seq<bool>>)
    ensures cs.Throw? <==> |r.wildcard| > 0 && WildcardIn(ctx, mode, url, r.wildcard).Throw?
    ensures cs.Throw? ==> cs.error == SyntaxError
    ensures cs.Normal? ==> ((true in cs.value) <==>
      (|r.exact| > 0 && url == r.exact)
      || (|r.wildcard| > 0 && WildcardIn(ctx, mode, url, r.wildcard) == Normal(true))
      || (|r.regex| > 0 && rx(r.regex, url) == Some(true)))
    ensures cs.Normal? ==>
      (|cs.value| == 0 <==> |r.exact| == 0 && |r.wildcard| == 0 && (|r.regex| == 0 || rx(r.regex, url).None?))
  {
    var wc := if |r.wildcard| > 0 then Wrap(WildcardIn(ctx, mode, url, r.wildcard)) else Normal([]);
    match wc
    case Throw(e) => Throw(e)
    case Normal(w) =>
      Normal((if |r.exact| > 0 then [url == r.exact] else [])
             + w
             + (if |r.regex| > 0 && rx(r.regex, url).Some? then [rx(r.regex, url).value] else []))
  }

  /** Some condition is present: a nonempty string condition, a regex
      that compiles, or an `any` / `all` list. */
  predicate HasCondition(rx: RegexOracle, url: string, r: Rule) {
    |r.exact| > 0 || |r.wildcard| > 0 || (|r.regex| > 0 && rx(r.regex, url).Some?)
    || r.any.SubRules? || r.all.SubRules?
  }

  /** The method test a list-free method spec imposes. */
  predicate MethodAccepts(spec: MethodSpec, m: string) {
    match spec
    case AnyMethod => true
    case OneMethod(s) => |s| == 0 || Upper(s) == m
    case MethodList(_) => false
  }

  /** `matchByRule(url, verb, rule)`. The conditions are evaluated
      eagerly in the order exact, wildcard, regex, any, all, and the rule
      matches when one of them is true; a rule with no condition never
      matches. A list-valued method throws a TypeError before any
      condition is evaluated, and a wildcard that does not compile throws
      a SyntaxError before the sub-rules are. */
  function MatchRule(rx: RegexOracle, ctx: Context, mode: Reading, url: string, verb: string, r: Rule): (res: Completion<bool>)
    ensures r.httpMethod.MethodList? ==> res == Throw(TypeError)
    ensures res.Throw? ==> res.error == TypeError || res.error == SyntaxError
    ensures res == Normal(true) ==> MethodAccepts(r.httpMethod, Upper(verb)) && HasCondition(rx, url, r)
    decreases r, 1
  {
    var m := Upper(verb);
    match MethodOk(r.httpMethod, m)
    case Throw(e) => Throw(e)
    case Normal(ok) =>
      if !ok then Normal(false)
      else
        match ScalarConds(rx, ctx, mode, url, r)
        case Throw(e) => Throw(e)
        case Normal(sc) =>
          var anyC := if r.any.SubRules? then Wrap(SomeMatch(rx, ctx, mode, url, m, r.any.rules)) else Normal([]);
          if anyC.Throw? then Throw(anyC.error)
          else
            var allC := if r.all.SubRules? then Wrap(EveryMatch(rx, ctx, mode, url, m, r.all.rules)) else Normal([]);
            if allC.Throw? then Throw(allC.error)
            else Normal(true in sc + anyC.value + allC.value)
  }

  /** A one-condition list, or the error. */
  function Wrap(c: Completion<bool>): (r: Completion<seq<bool>>)
    ensures c.Throw? <==> r.Throw?
    ensures c.Throw? ==> r.error == c.error
    ensures c.Normal? ==> r.value == [c.value]
  {
    match c
    case Normal(b) => Normal([b])
    case Throw(e) => Throw(e)
  }

  /** `rules.some(r => matchByRule(url, m, r))`: stops at the first
      sub-rule that matches. */
  function SomeMatch(rx: RegexOracle, ctx: Context, mode: Reading, url: string, m: string, rs: seq<Rule>): (res: Completion<bool>)
    ensures res.Throw? ==> res.error == TypeError || res.error == SyntaxError
    ensures |rs| == 0 ==> res == Normal(false)
    decreases rs, 0
  {
    if |rs| == 0 then Normal(false)
    else
      match MatchRule(rx, ctx, mode, url, m, rs[0])
      case Throw(e) => Throw(e)
      case Normal(b) => if b then Normal(true) else SomeMatch(rx, ctx, mode, url, m, rs[1..])
  }

  /** `rules.every(r => matchByRule(url, m, r))`: stops at the first
      sub-rule that does not match. */
  function EveryMatch(rx: RegexOracle, ctx: Context, mode: Reading, url: string, m: string, rs: seq<Rule>): (res: Completion<bool>)
    ensures res.Throw? ==> res.error == TypeError || res.error == SyntaxError
    ensures |rs| == 0 ==> res == Normal(true)
    decreases rs, 0
  {
    if |rs| == 0 then Normal(true)
    else
      match MatchRule(rx, ctx, mode, url, m, rs[0])
      case Throw(e) => Throw(e)
      case Normal(b) => if !b then Normal(false) else EveryMatch(rx, ctx, mode, url, m, rs[1..])
  }

  // ---------------------------------------------------------------------
  // The declarative reading

  /** No rule in the tree has a list-valued method or a wildcard whose
      expression does not compile in this reading, so evaluation cannot
      throw. */
  predicate ThrowFree(mode: Reading, r: Rule)
    decreases r
  {
    !r.httpMethod.MethodList?
    && (|r.wildcard| > 0 && mode.AsWritten? ==> Compile(Translate(r.wildcard)) != NothingToRepeat)
    && (r.any.SubRules? ==> forall i :: 0 <= i < |r.any.rules| ==> ThrowFree(mode, r.any.rules[i]))
    && (r.all.SubRules? ==> forall i :: 0 <= i < |r.all.rules| ==> ThrowFree(mode, r.all.rules[i]))
  }

  /** What a rule means for an upper-cased method `m`: the method test
      passes and one present condition holds, where `any` is a disjunction
      and `all` a conjunction over sub-rules evaluated with the same URL
      and method. */
  predicate Holds(rx: RegexOracle, ctx: Context, mode: Reading, url: string, m: string, r: Rule)
    decreases r
  {
    MethodAccepts(r.httpMethod, m)
    && ((|r.exact| > 0 && url == r.exact)
        || (|r.wildcard| > 0 && WildcardIn(ctx, mode, url, r.wildcard) == Normal(true))
        || (|r.regex| > 0 && rx(r.regex, url) == Some(true))
        || (r.any.SubRules? && exists i :: 0 <= i < |r.any.rules| && Holds(rx, ctx, mode, url, m, r.any.rules[i]))
        || (r.all.SubRules? && forall i :: 0 <= i < |r.all.rules| ==> Holds(rx, ctx, mode, url, m, r.all.rules[i])))
  }

  /** When nothing in the tree can throw, `matchByRule` computes exactly
      `Holds`. */
  lemma {:induction false} MatchRuleMeaning(rx: RegexOracle, ctx: Context, mode: Reading, url: string, verb: string, r: Rule)
    requires ThrowFree(mode, r)
    ensures MatchRule(rx, ctx, mode, url, verb, r) == Normal(Holds(rx, ctx, mode, url, Upper(verb), r))
    decreases r, 1
  {
    var m := Upper(verb);
    UpperIdempotent(verb);
    assert MethodOk(r.httpMethod, m) == Normal(MethodAccepts(r.httpMethod, m));
    var sc := ScalarConds(rx, ctx, mode, url, r);
    assert sc.Normal?;
    if r.any.SubRules? {
      SomeMatchMeaning(rx, ctx, mode, url, m, r.any.rules);
    }
    if r.all.SubRules? {
      EveryMatchMeaning(rx, ctx, mode, url, m, r.all.rules);
    }
    var anyC := if r.any.SubRules? then Wrap(SomeMatch(rx, ctx, mode, url, m, r.any.rules)) else Normal([]);
    var allC := if r.all.SubRules? then Wrap(EveryMatch(rx, ctx, mode, url, m, r.all.rules)) else Normal([]);
    TrueInConcat(sc.value, anyC.value, allC.value);
  }

  lemma TrueInConcat(a: seq<bool>, b: seq<bool>, c: seq<bool>)
    ensures (true in a + b + c) <==> (true in a) || (true in b) || (true in c)
  {
  }

  lemma {:induction false} SomeMatchMeaning(rx: RegexOracle, ctx: Context, mode: Reading, url: string, m: string, rs: seq<Rule>)
    requires Upper(m) == m
    requires forall i :: 0 <= i < |rs| ==> ThrowFree(mode, rs[i])
    ensures SomeMatch(rx, ctx, mode, url, m, rs) == Normal(exists i :: 0 <= i < |rs| && Holds(rx, ctx, mode, url, m, rs[i]))
    decreases rs, 0
  {
    if |rs| > 0 {
      MatchRuleMeaning(rx, ctx, mode, url, m, rs[0]);
      SomeMatchMeaning(rx, ctx, mode, url, m, rs[1..]);
      if !Holds(rx, ctx, mode, url, m, rs[0]) {
        assert (exists i :: 0 <= i < |rs| && Holds(rx, ctx, mode, url, m, rs[i]))
          <==> (exists i :: 0 <= i < |rs[1..]| && Holds(rx, ctx, mode, url, m, rs[1..][i])) by {
          forall i | 0 <= i < |rs| && Holds(rx, ctx, mode, url, m, rs[i])
            ensures 0 <= i - 1 < |rs[1..]| && Holds(rx, ctx, mode, url, m, rs[1..][i - 1])
          {
            assert i != 0;
          }
        }
      }
    }
  }

  lemma {:induction false} EveryMatchMeaning(rx: RegexOracle, ctx: Context, mode: Reading, url: string, m: string, rs: seq<Rule>)
    requires Upper(m) == m
    requires forall i :: 0 <= i < |rs| ==> ThrowFree(mode, rs[i])
    ensures EveryMatch(rx, ctx, mode, url, m, rs) == Normal(forall i :: 0 <= i < |rs| ==> Holds(rx, ctx, mode, url, m, rs[i]))
    decreases rs, 0
  {
    if |rs| > 0 {
      MatchRuleMeaning(rx, ctx, mode, url, m, rs[0]);
      EveryMatchMeaning(rx, ctx, mode, url, m, rs[1..]);
      if Holds(rx, ctx, mode, url, m, rs[0]) {
        assert (forall i :: 0 <= i < |rs| ==> Holds(rx, ctx, mode, url, m, rs[i]))
          <==> (forall i :: 0 <= i < |rs[1..]| ==> Holds(rx, ctx, mode, url, m, rs[1..][i])) by {
          if forall i :: 0 <= i < |rs[1..]| ==> Holds(rx, ctx, mode, url, m, rs[1..][i]) {
            forall i | 0 <= i < |rs| ensures Holds(rx, ctx, mode, url, m, rs[i]) {
              if i > 0 { assert rs[i] == rs[1..][i - 1]; }
            }
          }
        }
      }
    }
  }

  // ---------------------------------------------------------------------
  // The two readings of a wildcard

  /** No wildcard in the tree contains `?`. */
  predicate QuestionFree(r: Rule)
    decreases r
  {
    '?' !in r.wildcard
    && (r.any.SubRules? ==> forall i :: 0 <= i < |r.any.rules| ==> QuestionFree(r.any.rules[i]))
    && (r.all.SubRules? ==> forall i :: 0 <= i < |r.all.rules| ==> QuestionFree(r.all.rules[i]))
  }

  /** On a rule tree without `?` in its wildcards, the source's reading
      and the escaped one give the same outcome, errors included. */
  lemma {:induction false} ReadingsAgree(rx: RegexOracle, ctx: Context, url: string, verb: string, r: Rule)
    requires QuestionFree(r)
    ensures MatchRule(rx, ctx, AsWritten, url, verb, r) == MatchRule(rx, ctx, Corrected, url, verb, r)
    decreases r, 1
  {
    var m := Upper(verb);
    ReadingsAgreeWithoutQuestion(r.wildcard, url, FoldsCase(ctx));
    if r.any.SubRules? {
      SomeReadingsAgree(rx, ctx, url, m, r.any.rules);
    }
    if r.all.SubRules? {
      EveryReadingsAgree(rx, ctx, url, m, r.all.rules);
    }
  }

  lemma {:induction false} SomeReadingsAgree(rx: RegexOracle, ctx: Context, url: string, m: string, rs: seq<Rule>)
    requires forall i :: 0 <= i < |rs| ==> QuestionFree(rs[i])
    ensures SomeMatch(rx, ctx, AsWritten, url, m, rs) == SomeMatch(rx, ctx, Corrected, url, m, rs)
    decreases rs, 0
  {
    if |rs| > 0 {
      ReadingsAgree(rx, ctx, url, m, rs[0]);
      SomeReadingsAgree(rx, ctx, url, m, rs[1..]);
    }
  }

  lemma {:induction false} EveryReadingsAgree(rx: RegexOracle, ctx: Context, url: string, m: string, rs: seq<Rule>)
    requires forall i :: 0 <= i < |rs| ==> QuestionFree(rs[i])
    ensures EveryMatch(rx, ctx, AsWritten, url, m, rs) == EveryMatch(rx, ctx, Corrected, url, m, rs)
    decreases rs, 0
  {
    if |rs| > 0 {
      ReadingsAgree(rx, ctx, url, m, rs[0]);
      EveryReadingsAgree(rx, ctx, url, m, rs[1..]);
    }
  }

  /** A rule whose only condition is a wildcard, and whose method test
      passes, matches exactly when the wildcard test passes, and throws
      what the test throws. */
  lemma WildcardOnlyRule(rx: RegexOracle, ctx: Context, mode: Reading, url: string, verb: string, r: Rule)
    requires |r.wildcard| > 0 && |r.exact| == 0 && |r.regex| == 0 && r.any.NoSubRules? && r.all.NoSubRules?
    requires !r.httpMethod.MethodList? && MethodAccepts(r.httpMethod, Upper(verb))
    ensures MatchRule(rx, ctx, mode, url, verb, r) == WildcardIn(ctx, mode, url, r.wildcard)
  {
    var w := r.wildcard;
    assert MethodOk(r.httpMethod, Upper(verb)) == Normal(true);
    match WildcardIn(ctx, mode, url, w)
    case Throw(e) =>
    case Normal(b) =>
      assert Wrap(WildcardIn(ctx, mode, url, w)) == Normal([b]);
      assert [] + [b] + [] == [b];
      assert ScalarConds(rx, ctx, mode, url, r) == Normal([b]);
  }

  /** The search over a single rule that is not disabled returns what the
      rule's test returns. */
  lemma FindOne(rx: RegexOracle, ctx: Context, mode: Reading, url: string, verb: string, r: Rule)
    requires r.enabled.None?
    ensures MatchRule(rx, ctx, mode, url, verb, r) == Normal(true) ==> Find(rx, ctx, mode, url, verb, [r]) == Normal(Some(0))
    ensures MatchRule(rx, ctx, mode, url, verb, r) == Normal(false) ==> Find(rx, ctx, mode, url, verb, [r]) == Normal(None)
    ensures MatchRule(rx, ctx, mode, url, verb, r).Throw? ==>
      Find(rx, ctx, mode, url, verb, [r]) == Throw(MatchRule(rx, ctx, mode, url, verb, r).error)
  {
    if MatchRule(rx, ctx, mode, url, verb, r) == Normal(false) {
      FindFromPasses(rx, ctx, mode, url, verb, [r], 0);
    }
  }

  /** As written, a `?` in a wildcard changes the search: "a?b" selects a
      request for "b", and "?a" makes the search throw a SyntaxError, in
      every context; escaped, neither rule matches. */
  lemma QuestionWildcardSearch(rx: RegexOracle, ctx: Context, verb: string)
    ensures Find(rx, ctx, AsWritten, "b", verb, [EmptyRule.(wildcard := "a?b")]) == Normal(Some(0))
    ensures Find(rx, ctx, Corrected, "b", verb, [EmptyRule.(wildcard := "a?b")]) == Normal(None)
    ensures Find(rx, ctx, AsWritten, "a", verb, [EmptyRule.(wildcard := "?a")]) == Throw(SyntaxError)
    ensures Find(rx, ctx, Corrected, "a", verb, [EmptyRule.(wildcard := "?a")]) == Normal(None)
  {
    QuestionWildcardTests(FoldsCase(ctx));
    WildcardOnlyRule(rx, ctx, AsWritten, "b", verb, EmptyRule.(wildcard := "a?b"));
    WildcardOnlyRule(rx, ctx, Corrected, "b", verb, EmptyRule.(wildcard := "a?b"));
    WildcardOnlyRule(rx, ctx, AsWritten, "a", verb, EmptyRule.(wildcard := "?a"));
    WildcardOnlyRule(rx, ctx, Corrected, "a", verb, EmptyRule.(wildcard := "?a"));
    FindOne(rx, ctx, AsWritten, "b", verb, EmptyRule.(wildcard := "a?b"));
    FindOne(rx, ctx, Corrected, "b", verb, EmptyRule.(wildcard := "a?b"));
    FindOne(rx, ctx, AsWritten, "a", verb, EmptyRule.(wildcard := "?a"));
    FindOne(rx, ctx, Corrected, "a", verb, EmptyRule.(wildcard := "?a"));
  }

  /** A method test that fails decides the outcome before any condition
      or sub-rule is looked at, so nothing below can throw. */
  lemma MethodMismatchIsFalse(rx: RegexOracle, ctx: Context, mode: Reading, url: string, verb: string, r: Rule)
    requires r.httpMethod.OneMethod? && |r.httpMethod.m| > 0 && Upper(r.httpMethod.m) != Upper(verb)
    ensures MatchRule(rx, ctx, mode, url, verb, r) == Normal(false)
  {
  }

  /** With an acceptable method and no other condition, an empty `all`
      list matches and an empty `any` list does not. */
  lemma EmptyListsDecide(rx: RegexOracle, ctx: Context, mode: Reading, url: string, verb: string, r: Rule)
    requires !r.httpMethod.MethodList? && MethodAccepts(r.httpMethod, Upper(verb))
    requires |r.exact| == 0 && |r.wildcard| == 0 && |r.regex| == 0
    ensures r.any == SubRules([]) && r.all == NoSubRules ==> MatchRule(rx, ctx, mode, url, verb, r) == Normal(false)
    ensures r.all == SubRules([]) && r.any.SubRules? ==> MatchRule(rx, ctx, mode, url, verb, r) == Normal(true) || MatchRule(rx, ctx, mode, url, verb, r).Throw?
    ensures r.all == SubRules([]) && r.any == NoSubRules ==> MatchRule(rx, ctx, mode, url, verb, r) == Normal(true)
  {
    var m := Upper(verb);
    assert MethodOk(r.httpMethod, m) == Normal(true);
    assert ScalarConds(rx, ctx, mode, url, r) == Normal([]);
  }

  // ---------------------------------------------------------------------
  // Finding the first matching rule

  /** Rules the loop passes over without testing: `enabled === false`,
      except in the service worker, whose loop has no such test. */
  predicate Skipped(ctx: Context, r: Rule) {
    ctx != ServiceWorker && r.enabled == Some(false)
  }

  /** No rule of `rules[from..to]` is selected: each is skipped or does not
      match. */
  predicate NoneSelected(rx: RegexOracle, ctx: Context, mode: Reading, url: string, verb: string, rules: seq<Rule>, from: nat, to: nat)
    requires to <= |rules|
  {
    forall j :: from <= j < to ==> Skipped(ctx, rules[j]) || MatchRule(rx, ctx, mode, url, verb, rules[j]) == Normal(false)
  }

  /** The loop of `findFirstMatch` / `find` from position `from`: the
      index of the earliest rule that is not skipped and matches, None
      when there is none, or the error of the earliest rule whose test
      throws. */
  function FindFrom(rx: RegexOracle, ctx: Context, mode: Reading, url: string, verb: string, rules: seq<Rule>, from: nat): (res: Completion<Option<nat>>)
    requires from <= |rules|
    ensures res.Normal? && res.value.Some? ==>
      from <= res.value.value < |rules| && !Skipped(ctx, rules[res.value.value])
      && MatchRule(rx, ctx, mode, url, verb, rules[res.value.value]) == Normal(true)
    decreases |rules| - from
  {
    if from == |rules| then Normal(None)
    else if Skipped(ctx, rules[from]) then FindFrom(rx, ctx, mode, url, verb, rules, from + 1)
    else
      match MatchRule(rx, ctx, mode, url, verb, rules[from])
      case Throw(e) => Throw(e)
      case Normal(b) => if b then Normal(Some(from)) else FindFrom(rx, ctx, mode, url, verb, rules, from + 1)
  }

  /** What the search returns: a rule index has nothing selected before
      it, None means nothing from `from` on is selected, and an error is
      the error of a rule evaluated after nothing was selected. */
  lemma {:induction false} FindFromSpec(rx: RegexOracle, ctx: Context, mode: Reading, url: string, verb: string, rules: seq<Rule>, from: nat)
    requires from <= |rules|
    ensures var res := FindFrom(rx, ctx, mode, url, verb, rules, from);
      (res.Normal? && res.value.Some? ==> NoneSelected(rx, ctx, mode, url, verb, rules, from, res.value.value))
      && (res == Normal(None) ==> NoneSelected(rx, ctx, mode, url, verb, rules, from, |rules|))
      && (res.Throw? ==>
        exists k :: from <= k < |rules| && !Skipped(ctx, rules[k])
          && MatchRule(rx, ctx, mode, url, verb, rules[k]) == Throw(res.error)
          && NoneSelected(rx, ctx, mode, url, verb, rules, from, k))
    decreases |rules| - from
  {
    if from < |rules| {
      var res := FindFrom(rx, ctx, mode, url, verb, rules, from);
      if Skipped(ctx, rules[from]) || MatchRule(rx, ctx, mode, url, verb, rules[from]) == Normal(false) {
        FindFromPasses(rx, ctx, mode, url, verb, rules, from);
        FindFromSpec(rx, ctx, mode, url, verb, rules, from + 1);
        var to := if res.Normal? && res.value.Some? then res.value.value else |rules|;
        if res.Throw? {
          var k :| from + 1 <= k < |rules| && !Skipped(ctx, rules[k])
            && MatchRule(rx, ctx, mode, url, verb, rules[k]) == Throw(res.error)
            && NoneSelected(rx, ctx, mode, url, verb, rules, from + 1, k);
          NoneSelectedHead(rx, ctx, mode, url, verb, rules, from, k);
        } else {
          NoneSelectedHead(rx, ctx, mode, url, verb, rules, from, to);
        }
      } else if res.Throw? {
        assert NoneSelected(rx, ctx, mode, url, verb, rules, from, from);
      }
    }
  }

  /** A rule passed over extends a run of rules none of which is
      selected. */
  lemma NoneSelectedHead(rx: RegexOracle, ctx: Context, mode: Reading, url: string, verb: string, rules: seq<Rule>, from: nat, to: nat)
    requires from < to <= |rules|
    requires Skipped(ctx, rules[from]) || MatchRule(rx, ctx, mode, url, verb, rules[from]) == Normal(false)
    requires NoneSelected(rx, ctx, mode, url, verb, rules, from + 1, to)
    ensures NoneSelected(rx, ctx, mode, url, verb, rules, from, to)
  {
  }

  /** `findFirstMatch(url, verb)` over the whole list. */
  function Find(rx: RegexOracle, ctx: Context, mode: Reading, url: string, verb: string, rules: seq<Rule>): Completion<Option<nat>> {
    FindFrom(rx, ctx, mode, url, verb, rules, 0)
  }

  /** The loop over a cached rule value. An array is searched; a string
      is iterated character by character, and no character matches; any
      other value is not iterable and makes `for...of` throw a
      TypeError. */
  function FindIn(rx: RegexOracle, ctx: Context, mode: Reading, url: string, verb: string, rv: RulesValue): (res: Completion<Option<nat>>)
    ensures rv.NotArray? ==> res == Throw(TypeError)
    ensures rv.RuleText? ==> res == Normal(None)
    ensures res.Normal? && res.value.Some? ==>
      rv.RuleArray? && res.value.value < |rv.rs| && MatchRule(rx, ctx, mode, url, verb, rv.rs[res.value.value]) == Normal(true)
    ensures rv.RuleArray? && res == Normal(None) ==> NoneSelected(rx, ctx, mode, url, verb, rv.rs, 0, |rv.rs|)
  {
    match Elements(rv)
    case None => Throw(TypeError)
    case Some(rs) =>
      FindFromSpec(rx, ctx, mode, url, verb, rs, 0);
      if rv.RuleText? then
        FindNothing(rx, ctx, mode, url, verb, rs, 0);
        Find(rx, ctx, mode, url, verb, rs)
      else Find(rx, ctx, mode, url, verb, rs)
  }

  /** The rule `{}` matches nothing: its method test passes and it has no
      condition to hold. */
  lemma EmptyRuleNeverMatches(rx: RegexOracle, ctx: Context, mode: Reading, url: string, verb: string)
    ensures MatchRule(rx, ctx, mode, url, verb, EmptyRule) == Normal(false)
  {
    assert ScalarConds(rx, ctx, mode, url, EmptyRule) == Normal([]);
  }

  /** A search over copies of `{}` runs to the end without a result. */
  lemma {:induction false} FindNothing(rx: RegexOracle, ctx: Context, mode: Reading, url: string, verb: string, rules: seq<Rule>, from: nat)
    requires from <= |rules|
    requires forall j :: 0 <= j < |rules| ==> rules[j] == EmptyRule
    ensures FindFrom(rx, ctx, mode, url, verb, rules, from) == Normal(None)
    decreases |rules| - from
  {
    if from < |rules| {
      EmptyRuleNeverMatches(rx, ctx, mode, url, verb);
      FindNothing(rx, ctx, mode, url, verb, rules, from + 1);
    }
  }

  /** The result is the earliest selectable rule: a rule that is
      selected and comes earlier than every other selected rule. If some
      rule is selected and nothing before it throws, `Find` returns it. */
  lemma {:induction false} FindEarliest(rx: RegexOracle, ctx: Context, mode: Reading, url: string, verb: string, rules: seq<Rule>, k: nat)
    requires k < |rules| && !Skipped(ctx, rules[k])
    requires MatchRule(rx, ctx, mode, url, verb, rules[k]) == Normal(true)
    requires NoneSelected(rx, ctx, mode, url, verb, rules, 0, k)
    ensures Find(rx, ctx, mode, url, verb, rules) == Normal(Some(k))
  {
    FindFromReaches(rx, ctx, mode, url, verb, rules, 0, k);
  }

  lemma {:induction false} FindFromReaches(rx: RegexOracle, ctx: Context, mode: Reading, url: string, verb: string, rules: seq<Rule>, from: nat, k: nat)
    requires from <= k < |rules| && !Skipped(ctx, rules[k])
    requires MatchRule(rx, ctx, mode, url, verb, rules[k]) == Normal(true)
    requires NoneSelected(rx, ctx, mode, url, verb, rules, from, k)
    ensures FindFrom(rx, ctx, mode, url, verb, rules, from) == Normal(Some(k))
    decreases k - from
  {
    if from < k {
      NoneSelectedTail(rx, ctx, mode, url, verb, rules, from, k);
      FindFromPasses(rx, ctx, mode, url, verb, rules, from);
      FindFromReaches(rx, ctx, mode, url, verb, rules, from + 1, k);
    } else {
      FindFromHit(rx, ctx, mode, url, verb, rules, k);
    }
  }

  lemma NoneSelectedTail(rx: RegexOracle, ctx: Context, mode: Reading, url: string, verb: string, rules: seq<Rule>, from: nat, k: nat)
    requires from < k <= |rules|
    requires NoneSelected(rx, ctx, mode, url, verb, rules, from, k)
    ensures Skipped(ctx, rules[from]) || MatchRule(rx, ctx, mode, url, verb, rules[from]) == Normal(false)
    ensures NoneSelected(rx, ctx, mode, url, verb, rules, from + 1, k)
  {
  }

  /** A rule that is not skipped and matches ends the search. */
  lemma FindFromHit(rx: RegexOracle, ctx: Context, mode: Reading, url: string, verb: string, rules: seq<Rule>, k: nat)
    requires k < |rules| && !Skipped(ctx, rules[k])
    requires MatchRule(rx, ctx, mode, url, verb, rules[k]) == Normal(true)
    ensures FindFrom(rx, ctx, mode, url, verb, rules, k) == Normal(Some(k))
  {
  }

  /** A rule that is skipped or does not match hands the search on. */
  lemma FindFromPasses(rx: RegexOracle, ctx: Context, mode: Reading, url: string, verb: string, rules: seq<Rule>, from: nat)
    requires from < |rules|
    requires Skipped(ctx, rules[from]) || MatchRule(rx, ctx, mode, url, verb, rules[from]) == Normal(false)
    ensures FindFrom(rx, ctx, mode, url, verb, rules, from) == FindFrom(rx, ctx, mode, url, verb, rules, from + 1)
  {
  }

  /** The service worker returns a disabled rule that matches; the other
      two contexts pass over it. */
  lemma DisabledRuleOnlyInServiceWorker(rx: RegexOracle, mode: Reading, url: string, verb: string, r: Rule)
    requires r.enabled == Some(false)
    requires MatchRule(rx, ServiceWorker, mode, url, verb, r) == Normal(true)
    ensures Find(rx, ServiceWorker, mode, url, verb, [r]) == Normal(Some(0))
    ensures Find(rx, ContentScript, mode, url, verb, [r]) == Normal(None)
    ensures Find(rx, PageScript, mode, url, verb, [r]) == Normal(None)
  {
    FindFromPasses(rx, ContentScript, mode, url, verb, [r], 0);
    FindFromPasses(rx, PageScript, mode, url, verb, [r], 0);
  }
}
