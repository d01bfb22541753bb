/** Wildcard patterns and the regular expressions built from them.

    `wildcardToRegExp` (content.js, background.js) and `toRE` (inject.js)
    escape the characters `. + ^ $ { } ( ) | [ ] \` with a backslash,
    replace every `*` by `.*`, and anchor the result with `^` and `$`.
    `applyDNRFromRules` (background.js) builds a filter for an exact URL
    with the same escaping and reads a wildcard filter back through
    `RegExp.prototype.source`.

    To say what such a pattern matches, this module reads the regular
    expression text back: `Lex` and `Compile` accept the fragment of
    ECMAScript pattern syntax these strings use (literal characters,
    backslash escapes of syntax characters, `.`, and the quantifiers `*`
    and `?`), and `TermsMatch` is the `test` of the anchored result. The
    glob reading of a wildcard pattern is `GlobMatch`. */
module Wildcard {
  import opened Common
  import opened Text

  // ---------------------------------------------------------------------
  // Characters

  /** The class `[.+^${}()|\[\]\\]` the source escapes. */
  predicate IsMeta(c: char) {
    c == '.' || c == '+' || c == '^' || c == '$' || c == '{' || c == '}'
    || c == '(' || c == ')' || c == '|' || c == '[' || c == ']' || c == '\\'
  }

  /** The ECMAScript pattern syntax characters: the escaped class plus the
      two quantifiers `*` and `?`. */
  predicate IsSyntax(c: char) {
    IsMeta(c) || c == '*' || c == '?'
  }

  /** `.` without the `s` flag matches any character but these. */
  predicate IsLineTerminator(c: char) {
    c == '\n' || c == '\r' || c as int == 0x2028 || c as int == 0x2029
  }

  /** The characters an escaping pass puts a backslash in front of. */
  datatype EscapeSet =
    | MetaOnly        // the class the source uses
    | MetaAndQuestion // also `?`, so that only `*` stays special
    | AllSyntax       // also `*`: every syntax character

  predicate Escapes(e: EscapeSet, c: char) {
    match e
    case MetaOnly => IsMeta(c)
    case MetaAndQuestion => IsMeta(c) || c == '?'
    case AllSyntax => IsSyntax(c)
  }

  // ---------------------------------------------------------------------
  // Building the pattern text

  /** `s.replace(/[...]/g, "\\$&")` for the class `e`. */
  function EscapeChars(s: string, e: EscapeSet): (r: string)
    ensures |r| >= |s|
    decreases |s|
  {
    if |s| == 0 then []
    else (if Escapes(e, s[0]) then ['\\', s[0]] else [s[0]]) + EscapeChars(s[1..], e)
  }

  /** `wildcardToRegExp(p).source` text before `.source` rewriting, as the
      source builds it: escape, then turn each `*` into `.*`, then
      anchor. */
  function Translate(p: string): string {
    "^" + ReplaceAll(EscapeChars(p, MetaOnly), "*", ".*") + "$"
  }

  /** The translation with `?` escaped as well, so that `*` is the only
      wildcard character. */
  function TranslateLiteral(p: string): string {
    "^" + ReplaceAll(EscapeChars(p, MetaAndQuestion), "*", ".*") + "$"
  }

  /** What one pattern character becomes after both passes. */
  function Enc(c: char, e: EscapeSet): string {
    if c == '*' then ".*"
    else if Escapes(e, c) then ['\\', c]
    else [c]
  }

  function Flat(p: string, e: EscapeSet): string
    decreases |p|
  {
    if |p| == 0 then [] else Enc(p[0], e) + Flat(p[1..], e)
  }

  /** Replacing a one-character pattern distributes over concatenation. */
  lemma {:induction false} ReplaceAllOneConcat(a: string, b: string, c: char, t: string)
    ensures ReplaceAll(a + b, [c], t) == ReplaceAll(a, [c], t) + ReplaceAll(b, [c], t)
    decreases |a|
  {
    if |a| == 0 {
      assert a + b == b;
    } else {
      assert (a + b)[1..] == a[1..] + b;
      assert StartsWith(a + b, [c]) <==> StartsWith(a, [c]);
      ReplaceAllOneConcat(a[1..], b, c, t);
    }
  }

  /** The two passes of the translation act character by character. */
  lemma {:induction false} EscapeThenStar(p: string, e: EscapeSet)
    requires e != AllSyntax
    ensures ReplaceAll(EscapeChars(p, e), "*", ".*") == Flat(p, e)
    decreases |p|
  {
    if |p| > 0 {
      var head := if Escapes(e, p[0]) then ['\\', p[0]] else [p[0]];
      assert EscapeChars(p, e) == head + EscapeChars(p[1..], e);
      ReplaceAllOneConcat(head, EscapeChars(p[1..], e), '*', ".*");
      EscapeThenStar(p[1..], e);
      ReplaceHead(p[0], e);
    }
  }

  /** One escaped pattern character, with `*` replaced, is its encoding. */
  lemma ReplaceHead(c: char, e: EscapeSet)
    requires e != AllSyntax
    ensures ReplaceAll(if Escapes(e, c) then ['\\', c] else [c], "*", ".*") == Enc(c, e)
  {
    if Escapes(e, c) {
      ReplaceAllOneConcat(['\\'], [c], '*', ".*");
      assert ['\\', c] == ['\\'] + [c];
    }
  }

  /** On a pattern without `?` the source's translation and the literal
      one agree. */
  lemma {:induction false} TranslateWithoutQuestion(p: string)
    requires '?' !in p
    ensures Translate(p) == TranslateLiteral(p)
  {
    EscapeNoQuestion(p);
  }

  lemma {:induction false} EscapeNoQuestion(p: string)
    requires '?' !in p
    ensures EscapeChars(p, MetaOnly) == EscapeChars(p, MetaAndQuestion)
    decreases |p|
  {
    if |p| > 0 {
      assert p[0] in p;
      assert forall c :: c in p[1..] ==> c in p;
      EscapeNoQuestion(p[1..]);
    }
  }

  // ---------------------------------------------------------------------
  // Reading the pattern text back

  datatype Token =
    | Lit(c: char)  // a literal character, written plainly or escaped
    | Dot
    | StarQ
    | QMark
    | Caret
    | Dollar
    | Bad           // anything outside the fragment

  /** What a backslash may precede in the fragment: syntax characters and
      `/`, each standing for itself. */
  predicate Escapable(c: char) {
    IsSyntax(c) || c == '/'
  }

  /** The token of one unescaped character. */
  function PlainToken(c: char): Token {
    if c == '.' then Dot
    else if c == '*' then StarQ
    else if c == '?' then QMark
    else if c == '^' then Caret
    else if c == '$' then Dollar
    else if IsMeta(c) then Bad
    else Lit(c)
  }

  function Lex(s: string): seq<Token>
    decreases |s|
  {
    if |s| == 0 then []
    else if s[0] == '\\' then
      if |s| >= 2 && Escapable(s[1]) then [Lit(s[1])] + Lex(s[2..]) else [Bad]
    else [PlainToken(s[0])] + Lex(s[1..])
  }

  datatype Atom = Char(c: char) | AnyChar
  datatype Quant = One | Star | Opt
  datatype Term = Term(atom: Atom, quant: Quant)

  /** Outcome of compiling: a term list, the SyntaxError "nothing to
      repeat", or text outside the fragment. */
  datatype Compiled = Terms(ts: seq<Term>) | NothingToRepeat | Unsupported

  /** What the previous token left: nothing yet, an atom that a quantifier
      may follow, a quantifier (which may take one `?` making it lazy), or
      a lazy quantifier. */
  datatype ParseState = AtStart | AfterAtom | AfterQuant | AfterLazy

  function Quantify(acc: seq<Term>, q: Quant): (r: seq<Term>)
    requires |acc| > 0
    ensures |r| == |acc|
  {
    acc[..|acc| - 1] + [Term(acc[|acc| - 1].atom, q)]
  }

  function ParseBody(toks: seq<Token>, acc: seq<Term>, st: ParseState): Compiled
    requires st == AfterAtom ==> |acc| > 0
    decreases |toks|
  {
    if |toks| == 0 then Terms(acc)
    else
      match toks[0]
      case Lit(c) => ParseBody(toks[1..], acc + [Term(Char(c), One)], AfterAtom)
      case Dot => ParseBody(toks[1..], acc + [Term(AnyChar, One)], AfterAtom)
      case StarQ =>
        if st == AfterAtom then ParseBody(toks[1..], Quantify(acc, Star), AfterQuant)
        else NothingToRepeat
      case QMark =>
        if st == AfterAtom then ParseBody(toks[1..], Quantify(acc, Opt), AfterQuant)
        else if st == AfterQuant then ParseBody(toks[1..], acc, AfterLazy)
        else NothingToRepeat
      case _ => Unsupported
  }

  /** `new RegExp(src)` for an anchored source `^...$`. */
  function Compile(src: string): Compiled {
    var toks := Lex(src);
    if |toks| >= 2 && toks[0] == Caret && toks[|toks| - 1] == Dollar then
      ParseBody(toks[1..|toks| - 1], [], AtStart)
    else Unsupported
  }

  // ---------------------------------------------------------------------
  // Matching

  /** Character comparison, with the ASCII case folding of the `i` flag
      when `fold` is set. */
  function Canon(c: char, fold: bool): char {
    if fold then UpperChar(c) else c
  }

  predicate AtomMatches(a: Atom, c: char, fold: bool) {
    match a
    case Char(x) => Canon(x, fold) == Canon(c, fold)
    case AnyChar => !IsLineTerminator(c)
  }

  /** `test` of the anchored regular expression: the whole of `s` is
      matched by the terms, in order. */
  predicate TermsMatch(ts: seq<Term>, s: string, fold: bool)
    decreases |ts| + |s|
  {
    if |ts| == 0 then |s| == 0
    else
      var t := ts[0];
      match t.quant
      case One => |s| > 0 && AtomMatches(t.atom, s[0], fold) && TermsMatch(ts[1..], s[1..], fold)
      case Opt =>
        TermsMatch(ts[1..], s, fold)
        || (|s| > 0 && AtomMatches(t.atom, s[0], fold) && TermsMatch(ts[1..], s[1..], fold))
      case Star =>
        TermsMatch(ts[1..], s, fold)
        || (|s| > 0 && AtomMatches(t.atom, s[0], fold) && TermsMatch(ts, s[1..], fold))
  }

  /** The glob reading of a wildcard pattern: `*` stands for any run of
      characters other than line terminators, every other character for
      itself (up to ASCII case when `fold` is set), anchored at both
      ends. */
  predicate GlobMatch(p: string, s: string, fold: bool)
    decreases |p| + |s|
  {
    if |p| == 0 then |s| == 0
    else if p[0] == '*' then
      GlobMatch(p[1..], s, fold) || (|s| > 0 && !IsLineTerminator(s[0]) && GlobMatch(p, s[1..], fold))
    else |s| > 0 && Canon(p[0], fold) == Canon(s[0], fold) && GlobMatch(p[1..], s[1..], fold)
  }

  function GlobTerm(c: char): Term {
    if c == '*' then Term(AnyChar, Star) else Term(Char(c), One)
  }

  /** The terms a glob pattern stands for. */
  function GlobTerms(p: string): (ts: seq<Term>)
    ensures |ts| == |p|
    ensures forall i :: 0 <= i < |p| ==> ts[i] == GlobTerm(p[i])
  {
    seq(|p|, i requires 0 <= i < |p| => GlobTerm(p[i]))
  }

  /** The glob terms accept exactly what the glob reading accepts. */
  lemma {:induction false} GlobTermsMatch(p: string, s: string, fold: bool)
    ensures TermsMatch(GlobTerms(p), s, fold) == GlobMatch(p, s, fold)
    decreases |p| + |s|
  {
    if |p| > 0 {
      var ts := GlobTerms(p);
      assert ts[1..] == GlobTerms(p[1..]);
      GlobTermsMatch(p[1..], s, fold);
      if |s| > 0 {
        GlobTermsMatch(p[1..], s[1..], fold);
        GlobTermsMatch(p, s[1..], fold);
      }
    }
  }

  /** Matching a glob with case folding is matching the upper-cased glob
      against the upper-cased text without it. */
  lemma {:induction false} GlobMatchFolded(p: string, s: string)
    ensures GlobMatch(p, s, true) == GlobMatch(Upper(p), Upper(s), false)
    decreases |p| + |s|
  {
    if |p| > 0 {
      assert Upper(p)[1..] == Upper(p[1..]);
      GlobMatchFolded(p[1..], s);
      if |s| > 0 {
        assert Upper(s)[1..] == Upper(s[1..]);
        GlobMatchFolded(p[1..], s[1..]);
        GlobMatchFolded(p, s[1..]);
      }
    }
  }

  /** What a glob accepts with case it also accepts without. */
  lemma {:induction false} GlobMatchCaseImpliesFolded(p: string, s: string)
    ensures GlobMatch(p, s, false) ==> GlobMatch(p, s, true)
    decreases |p| + |s|
  {
    if |p| > 0 {
      GlobMatchCaseImpliesFolded(p[1..], s);
      if |s| > 0 {
        GlobMatchCaseImpliesFolded(p[1..], s[1..]);
        GlobMatchCaseImpliesFolded(p, s[1..]);
      }
    }
  }

  // ---------------------------------------------------------------------
  // The translation read back

  /** The tokens one pattern character becomes. */
  function CharTokens(c: char, e: EscapeSet): seq<Token> {
    if c == '*' then [Dot, StarQ]
    else if Escapes(e, c) then [Lit(c)]
    else [PlainToken(c)]
  }

  function Tokens(p: string, e: EscapeSet): seq<Token>
    decreases |p|
  {
    if |p| == 0 then [] else CharTokens(p[0], e) + Tokens(p[1..], e)
  }

  lemma LexEnc(c: char, e: EscapeSet, tail: string)
    requires e != AllSyntax
    ensures Lex(Enc(c, e) + tail) == CharTokens(c, e) + Lex(tail)
  {
    if c == '*' {
      assert (".*" + tail)[1..] == "*" + tail;
      assert ("*" + tail)[1..] == tail;
    } else if Escapes(e, c) {
      assert (['\\', c] + tail)[2..] == tail;
    } else {
      assert ([c] + tail)[1..] == tail;
    }
  }

  /** Lexing the translated text yields the tokens character by
      character. */
  lemma {:induction false} LexFlat(p: string, e: EscapeSet, tail: string)
    requires e != AllSyntax
    ensures Lex(Flat(p, e) + tail) == Tokens(p, e) + Lex(tail)
    decreases |p|
  {
    if |p| > 0 {
      FlatHead(p, e, tail);
      LexEnc(p[0], e, Flat(p[1..], e) + tail);
      LexFlat(p[1..], e, tail);
    } else {
      assert Flat(p, e) + tail == tail;
    }
  }

  lemma FlatHead(p: string, e: EscapeSet, tail: string)
    requires |p| > 0
    ensures Flat(p, e) + tail == Enc(p[0], e) + (Flat(p[1..], e) + tail)
  {
  }

  lemma ParseLit(c: char, rest: seq<Token>, acc: seq<Term>, st: ParseState)
    requires st == AfterAtom ==> |acc| > 0
    ensures ParseBody([Lit(c)] + rest, acc, st) == ParseBody(rest, acc + [Term(Char(c), One)], AfterAtom)
  {
    assert ([Lit(c)] + rest)[1..] == rest;
  }

  lemma ParseDotStar(rest: seq<Token>, acc: seq<Term>, st: ParseState)
    requires st == AfterAtom ==> |acc| > 0
    ensures ParseBody([Dot, StarQ] + rest, acc, st) == ParseBody(rest, acc + [Term(AnyChar, Star)], AfterQuant)
  {
    var toks := [Dot, StarQ] + rest;
    var acc1 := acc + [Term(AnyChar, One)];
    assert toks[1..] == [StarQ] + rest;
    assert ([StarQ] + rest)[1..] == rest;
    assert ParseBody(toks, acc, st) == ParseBody([StarQ] + rest, acc1, AfterAtom);
    assert Quantify(acc1, Star) == acc + [Term(AnyChar, Star)];
  }

  /** Parsing the tokens of a `?`-escaped pattern appends its glob terms,
      whatever the state it starts in. */
  lemma {:induction false} ParseTokens(p: string, acc: seq<Term>, st: ParseState)
    requires st == AfterAtom ==> |acc| > 0
    ensures ParseBody(Tokens(p, MetaAndQuestion), acc, st) == Terms(acc + GlobTerms(p))
    decreases |p|
  {
    var e := MetaAndQuestion;
    if |p| == 0 {
      assert acc + GlobTerms(p) == acc;
    } else {
      var c := p[0];
      var rest := Tokens(p[1..], e);
      assert Tokens(p, e) == CharTokens(c, e) + rest;
      assert GlobTerms(p) == [GlobTerm(c)] + GlobTerms(p[1..]);
      assert acc + GlobTerms(p) == (acc + [GlobTerm(c)]) + GlobTerms(p[1..]);
      if c == '*' {
        ParseDotStar(rest, acc, st);
        ParseTokens(p[1..], acc + [Term(AnyChar, Star)], AfterQuant);
      } else {
        assert CharTokens(c, e) == [Lit(c)];
        ParseLit(c, rest, acc, st);
        ParseTokens(p[1..], acc + [Term(Char(c), One)], AfterAtom);
      }
    }
  }

  /** A caret in front adds its token in front. */
  lemma LexCaret(rest: string)
    ensures Lex("^" + rest) == [Caret] + Lex(rest)
  {
    assert ("^" + rest)[1..] == rest;
  }

  /** An anchored source compiles to what its inner tokens parse to. */
  lemma CompileAnchored(src: string, inner: seq<Token>)
    requires Lex(src) == [Caret] + inner + [Dollar]
    ensures Compile(src) == ParseBody(inner, [], AtStart)
  {
    var toks := Lex(src);
    assert toks[1..|toks| - 1] == inner;
  }

  /** The translated text reads as a caret, the tokens of each pattern
      character and a dollar. */
  lemma LexTranslated(p: string, e: EscapeSet)
    requires e != AllSyntax
    ensures Lex("^" + ReplaceAll(EscapeChars(p, e), "*", ".*") + "$") == [Caret] + Tokens(p, e) + [Dollar]
  {
    TranslatedIsFlat(p, e);
    LexAnchoredFlat(p, e);
  }

  /** The translation is the anchored character-by-character encoding. */
  lemma TranslatedIsFlat(p: string, e: EscapeSet)
    requires e != AllSyntax
    ensures "^" + ReplaceAll(EscapeChars(p, e), "*", ".*") + "$" == "^" + (Flat(p, e) + "$")
  {
    EscapeThenStar(p, e);
  }

  lemma LexAnchoredFlat(p: string, e: EscapeSet)
    requires e != AllSyntax
    ensures Lex("^" + (Flat(p, e) + "$")) == [Caret] + Tokens(p, e) + [Dollar]
  {
    LexCaret(Flat(p, e) + "$");
    LexFlat(p, e, "$");
    assert Lex("$") == [Dollar];
  }

  /** The literal translation compiles, and it compiles to the glob
      terms of the pattern. */
  lemma CompileTranslateLiteral(p: string)
    ensures Compile(TranslateLiteral(p)) == Terms(GlobTerms(p))
  {
    LexTranslated(p, MetaAndQuestion);
    CompileAnchored(TranslateLiteral(p), Tokens(p, MetaAndQuestion));
    ParseTokens(p, [], AtStart);
  }

  /** Testing a URL against the literal translation is the glob reading
      of the pattern. */
  lemma LiteralTranslationIsGlob(p: string, s: string, fold: bool)
    ensures Compile(TranslateLiteral(p)).Terms?
    ensures TermsMatch(Compile(TranslateLiteral(p)).ts, s, fold) == GlobMatch(p, s, fold)
  {
    CompileTranslateLiteral(p);
    GlobTermsMatch(p, s, fold);
  }

  /** `wildcardToRegExp(p)` as the source writes it compiles to whatever
      the tokens of its characters parse to. */
  lemma CompileTranslate(p: string)
    ensures Compile(Translate(p)) == ParseBody(Tokens(p, MetaOnly), [], AtStart)
  {
    LexTranslated(p, MetaOnly);
    CompileAnchored(Translate(p), Tokens(p, MetaOnly));
  }

  /** Under the source's translation a `?` in a wildcard is a regular
      expression quantifier: "a?b" accepts "b", which the glob reading of
      "a?b" does not. */
  lemma QuestionIsQuantifier()
    ensures Compile(Translate("a?b")) == Terms([Term(Char('a'), Opt), Term(Char('b'), One)])
    ensures TermsMatch(Compile(Translate("a?b")).ts, "b", false)
    ensures !GlobMatch("a?b", "b", false)
  {
    CompileTranslate("a?b");
    QuestionTokens();
    var ts := [Term(Char('a'), Opt), Term(Char('b'), One)];
    assert ParseBody([Lit('b')], [Term(Char('a'), Opt)], AfterQuant) == Terms(ts);
    assert ParseBody([QMark, Lit('b')], [Term(Char('a'), One)], AfterAtom) == Terms(ts);
    assert TermsMatch(ts[1..], "b", false);
  }

  lemma QuestionTokens()
    ensures Tokens("a?b", MetaOnly) == [Lit('a'), QMark, Lit('b')]
  {
    assert Tokens("b", MetaOnly) == [Lit('b')];
    assert Tokens("?b", MetaOnly) == [QMark, Lit('b')];
  }

  /** Under the source's translation a wildcard that starts with `?`
      gives "^?...", which `new RegExp` rejects with a SyntaxError
      ("nothing to repeat"). */
  lemma LeadingQuestionRejected()
    ensures Compile(Translate("?a")) == NothingToRepeat
  {
    CompileTranslate("?a");
    assert Tokens("a", MetaOnly) == [Lit('a')];
    assert Tokens("?a", MetaOnly) == [QMark, Lit('a')];
  }

  /** The tokens of a pattern under the source's escaping hold nothing
      outside the fragment: a caret, a dollar and the characters of the
      escaped class only ever appear escaped. */
  predicate PlainFragment(toks: seq<Token>) {
    forall i :: 0 <= i < |toks| ==> InFragment(toks[i])
  }

  predicate InFragment(t: Token) {
    t.Lit? || t == Dot || t == StarQ || t == QMark
  }

  lemma {:induction false} TokensPlain(p: string)
    ensures PlainFragment(Tokens(p, MetaOnly))
    decreases |p|
  {
    if |p| > 0 {
      TokensPlain(p[1..]);
      var head := CharTokens(p[0], MetaOnly);
      var rest := Tokens(p[1..], MetaOnly);
      assert Tokens(p, MetaOnly) == head + rest;
      assert PlainFragment(head);
      forall i | 0 <= i < |head + rest| ensures InFragment((head + rest)[i]) {
        if i >= |head| {
          assert (head + rest)[i] == rest[i - |head|];
        }
      }
    }
  }

  lemma {:induction false} ParsePlainCompiles(toks: seq<Token>, acc: seq<Term>, st: ParseState)
    requires st == AfterAtom ==> |acc| > 0
    requires PlainFragment(toks)
    ensures ParseBody(toks, acc, st) != Unsupported
    decreases |toks|
  {
    if |toks| > 0 {
      var rest := toks[1..];
      assert PlainFragment(rest) by {
        forall i | 0 <= i < |rest| ensures InFragment(rest[i]) {
          assert rest[i] == toks[i + 1];
        }
      }
      var t := toks[0];
      assert InFragment(t);
      if t.Lit? {
        ParsePlainCompiles(rest, acc + [Term(Char(t.c), One)], AfterAtom);
      } else if t == Dot {
        ParsePlainCompiles(rest, acc + [Term(AnyChar, One)], AfterAtom);
      } else if t == StarQ {
        if st == AfterAtom {
          ParsePlainCompiles(rest, Quantify(acc, Star), AfterQuant);
        }
      } else if st == AfterAtom {
        ParsePlainCompiles(rest, Quantify(acc, Opt), AfterQuant);
      } else if st == AfterQuant {
        ParsePlainCompiles(rest, acc, AfterLazy);
      }
    }
  }

  /** The source's translation either compiles or is rejected with
      "nothing to repeat"; it never leaves the fragment. */
  lemma TranslateCompilesOrRepeatsNothing(p: string)
    ensures Compile(Translate(p)).Terms? || Compile(Translate(p)) == NothingToRepeat
  {
    CompileTranslate(p);
    TokensPlain(p);
    ParsePlainCompiles(Tokens(p, MetaOnly), [], AtStart);
  }

  // ---------------------------------------------------------------------
  // Testing a URL against a wildcard

  /** The regular expression text a wildcard becomes: as the source
      builds it, or corrected with `?` escaped as well. */
  function WildcardSource(w: string, mode: Reading): string {
    if mode.AsWritten? then Translate(w) else TranslateLiteral(w)
  }

  /** `wildcardToRegExp(w).test(s)`: the `RegExp` constructor throws a
      SyntaxError when the text does not compile, and otherwise the
      anchored expression is tested against the whole of `s`. As written
      that error happens exactly when the translation repeats nothing;
      escaped, the test is the glob reading of the pattern. */
  function WildcardTest(w: string, s: string, fold: bool, mode: Reading): (r: Completion<bool>)
    ensures r.Throw? <==> mode.AsWritten? && Compile(Translate(w)) == NothingToRepeat
    ensures r.Throw? ==> r.error == SyntaxError
    ensures mode.Corrected? ==> r == Normal(GlobMatch(w, s, fold))
  {
    TranslateCompilesOrRepeatsNothing(w);
    LiteralTranslationIsGlob(w, s, fold);
    match Compile(WildcardSource(w, mode))
    case Terms(ts) => Normal(TermsMatch(ts, s, fold))
    case _ => Throw(SyntaxError)
  }

  /** Without a `?` in the pattern the two readings agree: the source's
      test is the glob reading. */
  lemma ReadingsAgreeWithoutQuestion(w: string, s: string, fold: bool)
    requires '?' !in w
    ensures WildcardTest(w, s, fold, AsWritten) == WildcardTest(w, s, fold, Corrected) == Normal(GlobMatch(w, s, fold))
  {
    TranslateWithoutQuestion(w);
  }

  /** As written, "a?b" accepts "b" and "?a" throws; escaped, "a?b"
      rejects "b" and "?a" rejects "a", with or without case folding. */
  lemma QuestionWildcardTests(fold: bool)
    ensures WildcardTest("a?b", "b", fold, AsWritten) == Normal(true)
    ensures WildcardTest("a?b", "b", fold, Corrected) == Normal(false)
    ensures WildcardTest("?a", "a", fold, AsWritten) == Throw(SyntaxError)
    ensures WildcardTest("?a", "a", fold, Corrected) == Normal(false)
  {
    QuestionIsQuantifier();
    LeadingQuestionRejected();
    assert TermsMatch([Term(Char('a'), Opt), Term(Char('b'), One)], "b", fold) by {
      assert TermsMatch([Term(Char('b'), One)], "b", fold) by {
        assert "b"[1..] == [];
      }
    }
    assert !GlobMatch("a?b", "b", fold);
    assert !GlobMatch("?a", "a", fold);
  }

  // ---------------------------------------------------------------------
  // `RegExp.prototype.source`

  /** The text `.source` gives back: `/` is written `\/` and line
      terminators as escapes, everything else as it is. */
  function SourceChar(c: char): string {
    if c == '/' then ['\\', '/']
    else if c == '\n' then ['\\', 'n']
    else if c == '\r' then ['\\', 'r']
    else if c as int == 0x2028 then "\\u2028"
    else if c as int == 0x2029 then "\\u2029"
    else [c]
  }

  function Source(s: string): string
    decreases |s|
  {
    if |s| == 0 then [] else SourceChar(s[0]) + Source(s[1..])
  }

  lemma {:induction false} SourceConcat(a: string, b: string)
    ensures Source(a + b) == Source(a) + Source(b)
    decreases |a|
  {
    if |a| > 0 {
      assert (a + b)[1..] == a[1..] + b;
      SourceConcat(a[1..], b);
    } else {
      assert a + b == b;
    }
  }

  predicate NoLineTerminator(s: string) {
    forall i :: 0 <= i < |s| ==> !IsLineTerminator(s[i])
  }

  /** Rewriting one translated character for `.source` leaves its tokens
      as they were. */
  lemma LexSourceEnc(c: char, tail: string)
    requires !IsLineTerminator(c)
    ensures Lex(Source(Enc(c, MetaAndQuestion)) + tail) == CharTokens(c, MetaAndQuestion) + Lex(tail)
  {
    var e := MetaAndQuestion;
    if c == '*' {
      assert Source(".*") == ".*" by {
        assert ".*"[1..] == "*" && "*"[1..] == [];
      }
      LexEnc(c, e, tail);
    } else if Escapes(e, c) {
      assert Source(['\\', c]) == ['\\', c] by {
        assert ['\\', c][1..] == [c];
        assert [c][1..] == [];
        assert SourceChar(c) == [c];
        assert Source([c]) == [c] + Source([]);
        assert Source(['\\', c]) == SourceChar('\\') + Source([c]);
      }
      LexEnc(c, e, tail);
    } else if c == '/' {
      assert Source(['/']) == ['\\', '/'];
      assert (['\\', '/'] + tail)[2..] == tail;
    } else {
      assert Source([c]) == [c];
      LexEnc(c, e, tail);
    }
  }

  lemma {:induction false} LexSourceFlat(p: string, tail: string)
    requires NoLineTerminator(p)
    ensures Lex(Source(Flat(p, MetaAndQuestion)) + tail) == Tokens(p, MetaAndQuestion) + Lex(tail)
    decreases |p|
  {
    var e := MetaAndQuestion;
    if |p| > 0 {
      SourceConcat(Enc(p[0], e), Flat(p[1..], e));
      assert Source(Flat(p, e)) + tail == Source(Enc(p[0], e)) + (Source(Flat(p[1..], e)) + tail);
      LexSourceEnc(p[0], Source(Flat(p[1..], e)) + tail);
      LexSourceFlat(p[1..], tail);
    } else {
      assert Source(Flat(p, e)) + tail == tail;
    }
  }

  /** For a pattern without line terminators, the `.source` text of the
      literal translation compiles to the same glob terms as the
      translation itself. */
  lemma CompileSourceLiteral(p: string)
    requires NoLineTerminator(p)
    ensures Compile(Source(TranslateLiteral(p))) == Terms(GlobTerms(p))
  {
    LexSourceTranslated(p);
    CompileAnchored(Source(TranslateLiteral(p)), Tokens(p, MetaAndQuestion));
    ParseTokens(p, [], AtStart);
  }

  lemma LexSourceTranslated(p: string)
    requires NoLineTerminator(p)
    ensures Lex(Source(TranslateLiteral(p))) == [Caret] + Tokens(p, MetaAndQuestion) + [Dollar]
  {
    TranslatedIsFlat(p, MetaAndQuestion);
    LexSourceAnchoredFlat(p);
  }

  lemma LexSourceAnchoredFlat(p: string)
    requires NoLineTerminator(p)
    ensures Lex(Source("^" + (Flat(p, MetaAndQuestion) + "$"))) == [Caret] + Tokens(p, MetaAndQuestion) + [Dollar]
  {
    var body := Flat(p, MetaAndQuestion);
    SourceAnchored(body);
    LexCaret(Source(body) + "$");
    LexSourceFlat(p, "$");
    assert Lex("$") == [Dollar];
  }

  /** The anchors are their own `.source` text. */
  lemma SourceAnchored(body: string)
    ensures Source("^" + (body + "$")) == "^" + (Source(body) + "$")
  {
    SourceConcat("^", body + "$");
    SourceConcat(body, "$");
    assert Source("^") == "^" && Source("$") == "$";
  }

  // ---------------------------------------------------------------------
  // Corrected literal text

  /** The tokens of escaped literal text: an escaped character reads as
      itself, an unescaped one as its plain token. */
  function EscTokens(s: string, e: EscapeSet): seq<Token>
    decreases |s|
  {
    if |s| == 0 then []
    else [if Escapes(e, s[0]) then Lit(s[0]) else PlainToken(s[0])] + EscTokens(s[1..], e)
  }

  lemma {:induction false} LexEscaped(s: string, e: EscapeSet, tail: string)
    ensures Lex(EscapeChars(s, e) + tail) == EscTokens(s, e) + Lex(tail)
    decreases |s|
  {
    if |s| > 0 {
      var rest := EscapeChars(s[1..], e) + tail;
      EscapeCharsHead(s, e, tail);
      LexEscapedChar(s[0], e, rest);
      LexEscaped(s[1..], e, tail);
    } else {
      assert EscapeChars(s, e) + tail == tail;
    }
  }

  lemma EscapeCharsHead(s: string, e: EscapeSet, tail: string)
    requires |s| > 0
    ensures EscapeChars(s, e) + tail == (if Escapes(e, s[0]) then ['\\', s[0]] else [s[0]]) + (EscapeChars(s[1..], e) + tail)
  {
  }

  lemma LexEscapedChar(c: char, e: EscapeSet, rest: string)
    ensures Lex((if Escapes(e, c) then ['\\', c] else [c]) + rest)
      == [if Escapes(e, c) then Lit(c) else PlainToken(c)] + Lex(rest)
  {
    if Escapes(e, c) {
      assert (['\\', c] + rest)[2..] == rest;
    } else {
      assert ([c] + rest)[1..] == rest;
    }
  }

  /** Literal text: every character stands for itself, once. */
  function LiteralTerms(s: string): (ts: seq<Term>)
    ensures |ts| == |s|
    ensures forall i :: 0 <= i < |s| ==> ts[i] == Term(Char(s[i]), One)
  {
    seq(|s|, i requires 0 <= i < |s| => Term(Char(s[i]), One))
  }

  /** Literal terms accept exactly the text they were built from. */
  lemma {:induction false} LiteralTermsMatch(e: string, s: string)
    ensures TermsMatch(LiteralTerms(e), s, false) <==> s == e
    decreases |e|
  {
    if |e| > 0 {
      assert LiteralTerms(e)[1..] == LiteralTerms(e[1..]);
      if |s| > 0 {
        LiteralTermsMatch(e[1..], s[1..]);
        if s[0] == e[0] && s[1..] == e[1..] {
          assert s == [s[0]] + s[1..] && e == [e[0]] + e[1..];
        }
      }
    }
  }

  /** With case folding, literal terms accept exactly the texts equal to
      theirs up to ASCII case. */
  lemma {:induction false} LiteralTermsMatchFolded(e: string, s: string)
    ensures TermsMatch(LiteralTerms(e), s, true) <==> Upper(s) == Upper(e)
    decreases |e|
  {
    if |e| > 0 {
      assert LiteralTerms(e)[1..] == LiteralTerms(e[1..]);
      if |s| > 0 {
        LiteralTermsMatchFolded(e[1..], s[1..]);
        assert Upper(s) == [UpperChar(s[0])] + Upper(s[1..]);
        assert Upper(e) == [UpperChar(e[0])] + Upper(e[1..]);
      }
    } else if |s| > 0 {
      assert |Upper(s)| != |Upper(e)|;
    }
  }

  /** When every syntax character is escaped, the tokens parse to the
      literal terms of the text. */
  lemma {:induction false} ParseEscapedLiteral(s: string, acc: seq<Term>, st: ParseState)
    requires st == AfterAtom ==> |acc| > 0
    ensures ParseBody(EscTokens(s, AllSyntax), acc, st) == Terms(acc + LiteralTerms(s))
    decreases |s|
  {
    if |s| == 0 {
      assert acc + LiteralTerms(s) == acc;
    } else {
      var c := s[0];
      var rest := EscTokens(s[1..], AllSyntax);
      EscTokensAllHead(s);
      ParseLit(c, rest, acc, st);
      LiteralTermsHead(s, acc);
      ParseEscapedLiteral(s[1..], acc + [Term(Char(c), One)], AfterAtom);
    }
  }

  /** With every syntax character escaped, each character reads as
      itself. */
  lemma EscTokensAllHead(s: string)
    requires |s| > 0
    ensures EscTokens(s, AllSyntax) == [Lit(s[0])] + EscTokens(s[1..], AllSyntax)
  {
    assert !IsSyntax(s[0]) ==> PlainToken(s[0]) == Lit(s[0]);
  }

  lemma LiteralTermsHead(s: string, acc: seq<Term>)
    requires |s| > 0
    ensures acc + LiteralTerms(s) == (acc + [Term(Char(s[0]), One)]) + LiteralTerms(s[1..])
  {
    assert LiteralTerms(s) == [Term(Char(s[0]), One)] + LiteralTerms(s[1..]);
  }

  /** The anchored escaped text reads as a caret, the text's own
      tokens and a dollar. */
  lemma LexAnchoredEscaped(s: string)
    ensures Lex("^" + EscapeChars(s, AllSyntax) + "$") == [Caret] + EscTokens(s, AllSyntax) + [Dollar]
  {
    var body := EscapeChars(s, AllSyntax);
    var src := "^" + body + "$";
    LexEscaped(s, AllSyntax, "$");
    assert Lex("$") == [Dollar];
    assert src[0] == '^' && PlainToken('^') == Caret;
    assert src[1..] == body + "$";
    assert Lex(src) == [Caret] + Lex(body + "$");
  }

  /** `"^" + escape(s) + "$"` with every syntax character escaped accepts
      exactly `s`. */
  lemma CompileEscapedLiteral(s: string)
    ensures Compile("^" + EscapeChars(s, AllSyntax) + "$") == Terms(LiteralTerms(s))
  {
    var e := EscTokens(s, AllSyntax);
    LexAnchoredEscaped(s);
    var toks := [Caret] + e + [Dollar];
    assert toks[1..|toks| - 1] == e;
    ParseEscapedLiteral(s, [], AtStart);
    assert [] + LiteralTerms(s) == LiteralTerms(s);
  }
}
