/** The String.prototype operations the rule engine calls (`indexOf`,
    `startsWith`, `includes`, `replace` and `replaceAll` with a string
    pattern, `split` on one character, `trim`, and ASCII case mapping),
    over strings modelled as sequences of characters. */
module Text {
  import opened Common

  // ---------------------------------------------------------------------
  // Occurrences and searching

  /** `p` occurs in `s` starting at index `i`. */
  predicate OccursAt(s: string, p: string, i: nat) {
    i + |p| <= |s| && s[i..i + |p|] == p
  }

  /** `i` is the leftmost occurrence of `p` in `s`. */
  predicate FirstOccurrence(s: string, p: string, i: nat) {
    OccursAt(s, p, i) && forall j: nat :: j < i ==> !OccursAt(s, p, j)
  }

  /** The first occurrence of `p` in `s` at or after `from`. */
  function IndexFrom(s: string, p: string, from: nat): (r: Option<nat>)
    decreases |s| - from
    ensures r.Some? ==> from <= r.value && OccursAt(s, p, r.value)
    ensures r.Some? ==> forall j: nat :: from <= j < r.value ==> !OccursAt(s, p, j)
    ensures r.None? ==> forall j: nat :: from <= j ==> !OccursAt(s, p, j)
  {
    if |s| < from + |p| then None
    else if s[from..from + |p|] == p then Some(from)
    else IndexFrom(s, p, from + 1)
  }

  /** `s.indexOf(p)`, with None for -1. */
  function IndexOf(s: string, p: string): (r: Option<nat>)
    ensures r.Some? ==> FirstOccurrence(s, p, r.value)
    ensures r.None? ==> forall j: nat :: !OccursAt(s, p, j)
  {
    IndexFrom(s, p, 0)
  }

  /** `s.includes(p)`. */
  predicate Contains(s: string, p: string) {
    IndexOf(s, p).Some?
  }

  /** `s.startsWith(p)`. */
  predicate StartsWith(s: string, p: string) {
    |p| <= |s| && s[..|p|] == p
  }

  lemma ContainsEmpty(s: string)
    ensures Contains(s, [])
  {
    assert OccursAt(s, [], 0);
  }

  lemma ContainsAt(s: string, p: string, i: nat)
    requires OccursAt(s, p, i)
    ensures Contains(s, p)
  {
  }

  // ---------------------------------------------------------------------
  // Literal replacement: the replacement text is inserted as it is

  /** `s.replace(p, t)`: only the leftmost occurrence is replaced. */
  function ReplaceFirst(s: string, p: string, t: string): (r: string)
    ensures (forall j: nat :: !OccursAt(s, p, j)) ==> r == s
    ensures forall i: nat :: FirstOccurrence(s, p, i) ==> r == s[..i] + t + s[i + |p|..]
  {
    match IndexOf(s, p)
    case None => s
    case Some(i) => s[..i] + t + s[i + |p|..]
  }

  /** `s.replaceAll(p, t)`. A non-empty pattern is replaced at every
      non-overlapping occurrence, scanning from left to right; the empty
      pattern matches at every position 0..|s|, so `t` is inserted before
      every character and once more at the end. */
  function ReplaceAll(s: string, p: string, t: string): string
    decreases |s|
  {
    if |p| == 0 then
      if |s| == 0 then t else t + [s[0]] + ReplaceAll(s[1..], p, t)
    else if StartsWith(s, p) then t + ReplaceAll(s[|p|..], p, t)
    else if |s| == 0 then s
    else [s[0]] + ReplaceAll(s[1..], p, t)
  }

  /** A string in which a non-empty pattern does not occur is left as it
      is. */
  lemma {:induction false} ReplaceAllAbsent(s: string, p: string, t: string)
    requires |p| > 0 && forall j: nat :: !OccursAt(s, p, j)
    ensures ReplaceAll(s, p, t) == s
    decreases |s|
  {
    assert !OccursAt(s, p, 0);
    if |s| > 0 {
      forall j: nat ensures !OccursAt(s[1..], p, j) {
        assert !OccursAt(s, p, j + 1);
        if j + |p| <= |s| - 1 {
          assert s[1..][j..j + |p|] == s[j + 1..j + 1 + |p|];
        }
      }
      ReplaceAllAbsent(s[1..], p, t);
    }
  }

  /** With the empty pattern, `t` is inserted at each of the |s| + 1
      positions. */
  lemma {:induction false} ReplaceAllEmptyLength(s: string, t: string)
    ensures |ReplaceAll(s, [], t)| == |s| + (|s| + 1) * |t|
    decreases |s|
  {
    if |s| > 0 {
      ReplaceAllEmptyLength(s[1..], t);
      assert |ReplaceAll(s, [], t)| == |t| + 1 + (|s| - 1) + |s| * |t|;
    }
  }

  /** Replacing a pattern by itself changes nothing. */
  lemma {:induction false} ReplaceAllSelf(s: string, p: string)
    ensures ReplaceAll(s, p, p) == s
    decreases |s|
  {
    if |s| > 0 {
      if |p| == 0 {
        ReplaceAllSelf(s[1..], p);
        assert ReplaceAll(s, p, p) == [] + [s[0]] + s[1..];
      } else if StartsWith(s, p) {
        ReplaceAllSelf(s[|p|..], p);
        assert s == s[..|p|] + s[|p|..];
      } else {
        ReplaceAllSelf(s[1..], p);
        assert s == [s[0]] + s[1..];
      }
    }
  }

  // ---------------------------------------------------------------------
  // Replacement as String.prototype.replace / replaceAll perform it: the
  // replacement text goes through GetSubstitution of the ECMAScript
  // specification, where `$$` is a dollar sign, `$&` the matched text,
  // `$`` the text before the match and `$'` the text after it. With a
  // string pattern there are no capture groups, so every other `$` is
  // copied as it is.

  /** The replacement text `t` expanded for the match of `p` at `pos`. */
  function Substitution(s: string, pos: nat, p: string, t: string): string
    requires pos + |p| <= |s|
    decreases |t|
  {
    if |t| == 0 then []
    else if t[0] == '$' && |t| >= 2 && t[1] == '$' then "$" + Substitution(s, pos, p, t[2..])
    else if t[0] == '$' && |t| >= 2 && t[1] == '&' then p + Substitution(s, pos, p, t[2..])
    else if t[0] == '$' && |t| >= 2 && t[1] == '`' then s[..pos] + Substitution(s, pos, p, t[2..])
    else if t[0] == '$' && |t| >= 2 && t[1] == '\'' then s[pos + |p|..] + Substitution(s, pos, p, t[2..])
    else [t[0]] + Substitution(s, pos, p, t[1..])
  }

  predicate NoDollar(t: string) {
    forall i :: 0 <= i < |t| ==> t[i] != '$'
  }

  /** A replacement without `$` is inserted literally. */
  lemma {:induction false} SubstitutionLiteral(s: string, pos: nat, p: string, t: string)
    requires pos + |p| <= |s|
    ensures NoDollar(t) ==> Substitution(s, pos, p, t) == t
    decreases |t|
  {
    if |t| > 0 && NoDollar(t) {
      SubstitutionLiteral(s, pos, p, t[1..]);
      assert t == [t[0]] + t[1..];
    }
  }

  /** `$&` puts back the matched text. */
  lemma MatchedTextSubstitution(s: string, pos: nat, p: string)
    requires pos + |p| <= |s|
    ensures Substitution(s, pos, p, "$&") == p
  {
    assert "$&"[2..] == [];
  }

  /** `s.replace(p, t)`. */
  function JsReplace(s: string, p: string, t: string): (r: string)
    ensures (forall j: nat :: !OccursAt(s, p, j)) ==> r == s
    ensures NoDollar(t) ==> r == ReplaceFirst(s, p, t)
  {
    match IndexOf(s, p)
    case None => s
    case Some(i) =>
      SubstitutionLiteral(s, i, p, t);
      s[..i] + Substitution(s, i, p, t) + s[i + |p|..]
  }

  /** `s.replaceAll(p, t)` from index `i` on: the matches are the
      positions StringIndexOf finds scanning left to right, advancing by
      the pattern's length, or by one for the empty pattern. */
  function JsReplaceAllFrom(s: string, p: string, t: string, i: nat): string
    requires i <= |s|
    decreases |s| - i
  {
    if |p| == 0 then
      if i == |s| then Substitution(s, i, p, t)
      else Substitution(s, i, p, t) + [s[i]] + JsReplaceAllFrom(s, p, t, i + 1)
    else if OccursAt(s, p, i) then Substitution(s, i, p, t) + JsReplaceAllFrom(s, p, t, i + |p|)
    else if i == |s| then []
    else [s[i]] + JsReplaceAllFrom(s, p, t, i + 1)
  }

  /** `s.replaceAll(p, t)`. */
  function JsReplaceAll(s: string, p: string, t: string): (r: string) {
    JsReplaceAllFrom(s, p, t, 0)
  }

  /** Without `$` in the replacement, `replaceAll` is the literal
      replacement `ReplaceAll`. */
  lemma JsReplaceAllLiteral(s: string, p: string, t: string)
    requires NoDollar(t)
    ensures JsReplaceAll(s, p, t) == ReplaceAll(s, p, t)
  {
    JsReplaceAllFromLiteral(s, p, t, 0);
  }

  lemma {:induction false} JsReplaceAllFromLiteral(s: string, p: string, t: string, i: nat)
    requires NoDollar(t) && i <= |s|
    ensures JsReplaceAllFrom(s, p, t, i) == ReplaceAll(s[i..], p, t)
    decreases |s| - i
  {
    if |p| == 0 {
      if i < |s| {
        JsReplaceAllFromLiteral(s, p, t, i + 1);
        EmptyPatternStep(s, t, i);
      } else {
        SubstitutionLiteral(s, i, p, t);
      }
    } else if OccursAt(s, p, i) {
      JsReplaceAllFromLiteral(s, p, t, i + |p|);
      MatchStep(s, p, t, i);
    } else if i < |s| {
      JsReplaceAllFromLiteral(s, p, t, i + 1);
      SkipStep(s, p, t, i);
    }
  }

  lemma EmptyPatternStep(s: string, t: string, i: nat)
    requires NoDollar(t) && i < |s|
    requires JsReplaceAllFrom(s, [], t, i + 1) == ReplaceAll(s[i + 1..], [], t)
    ensures JsReplaceAllFrom(s, [], t, i) == ReplaceAll(s[i..], [], t)
  {
    SubstitutionLiteral(s, i, [], t);
    assert s[i..][0] == s[i] && s[i..][1..] == s[i + 1..];
  }

  lemma MatchStep(s: string, p: string, t: string, i: nat)
    requires NoDollar(t) && |p| > 0 && OccursAt(s, p, i)
    requires JsReplaceAllFrom(s, p, t, i + |p|) == ReplaceAll(s[i + |p|..], p, t)
    ensures JsReplaceAllFrom(s, p, t, i) == ReplaceAll(s[i..], p, t)
  {
    SubstitutionLiteral(s, i, p, t);
    assert s[i..][..|p|] == s[i..i + |p|];
    assert s[i..][|p|..] == s[i + |p|..];
  }

  lemma SkipStep(s: string, p: string, t: string, i: nat)
    requires |p| > 0 && !OccursAt(s, p, i) && i < |s|
    requires JsReplaceAllFrom(s, p, t, i + 1) == ReplaceAll(s[i + 1..], p, t)
    ensures JsReplaceAllFrom(s, p, t, i) == ReplaceAll(s[i..], p, t)
  {
    assert !StartsWith(s[i..], p) by {
      if |p| <= |s[i..]| { assert s[i..][..|p|] == s[i..i + |p|]; }
    }
    assert s[i..][0] == s[i] && s[i..][1..] == s[i + 1..];
  }

  // ---------------------------------------------------------------------
  // Splitting on one character

  /** `parts.join(sep)`. */
  function Join(parts: seq<string>, sep: char): string {
    if |parts| == 0 then []
    else if |parts| == 1 then parts[0]
    else parts[0] + [sep] + Join(parts[1..], sep)
  }

  /** `s.split(sep)` for a one-character separator: always at least one
      piece, and no piece contains the separator. */
  function Split(s: string, sep: char): (parts: seq<string>)
    ensures |parts| >= 1
    ensures forall k :: 0 <= k < |parts| ==> sep !in parts[k]
  {
    if |s| == 0 then [[]]
    else
      var rest := Split(s[1..], sep);
      if s[0] == sep then [[]] + rest
      else [[s[0]] + rest[0]] + rest[1..]
  }

  /** Splitting and joining again on the same character gives back the
      original string. */
  lemma {:induction false} SplitJoin(s: string, sep: char)
    ensures Join(Split(s, sep), sep) == s
  {
    if |s| > 0 {
      var rest := Split(s[1..], sep);
      SplitJoin(s[1..], sep);
      if s[0] == sep {
        assert Split(s, sep) == [[]] + rest;
        assert ([[]] + rest)[1..] == rest;
      } else {
        var parts := Split(s, sep);
        assert parts == [[s[0]] + rest[0]] + rest[1..];
        if |rest| == 1 {
          assert Join(rest, sep) == rest[0];
        } else {
          assert Join(rest, sep) == rest[0] + [sep] + Join(rest[1..], sep);
          assert parts[1..] == rest[1..];
        }
      }
    }
  }

  // ---------------------------------------------------------------------
  // Whitespace and case

  /** ECMAScript WhiteSpace and LineTerminator code points, the set that
      `String.prototype.trim` strips. */
  predicate IsJsSpace(c: char) {
    var n := c as int;
    (0x09 <= n <= 0x0D) || n == 0x20 || n == 0xA0 || n == 0x1680
    || (0x2000 <= n <= 0x200A) || n == 0x2028 || n == 0x2029 || n == 0x202F
    || n == 0x205F || n == 0x3000 || n == 0xFEFF
  }

  function TrimStart(s: string): (r: string)
    ensures |r| <= |s| && r == s[|s| - |r|..]
    ensures |r| == 0 || !IsJsSpace(r[0])
    ensures forall i :: 0 <= i < |s| - |r| ==> IsJsSpace(s[i])
  {
    if |s| > 0 && IsJsSpace(s[0]) then TrimStart(s[1..]) else s
  }

  function TrimEnd(s: string): (r: string)
    ensures |r| <= |s| && r == s[..|r|]
    ensures |r| == 0 || !IsJsSpace(r[|r| - 1])
    ensures forall i :: |r| <= i < |s| ==> IsJsSpace(s[i])
  {
    if |s| > 0 && IsJsSpace(s[|s| - 1]) then TrimEnd(s[..|s| - 1]) else s
  }

  /** `s.trim()`: the result has no leading or trailing whitespace, and it
      is empty exactly when `s` is all whitespace. */
  function Trim(s: string): (r: string)
    ensures |r| <= |s|
    ensures |r| == 0 || (!IsJsSpace(r[0]) && !IsJsSpace(r[|r| - 1]))
    ensures |r| == 0 <==> forall i :: 0 <= i < |s| ==> IsJsSpace(s[i])
    ensures exists i: nat :: TrimmedAt(s, r, i)
  {
    TrimFacts(s);
    TrimSpan(s);
    TrimEnd(TrimStart(s))
  }

  /** `r` is the part of `s` from `i` on that leaves only whitespace
      before and after it. */
  predicate TrimmedAt(s: string, r: string, i: nat) {
    i + |r| <= |s| && r == s[i..i + |r|]
    && (forall k :: 0 <= k < i ==> IsJsSpace(s[k]))
    && (forall k :: i + |r| <= k < |s| ==> IsJsSpace(s[k]))
  }

  lemma TrimFacts(s: string)
    ensures var r := TrimEnd(TrimStart(s));
      (|r| == 0 || (!IsJsSpace(r[0]) && !IsJsSpace(r[|r| - 1])))
      && (|r| == 0 <==> forall i :: 0 <= i < |s| ==> IsJsSpace(s[i]))
  {
    var a := TrimStart(s);
    var b := TrimEnd(a);
    var d := |s| - |a|;
    if |b| == 0 {
      assert |a| == 0;
    } else {
      assert a[0] == s[d];
    }
  }

  /** The trimmed text is a stretch of `s` with only whitespace around
      it. */
  lemma TrimSpan(s: string)
    ensures TrimmedAt(s, TrimEnd(TrimStart(s)), |s| - |TrimStart(s)|)
  {
    var a := TrimStart(s);
    var b := TrimEnd(a);
    var d := |s| - |a|;
    assert forall k :: 0 <= k < d ==> IsJsSpace(s[k]);
    assert b == s[d..d + |b|] by {
      assert a == s[d..];
      assert b == a[..|b|];
    }
    forall k | d + |b| <= k < |s| ensures IsJsSpace(s[k]) {
      assert |b| <= k - d < |a|;
      assert s[k] == a[k - d];
    }
    TrimmedAtIntro(s, b, d);
  }

  lemma TrimmedAtIntro(s: string, r: string, i: nat)
    requires i + |r| <= |s| && r == s[i..i + |r|]
    requires forall k :: 0 <= k < i ==> IsJsSpace(s[k])
    requires forall k :: i + |r| <= k < |s| ==> IsJsSpace(s[k])
    ensures TrimmedAt(s, r, i)
  {
  }

  /** ASCII upper-casing, the part of `toUpperCase` the model keeps. */
  function UpperChar(c: char): char {
    if 'a' <= c <= 'z' then (c as int - 32) as char else c
  }

  /** ASCII lower-casing, the part of `toLowerCase` the model keeps. */
  function LowerChar(c: char): char {
    if 'A' <= c <= 'Z' then (c as int + 32) as char else c
  }

  function Upper(s: string): (r: string)
    ensures |r| == |s|
    ensures forall i :: 0 <= i < |s| ==> r[i] == UpperChar(s[i])
  {
    seq(|s|, i requires 0 <= i < |s| => UpperChar(s[i]))
  }

  function Lower(s: string): (r: string)
    ensures |r| == |s|
    ensures forall i :: 0 <= i < |s| ==> r[i] == LowerChar(s[i])
  {
    seq(|s|, i requires 0 <= i < |s| => LowerChar(s[i]))
  }

  lemma UpperIdempotent(s: string)
    ensures Upper(Upper(s)) == Upper(s)
  {
  }

  lemma LowerIdempotent(s: string)
    ensures Lower(Lower(s)) == Lower(s)
  {
  }

  lemma LowerOfUpper(s: string)
    ensures Lower(Upper(s)) == Lower(s)
  {
  }

  lemma UpperOfLower(s: string)
    ensures Upper(Lower(s)) == Upper(s)
  {
  }

  /** Two strings are equal up to ASCII case whichever way both are
      folded. */
  lemma UpperEqualsIffLowerEquals(a: string, b: string)
    ensures Upper(a) == Upper(b) <==> Lower(a) == Lower(b)
  {
    LowerOfUpper(a);
    LowerOfUpper(b);
    UpperOfLower(a);
    UpperOfLower(b);
  }
}
