/** The request history the background keeps (`pushHistory` and the
    webRequest listeners of background.js) and the side panel's filtered
    view of it (`renderHistory` of sidepanel.js). */
module History {
  import opened Common
  import opened Text
  import opened Json
  import opened Config

  /** `list.slice(0, end)` for an integer `end`: a negative end counts from
      the back, and the end is clamped to the list. */
  function SliceEnd(len: nat, end: int): (n: nat)
    ensures n <= len
    ensures end >= 0 ==> n == if end < len then end else len
    ensures end < 0 ==> n == if len + end > 0 then len + end else 0
  {
    if end < 0 then (if len + end > 0 then len + end else 0)
    else if end < len then end else len
  }

  /** `configCache.historyLimit || DEFAULT_CONFIG.historyLimit` as `slice`
      reads it: a falsy or missing limit gives 500, a number gives itself,
      `true` gives 1, and any other value gives 0 (see README). */
  function HistoryLimit(c: Config): (n: int)
    ensures !Flag(c, "historyLimit") ==> n == 500
    ensures "historyLimit" in c && c["historyLimit"].JNum? && c["historyLimit"].n != 0 ==> n == c["historyLimit"].n
  {
    if !Flag(c, "historyLimit") then 500
    else match c["historyLimit"]
      case JNum(k) => k
      case JBool(_) => 1
      case _ => 0
  }

  /** `[entry, ...history].slice(0, limit)`. */
  function PushHistory<T>(limit: int, entry: T, history: seq<T>): (r: seq<T>)
    ensures |r| == SliceEnd(|history| + 1, limit)
    ensures r == ([entry] + history)[..|r|]
  {
    ([entry] + history)[..SliceEnd(|history| + 1, limit)]
  }

  /** With a positive limit the new entry is first, the list holds at most
      `limit` entries, and the rest is the start of the old history in its
      old order. */
  lemma PushHistoryShape<T>(limit: int, entry: T, history: seq<T>)
    requires limit > 0
    ensures var r := PushHistory(limit, entry, history);
      |r| >= 1 && r[0] == entry && |r| <= limit
      && r[1..] == history[..|r| - 1]
      && |r| == if |history| + 1 < limit then |history| + 1 else limit
  {
    var r := PushHistory(limit, entry, history);
    assert r[1..] == ([entry] + history)[1..|r|];
    assert ([entry] + history)[1..] == history;
  }

  /** The bound holds across any number of pushes with the same positive
      limit. */
  lemma {:induction false} PushHistoryBounded<T>(limit: int, entries: seq<T>, history: seq<T>)
    requires limit > 0
    ensures |PushAll(limit, entries, history)| <= if |entries| == 0 then |history| else limit
    decreases |entries|
  {
    if |entries| > 0 {
      PushHistoryBounded(limit, entries[1..], PushHistory(limit, entries[0], history));
    }
  }

  /** Pushes one entry after another. */
  function PushAll<T>(limit: int, entries: seq<T>, history: seq<T>): seq<T>
    decreases |entries|
  {
    if |entries| == 0 then history
    else PushAll(limit, entries[1..], PushHistory(limit, entries[0], history))
  }

  /** A configuration whose limit is 0, or that has none, keeps 500
      entries. */
  lemma ZeroLimitMeansDefault<T>(c: Config, entry: T, history: seq<T>)
    requires "historyLimit" !in c || c["historyLimit"] == JNum(0)
    ensures HistoryLimit(c) == 500
    ensures |PushHistory(HistoryLimit(c), entry, history)| == if |history| + 1 < 500 then |history| + 1 else 500
  {
  }

  /** The webRequest listeners record an event only while `enabled` is
      truthy. */
  function OnNetworkEvent<T>(c: Config, entry: T, history: seq<T>): (r: seq<T>)
    ensures !Flag(c, "enabled") ==> r == history
    ensures Flag(c, "enabled") ==> r == PushHistory(HistoryLimit(c), entry, history)
  {
    if Flag(c, "enabled") then PushHistory(HistoryLimit(c), entry, history) else history
  }

  /** While recording is on and the limit is positive, an event puts its
      entry first, keeps at most `limit` entries, and keeps the newest old
      entries in their order. */
  lemma OnNetworkEventShape<T>(c: Config, entry: T, history: seq<T>)
    requires Flag(c, "enabled") && HistoryLimit(c) > 0
    ensures var r := OnNetworkEvent(c, entry, history);
      |r| >= 1 && r[0] == entry && |r| <= HistoryLimit(c)
      && r[1..] == history[..|r| - 1]
  {
    PushHistoryShape(HistoryLimit(c), entry, history);
  }

  /** A truthy limit that is neither a number nor `true` (an object, say)
      reads as 0, so the next recorded event empties the history. */
  lemma NonNumericLimitEmptiesHistory<T>(c: Config, entry: T, history: seq<T>)
    requires Flag(c, "historyLimit") && !c["historyLimit"].JNum? && !c["historyLimit"].JBool?
    ensures HistoryLimit(c) == 0
    ensures Flag(c, "enabled") ==> OnNetworkEvent(c, entry, history) == []
  {
  }

  // ---------------------------------------------------------------------
  // Side panel view

  /** The search keyword: the input trimmed and lower-cased. */
  function Keyword(search: string): string {
    Lower(Trim(search))
  }

  /** `renderHistory`: with a keyword, the entries whose lower-cased URL
      contains it, in stored order; without one, all entries; at most the
      first 200 either way. `urlOf` reads `h.url || ''`. */
  function HistoryView<T>(history: seq<T>, urlOf: T -> string, search: string): (r: seq<T>)
    ensures |r| <= 200
  {
    ViewFor(history, urlOf, Keyword(search))
  }

  function ViewFor<T>(history: seq<T>, urlOf: T -> string, keyword: string): (r: seq<T>)
    ensures |r| <= 200
    ensures |keyword| == 0 ==> r == history[..if |history| < 200 then |history| else 200]
  {
    var rows := if |keyword| == 0 then history else FilterContaining(history, urlOf, keyword);
    rows[..if |rows| < 200 then |rows| else 200]
  }

  /** The entries whose lower-cased URL contains `keyword`, in order. */
  function FilterContaining<T>(history: seq<T>, urlOf: T -> string, keyword: string): (r: seq<T>)
    ensures |r| <= |history|
    decreases |history|
  {
    if |history| == 0 then []
    else
      var rest := FilterContaining(history[1..], urlOf, keyword);
      if Contains(Lower(urlOf(history[0])), keyword) then [history[0]] + rest else rest
  }

  /** An entry is kept exactly when its URL contains the keyword, and
      filtering again changes nothing. */
  lemma {:induction false} FilterContainingSpec<T>(history: seq<T>, urlOf: T -> string, keyword: string)
    ensures forall x :: x in FilterContaining(history, urlOf, keyword) <==> x in history && Contains(Lower(urlOf(x)), keyword)
    ensures FilterContaining(history, urlOf, keyword) == FilterContaining(FilterContaining(history, urlOf, keyword), urlOf, keyword)
    decreases |history|
  {
    if |history| > 0 {
      FilterContainingSpec(history[1..], urlOf, keyword);
      var rest := FilterContaining(history[1..], urlOf, keyword);
      if Contains(Lower(urlOf(history[0])), keyword) {
        assert ([history[0]] + rest)[1..] == rest;
      }
    }
  }

  /** Every entry shown matches the keyword, and with fewer than 200
      matching entries every matching entry is shown. */
  lemma HistoryViewMatches<T>(history: seq<T>, urlOf: T -> string, keyword: string)
    requires |keyword| > 0
    ensures forall x :: x in ViewFor(history, urlOf, keyword) ==> x in history && Contains(Lower(urlOf(x)), keyword)
    ensures |FilterContaining(history, urlOf, keyword)| < 200 ==>
      forall x :: x in history && Contains(Lower(urlOf(x)), keyword) ==> x in ViewFor(history, urlOf, keyword)
  {
    var rows := FilterContaining(history, urlOf, keyword);
    var n := if |rows| < 200 then |rows| else 200;
    var v := ViewFor(history, urlOf, keyword);
    assert v == rows[..n];
    FilterContainingSpec(history, urlOf, keyword);
    forall x | x in v ensures x in history && Contains(Lower(urlOf(x)), keyword) {
      assert x in rows;
    }
    if |rows| < 200 {
      assert v == rows;
    }
  }
}
