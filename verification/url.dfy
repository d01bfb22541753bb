/** URLs and their query parameters.

    A parsed URL is a record of the parts the extension reads or writes;
    parsing (`new URL(input, base)`, which may throw) and serialisation
    (`toString()`) are an oracle, `UrlCodec`. The query is the ordered list
    of name/value pairs a `URLSearchParams` object holds, and `SetParam` /
    `DeleteParam` follow the `set` and `delete` methods of section 6.2 of
    the WHATWG URL Standard. */
module Url {
  import opened Common

  type Pair = (string, string)

  datatype Url = Url(protocol: string, host: string, pathname: string, query: seq<Pair>, hash: string)

  /** `new URL(input, base)` (None when it throws) and `URL.prototype.toString`. */
  datatype UrlCodec = UrlCodec(parse: (string, string) -> Option<Url>, serialize: Url -> string)

  /** The values stored under name `k`, in list order (`getAll(k)`). */
  function Named(q: seq<Pair>, k: string): seq<string>
    decreases |q|
  {
    if |q| == 0 then []
    else if q[0].0 == k then [q[0].1] + Named(q[1..], k)
    else Named(q[1..], k)
  }

  lemma {:induction false} NamedConcat(a: seq<Pair>, b: seq<Pair>, k: string)
    ensures Named(a + b, k) == Named(a, k) + Named(b, k)
    decreases |a|
  {
    if |a| > 0 {
      assert (a + b)[1..] == a[1..] + b;
      NamedConcat(a[1..], b, k);
    } else {
      assert a + b == b;
    }
  }

  /** `delete(k)`: removes every pair named `k` and keeps the rest in
      order. */
  function DeleteParam(q: seq<Pair>, k: string): (r: seq<Pair>)
    ensures |r| <= |q|
    ensures Named(r, k) == []
    ensures forall k2 :: k2 != k ==> Named(r, k2) == Named(q, k2)
    decreases |q|
  {
    if |q| == 0 then []
    else if q[0].0 == k then DeleteParam(q[1..], k)
    else [q[0]] + DeleteParam(q[1..], k)
  }

  /** Deleting a name that is not present changes nothing. */
  lemma {:induction false} DeleteParamAbsent(q: seq<Pair>, k: string)
    requires |Named(q, k)| == 0
    ensures DeleteParam(q, k) == q
    decreases |q|
  {
    if |q| > 0 {
      DeleteParamAbsent(q[1..], k);
      assert [q[0]] + q[1..] == q;
    }
  }

  /** The first pair named `k` gets value `v` and every later pair named
      `k` is dropped. */
  function SetFirst(q: seq<Pair>, k: string, v: string): (r: seq<Pair>)
    requires |Named(q, k)| > 0
    ensures |r| <= |q|
    ensures Named(r, k) == [v]
    ensures forall k2 :: k2 != k ==> Named(r, k2) == Named(q, k2)
    decreases |q|
  {
    if q[0].0 == k then [(k, v)] + DeleteParam(q[1..], k)
    else [q[0]] + SetFirst(q[1..], k, v)
  }

  /** `i` is the position of the first pair named `k`. */
  predicate FirstNamed(q: seq<Pair>, k: string, i: nat) {
    i < |q| && q[i].0 == k && forall j :: 0 <= j < i ==> q[j].0 != k
  }

  /** Where `SetFirst` puts the value: the pairs before the first one
      named `k` stay, that pair becomes `(k, v)`, and after it every pair
      named `k` is deleted. */
  lemma {:induction false} SetFirstPlace(q: seq<Pair>, k: string, v: string)
    requires |Named(q, k)| > 0
    ensures exists i: nat :: FirstNamed(q, k, i) && SetFirst(q, k, v) == q[..i] + [(k, v)] + DeleteParam(q[i + 1..], k)
    decreases |q|
  {
    if q[0].0 == k {
      assert FirstNamed(q, k, 0);
      assert q[..0] + [(k, v)] + DeleteParam(q[1..], k) == [(k, v)] + DeleteParam(q[1..], k);
    } else {
      var t := q[1..];
      assert Named(q, k) == Named(t, k);
      SetFirstPlace(t, k, v);
      var i: nat :| FirstNamed(t, k, i) && SetFirst(t, k, v) == t[..i] + [(k, v)] + DeleteParam(t[i + 1..], k);
      forall j | 0 <= j < i + 1 ensures q[j].0 != k {
        if j > 0 {
          assert q[j] == t[j - 1];
        }
      }
      assert q[i + 1] == t[i];
      assert FirstNamed(q, k, i + 1);
      assert q[..i + 1] == [q[0]] + t[..i];
      assert q[i + 2..] == t[i + 1..];
      assert SetFirst(q, k, v) == [q[0]] + SetFirst(t, k, v);
    }
  }

  /** `set(k, v)`: afterwards `k` holds exactly the value `v`, every other
      name holds what it held before, and a name that was not present is
      appended at the end; a name that was present keeps the place of its
      first pair, and its later pairs are removed. */
  function SetParam(q: seq<Pair>, k: string, v: string): (r: seq<Pair>)
    ensures Named(r, k) == [v]
    ensures forall k2 :: k2 != k ==> Named(r, k2) == Named(q, k2)
    ensures |Named(q, k)| == 0 ==> r == q + [(k, v)]
    ensures |Named(q, k)| > 0 ==> |r| <= |q|
    ensures |Named(q, k)| > 0 ==>
      exists i: nat :: FirstNamed(q, k, i) && r == q[..i] + [(k, v)] + DeleteParam(q[i + 1..], k)
  {
    if |Named(q, k)| > 0 then
      SetFirstPlace(q, k, v);
      SetFirst(q, k, v)
    else
      NamedConcat(q, [(k, v)], k);
      forall k2 | k2 != k ensures Named(q + [(k, v)], k2) == Named(q, k2) {
        NamedConcat(q, [(k, v)], k2);
      }
      q + [(k, v)]
  }

  /** Setting a name to the single value it already holds changes
      nothing: the pair keeps its place and nothing moves. */
  lemma {:induction false} SetParamIdentity(q: seq<Pair>, k: string, v: string)
    requires Named(q, k) == [v]
    ensures SetParam(q, k, v) == q
  {
    SetFirstIdentity(q, k, v);
  }

  lemma {:induction false} SetFirstIdentity(q: seq<Pair>, k: string, v: string)
    requires Named(q, k) == [v]
    ensures SetFirst(q, k, v) == q
    decreases |q|
  {
    if q[0].0 == k {
      assert Named(q, k) == [q[0].1] + Named(q[1..], k);
      assert Named(q, k)[0] == q[0].1 && |Named(q[1..], k)| == 0;
      assert q[0] == (k, v);
      DeleteParamAbsent(q[1..], k);
      assert [(k, v)] + q[1..] == q;
    } else {
      SetFirstIdentity(q[1..], k, v);
      assert [q[0]] + q[1..] == q;
    }
  }

  /** The value the last entry named `k` assigns, if any. */
  function Lookup(entries: seq<Pair>, k: string): Option<string>
    decreases |entries|
  {
    if |entries| == 0 then None
    else if entries[|entries| - 1].0 == k then Some(entries[|entries| - 1].1)
    else Lookup(entries[..|entries| - 1], k)
  }

  /** No name occurs twice, as for the entries of a JavaScript object. */
  predicate DistinctNames(entries: seq<Pair>) {
    forall i, j :: 0 <= i < j < |entries| ==> entries[i].0 != entries[j].0
  }

  /** With distinct names, the value assigned to an entry's name is that
      entry's value. */
  lemma {:induction false} LookupDistinct(entries: seq<Pair>, i: nat)
    requires DistinctNames(entries) && i < |entries|
    ensures Lookup(entries, entries[i].0) == Some(entries[i].1)
    decreases |entries|
  {
    if i < |entries| - 1 {
      var init := entries[..|entries| - 1];
      assert init[i] == entries[i];
      LookupDistinct(init, i);
    }
  }

  /** `for (const [k, v] of entries) sp.set(k, v)`. */
  function SetAll(q: seq<Pair>, entries: seq<Pair>): (r: seq<Pair>)
    ensures forall k :: Named(r, k) == (match Lookup(entries, k) case Some(v) => [v] case None => Named(q, k))
    decreases |entries|
  {
    if |entries| == 0 then q
    else
      var init := entries[..|entries| - 1];
      var last := entries[|entries| - 1];
      SetParam(SetAll(q, init), last.0, last.1)
  }

  /** `for (const k of names) sp.delete(k)`. */
  function DeleteAll(q: seq<Pair>, names: seq<string>): (r: seq<Pair>)
    ensures forall k :: Named(r, k) == (if k in names then [] else Named(q, k))
    ensures |r| <= |q|
    decreases |names|
  {
    if |names| == 0 then q
    else
      var init := names[..|names| - 1];
      DeleteParam(DeleteAll(q, init), names[|names| - 1])
  }

  /** Once every entry's name holds exactly that entry's value, setting
      the entries again changes nothing. */
  lemma {:induction false} SetAllStable(q: seq<Pair>, entries: seq<Pair>)
    requires forall i :: 0 <= i < |entries| ==> Named(q, entries[i].0) == [entries[i].1]
    ensures SetAll(q, entries) == q
    decreases |entries|
  {
    if |entries| > 0 {
      var init := entries[..|entries| - 1];
      assert forall i :: 0 <= i < |init| ==> init[i] == entries[i];
      SetAllStable(q, init);
      SetParamIdentity(q, entries[|entries| - 1].0, entries[|entries| - 1].1);
    }
  }

  /** Setting the same distinct-named entries twice gives the same list of
      pairs as setting them once. */
  lemma SetAllIdempotent(q: seq<Pair>, entries: seq<Pair>)
    requires DistinctNames(entries)
    ensures SetAll(SetAll(q, entries), entries) == SetAll(q, entries)
  {
    var r := SetAll(q, entries);
    forall i | 0 <= i < |entries| ensures Named(r, entries[i].0) == [entries[i].1] {
      LookupDistinct(entries, i);
    }
    SetAllStable(r, entries);
  }
}
