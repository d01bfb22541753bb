/** JavaScript values as they appear in rules, configuration and request
    bodies, restricted to what JSON can carry, plus the object operations
    the extension performs on them: truthiness, property reads, the shallow
    spread merge `{ ...a, ...b }`, `delete o[k]` and `o[k] = v`.

    Objects are maps from property names to values; property order, which
    only shows in serialised text, is not represented. `JSON.parse` and
    `JSON.stringify` are an oracle, `JsonCodec`. */
module Json {
  import opened Common

  datatype Json =
    | JNull
    | JBool(b: bool)
    | JNum(n: int)
    | JStr(s: string)
    | JArr(items: seq<Json>)
    | JObj(fields: map<string, Json>)

  /** `JSON.parse` (None when it throws) and `JSON.stringify`. */
  datatype JsonCodec = JsonCodec(parse: string -> Option<Json>, stringify: Json -> string)

  /** ECMAScript ToBoolean on a JSON value. */
  predicate Truthy(j: Json) {
    match j
    case JNull => false
    case JBool(b) => b
    case JNum(n) => n != 0
    case JStr(s) => |s| > 0
    case JArr(_) => true
    case JObj(_) => true
  }

  /** ToBoolean of a value that may be `undefined`. */
  predicate TruthyOpt(o: Option<Json>) {
    o.Some? && Truthy(o.value)
  }

  /** `typeof j === "object" && j !== null`. */
  predicate IsObjectLike(j: Json) {
    j.JArr? || j.JObj?
  }

  /** `j[k]` for a property read; None stands for `undefined`. */
  function Get(j: Json, k: string): (r: Option<Json>)
    ensures r.Some? <==> j.JObj? && k in j.fields
    ensures r.Some? ==> r.value == j.fields[k]
  {
    if j.JObj? && k in j.fields then Some(j.fields[k]) else None
  }

  /** The decimal digit `d`. */
  function Digit(d: nat): char
    requires d < 10
  {
    (('0' as int) + d) as char
  }

  /** The canonical decimal text of a natural number, as `String(n)`
      writes an array index. */
  function DecimalString(n: nat): (r: string)
    ensures |r| >= 1
    ensures n >= 10 ==> |r| >= 2
    decreases n
  {
    if n < 10 then [Digit(n)] else DecimalString(n / 10) + [Digit(n % 10)]
  }

  /** Different indices have different names. */
  lemma {:induction false} DecimalStringInjective(a: nat, b: nat)
    requires DecimalString(a) == DecimalString(b)
    ensures a == b
    decreases a
  {
    if a >= 10 && b >= 10 {
      var da := DecimalString(a);
      assert da[|da| - 1] == Digit(a % 10);
      assert DecimalString(b)[|da| - 1] == Digit(b % 10);
      assert DecimalString(a / 10) == da[..|da| - 1];
      assert DecimalString(b / 10) == DecimalString(b)[..|da| - 1];
      DecimalStringInjective(a / 10, b / 10);
    }
  }

  /** The index properties `"0"`, `"1"`, ... of a list of values. */
  function IndexProps(items: seq<Json>): (m: map<string, Json>)
    ensures forall i :: 0 <= i < |items| ==> DecimalString(i) in m && m[DecimalString(i)] == items[i]
    ensures forall k :: k in m ==> exists i :: 0 <= i < |items| && k == DecimalString(i)
    decreases |items|
  {
    if |items| == 0 then map[]
    else
      var n := |items| - 1;
      var m := IndexProps(items[..n]);
      forall i | 0 <= i < n ensures DecimalString(i) != DecimalString(n) && m[DecimalString(i)] == items[i] {
        assert items[..n][i] == items[i];
        if DecimalString(i) == DecimalString(n) { DecimalStringInjective(i, n); }
      }
      m[DecimalString(n) := items[n]]
  }

  /** The characters of a string as one-character strings. */
  function Chars(s: string): seq<Json>
    ensures |Chars(s)| == |s|
    ensures forall i :: 0 <= i < |s| ==> Chars(s)[i] == JStr([s[i]])
  {
    seq(|s|, i requires 0 <= i < |s| => JStr([s[i]]))
  }

  /** The own enumerable properties that `{ ...j }` copies: the fields of
      an object, the indices of an array, the characters of a string, and
      nothing from `null`, a boolean or a number. */
  function Props(j: Json): (m: map<string, Json>)
    ensures j.JObj? ==> m == j.fields
    ensures j.JArr? ==> m == IndexProps(j.items)
    ensures j.JStr? ==> m == IndexProps(Chars(j.s))
    ensures j.JNull? || j.JBool? || j.JNum? ==> |m| == 0
  {
    match j
    case JObj(f) => f
    case JArr(items) => IndexProps(items)
    case JStr(s) => IndexProps(Chars(s))
    case _ => map[]
  }

  /** `{ ...a, ...b }`: every property of either side, with `b` winning on
      a shared name. */
  function Spread(a: map<string, Json>, b: map<string, Json>): (r: map<string, Json>)
    ensures r.Keys == a.Keys + b.Keys
    ensures forall k :: k in b ==> r[k] == b[k]
    ensures forall k :: k in a && k !in b ==> r[k] == a[k]
  {
    a + b
  }

  /** Spreading a map over itself, or spreading nothing, changes nothing. */
  lemma SpreadIdentity(a: map<string, Json>)
    ensures Spread(a, a) == a
    ensures Spread(a, map[]) == a
    ensures Spread(map[], a) == a
  {
  }

  /** Spreading the same overlay twice is the same as spreading it once. */
  lemma SpreadIdempotent(a: map<string, Json>, b: map<string, Json>)
    ensures Spread(Spread(a, b), b) == Spread(a, b)
  {
  }

  /** `for (const k of ks) delete o[k]`. */
  function DeleteKeys(m: map<string, Json>, ks: seq<string>): (r: map<string, Json>)
    ensures r.Keys == m.Keys - set k | k in ks
    ensures forall k :: k in r ==> r[k] == m[k]
  {
    m - set k | k in ks
  }

  /** `for (const [k, v] of entries) o[k] = v`, assignments in order, so a
      later entry for the same name overwrites an earlier one. */
  function SetKeys(m: map<string, Json>, entries: seq<(string, Json)>): (r: map<string, Json>)
    decreases |entries|
  {
    if |entries| == 0 then m
    else SetKeys(m[entries[0].0 := entries[0].1], entries[1..])
  }

  /** The name/value pairs of `entries` as the object they would build. */
  function EntriesObject(entries: seq<(string, Json)>): map<string, Json>
    decreases |entries|
  {
    if |entries| == 0 then map[]
    else EntriesObject(entries[..|entries| - 1])[entries[|entries| - 1].0 := entries[|entries| - 1].1]
  }

  /** Assigning a list of entries one by one is spreading the object they
      make over the original: every assigned name holds its last value and
      every other name keeps its old one. */
  lemma {:induction false} SetKeysIsSpread(m: map<string, Json>, entries: seq<(string, Json)>)
    ensures SetKeys(m, entries) == Spread(m, EntriesObject(entries))
    decreases |entries|
  {
    if |entries| > 0 {
      var e := entries[0];
      var rest := entries[1..];
      SetKeysIsSpread(m[e.0 := e.1], rest);
      assert entries == [e] + rest;
      EntriesObjectCons(e, rest);
      assert m[e.0 := e.1] + EntriesObject(rest) == m + (map[e.0 := e.1] + EntriesObject(rest));
    }
  }

  lemma {:induction false} EntriesObjectCons(e: (string, Json), rest: seq<(string, Json)>)
    ensures EntriesObject([e] + rest) == map[e.0 := e.1] + EntriesObject(rest)
    decreases |rest|
  {
    if |rest| > 0 {
      var init := rest[..|rest| - 1];
      var last := rest[|rest| - 1];
      assert ([e] + rest)[..|rest|] == [e] + init;
      EntriesObjectCons(e, init);
    } else {
      assert [e] + rest == [e];
      assert [e][..0] == [];
    }
  }

  /** The names `EntriesObject` defines are exactly the names listed. */
  lemma {:induction false} EntriesObjectKeys(entries: seq<(string, Json)>)
    ensures EntriesObject(entries).Keys == set i | 0 <= i < |entries| :: entries[i].0
    decreases |entries|
  {
    if |entries| > 0 {
      var init := entries[..|entries| - 1];
      EntriesObjectKeys(init);
      var s1 := set i | 0 <= i < |init| :: init[i].0;
      var s2 := set i | 0 <= i < |entries| :: entries[i].0;
      assert s2 == s1 + {entries[|entries| - 1].0} by {
        forall x | x in s2 ensures x in s1 + {entries[|entries| - 1].0} {
          var i :| 0 <= i < |entries| && entries[i].0 == x;
          if i < |init| { assert init[i].0 == x; }
        }
        forall x | x in s1 ensures x in s2 {
          var i :| 0 <= i < |init| && init[i].0 == x;
          assert entries[i].0 == x;
        }
      }
    }
  }
}
