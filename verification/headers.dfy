/** Header helpers: the page script's unsafe request-header test
    (`isUnsafeHeaderName` in inject.js) and the parser both scripts apply
    to the text of `getAllResponseHeaders()`. */
module Headers {
  import opened Common
  import opened Text

  /** `UNSAFE_REQ_HEADER_NAMES`. */
  const UnsafeNames: set<string> := {
    "accept-charset", "accept-encoding", "access-control-request-headers", "access-control-request-method",
    "connection", "content-length", "cookie", "cookie2", "date", "dnt", "expect", "host", "keep-alive",
    "origin", "referer", "te", "trailer", "transfer-encoding", "upgrade", "via",
    "sec-ch-ua", "sec-ch-ua-mobile", "sec-ch-ua-platform", "sec-fetch-mode", "sec-fetch-site",
    "sec-fetch-user", "sec-fetch-dest"}

  /** `UNSAFE_REQ_HEADER_PREFIXES`. */
  const UnsafePrefixes: seq<string> := ["sec-", "proxy-"]

  /** `isUnsafeHeaderName(name)`: the lower-cased name is listed or starts
      with a listed prefix. */
  predicate IsUnsafeHeaderName(name: string) {
    var n := Lower(name);
    n in UnsafeNames || exists i :: 0 <= i < |UnsafePrefixes| && StartsWith(n, UnsafePrefixes[i])
  }

  /** The test spelled out: a name is unsafe exactly when, lower-cased, it
      is one of the listed names or begins with "sec-" or "proxy-". */
  lemma UnsafeHeaderNameMeaning(name: string)
    ensures IsUnsafeHeaderName(name) <==>
      Lower(name) in UnsafeNames || StartsWith(Lower(name), "sec-") || StartsWith(Lower(name), "proxy-")
  {
    if StartsWith(Lower(name), "sec-") { assert UnsafePrefixes[0] == "sec-"; }
    if StartsWith(Lower(name), "proxy-") { assert UnsafePrefixes[1] == "proxy-"; }
  }

  /** The prefix test covers whole families: any name that begins with
      "sec-" or "proxy-" in any ASCII case is unsafe, whatever follows. */
  lemma UnsafePrefixFamily(prefix: string, rest: string)
    requires Lower(prefix) == "sec-" || Lower(prefix) == "proxy-"
    ensures IsUnsafeHeaderName(prefix + rest)
  {
    var n := Lower(prefix + rest);
    assert n[..|prefix|] == Lower(prefix);
    UnsafeHeaderNameMeaning(prefix + rest);
  }

  /** Examples: the content type and custom headers a rule sets are safe;
      a cookie in any case and the `Sec-Fetch-*` family are not. */
  lemma UnsafeHeaderExamples()
    ensures !IsUnsafeHeaderName("content-type")
    ensures !IsUnsafeHeaderName("x-api-key")
    ensures IsUnsafeHeaderName("Cookie")
    ensures IsUnsafeHeaderName("Sec-Fetch-Mode")
  {
    assert Lower("Cookie") == "cookie";
    assert Lower("Sec-Fetch-Mode") == "sec-fetch-mode";
    assert Lower("content-type") == "content-type";
    assert Lower("x-api-key") == "x-api-key";
    assert "content-type"[..4][0] != "sec-"[0] && "content-type"[..6][0] != "proxy-"[0];
    assert "x-api-key"[..4][0] != "sec-"[0] && "x-api-key"[..6][0] != "proxy-"[0];
    UnsafeHeaderNameMeaning("content-type");
    UnsafeHeaderNameMeaning("x-api-key");
  }

  /** The test ignores ASCII case. */
  lemma UnsafeHeaderNameIgnoresCase(name: string)
    ensures IsUnsafeHeaderName(Upper(name)) == IsUnsafeHeaderName(name)
    ensures IsUnsafeHeaderName(Lower(name)) == IsUnsafeHeaderName(name)
  {
    LowerOfUpper(name);
    LowerIdempotent(name);
  }

  // ---------------------------------------------------------------------
  // Response header block

  /** One line of the block: when it has a colon, the text before the first
      colon, trimmed and lower-cased, names the text after it, trimmed. */
  function ParseLine(line: string): (r: Option<(string, string)>)
    ensures r.None? <==> !Contains(line, ":")
    ensures r.Some? ==> Lower(r.value.0) == r.value.0
  {
    match IndexOf(line, ":")
    case None => None
    case Some(i) =>
      LowerIdempotent(Trim(line[..i]));
      Some((Lower(Trim(line[..i])), Trim(line[i + 1..])))
  }

  /** The lines folded into an object in order, so a later line with the
      same name overwrites an earlier one. */
  function ParseLines(acc: map<string, string>, lines: seq<string>): (r: map<string, string>)
    ensures (forall k :: k in acc ==> Lower(k) == k) ==> forall k :: k in r ==> Lower(k) == k
    decreases |lines|
  {
    if |lines| == 0 then acc
    else
      var next := match ParseLine(lines[0]) case Some(kv) => acc[kv.0 := kv.1] case None => acc;
      ParseLines(next, lines[1..])
  }

  /** `raw.split("\n")` parsed line by line: every name in the result is
      lower case. */
  function ParseHeaderBlock(raw: string): (r: map<string, string>)
    ensures forall k :: k in r ==> Lower(k) == k
  {
    ParseLines(map[], Split(raw, '\n'))
  }

  /** The value of a name is the value on the last line that names it. */
  lemma {:induction false} ParseLinesLastWins(acc: map<string, string>, lines: seq<string>, j: nat)
    requires j < |lines| && ParseLine(lines[j]).Some?
    requires forall i :: j < i < |lines| && ParseLine(lines[i]).Some? ==> ParseLine(lines[i]).value.0 != ParseLine(lines[j]).value.0
    ensures var kv := ParseLine(lines[j]).value;
      kv.0 in ParseLines(acc, lines) && ParseLines(acc, lines)[kv.0] == kv.1
    decreases |lines|
  {
    var kv := ParseLine(lines[j]).value;
    var next := match ParseLine(lines[0]) case Some(p) => acc[p.0 := p.1] case None => acc;
    if j == 0 {
      ParseLinesUntouched(next, lines[1..], kv.0);
    } else {
      assert lines[1..][j - 1] == lines[j];
      forall i | j - 1 < i < |lines[1..]| && ParseLine(lines[1..][i]).Some?
        ensures ParseLine(lines[1..][i]).value.0 != kv.0
      {
        assert lines[1..][i] == lines[i + 1];
      }
      ParseLinesLastWins(next, lines[1..], j - 1);
    }
  }

  /** A name no line mentions keeps the value it had. */
  lemma {:induction false} ParseLinesUntouched(acc: map<string, string>, lines: seq<string>, k: string)
    requires forall i :: 0 <= i < |lines| && ParseLine(lines[i]).Some? ==> ParseLine(lines[i]).value.0 != k
    ensures k in acc ==> k in ParseLines(acc, lines) && ParseLines(acc, lines)[k] == acc[k]
    ensures k !in acc ==> k !in ParseLines(acc, lines)
    decreases |lines|
  {
    if |lines| > 0 {
      var next := match ParseLine(lines[0]) case Some(p) => acc[p.0 := p.1] case None => acc;
      forall i | 0 <= i < |lines[1..]| && ParseLine(lines[1..][i]).Some?
        ensures ParseLine(lines[1..][i]).value.0 != k
      {
        assert lines[1..][i] == lines[i + 1];
      }
      ParseLinesUntouched(next, lines[1..], k);
    }
  }

  /** A line `name: value` whose name has no colon is recorded under the
      trimmed, lower-cased name with the trimmed value, whatever the value
      contains (a further colon, a trailing carriage return). */
  lemma ParseNameValueLine(name: string, value: string)
    requires !Contains(name, ":")
    ensures ParseLine(name + ":" + value) == Some((Lower(Trim(name)), Trim(value)))
  {
    var line := name + ":" + value;
    forall j: nat | j < |name| ensures !OccursAt(line, ":", j) {
      assert !OccursAt(name, ":", j);
      assert line[j..j + 1] == name[j..j + 1];
    }
    assert OccursAt(line, ":", |name|) by {
      assert line[|name|..|name| + 1] == ":";
    }
    assert IndexOf(line, ":") == Some(|name|);
    assert line[..|name|] == name;
    assert line[|name| + 1..] == value;
  }
}
