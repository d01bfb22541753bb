/** The request rewrites a matched rule performs before the request is
    sent: query parameter edits (`applyQueryChanges` in content.js,
    `qChange` in inject.js), body edits (`applyBodyChanges` / `bodyChange`)
    and redirects (`applyHostReplace` / `applyPathReplace` and the inline
    path replacement of inject.js).

    URLs are parsed and serialised through `Url.UrlCodec`, JSON through
    `Json.JsonCodec`. Assigning `pathname` or `host` stores the new text as
    it is. */
module Transform {
  import opened Common
  import opened Text
  import opened Json
  import opened Url
  import opened Rules

  /** The page the script runs in: `location.origin` and `location.href`. */
  datatype Page = Page(origin: string, href: string)

  // ---------------------------------------------------------------------
  // Query parameters

  /** content.js: every `set` entry is assigned, then every `remove` name
      deleted, so a name listed in both ends up absent. */
  function ContentQueryEdit(q: seq<Pair>, c: QueryChange): (r: seq<Pair>)
    ensures forall k ::
      Named(r, k) == (if k in c.remove then [] else match Lookup(c.setEntries, k) case Some(v) => [v] case None => Named(q, k))
  {
    DeleteAll(SetAll(q, c.setEntries), c.remove)
  }

  /** inject.js: every `remove` name is deleted first, then every `set`
      entry assigned, so a name listed in both ends up set. */
  function InjectQueryEdit(q: seq<Pair>, c: QueryChange): (r: seq<Pair>)
    ensures forall k ::
      Named(r, k) == (match Lookup(c.setEntries, k) case Some(v) => [v] case None => if k in c.remove then [] else Named(q, k))
  {
    SetAll(DeleteAll(q, c.remove), c.setEntries)
  }

  /** The two scripts agree on every name except one that is both set and
      removed: the content script drops it and the page script keeps the
      set value. */
  lemma QueryEditsDisagreeOnlyOnConflicts(q: seq<Pair>, c: QueryChange, k: string)
    ensures Lookup(c.setEntries, k).None? || k !in c.remove ==>
      Named(ContentQueryEdit(q, c), k) == Named(InjectQueryEdit(q, c), k)
    ensures Lookup(c.setEntries, k).Some? && k in c.remove ==>
      Named(ContentQueryEdit(q, c), k) == [] && Named(InjectQueryEdit(q, c), k) == [Lookup(c.setEntries, k).value]
  {
  }

  /** Parses `url` against the origin, edits the query and serialises; a
      URL that does not parse is returned unchanged. */
  function QueryChangeWith(codec: UrlCodec, page: Page, url: string, c: QueryChange, setWins: bool): (r: string)
    ensures codec.parse(url, page.origin).None? ==> r == url
    ensures codec.parse(url, page.origin).Some? ==>
      var u := codec.parse(url, page.origin).value;
      exists q :: r == codec.serialize(u.(query := q))
        && forall k :: Named(q, k) == (if setWins then Named(InjectQueryEdit(u.query, c), k) else Named(ContentQueryEdit(u.query, c), k))
  {
    match codec.parse(url, page.origin)
    case None => url
    case Some(u) =>
      var q := if setWins then InjectQueryEdit(u.query, c) else ContentQueryEdit(u.query, c);
      codec.serialize(u.(query := q))
  }

  /** `applyQueryChanges(url, changes)` of content.js. */
  function ContentQueryChange(codec: UrlCodec, page: Page, url: string, c: QueryChange): string {
    QueryChangeWith(codec, page, url, c, false)
  }

  /** `qChange(url, changes)` of inject.js. */
  function InjectQueryChange(codec: UrlCodec, page: Page, url: string, c: QueryChange): string {
    QueryChangeWith(codec, page, url, c, true)
  }

  /** Applying the page script's query edit a second time leaves every
      name with the values one application gave it; when nothing is
      removed and the set names are distinct, the pairs are the same
      list. */
  lemma InjectQueryEditTwice(q: seq<Pair>, c: QueryChange)
    ensures forall k :: Named(InjectQueryEdit(InjectQueryEdit(q, c), c), k) == Named(InjectQueryEdit(q, c), k)
    ensures |c.remove| == 0 && DistinctNames(c.setEntries) ==>
      InjectQueryEdit(InjectQueryEdit(q, c), c) == InjectQueryEdit(q, c)
  {
    if |c.remove| == 0 && DistinctNames(c.setEntries) {
      SetAllIdempotent(q, c.setEntries);
    }
  }

  /** URL parsing reads back what serialisation wrote, whatever the base. */
  ghost predicate UrlRoundTrips(codec: UrlCodec) {
    forall u, base :: codec.parse(codec.serialize(u), base) == Some(u)
  }

  /** `qChange` with only a `set` part: applying it to its own result
      gives the same URL. */
  lemma InjectQuerySetIdempotent(codec: UrlCodec, page: Page, url: string, c: QueryChange)
    requires UrlRoundTrips(codec) && |c.remove| == 0 && DistinctNames(c.setEntries)
    ensures InjectQueryChange(codec, page, InjectQueryChange(codec, page, url, c), c) == InjectQueryChange(codec, page, url, c)
  {
    match codec.parse(url, page.origin)
    case None =>
    case Some(u) =>
      var u1 := u.(query := InjectQueryEdit(u.query, c));
      assert InjectQueryChange(codec, page, url, c) == codec.serialize(u1);
      assert codec.parse(codec.serialize(u1), page.origin) == Some(u1);
      InjectQueryEditTwice(u.query, c);
      assert u1.(query := InjectQueryEdit(u1.query, c)) == u1;
  }

  // ---------------------------------------------------------------------
  // Request bodies

  /** A request body: none, text, a `FormData`, a plain object with its
      own properties, or another object (a Blob, an ArrayBuffer,
      URLSearchParams, ...), which has no own enumerable properties. */
  datatype Body = NoBody | TextBody(text: string) | FormBody | PlainObjectBody(fields: map<string, Json>) | OpaqueBody

  /** Where the content type is read: no headers, or a header collection
      whose `content-type` entry (if any) is looked up. A `Headers` object
      stores names in lower case; a plain object is looked up as written. */
  datatype HeaderSource = NoHeaders | HeaderMap(entries: map<string, string>)

  /** `headers.get("content-type")` or `headers["content-type"]`, with ""
      for a missing value. */
  function ContentTypeOf(h: HeaderSource): (ct: string)
    ensures h.NoHeaders? ==> ct == ""
    ensures h.HeaderMap? && "content-type" in h.entries ==> ct == h.entries["content-type"]
  {
    match h
    case NoHeaders => ""
    case HeaderMap(m) => if "content-type" in m then m["content-type"] else ""
  }

  /** `/json/i.test(ct)`. */
  predicate MentionsJson(ct: string) {
    Contains(Lower(ct), "json")
  }

  /** What `tryParseJson` hands back: a parsed JSON value, the body object
      itself, or `null`. */
  datatype Parsed = ParsedJson(value: Json) | BodyObject(props: map<string, Json>) | NoObject

  /** `tryParseJson(body, headers)`: a text body with a JSON content type
      is parsed (`null` when that fails); an object body other than
      `FormData` is returned as it is. */
  function TryParseJson(codec: JsonCodec, body: Body, h: HeaderSource): (r: Parsed)
    ensures r.ParsedJson? ==> body.TextBody? && MentionsJson(ContentTypeOf(h)) && codec.parse(body.text) == Some(r.value)
    ensures body.TextBody? && MentionsJson(ContentTypeOf(h)) && codec.parse(body.text).Some? ==>
      r == ParsedJson(codec.parse(body.text).value)
    ensures r.BodyObject? <==> body.PlainObjectBody? || body.OpaqueBody?
    ensures body.PlainObjectBody? ==> r == BodyObject(body.fields)
    ensures body.OpaqueBody? ==> r == BodyObject(map[])
    ensures body.NoBody? || body.FormBody? ==> r == NoObject
  {
    match body
    case TextBody(s) =>
      if MentionsJson(ContentTypeOf(h)) then
        match codec.parse(s)
        case Some(j) => ParsedJson(j)
        case None => NoObject
      else NoObject
    case PlainObjectBody(f) => BodyObject(f)
    case OpaqueBody => BodyObject(map[])
    case _ => NoObject
  }

  /** ToBoolean of what `tryParseJson` returned. */
  predicate ParsedTruthy(p: Parsed) {
    match p
    case ParsedJson(j) => Truthy(j)
    case BodyObject(_) => true
    case NoObject => false
  }

  /** The properties `{ ...obj }` copies from what `tryParseJson` returned. */
  function ParsedProps(p: Parsed): map<string, Json> {
    match p
    case ParsedJson(j) => Props(j)
    case BodyObject(f) => f
    case NoObject => map[]
  }

  /** `changes.jsonMerge && typeof changes.jsonMerge === "object"`. */
  predicate MergesObject(c: BodyChange) {
    c.jsonMerge.Some? && IsObjectLike(c.jsonMerge.value)
  }

  /** `applyBodyChanges(body, headers, changes)` of content.js: when the
      body yields a truthy value and the change has an object `jsonMerge`,
      the merged object is serialised; otherwise a text body with a
      `stringReplace` has every occurrence of `from` replaced by `to`
      (both default to ""); otherwise the body is unchanged. */
  function ContentBodyChange(codec: JsonCodec, body: Body, h: HeaderSource, c: BodyChange): (r: Body)
    ensures ParsedTruthy(TryParseJson(codec, body, h)) && MergesObject(c) ==>
      r == TextBody(codec.stringify(JObj(Spread(ParsedProps(TryParseJson(codec, body, h)), Props(c.jsonMerge.value)))))
    ensures !(ParsedTruthy(TryParseJson(codec, body, h)) && MergesObject(c)) && body.TextBody? && c.stringReplace.Some? ==>
      r == TextBody(JsReplaceAll(body.text, c.stringReplace.value.from.GetOr(""), c.stringReplace.value.to.GetOr("")))
    ensures !(ParsedTruthy(TryParseJson(codec, body, h)) && MergesObject(c)) && !(body.TextBody? && c.stringReplace.Some?) ==>
      r == body
    ensures r != body ==> r.TextBody?
  {
    var obj := TryParseJson(codec, body, h);
    if ParsedTruthy(obj) && MergesObject(c) then
      TextBody(codec.stringify(JObj(Spread(ParsedProps(obj), Props(c.jsonMerge.value)))))
    else if body.TextBody? && c.stringReplace.Some? then
      var sr := c.stringReplace.value;
      TextBody(JsReplaceAll(body.text, sr.from.GetOr(""), sr.to.GetOr("")))
    else body
  }

  /** JSON parsing reads back what serialisation wrote. */
  ghost predicate RoundTrips(codec: JsonCodec) {
    forall j :: codec.parse(codec.stringify(j)) == Some(j)
  }

  /** Merging into a JSON object body: the new body parses to an object in
      which every merged name holds the merged value and every other name
      keeps its old value. */
  lemma ContentMergeResult(codec: JsonCodec, s: string, h: HeaderSource, c: BodyChange, fields: map<string, Json>)
    requires RoundTrips(codec)
    requires MentionsJson(ContentTypeOf(h)) && codec.parse(s) == Some(JObj(fields)) && MergesObject(c)
    ensures ContentBodyChange(codec, TextBody(s), h, c).TextBody?
    ensures var m := Props(c.jsonMerge.value);
      codec.parse(ContentBodyChange(codec, TextBody(s), h, c).text) == Some(JObj(Spread(fields, m)))
      && (forall k :: k in m ==> Spread(fields, m)[k] == m[k])
      && (forall k :: k in fields && k !in m ==> Spread(fields, m)[k] == fields[k])
  {
  }

  /** Applying a merge to a JSON object body a second time gives the same
      body as applying it once. */
  lemma ContentMergeIdempotent(codec: JsonCodec, s: string, h: HeaderSource, c: BodyChange, fields: map<string, Json>)
    requires RoundTrips(codec)
    requires MentionsJson(ContentTypeOf(h)) && codec.parse(s) == Some(JObj(fields)) && MergesObject(c)
    ensures var once := ContentBodyChange(codec, TextBody(s), h, c);
      ContentBodyChange(codec, once, h, c) == once
  {
    var m := Props(c.jsonMerge.value);
    SpreadIdempotent(fields, m);
  }

  /** Without a JSON content type (as for XMLHttpRequest, whose header
      argument is `{}`), a text body is never merged: it is string-replaced
      or left alone. */
  lemma TextBodyWithoutJsonTypeIsNotMerged(codec: JsonCodec, s: string, h: HeaderSource, c: BodyChange)
    requires !MentionsJson(ContentTypeOf(h))
    ensures c.stringReplace.None? ==> ContentBodyChange(codec, TextBody(s), h, c) == TextBody(s)
    ensures c.stringReplace.Some? ==>
      ContentBodyChange(codec, TextBody(s), h, c) == TextBody(JsReplaceAll(s, c.stringReplace.value.from.GetOr(""), c.stringReplace.value.to.GetOr("")))
  {
  }

  /** `bodyChange(body, headers, changes)` of inject.js. Only a text body is
      edited: it is parsed, the `remove` names deleted and the `set`
      entries assigned, and the object serialised again. Text that does not
      parse, and `null` when there is something to delete or assign (the
      TypeError is caught), leave the body unchanged. A parsed array is
      left unchanged here (see README). */
  function InjectBodyChange(codec: JsonCodec, body: Body, c: BodyChange): (r: Body)
    ensures !body.TextBody? ==> r == body
    ensures body.TextBody? && codec.parse(body.text).None? ==> r == body
    ensures body.TextBody? && codec.parse(body.text).Some? && codec.parse(body.text).value.JObj? ==>
      r == TextBody(codec.stringify(JObj(SetKeys(DeleteKeys(codec.parse(body.text).value.fields, c.remove), c.setEntries))))
    ensures body.TextBody? && codec.parse(body.text) == Some(JNull) ==>
      r == (if |c.remove| + |c.setEntries| > 0 then body else TextBody(codec.stringify(JNull)))
  {
    match body
    case TextBody(s) =>
      (match codec.parse(s)
       case None => body
       case Some(j) =>
         match j
         case JObj(f) => TextBody(codec.stringify(JObj(SetKeys(DeleteKeys(f, c.remove), c.setEntries))))
         case JNull => if |c.remove| + |c.setEntries| > 0 then body else TextBody(codec.stringify(j))
         case JArr(_) => body
         case _ => TextBody(codec.stringify(j)))
    case _ => body
  }

  /** In the page script an setObj name wins over a removed one: after
      the edit, each setObj name holds its last setObj value and each
      removed, unassigned name is gone. */
  lemma InjectBodyResult(codec: JsonCodec, s: string, c: BodyChange, fields: map<string, Json>)
    requires RoundTrips(codec) && codec.parse(s) == Some(JObj(fields))
    ensures InjectBodyChange(codec, TextBody(s), c).TextBody?
    ensures var r := codec.parse(InjectBodyChange(codec, TextBody(s), c).text);
      var setObj := EntriesObject(c.setEntries);
      r.Some? && r.value.JObj?
      && (forall k :: k in setObj ==> k in r.value.fields && r.value.fields[k] == setObj[k])
      && (forall k :: k in c.remove && k !in setObj ==> k !in r.value.fields)
      && (forall k :: k in fields && k !in c.remove && k !in setObj ==> k in r.value.fields && r.value.fields[k] == fields[k])
  {
    SetKeysIsSpread(DeleteKeys(fields, c.remove), c.setEntries);
  }

  // ---------------------------------------------------------------------
  // Host and path replacement

  /** One replacement entry as content.js applies it: an entry without
      `from` is skipped; otherwise the first occurrence of `from || ""` is
      replaced by `to || ""`. */
  function ApplyPair(s: string, pr: ReplacePair): (r: string)
    ensures pr.from.None? ==> r == s
    ensures pr.from.Some? ==> r == JsReplace(s, pr.from.value, pr.to.GetOr(""))
  {
    if pr.from.None? then s else JsReplace(s, pr.from.value, pr.to.GetOr(""))
  }

  /** The entries of an array applied in order. */
  function ApplyPairs(s: string, prs: seq<ReplacePair>): string
    decreases |prs|
  {
    if |prs| == 0 then s else ApplyPairs(ApplyPair(s, prs[0]), prs[1..])
  }

  /** A single entry or an array of entries. */
  function ApplySpec(s: string, spec: ReplaceSpec): string {
    match spec
    case Single(pr) => ApplyPair(s, pr)
    case Many(prs) => ApplyPairs(s, prs)
  }

  /** An array of entries is the same as applying its parts one after the
      other. */
  lemma {:induction false} ApplyPairsConcat(s: string, a: seq<ReplacePair>, b: seq<ReplacePair>)
    ensures ApplyPairs(s, a + b) == ApplyPairs(ApplyPairs(s, a), b)
    decreases |a|
  {
    if |a| > 0 {
      assert (a + b)[1..] == a[1..] + b;
      ApplyPairsConcat(ApplyPair(s, a[0]), a[1..], b);
    } else {
      assert a + b == b;
    }
  }

  /** Entries whose `from` texts do not occur leave the text as it is. */
  lemma {:induction false} ApplyPairsAbsent(s: string, prs: seq<ReplacePair>)
    requires forall i :: 0 <= i < |prs| && prs[i].from.Some? ==> forall j: nat :: !OccursAt(s, prs[i].from.value, j)
    ensures ApplyPairs(s, prs) == s
    decreases |prs|
  {
    if |prs| > 0 {
      assert ApplyPair(s, prs[0]) == s;
      ApplyPairsAbsent(s, prs[1..]);
    }
  }

  /** An entry whose `from` is empty inserts `to` in front of the text. */
  lemma EmptyFromPrepends(s: string, t: string)
    requires NoDollar(t)
    ensures ApplyPair(s, ReplacePair(Some(""), Some(t))) == t + s
  {
    assert FirstOccurrence(s, "", 0) by { assert s[0..0] == ""; }
    var r := ReplaceFirst(s, "", t);
    assert r == s[..0] + t + s[0..];
    assert s[..0] + t + s[0..] == t + s;
  }

  /** `applyPathReplace(url, pathReplace)` of content.js. */
  function ContentPathReplace(codec: UrlCodec, page: Page, url: string, spec: ReplaceSpec): (r: string)
    ensures codec.parse(url, page.origin).None? ==> r == url
    ensures codec.parse(url, page.origin).Some? ==>
      var u := codec.parse(url, page.origin).value;
      r == codec.serialize(u.(pathname := ApplySpec(u.pathname, spec)))
  {
    match codec.parse(url, page.origin)
    case None => url
    case Some(u) => codec.serialize(u.(pathname := ApplySpec(u.pathname, spec)))
  }

  /** `applyHostReplace(url, hostReplace)` of content.js. */
  function ContentHostReplace(codec: UrlCodec, page: Page, url: string, spec: ReplaceSpec): (r: string)
    ensures codec.parse(url, page.origin).None? ==> r == url
    ensures codec.parse(url, page.origin).Some? ==>
      var u := codec.parse(url, page.origin).value;
      r == codec.serialize(u.(host := ApplySpec(u.host, spec)))
  {
    match codec.parse(url, page.origin)
    case None => url
    case Some(u) => codec.serialize(u.(host := ApplySpec(u.host, spec)))
  }

  /** inject.js reads `pathReplace.from || ""` and `pathReplace.to || ""`
      directly, so an array (which has neither) replaces "" by "", and an
      entry without `from` still replaces at the start. */
  function InjectPathEdit(p: string, spec: ReplaceSpec): (r: string)
    ensures spec.Many? ==> r == p
  {
    match spec
    case Single(pr) => JsReplace(p, pr.from.GetOr(""), pr.to.GetOr(""))
    case Many(_) =>
      assert OccursAt(p, "", 0);
      assert p[..0] == [] && p[0..] == p;
      JsReplace(p, "", "")
  }

  /** `pathReplace` handling of inject.js. */
  function InjectPathReplace(codec: UrlCodec, page: Page, url: string, spec: ReplaceSpec): (r: string)
    ensures codec.parse(url, page.origin).None? ==> r == url
    ensures codec.parse(url, page.origin).Some? ==>
      var u := codec.parse(url, page.origin).value;
      r == codec.serialize(u.(pathname := InjectPathEdit(u.pathname, spec)))
  {
    match codec.parse(url, page.origin)
    case None => url
    case Some(u) => codec.serialize(u.(pathname := InjectPathEdit(u.pathname, spec)))
  }

  /** No `from` of the entries occurs in `s`. */
  ghost predicate NoneOccur(s: string, spec: ReplaceSpec) {
    match spec
    case Single(pr) => pr.from.Some? ==> forall j: nat :: !OccursAt(s, pr.from.value, j)
    case Many(prs) => forall i :: 0 <= i < |prs| && prs[i].from.Some? ==> forall j: nat :: !OccursAt(s, prs[i].from.value, j)
  }

  /** For a URL already in the form `toString` gives, entries whose
      `from` texts do not occur in the path (or host) send the request to
      the URL it had; the page script also leaves it alone for an array of
      entries, which it does not read. */
  lemma UnmatchedReplaceKeepsUrl(codec: UrlCodec, page: Page, url: string, u: Url, spec: ReplaceSpec)
    requires codec.parse(url, page.origin) == Some(u) && codec.serialize(u) == url
    ensures NoneOccur(u.pathname, spec) ==> ContentPathReplace(codec, page, url, spec) == url
    ensures NoneOccur(u.host, spec) ==> ContentHostReplace(codec, page, url, spec) == url
    ensures spec.Many? || (spec.pair.from.Some? && NoneOccur(u.pathname, spec)) ==> InjectPathReplace(codec, page, url, spec) == url
  {
    if NoneOccur(u.pathname, spec) {
      ApplySpecAbsent(u.pathname, spec);
      assert u.(pathname := u.pathname) == u;
    }
    if NoneOccur(u.host, spec) {
      ApplySpecAbsent(u.host, spec);
      assert u.(host := u.host) == u;
    }
    assert u.(pathname := u.pathname) == u;
  }

  lemma ApplySpecAbsent(s: string, spec: ReplaceSpec)
    requires NoneOccur(s, spec)
    ensures ApplySpec(s, spec) == s
  {
    if spec.Many? {
      ApplyPairsAbsent(s, spec.pairs);
    }
  }

  /** An entry with a `from` text edits the path the same way in both
      scripts. */
  lemma PathReplaceScriptsAgree(codec: UrlCodec, page: Page, url: string, pr: ReplacePair)
    requires pr.from.Some?
    ensures ContentPathReplace(codec, page, url, Single(pr)) == InjectPathReplace(codec, page, url, Single(pr))
  {
  }

  /** The two scripts treat an entry without `from` differently: the
      content script skips it, the page script inserts `to` in front of the
      path. */
  lemma MissingFromDiffers(p: string, t: string)
    requires NoDollar(t)
    ensures ApplySpec(p, Single(ReplacePair(None, Some(t)))) == p
    ensures InjectPathEdit(p, Single(ReplacePair(None, Some(t)))) == t + p
  {
    EmptyFromPrepends(p, t);
  }

  // ---------------------------------------------------------------------
  // Redirects

  /** `typeof redirect === "string" && redirect.startsWith("http")`. */
  predicate IsHttpRedirect(rd: Redirect) {
    rd.RedirectTo? && StartsWith(rd.url, "http")
  }

  /** The redirect step of content.js (fetch and XMLHttpRequest): an http
      string replaces the URL, an object applies its host and then its path
      replacement, anything else changes nothing. */
  function ContentRedirect(codec: UrlCodec, page: Page, url: string, rd: Redirect): (r: string)
    ensures IsHttpRedirect(rd) ==> r == rd.url
    ensures rd.NoRedirect? || (rd.RedirectTo? && !IsHttpRedirect(rd)) ==> r == url
    ensures rd.RedirectParts? && rd.hostReplace.None? && rd.pathReplace.None? ==> r == url
  {
    match rd
    case NoRedirect => url
    case RedirectTo(t) => if StartsWith(t, "http") then t else url
    case RedirectParts(hr, pr) =>
      var afterHost := if hr.Some? then ContentHostReplace(codec, page, url, hr.value) else url;
      if pr.Some? then ContentPathReplace(codec, page, afterHost, pr.value) else afterHost
  }

  /** The redirect step of inject.js: as in content.js, except that a host
      replacement is ignored. */
  function InjectRedirect(codec: UrlCodec, page: Page, url: string, rd: Redirect): (r: string)
    ensures IsHttpRedirect(rd) ==> r == rd.url
    ensures rd.NoRedirect? || (rd.RedirectTo? && !IsHttpRedirect(rd)) ==> r == url
    ensures rd.RedirectParts? && rd.pathReplace.None? ==> r == url
  {
    match rd
    case NoRedirect => url
    case RedirectTo(t) => if StartsWith(t, "http") then t else url
    case RedirectParts(_, pr) => if pr.Some? then InjectPathReplace(codec, page, url, pr.value) else url
  }
}
