/** `parse_ref` of workshop/parse_ref.js: classifies one reference as a bare URL or a
    `{{template|key=value|...}}` and extracts its name, URL and access date. */
module ParseRef {
  import opened JsStrings

  /** The object `parse_ref` returns; `None` stands for `null`. */
  datatype RefInfo = RefInfo(templateName: Option<string>, url: Option<string>,
                             accessDate: Option<string>, isBareRef: bool)

  /** After trimming, a reference is a template iff it starts with `{{` and ends with `}}`. */
  predicate IsTemplate(ref: string) { StartsWith(ref, "{{") && EndsWith(ref, "}}") }

  predicate NotSpace(c: char) { !IsSpace(c) }

  /** End of a match of `https?:\/\/\S+` starting exactly at `p`, if there is one. */
  function UrlMatchAt(s: string, p: nat): (r: Option<nat>)
    requires p <= |s|
    ensures r.Some? ==> p < r.value <= |s|
    ensures r.Some? ==> (LitAt(s, p, "https://") || LitAt(s, p, "http://"))
  {
    var q := if LitAt(s, p, "https://") && p + 8 < |s| && !IsSpace(s[p + 8]) then p + 8
             else if LitAt(s, p, "http://") && p + 7 < |s| && !IsSpace(s[p + 7]) then p + 7
             else p;
    if q == p then None else Some(SkipWhile(s, q, NotSpace))
  }

  /** The leftmost match of `https?:\/\/\S+` at or after `from`, as a (start, end) pair. */
  function FirstUrlFrom(s: string, from: nat): (r: Option<(nat, nat)>)
    requires from <= |s|
    ensures r.Some? ==> from <= r.value.0 <= |s| && UrlMatchAt(s, r.value.0) == Some(r.value.1)
    ensures r.Some? ==> forall p :: from <= p < r.value.0 ==> UrlMatchAt(s, p).None?
    ensures r.None? ==> forall p :: from <= p <= |s| ==> UrlMatchAt(s, p).None?
    decreases |s| - from
  {
    match UrlMatchAt(s, from)
    case Some(e) => Some((from, e))
    case None => if from == |s| then None else FirstUrlFrom(s, from + 1)
  }

  /** `s.match(/https?:\/\/\S+/)[0]`, or `None` when there is no match. */
  function FirstUrl(s: string): (r: Option<string>)
    ensures r.None? <==> forall p :: 0 <= p <= |s| ==> UrlMatchAt(s, p).None?
    ensures r.Some? ==> exists p :: 0 <= p <= |s| && UrlMatchAt(s, p).Some?
                         && (forall q :: 0 <= q < p ==> UrlMatchAt(s, q).None?)
                         && r.value == s[p..UrlMatchAt(s, p).value]
  {
    match FirstUrlFrom(s, 0)
    case None => None
    case Some((p, e)) => Some(s[p..e])
  }

  /** One `|`-segment split at its first `=` into a trimmed key and value; segments
      without `=` give `None` and are dropped. */
  function SplitParam(seg: string): (r: Option<(string, string)>)
    ensures r.None? <==> '=' !in seg
    ensures r.Some? ==> var i := CharIndex(seg, '=');
                        r.value == (Trim(seg[..i]), Trim(seg[i + 1..]))
  {
    FirstCharIndex(seg, '=');
    match IndexOf(seg, "=")
    case None => None
    case Some(i) => Some((Trim(seg[..i]), Trim(seg[i + 1..])))
  }

  /** The `map`/`filter` step: every segment that has an `=`, as a key-value pair. */
  function Params(segs: seq<string>): (r: seq<(string, string)>)
    ensures |r| <= |segs|
  {
    if |segs| == 0 then [] else Pair(segs[0]) + Params(segs[1..])
  }

  /** The pair of one segment, if it has an `=`. */
  function Pair(seg: string): (r: seq<(string, string)>)
    ensures |r| <= 1 && (|r| == 1 <==> SplitParam(seg).Some?)
    ensures |r| == 1 ==> SplitParam(seg) == Some(r[0])
  {
    match SplitParam(seg) case None => [] case Some(kv) => [kv]
  }

  /** Every pair comes from one of the segments: the `j`th. */
  lemma {:induction false} ParamsFromSegments(segs: seq<string>, m: nat) returns (j: nat)
    requires m < |Params(segs)|
    ensures j < |segs| && SplitParam(segs[j]) == Some(Params(segs)[m])
  {
    var h := Pair(segs[0]);
    var rest := segs[1..];
    if m < |h| {
      j := 0;
    } else {
      var j' := ParamsFromSegments(rest, m - |h|);
      assert rest[j'] == segs[j' + 1];
      j := j' + 1;
    }
  }

  /** The `reduce` step: `acc[param] = value` for each pair in turn. */
  function Collect(pairs: seq<(string, string)>): (m: map<string, string>)
  {
    if |pairs| == 0 then map[]
    else
      var last := pairs[|pairs| - 1];
      Collect(pairs[..|pairs| - 1])[last.0 := last.1]
  }

  /** The keys collected are exactly the keys of the pairs. */
  lemma {:induction false} CollectKeys(pairs: seq<(string, string)>, k: string)
    ensures k in Collect(pairs) <==> exists i :: 0 <= i < |pairs| && pairs[i].0 == k
  {
    if |pairs| > 0 {
      var init := pairs[..|pairs| - 1];
      CollectKeys(init, k);
      assert forall i :: 0 <= i < |init| ==> init[i] == pairs[i];
    }
  }

  /** `parameters[k] || null`: a missing or empty value is `null`. */
  function Truthy(m: map<string, string>, k: string): (r: Option<string>)
    ensures r.Some? <==> k in m && m[k] != ""
    ensures r.Some? ==> r.value == m[k]
  {
    if k in m && m[k] != "" then Some(m[k]) else None
  }

  /** The URL choice: the archive URL replaces `url` when it exists and the status is
      not "live", or when there is no `url`. */
  function SelectUrl(url: Option<string>, status: Option<string>, archive: Option<string>)
    : (r: Option<string>)
    ensures r == url || r == archive
    ensures url.Some? && status.Some? && Lower(status.value) == "live" ==> r == url
    ensures archive.Some? && (status.None? || Lower(status.value) != "live") ==> r == archive
    ensures url.None? ==> r == archive
    ensures archive.None? ==> r == url
  {
    if archive.Some? && (status.None? || Lower(status.value) != "live" || url.None?) then archive
    else url
  }

  /** The parameter text of a template: without the final `}}`, split on `|`. */
  function Segments(ref: string): (segs: seq<string>)
    requires IsTemplate(ref)
    ensures |segs| >= 1
  {
    Split(ref[..|ref| - 2], '|')
  }

  /** `parse_ref(raw_ref)`. */
  function Parse(raw: string): (r: RefInfo)
    ensures r.templateName.Some? ==> !r.isBareRef
    ensures r.isBareRef ==> r.url.Some? && r.templateName.None? && r.accessDate.None?
    ensures r.templateName.None? ==> r.accessDate.None?
  {
    var ref := Trim(raw);
    if !IsTemplate(ref) then
      match FirstUrl(ref)
      case None => RefInfo(None, None, None, false)
      case Some(u) => RefInfo(None, Some(u), None, true)
    else
      var segs := Segments(ref);
      var name := Trim(ReplaceFirst(segs[0], "{{", ""));
      var params := Collect(Params(segs[1..]));
      var url := Truthy(params, "url");
      var status := if "url_status" in params then Some(params["url_status"]) else None;
      RefInfo(Some(name), SelectUrl(url, status, Truthy(params, "archive-url")),
              Truthy(params, "access-date"), false)
  }

  /** Template detection: a name is reported exactly for templates, and a template is
      never a bare reference. */
  lemma TemplateDetection(raw: string)
    ensures Parse(raw).templateName.Some? <==> IsTemplate(Trim(raw))
    ensures IsTemplate(Trim(raw)) ==> !Parse(raw).isBareRef
  {
  }

  /** A non-template is a bare reference exactly when it contains an `http(s)://` URL,
      and then the URL is the first such match; name and access date stay `null`. */
  lemma BareReference(raw: string)
    requires !IsTemplate(Trim(raw))
    ensures Parse(raw).isBareRef <==> FirstUrl(Trim(raw)).Some?
    ensures Parse(raw).url == FirstUrl(Trim(raw))
    ensures Parse(raw).templateName.None? && Parse(raw).accessDate.None?
  {
  }

  /** Input with no template and no URL (the empty string, for one) gives all `null`s. */
  lemma NoUrl(raw: string)
    requires !IsTemplate(Trim(raw))
    requires forall p :: 0 <= p <= |Trim(raw)| ==> UrlMatchAt(Trim(raw), p).None?
    ensures Parse(raw) == RefInfo(None, None, None, false)
  {
  }

  lemma EmptyInput()
    ensures Parse("") == RefInfo(None, None, None, false)
  {
    NoUrl("");
  }

  /** The template name is the text between the opening `{{` and the first `|` (or the
      closing `}}`), trimmed. */
  lemma TemplateName(raw: string)
    requires IsTemplate(Trim(raw))
    ensures var ref := Trim(raw);
            var body := ref[..|ref| - 2];
            var k := CharIndex(body, '|');
            2 <= k && Parse(raw).templateName == Some(Trim(ref[2..k]))
  {
    var ref := Trim(raw);
    var body := ref[..|ref| - 2];
    assert |ref| >= 4 by {
      assert ref[..2] == "{{" && ref[|ref| - 2..] == "}}";
      assert ref[0] == '{' && ref[1] == '{';
      assert ref[|ref| - 2] == '}' && ref[|ref| - 1] == '}';
    }
    SplitHead(body, '|');
    var k := CharIndex(body, '|');
    assert body[0] == '{' && body[1] == '{';
    assert 2 <= k;
    var seg := body[..k];
    assert seg[..2] == "{{";
    assert IndexOf(seg, "{{") == Some(0);
    assert ReplaceFirst(seg, "{{", "") == ref[2..k];
  }

  /** The last pair with a given key decides its value. */
  lemma {:induction false} LastDuplicateWins(pairs: seq<(string, string)>, i: nat)
    requires i < |pairs|
    requires forall j :: i < j < |pairs| ==> pairs[j].0 != pairs[i].0
    ensures pairs[i].0 in Collect(pairs) && Collect(pairs)[pairs[i].0] == pairs[i].1
  {
    if i < |pairs| - 1 {
      var init := pairs[..|pairs| - 1];
      LastDuplicateWins(init, i);
    }
  }

  /** Collecting a concatenation: the later pairs override the earlier ones. */
  lemma {:induction false} CollectAppend(a: seq<(string, string)>, b: seq<(string, string)>)
    ensures Collect(a + b) == Collect(a) + Collect(b)
  {
    if |b| == 0 {
      assert a + b == a;
    } else {
      var init := b[..|b| - 1];
      CollectAppend(a, init);
      assert (a + b)[..|a + b| - 1] == a + init;
    }
  }

  /** Through the whole parse: a segment `key=value` that no later segment overrides
      gives the trimmed value for the trimmed key, however many `=` the value holds. */
  lemma {:induction false} SegmentValueWins(segs: seq<string>, i: nat, k: string, v: string)
    requires i < |segs| && SplitParam(segs[i]) == Some((k, v))
    requires forall j :: i < j < |segs| ==> SplitParam(segs[j]).None? || SplitParam(segs[j]).value.0 != k
    ensures k in Collect(Params(segs)) && Collect(Params(segs))[k] == v
  {
    var rest := segs[1..];
    var h := Pair(segs[0]);
    CollectAppend(h, Params(rest));
    if i == 0 {
      assert h == [(k, v)];
      assert Collect(h) == map[k := v];
      forall m | 0 <= m < |Params(rest)| ensures Params(rest)[m].0 != k {
        var j := ParamsFromSegments(rest, m);
        assert rest[j] == segs[j + 1];
      }
      CollectKeys(Params(rest), k);
    } else {
      forall j | i - 1 < j < |rest|
        ensures SplitParam(rest[j]).None? || SplitParam(rest[j]).value.0 != k
      {
        assert rest[j] == segs[j + 1];
      }
      SegmentValueWins(rest, i - 1, k, v);
    }
  }

  /** The selected URL is `archive-url` when that is present and the status is not
      "live" (or there is no `url`), otherwise `url`; and the access date is the
      `access-date` parameter. */
  lemma TemplateResult(raw: string)
    requires IsTemplate(Trim(raw))
    ensures var segs := Segments(Trim(raw));
            var params := Collect(Params(segs[1..]));
            var url := Truthy(params, "url");
            var archive := Truthy(params, "archive-url");
            var live := "url_status" in params && Lower(params["url_status"]) == "live";
            && Parse(raw).url == (if archive.Some? && (!live || url.None?) then archive else url)
            && Parse(raw).accessDate == Truthy(params, "access-date")
            && !Parse(raw).isBareRef
  {
  }
}
