/** The wikitext scanning shared by author-link.js and src/author-link-vue.js: the
    citation regex, the author-parameter regex, grouping of the parameters by author
    index, the existing-link check and the candidate list. Each regex is written out
    as a scanner; `LitAtCI` stands for the `i` flag. */
module Citations {
  import opened JsStrings
  import JsObjects
  import Seqs

  // ---------------------------------------------------------------------------
  // /{{(?:cite\s+\w+|citation)\s*\|[^}].*?}}/gi

  /** Index just past `(?:cite\s+\w+|citation)\s*\|` read at `i`. Greedy `\s+`, `\w+`
      and `\s*` cannot give anything back here: the next item never matches what they
      would release. */
  function HeadEnd(s: string, i: nat): (r: Option<nat>)
    requires i <= |s|
    ensures r.Some? ==> i < r.value <= |s| && s[r.value - 1] == '|'
  {
    var word :=
      if LitAtCI(s, i, "cite") && i + 4 < |s| && IsSpace(s[i + 4]) then
        var a := SkipSpaces(s, i + 4);
        var b := SkipWhile(s, a, IsWordChar);
        if b > a then Some(b) else None
      else if LitAtCI(s, i, "citation") then Some(i + 8)
      else None;
    match word
    case None => None
    case Some(b) =>
      var c := SkipSpaces(s, b);
      if c < |s| && s[c] == '|' then Some(c + 1) else None
  }

  /** The lazy `.*?}}` from `i`: the index just past the first `}}`, provided no line
      terminator comes before it. */
  function LazyClose(s: string, i: nat): (r: Option<nat>)
    requires i <= |s|
    ensures r.Some? ==> i + 2 <= r.value <= |s| && LitAt(s, r.value - 2, "}}")
    decreases |s| - i
  {
    if LitAt(s, i, "}}") then Some(i + 2)
    else if i == |s| || IsLineTerminator(s[i]) then None
    else LazyClose(s, i + 1)
  }

  /** The `}}` found is the first one, and no line terminator comes before it. */
  lemma {:induction false} LazyCloseFirst(s: string, i: nat)
    requires i <= |s| && LazyClose(s, i).Some?
    ensures forall k :: i <= k < LazyClose(s, i).value - 2 ==> !IsLineTerminator(s[k]) && !LitAt(s, k, "}}")
    decreases |s| - i
  {
    if !LitAt(s, i, "}}") {
      LazyCloseFirst(s, i + 1);
    }
  }

  /** When nothing is found, a line terminator comes before every `}}`. */
  lemma {:induction false} LazyCloseNone(s: string, i: nat)
    requires i <= |s| && LazyClose(s, i).None?
    ensures forall k :: i <= k <= |s| && LitAt(s, k, "}}") ==>
              exists t :: i <= t < k && IsLineTerminator(s[t])
    decreases |s| - i
  {
    if i < |s| && !IsLineTerminator(s[i]) {
      LazyCloseNone(s, i + 1);
    }
  }

  /** End of a citation match starting exactly at `p`. */
  function CitationAt(s: string, p: nat): (r: Option<nat>)
    requires p <= |s|
    ensures r.Some? ==> p + 2 < r.value <= |s| && LitAt(s, p, "{{") && LitAt(s, r.value - 2, "}}")
  {
    if !LitAt(s, p, "{{") then None
    else
      match HeadEnd(s, p + 2)
      case None => None
      case Some(h) => if h < |s| && s[h] != '}' then LazyClose(s, h + 1) else None
  }

  ghost predicate NoCitationIn(s: string, a: nat, b: nat)
    requires b <= |s| + 1
  {
    forall p :: a <= p < b ==> CitationAt(s, p).None?
  }

  /** `r` is what a global search from `i` finds: each match starts at the leftmost
      position where one exists, the search resuming where the last one ended, and
      after the last match there is none. */
  ghost predicate ScanFrom(s: string, i: nat, r: seq<(nat, nat)>)
    requires i <= |s|
    decreases |r|
  {
    if |r| == 0 then NoCitationIn(s, i, |s| + 1)
    else
      && i <= r[0].0 < r[0].1 <= |s|
      && NoCitationIn(s, i, r[0].0)
      && CitationAt(s, r[0].0) == Some(r[0].1)
      && ScanFrom(s, r[0].1, r[1..])
  }

  /** The global `match` from index `i`, as (start, end) spans. */
  function CitationSpans(s: string, i: nat): (r: seq<(nat, nat)>)
    requires i <= |s|
    ensures ScanFrom(s, i, r)
    decreases |s| - i
  {
    match CitationAt(s, i)
    case Some(e) =>
      var rest := CitationSpans(s, e);
      assert ([(i, e)] + rest)[1..] == rest;
      [(i, e)] + rest
    case None =>
      if i == |s| then []
      else
        var rest := CitationSpans(s, i + 1);
        ScanSkip(s, i, rest);
        rest
  }

  /** A position where no match starts can be added at the front of a search. */
  lemma ScanSkip(s: string, i: nat, r: seq<(nat, nat)>)
    requires i < |s| && CitationAt(s, i).None? && ScanFrom(s, i + 1, r)
    ensures ScanFrom(s, i, r)
  {
    var b := if |r| == 0 then |s| + 1 else r[0].0;
    assert NoCitationIn(s, i + 1, b);
    assert NoCitationIn(s, i, b) by {
      forall p | i <= p < b ensures CitationAt(s, p).None? {
        if p > i {
          assert i + 1 <= p;
        }
      }
    }
  }

  /** The matches lie inside the text, in document order, without overlapping. */
  lemma ScanInOrder(s: string, i: nat, r: seq<(nat, nat)>)
    requires i <= |s| && ScanFrom(s, i, r)
    ensures forall k :: 0 <= k < |r| ==> i <= r[k].0 < r[k].1 <= |s|
    ensures forall k :: 0 <= k < |r| - 1 ==> r[k].1 <= r[k + 1].0
    ensures forall k :: 0 <= k < |r| ==> CitationAt(s, r[k].0) == Some(r[k].1)
  {
    ScanBounds(s, i, r);
    ScanOrdered(s, i, r);
    ScanMatches(s, i, r);
  }

  lemma {:induction false} ScanBounds(s: string, i: nat, r: seq<(nat, nat)>)
    requires i <= |s| && ScanFrom(s, i, r)
    ensures forall k :: 0 <= k < |r| ==> i <= r[k].0 < r[k].1 <= |s|
    decreases |r|
  {
    if |r| > 0 {
      ScanBounds(s, r[0].1, r[1..]);
      assert forall k :: 1 <= k < |r| ==> r[k] == r[1..][k - 1];
    }
  }

  lemma {:induction false} ScanOrdered(s: string, i: nat, r: seq<(nat, nat)>)
    requires i <= |s| && ScanFrom(s, i, r)
    ensures forall k :: 0 <= k < |r| - 1 ==> r[k].1 <= r[k + 1].0
    decreases |r|
  {
    if |r| > 0 {
      ScanOrdered(s, r[0].1, r[1..]);
      assert forall k :: 1 <= k < |r| ==> r[k] == r[1..][k - 1];
    }
  }

  lemma ScanMatches(s: string, i: nat, r: seq<(nat, nat)>)
    requires i <= |s| && ScanFrom(s, i, r)
    ensures forall k :: 0 <= k < |r| ==> r[k].0 <= |s| && CitationAt(s, r[k].0) == Some(r[k].1)
  {
    forall k | 0 <= k < |r| ensures r[k].0 <= |s| && CitationAt(s, r[k].0) == Some(r[k].1) {
      ScanMatchAt(s, i, r, k);
    }
  }

  /** The `k`-th span found is a match. */
  lemma {:induction false} ScanMatchAt(s: string, i: nat, r: seq<(nat, nat)>, k: nat)
    requires i <= |s| && ScanFrom(s, i, r) && k < |r|
    ensures r[k].0 <= |s| && CitationAt(s, r[k].0) == Some(r[k].1)
    decreases k
  {
    if k > 0 {
      ScanMatchAt(s, r[0].1, r[1..], k - 1);
      assert r[k] == r[1..][k - 1];
    }
  }

  function Texts(s: string, spans: seq<(nat, nat)>): (r: seq<string>)
    requires forall k :: 0 <= k < |spans| ==> spans[k].0 <= spans[k].1 <= |s|
    ensures |r| == |spans|
    ensures forall k :: 0 <= k < |r| ==> r[k] == s[spans[k].0..spans[k].1]
  {
    seq(|spans|, k requires 0 <= k < |spans| => s[spans[k].0..spans[k].1])
  }

  /** `wikitext.match(citation_regex) || []`. */
  function FindCitations(s: string): (r: seq<string>)
    ensures forall k :: 0 <= k < |r| ==> StartsWith(r[k], "{{") && EndsWith(r[k], "}}")
  {
    var spans := CitationSpans(s, 0);
    ScanInOrder(s, 0, spans);
    var r := Texts(s, spans);
    forall k | 0 <= k < |r| ensures StartsWith(r[k], "{{") && EndsWith(r[k], "}}") {
      MatchText(s, spans[k].0, spans[k].1);
    }
    r
  }

  lemma MatchText(s: string, a: nat, b: nat)
    requires a <= |s| && CitationAt(s, a) == Some(b)
    ensures StartsWith(s[a..b], "{{") && EndsWith(s[a..b], "}}")
  {
    assert s[a..b][..2] == s[a..a + 2];
    assert s[a..b][|s[a..b]| - 2..] == s[b - 2..b];
  }

  // ---------------------------------------------------------------------------
  // /\|\s*(author|last|first)(\d*)\s*=\s*([^|}]+)/gi

  /** One match of the parameter regex: the name as written (any letter case), the
      digit suffix and the raw value. */
  datatype Param = Param(kind: string, num: string, value: string)

  predicate NotBarBrace(c: char) { c != '|' && c != '}' }

  /** The length of the name alternative read at `q`, or 0. */
  function KindLength(s: string, q: nat): (n: nat)
    ensures n == 0 || n == 4 || n == 5 || n == 6
    ensures n > 0 ==> q + n <= |s|
  {
    if LitAtCI(s, q, "author") then 6
    else if LitAtCI(s, q, "last") then 4
    else if LitAtCI(s, q, "first") then 5
    else 0
  }

  /** A parameter match starting exactly at `p`, with the index just past it. */
  function ParamAt(s: string, p: nat): (r: Option<(Param, nat)>)
    requires p <= |s|
    ensures r.Some? ==> p < r.value.1 <= |s| && s[p] == '|' && |r.value.0.value| > 0
    ensures r.Some? ==> forall k :: 0 <= k < |r.value.0.num| ==> IsDigit(r.value.0.num[k])
    ensures r.Some? ==> forall k :: 0 <= k < |r.value.0.value| ==> NotBarBrace(r.value.0.value[k])
  {
    if p == |s| || s[p] != '|' then None
    else
      var q := SkipSpaces(s, p + 1);
      var n := KindLength(s, q);
      if n == 0 then None
      else
        var d := SkipWhile(s, q + n, IsDigit);
        SkipWhileAll(s, q + n, IsDigit);
        var e := SkipSpaces(s, d);
        if e == |s| || s[e] != '=' then None
        else
          match ValueAt(s, e)
          case None => None
          case Some((f, g)) => Some((Param(s[q..q + n], s[q + n..d], s[f..g]), g))
  }

  /** The value after the `=` at `e`: `\s*` takes every space; if `[^|}]+` then has
      nothing to take, `\s*` gives back its last space, which becomes the whole value. */
  function ValueAt(s: string, e: nat): (r: Option<(nat, nat)>)
    requires e < |s|
    ensures r.Some? ==> e < r.value.0 < r.value.1 <= |s|
    ensures r.Some? ==> forall k :: r.value.0 <= k < r.value.1 ==> NotBarBrace(s[k])
  {
    var f := SkipSpaces(s, e + 1);
    if f < |s| && NotBarBrace(s[f]) then
      SkipWhileAll(s, f, NotBarBrace);
      Some((f, SkipWhile(s, f, NotBarBrace)))
    else if f > e + 1 then
      SkipSpacesAll(s, e + 1);
      Some((f - 1, f))
    else None
  }


  /** `[...citation.matchAll(param_regex)]`, from index `i` on. */
  function ParamScan(s: string, i: nat): (r: seq<Param>)
    requires i <= |s|
    ensures forall k :: 0 <= k < |r| ==> |r[k].value| > 0
    ensures forall k :: 0 <= k < |r| ==> forall m :: 0 <= m < |r[k].num| ==> IsDigit(r[k].num[m])
    decreases |s| - i
  {
    if i == |s| then []
    else
      match ParamAt(s, i)
      case Some((prm, e)) => [prm] + ParamScan(s, e)
      case None => ParamScan(s, i + 1)
  }

  // ---------------------------------------------------------------------------
  // Grouping by author index

  /** The lower-case properties `author`, `first` and `last` of one index's record. */
  datatype Parts = Parts(author: Option<string>, first: Option<string>, last: Option<string>)

  const NoParts := Parts(None, None, None)

  /** `acc[index][type] = v`. A name spelt in another letter case creates a property
      that the name is never read from, so the record is unchanged. */
  function SetPart(parts: Parts, kind: string, v: string): (r: Parts)
    ensures kind == "author" ==> r == parts.(author := Some(v))
    ensures kind == "first" ==> r == parts.(first := Some(v))
    ensures kind == "last" ==> r == parts.(last := Some(v))
    ensures kind !in {"author", "first", "last"} ==> r == parts
  {
    if kind == "author" then parts.(author := Some(v))
    else if kind == "first" then parts.(first := Some(v))
    else if kind == "last" then parts.(last := Some(v))
    else parts
  }

  /** `num_str || "1"`. */
  function IndexKey(num: string): (k: string)
    ensures k != ""
  {
    if num == "" then "1" else num
  }

  /** The `reduce` over the matches: values that start with `{{` after trimming are
      skipped; otherwise the index's record is created if needed and the part set. */
  function Group(params: seq<Param>): (g: JsObjects.Obj<Parts>)
    ensures g.Valid()
    ensures forall k :: k in g.values ==> k != ""
  {
    if |params| == 0 then JsObjects.Empty()
    else
      var acc := Group(params[..|params| - 1]);
      var prm := params[|params| - 1];
      var v := Trim(prm.value);
      if StartsWith(v, "{{") then acc
      else
        var key := IndexKey(prm.num);
        var parts := if key in acc.values then acc.values[key] else NoParts;
        JsObjects.Put(acc, key, SetPart(parts, prm.kind, v))
  }

  /** A parameter the grouping uses: its trimmed value does not start with `{{`. */
  predicate Kept(prm: Param) { !StartsWith(Trim(prm.value), "{{") }

  /** The part of a record a lower-case parameter name reads. */
  function Part(parts: Parts, kind: string): Option<string> {
    if kind == "author" then parts.author
    else if kind == "first" then parts.first
    else if kind == "last" then parts.last
    else None
  }

  predicate IsKind(kind: string) { kind == "author" || kind == "first" || kind == "last" }

  /** `prm` sets part `kind` of index `key`. */
  predicate Sets(prm: Param, key: string, kind: string) {
    Kept(prm) && IndexKey(prm.num) == key && prm.kind == kind
  }

  lemma PartOfSetPart(parts: Parts, k: string, v: string, kind: string)
    requires IsKind(kind)
    ensures Part(SetPart(parts, k, v), kind) == if k == kind then Some(v) else Part(parts, kind)
  {
  }

  /** The indices with a record after one more parameter. */
  lemma GroupStepKeys(params: seq<Param>)
    requires |params| > 0
    ensures var prm := params[|params| - 1];
            var acc := Group(params[..|params| - 1]);
            Group(params).values.Keys
              == if Kept(prm) then acc.values.Keys + {IndexKey(prm.num)} else acc.values.Keys
  {
  }

  /** Every kept parameter gives its index a record (`author` and `author1` both
      count for index 1) ... */
  lemma {:induction false} GroupHasKey(params: seq<Param>, i: nat)
    requires i < |params| && Kept(params[i])
    ensures IndexKey(params[i].num) in Group(params).values
  {
    var n := |params| - 1;
    if i < n {
      var init := params[..n];
      assert init[i] == params[i];
      GroupHasKey(init, i);
      GroupKeepsKey(params, IndexKey(params[i].num));
    } else {
      GroupAddsKey(params);
    }
  }

  lemma GroupKeepsKey(params: seq<Param>, key: string)
    requires |params| > 0 && key in Group(params[..|params| - 1]).values
    ensures key in Group(params).values
  {
    GroupStepKeys(params);
  }

  lemma GroupAddsKey(params: seq<Param>)
    requires |params| > 0 && Kept(params[|params| - 1])
    ensures IndexKey(params[|params| - 1].num) in Group(params).values
  {
    GroupStepKeys(params);
  }

  /** ... and every record comes from one. */
  lemma {:induction false} GroupKeySource(params: seq<Param>, key: string)
    requires key in Group(params).values
    ensures exists i :: 0 <= i < |params| && Kept(params[i]) && IndexKey(params[i].num) == key
  {
    var n := |params| - 1;
    var init := params[..n];
    GroupStepKeys(params);
    if key in Group(init).values {
      GroupKeySource(init, key);
      var i :| 0 <= i < |init| && Kept(init[i]) && IndexKey(init[i].num) == key;
      assert params[i] == init[i];
    } else {
      assert Kept(params[n]) && IndexKey(params[n].num) == key;
    }
  }

  /** A last parameter that sets part `kind` of index `key` decides it ... */
  lemma GroupStepSets(params: seq<Param>, key: string, kind: string)
    requires |params| > 0 && IsKind(kind) && Sets(params[|params| - 1], key, kind)
    ensures var g := Group(params).values;
            key in g && Part(g[key], kind) == Some(Trim(params[|params| - 1].value))
  {
    var prm := params[|params| - 1];
    var acc := Group(params[..|params| - 1]);
    var parts := if key in acc.values then acc.values[key] else NoParts;
    PartOfSetPart(parts, prm.kind, Trim(prm.value), kind);
  }

  /** ... and any other leaves it as it was, keeping every record. */
  lemma GroupStepOther(params: seq<Param>, key: string, kind: string)
    requires |params| > 0 && IsKind(kind) && !Sets(params[|params| - 1], key, kind)
    ensures var acc := Group(params[..|params| - 1]).values;
            var g := Group(params).values;
            && (key in acc ==> key in g)
            && (key in g ==> Part(g[key], kind) == if key in acc then Part(acc[key], kind) else None)
  {
    var prm := params[|params| - 1];
    var acc := Group(params[..|params| - 1]);
    if Kept(prm) {
      var k := IndexKey(prm.num);
      var parts := if k in acc.values then acc.values[k] else NoParts;
      PartOfSetPart(parts, prm.kind, Trim(prm.value), kind);
    }
  }

  /** The last kept parameter of a kind at an index decides that part. */
  lemma {:induction false} GroupLastWins(params: seq<Param>, i: nat, key: string, kind: string)
    requires IsKind(kind) && i < |params| && Sets(params[i], key, kind)
    requires forall j :: i < j < |params| ==> !Sets(params[j], key, kind)
    ensures key in Group(params).values
    ensures Part(Group(params).values[key], kind) == Some(Trim(params[i].value))
    decreases |params|, 1
  {
    if i < |params| - 1 {
      GroupLastEarlier(params, i, key, kind);
    } else {
      GroupStepSets(params, key, kind);
    }
  }

  lemma {:induction false} GroupLastEarlier(params: seq<Param>, i: nat, key: string, kind: string)
    requires IsKind(kind) && i < |params| - 1 && Sets(params[i], key, kind)
    requires forall j :: i < j < |params| ==> !Sets(params[j], key, kind)
    ensures key in Group(params).values
    ensures Part(Group(params).values[key], kind) == Some(Trim(params[i].value))
    decreases |params|, 0
  {
    var init := params[..|params| - 1];
    assert forall j :: i <= j < |init| ==> init[j] == params[j];
    GroupLastWins(init, i, key, kind);
    GroupStepOther(params, key, kind);
  }

  /** A part no kept parameter sets stays unset. */
  lemma {:induction false} GroupUnset(params: seq<Param>, key: string, kind: string)
    requires IsKind(kind)
    requires forall j :: 0 <= j < |params| ==> !Sets(params[j], key, kind)
    ensures key in Group(params).values ==> Part(Group(params).values[key], kind) == None
  {
    if |params| > 0 {
      var init := params[..|params| - 1];
      assert forall j :: 0 <= j < |init| ==> init[j] == params[j];
      GroupUnset(init, key, kind);
      GroupStepOther(params, key, kind);
    }
  }

  // ---------------------------------------------------------------------------
  // Existing author-link parameters

  /** The spellings `author-?link<i>` and `author<i>-?link`, lower case. */
  function LinkNames(i: string): seq<string> {
    ["author-link" + i, "authorlink" + i, "author" + i + "-link", "author" + i + "link"]
  }

  /** The names the existing-link check looks for at index `key`: for index 1 also the
      spellings without a number (`author-?link1?|author1-?link`). */
  function AliasNames(key: string): seq<string> {
    if key == "1" then LinkNames("") + LinkNames("1") else LinkNames(key)
  }

  /** `\|\s*<name>\s*=` read at `p` with one of `names` (case-insensitively). */
  predicate AliasAt(s: string, p: nat, names: seq<string>) {
    p < |s| && s[p] == '|'
    && exists n :: n in names && NameThenEquals(s, SkipSpaces(s, p + 1), n)
  }

  /** `<name>\s*=` read at `q` with the name `n` (case-insensitively). */
  predicate NameThenEquals(s: string, q: nat, n: string) {
    LitAtCI(s, q, n) && var e := SkipSpaces(s, q + |n|); e < |s| && s[e] == '='
  }

  /** Whether `\|\s*(names)\s*=\s*` matches anywhere in `s` at or after `from`. */
  function HasAliasFrom(s: string, names: seq<string>, from: nat): (b: bool)
    requires from <= |s|
    ensures b <==> exists p :: from <= p < |s| && AliasAt(s, p, names)
    decreases |s| - from
  {
    if from == |s| then false
    else if AliasAt(s, from, names) then true
    else HasAliasFrom(s, names, from + 1)
  }

  /** The existing-link test for author index `key`. */
  predicate Aliased(citation: string, key: string) {
    HasAliasFrom(citation, AliasNames(key), 0)
  }

  // ---------------------------------------------------------------------------
  // Candidates

  /** An author still to be linked: the searched name and the suffix of its
      `author-link` parameter ("" for index 1). */
  datatype Candidate = Candidate(name: string, num: string)

  function OrEmpty(o: Option<string>): string { if o.Some? then o.value else "" }

  /** `(parts.author || \`${parts.first || ""} ${parts.last || ""}\`).trim()`. */
  function NameOf(parts: Parts): string {
    if parts.author.Some? && parts.author.value != "" then Trim(parts.author.value)
    else Trim(OrEmpty(parts.first) + " " + OrEmpty(parts.last))
  }

  function NumOf(key: string): string { if key == "1" then "" else key }

  /** The candidate for one index, if its name is long enough and no link exists. */
  function CandidateFor(citation: string, key: string, parts: Parts, minLen: nat): (r: Option<Candidate>)
    ensures r.Some? <==> !Aliased(citation, key) && |NameOf(parts)| > minLen
    ensures r.Some? ==> r.value == Candidate(NameOf(parts), NumOf(key))
  {
    if Aliased(citation, key) then None
    else
      var name := NameOf(parts);
      if |name| > minLen then Some(Candidate(name, NumOf(key))) else None
  }

  /** The key a candidate's suffix came from: "" stands for index 1. */
  function KeyOfNum(num: string): string { if num == "" then "1" else num }

  function CandidatesOver(citation: string, keys: seq<string>, g: JsObjects.Obj<Parts>, minLen: nat)
    : (r: seq<Candidate>)
    requires forall i :: 0 <= i < |keys| ==> keys[i] in g.values && keys[i] != ""
    ensures forall c :: c in r ==> KeyOfNum(c.num) in keys
    ensures forall c :: c in r ==> var key := KeyOfNum(c.num);
              CandidateFor(citation, key, g.values[key], minLen) == Some(c)
  {
    if |keys| == 0 then []
    else
      var h := match CandidateFor(citation, keys[0], g.values[keys[0]], minLen)
               case None => [] case Some(c) => [c];
      var rest := CandidatesOver(citation, keys[1..], g, minLen);
      assert forall c :: c in rest ==> KeyOfNum(c.num) in keys by {
        forall c | c in rest ensures KeyOfNum(c.num) in keys {
          var m :| 0 <= m < |keys[1..]| && keys[1..][m] == KeyOfNum(c.num);
          assert keys[m + 1] == KeyOfNum(c.num);
        }
      }
      h + rest
  }

  /** `extract_authors` / `parse_authors`: the candidates of one citation, in the
      enumeration order of the grouped indices. `minLen` is 2 in author-link.js and
      1 in src/author-link-vue.js. */
  function Candidates(citation: string, minLen: nat): seq<Candidate>
  {
    var g := Group(ParamScan(citation, 0));
    CandidatesOver(citation, JsObjects.OwnKeys(g), g, minLen)
  }

  /** Every index that has a long enough name and no existing link gives a candidate. */
  lemma {:induction false} CandidatesOverComplete(citation: string, keys: seq<string>,
                                                  g: JsObjects.Obj<Parts>, minLen: nat, key: string)
    requires forall i :: 0 <= i < |keys| ==> keys[i] in g.values && keys[i] != ""
    requires key in keys && CandidateFor(citation, key, g.values[key], minLen).Some?
    ensures CandidateFor(citation, key, g.values[key], minLen).value in CandidatesOver(citation, keys, g, minLen)
  {
    if keys[0] != key {
      assert key in keys[1..] by {
        var m :| 0 <= m < |keys| && keys[m] == key;
        assert keys[1..][m - 1] == key;
      }
      CandidatesOverComplete(citation, keys[1..], g, minLen, key);
    }
  }

  /** The keys the candidates `cs` were made for, in order. */
  function CandidateKeys(cs: seq<Candidate>): (r: seq<string>)
    ensures |r| == |cs|
    ensures forall i :: 0 <= i < |cs| ==> r[i] == KeyOfNum(cs[i].num)
  {
    if |cs| == 0 then [] else [KeyOfNum(cs[0].num)] + CandidateKeys(cs[1..])
  }

  /** Candidates keep the order of the keys they come from. */
  lemma {:induction false} CandidatesOverOrdered(citation: string, keys: seq<string>,
                                                 g: JsObjects.Obj<Parts>, minLen: nat)
    requires forall i :: 0 <= i < |keys| ==> keys[i] in g.values && keys[i] != ""
    requires JsObjects.IndexOrdered(keys)
    ensures JsObjects.IndexOrdered(CandidateKeys(CandidatesOver(citation, keys, g, minLen)))
  {
    if |keys| > 0 {
      JsObjects.IndexOrderedTail(keys);
      CandidatesOverOrdered(citation, keys[1..], g, minLen);
      var rest := CandidatesOver(citation, keys[1..], g, minLen);
      match CandidateFor(citation, keys[0], g.values[keys[0]], minLen)
      case None =>
        assert CandidatesOver(citation, keys, g, minLen) == rest;
      case Some(c) =>
        assert CandidatesOver(citation, keys, g, minLen) == [c] + rest;
        HeadCandidateOrdered(citation, keys, g, minLen, c);
    }
  }

  lemma HeadCandidateOrdered(citation: string, keys: seq<string>, g: JsObjects.Obj<Parts>,
                             minLen: nat, c: Candidate)
    requires |keys| > 0
    requires forall i :: 0 <= i < |keys| ==> keys[i] in g.values && keys[i] != ""
    requires JsObjects.IndexOrdered(keys)
    requires KeyOfNum(c.num) == keys[0]
    requires JsObjects.IndexOrdered(CandidateKeys(CandidatesOver(citation, keys[1..], g, minLen)))
    ensures JsObjects.IndexOrdered(CandidateKeys([c] + CandidatesOver(citation, keys[1..], g, minLen)))
  {
    var rest := CandidatesOver(citation, keys[1..], g, minLen);
    var rs := CandidateKeys(rest);
    assert ([c] + rest)[1..] == rest;
    assert CandidateKeys([c] + rest) == [keys[0]] + rs;
    CandidateKeysFrom(citation, keys[1..], g, minLen);
    FirstBeforeOthers(keys, rs);
    ConsOrdered(keys[0], rs);
  }

  lemma CandidateKeysFrom(citation: string, keys: seq<string>, g: JsObjects.Obj<Parts>, minLen: nat)
    requires forall i :: 0 <= i < |keys| ==> keys[i] in g.values && keys[i] != ""
    ensures var rs := CandidateKeys(CandidatesOver(citation, keys, g, minLen));
            forall j :: 0 <= j < |rs| ==> rs[j] in keys
  {
    var rest := CandidatesOver(citation, keys, g, minLen);
    forall j | 0 <= j < |rest| ensures KeyOfNum(rest[j].num) in keys {
      assert rest[j] in rest;
    }
  }

  lemma FirstBeforeOthers(keys: seq<string>, rs: seq<string>)
    requires |keys| > 0 && JsObjects.IndexOrdered(keys)
    requires forall j :: 0 <= j < |rs| ==> rs[j] in keys[1..]
    ensures forall j :: 0 <= j < |rs| && JsObjects.IsArrayIndex(rs[j]) ==>
              JsObjects.IsArrayIndex(keys[0]) && DigitsValue(keys[0]) <= DigitsValue(rs[j])
  {
    forall j | 0 <= j < |rs| && JsObjects.IsArrayIndex(rs[j])
      ensures JsObjects.IsArrayIndex(keys[0]) && DigitsValue(keys[0]) <= DigitsValue(rs[j])
    {
      var m :| 0 <= m < |keys[1..]| && keys[1..][m] == rs[j];
      assert keys[m + 1] == rs[j];
    }
  }

  lemma ConsOrdered(k: string, rs: seq<string>)
    requires JsObjects.IndexOrdered(rs)
    requires forall j :: 0 <= j < |rs| && JsObjects.IsArrayIndex(rs[j]) ==>
               JsObjects.IsArrayIndex(k) && DigitsValue(k) <= DigitsValue(rs[j])
    ensures JsObjects.IndexOrdered([k] + rs)
  {
    var ks := [k] + rs;
    forall i, j | 0 <= i < j < |ks| && JsObjects.IsArrayIndex(ks[j])
      ensures JsObjects.IsArrayIndex(ks[i]) && DigitsValue(ks[i]) <= DigitsValue(ks[j])
    {
      assert ks[j] == rs[j - 1];
      if i > 0 {
        assert ks[i] == rs[i - 1];
      }
    }
  }

  /** The candidates of a citation: each one names an index that has an entry, no
      existing link and a name longer than `minLen`, and carries that name and the
      index's suffix ("" for index 1). */
  lemma CandidatesSound(citation: string, minLen: nat, c: Candidate)
    requires c in Candidates(citation, minLen)
    ensures var g := Group(ParamScan(citation, 0));
            var key := KeyOfNum(c.num);
            && key in g.values
            && !Aliased(citation, key)
            && |c.name| > minLen
            && c == Candidate(NameOf(g.values[key]), NumOf(key))
  {
    var g := Group(ParamScan(citation, 0));
    var keys := JsObjects.OwnKeys(g);
    assert KeyOfNum(c.num) in keys;
  }

  /** ... and every such index does give one. */
  lemma CandidatesComplete(citation: string, minLen: nat, key: string)
    requires key in Group(ParamScan(citation, 0)).values
    requires !Aliased(citation, key)
    requires |NameOf(Group(ParamScan(citation, 0)).values[key])| > minLen
    ensures Candidate(NameOf(Group(ParamScan(citation, 0)).values[key]), NumOf(key))
            in Candidates(citation, minLen)
  {
    var g := Group(ParamScan(citation, 0));
    JsObjects.InOwnKeys(g, key);
    CandidatesOverComplete(citation, JsObjects.OwnKeys(g), g, minLen, key);
  }

  /** The candidates come out with their array-index keys ascending, ahead of any
      other key (`Object.entries` order). */
  lemma CandidatesInIndexOrder(citation: string, minLen: nat)
    ensures JsObjects.IndexOrdered(CandidateKeys(Candidates(citation, minLen)))
  {
    var g := Group(ParamScan(citation, 0));
    JsObjects.OwnKeysIndexOrdered(g);
    CandidatesOverOrdered(citation, JsObjects.OwnKeys(g), g, minLen);
  }

  /** The two scripts differ only in the name-length bound: every candidate of
      author-link.js is one of src/author-link-vue.js, and a vue candidate is missing
      from author-link.js exactly when its name has two characters. */
  lemma ShorterNamesKept(citation: string, c: Candidate)
    ensures c in Candidates(citation, 2) ==> c in Candidates(citation, 1)
    ensures c in Candidates(citation, 1) ==> (c in Candidates(citation, 2) <==> |c.name| != 2)
  {
    var g := Group(ParamScan(citation, 0));
    if c in Candidates(citation, 2) {
      CandidatesSound(citation, 2, c);
      CandidatesComplete(citation, 1, KeyOfNum(c.num));
    }
    if c in Candidates(citation, 1) {
      CandidatesSound(citation, 1, c);
      if |c.name| != 2 {
        CandidatesComplete(citation, 2, KeyOfNum(c.num));
      }
    }
  }
}
