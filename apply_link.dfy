/** The two `apply_link` rewrites: author-link.js inserts ` |author-link<N>=<title>`
    before the closing `}}` of a citation, and src/author-link-vue.js first replaces
    an existing `author-link<N>` parameter if there is one; both then put the
    rewritten citation in place of the first occurrence of the old one in the
    textbox, unless the textbox no longer contains it. Each script passes the title
    and the rewritten citation to `replace` as replacement strings, where `$`
    sequences are interpreted; the `...AsWritten` functions model that, the others
    insert the text literally (see README, Findings). */
module ApplyLink {
  import opened JsStrings
  import Citations

  /** `author-link<num>`. */
  function ParamName(num: string): (r: string)
    ensures r in Citations.LinkNames(num)
  {
    "author-link" + num
  }

  /** A citation text `/(\s*}})$/` matches from `p`. */
  predicate TailAt(c: string, p: nat) {
    EndsWith(c, "}}") && p <= |c| - 2 && AllSpace(c[p..|c| - 2])
  }

  /** Where `/(\s*}})$/` matches: the whitespace run in front of the closing `}}`. */
  function TailStart(c: string): (w: nat)
    requires EndsWith(c, "}}")
    ensures TailAt(c, w)
    ensures forall p: nat :: p < w ==> !TailAt(c, p)
  {
    var w := SpacesBefore(c, |c| - 2);
    SpacesBeforeAll(c, |c| - 2);
    forall p: nat | p < w ensures !TailAt(c, p) {
      assert c[p..|c| - 2][w - 1 - p] == c[w - 1];
    }
    w
  }

  function AppendTemplate(num: string, title: string): string {
    " |" + ParamName(num) + "=" + title
  }

  /** author-link.js, as written: `citation.replace(/(\s*}})$/, " |author-link<num>=<title>$1")`. */
  function AppendAsWritten(c: string, num: string, title: string): (r: string)
    ensures !EndsWith(c, "}}") ==> r == c
    ensures EndsWith(c, "}}") ==> StartsWith(r, c[..TailStart(c)])
  {
    if !EndsWith(c, "}}") then c
    else
      var w := TailStart(c);
      c[..w] + Substitute(AppendTemplate(num, title) + "$1", c[w..], c[..w], [], [c[w..]])
  }

  /** The insertion the script means: the parameter, literally, before the closing
      whitespace and `}}`. */
  function Append(c: string, num: string, title: string): (r: string)
    ensures !EndsWith(c, "}}") ==> r == c
  {
    if !EndsWith(c, "}}") then c
    else
      var w := TailStart(c);
      c[..w] + AppendTemplate(num, title) + c[w..]
  }

  /** The textbox update of both scripts: the first occurrence of the stored
      citation `c` is replaced by `u`; `None` when the textbox no longer contains
      `c` (nothing changes then). */
  function Apply(text: string, c: string, u: string): (r: Option<string>)
    ensures r.None? <==> !Contains(text, c)
    ensures r.Some? ==> var k := IndexOf(text, c).value;
              r.value == text[..k] + u + text[k + |c|..]
  {
    if Contains(text, c) then Some(ReplaceFirst(text, c, u)) else None
  }

  /** The same update as written: `current_text.replace(citation, updated)`, where
      `$` sequences in `updated` are interpreted again. */
  function ApplyAsWritten(text: string, c: string, u: string): (r: Option<string>)
    ensures r.None? <==> !Contains(text, c)
  {
    if Contains(text, c) then Some(ReplaceFirstJs(text, c, u)) else None
  }

  predicate AllDigits(s: string) { forall k :: 0 <= k < |s| ==> IsDigit(s[k]) }

  /** The insertion keeps the citation around it: what came before the closing
      whitespace, then the new parameter, then the whitespace and `}}`. */
  lemma AppendShape(c: string, num: string, title: string)
    requires EndsWith(c, "}}")
    ensures var r := Append(c, num, title);
            var w := TailStart(c);
            && r[..w] == c[..w]
            && r[w..w + |AppendTemplate(num, title)|] == AppendTemplate(num, title)
            && r[w + |AppendTemplate(num, title)|..] == c[w..]
            && EndsWith(r, "}}")
  {
    var r := Append(c, num, title);
    assert r[|r| - 2..] == c[|c| - 2..];
  }

  lemma ParamNameHasNoDollar(num: string)
    requires AllDigits(num)
    ensures '$' !in ParamName(num)
  {
    var n := ParamName(num);
    forall k | 0 <= k < |n| ensures n[k] != '$' {
      if k >= 11 {
        assert n[k] == num[k - 11];
      }
    }
  }

  lemma TemplateHasNoDollar(num: string, title: string)
    requires AllDigits(num) && '$' !in title
    ensures '$' !in AppendTemplate(num, title)
  {
    ParamNameHasNoDollar(num);
  }

  /** Without `$` in the title the as-written rewrite is the literal insertion. */
  lemma AppendAgrees(c: string, num: string, title: string)
    requires AllDigits(num) && '$' !in title
    ensures AppendAsWritten(c, num, title) == Append(c, num, title)
  {
    if EndsWith(c, "}}") {
      var lit := AppendTemplate(num, title);
      TemplateHasNoDollar(num, title);
      var w := TailStart(c);
      SubstituteHeadThenCapture(lit, c[w..], c[..w], [], c[w..]);
    }
  }

  /** Without `$` in the rewritten citation the as-written text update is the
      literal one. */
  lemma ApplyAgrees(text: string, c: string, u: string)
    requires '$' !in u
    ensures ApplyAsWritten(text, c, u) == Apply(text, c, u)
  {
    if Contains(text, c) {
      var k := IndexOf(text, c).value;
      SubstituteLiteral(u, c, text[..k], text[k + |c|..], []);
    }
  }

  /** The insertion adds no `$` of its own. */
  lemma AppendHasNoDollar(c: string, num: string, title: string)
    requires AllDigits(num) && '$' !in title && '$' !in c
    ensures '$' !in Append(c, num, title)
  {
    if EndsWith(c, "}}") {
      TemplateHasNoDollar(num, title);
      CharNotInSplice(c, TailStart(c), AppendTemplate(num, title), '$');
    }
  }

  lemma CharNotInSplice(c: string, w: nat, lit: string, ch: char)
    requires w <= |c| && ch !in c && ch !in lit
    ensures ch !in c[..w] + lit + c[w..]
  {
    assert c == c[..w] + c[w..];
  }

  /** A title with `$$` loses a `$` in author-link.js: it is written as if the
      title were `$`. */
  lemma DollarsHalved(c: string, num: string)
    requires EndsWith(c, "}}") && AllDigits(num)
    ensures AppendAsWritten(c, num, "$$") == Append(c, num, "$")
  {
    var w := TailStart(c);
    var g := c[w..];
    var lit := " |" + ParamName(num) + "=";
    ParamNameHasNoDollar(num);
    assert '$' !in lit;
    assert AppendTemplate(num, "$$") + "$1" == lit + ("$$" + "$1");
    SubstituteLiteralHead(lit, "$$" + "$1", g, c[..w], [], [g]);
    SubstituteDollarDollar("$1", g, c[..w], [], [g]);
    SubstituteFirstCapture(g, c[..w], [], g);
    assert AppendTemplate(num, "$") == lit + "$";
  }

  /** So `{{citation|a}}` linked to the title `$$` becomes
      `{{citation|a |author-link=$}}`, not `{{citation|a |author-link=$$}}`. */
  lemma DollarTitleAsWritten()
    ensures AppendAsWritten("{{citation|a}}", "", "$$") != Append("{{citation|a}}", "", "$$")
  {
    var c := "{{citation|a}}";
    assert EndsWith(c, "}}");
    DollarsHalved(c, "");
    assert |Append(c, "", "$")| == |c| + 15;
    assert |Append(c, "", "$$")| == |c| + 16;
  }


  /** The textbox update reinterprets `$` in the rewritten citation as well: a
      `$&` in it (say in the title, `{{a|$&}}` for `{{a}}`) is replaced by the old
      citation. */
  lemma ApplyDollarAsWritten(c: string, x: string, y: string)
    requires '$' !in x && '$' !in y
    ensures ApplyAsWritten(c, c, x + "$&" + y) == Some(x + c + y)
    ensures Apply(c, c, x + "$&" + y) == Some(x + "$&" + y)
  {
    var u := x + "$&" + y;
    assert c[0..|c|] == c;
    assert IndexOf(c, c) == Some(0);
    assert c[..0] == [] && c[|c|..] == [];
    assert u == x + ("$&" + y);
    SubstituteLiteralHead(x, "$&" + y, c, [], [], []);
    assert ("$&" + y)[2..] == y;
    SubstituteLiteral(y, c, [], [], []);
    assert Substitute("$&" + y, c, [], [], []) == c + y;
    assert ReplaceFirstJs(c, c, u) == [] + (x + (c + y)) + [];
    assert [] + (x + (c + y)) + [] == x + c + y;
    assert ReplaceFirst(c, c, u) == [] + u + [];
    assert [] + u + [] == u;
  }

  // ---------------------------------------------------------------------------
  // After the insertion the index counts as linked

  lemma ParamNameLower(num: string)
    requires AllDigits(num)
    ensures Lower(ParamName(num)) == ParamName(num)
  {
    var n := ParamName(num);
    forall k | 0 <= k < |n| ensures !('A' <= n[k] <= 'Z') {
      if k >= 11 {
        assert n[k] == num[k - 11];
      }
    }
    LowerNoUpper(n);
  }

  lemma ParamNameIsAlias(key: string)
    requires key != ""
    ensures ParamName(Citations.NumOf(key)) in Citations.AliasNames(key)
  {
    if key == "1" {
      assert ParamName("") == Citations.LinkNames("")[0];
    } else {
      assert ParamName(key) == Citations.LinkNames(key)[0];
    }
  }

  /** `|<name>=` written after `a + " "` is an alias parameter. */
  lemma AliasInTemplate(a: string, n: string, t: string, z: string, names: seq<string>)
    requires n in names && Lower(n) == n && |n| > 0 && !IsSpace(n[0])
    ensures Citations.HasAliasFrom(a + (" |" + n + "=" + t) + z, names, 0)
  {
    var tpl := " |" + n + "=" + t;
    var s := a + tpl + z;
    var q := |a| + 2;
    assert s[|a| + 1] == tpl[1] == '|';
    forall k | 0 <= k < |n| ensures s[q + k] == n[k] {
      assert s[q + k] == tpl[2 + k];
    }
    assert s[q..q + |n|] == n;
    assert s[q + |n|] == tpl[2 + |n|] == '=';
    assert SkipSpaces(s, q) == q;
    assert SkipSpaces(s, q + |n|) == q + |n|;
    assert Citations.NameThenEquals(s, q, n);
    assert Citations.AliasAt(s, |a| + 1, names);
  }

  /** Once `author-link<N>` is inserted, the existing-link check finds it, so a
      rescan of the citation no longer offers index N. */
  lemma LinkedAfterAppend(c: string, key: string, title: string)
    requires EndsWith(c, "}}") && key != "" && AllDigits(key)
    ensures Citations.Aliased(Append(c, Citations.NumOf(key), title), key)
  {
    var num := Citations.NumOf(key);
    ParamNameLower(num);
    ParamNameIsAlias(key);
    assert ParamName(num)[0] == 'a';
    AliasInTemplate(c[..TailStart(c)], ParamName(num), title, c[TailStart(c)..], Citations.AliasNames(key));
  }

  /** ... so linking an index removes it from the candidates. */
  lemma NoCandidateAfterLink(c: string, key: string, title: string, minLen: nat, cand: Citations.Candidate)
    requires EndsWith(c, "}}") && key != "" && AllDigits(key)
    requires cand in Citations.Candidates(Append(c, Citations.NumOf(key), title), minLen)
    ensures Citations.KeyOfNum(cand.num) != key
  {
    LinkedAfterAppend(c, key, title);
    Citations.CandidatesSound(Append(c, Citations.NumOf(key), title), minLen, cand);
  }

  // ---------------------------------------------------------------------------
  // src/author-link-vue.js: /\|\s*(author-?link<N>|author<N>-?link)\s*=[^|}]+/i

  /** The first name of `names` (the alternatives in order) with which the rest of
      the regex matches at `q`: the index past the name and the end of the match. */
  function NameMatch(s: string, q: nat, names: seq<string>): (r: Option<(nat, nat)>)
    requires q <= |s|
    ensures r.Some? ==> q <= r.value.0 < r.value.1 <= |s|
    decreases |names|
  {
    if |names| == 0 then None
    else
      var n := names[0];
      if LitAtCI(s, q, n) then
        var e := SkipSpaces(s, q + |n|);
        if e + 1 < |s| && s[e] == '=' && Citations.NotBarBrace(s[e + 1]) then
          Some((q + |n|, SkipWhile(s, e + 1, Citations.NotBarBrace)))
        else NameMatch(s, q, names[1..])
      else NameMatch(s, q, names[1..])
  }

  /** A match starting at `p`: (start of the name, end of the name, end of match). */
  function ReplaceAt(s: string, p: nat, names: seq<string>): (r: Option<(nat, nat, nat)>)
    ensures r.Some? ==> p < r.value.0 <= r.value.1 < r.value.2 <= |s|
  {
    if p >= |s| || s[p] != '|' then None
    else
      var q := SkipSpaces(s, p + 1);
      match NameMatch(s, q, names)
      case None => None
      case Some((ne, e)) => Some((q, ne, e))
  }

  /** The leftmost match at or after `from`. */
  function FirstReplaceFrom(s: string, from: nat, names: seq<string>): (r: Option<(nat, nat, nat, nat)>)
    requires from <= |s|
    ensures r.Some? ==> from <= r.value.0
                        && ReplaceAt(s, r.value.0, names) == Some((r.value.1, r.value.2, r.value.3))
    decreases |s| - from
  {
    match ReplaceAt(s, from, names)
    case Some((q, ne, e)) => Some((from, q, ne, e))
    case None => if from == |s| then None else FirstReplaceFrom(s, from + 1, names)
  }

  /** The match found is the leftmost one. */
  lemma {:induction false} FirstReplaceLeftmost(s: string, from: nat, names: seq<string>)
    requires from <= |s| && FirstReplaceFrom(s, from, names).Some?
    ensures forall p :: from <= p < FirstReplaceFrom(s, from, names).value.0 ==>
              ReplaceAt(s, p, names).None?
    decreases |s| - from
  {
    if ReplaceAt(s, from, names).None? {
      FirstReplaceLeftmost(s, from + 1, names);
    }
  }

  /** When no match is found there is none. */
  lemma {:induction false} FirstReplaceNone(s: string, from: nat, names: seq<string>)
    requires from <= |s| && FirstReplaceFrom(s, from, names).None?
    ensures forall p :: from <= p <= |s| ==> ReplaceAt(s, p, names).None?
    decreases |s| - from
  {
    if from < |s| {
      FirstReplaceNone(s, from + 1, names);
    }
  }

  lemma {:induction false} FirstReplaceIs(s: string, from: nat, p: nat, names: seq<string>,
                                          q: nat, ne: nat, e: nat)
    requires from <= p <= |s| && ReplaceAt(s, p, names) == Some((q, ne, e))
    requires forall k :: from <= k < p ==> ReplaceAt(s, k, names).None?
    ensures FirstReplaceFrom(s, from, names) == Some((p, q, ne, e))
    decreases p - from
  {
    if from < p {
      assert ReplaceAt(s, from, names).None? && from < |s|;
      FirstReplaceIs(s, from + 1, p, names, q, ne, e);
    }
  }

  function ReplaceTemplate(num: string, title: string): string {
    "| " + ParamName(num) + "=" + title
  }

  /** src/author-link-vue.js, as written: replace the first existing link parameter
      (`$` sequences of the title interpreted, `$1` being the name as written), or
      else insert as author-link.js does. */
  function VueUpdateAsWritten(c: string, num: string, title: string): (r: string)
    ensures var m := FirstReplaceFrom(c, 0, Citations.LinkNames(num));
            m.Some? ==> StartsWith(r, c[..m.value.0]) && EndsWith(r, c[m.value.3..])
    ensures FirstReplaceFrom(c, 0, Citations.LinkNames(num)).None? && !EndsWith(c, "}}") ==> r == c
  {
    match FirstReplaceFrom(c, 0, Citations.LinkNames(num))
    case Some((p, q, ne, e)) =>
      c[..p] + Substitute(ReplaceTemplate(num, title), c[p..e], c[..p], c[e..], [c[q..ne]]) + c[e..]
    case None => AppendAsWritten(c, num, title)
  }

  /** The replace-or-append the script means, with the title inserted literally. */
  function VueUpdate(c: string, num: string, title: string): (r: string)
    ensures var m := FirstReplaceFrom(c, 0, Citations.LinkNames(num));
            m.Some? ==> StartsWith(r, c[..m.value.0]) && EndsWith(r, c[m.value.3..])
    ensures FirstReplaceFrom(c, 0, Citations.LinkNames(num)).None? && !EndsWith(c, "}}") ==> r == c
  {
    match FirstReplaceFrom(c, 0, Citations.LinkNames(num))
    case Some((p, q, ne, e)) => c[..p] + ReplaceTemplate(num, title) + c[e..]
    case None => Append(c, num, title)
  }

  /** Without `$` in the title the as-written replace-or-append is the literal one. */
  lemma VueAgrees(c: string, num: string, title: string)
    requires AllDigits(num) && '$' !in title
    ensures VueUpdateAsWritten(c, num, title) == VueUpdate(c, num, title)
  {
    match FirstReplaceFrom(c, 0, Citations.LinkNames(num))
    case Some((p, q, ne, e)) =>
      var lit := ReplaceTemplate(num, title);
      ParamNameHasNoDollar(num);
      assert '$' !in lit;
      SubstituteLiteral(lit, c[p..e], c[..p], c[e..], [c[q..ne]]);
    case None =>
      AppendAgrees(c, num, title);
  }

  /** The replace-or-append adds no `$` of its own. */
  lemma VueHasNoDollar(c: string, num: string, title: string)
    requires AllDigits(num) && '$' !in title && '$' !in c
    ensures '$' !in VueUpdate(c, num, title)
  {
    match FirstReplaceFrom(c, 0, Citations.LinkNames(num))
    case Some((p, q, ne, e)) =>
      var lit := ReplaceTemplate(num, title);
      ParamNameHasNoDollar(num);
      assert '$' !in lit;
      assert VueUpdate(c, num, title) == c[..p] + lit + c[e..];
      NoCharInJoin(c[..p], lit, c[e..], '$');
    case None =>
      AppendHasNoDollar(c, num, title);
  }

  lemma NoCharInJoin(x: string, y: string, z: string, ch: char)
    requires ch !in x && ch !in y && ch !in z
    ensures ch !in x + y + z
  {
  }

  /** src/author-link-vue.js halves `$$` in a title too, on both paths. */
  lemma VueDollarsHalved(c: string, num: string)
    requires AllDigits(num)
    ensures VueUpdateAsWritten(c, num, "$$") == VueUpdate(c, num, "$")
  {
    match FirstReplaceFrom(c, 0, Citations.LinkNames(num))
    case Some((p, q, ne, e)) =>
      var lit := "| " + ParamName(num) + "=";
      ParamNameHasNoDollar(num);
      assert '$' !in lit;
      assert ReplaceTemplate(num, "$$") == lit + "$$";
      SubstituteLiteralHead(lit, "$$", c[p..e], c[..p], c[e..], [c[q..ne]]);
      SubstituteDollarDollar([], c[p..e], c[..p], c[e..], [c[q..ne]]);
      assert "$$" + [] == "$$";
      assert ReplaceTemplate(num, "$") == lit + "$";
    case None =>
      if EndsWith(c, "}}") {
        DollarsHalved(c, num);
      }
  }

  /** A citation with a link written `|author-link=`, relinked to the title `$$`. */
  lemma VueDollarTitleAsWritten()
    ensures VueUpdateAsWritten("{{citation|author-link=}}", "", "$$")
            != VueUpdate("{{citation|author-link=}}", "", "$$")
  {
    VueDollarsHalved("{{citation|author-link=}}", "");
    var c := "{{citation|author-link=}}";
    match FirstReplaceFrom(c, 0, Citations.LinkNames(""))
    case Some((p, q, ne, e)) =>
      assert |VueUpdate(c, "", "$")| == p + 15 + |c| - e;
      assert |VueUpdate(c, "", "$$")| == p + 16 + |c| - e;
    case None =>
      assert EndsWith(c, "}}");
      assert |Append(c, "", "$")| == |c| + 15;
      assert |Append(c, "", "$$")| == |c| + 16;
  }

  /** A replace match is an existing link in the sense of the alias check, since
      the names it looks for are among the alias names of the index. */
  lemma {:induction false} NameMatchIsAlias(s: string, q: nat, names: seq<string>, all: seq<string>)
    requires q <= |s| && (forall n :: n in names ==> n in all)
    requires NameMatch(s, q, names).Some?
    ensures exists n :: n in all && Citations.NameThenEquals(s, q, n)
    decreases |names|
  {
    var n := names[0];
    if LitAtCI(s, q, n) {
      var e := SkipSpaces(s, q + |n|);
      if e + 1 < |s| && s[e] == '=' && Citations.NotBarBrace(s[e + 1]) {
        assert Citations.NameThenEquals(s, q, n);
      } else {
        NameMatchIsAlias(s, q, names[1..], all);
      }
    } else {
      NameMatchIsAlias(s, q, names[1..], all);
    }
  }

  lemma LinkNamesAreAliases(key: string)
    requires key != ""
    ensures forall n :: n in Citations.LinkNames(Citations.NumOf(key)) ==> n in Citations.AliasNames(key)
  {
  }

  lemma ReplaceIsAlias(s: string, p: nat, key: string)
    requires key != "" && ReplaceAt(s, p, Citations.LinkNames(Citations.NumOf(key))).Some?
    ensures Citations.AliasAt(s, p, Citations.AliasNames(key))
  {
    LinkNamesAreAliases(key);
    NameMatchIsAlias(s, SkipSpaces(s, p + 1), Citations.LinkNames(Citations.NumOf(key)),
                     Citations.AliasNames(key));
  }

  /** An index whose citation has no existing link has nothing to replace. */
  lemma NotAliasedNoReplace(c: string, key: string)
    requires key != "" && !Citations.Aliased(c, key)
    ensures FirstReplaceFrom(c, 0, Citations.LinkNames(Citations.NumOf(key))).None?
  {
    var r := FirstReplaceFrom(c, 0, Citations.LinkNames(Citations.NumOf(key)));
    if r.Some? {
      ReplaceIsAlias(c, r.value.0, key);
      assert false;
    }
  }

  /** A parameter name that starts with `a` and holds no space. */
  predicate Plain(n: string) { |n| > 0 && n[0] == 'a' && forall k :: 0 <= k < |n| ==> n[k] != ' ' }

  /** The names at an index of digits are plain. */
  lemma AliasNamesPlain(key: string)
    requires AllDigits(key)
    ensures forall n :: n in Citations.AliasNames(key) ==> Plain(n)
  {
    if key == "1" {
      LinkNamesPlain("");
      LinkNamesPlain("1");
    } else {
      LinkNamesPlain(key);
    }
  }

  lemma LinkNamesPlain(num: string)
    requires AllDigits(num)
    ensures forall n :: n in Citations.LinkNames(num) ==> Plain(n)
  {
    assert ' ' !in num by {
      assert forall k :: 0 <= k < |num| ==> num[k] != ' ';
    }
    PlainAppend("author-link", num);
    PlainAppend("authorlink", num);
    PlainAppend("author", num);
    PlainAppend("author" + num, "-link");
    PlainAppend("author" + num, "link");
  }

  lemma PlainAppend(x: string, y: string)
    requires Plain(x) && ' ' !in y
    ensures Plain(x + y)
  {
    forall k | 0 <= k < |x + y| ensures (x + y)[k] != ' ' {
      if k >= |x| {
        assert (x + y)[k] == y[k - |x|];
      }
    }
  }

  lemma {:induction false} SkipSpacesStops(s: string, i: nat, j: nat)
    requires i <= j < |s| && !IsSpace(s[j])
    ensures SkipSpaces(s, i) <= j
    decreases j - i
  {
    if i < j && IsSpace(s[i]) {
      SkipSpacesStops(s, i + 1, j);
    }
  }

  lemma PlainNameAt(s: string, q: nat, n: string)
    requires LitAtCI(s, q, n) && Plain(n)
    ensures LowerChar(s[q]) == 'a'
    ensures forall k :: q <= k < q + |n| ==> s[k] != ' '
  {
    assert n[0] == LowerChar(s[q..q + |n|][0]) == LowerChar(s[q]);
    forall k | q <= k < q + |n| ensures s[k] != ' ' {
      assert n[k - q] == LowerChar(s[q..q + |n|][k - q]) == LowerChar(s[k]);
    }
  }

  /** An alias shape `|` at `p`, name at `q`, `=` at `e` read in `s` is read the
      same in any `t` that agrees with `s` up to `e`. */
  lemma AliasTransfer(s: string, t: string, p: nat, q: nat, n: string, e: nat, names: seq<string>)
    requires n in names && p < |s| && s[p] == '|'
    requires q == SkipSpaces(s, p + 1) && LitAtCI(s, q, n)
    requires e == SkipSpaces(s, q + |n|) && e < |s| && s[e] == '='
    requires e < |t| && s[..e + 1] == t[..e + 1]
    ensures Citations.AliasAt(t, p, names)
  {
    PrefixAgree(s, t, e);
    SpacesTransfer(s, t, p + 1, q, e);
    assert t[q..q + |n|] == s[q..q + |n|];
    SpacesTransfer(s, t, q + |n|, e, e);
    assert Citations.NameThenEquals(t, q, n);
  }

  lemma PrefixAgree(s: string, t: string, e: nat)
    requires e < |s| && e < |t| && s[..e + 1] == t[..e + 1]
    ensures forall k :: 0 <= k <= e ==> t[k] == s[k]
  {
    forall k | 0 <= k <= e ensures t[k] == s[k] {
      assert t[k] == t[..e + 1][k];
      assert s[k] == s[..e + 1][k];
    }
  }

  /** A whitespace run read in `s` up to `j` is read the same in a `t` that agrees
      with `s` up to `e >= j`. */
  lemma SpacesTransfer(s: string, t: string, i: nat, j: nat, e: nat)
    requires i <= |s| && j == SkipSpaces(s, i) && j <= e < |s| && e < |t|
    requires forall k :: 0 <= k <= e ==> t[k] == s[k]
    ensures SkipSpaces(t, i) == j
  {
    SkipSpacesAll(s, i);
    SkipSpacesRun(t, i, j);
  }

  /** The positions of an alias match at `p`: spaces up to the name at `q`, spaces
      up to the `=` at `e`. */
  lemma AliasWitness(s: string, p: nat, names: seq<string>) returns (q: nat, n: string, e: nat)
    requires Citations.AliasAt(s, p, names)
    ensures p < |s| && s[p] == '|' && n in names
    ensures q == SkipSpaces(s, p + 1) && LitAtCI(s, q, n)
    ensures e == SkipSpaces(s, q + |n|) && e < |s| && s[e] == '='
  {
    q := SkipSpaces(s, p + 1);
    n :| n in names && Citations.NameThenEquals(s, q, n);
    e := SkipSpaces(s, q + |n|);
  }

  /** An alias match that starts before a ` |` at `m` ends before it. */
  lemma AliasBeforeBar(s: string, m: nat, p: nat, q: nat, n: string, e: nat)
    requires p < m && m + 1 < |s| && s[m] == ' ' && s[m + 1] == '|'
    requires Plain(n)
    requires q == SkipSpaces(s, p + 1) && LitAtCI(s, q, n)
    requires e == SkipSpaces(s, q + |n|) && e < |s| && s[e] == '='
    ensures e < m
  {
    SkipSpacesStops(s, p + 1, m + 1);
    PlainNameAt(s, q, n);
    assert LowerChar(s[m + 1]) == '|' && IsSpace(s[m]);
    assert q != m + 1 && q != m;
    assert q + |n| <= m;
    SkipSpacesStops(s, q + |n|, m + 1);
    assert e != m && e != m + 1;
  }

  /** An alias parameter found in `a + " |" + ...` at a position inside `a` lies
      wholly inside `a`, so it is found whatever follows `a`. */
  lemma AliasInPrefix(a: string, b: string, z: string, p: nat, names: seq<string>)
    requires p < |a| && |b| >= 2 && b[0] == ' ' && b[1] == '|'
    requires forall n :: n in names ==> Plain(n)
    requires Citations.AliasAt(a + b, p, names)
    ensures Citations.AliasAt(a + z, p, names)
  {
    var s := a + b;
    var m := |a|;
    assert s[m] == ' ' && s[m + 1] == '|';
    var q, n, e := AliasWitness(s, p, names);
    AliasBeforeBar(s, m, p, q, n, e);
    assert s[..e + 1] == (a + z)[..e + 1];
    AliasTransfer(s, a + z, p, q, n, e, names);
  }

  // ---------------------------------------------------------------------------
  // Linking the same index twice in src/author-link-vue.js

  /** A page title: non-empty, without `|` or `}`. */
  predicate TitleChars(t: string) { |t| > 0 && forall k :: 0 <= k < |t| ==> Citations.NotBarBrace(t[k]) }

  /** What the tail match `/(\s*}})$/` covers: whitespace, then `}}`. */
  predicate Closing(z: string) { EndsWith(z, "}}") && AllSpace(z[..|z| - 2]) }

  /** Text that starts ` |`. */
  predicate BarNext(b: string) { |b| >= 2 && b[0] == ' ' && b[1] == '|' }

  /** `key` is an index and the citation `a + z` has no link for it. */
  predicate Unlinked(a: string, z: string, key: string) {
    key != "" && AllDigits(key) && !Citations.Aliased(a + z, key)
  }

  /** `n` heads `names`, is non-empty, starts with no whitespace and is lower case. */
  predicate HeadName(names: seq<string>, n: string) {
    |names| > 0 && names[0] == n && |n| > 0 && !IsSpace(n[0]) && Lower(n) == n
  }

  /** The replace pattern matches at `p` with the first of `names`, written right
      after the `|` and followed directly by `=` and a value that runs to `m`. */
  lemma ReplaceAtFirstName(s: string, p: nat, names: seq<string>, m: nat)
    requires p + 1 < |s| && s[p] == '|' && !IsSpace(s[p + 1]) && |names| > 0
    requires LitAtCI(s, p + 1, names[0])
    requires p + 2 + |names[0]| < |s| && s[p + 1 + |names[0]|] == '='
    requires Citations.NotBarBrace(s[p + 2 + |names[0]|])
    requires SkipWhile(s, p + 2 + |names[0]|, Citations.NotBarBrace) == m
    ensures ReplaceAt(s, p, names) == Some((p + 1, p + 1 + |names[0]|, m))
  {
    assert SkipSpaces(s, p + 1) == p + 1;
    assert SkipSpaces(s, p + 1 + |names[0]|) == p + 1 + |names[0]|;
  }

  lemma LinkNamesHead(num: string)
    requires AllDigits(num)
    ensures HeadName(Citations.LinkNames(num), ParamName(num))
  {
    ParamNameLower(num);
    assert ParamName(num)[0] == 'a';
  }

  /** In a citation just given ` |author-link<num>=<t>` in front of its closing
      whitespace and `}}`, the replace pattern matches that parameter, from its
      `|` to the `}}` (the whitespace after the title is part of `[^|}]+`). */
  lemma InsertedReplaceAt(a: string, key: string, t: string, z: string)
    requires key != "" && AllDigits(key) && TitleChars(t) && Closing(z)
    ensures var num := Citations.NumOf(key);
            var s := a + AppendTemplate(num, t) + z;
            ReplaceAt(s, |a| + 1, Citations.LinkNames(num))
              == Some((|a| + 2, |a| + 2 + |ParamName(num)|, |s| - 2))
  {
    var num := Citations.NumOf(key);
    LinkNamesHead(num);
    InsertedMatch(a, ParamName(num), t, z, Citations.LinkNames(num), AppendTemplate(num, t));
  }

  /** `a + tpl + z`, with `tpl` the text ` |<n>=<t>`, matches at its `|` with the
      name `n`, to the `}}`. */
  lemma InsertedMatch(a: string, n: string, t: string, z: string, names: seq<string>, tpl: string)
    requires HeadName(names, n) && TitleChars(t) && Closing(z)
    requires tpl == " |" + n + "=" + t
    ensures var s := a + tpl + z;
            ReplaceAt(s, |a| + 1, names) == Some((|a| + 2, |a| + 2 + |n|, |s| - 2))
  {
    var s := a + tpl + z;
    TemplateLayout(a, n, t, z);
    TitleRun(a, tpl, z, |a| + 3 + |n|, |n| + 3, t);
    ReplaceAtFirstName(s, |a| + 1, names, |s| - 2);
  }

  /** Where the parts of ` |<n>=<t>` sit after `a`. */
  lemma TemplateLayout(a: string, n: string, t: string, z: string)
    requires |n| > 0 && |t| > 0
    ensures var tpl := " |" + n + "=" + t;
            var s := a + tpl + z;
            && |s| > |a| + 3 + |n|
            && s[|a| + 1] == '|' && s[|a| + 2] == n[0]
            && s[|a| + 2..|a| + 2 + |n|] == n
            && s[|a| + 2 + |n|] == '=' && s[|a| + 3 + |n|] == t[0]
            && tpl[|n| + 3..] == t
  {
    var tpl := " |" + n + "=" + t;
    var s := a + tpl + z;
    var q := |a| + 2;
    assert s[|a| + 1] == tpl[1];
    forall k | 0 <= k < |n| ensures s[q + k] == n[k] {
      assert s[q + k] == tpl[2 + k];
    }
    assert s[q + |n|] == tpl[2 + |n|];
    assert s[q + |n| + 1] == tpl[3 + |n|];
  }

  /** From inside the title, `[^|}]+` runs to the closing `}}`. */
  lemma TitleRun(a: string, tpl: string, z: string, f: nat, h: nat, t: string)
    requires h <= |tpl| && tpl[h..] == t && TitleChars(t) && f == |a| + h && Closing(z)
    ensures SkipWhile(a + tpl + z, f, Citations.NotBarBrace) == |a + tpl + z| - 2
  {
    var s := a + tpl + z;
    forall k | f <= k < |s| - 2 ensures Citations.NotBarBrace(s[k]) {
      if k < |a| + |tpl| {
        assert s[k] == tpl[k - |a|] == t[k - f];
      } else {
        assert s[k] == z[k - |a| - |tpl|] == z[..|z| - 2][k - |a| - |tpl|];
      }
    }
    assert s[|s| - 2] == z[|z| - 2] == '}';
    SkipWhileRun(s, f, |s| - 2, Citations.NotBarBrace);
  }

  /** A replace match inside `a`, in front of a ` |`, would be an existing link of
      `a + z`. */
  lemma NoReplaceInPrefix(a: string, b: string, z: string, p: nat, key: string)
    requires p < |a| && BarNext(b) && Unlinked(a, z, key)
    ensures ReplaceAt(a + b, p, Citations.LinkNames(Citations.NumOf(key))).None?
  {
    if ReplaceAt(a + b, p, Citations.LinkNames(Citations.NumOf(key))).Some? {
      ReplaceIsAlias(a + b, p, key);
      AliasNamesPlain(key);
      AliasInPrefix(a, b, z, p, Citations.AliasNames(key));
      assert false;
    }
  }

  /** Nothing in `a + " |..." + z` up to the `|` matches the replace pattern when
      `a + z` has no link for the index. */
  lemma NoReplaceUpTo(a: string, key: string, tpl: string, z: string)
    requires BarNext(tpl) && Unlinked(a, z, key)
    ensures forall p :: 0 <= p < |a| + 1 ==>
              ReplaceAt(a + tpl + z, p, Citations.LinkNames(Citations.NumOf(key))).None?
  {
    assert a + tpl + z == a + (tpl + z);
    forall p | 0 <= p < |a| + 1
      ensures ReplaceAt(a + (tpl + z), p, Citations.LinkNames(Citations.NumOf(key))).None?
    {
      if p == |a| {
        assert (a + (tpl + z))[p] == ' ';
      } else {
        NoReplaceInPrefix(a, tpl + z, z, p, key);
      }
    }
  }

  /** A replace match just after `a`, where `a + z` has no link for the index, is
      the first one. */
  lemma FirstReplaceAfter(a: string, key: string, tpl: string, z: string, x: (nat, nat, nat))
    requires BarNext(tpl) && Unlinked(a, z, key)
    requires ReplaceAt(a + tpl + z, |a| + 1, Citations.LinkNames(Citations.NumOf(key))) == Some(x)
    ensures FirstReplaceFrom(a + tpl + z, 0, Citations.LinkNames(Citations.NumOf(key)))
              == Some((|a| + 1, x.0, x.1, x.2))
  {
    NoReplaceUpTo(a, key, tpl, z);
    FirstReplaceIs(a + tpl + z, 0, |a| + 1, Citations.LinkNames(Citations.NumOf(key)), x.0, x.1, x.2);
  }

  lemma AppendTemplateBar(num: string, t: string)
    ensures BarNext(AppendTemplate(num, t))
  {
  }

  /** In `a + " |author-link<num>=<t>" + z`, where `a + z` has no link for the
      index, the first replace match is the inserted parameter. */
  lemma FirstReplaceInserted(a: string, key: string, t: string, z: string)
    requires Unlinked(a, z, key) && TitleChars(t) && Closing(z)
    ensures var num := Citations.NumOf(key);
            var s := a + AppendTemplate(num, t) + z;
            FirstReplaceFrom(s, 0, Citations.LinkNames(num))
              == Some((|a| + 1, |a| + 2, |a| + 2 + |ParamName(num)|, |s| - 2))
  {
    InsertedReplaceAt(a, key, t, z);
    AppendTemplateBar(Citations.NumOf(key), t);
    FirstReplaceAfter(a, key, AppendTemplate(Citations.NumOf(key), t), z,
                      (|a| + 2, |a| + 2 + |ParamName(Citations.NumOf(key))|,
                       |a + AppendTemplate(Citations.NumOf(key), t) + z| - 2));
  }

  /** The text an update makes when the replace pattern matches. */
  lemma VueUpdateReplaces(s: string, num: string, title: string, p: nat, q: nat, ne: nat, e: nat)
    requires FirstReplaceFrom(s, 0, Citations.LinkNames(num)) == Some((p, q, ne, e))
    ensures VueUpdate(s, num, title) == s[..p] + ReplaceTemplate(num, title) + s[e..]
  {
  }

  /** The first update of an index with no link is the insertion. */
  lemma VueFirstLink(c: string, key: string, t: string)
    requires key != "" && !Citations.Aliased(c, key)
    ensures VueUpdate(c, Citations.NumOf(key), t) == Append(c, Citations.NumOf(key), t)
  {
    NotAliasedNoReplace(c, key);
  }

  /** Cutting ` |...` + `z` at the `|` and before the closing `}}`. */
  lemma SpliceAfter(a: string, tpl: string, z: string, r: string)
    requires BarNext(tpl) && EndsWith(z, "}}")
    ensures var s := a + tpl + z;
            s[..|a| + 1] + r + s[|s| - 2..] == a + " " + r + "}}"
  {
    var s := a + tpl + z;
    assert s[..|a| + 1] == a + " ";
    assert s[|s| - 2..] == z[|z| - 2..];
  }

  /** An update whose first replace match runs from the `|` after `a` to the `}}`
      keeps `a + " "` and the `}}` around the new parameter. */
  lemma RelinkAt(a: string, tpl: string, z: string, num: string, t2: string, n: string)
    requires BarNext(tpl) && EndsWith(z, "}}")
    requires FirstReplaceFrom(a + tpl + z, 0, Citations.LinkNames(num))
               == Some((|a| + 1, |a| + 2, |a| + 2 + |n|, |a + tpl + z| - 2))
    ensures VueUpdate(a + tpl + z, num, t2) == a + " " + ReplaceTemplate(num, t2) + "}}"
  {
    VueUpdateReplaces(a + tpl + z, num, t2, |a| + 1, |a| + 2, |a| + 2 + |n|, |a + tpl + z| - 2);
    SpliceAfter(a, tpl, z, ReplaceTemplate(num, t2));
  }

  /** When the replace pattern matches from the `|` after `a` to the `}}` and
      `a + z` has no link for the index, an update replaces that match. */
  lemma RelinkAfter(a: string, key: string, tpl: string, z: string, n: string, t2: string)
    requires BarNext(tpl) && Unlinked(a, z, key) && EndsWith(z, "}}")
    requires ReplaceAt(a + tpl + z, |a| + 1, Citations.LinkNames(Citations.NumOf(key)))
               == Some((|a| + 2, |a| + 2 + |n|, |a + tpl + z| - 2))
    ensures VueUpdate(a + tpl + z, Citations.NumOf(key), t2)
              == a + " " + ReplaceTemplate(Citations.NumOf(key), t2) + "}}"
  {
    FirstReplaceAfter(a, key, tpl, z, (|a| + 2, |a| + 2 + |n|, |a + tpl + z| - 2));
    RelinkAt(a, tpl, z, Citations.NumOf(key), t2, n);
  }

  /** Updating `a + " |author-link<num>=<t1>" + z`, where `a + z` has no link for
      the index, replaces the inserted parameter. */
  lemma RelinkInserted(a: string, key: string, t1: string, z: string, t2: string)
    requires Unlinked(a, z, key) && TitleChars(t1) && Closing(z)
    ensures var num := Citations.NumOf(key);
            VueUpdate(a + AppendTemplate(num, t1) + z, num, t2)
              == a + " " + ReplaceTemplate(num, t2) + "}}"
  {
    var num := Citations.NumOf(key);
    var tpl := AppendTemplate(num, t1);
    InsertedReplaceAt(a, key, t1, z);
    AppendTemplateBar(num, t1);
    assert EndsWith(z, "}}");
    RelinkAfter(a, key, tpl, z, ParamName(num), t2);
  }

  /** Linking an unlinked index of a citation and then linking it again with
      another title leaves one parameter, with the second title, in place of the
      first (a page title holds no `|` or `}`); the whitespace that stood before
      the closing `}}` is taken into the replaced parameter and dropped. */
  lemma VueApplyTwice(c: string, key: string, t1: string, t2: string)
    requires EndsWith(c, "}}") && key != "" && AllDigits(key) && !Citations.Aliased(c, key)
    requires TitleChars(t1)
    ensures var num := Citations.NumOf(key);
            VueUpdate(c, num, t1) == Append(c, num, t1)
    ensures var num := Citations.NumOf(key);
            VueUpdate(VueUpdate(c, num, t1), num, t2)
              == c[..TailStart(c)] + " | " + ParamName(num) + "=" + t2 + "}}"
  {
    VueFirstLink(c, key, t1);
    RelinkAppended(c, key, t1, t2);
    ReplacedText(c[..TailStart(c)], ReplaceTemplate(Citations.NumOf(key), t2),
                 ParamName(Citations.NumOf(key)), t2);
  }

  /** Updating a citation that author-link.js's insertion gave a new parameter
      replaces that parameter. */
  lemma RelinkAppended(c: string, key: string, t1: string, t2: string)
    requires EndsWith(c, "}}") && key != "" && AllDigits(key) && !Citations.Aliased(c, key)
    requires TitleChars(t1)
    ensures var num := Citations.NumOf(key);
            VueUpdate(Append(c, num, t1), num, t2)
              == c[..TailStart(c)] + " " + ReplaceTemplate(num, t2) + "}}"
  {
    TailSplit(c);
    RelinkInserted(c[..TailStart(c)], key, t1, c[TailStart(c)..], t2);
  }

  /** A citation is the text before its tail match and the tail, which is closing
      whitespace and `}}`. */
  lemma TailSplit(c: string)
    requires EndsWith(c, "}}")
    ensures c[..TailStart(c)] + c[TailStart(c)..] == c
    ensures Closing(c[TailStart(c)..])
  {
    var w := TailStart(c);
    var z := c[w..];
    assert z[..|z| - 2] == c[w..|c| - 2];
    assert z[|z| - 2..] == c[|c| - 2..];
  }

  lemma ReplacedText(x: string, r: string, n: string, t: string)
    requires r == "| " + n + "=" + t
    ensures x + " " + r + "}}" == x + " | " + n + "=" + t + "}}"
  {
  }
}
