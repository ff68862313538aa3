/** The edit-summary merge of author-link.js and src/author-link-vue.js (the two
    scripts carry the same rule): a fresh summary gets the change note, a summary
    that already carries the tool's link has its count rewritten, and any other
    summary gets the note appended after `; `. */
module EditSummary {
  import opened JsStrings

  const Link := "using [[User:DVRTed/author-link|author-link]]."

  /** `Modified N citation(s)`: the noun is singular exactly when N is 1. */
  function Counted(n: nat): string {
    "Modified " + NatToString(n) + " " + (if n == 1 then "citation" else "citations")
  }

  /** The note the tool adds to a summary. */
  function Changes(n: nat): string { Counted(n) + " " + Link }

  /** The end of a match of `/Modified \d+ citations?/` that starts at `p`. */
  function ModifiedAt(s: string, p: nat): (r: Option<nat>)
    ensures r.Some? ==> p + 19 <= r.value <= |s| && LitAt(s, p, "Modified ")
  {
    if !LitAt(s, p, "Modified ") then None
    else
      var d := SkipWhile(s, p + 9, IsDigit);
      if d == p + 9 || !LitAt(s, d, " citation") then None
      else if d + 9 < |s| && s[d + 9] == 's' then Some(d + 10)
      else Some(d + 9)
  }

  /** The leftmost match at or after `from`, as (start, end). */
  function FirstModifiedFrom(s: string, from: nat): (r: Option<(nat, nat)>)
    requires from <= |s|
    ensures r.Some? ==> from <= r.value.0 && ModifiedAt(s, r.value.0) == Some(r.value.1)
    decreases |s| - from
  {
    match ModifiedAt(s, from)
    case Some(e) => Some((from, e))
    case None => if from == |s| then None else FirstModifiedFrom(s, from + 1)
  }

  /** The match found is the leftmost one. */
  lemma {:induction false} FirstModifiedLeftmost(s: string, from: nat)
    requires from <= |s| && FirstModifiedFrom(s, from).Some?
    ensures forall q :: from <= q < FirstModifiedFrom(s, from).value.0 ==> ModifiedAt(s, q).None?
    decreases |s| - from
  {
    if ModifiedAt(s, from).None? {
      FirstModifiedLeftmost(s, from + 1);
    }
  }

  /** When no match is found there is none. */
  lemma {:induction false} FirstModifiedNone(s: string, from: nat)
    requires from <= |s| && FirstModifiedFrom(s, from).None?
    ensures forall q :: from <= q <= |s| ==> ModifiedAt(s, q).None?
    decreases |s| - from
  {
    if from < |s| {
      FirstModifiedNone(s, from + 1);
    }
  }

  /** `s.replace(/Modified \d+ citations?/, Counted(n))`. */
  function ReplaceModified(s: string, n: nat): string {
    match FirstModifiedFrom(s, 0)
    case None => s
    case Some((p, e)) => ReplaceSpan(s, p, e, n)
  }

  /** The text with the match `s[p..e]` replaced by the replacement `Counted(n)`. */
  function ReplaceSpan(s: string, p: nat, e: nat, n: nat): string
    requires p <= e <= |s|
  {
    s[..p] + Substitute(Counted(n), s[p..e], s[..p], s[e..], []) + s[e..]
  }

  /** `update_edit_summary` with `n` modified citations and the summary box holding
      `summary`. */
  function Update(summary: string, n: nat): (r: string)
    ensures !Contains(Trim(summary), Link) ==> EndsWith(r, Changes(n))
    ensures !Contains(Trim(summary), Link) && Trim(summary) != [] ==> StartsWith(r, Trim(summary) + "; ")
  {
    var cur := Trim(summary);
    if cur == [] then Changes(n)
    else if Contains(cur, Link) then ReplaceModified(cur, n)
    else cur + "; " + Changes(n)
  }

  /** The noun ends in `s` exactly when the count is not 1. */
  lemma Plural(n: nat)
    ensures LitAt(Counted(n), |Counted(n)| - 1, "s") <==> n != 1
  {
    var c := Counted(n);
    assert c[|c| - 1..|c|] == [c[|c| - 1]];
  }

  lemma CountedHasNoDollar(n: nat)
    ensures '$' !in Counted(n)
  {
    var c := Counted(n);
    var digits := NatToString(n);
    forall k | 0 <= k < |c| ensures c[k] != '$' {
      if 9 <= k < 9 + |digits| {
        assert c[k] == digits[k - 9];
      }
    }
  }

  /** The note written after any text `a` is matched by the regex, start to end of
      `Modified N citation(s)`. */
  lemma CountedMatches(a: string, n: nat, rest: string)
    requires |rest| > 0 && rest[0] == ' '
    ensures ModifiedAt(a + Counted(n) + rest, |a|) == Some(|a| + |Counted(n)|)
  {
    var s := a + Counted(n) + rest;
    var digits := NatToString(n);
    var p := |a|;
    assert s[p..p + 9] == "Modified ";
    var d := p + 9 + |digits|;
    forall k | p + 9 <= k < d ensures IsDigit(s[k]) {
      assert s[k] == digits[k - p - 9];
    }
    assert s[d] == ' ';
    SkipWhileRun(s, p + 9, d, IsDigit);
    assert s[d..d + 9] == " citation";
    if n == 1 {
      assert s[d + 9] == ' ';
    } else {
      assert s[d + 9] == 's';
    }
  }

  /** Text after a `;` cannot change a match that starts before it. */
  lemma ModifiedAtPrefix(a: string, b: string, p: nat)
    requires p <= |a| && |b| > 0 && b[0] == ';'
    ensures ModifiedAt(a + b, p) == ModifiedAt(a, p)
  {
    assert ';' !in "Modified ";
    assert ';' !in " citation";
    LitAtPrefix(a, b, p, "Modified ");
    if LitAt(a, p, "Modified ") {
      SkipWhilePrefix(a, b, p + 9, IsDigit);
      var d := SkipWhile(a, p + 9, IsDigit);
      LitAtPrefix(a, b, d, " citation");
      if LitAt(a, d, " citation") && d + 9 == |a| {
        assert (a + b)[d + 9] == ';';
      } else if LitAt(a, d, " citation") {
        assert (a + b)[d + 9] == a[d + 9];
      }
    }
  }

  /** The search finds the first position where the regex matches. */
  lemma {:induction false} FirstModifiedIs(s: string, from: nat, p: nat, e: nat)
    requires from <= p <= |s| && ModifiedAt(s, p) == Some(e)
    requires forall q :: from <= q < p ==> ModifiedAt(s, q).None?
    ensures FirstModifiedFrom(s, from) == Some((p, e))
    decreases p - from
  {
    if from < p {
      FirstModifiedIs(s, from + 1, p, e);
    }
  }

  /** The note is the count followed by ` ` and the link. */
  lemma ChangesSplit(n: nat)
    ensures Changes(n) == Counted(n) + (" " + Link)
  {
  }

  /** The regex matches the count of a note written after any text `a`. */
  lemma NoteFound(a: string, n: nat)
    ensures ModifiedAt(a + Changes(n), |a|) == Some(|a| + |Counted(n)|)
  {
    ChangesSplit(n);
    assert a + Changes(n) == a + Counted(n) + (" " + Link);
    CountedMatches(a, n, " " + Link);
  }

  /** Rewriting the first match, which is the count `x` written after `a`. */
  lemma ReplaceCount(a: string, x: string, rest: string, m: nat)
    requires FirstModifiedFrom(a + (x + rest), 0) == Some((|a|, |a| + |x|))
    ensures ReplaceModified(a + (x + rest), m) == a + (Counted(m) + rest)
  {
    ReplaceFirst(a + (x + rest), m, |a|, |a| + |x|);
    ReplaceSpanParts(a, x, rest, m);
  }

  lemma ReplaceFirst(s: string, n: nat, p: nat, e: nat)
    requires FirstModifiedFrom(s, 0) == Some((p, e))
    ensures p <= e <= |s| && ReplaceModified(s, n) == ReplaceSpan(s, p, e, n)
  {
  }

  lemma ReplaceSpanParts(a: string, x: string, rest: string, m: nat)
    ensures ReplaceSpan(a + (x + rest), |a|, |a| + |x|, m) == a + (Counted(m) + rest)
  {
    SliceParts(a, x, rest);
    CountedHasNoDollar(m);
    SubstituteLiteral(Counted(m), x, a, rest, []);
    Assoc(a, Counted(m), rest);
  }

  lemma SliceParts(a: string, x: string, rest: string)
    ensures var t := a + (x + rest);
            t[..|a|] == a && t[|a|..|a| + |x|] == x && t[|a| + |x|..] == rest
  {
    var t := a + (x + rest);
    assert t[|a|..] == x + rest;
    assert t[|a|..|a| + |x|] == (x + rest)[..|x|];
    assert t[|a| + |x|..] == (x + rest)[|x|..];
  }

  lemma Assoc(a: string, b: string, c: string)
    ensures a + b + c == a + (b + c)
  {
  }

  /** A match of the count `x` after `a`, with none in `a`, is the first one. */
  lemma CountFirst(a: string, x: string, rest: string)
    requires ModifiedAt(a + (x + rest), |a|) == Some(|a| + |x|)
    requires forall q :: 0 <= q < |a| ==> ModifiedAt(a + (x + rest), q).None?
    ensures FirstModifiedFrom(a + (x + rest), 0) == Some((|a|, |a| + |x|))
  {
    FirstModifiedIs(a + (x + rest), 0, |a|, |a| + |x|);
  }

  /** Rewriting the count of a summary `a + Changes(n)` whose first match is the
      note itself. */
  lemma ReplaceNote(a: string, n: nat, m: nat)
    requires forall q :: 0 <= q < |a| ==> ModifiedAt(a + Changes(n), q).None?
    ensures ReplaceModified(a + Changes(n), m) == a + Changes(m)
  {
    NoteFound(a, n);
    ChangesSplit(n);
    ChangesSplit(m);
    ReplaceFirstCount(a, Counted(n), " " + Link, m);
  }

  /** Rewriting `a + x + rest` where the count `x` is the first match. */
  lemma ReplaceFirstCount(a: string, x: string, rest: string, m: nat)
    requires ModifiedAt(a + (x + rest), |a|) == Some(|a| + |x|)
    requires forall q :: 0 <= q < |a| ==> ModifiedAt(a + (x + rest), q).None?
    ensures ReplaceModified(a + (x + rest), m) == a + (Counted(m) + rest)
  {
    CountFirst(a, x, rest);
    ReplaceCount(a, x, rest, m);
  }

  /** A trimmed summary that carries the link takes the rewrite branch. */
  lemma UpdateRewrites(s: string, n: nat)
    requires s != [] && Trim(s) == s && Contains(s, Link)
    ensures Update(s, n) == ReplaceModified(s, n)
  {
  }

  /** A text ending in the note is its own trim and carries the link, so an
      update takes the rewrite branch. */
  lemma NoteTaken(a: string, n: nat)
    requires a == [] || !IsSpace(a[0])
    ensures Trim(a + Changes(n)) == a + Changes(n)
    ensures Contains(a + Changes(n), Link)
  {
    NoteTrimmed(a, n);
    NoteHasLink(a, n);
  }

  lemma NoteTrimmed(a: string, n: nat)
    requires a == [] || !IsSpace(a[0])
    ensures Trim(a + Changes(n)) == a + Changes(n)
  {
    var t := a + Changes(n);
    assert t[0] == (if a == [] then 'M' else a[0]);
    assert t[|t| - 1] == Link[|Link| - 1];
    TrimNoop(t);
  }

  lemma NoteHasLink(a: string, n: nat)
    ensures Contains(a + Changes(n), Link)
  {
    var x := a + Counted(n) + " ";
    assert a + Changes(n) == x + Link;
    ContainsSuffix(x, Link);
  }

  /** A note written after text `a` that starts with no whitespace and holds no
      match is found again, and only its count is rewritten. */
  lemma UpdateNoteAfter(a: string, n: nat, m: nat)
    requires a == [] || !IsSpace(a[0])
    requires forall q :: 0 <= q < |a| ==> ModifiedAt(a + Changes(n), q).None?
    ensures Update(a + Changes(n), m) == a + Changes(m)
  {
    NoteTaken(a, n);
    UpdateRewrites(a + Changes(n), m);
    ReplaceNote(a, n, m);
  }

  /** Updating the tool's own note rewrites its count. */
  lemma UpdateNote(n: nat, m: nat)
    ensures Update(Changes(n), m) == Changes(m)
  {
    assert [] + Changes(n) == Changes(n);
    assert [] + Changes(m) == Changes(m);
    UpdateNoteAfter([], n, m);
  }

  /** A summary the tool wrote is found again and its count rewritten, so an empty
      summary box ends up with exactly the latest note however often it is updated. */
  lemma UpdateFresh(s: string, n: nat, m: nat)
    requires AllSpace(s)
    ensures Update(s, n) == Changes(n)
    ensures Update(Update(s, n), m) == Changes(m)
  {
    assert Trim(s) == [];
    UpdateNote(n, m);
  }

  /** In `cur; <note>` the first match is the note's, when `cur` has none. */
  lemma NoEarlierMatch(cur: string, n: nat)
    requires forall q :: 0 <= q <= |cur| ==> ModifiedAt(cur, q).None?
    ensures forall q :: 0 <= q < |cur + "; "| ==> ModifiedAt(cur + "; " + Changes(n), q).None?
  {
    Assoc(cur, "; ", Changes(n));
    NoMatchBeforeSeparator(cur, "; " + Changes(n));
  }

  /** Appending text that starts with `; ` adds no match before that text. */
  lemma NoMatchBeforeSeparator(cur: string, b: string)
    requires |b| >= 2 && b[0] == ';' && b[1] == ' '
    requires forall q :: 0 <= q <= |cur| ==> ModifiedAt(cur, q).None?
    ensures forall q :: 0 <= q < |cur| + 2 ==> ModifiedAt(cur + b, q).None?
  {
    forall q | 0 <= q < |cur| + 2 ensures ModifiedAt(cur + b, q).None? {
      if q <= |cur| {
        ModifiedAtPrefix(cur, b, q);
      } else {
        assert (cur + b)[q] == ' ';
      }
    }
  }

  /** Updating `cur; <note>` rewrites only the note's count. */
  lemma UpdateAppended(cur: string, n: nat, m: nat)
    requires cur != [] && !IsSpace(cur[0])
    requires forall q :: 0 <= q <= |cur| ==> ModifiedAt(cur, q).None?
    ensures Update(cur + "; " + Changes(n), m) == cur + "; " + Changes(m)
  {
    assert (cur + "; ")[0] == cur[0];
    NoEarlierMatch(cur, n);
    UpdateNoteAfter(cur + "; ", n, m);
  }

  /** A summary of the user's own, without the tool's link and without a
      `Modified N citation(s)` in it, is kept verbatim in front of the note, and a
      later update only rewrites the count. */
  lemma UpdateKeepsSummary(s: string, n: nat, m: nat)
    requires Trim(s) != [] && !Contains(Trim(s), Link)
    requires forall q :: 0 <= q <= |Trim(s)| ==> ModifiedAt(Trim(s), q).None?
    ensures Update(s, n) == Trim(s) + "; " + Changes(n)
    ensures Update(Update(s, n), m) == Trim(s) + "; " + Changes(m)
  {
    UpdateAppended(Trim(s), n, m);
  }
}
