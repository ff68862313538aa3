/** The src/author-link-vue.js dialog: `init` parses the citations that have
    authors to link, and `select_candidate` (a search result or a typed title) and
    `skip_citation` rewrite the edit box, mark authors linked and citations
    completed, skipped or modified, advance the counters and merge the edit
    summary. A fresh app is mounted each time the dialog opens, so the counters
    start at zero. Which rows are on screen follows the template's `v-show`
    conditions: a citation is shown while neither completed nor skipped. */
module AuthorLinkVue {
  import opened JsStrings
  import Seqs
  import Citations
  import EditSummary
  import ApplyLink

  /** An entry of a citation's `authors`; `linked` is `is_linked`, undefined (false)
      until the author is first linked. */
  datatype Author = Author(name: string, num: string, linked: bool)

  /** An entry of `citation_data`: `cite_text`, `authors`, `processed_authors`,
      `is_modified`, and `completed` and `skipped`, undefined (false) at first. */
  datatype Cite = Cite(text: string, authors: seq<Author>, processed: nat, modified: bool,
                       completed: bool, skipped: bool)

  /** `stats.authors` and `stats.citations`. */
  datatype Stats = Stats(totalAuthors: nat, completedAuthors: nat, totalCitations: nat,
                         completedCitations: nat, skippedCitations: nat, modifiedCitations: nat)

  const NoStats := Stats(0, 0, 0, 0, 0, 0)

  /** `parse_authors`, which keeps names of more than one character. */
  function ParseAuthors(c: string): seq<Citations.Candidate> { Citations.Candidates(c, 1) }

  function AuthorOf(c: Citations.Candidate): Author { Author(c.name, c.num, false) }

  /** The record `parse_citations` makes for one citation. */
  function NewCite(c: string, extract: string -> seq<Citations.Candidate>): Cite {
    var cands := extract(c);
    Cite(c, seq(|cands|, i requires 0 <= i < |cands| => AuthorOf(cands[i])), 0, false, false, false)
  }

  /** The `map` and `filter` of `parse_citations`, with `extract` the author
      extraction. */
  function ParseCitations(cs: seq<string>, extract: string -> seq<Citations.Candidate>): (r: seq<Cite>)
    ensures |r| <= |cs|
  {
    if |cs| == 0 then []
    else (if |extract(cs[0])| > 0 then [NewCite(cs[0], extract)] else []) + ParseCitations(cs[1..], extract)
  }

  /** The texts of the records, in order. */
  function TextsOf(data: seq<Cite>): (r: seq<string>)
    ensures |r| == |data| && forall i :: 0 <= i < |r| ==> r[i] == data[i].text
  {
    seq(|data|, i requires 0 <= i < |data| => data[i].text)
  }

  /** The `filter` test of `parse_citations`. */
  function Linkable(extract: string -> seq<Citations.Candidate>): string -> bool {
    c => |extract(c)| > 0
  }

  lemma ConsTexts(c: Cite, t: seq<Cite>)
    ensures TextsOf([c] + t) == [c.text] + TextsOf(t)
  {
  }

  /** The records are made for exactly the citations with at least one author to
      link, in the order they were found. */
  lemma {:induction false} ParseCitationsFilter(cs: seq<string>, extract: string -> seq<Citations.Candidate>)
    ensures TextsOf(ParseCitations(cs, extract)) == Seqs.Filter(cs, Linkable(extract))
  {
    if |cs| > 0 {
      ParseCitationsFilter(cs[1..], extract);
      var p := Linkable(extract);
      var t := ParseCitations(cs[1..], extract);
      var ft := Seqs.Filter(cs[1..], p);
      assert TextsOf(t) == ft;
      if |extract(cs[0])| > 0 {
        var c := NewCite(cs[0], extract);
        assert p(cs[0]);
        assert Seqs.Filter(cs, p) == [cs[0]] + ft;
        assert ParseCitations(cs, extract) == [c] + t;
        ConsTexts(c, t);
      } else {
        assert !p(cs[0]);
        assert Seqs.Filter(cs, p) == [] + ft == ft;
        assert ParseCitations(cs, extract) == [] + t == t;
      }
    }
  }

  /** An unanswered record: its citation's authors, at least one, none linked,
      nothing counted. */
  predicate Untouched(c: Cite, extract: string -> seq<Citations.Candidate>) {
    c == NewCite(c.text, extract) && |c.authors| > 0
  }

  predicate AllUntouched(data: seq<Cite>, extract: string -> seq<Citations.Candidate>) {
    forall i :: 0 <= i < |data| ==> Untouched(data[i], extract)
  }

  lemma {:induction false} ParseCitationsFresh(cs: seq<string>, extract: string -> seq<Citations.Candidate>)
    ensures AllUntouched(ParseCitations(cs, extract), extract)
  {
    if |cs| > 0 {
      ParseCitationsFresh(cs[1..], extract);
      var t := ParseCitations(cs[1..], extract);
      var h: seq<Cite> := if |extract(cs[0])| > 0 then [NewCite(cs[0], extract)] else [];
      assert ParseCitations(cs, extract) == h + t;
      assert AllUntouched(h, extract);
      forall i | 0 <= i < |h + t| ensures Untouched((h + t)[i], extract) {
        if i >= |h| {
          assert (h + t)[i] == t[i - |h|];
        }
      }
    }
  }

  predicate IsLinked(a: Author) { a.linked }
  function NumAuthors(c: Cite): nat { |c.authors| }
  function Processed(c: Cite): nat { c.processed }
  predicate Completed(c: Cite) { c.completed }
  predicate Skipped(c: Cite) { c.skipped }
  predicate Modified(c: Cite) { c.modified }
  /** The template shows a citation while it is neither completed nor skipped. */
  predicate Shown(c: Cite) { !c.completed && !c.skipped }
  predicate Finished(c: Cite) { c.completed || c.skipped }

  /** A record's own bookkeeping: `processed_authors` counts the linked authors, the
      record is modified once one was linked, completed exactly when all were, and
      never both completed and skipped. */
  ghost predicate CiteOk(c: Cite) {
    && |c.authors| > 0
    && c.processed == Seqs.Count(c.authors, IsLinked)
    && (c.modified <==> c.processed > 0)
    && (c.completed <==> c.processed >= |c.authors|)
    && !(c.completed && c.skipped)
  }

  /** The counters summarise the records. */
  ghost predicate StatsOk(st: Stats, data: seq<Cite>) {
    && st.totalCitations == |data|
    && st.totalAuthors == Seqs.SumBy(data, NumAuthors)
    && st.completedAuthors == Seqs.SumBy(data, Processed)
    && st.completedCitations == Seqs.Count(data, Completed)
    && st.skippedCitations == Seqs.Count(data, Skipped)
    && st.modifiedCitations == Seqs.Count(data, Modified)
  }

  ghost predicate Consistent(data: seq<Cite>, st: Stats) {
    && (forall i :: 0 <= i < |data| ==> CiteOk(data[i]))
    && StatsOk(st, data)
  }

  /** The counters `init` sets for the records `data`. */
  function Fresh(data: seq<Cite>): Stats {
    Stats(Seqs.SumBy(data, NumAuthors), 0, |data|, 0, 0, 0)
  }

  lemma NewCiteOk(c: Cite, extract: string -> seq<Citations.Candidate>)
    requires Untouched(c, extract)
    ensures CiteOk(c) && !Completed(c) && !Skipped(c) && !Modified(c) && Processed(c) == 0
  {
    Seqs.CountNone(c.authors, IsLinked);
  }

  /** Freshly parsed records satisfy the invariant with the counters `init` sets,
      and with the zero counters left by its early return when there is none. */
  lemma FreshConsistent(data: seq<Cite>, extract: string -> seq<Citations.Candidate>)
    requires AllUntouched(data, extract)
    ensures Consistent(data, if |data| == 0 then NoStats else Fresh(data))
  {
    forall i | 0 <= i < |data| ensures CiteOk(data[i]) && !Completed(data[i]) && !Skipped(data[i])
      && !Modified(data[i]) && Processed(data[i]) == 0
    {
      NewCiteOk(data[i], extract);
    }
    Seqs.SumByZero(data, Processed);
    Seqs.CountNone(data, Completed);
    Seqs.CountNone(data, Skipped);
    Seqs.CountNone(data, Modified);
  }

  /** The dialog's state that the handlers read and write. */
  datatype Screen = Screen(textbox: string, summary: string, wikitext: string,
                           data: seq<Cite>, stats: Stats)

  /** `apply_link`: the first existing link parameter of the author's index is
      replaced, else one is inserted; the edit box, the text and the record's
      citation take the result, unless the box no longer holds the citation. Both
      `replace` calls are taken as written, `$` sequences and all. */
  function Linked(s: Screen, ci: nat, ai: nat, title: string): (r: Screen)
    requires ci < |s.data| && ai < |s.data[ci].authors|
    ensures !Contains(s.textbox, s.data[ci].text) ==> r == s
    ensures |r.data| == |s.data| && r.stats == s.stats && r.summary == s.summary
  {
    var c := s.data[ci];
    var u := ApplyLink.VueUpdateAsWritten(c.text, c.authors[ai].num, title);
    match ApplyLink.ApplyAsWritten(s.textbox, c.text, u)
    case Some(t) => s.(textbox := t, wikitext := t, data := s.data[ci := c.(text := u)])
    case None => s
  }

  /** The counting of `select_candidate` on the record `c`: a newly linked author is
      counted once, the record is counted as modified the first time, and as
      completed once all its authors are linked. */
  function Tally(c: Cite, ai: nat, st: Stats): (r: (Cite, Stats))
    requires ai < |c.authors|
    ensures |r.0.authors| == |c.authors| && r.0.authors[ai].linked && r.0.modified
    ensures r.1.totalAuthors == st.totalAuthors && r.1.totalCitations == st.totalCitations
    ensures r.1.skippedCitations == st.skippedCitations
  {
    var newly := !c.authors[ai].linked;
    var c1 := if newly then c.(processed := c.processed + 1,
                               authors := c.authors[ai := c.authors[ai].(linked := true)]) else c;
    var st1 := if newly then st.(completedAuthors := st.completedAuthors + 1) else st;
    var c2 := c1.(modified := true);
    var st2 := if c.modified then st1 else st1.(modifiedCitations := st1.modifiedCitations + 1);
    if c2.processed >= |c2.authors| then
      (c2.(completed := true), st2.(completedCitations := st2.completedCitations + 1))
    else (c2, st2)
  }

  /** `select_candidate(citation, author, title)`: `apply_link`, the counting, and
      the summary merge the first time the citation is modified. */
  function Selected(s: Screen, ci: nat, ai: nat, title: string): (r: Screen)
    requires ci < |s.data| && ai < |s.data[ci].authors|
    ensures |r.data| == |s.data| && r.data[ci].modified
  {
    var l := Linked(s, ci, ai, title);
    var t := Tally(l.data[ci], ai, l.stats);
    l.(data := l.data[ci := t.0], stats := t.1,
       summary := if s.data[ci].modified then s.summary
                  else EditSummary.Update(s.summary, t.1.modifiedCitations))
  }

  /** `skip_citation`. */
  function Skipping(s: Screen, ci: nat): Screen
    requires ci < |s.data|
  {
    s.(data := s.data[ci := s.data[ci].(skipped := true)],
       stats := s.stats.(skippedCitations := s.stats.skippedCitations + 1))
  }

  /** The link leaves every record's author list, counters and flags alone. */
  lemma LinkedKeepsCounts(s: Screen, ci: nat, ai: nat, title: string)
    requires ci < |s.data| && ai < |s.data[ci].authors|
    ensures var l := Linked(s, ci, ai, title);
            && |l.data| == |s.data| && l.stats == s.stats && l.summary == s.summary
            && l.data[ci] == s.data[ci].(text := l.data[ci].text)
            && forall j :: 0 <= j < |s.data| && j != ci ==> l.data[j] == s.data[j]
  {
  }

  /** When the edit box still holds the citation, the citation is rewritten by the
      replace-or-append as written and the edit box and text take the box with the
      as-written `replace` of the old citation by the new one; otherwise (the box
      was edited meanwhile) nothing changes. With no `$` in the citation or the
      title (the author numbers being digits) the rewrite is the literal one, it takes the place of the first
      occurrence of the old citation, and the box holds it. */
  lemma LinkedText(s: Screen, ci: nat, ai: nat, title: string)
    requires ci < |s.data| && ai < |s.data[ci].authors|
    ensures var c := s.data[ci];
            var l := Linked(s, ci, ai, title);
            var u := ApplyLink.VueUpdateAsWritten(c.text, c.authors[ai].num, title);
            && (!Contains(s.textbox, c.text) ==> l == s)
            && (Contains(s.textbox, c.text) ==>
                  && l.data[ci].text == u && l.wikitext == l.textbox
                  && l.textbox == ReplaceFirstJs(s.textbox, c.text, u))
            && (Contains(s.textbox, c.text) && '$' !in c.text && '$' !in title
                && ApplyLink.AllDigits(c.authors[ai].num) ==>
                  && l.data[ci].text == ApplyLink.VueUpdate(c.text, c.authors[ai].num, title)
                  && l.textbox == ReplaceFirst(s.textbox, c.text, l.data[ci].text)
                  && Contains(l.textbox, l.data[ci].text))
  {
    var c := s.data[ci];
    var num := c.authors[ai].num;
    if Contains(s.textbox, c.text) && '$' !in c.text && '$' !in title && ApplyLink.AllDigits(num) {
      var u := ApplyLink.VueUpdate(c.text, num, title);
      ApplyLink.VueAgrees(c.text, num, title);
      ApplyLink.VueHasNoDollar(c.text, num, title);
      ApplyLink.ApplyAgrees(s.textbox, c.text, u);
      var k := IndexOf(s.textbox, c.text).value;
      var t := s.textbox[..k] + u + s.textbox[k + |c.text|..];
      assert ReplaceFirst(s.textbox, c.text, u) == t;
      ContainsMiddle(s.textbox[..k], u, s.textbox[k + |c.text|..]);
    }
  }

  /** The counting leaves the citation text and the skip flag as they are. */
  lemma TallyKeepsText(c: Cite, ai: nat, st: Stats)
    requires ai < |c.authors|
    ensures Tally(c, ai, st).0.text == c.text && Tally(c, ai, st).0.skipped == c.skipped
  {
  }

  /** What selecting does to the edit box, the text and the stored citation:
      `apply_link`'s result. */
  lemma SelectedText(s: Screen, ci: nat, ai: nat, title: string)
    requires ci < |s.data| && ai < |s.data[ci].authors|
    ensures var l := Linked(s, ci, ai, title);
            var r := Selected(s, ci, ai, title);
            r.textbox == l.textbox && r.wikitext == l.wikitext && r.data[ci].text == l.data[ci].text
  {
    var l := Linked(s, ci, ai, title);
    LinkedKeepsCounts(s, ci, ai, title);
    TallyKeepsText(l.data[ci], ai, l.stats);
  }

  /** An author is counted the first time it is linked and only then, and is linked
      afterwards; the other authors of the citation are untouched. */
  lemma SelectedFirstLink(s: Screen, ci: nat, ai: nat, title: string)
    requires ci < |s.data| && ai < |s.data[ci].authors|
    ensures var c := s.data[ci];
            var r := Selected(s, ci, ai, title);
            var n := if c.authors[ai].linked then 0 else 1;
            && |r.data| == |s.data| && |r.data[ci].authors| == |c.authors|
            && r.data[ci].authors[ai] == c.authors[ai].(linked := true)
            && (forall j :: 0 <= j < |c.authors| && j != ai ==> r.data[ci].authors[j] == c.authors[j])
            && r.data[ci].processed == c.processed + n
            && r.stats.completedAuthors == s.stats.completedAuthors + n
  {
    LinkedKeepsCounts(s, ci, ai, title);
  }

  /** The modified count goes up once per citation, and the summary is merged
      exactly then, with the new count. */
  lemma SelectedModifiedOnce(s: Screen, ci: nat, ai: nat, title: string)
    requires ci < |s.data| && ai < |s.data[ci].authors|
    ensures var c := s.data[ci];
            var r := Selected(s, ci, ai, title);
            && r.data[ci].modified
            && r.stats.modifiedCitations == s.stats.modifiedCitations + (if c.modified then 0 else 1)
            && (c.modified ==> r.summary == s.summary)
            && (!c.modified ==> r.summary == EditSummary.Update(s.summary, r.stats.modifiedCitations))
  {
    LinkedKeepsCounts(s, ci, ai, title);
  }

  /** A citation becomes completed, and is counted so, exactly when as many authors
      were processed as it has. */
  lemma SelectedCompletes(s: Screen, ci: nat, ai: nat, title: string)
    requires ci < |s.data| && ai < |s.data[ci].authors| && !s.data[ci].completed
    ensures var r := Selected(s, ci, ai, title);
            && (r.data[ci].completed <==> r.data[ci].processed >= |r.data[ci].authors|)
            && r.stats.completedCitations
               == s.stats.completedCitations + (if r.data[ci].completed then 1 else 0)
  {
    LinkedKeepsCounts(s, ci, ai, title);
  }

  /** Selecting touches only the chosen citation and the totals it does not count
      towards stay put. */
  lemma SelectedKeepsOthers(s: Screen, ci: nat, ai: nat, title: string)
    requires ci < |s.data| && ai < |s.data[ci].authors|
    ensures var r := Selected(s, ci, ai, title);
            && |r.data| == |s.data|
            && (forall j :: 0 <= j < |s.data| && j != ci ==> r.data[j] == s.data[j])
            && r.data[ci].skipped == s.data[ci].skipped
            && r.stats.totalAuthors == s.stats.totalAuthors
            && r.stats.totalCitations == s.stats.totalCitations
            && r.stats.skippedCitations == s.stats.skippedCitations
  {
    LinkedKeepsCounts(s, ci, ai, title);
  }

  /** The counting keeps a shown record's bookkeeping. */
  lemma TallyOk(c: Cite, ai: nat, st: Stats)
    requires CiteOk(c) && Shown(c) && ai < |c.authors|
    ensures CiteOk(Tally(c, ai, st).0) && !Skipped(Tally(c, ai, st).0)
  {
    var a := c.authors[ai];
    if !a.linked {
      Seqs.CountUpdate(c.authors, ai, a.(linked := true), IsLinked);
    } else {
      assert IsLinked(c.authors[ai]);
      Seqs.CountNone(c.authors, IsLinked);
    }
  }

  /** What the counting adds to each sum and count. */
  lemma TallyCounts(c: Cite, ai: nat, st: Stats)
    requires CiteOk(c) && Shown(c) && ai < |c.authors|
    ensures var t := Tally(c, ai, st);
            && NumAuthors(t.0) == NumAuthors(c)
            && t.1.completedAuthors + Processed(c) == st.completedAuthors + Processed(t.0)
            && t.1.completedCitations + (if Completed(c) then 1 else 0)
               == st.completedCitations + (if Completed(t.0) then 1 else 0)
            && t.1.modifiedCitations + (if Modified(c) then 1 else 0)
               == st.modifiedCitations + (if Modified(t.0) then 1 else 0)
            && t.1.skippedCitations == st.skippedCitations && Skipped(t.0) == Skipped(c)
            && t.1.totalAuthors == st.totalAuthors && t.1.totalCitations == st.totalCitations
  {
  }

  /** Selecting on a shown citation keeps the invariant. */
  lemma SelectedKeeps(s: Screen, ci: nat, ai: nat, title: string)
    requires Consistent(s.data, s.stats) && ci < |s.data| && ai < |s.data[ci].authors|
    requires Shown(s.data[ci])
    ensures var r := Selected(s, ci, ai, title); Consistent(r.data, r.stats)
  {
    LinkedKeepsCounts(s, ci, ai, title);
    LinkedConsistent(s, ci, ai, title);
    var l := Linked(s, ci, ai, title);
    TalliedConsistent(l.data, l.stats, ci, ai);
  }

  /** Rewriting a citation's text keeps the invariant. */
  lemma LinkedConsistent(s: Screen, ci: nat, ai: nat, title: string)
    requires Consistent(s.data, s.stats) && ci < |s.data| && ai < |s.data[ci].authors|
    ensures var l := Linked(s, ci, ai, title); Consistent(l.data, l.stats)
  {
    LinkedKeepsCounts(s, ci, ai, title);
    var l := Linked(s, ci, ai, title);
    assert s.data[ci := l.data[ci]] == l.data;
    RetextConsistent(s.data, s.stats, ci, l.data[ci].text);
  }

  /** Giving a record another citation text keeps the invariant. */
  lemma RetextConsistent(data: seq<Cite>, st: Stats, ci: nat, text: string)
    requires Consistent(data, st) && ci < |data|
    ensures Consistent(data[ci := data[ci].(text := text)], st)
  {
    var c := data[ci].(text := text);
    assert CiteOk(data[ci]);
    Seqs.SumByUpdate(data, ci, c, NumAuthors);
    Seqs.SumByUpdate(data, ci, c, Processed);
    Seqs.CountUpdate(data, ci, c, Completed);
    Seqs.CountUpdate(data, ci, c, Skipped);
    Seqs.CountUpdate(data, ci, c, Modified);
  }

  /** Counting a selection on a shown record keeps the invariant. */
  lemma TalliedConsistent(data: seq<Cite>, st: Stats, ci: nat, ai: nat)
    requires Consistent(data, st) && ci < |data| && ai < |data[ci].authors| && Shown(data[ci])
    ensures var t := Tally(data[ci], ai, st); Consistent(data[ci := t.0], t.1)
  {
    var c := data[ci];
    assert CiteOk(c);
    TallyOk(c, ai, st);
    TallyCounts(c, ai, st);
    var t := Tally(c, ai, st);
    var data2 := data[ci := t.0];
    forall j | 0 <= j < |data2| ensures CiteOk(data2[j]) {
      if j != ci {
        assert data2[j] == data[j];
      }
    }
    Seqs.SumByUpdate(data, ci, t.0, NumAuthors);
    Seqs.SumByUpdate(data, ci, t.0, Processed);
    Seqs.CountUpdate(data, ci, t.0, Completed);
    Seqs.CountUpdate(data, ci, t.0, Skipped);
    Seqs.CountUpdate(data, ci, t.0, Modified);
  }

  /** Skipping a shown citation keeps the invariant. */
  lemma SkippingKeeps(s: Screen, ci: nat)
    requires Consistent(s.data, s.stats) && ci < |s.data| && Shown(s.data[ci])
    ensures var r := Skipping(s, ci); Consistent(r.data, r.stats)
  {
    var c := s.data[ci];
    assert CiteOk(c);
    var c2 := c.(skipped := true);
    Seqs.SumByUpdate(s.data, ci, c2, NumAuthors);
    Seqs.SumByUpdate(s.data, ci, c2, Processed);
    Seqs.CountUpdate(s.data, ci, c2, Completed);
    Seqs.CountUpdate(s.data, ci, c2, Skipped);
    Seqs.CountUpdate(s.data, ci, c2, Modified);
    var data2 := s.data[ci := c2];
    forall j | 0 <= j < |data2| ensures CiteOk(data2[j]) {
      if j != ci {
        assert data2[j] == s.data[j];
      }
    }
  }

  /** A record is finished, completed or skipped, and never both, so the finished
      records are counted by the two counters together. */
  lemma {:induction false} FinishedCount(data: seq<Cite>)
    requires forall i :: 0 <= i < |data| ==> CiteOk(data[i])
    ensures Seqs.Count(data, Completed) + Seqs.Count(data, Skipped) == Seqs.Count(data, Finished)
  {
    if |data| > 0 {
      assert forall i :: 0 <= i < |data| - 1 ==> data[1..][i] == data[i + 1];
      FinishedCount(data[1..]);
      assert CiteOk(data[0]);
    }
  }

  /** `is_all_completed` holds exactly when every citation is completed or skipped. */
  lemma AllCompletedIff(data: seq<Cite>, st: Stats)
    requires Consistent(data, st)
    ensures st.completedCitations + st.skippedCitations >= st.totalCitations
            <==> forall i :: 0 <= i < |data| ==> data[i].completed || data[i].skipped
  {
    FinishedCount(data);
    Seqs.CountAll(data, Finished);
  }

  /** `is_all_completed`. */
  predicate AllCompleted(st: Stats) {
    st.completedCitations + st.skippedCitations >= st.totalCitations
  }

  class App {
    /** The edit box `#wpTextbox1`; the user may change it while the dialog is open. */
    var textbox: string
    /** The summary box `#wpSummary`. */
    var summary: string
    var wikitext: string
    var data: seq<Cite>
    var stats: Stats
    /** `show_dialog`. */
    var open: bool
    /** `parse_authors`. */
    const extract: string -> seq<Citations.Candidate>

    ghost predicate Valid()
      reads this
    {
      Consistent(data, stats)
    }

    function Snapshot(): Screen
      reads this
    {
      Screen(textbox, summary, wikitext, data, stats)
    }

    /** `mount_fresh_app`: a new app with empty data and zero counters. */
    constructor(textbox: string, summary: string)
      ensures Valid() && extract == ParseAuthors
      ensures this.textbox == textbox && this.summary == summary && wikitext == ""
      ensures data == [] && stats == NoStats && !open
    {
      extract := ParseAuthors;
      this.textbox := textbox;
      this.summary := summary;
      wikitext := "";
      data := [];
      stats := NoStats;
      open := false;
    }

    /** `init` on a freshly mounted app: read the edit box and parse it; with no
        citation to link the dialog stays closed and the counters stay zero,
        otherwise the totals are set and the dialog opens. */
    method Init()
      requires Valid() && stats == NoStats && !open
      modifies this
      ensures Valid() && wikitext == textbox && textbox == old(textbox) && summary == old(summary)
      ensures data == ParseCitations(Citations.FindCitations(textbox), extract)
      ensures open <==> |data| > 0
      ensures stats == if |data| == 0 then NoStats else Fresh(data)
    {
      wikitext := textbox;
      var cs := Citations.FindCitations(wikitext);
      ParseCitationsFresh(cs, extract);
      Load(ParseCitations(cs, extract));
    }

    /** The rest of `init` once the records are parsed. */
    method Load(items: seq<Cite>)
      requires stats == NoStats && !open && AllUntouched(items, extract)
      modifies this
      ensures Valid() && data == items && (open <==> |items| > 0)
      ensures stats == if |items| == 0 then NoStats else Fresh(items)
      ensures textbox == old(textbox) && summary == old(summary) && wikitext == old(wikitext)
    {
      data := items;
      FreshConsistent(data, extract);
      if |data| == 0 {
        return;
      }
      stats := Fresh(data);
      open := true;
    }

    /** `select_candidate` on a shown author row: a search result or a non-empty
        typed title (the Apply button is disabled for an empty input). */
    method Select(ci: nat, ai: nat, title: string)
      requires Valid() && ci < |data| && ai < |data[ci].authors| && Shown(data[ci])
      modifies this
      ensures Valid() && Snapshot() == Selected(old(Snapshot()), ci, ai, title) && open == old(open)
    {
      var s0 := Snapshot();
      SelectedKeeps(s0, ci, ai, title);
      Store(Selected(s0, ci, ai, title));
    }

    /** Stores a screen state the handlers computed. */
    method Store(r: Screen)
      requires Consistent(r.data, r.stats)
      modifies this
      ensures Valid() && Snapshot() == r && open == old(open)
    {
      textbox, summary, wikitext, data, stats := r.textbox, r.summary, r.wikitext, r.data, r.stats;
    }

    /** `skip_citation` on a shown citation. */
    method Skip(ci: nat)
      requires Valid() && ci < |data| && Shown(data[ci])
      modifies this
      ensures Valid() && Snapshot() == Skipping(old(Snapshot()), ci) && open == old(open)
    {
      SkippingKeeps(Snapshot(), ci);
      data := data[ci := data[ci].(skipped := true)];
      stats := stats.(skippedCitations := stats.skippedCitations + 1);
    }

    /** `is_all_completed`: no citation is left to show. */
    function IsAllCompleted(): (b: bool)
      reads this
      requires Valid()
      ensures b <==> forall i :: 0 <= i < |data| ==> data[i].completed || data[i].skipped
    {
      AllCompletedIff(data, stats);
      AllCompleted(stats)
    }
  }
}
