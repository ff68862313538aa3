/** The author-link.js panel: `process_citations` collects the citations that have
    authors to link, and the Select, Apply (typed title) and Skip buttons rewrite the
    edit box, advance the per-citation and global counters and merge the edit
    summary. The panel's markup is modelled only as far as the handlers depend on
    it: which author rows of a citation are still on screen. */
module AuthorLink {
  import opened JsStrings
  import Seqs
  import Citations
  import EditSummary
  import ApplyLink

  /** One entry of `citation_data`. */
  datatype Item = Item(citation: string, authors: seq<Citations.Candidate>, processed: nat, modified: bool)

  /** What the panel still shows of one citation: the positions in `authors` whose
      rows have not been answered, and whether Skip emptied it. */
  datatype Row = Row(pending: set<nat>, skipped: bool)

  /** `completion_stats`. */
  datatype Stats = Stats(totalAuthors: nat, completedAuthors: nat, totalCitations: nat,
                         skippedCitations: nat, completedCitations: nat, modifiedCitations: nat)

  const NoStats := Stats(0, 0, 0, 0, 0, 0)

  /** `extract_authors` of author-link.js, which keeps names of more than two
      characters. */
  function ExtractAuthors(c: string): seq<Citations.Candidate> { Citations.Candidates(c, 2) }

  /** The record `process_citations` makes for one citation. */
  function NewItem(c: string, extract: string -> seq<Citations.Candidate>): Item {
    Item(c, extract(c), 0, false)
  }

  /** The `map` and `filter` of `process_citations`, with `extract` the author
      extraction. */
  function MakeItems(cs: seq<string>, extract: string -> seq<Citations.Candidate>): (r: seq<Item>)
    ensures |r| <= |cs|
  {
    if |cs| == 0 then []
    else (if |extract(cs[0])| > 0 then [NewItem(cs[0], extract)] else []) + MakeItems(cs[1..], extract)
  }

  /** Each record holds its citation's authors, at least one, none answered yet. */
  predicate AllFresh(r: seq<Item>, extract: string -> seq<Citations.Candidate>) {
    forall i :: 0 <= i < |r| ==> r[i] == NewItem(r[i].citation, extract) && |r[i].authors| > 0
  }

  lemma {:induction false} MakeItemsFresh(cs: seq<string>, extract: string -> seq<Citations.Candidate>)
    ensures AllFresh(MakeItems(cs, extract), extract)
  {
    if |cs| > 0 {
      MakeItemsFresh(cs[1..], extract);
      var t := MakeItems(cs[1..], extract);
      var h: seq<Item> := if |extract(cs[0])| > 0 then [NewItem(cs[0], extract)] else [];
      assert MakeItems(cs, extract) == h + t;
      assert AllFresh(h, extract);
      forall i | 0 <= i < |h + t| ensures (h + t)[i] == NewItem((h + t)[i].citation, extract) && |(h + t)[i].authors| > 0 {
        if i >= |h| {
          assert (h + t)[i] == t[i - |h|];
        }
      }
    }
  }

  /** Fresh records: at least one author each, nothing answered. */
  lemma ItemsUntouched(cs: seq<string>, extract: string -> seq<Citations.Candidate>) returns (r: seq<Item>)
    ensures r == MakeItems(cs, extract)
    ensures forall i :: 0 <= i < |r| ==> |r[i].authors| > 0 && r[i].processed == 0 && !r[i].modified
  {
    MakeItemsFresh(cs, extract);
    r := MakeItems(cs, extract);
  }

  /** The citations of the records, in order. */
  function CitationsOf(items: seq<Item>): (r: seq<string>)
    ensures |r| == |items| && forall i :: 0 <= i < |r| ==> r[i] == items[i].citation
  {
    seq(|items|, i requires 0 <= i < |items| => items[i].citation)
  }

  /** The `filter` test of `process_citations`. */
  function Linkable(extract: string -> seq<Citations.Candidate>): string -> bool {
    c => |extract(c)| > 0
  }

  /** The records are made for exactly the citations with at least one author to
      link, in the order they were found. */
  lemma {:induction false} MakeItemsFilter(cs: seq<string>, extract: string -> seq<Citations.Candidate>)
    ensures CitationsOf(MakeItems(cs, extract)) == Seqs.Filter(cs, Linkable(extract))
  {
    if |cs| > 0 {
      MakeItemsFilter(cs[1..], extract);
      var p := Linkable(extract);
      var t := MakeItems(cs[1..], extract);
      var ft := Seqs.Filter(cs[1..], p);
      assert CitationsOf(t) == ft;
      if |extract(cs[0])| > 0 {
        var it := NewItem(cs[0], extract);
        assert p(cs[0]);
        assert Seqs.Filter(cs, p) == [cs[0]] + ft;
        assert MakeItems(cs, extract) == [it] + t;
        ConsCitations(it, t);
      } else {
        assert !p(cs[0]);
        assert Seqs.Filter(cs, p) == [] + ft == ft;
        assert MakeItems(cs, extract) == [] + t == t;
      }
    }
  }

  lemma ConsCitations(it: Item, t: seq<Item>)
    ensures CitationsOf([it] + t) == [it.citation] + CitationsOf(t)
  {
  }

  function NumAuthors(it: Item): nat { |it.authors| }
  function Processed(it: Item): nat { it.processed }
  predicate Completed(it: Item) { it.processed >= |it.authors| }
  predicate Modified(it: Item) { it.modified }
  predicate Skipped(r: Row) { r.skipped }
  predicate Emptied(r: Row) { r.pending == {} }

  /** A record agrees with its rows: each unanswered author has a row; a skipped
      citation shows none and was left unfinished; otherwise answered and unanswered
      authors add up to all of them; the record is marked modified once an author
      was answered. */
  ghost predicate RowOk(it: Item, r: Row) {
    && |it.authors| > 0
    && (forall a :: a in r.pending ==> a < |it.authors|)
    && (it.modified <==> it.processed > 0)
    && (if r.skipped then r.pending == {} && it.processed < |it.authors|
        else it.processed + |r.pending| == |it.authors|)
  }

  /** The counters summarise the records. */
  ghost predicate StatsOk(st: Stats, data: seq<Item>, rows: seq<Row>) {
    && st.totalCitations == |data|
    && st.totalAuthors == Seqs.SumBy(data, NumAuthors)
    && st.completedAuthors == Seqs.SumBy(data, Processed)
    && st.completedCitations == Seqs.Count(data, Completed)
    && st.skippedCitations == Seqs.Count(rows, Skipped)
  }

  /** The panel invariant. `modified_citations` is never reset, so it also counts
      the `earlier` citations modified in previous runs. */
  ghost predicate Consistent(data: seq<Item>, rows: seq<Row>, st: Stats, earlier: nat) {
    && |rows| == |data|
    && (forall i :: 0 <= i < |data| ==> RowOk(data[i], rows[i]))
    && (|data| > 0 ==> StatsOk(st, data, rows))
    && st.modifiedCitations == earlier + Seqs.Count(data, Modified)
  }

  /** The counters `process_citations` sets for a non-empty list; the modified
      count is kept. */
  function Fresh(st: Stats, data: seq<Item>): Stats {
    st.(totalCitations := |data|, totalAuthors := Seqs.SumBy(data, NumAuthors),
        completedAuthors := 0, completedCitations := 0, skippedCitations := 0)
  }

  /** The positions `0 .. n - 1`. */
  function AllRows(n: nat): (r: set<nat>)
    ensures forall a: nat :: a in r <==> a < n
    ensures |r| == n
  {
    if n == 0 then {} else AllRows(n - 1) + {n - 1}
  }

  /** `populate_panel`: one row per author of each citation. */
  function FreshRows(data: seq<Item>): (r: seq<Row>)
    ensures |r| == |data|
  {
    seq(|data|, i requires 0 <= i < |data| => Row(AllRows(|data[i].authors|), false))
  }

  /** A freshly built panel satisfies the invariant. */
  lemma FreshConsistent(data: seq<Item>, st: Stats, earlier: nat)
    requires forall i :: 0 <= i < |data| ==> |data[i].authors| > 0 && data[i].processed == 0 && !data[i].modified
    requires st.modifiedCitations == earlier
    ensures Consistent(data, FreshRows(data), if |data| == 0 then st else Fresh(st, data), earlier)
  {
    var rows := FreshRows(data);
    assert forall i :: 0 <= i < |data| ==> RowOk(data[i], rows[i]);
    Seqs.SumByZero(data, Processed);
    Seqs.CountNone(data, Completed);
    Seqs.CountNone(data, Modified);
    Seqs.CountNone(rows, Skipped);
  }

  /** What `apply_link` leaves: the edit box and the stored citation, both
      unchanged when the box no longer holds the citation. Both `replace` calls
      are taken as written, `$` sequences and all. */
  function Link(text: string, c: string, num: string, title: string): (r: (string, string))
    ensures !Contains(text, c) ==> r == (text, c)
    ensures Contains(text, c) ==>
              r.1 == ApplyLink.AppendAsWritten(c, num, title) && Some(r.0) == ApplyLink.ApplyAsWritten(text, c, r.1)
  {
    var u := ApplyLink.AppendAsWritten(c, num, title);
    match ApplyLink.ApplyAsWritten(text, c, u)
    case Some(t) => (t, u)
    case None => (text, c)
  }

  /** With no `$` in the citation or the title (the author numbers are digits),
      `apply_link` inserts the parameter literally and puts the new citation in
      place of the first occurrence of the old one, so the box holds it. */
  lemma LinkLiteral(text: string, c: string, num: string, title: string)
    requires ApplyLink.AllDigits(num) && '$' !in title && '$' !in c && Contains(text, c)
    ensures var r := Link(text, c, num, title);
            var k := IndexOf(text, c).value;
            && r.1 == ApplyLink.Append(c, num, title)
            && r.0 == text[..k] + r.1 + text[k + |c|..]
            && Contains(r.0, r.1)
  {
    var u := ApplyLink.Append(c, num, title);
    ApplyLink.AppendAgrees(c, num, title);
    ApplyLink.AppendHasNoDollar(c, num, title);
    ApplyLink.ApplyAgrees(text, c, u);
    var k := IndexOf(text, c).value;
    ContainsMiddle(text[..k], u, text[k + |c|..]);
  }

  /** The record after one of its authors is answered. */
  function Step(it: Item, c: string): (r: Item)
    ensures r.citation == c && r.authors == it.authors && r.processed == it.processed + 1 && r.modified
  {
    it.(citation := c, processed := it.processed + 1, modified := true)
  }

  /** The counters after an author of `it` is answered: one more author done, the
      citation counted as modified the first time, and as completed once as many
      authors were answered as it has. */
  function Answer(st: Stats, it: Item): Stats {
    st.(completedAuthors := st.completedAuthors + 1,
        modifiedCitations := if it.modified then st.modifiedCitations else st.modifiedCitations + 1,
        completedCitations := if it.processed + 1 >= |it.authors| then st.completedCitations + 1
                              else st.completedCitations)
  }

  /** Answering an unanswered author keeps the invariant. */
  lemma AnswerKeeps(data: seq<Item>, rows: seq<Row>, st: Stats, earlier: nat, ci: nat, ai: nat, c: string)
    requires Consistent(data, rows, st, earlier) && ci < |data| && ai in rows[ci].pending
    ensures Consistent(data[ci := Step(data[ci], c)], rows[ci := Row(rows[ci].pending - {ai}, false)],
                       Answer(st, data[ci]), earlier)
  {
    var it := data[ci];
    var r := rows[ci];
    var it2 := Step(it, c);
    var r2 := Row(r.pending - {ai}, false);
    assert RowOk(it, r);
    assert r.pending == r2.pending + {ai};
    assert RowOk(it2, r2);
    var data2 := data[ci := it2];
    var rows2 := rows[ci := r2];
    forall i | 0 <= i < |data2| ensures RowOk(data2[i], rows2[i]) {
      if i != ci {
        assert data2[i] == data[i] && rows2[i] == rows[i];
      }
    }
    Seqs.SumByUpdate(data, ci, it2, NumAuthors);
    Seqs.SumByUpdate(data, ci, it2, Processed);
    Seqs.CountUpdate(data, ci, it2, Completed);
    Seqs.CountUpdate(data, ci, it2, Modified);
    Seqs.CountUpdate(rows, ci, r2, Skipped);
    var st2 := Answer(st, it);
    assert st2.totalCitations == |data2|;
    assert st2.totalAuthors == Seqs.SumBy(data2, NumAuthors);
    assert st2.completedAuthors == Seqs.SumBy(data2, Processed);
    assert st2.completedCitations == Seqs.Count(data2, Completed);
    assert st2.skippedCitations == Seqs.Count(rows2, Skipped);
    assert st2.modifiedCitations == earlier + Seqs.Count(data2, Modified);
  }

  /** Skipping a citation that still shows rows keeps the invariant. */
  lemma SkipKeeps(data: seq<Item>, rows: seq<Row>, st: Stats, earlier: nat, ci: nat)
    requires Consistent(data, rows, st, earlier) && ci < |data| && rows[ci].pending != {}
    ensures Consistent(data, rows[ci := Row({}, true)],
                       st.(skippedCitations := st.skippedCitations + 1), earlier)
  {
    assert RowOk(data[ci], rows[ci]);
    assert |rows[ci].pending| > 0;
    Seqs.CountUpdate(rows, ci, Row({}, true), Skipped);
  }

  /** A citation is finished, that is shows no rows, exactly when it was completed
      or skipped, and never both. */
  lemma {:induction false} FinishedCount(data: seq<Item>, rows: seq<Row>)
    requires |rows| == |data| && forall i :: 0 <= i < |data| ==> RowOk(data[i], rows[i])
    ensures Seqs.Count(data, Completed) + Seqs.Count(rows, Skipped) == Seqs.Count(rows, Emptied)
  {
    if |data| > 0 {
      assert forall i :: 0 <= i < |data| - 1 ==> data[1..][i] == data[i + 1] && rows[1..][i] == rows[i + 1];
      FinishedCount(data[1..], rows[1..]);
      assert RowOk(data[0], rows[0]);
    }
  }

  /** The panel's all-done test holds exactly when no citation shows a row. */
  lemma DoneIff(data: seq<Item>, rows: seq<Row>, st: Stats, earlier: nat)
    requires Consistent(data, rows, st, earlier) && |data| > 0
    ensures st.completedCitations + st.skippedCitations >= st.totalCitations
            <==> forall i :: 0 <= i < |rows| ==> rows[i].pending == {}
  {
    FinishedCount(data, rows);
    Seqs.CountAll(rows, Emptied);
  }

  /** The panel's state that the handlers read and write. */
  datatype Screen = Screen(textbox: string, summary: string, wikitext: string,
                           data: seq<Item>, rows: seq<Row>, stats: Stats)

  /** The state after author `ai` of citation `ci` is answered with `title`:
      `apply_link` rewrites the edit box, the text and the stored citation (or
      nothing when the box no longer holds it), the row goes, the counters
      advance whether or not the link was applied, and the summary is merged the
      first time the citation is modified. */
  function Answered(s: Screen, ci: nat, ai: nat, title: string): (r: Screen)
    requires ci < |s.data| && ci < |s.rows| && ai < |s.data[ci].authors|
    ensures |r.data| == |s.data| && |r.rows| == |s.rows| && ai !in r.rows[ci].pending
    ensures r.stats.completedAuthors == s.stats.completedAuthors + 1
    ensures !Contains(s.textbox, s.data[ci].citation) ==>
              r.textbox == s.textbox && r.wikitext == s.wikitext && r.data[ci].citation == s.data[ci].citation
  {
    var it := s.data[ci];
    var lk := Link(s.textbox, it.citation, it.authors[ai].num, title);
    var st := Answer(s.stats, it);
    Screen(lk.0, if it.modified then s.summary else EditSummary.Update(s.summary, st.modifiedCitations),
           if Contains(s.textbox, it.citation) then lk.0 else s.wikitext,
           s.data[ci := Step(it, lk.1)], s.rows[ci := Row(s.rows[ci].pending - {ai}, false)], st)
  }

  /** Answering a shown author keeps the invariant. */
  lemma AnsweredKeeps(s: Screen, earlier: nat, ci: nat, ai: nat, title: string)
    requires Consistent(s.data, s.rows, s.stats, earlier) && ci < |s.data| && ai in s.rows[ci].pending
    ensures ai < |s.data[ci].authors|
    ensures var r := Answered(s, ci, ai, title); Consistent(r.data, r.rows, r.stats, earlier)
  {
    assert RowOk(s.data[ci], s.rows[ci]);
    var it := s.data[ci];
    var lk := Link(s.textbox, it.citation, it.authors[ai].num, title);
    AnswerKeeps(s.data, s.rows, s.stats, earlier, ci, ai, lk.1);
  }

  class Panel {
    /** The edit box `#wpTextbox1`; the user may change it at any time. */
    var textbox: string
    /** The summary box `#wpSummary`. */
    var summary: string
    var wikitext: string
    var data: seq<Item>
    var rows: seq<Row>
    var stats: Stats
    ghost var modifiedEarlier: nat
    /** `this.extract_authors`. */
    const extract: string -> seq<Citations.Candidate>

    ghost predicate Valid()
      reads this
    {
      Consistent(data, rows, stats, modifiedEarlier)
    }

    constructor(textbox: string, summary: string)
      ensures Valid()
      ensures this.textbox == textbox && this.summary == summary && extract == ExtractAuthors
      ensures wikitext == "" && data == [] && rows == [] && stats == NoStats
    {
      extract := ExtractAuthors;
      this.textbox := textbox;
      this.summary := summary;
      wikitext := "";
      data := [];
      rows := [];
      stats := NoStats;
      modifiedEarlier := 0;
    }

    /** What `process_citations` leaves: the records of the citations with authors
        to link, every author row shown, and (when there is any) the counters
        reset except the modified count. With no such citation the counters are
        kept. */
    twostate predicate Loaded()
      reads this
    {
      && data == MakeItems(Citations.FindCitations(wikitext), extract)
      && rows == FreshRows(data)
      && stats == (if |data| == 0 then old(stats) else Fresh(old(stats), data))
      && textbox == old(textbox) && summary == old(summary)
    }

    method ProcessCitations()
      requires Valid()
      modifies this
      ensures Valid() && Loaded() && wikitext == old(wikitext)
    {
      var cs := Citations.FindCitations(wikitext);
      ghost var items := ItemsUntouched(cs, extract);
      Show(MakeItems(cs, extract));
    }

    /** The rest of `process_citations` once the records are made: the early
        return on an empty list, else the counters and the panel. */
    method Show(items: seq<Item>)
      requires Valid()
      requires forall i :: 0 <= i < |items| ==> |items[i].authors| > 0 && items[i].processed == 0 && !items[i].modified
      modifies this
      ensures Valid() && data == items && rows == FreshRows(items)
      ensures stats == (if |items| == 0 then old(stats) else Fresh(old(stats), items))
      ensures textbox == old(textbox) && summary == old(summary) && wikitext == old(wikitext)
    {
      data := items;
      rows := FreshRows(data);
      modifiedEarlier := stats.modifiedCitations;
      FreshConsistent(data, stats, modifiedEarlier);
      if |data| == 0 {
        return;
      }
      stats := Fresh(stats, data);
    }

    /** `start`: read the edit box, then `process_citations`. */
    method Start()
      requires Valid()
      modifies this
      ensures Valid() && Loaded() && wikitext == old(textbox)
    {
      wikitext := textbox;
      ProcessCitations();
    }

    function Snapshot(): Screen
      reads this
    {
      Screen(textbox, summary, wikitext, data, rows, stats)
    }

    /** `handle_select_click` on a shown author row. */
    method Select(ci: nat, ai: nat, title: string)
      requires Valid() && ci < |data| && ai in rows[ci].pending
      modifies this
      ensures ci < old(|data|) && ai < old(|data[ci].authors|)
      ensures Valid() && Snapshot() == Answered(old(Snapshot()), ci, ai, title)
    {
      var s0 := Snapshot();
      AnsweredKeeps(s0, modifiedEarlier, ci, ai, title);
      Store(Answered(s0, ci, ai, title));
    }

    /** Stores a screen state the handlers computed. */
    method Store(r: Screen)
      requires Consistent(r.data, r.rows, r.stats, modifiedEarlier)
      modifies this
      ensures Valid() && Snapshot() == r && modifiedEarlier == old(modifiedEarlier)
    {
      textbox, summary, wikitext, data, rows, stats := r.textbox, r.summary, r.wikitext, r.data, r.rows, r.stats;
    }

    /** `handle_manual_click`: the typed title is trimmed; an empty one changes
        nothing, any other is applied as Select does. */
    method Manual(ci: nat, ai: nat, input: string)
      requires Valid() && ci < |data| && ai in rows[ci].pending
      modifies this
      ensures Valid()
      ensures Trim(input) == [] ==> unchanged(this)
      ensures Trim(input) != [] ==> Snapshot() == Answered(old(Snapshot()), ci, ai, Trim(input))
    {
      var title := Trim(input);
      if title == [] {
        return;
      }
      Select(ci, ai, title);
    }

    /** `handle_skip_click` on a citation that still shows rows. */
    method Skip(ci: nat)
      requires Valid() && ci < |data| && rows[ci].pending != {}
      modifies this
      ensures Valid()
      ensures rows == old(rows)[ci := Row({}, true)]
      ensures stats == old(stats).(skippedCitations := old(stats.skippedCitations) + 1)
      ensures data == old(data) && textbox == old(textbox) && wikitext == old(wikitext)
      ensures summary == old(summary)
    {
      SkipKeeps(data, rows, stats, modifiedEarlier, ci);
      stats := stats.(skippedCitations := stats.skippedCitations + 1);
      rows := rows[ci := Row({}, true)];
    }

    /** `update_title_count`'s test for "You're all done!": it holds exactly when
        no citation on the panel has a row left. */
    function AllDone(): (b: bool)
      reads this
      requires Valid()
      ensures |data| > 0 ==> (b <==> forall i :: 0 <= i < |rows| ==> rows[i].pending == {})
    {
      if |data| > 0 then DoneIff(data, rows, stats, modifiedEarlier); Done(stats) else Done(stats)
    }
  }

  predicate Done(st: Stats) { st.completedCitations + st.skippedCitations >= st.totalCitations }
}
