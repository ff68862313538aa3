/** The AINB tracking-subpage helper: a user's article contributions grouped by
    page, a checkbox per edit and a tri-state checkbox per article and for the
    whole list, and the `{{AIC article list}}` report built from the selection. */
module AinbHelper {
  import opened JsStrings
  import JsObjects
  import Seqs

  /** One contribution as `list=usercontribs` returns it. */
  datatype Contrib = Contrib(revid: nat, title: string, sizediff: Option<int>, tags: Option<seq<string>>)

  /** A contribution in an article card, with its checkbox. */
  datatype Edit = Edit(contrib: Contrib, selected: bool)

  /** An article card: its edits and the checkbox state derived from them. */
  datatype Group = Group(title: string, edits: seq<Edit>, selectedCount: nat, allSelected: bool, someSelected: bool)

  predicate IsSelected(e: Edit) { e.selected }

  // ---------------------------------------------------------------------------
  // The per-article checkbox

  /** `updateGroupSelection(group)`: the three fields recomputed from the edits. */
  function UpdateSelection(g: Group): (r: Group)
    ensures r.title == g.title && r.edits == g.edits
  {
    var n := Seqs.Count(g.edits, IsSelected);
    g.(selectedCount := n, allSelected := n == |g.edits|, someSelected := n > 0 && n < |g.edits|)
  }

  /** The card's checkbox state agrees with its edits. */
  predicate Synced(g: Group) { UpdateSelection(g) == g }

  /** The tri-state checkbox read off the edits themselves: checked when every
      edit is, indeterminate when some but not all are. */
  ghost predicate TriState(g: Group) {
    && g.selectedCount == Seqs.Count(g.edits, IsSelected)
    && (g.allSelected <==> forall i :: 0 <= i < |g.edits| ==> g.edits[i].selected)
    && (g.someSelected <==>
          (exists i :: 0 <= i < |g.edits| && g.edits[i].selected)
          && (exists j :: 0 <= j < |g.edits| && !g.edits[j].selected))
  }

  lemma SyncedTriState(g: Group)
    requires Synced(g)
    ensures TriState(g)
  {
    Seqs.CountAll(g.edits, IsSelected);
    Seqs.CountNone(g.edits, IsSelected);
  }

  /** The recomputed card is in the tri-state, and recomputing again changes nothing. */
  lemma UpdateSelectionTriState(g: Group)
    ensures Synced(UpdateSelection(g)) && TriState(UpdateSelection(g))
  {
    SyncedTriState(UpdateSelection(g));
  }

  /** The edits with every checkbox set to `v`. */
  function WithSelection(es: seq<Edit>, v: bool): (r: seq<Edit>)
    ensures |r| == |es|
  {
    seq(|es|, i requires 0 <= i < |es| => es[i].(selected := v))
  }

  lemma WithSelectionCount(es: seq<Edit>, v: bool)
    ensures Seqs.Count(WithSelection(es, v), IsSelected) == if v then |es| else 0
  {
    var r := WithSelection(es, v);
    if v {
      Seqs.CountAll(r, IsSelected);
    } else {
      Seqs.CountNone(r, IsSelected);
    }
  }

  /** `group.edits.forEach((e) => (e.selected = v))`. */
  method SelectEvery(es: seq<Edit>, v: bool) returns (r: seq<Edit>)
    ensures r == WithSelection(es, v)
  {
    r := es;
    var i := 0;
    while i < |es|
      invariant 0 <= i <= |es| && |r| == |es|
      invariant forall k :: 0 <= k < i ==> r[k] == es[k].(selected := v)
      invariant forall k :: i <= k < |es| ==> r[k] == es[k]
    {
      r := r[i := r[i].(selected := v)];
      i := i + 1;
    }
  }

  /** `toggleArticle(group)`: every edit takes the negation of the card's checkbox. */
  function Toggled(g: Group): (r: Group)
    ensures r.title == g.title && |r.edits| == |g.edits|
    ensures forall i :: 0 <= i < |r.edits| ==>
              r.edits[i].contrib == g.edits[i].contrib && r.edits[i].selected == !g.allSelected
  {
    UpdateSelection(g.(edits := WithSelection(g.edits, !g.allSelected)))
  }

  /** Toggling a checked card clears it and toggling an unchecked or indeterminate
      one checks it; the contributions stay as they were. */
  lemma ToggledFlips(g: Group)
    requires Synced(g) && |g.edits| > 0
    ensures var r := Toggled(g);
      && r.allSelected == !g.allSelected && !r.someSelected
      && r.selectedCount == (if g.allSelected then 0 else |g.edits|)
      && |r.edits| == |g.edits|
      && forall i :: 0 <= i < |r.edits| ==>
           r.edits[i].contrib == g.edits[i].contrib && r.edits[i].selected == !g.allSelected
  {
    WithSelectionCount(g.edits, !g.allSelected);
  }

  // ---------------------------------------------------------------------------
  // The list-level computeds

  function SelectedCountOf(g: Group): nat { g.selectedCount }

  /** `totalSelectedDiffs`. */
  function TotalSelected(gs: seq<Group>): nat {
    Seqs.SumBy(gs, SelectedCountOf)
  }

  /** `allSelected`. */
  predicate AllSelectedOf(gs: seq<Group>) {
    |gs| > 0 && forall i :: 0 <= i < |gs| ==> gs[i].allSelected
  }

  /** `someSelected`. */
  predicate SomeSelectedOf(gs: seq<Group>) {
    exists i :: 0 <= i < |gs| && (gs[i].someSelected || gs[i].allSelected)
  }

  ghost predicate AllSynced(gs: seq<Group>) {
    forall i :: 0 <= i < |gs| ==> Synced(gs[i])
  }

  /** Every edit of every card, card by card. */
  function AllEdits(gs: seq<Group>): seq<Edit> {
    if |gs| == 0 then [] else gs[0].edits + AllEdits(gs[1..])
  }

  /** The total is the number of checked edits over all cards. */
  lemma {:induction false} TotalCountsSelected(gs: seq<Group>)
    requires AllSynced(gs)
    ensures TotalSelected(gs) == Seqs.Count(AllEdits(gs), IsSelected)
  {
    if |gs| > 0 {
      assert Synced(gs[0]);
      TotalCountsSelected(gs[1..]);
      Seqs.CountAppend(gs[0].edits, AllEdits(gs[1..]), IsSelected);
    }
  }

  /** "Select All" is checked exactly when there is a card and every edit of every
      card is checked. */
  lemma AllSelectedIff(gs: seq<Group>)
    requires AllSynced(gs)
    ensures AllSelectedOf(gs) <==>
      |gs| > 0 && forall i, j :: 0 <= i < |gs| && 0 <= j < |gs[i].edits| ==> gs[i].edits[j].selected
  {
    forall i | 0 <= i < |gs| {
      SyncedTriState(gs[i]);
    }
  }

  /** With no empty card, `someSelected` holds exactly when some edit is checked. */
  lemma SomeSelectedIff(gs: seq<Group>)
    requires AllSynced(gs)
    requires forall i :: 0 <= i < |gs| ==> |gs[i].edits| > 0
    ensures SomeSelectedOf(gs) <==>
      exists i, j :: 0 <= i < |gs| && 0 <= j < |gs[i].edits| && gs[i].edits[j].selected
  {
    forall i | 0 <= i < |gs| {
      SyncedTriState(gs[i]);
    }
  }

  /** Every card with every checkbox set to `v`, each card recomputed. */
  function SelectAllIn(gs: seq<Group>, v: bool): (r: seq<Group>)
    ensures |r| == |gs|
  {
    seq(|gs|, i requires 0 <= i < |gs| => UpdateSelection(gs[i].(edits := WithSelection(gs[i].edits, v))))
  }

  /** `toggleAll`: every edit takes the negation of "Select All". */
  function ToggledAll(gs: seq<Group>): (r: seq<Group>)
  {
    SelectAllIn(gs, !AllSelectedOf(gs))
  }

  /** Setting every checkbox keeps the cards and their contributions, and each
      card counts all or none of its edits. */
  lemma SelectAllInShape(gs: seq<Group>, v: bool)
    ensures var r := SelectAllIn(gs, v);
      forall i :: 0 <= i < |r| ==>
        && r[i].title == gs[i].title && |r[i].edits| == |gs[i].edits|
        && Synced(r[i])
        && r[i].selectedCount == (if v then |gs[i].edits| else 0)
        && (forall j :: 0 <= j < |r[i].edits| ==>
              r[i].edits[j].contrib == gs[i].edits[j].contrib && r[i].edits[j].selected == v)
  {
    var r := SelectAllIn(gs, v);
    forall i | 0 <= i < |r|
      ensures Synced(r[i]) && r[i].selectedCount == (if v then |gs[i].edits| else 0)
    {
      WithSelectionCount(gs[i].edits, v);
      UpdateSelectionTriState(gs[i].(edits := WithSelection(gs[i].edits, v)));
    }
  }

  /** When "Select All" is not checked, toggling it checks it. */
  lemma ToggleAllChecks(gs: seq<Group>)
    requires |gs| > 0 && !AllSelectedOf(gs)
    ensures AllSelectedOf(ToggledAll(gs))
  {
    SelectAllInShape(gs, true);
  }

  /** When "Select All" is checked, toggling it leaves no diff selected. */
  lemma ToggleAllClears(gs: seq<Group>)
    requires AllSelectedOf(gs)
    ensures TotalSelected(ToggledAll(gs)) == 0
    ensures !SomeSelectedOf(ToggledAll(gs)) || exists i :: 0 <= i < |gs| && |gs[i].edits| == 0
  {
    var r := ToggledAll(gs);
    SelectAllInShape(gs, false);
    Seqs.SumByZero(r, SelectedCountOf);
  }

  /** `articleGroups.value.forEach((g) => { ...; updateGroupSelection(g); })` with
      every checkbox set to `v`. */
  method SelectEach(gs: seq<Group>, v: bool) returns (r: seq<Group>)
    ensures r == SelectAllIn(gs, v)
  {
    r := gs;
    var i := 0;
    while i < |gs|
      invariant 0 <= i <= |gs| && |r| == |gs|
      invariant forall k :: 0 <= k < i ==> r[k] == SelectAllIn(gs, v)[k]
      invariant forall k :: i <= k < |gs| ==> r[k] == gs[k]
    {
      var es := SelectEvery(r[i].edits, v);
      r := r[i := UpdateSelection(r[i].(edits := es))];
      i := i + 1;
    }
  }

  /** The cards recomputed one by one. */
  function SyncAll(gs: seq<Group>): (r: seq<Group>)
    ensures |r| == |gs|
  {
    seq(|gs|, i requires 0 <= i < |gs| => UpdateSelection(gs[i]))
  }

  /** `articleGroups.value.forEach((g) => updateGroupSelection(g))`. */
  method UpdateEach(gs: seq<Group>) returns (r: seq<Group>)
    ensures r == SyncAll(gs)
  {
    r := gs;
    var i := 0;
    while i < |gs|
      invariant 0 <= i <= |gs| && |r| == |gs|
      invariant forall k :: 0 <= k < i ==> r[k] == UpdateSelection(gs[k])
      invariant forall k :: i <= k < |gs| ==> r[k] == gs[k]
    {
      r := r[i := UpdateSelection(r[i])];
      i := i + 1;
    }
  }

  // ---------------------------------------------------------------------------
  // Grouping the contributions

  /** Edits tagged `mw-reverted` are dropped; an edit without tags is kept. */
  predicate Kept(c: Contrib) {
    !(c.tags.Some? && "mw-reverted" in c.tags.value)
  }

  function NewGroup(title: string): Group {
    Group(title, [], 0, true, false)
  }

  function TitlesOf(cs: seq<Contrib>): (r: seq<string>)
    ensures |r| == |cs|
  {
    seq(|cs|, i requires 0 <= i < |cs| => cs[i].title)
  }

  function HasTitle(k: string): Contrib -> bool {
    (c: Contrib) => c.title == k
  }

  /** Every contribution as a checked edit. */
  function Stamp(cs: seq<Contrib>): (r: seq<Edit>)
    ensures |r| == |cs|
  {
    seq(|cs|, i requires 0 <= i < |cs| => Edit(cs[i], true))
  }

  /** The `forEach` callback: a new card the first time a title is seen, and the
      edit pushed onto its title's card. */
  function AddEdit(o: JsObjects.Obj<Group>, c: Contrib): (r: JsObjects.Obj<Group>)
    requires o.Valid()
    ensures r.Valid()
  {
    var g := if c.title in o.values then o.values[c.title] else NewGroup(c.title);
    JsObjects.Put(o, c.title, g.(edits := g.edits + [Edit(c, true)]))
  }

  /** The `groups` dictionary after `validEdits.forEach(...)` over `cs`. */
  function Grouped(cs: seq<Contrib>): (o: JsObjects.Obj<Group>)
    ensures o.Valid()
  {
    if |cs| == 0 then JsObjects.Empty() else AddEdit(Grouped(cs[..|cs| - 1]), cs[|cs| - 1])
  }

  lemma GroupedStep(cs: seq<Contrib>, i: nat)
    requires i < |cs|
    ensures Grouped(cs[..i + 1]) == AddEdit(Grouped(cs[..i]), cs[i])
  {
    assert cs[..i + 1][..i] == cs[..i];
  }

  /** The dictionary's keys are the titles in order of first appearance. */
  lemma {:induction false} GroupedKeys(cs: seq<Contrib>)
    ensures Grouped(cs).keys == Seqs.FirstOccurrences(TitlesOf(cs))
  {
    if |cs| > 0 {
      var init := cs[..|cs| - 1];
      var c := cs[|cs| - 1];
      GroupedKeys(init);
      assert TitlesOf(cs)[..|cs| - 1] == TitlesOf(init);
      Seqs.InFirstOccurrences(TitlesOf(init), c.title);
    }
  }

  /** No contribution before has a title that is not yet a key. */
  lemma AbsentTitle(cs: seq<Contrib>, k: string)
    requires k !in Grouped(cs).values
    ensures Seqs.Filter(cs, HasTitle(k)) == []
  {
    GroupedKeys(cs);
    Seqs.InFirstOccurrences(TitlesOf(cs), k);
    assert forall i :: 0 <= i < |cs| ==> !HasTitle(k)(cs[i]) by {
      forall i | 0 <= i < |cs| ensures cs[i].title != k {
        assert TitlesOf(cs)[i] == cs[i].title;
      }
    }
    Seqs.CountNone(cs, HasTitle(k));
    Seqs.CountFilter(cs, HasTitle(k));
  }

  /** The card of title `k` holds exactly the contributions with that title, in
      their order, each checked, with the initial checkbox state. */
  lemma {:induction false} GroupedEdits(cs: seq<Contrib>, k: string)
    requires k in Grouped(cs).values
    ensures Grouped(cs).values[k] == Group(k, Stamp(Seqs.Filter(cs, HasTitle(k))), 0, true, false)
  {
    var init := cs[..|cs| - 1];
    var c := cs[|cs| - 1];
    assert cs == init + [c];
    Seqs.FilterSnoc(init, c, HasTitle(k));
    var o := Grouped(init);
    if k != c.title {
      GroupedEdits(init, k);
    } else {
      if k in o.values {
        GroupedEdits(init, k);
      } else {
        AbsentTitle(init, k);
      }
      StampSnoc(Seqs.Filter(init, HasTitle(k)), c);
    }
  }

  lemma StampSnoc(cs: seq<Contrib>, c: Contrib)
    ensures Stamp(cs + [c]) == Stamp(cs) + [Edit(c, true)]
  {
  }

  /** The `forEach` that fills the dictionary. */
  method GroupContribs(cs: seq<Contrib>) returns (o: JsObjects.Obj<Group>)
    ensures o == Grouped(cs)
  {
    o := JsObjects.Empty();
    var i := 0;
    while i < |cs|
      invariant 0 <= i <= |cs| && o == Grouped(cs[..i])
    {
      GroupedStep(cs, i);
      o := AddEdit(o, cs[i]);
      i := i + 1;
    }
    assert cs[..i] == cs;
  }

  /** `articleGroups` after a fetch of `cs`: the reverted edits dropped, the rest
      grouped, the cards in `Object.values` order and each recomputed. */
  function ArticleGroups(cs: seq<Contrib>): (gs: seq<Group>)
    ensures forall i :: 0 <= i < |gs| ==>
              && gs[i].selectedCount == Seqs.Count(gs[i].edits, IsSelected)
              && (gs[i].allSelected <==> gs[i].selectedCount == |gs[i].edits|)
  {
    SyncAll(JsObjects.Values(Grouped(Seqs.Filter(cs, Kept))))
  }

  /** Every card of a fetch is in the tri-state. */
  lemma ArticleGroupsSynced(cs: seq<Contrib>)
    ensures AllSynced(ArticleGroups(cs))
  {
    var vs := JsObjects.Values(Grouped(Seqs.Filter(cs, Kept)));
    forall i | 0 <= i < |vs| ensures Synced(ArticleGroups(cs)[i]) {
      UpdateSelectionTriState(vs[i]);
    }
  }

  /** The reverted edits dropped, the dictionary filled, `Object.values` taken and
      every card recomputed. */
  method Arrange(cs: seq<Contrib>) returns (gs: seq<Group>)
    ensures gs == ArticleGroups(cs) && AllSynced(gs)
  {
    var valid := Seqs.Filter(cs, Kept);
    var o := GroupContribs(valid);
    gs := UpdateEach(JsObjects.Values(o));
    ArticleGroupsSynced(cs);
  }

  function GroupTitles(gs: seq<Group>): (r: seq<string>)
    ensures |r| == |gs|
  {
    seq(|gs|, i requires 0 <= i < |gs| => gs[i].title)
  }

  /** Each card is named by its key, holds every kept contribution with its title
      in order, all checked, and shows that in its checkbox. */
  lemma ArticleGroupsCards(cs: seq<Contrib>)
    ensures var gs := ArticleGroups(cs);
      var kept := Seqs.Filter(cs, Kept);
      forall i :: 0 <= i < |gs| ==>
        && Synced(gs[i]) && gs[i].allSelected && gs[i].selectedCount == |gs[i].edits|
        && gs[i].edits == Stamp(Seqs.Filter(kept, HasTitle(gs[i].title)))
  {
    var kept := Seqs.Filter(cs, Kept);
    var o := Grouped(kept);
    var vs := JsObjects.Values(o);
    var ks := JsObjects.OwnKeys(o);
    var gs := ArticleGroups(cs);
    forall i | 0 <= i < |gs|
      ensures && Synced(gs[i]) && gs[i].allSelected && gs[i].selectedCount == |gs[i].edits|
              && gs[i].edits == Stamp(Seqs.Filter(kept, HasTitle(gs[i].title)))
    {
      GroupedEdits(kept, ks[i]);
      UpdateSelectionTriState(vs[i]);
      Seqs.CountAll(vs[i].edits, IsSelected);
    }
  }

  /** The cards come in `Object.values` order of the titles as first seen. */
  lemma ArticleGroupsOrder(cs: seq<Contrib>)
    ensures GroupTitles(ArticleGroups(cs)) ==
            JsObjects.KeyOrder(Seqs.FirstOccurrences(TitlesOf(Seqs.Filter(cs, Kept))))
  {
    var kept := Seqs.Filter(cs, Kept);
    var o := Grouped(kept);
    var ks := JsObjects.OwnKeys(o);
    var gs := ArticleGroups(cs);
    GroupedKeys(kept);
    forall i | 0 <= i < |gs| ensures gs[i].title == ks[i] {
      GroupedEdits(kept, ks[i]);
    }
  }

  /** No two cards share a title. */
  lemma ArticleGroupsDistinct(cs: seq<Contrib>)
    ensures var gs := ArticleGroups(cs);
      forall i, j :: 0 <= i < j < |gs| ==> gs[i].title != gs[j].title
  {
    var kept := Seqs.Filter(cs, Kept);
    var o := Grouped(kept);
    var ks := JsObjects.OwnKeys(o);
    var gs := ArticleGroups(cs);
    ArticleGroupsOrder(cs);
    GroupedKeys(kept);
    Seqs.NoDuplicatesPermutation(ks, o.keys);
    assert GroupTitles(gs) == ks;
    forall i, j | 0 <= i < j < |gs| ensures gs[i].title != gs[j].title {
      assert GroupTitles(gs)[i] == gs[i].title && GroupTitles(gs)[j] == gs[j].title;
    }
  }

  /** The card of a kept contribution's title exists. */
  lemma KeptTitleHasCard(cs: seq<Contrib>, c: Contrib) returns (i: nat)
    requires c in cs && Kept(c)
    ensures i < |ArticleGroups(cs)| && ArticleGroups(cs)[i].title == c.title
  {
    var kept := Seqs.Filter(cs, Kept);
    var o := Grouped(kept);
    var ks := JsObjects.OwnKeys(o);
    ArticleGroupsOrder(cs);
    GroupedKeys(kept);
    Seqs.FilterHas(cs, c, Kept);
    var n :| 0 <= n < |kept| && kept[n] == c;
    assert TitlesOf(kept)[n] == c.title;
    Seqs.InFirstOccurrences(TitlesOf(kept), c.title);
    JsObjects.InOwnKeys(o, c.title);
    i :| 0 <= i < |ks| && ks[i] == c.title;
    assert GroupTitles(ArticleGroups(cs))[i] == c.title;
  }

  /** A kept contribution is a checked edit of the card of its title (and, titles
      being distinct, of no other card). */
  lemma KeptContribGrouped(cs: seq<Contrib>, c: Contrib)
    requires c in cs && Kept(c)
    ensures var gs := ArticleGroups(cs);
      exists i :: 0 <= i < |gs| && gs[i].title == c.title && Edit(c, true) in gs[i].edits
  {
    var kept := Seqs.Filter(cs, Kept);
    var gs := ArticleGroups(cs);
    var i := KeptTitleHasCard(cs, c);
    ArticleGroupsCards(cs);
    Seqs.FilterHas(cs, c, Kept);
    Seqs.FilterHas(kept, c, HasTitle(c.title));
    var f := Seqs.Filter(kept, HasTitle(c.title));
    var m :| 0 <= m < |f| && f[m] == c;
    assert gs[i].edits == Stamp(f);
    assert gs[i].edits[m] == Edit(c, true);
  }

  /** A reverted contribution is in no card. */
  lemma RevertedContribDropped(cs: seq<Contrib>, c: Contrib)
    requires !Kept(c)
    ensures var gs := ArticleGroups(cs);
      forall i, e :: 0 <= i < |gs| && e in gs[i].edits ==> e.contrib != c
  {
    var kept := Seqs.Filter(cs, Kept);
    var gs := ArticleGroups(cs);
    ArticleGroupsCards(cs);
    forall i, e | 0 <= i < |gs| && e in gs[i].edits ensures e.contrib != c {
      var f := Seqs.Filter(kept, HasTitle(gs[i].title));
      assert gs[i].edits == Stamp(f);
      var m :| 0 <= m < |Stamp(f)| && Stamp(f)[m] == e;
      assert e.contrib == f[m];
      assert f[m] in multiset(kept);
      var n :| 0 <= n < |kept| && kept[n] == f[m];
      assert Kept(kept[n]);
    }
  }

  // ---------------------------------------------------------------------------
  // The edit-count check before fetching

  datatype Gate = Proceed | Stop(message: string)

  const TooManyMessage: string := "Manually cancelled: User has too many edits."
  const NoContributionsMessage: string := "No contributions found in the specified period."
  const NoEditsMessage: string := "No edits found in the timeframe. Note: the username is case-sensitive."
  const FetchErrorPrefix: string := "Error fetching contributions: "

  /** `info.continue?.uccontinue ?? 0` for the one-contribution probe: the
      number 0 when the reply has no continuation (at most one edit in the
      period), otherwise the continuation token, a string of the form
      `timestamp|revid`. */
  datatype Count = NoContinue | Token(text: string)

  /** The numeric reading of a token (`ToNumber`): a plain decimal digit string
      reads as its value, and anything else, in particular every string holding
      a `|`, is NaN (`None`). */
  function TokenNumber(t: string): (r: Option<nat>)
    ensures r.Some? <==> |t| > 0 && forall k :: 0 <= k < |t| ==> IsDigit(t[k])
    ensures (exists k :: 0 <= k < |t| && t[k] == '|') ==> r.None?
  {
    if |t| > 0 && forall k :: 0 <= k < |t| ==> IsDigit(t[k]) then Some(DigitsValue(t)) else None
  }

  /** `count > 20000`: false for the number 0 and for a NaN reading. */
  predicate OverLimit(c: Count) {
    c.Token? && TokenNumber(c.text).Some? && TokenNumber(c.text).value > 20000
  }

  /** `!count`: the number 0 and the empty string are falsy. */
  predicate Falsy(c: Count) {
    c.NoContinue? || c.text == ""
  }

  /** The check before the paginated fetch, as written: over the limit the
      function returns whatever the confirmation dialog answers (with a
      message only when the user cancels); a falsy count stops with the
      "No edits" message. */
  function CountGate(count: Count, confirmed: bool): (r: Gate)
    ensures r == Proceed <==> !OverLimit(count) && !Falsy(count)
    ensures OverLimit(count) ==> r.message == (if confirmed then "" else TooManyMessage)
    ensures !OverLimit(count) && r.Stop? ==> r.message == NoEditsMessage
  {
    if OverLimit(count) then Stop(if confirmed then "" else TooManyMessage)
    else if Falsy(count) then Stop(NoEditsMessage)
    else Proceed
  }

  /** A real continuation token holds a `|`, so it reads as NaN: the
      confirmation is never asked for and the fetch goes ahead. */
  lemma TokenProceeds(t: string, confirmed: bool)
    requires exists k :: 0 <= k < |t| && t[k] == '|'
    ensures CountGate(Token(t), confirmed) == Proceed
  {
    var k :| 0 <= k < |t| && t[k] == '|';
    assert |t| > 0;
  }

  /** Without a continuation, that is with at most one edit in the period, the
      fetch stops with the "No edits found" message. */
  lemma NoContinueStops(confirmed: bool)
    ensures CountGate(NoContinue, confirmed) == Stop(NoEditsMessage)
  {
  }

  /** A count read as over 20000 stops the fetch whether or not the user
      confirms; the answer only decides the message. */
  lemma OverLimitStops(t: string, confirmed: bool)
    requires TokenNumber(t).Some? && TokenNumber(t).value > 20000
    ensures CountGate(Token(t), confirmed).Stop?
    ensures CountGate(Token(t), confirmed).message == "" <==> confirmed
  {
  }

  function TrackingTitle(date: string, user: string): string {
    "Wikipedia:WikiProject AI Cleanup/Noticeboard/" + date + " " + user
  }

  // ---------------------------------------------------------------------------
  // Size labels

  function BytesOr0(b: Option<int>): int {
    if b.Some? then b.value else 0
  }

  /** `formatBytes`: a missing size reads 0, a positive one gets a "+". */
  function FormatBytes(b: Option<int>): (r: string)
    ensures |r| > 0
  {
    var v := BytesOr0(b);
    if v > 0 then "+" + NatToString(v) else IntToString(v)
  }

  /** The label reads back as the size. */
  lemma FormatBytesParses(b: Option<int>)
    ensures ParseInt(FormatBytes(b)) == Some(BytesOr0(b))
  {
    var v := BytesOr0(b);
    var r := FormatBytes(b);
    if v > 0 {
      ParseIntOfSigned('+', v, r);
    } else if v < 0 {
      var n: nat := -v;
      ParseIntOfSigned('-', n, r);
    } else {
      ParseIntOfNat(0);
    }
  }

  /** The label starts with "+" exactly when the size is positive. */
  lemma FormatBytesPlus(b: Option<int>)
    ensures FormatBytes(b)[0] == '+' <==> BytesOr0(b) > 0
  {
    var v := BytesOr0(b);
    assert IsDigit(NatToString(if v < 0 then -v else v)[0]);
  }

  /** `getSizeClass`. */
  function SizeClass(b: Option<int>): (r: string)
    ensures r == "ainb-pos" <==> BytesOr0(b) > 0
    ensures r == "ainb-neg" <==> BytesOr0(b) < 0
    ensures r == "ainb-neu" <==> BytesOr0(b) == 0
  {
    var v := BytesOr0(b);
    if v > 0 then "ainb-pos" else if v < 0 then "ainb-neg" else "ainb-neu"
  }

  /** The colour follows the label's sign: green for "+", red for "-", grey otherwise. */
  lemma SizeClassMatchesLabel(b: Option<int>)
    ensures SizeClass(b) == "ainb-pos" <==> FormatBytes(b)[0] == '+'
    ensures SizeClass(b) == "ainb-neg" <==> FormatBytes(b)[0] == '-'
    ensures SizeClass(b) == "ainb-neu" <==> FormatBytes(b) == "0"
  {
    var v := BytesOr0(b);
    assert IsDigit(NatToString(if v < 0 then -v else v)[0]);
    if v == 0 {
      assert NatToString(0) == "0";
    } else {
      assert FormatBytes(b) != "0" by {
        assert DigitsValue("0") == 0;
      }
    }
  }

  /** `str.substr(0, len)`: a negative length takes nothing. */
  function Prefix(s: string, len: int): (r: string)
  {
    if len <= 0 then [] else if len >= |s| then s else s[..len]
  }

  /** `truncate(str, n)`: a string longer than `n` keeps its first `n - 1`
      characters and gains "..."; null or undefined read "". */
  function Truncate(str: Option<string>, n: int): (r: string)
    ensures str.None? ==> r == ""
    ensures str.Some? && |str.value| <= n ==> r == str.value
    ensures str.Some? && |str.value| > n ==>
      && EndsWith(r, "...") && |r| == (if n >= 1 then n - 1 else 0) + 3
      && StartsWith(str.value, r[..|r| - 3])
  {
    if str.Some? && |str.value| > n then Prefix(str.value, n - 1) + "..."
    else if str.Some? then str.value
    else ""
  }

  // ---------------------------------------------------------------------------
  // The report

  const ReportHeader: string :=
    "Relevant report and discussion may be viewable on the talk page.\n\n== Tracking list ==\n{{AIC article list|\n"
  const ReportFooter: string := "}}\n"

  /** `[[Special:Diff/<revid>|(<bytes>)]]`. */
  function DiffLink(e: Edit): string {
    "[[Special:Diff/" + NatToString(e.contrib.revid) + "|(" + FormatBytes(e.contrib.sizediff) + ")]]"
  }

  function Links(es: seq<Edit>): (r: seq<string>)
    ensures |r| == |es|
  {
    seq(|es|, i requires 0 <= i < |es| => DiffLink(es[i]))
  }

  function Noun(n: nat): string {
    if n > 1 then "edits" else "edit"
  }

  /** One `{{AIC article row}}` line. */
  function Row(g: Group): string {
    var n := |g.edits|;
    "{{AIC article row|article=" + g.title + "|status=requested|notes=" + NatToString(n) + " " + Noun(n) + ": "
      + Join(Links(g.edits), " ") + "}}\n"
  }

  /** The card with only its checked edits. */
  function Narrow(g: Group): (r: Group)
  {
    g.(edits := Seqs.Filter(g.edits, IsSelected))
  }

  predicate HasEdits(g: Group) { |g.edits| > 0 }

  predicate HasSelected(g: Group) { Seqs.Count(g.edits, IsSelected) > 0 }

  /** `selectedGroups`: every card narrowed to its checked edits, the empty ones dropped. */
  function SelectedGroups(gs: seq<Group>): (r: seq<Group>)
  {
    Seqs.Filter(Seqs.Map(gs, Narrow), HasEdits)
  }

  function Rows(gs: seq<Group>): string {
    Seqs.ConcatMap(gs, Row)
  }

  /** The page text `generateReport` posts. */
  function Report(gs: seq<Group>): (r: string)
    ensures StartsWith(r, ReportHeader)
  {
    var r := ReportHeader + Rows(SelectedGroups(gs)) + ReportFooter;
    assert r[..|ReportHeader|] == ReportHeader;
    r
  }

  /** The report opens with the fixed header and closes the list template. */
  lemma ReportFrame(gs: seq<Group>)
    ensures StartsWith(Report(gs), ReportHeader)
    ensures EndsWith(Report(gs), ReportFooter)
  {
    var r := Report(gs);
    assert r[..|ReportHeader|] == ReportHeader;
    assert r[|r| - |ReportFooter|..] == ReportFooter;
  }

  /** Narrowing first then dropping empty cards is keeping the cards with a
      checked edit and narrowing those. */
  lemma SelectedGroupsFilterFirst(gs: seq<Group>)
    ensures SelectedGroups(gs) == Seqs.Map(Seqs.Filter(gs, HasSelected), Narrow)
  {
    forall g ensures HasEdits(Narrow(g)) == HasSelected(g) {
      Seqs.CountFilter(g.edits, IsSelected);
    }
    Seqs.FilterMap(gs, Narrow, HasEdits, HasSelected);
  }

  /** One row per card with a checked edit. */
  lemma SelectedGroupsCount(gs: seq<Group>)
    ensures |SelectedGroups(gs)| == Seqs.Count(gs, HasSelected)
  {
    SelectedGroupsFilterFirst(gs);
    Seqs.CountFilter(gs, HasSelected);
  }

  /** Each row lists at least one edit, and only checked ones. */
  lemma SelectedGroupsChecked(gs: seq<Group>)
    ensures var sel := SelectedGroups(gs);
      && (forall i :: 0 <= i < |sel| ==> |sel[i].edits| > 0)
      && (forall i, j :: 0 <= i < |sel| && 0 <= j < |sel[i].edits| ==> sel[i].edits[j].selected)
  {
    SelectedGroupsFilterFirst(gs);
    var sel := SelectedGroups(gs);
    var f := Seqs.Filter(gs, HasSelected);
    forall i | 0 <= i < |sel| ensures |sel[i].edits| > 0 {
      assert HasEdits(sel[i]);
    }
    forall i, j | 0 <= i < |sel| && 0 <= j < |sel[i].edits| ensures sel[i].edits[j].selected {
      assert sel[i] == Narrow(f[i]);
      assert IsSelected(Seqs.Filter(f[i].edits, IsSelected)[j]);
    }
  }

  /** With nothing checked the list is empty. */
  lemma NothingSelectedReport(gs: seq<Group>)
    requires forall i :: 0 <= i < |gs| ==> !HasSelected(gs[i])
    ensures Report(gs) == ReportHeader + ReportFooter
  {
    SelectedGroupsCount(gs);
    Seqs.CountNone(gs, HasSelected);
  }

  /** The report text built from the selected cards. */
  method BuildReport(sel: seq<Group>) returns (text: string)
    ensures text == ReportHeader + Rows(sel) + ReportFooter
  {
    text := Seqs.AppendEach(ReportHeader, sel, Row);
    text := text + ReportFooter;
  }

  // ---------------------------------------------------------------------------
  // The dialog

  /** The dialog's state: the step, the messages, the cards and the target page. */
  class Helper {
    var step: nat
    var username: string
    var normalizedUsername: string
    var error: string
    var groups: seq<Group>
    var targetPageTitle: string

    ghost predicate Valid()
      reads this
    {
      AllSynced(groups)
    }

    constructor()
      ensures Valid() && step == 1 && username == "" && normalizedUsername == "" && error == ""
      ensures groups == [] && targetPageTitle == ""
    {
      step := 1;
      username := "";
      normalizedUsername := "";
      error := "";
      groups := [];
      targetPageTitle := "";
    }

    /** `reset` ("Start Over"). */
    method Reset()
      modifies this
      ensures Valid() && step == 1 && username == "" && error == "" && groups == [] && targetPageTitle == ""
      ensures normalizedUsername == old(normalizedUsername)
    {
      step := 1;
      username := "";
      groups := [];
      error := "";
      targetPageTitle := "";
    }

    /** `updateGroupSelection(articleGroups[gi])`. */
    method UpdateGroupSelection(gi: nat)
      requires gi < |groups|
      modifies this
      ensures groups == old(groups)[gi := UpdateSelection(old(groups)[gi])]
      ensures step == old(step) && error == old(error) && targetPageTitle == old(targetPageTitle)
      ensures username == old(username) && normalizedUsername == old(normalizedUsername)
    {
      groups := groups[gi := UpdateSelection(groups[gi])];
    }

    /** An edit's own checkbox clicked, then its card recomputed. */
    method ClickEdit(gi: nat, ei: nat)
      requires Valid() && gi < |groups| && ei < |groups[gi].edits|
      modifies this
      ensures Valid()
      ensures var g := old(groups)[gi];
        groups == old(groups)[gi := UpdateSelection(g.(edits := g.edits[ei := g.edits[ei].(selected := !g.edits[ei].selected)]))]
      ensures step == old(step) && error == old(error) && targetPageTitle == old(targetPageTitle)
      ensures username == old(username) && normalizedUsername == old(normalizedUsername)
    {
      var g := groups[gi];
      groups := groups[gi := g.(edits := g.edits[ei := g.edits[ei].(selected := !g.edits[ei].selected)])];
      UpdateGroupSelection(gi);
      UpdateSelectionTriState(groups[gi]);
    }

    /** `toggleArticle(articleGroups[gi])`. */
    method ToggleArticle(gi: nat)
      requires Valid() && gi < |groups|
      modifies this
      ensures Valid() && groups == old(groups)[gi := Toggled(old(groups)[gi])]
      ensures step == old(step) && error == old(error) && targetPageTitle == old(targetPageTitle)
      ensures username == old(username) && normalizedUsername == old(normalizedUsername)
    {
      var g := groups[gi];
      var es := SelectEvery(g.edits, !g.allSelected);
      groups := groups[gi := g.(edits := es)];
      UpdateGroupSelection(gi);
      UpdateSelectionTriState(groups[gi]);
    }

    /** `toggleAll`. */
    method ToggleAll()
      requires Valid()
      modifies this
      ensures Valid() && groups == ToggledAll(old(groups))
      ensures step == old(step) && error == old(error) && targetPageTitle == old(targetPageTitle)
      ensures username == old(username) && normalizedUsername == old(normalizedUsername)
    {
      var v := !AllSelectedOf(groups);
      SelectAllInShape(groups, v);
      groups := SelectEach(groups, v);
    }

    /** `fetchContributions` once the requests are answered: `count` is the
        probe's continuation (`Count`), `confirmed` the confirmation dialog's
        answer, `user` the normalised user name from the probe, `failure` the
        `error.info` of a paginated request that failed (`None` when all
        succeeded), `date` the current date and `cs` every contribution the
        paginated requests returned. */
    method FetchContributions(count: Count, confirmed: bool, user: string, failure: Option<string>,
                              date: string, cs: seq<Contrib>)
      requires Valid()
      modifies this
      ensures Valid() && username == old(username)
      ensures CountGate(count, confirmed).Stop? ==>
        && error == CountGate(count, confirmed).message && groups == old(groups)
        && step == old(step) && targetPageTitle == old(targetPageTitle)
        && normalizedUsername == old(normalizedUsername)
      ensures CountGate(count, confirmed) == Proceed && failure.Some? ==>
        && error == FetchErrorPrefix + failure.value && groups == old(groups)
        && step == old(step) && targetPageTitle == old(targetPageTitle)
        && normalizedUsername == user
      ensures CountGate(count, confirmed) == Proceed && failure.None? ==>
        && normalizedUsername == user && groups == ArticleGroups(cs)
        && (|groups| == 0 ==>
              error == NoContributionsMessage && step == old(step)
              && targetPageTitle == old(targetPageTitle))
        && (|groups| > 0 ==> error == "" && step == 2 && targetPageTitle == TrackingTitle(date, user))
    {
      error := "";
      var gate := CountGate(count, confirmed);
      if gate.Stop? {
        error := gate.message;
        return;
      }
      normalizedUsername := user;
      if failure.Some? {
        error := FetchErrorPrefix + failure.value;
        return;
      }
      var gs := Arrange(cs);
      ShowGroups(user, date, gs);
    }

    /** The part of `fetchContributions` after the count check and the
        grouping: the cards `gs` are stored and the dialog moves to step 2, or
        an error is shown when there are none. */
    method ShowGroups(user: string, date: string, gs: seq<Group>)
      requires AllSynced(gs)
      modifies this
      ensures Valid() && username == old(username)
      ensures normalizedUsername == user && groups == gs
      ensures |groups| == 0 ==>
                error == NoContributionsMessage && step == old(step) && targetPageTitle == old(targetPageTitle)
      ensures |groups| > 0 ==> error == old(error) && step == 2 && targetPageTitle == TrackingTitle(date, user)
    {
      normalizedUsername := user;
      groups := gs;
      if |gs| == 0 {
        error := NoContributionsMessage;
      } else {
        step := 2;
        targetPageTitle := TrackingTitle(date, user);
      }
    }

    /** `generateReport`: the text posted to the target page; the dialog moves to
        step 3. */
    method GenerateReport() returns (text: string)
      modifies this
      ensures text == Report(old(groups)) && step == 3
      ensures groups == old(groups) && error == old(error) && targetPageTitle == old(targetPageTitle)
      ensures username == old(username) && normalizedUsername == old(normalizedUsername)
    {
      text := BuildReport(SelectedGroups(groups));
      step := 3;
    }
  }
}
