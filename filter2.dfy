/** workshop/Filter2.js: advanced filters on Special:Contributions and page
    history lists. Each list item is read once into a record (title, summary,
    tags, namespace); every change of a filter widget re-runs `applyFilters`,
    which shows the items that pass the namespace, tag and summary filters, counts
    them, and hides everything when the user's regular expression is invalid. */
module Filter2 {
  import opened JsStrings
  import Seqs

  /** `getItemData`'s record. */
  datatype ItemData = ItemData(title: string, summary: string, tags: seq<string>, namespace: string)

  /** The values `applyFilters` reads from the widgets. */
  datatype Filters = Filters(selectedNs: seq<string>, selectedTags: seq<string>,
                             summaryFilter: string, useRegex: bool)

  /** `new RegExp(filter, "i")` for the current filter text: whether the
      constructor accepts the pattern, and the compiled pattern's `test`. */
  datatype Pattern = Pattern(valid: bool, test: string -> bool)

  /** What a filter test returns, or the `REGEX_ERROR` it throws. */
  datatype Test = Holds(b: bool) | RegexError

  /** The widgets: the namespace and tag selectors exist only where `createUI`
      made them (namespaces on contribution pages, tags when some item has one). */
  datatype Widgets = Widgets(ns: Option<seq<string>>, tags: Option<seq<string>>,
                             summary: string, regex: bool)

  /** An option of a multiselect menu. */
  datatype Choice = Choice(data: string, text: string)

  // ---- reading the list ----------------------------------------------------

  /** `.replace(/[[\]]/g, "")`. */
  function DropBrackets(s: string): (r: string)
    ensures |r| <= |s| && forall k :: 0 <= k < |r| ==> r[k] != '[' && r[k] != ']'
  {
    if |s| == 0 then []
    else (if s[0] == '[' || s[0] == ']' then [] else [s[0]]) + DropBrackets(s[1..])
  }

  /** `extractTags` for one tag marker's text. */
  function CleanTag(text: string): string { Trim(DropBrackets(text)) }

  /** `getNamespace`: `nsName` is the formatted name of the title's namespace
      (`wgFormattedNamespaces`, "" for the main namespace or an unknown id). */
  function Namespace(title: string, nsName: string -> string): string {
    if nsName(title) == "" then "Main" else nsName(title)
  }

  /** `getItemData`: the title element exists only on contribution pages
      (`titleText` is `None` when the item has none); an item without a title has
      the namespace "". */
  function GetItemData(isContrib: bool, titleText: Option<string>, summaryText: string,
                       tagTexts: seq<string>, nsName: string -> string): (d: ItemData)
    ensures |d.tags| == |tagTexts|
    ensures forall k :: 0 <= k < |d.tags| ==> '[' !in d.tags[k] && ']' !in d.tags[k]
    ensures !isContrib || titleText.None? ==> d.title == ""
    ensures d.namespace == "" <==> d.title == ""
    ensures d.summary == Trim(summaryText)
  {
    var title := if isContrib && titleText.Some? then Trim(titleText.value) else "";
    var tags := seq(|tagTexts|, k requires 0 <= k < |tagTexts| => CleanTag(tagTexts[k]));
    forall k | 0 <= k < |tags| ensures '[' !in tags[k] && ']' !in tags[k] {
      TrimSubstring(DropBrackets(tagTexts[k]));
    }
    ItemData(title, Trim(summaryText), tags, if title != "" then Namespace(title, nsName) else "")
  }

  /** `trim` returns a slice, so it adds no character. */
  lemma TrimSubstring(s: string)
    ensures forall c :: c in Trim(s) ==> c in s
  {
    TrimSlice(s);
    var i, j :| 0 <= i <= j <= |s| && Trim(s) == s[i..j];
    assert forall k :: 0 <= k < j - i ==> s[i..j][k] == s[i + k];
  }

  /** The namespaces of the items, in list order. */
  function NamespacesOf(ds: seq<ItemData>): (r: seq<string>)
    ensures |r| == |ds| && forall i :: 0 <= i < |r| ==> r[i] == ds[i].namespace
  {
    seq(|ds|, i requires 0 <= i < |ds| => ds[i].namespace)
  }

  /** Every item's tags, item after item. */
  function TagsOf(ds: seq<ItemData>): seq<string> {
    if |ds| == 0 then [] else TagsOf(ds[..|ds| - 1]) + ds[|ds| - 1].tags
  }

  // ---- the filters ---------------------------------------------------------

  /** `matchesSummary`: an empty filter matches; a regular expression is tested
      as the user wrote it (with the `i` flag) and throws `REGEX_ERROR` when the
      pattern is invalid; otherwise the filter is a case-insensitive substring. */
  function MatchesSummary(summary: string, filter: string, useRegex: bool, re: Pattern): (r: Test)
    ensures r == RegexError <==> filter != "" && useRegex && !re.valid
    ensures filter == "" ==> r == Holds(true)
  {
    if filter == "" then Holds(true)
    else if useRegex then (if re.valid then Holds(re.test(summary)) else RegexError)
    else Holds(Contains(Lower(summary), Lower(filter)))
  }

  /** The namespace filter: an empty selection admits every item, else the item's
      namespace must be selected. */
  predicate NsOk(d: ItemData, f: Filters) {
    |f.selectedNs| == 0 || d.namespace in f.selectedNs
  }

  /** The tag filter: an empty selection admits every item; else an untagged item
      passes when "none" is selected, and a tagged one when it has a selected tag. */
  predicate TagOk(d: ItemData, f: Filters) {
    || |f.selectedTags| == 0
    || (|d.tags| == 0 && "none" in f.selectedTags)
    || (|d.tags| > 0 && exists t :: t in d.tags && t in f.selectedTags)
  }

  /** `itemPassesFilters`: the checks in order, the summary last. */
  function ItemPasses(d: ItemData, f: Filters, re: Pattern): (r: Test)
    ensures r == Holds(true) ==> NsOk(d, f) && TagOk(d, f)
    ensures r == RegexError ==> f.useRegex && !re.valid
  {
    if |f.selectedNs| > 0 && d.namespace !in f.selectedNs then Holds(false)
    else if |f.selectedTags| > 0
            && (if |d.tags| == 0 then "none" !in f.selectedTags
                else !(exists t :: t in d.tags && t in f.selectedTags))
    then Holds(false)
    else if f.summaryFilter != "" then
      match MatchesSummary(d.summary, f.summaryFilter, f.useRegex, re)
      case Holds(b) => Holds(b)
      case RegexError => RegexError
    else Holds(true)
  }

  /** An empty filter text matches every summary. */
  lemma EmptyFilterMatches(summary: string, useRegex: bool, re: Pattern)
    ensures MatchesSummary(summary, "", useRegex, re) == Holds(true)
  {
  }

  /** A plain filter that occurs in the summary, in any case, matches. */
  lemma PlainSubstringMatches(summary: string, filter: string, re: Pattern, k: nat)
    requires filter != "" && LitAt(summary, k, filter)
    ensures MatchesSummary(summary, filter, false, re) == Holds(true)
  {
    var ls := Lower(summary);
    var lf := Lower(filter);
    assert ls[k..k + |filter|] == lf by {
      forall m | 0 <= m < |filter| ensures ls[k..k + |filter|][m] == lf[m] {
        assert summary[k + m] == filter[m];
      }
    }
    ContainsAt(ls, lf, k);
  }

  /** Plain matching ignores ASCII case on either side. */
  lemma PlainMatchIgnoresCase(summary: string, filter: string, re: Pattern)
    ensures MatchesSummary(Lower(summary), filter, false, re) == MatchesSummary(summary, filter, false, re)
    ensures MatchesSummary(summary, Lower(filter), false, re) == MatchesSummary(summary, filter, false, re)
  {
    LowerTwice(summary);
    LowerTwice(filter);
    if filter != "" {
      assert Lower(filter) != "" by { assert |Lower(filter)| == |filter|; }
    }
  }

  lemma LowerTwice(s: string)
    ensures Lower(Lower(s)) == Lower(s)
  {
    assert forall k :: 0 <= k < |s| ==> LowerChar(LowerChar(s[k])) == LowerChar(s[k]);
  }

  /** The error case: `REGEX_ERROR` is thrown exactly for an item that passes the
      namespace and tag filters while a non-empty regular expression is invalid. */
  lemma ItemErrorIff(d: ItemData, f: Filters, re: Pattern)
    ensures ItemPasses(d, f, re) == RegexError
            <==> NsOk(d, f) && TagOk(d, f) && f.summaryFilter != "" && f.useRegex && !re.valid
  {
  }

  /** An item is shown exactly when every active filter passes it. */
  lemma ItemPassesIff(d: ItemData, f: Filters, re: Pattern)
    ensures ItemPasses(d, f, re) == Holds(true)
            <==> NsOk(d, f) && TagOk(d, f) && MatchesSummary(d.summary, f.summaryFilter, f.useRegex, re) == Holds(true)
  {
  }

  /** With every filter empty, every item is shown. */
  lemma NoFiltersPass(d: ItemData, useRegex: bool, re: Pattern)
    ensures ItemPasses(d, Filters([], [], "", useRegex), re) == Holds(true)
  {
  }

  function PassesWith(f: Filters, re: Pattern): ItemData -> bool {
    d => ItemPasses(d, f, re) == Holds(true)
  }

  /** Under an invalid regular expression no item is shown: each one either fails
      an earlier filter or throws. */
  lemma {:induction false} InvalidRegexPassesNone(ds: seq<ItemData>, f: Filters, re: Pattern)
    requires f.summaryFilter != "" && f.useRegex && !re.valid
    ensures Seqs.Count(ds, PassesWith(f, re)) == 0
  {
    Seqs.CountNone(ds, PassesWith(f, re));
  }

  /** `Showing all N items` or `Showing k of N items`. */
  function StatsLabel(visible: nat, total: nat): string {
    if visible == total then "Showing all " + NatToString(total) + " items"
    else "Showing " + NatToString(visible) + " of " + NatToString(total) + " items"
  }

  /** The label says "all" exactly when every item is shown. */
  lemma StatsLabelAll(visible: nat, total: nat)
    ensures StartsWith(StatsLabel(visible, total), "Showing all ") <==> visible == total
  {
    var l := StatsLabel(visible, total);
    if visible != total {
      assert l[8] == NatToString(visible)[0];
      assert IsDigit(l[8]);
    } else {
      assert l[..12] == "Showing all ";
    }
  }

  // ---- the option lists ----------------------------------------------------

  /** The namespace comparator, as `sort` reads it: "Main" before everything,
      everything after "Main", otherwise `localeCompare`, given as the preorder
      `lc` (`lc(a, b)` when `a.localeCompare(b) <= 0`). */
  function NsLe(lc: (string, string) -> bool): (string, string) -> bool {
    (a: string, b: string) => a == "Main" || (b != "Main" && lc(a, b))
  }

  lemma NsLeTotalPreorder(lc: (string, string) -> bool)
    requires Seqs.TotalPreorder(lc)
    ensures Seqs.TotalPreorder(NsLe(lc))
  {
  }

  /** `createNamespaceFilter`'s options. */
  function NamespaceOptions(namespaces: seq<string>, lc: (string, string) -> bool): (r: seq<string>)
    requires Seqs.TotalPreorder(lc)
    ensures multiset(r) == multiset(namespaces)
  {
    NsLeTotalPreorder(lc);
    Seqs.Sort(namespaces, NsLe(lc))
  }

  /** "Main" comes first whenever it is among the namespaces, and the rest are in
      `localeCompare` order. */
  lemma MainFirst(namespaces: seq<string>, lc: (string, string) -> bool)
    requires Seqs.TotalPreorder(lc)
    ensures var r := NamespaceOptions(namespaces, lc);
            && ("Main" in namespaces ==> |r| > 0 && r[0] == "Main")
            && forall i, j :: 0 <= i < j < |r| && r[i] != "Main" ==> r[j] != "Main" && lc(r[i], r[j])
  {
    NsLeTotalPreorder(lc);
    var r := NamespaceOptions(namespaces, lc);
    assert Seqs.Sorted(r, NsLe(lc));
    if "Main" in namespaces {
      assert "Main" in multiset(r);
      var k :| 0 <= k < |r| && r[k] == "Main";
      if k > 0 {
        assert NsLe(lc)(r[0], r[k]);
      }
    }
    forall i, j | 0 <= i < j < |r| && r[i] != "Main" ensures r[j] != "Main" && lc(r[i], r[j]) {
      assert NsLe(lc)(r[i], r[j]);
    }
  }

  /** The default `sort` order: strings compared character by character, a proper
      prefix first. */
  predicate CodeUnitLe(a: string, b: string)
    decreases |a|
  {
    |a| == 0 || (|b| > 0 && (a[0] < b[0] || (a[0] == b[0] && CodeUnitLe(a[1..], b[1..]))))
  }

  lemma {:induction false} CodeUnitLeTotal(a: string, b: string)
    ensures CodeUnitLe(a, b) || CodeUnitLe(b, a)
    decreases |a|
  {
    if |a| > 0 && |b| > 0 && a[0] == b[0] {
      CodeUnitLeTotal(a[1..], b[1..]);
    }
  }

  lemma {:induction false} CodeUnitLeTrans(a: string, b: string, c: string)
    requires CodeUnitLe(a, b) && CodeUnitLe(b, c)
    ensures CodeUnitLe(a, c)
    decreases |a|
  {
    if |a| > 0 && a[0] == b[0] && b[0] == c[0] {
      CodeUnitLeTrans(a[1..], b[1..], c[1..]);
    }
  }

  lemma CodeUnitLeTotalPreorder()
    ensures Seqs.TotalPreorder(CodeUnitLe)
  {
    forall a, b ensures CodeUnitLe(a, b) || CodeUnitLe(b, a) {
      CodeUnitLeTotal(a, b);
    }
    forall a, b, c | CodeUnitLe(a, b) && CodeUnitLe(b, c) ensures CodeUnitLe(a, c) {
      CodeUnitLeTrans(a, b, c);
    }
  }

  /** The leading option of the tag menu. */
  const NoneChoice := Choice("none", "None (untagged)")

  /** Options whose label is their value. */
  function Plain(ts: seq<string>): (r: seq<Choice>)
    ensures |r| == |ts| && forall i :: 0 <= i < |ts| ==> r[i] == Choice(ts[i], ts[i])
  {
    seq(|ts|, i requires 0 <= i < |ts| => Choice(ts[i], ts[i]))
  }

  /** The values of options. */
  function DataOf(cs: seq<Choice>): (r: seq<string>)
    ensures |r| == |cs| && forall i :: 0 <= i < |cs| ==> r[i] == cs[i].data
  {
    seq(|cs|, i requires 0 <= i < |cs| => cs[i].data)
  }

  /** `Array.from(tags).sort()`. */
  function SortedTags(tags: seq<string>): (r: seq<string>)
    ensures Seqs.Sorted(r, CodeUnitLe) && multiset(r) == multiset(tags)
  {
    CodeUnitLeTotalPreorder();
    Seqs.Sort(tags, CodeUnitLe)
  }

  /** `createTagFilter`: no tag menu when no item has a tag, else "None
      (untagged)" followed by the tags in default `sort` order. */
  function TagOptions(tags: seq<string>): (r: Option<seq<Choice>>)
    ensures r.None? <==> |tags| == 0
    ensures r.Some? ==> |r.value| == |tags| + 1 && r.value[0] == NoneChoice
  {
    if |tags| == 0 then None else Some([NoneChoice] + Plain(SortedTags(tags)))
  }

  /** After the leading option, the tags are listed in default `sort` order ... */
  lemma TagOptionsSorted(tags: seq<string>)
    requires |tags| > 0
    ensures var r := TagOptions(tags).value;
            forall i, j :: 1 <= i < j < |r| ==> CodeUnitLe(r[i].data, r[j].data)
  {
    var sorted := SortedTags(tags);
    var r := TagOptions(tags).value;
    assert r[1..] == Plain(sorted);
    SortedAfterFirst(r, sorted, CodeUnitLe);
  }

  lemma SortedAfterFirst(r: seq<Choice>, sorted: seq<string>, le: (string, string) -> bool)
    requires 0 < |r| && r[1..] == Plain(sorted) && Seqs.Sorted(sorted, le)
    ensures forall i, j :: 1 <= i < j < |r| ==> le(r[i].data, r[j].data)
  {
    assert forall i :: 1 <= i < |r| ==> r[i].data == sorted[i - 1];
  }

  /** ... each once for every time it occurs among the tags. */
  lemma TagOptionsAreTags(tags: seq<string>)
    requires |tags| > 0
    ensures multiset(DataOf(TagOptions(tags).value[1..])) == multiset(tags)
  {
    var sorted := SortedTags(tags);
    assert DataOf(TagOptions(tags).value[1..]) == sorted;
  }

  // ---- the widgets ----------------------------------------------------------

  /** `createUI`'s widgets, all empty. */
  function NewWidgets(isContrib: bool, tags: seq<string>): Widgets {
    Widgets(if isContrib then Some([]) else None, if |tags| > 0 then Some([]) else None, "", false)
  }

  /** The values `applyFilters` reads: a missing selector reads as empty. */
  function FiltersOf(w: Widgets): (f: Filters)
    ensures w.ns.None? ==> f.selectedNs == []
    ensures w.tags.None? ==> f.selectedTags == []
  {
    Filters(if w.ns.Some? then w.ns.value else [], if w.tags.Some? then w.tags.value else [],
            w.summary, w.regex)
  }

  /** `resetFilters` as written: `widgets.nsSelector.setValue([])` throws a
      `TypeError` where there is no namespace selector (page histories), so
      nothing is reset there (`None`). */
  function ResetAsWritten(w: Widgets): (r: Option<Widgets>)
  {
    if w.ns.None? then None
    else Some(Widgets(Some([]), if w.tags.Some? then Some([]) else None, "", false))
  }

  /** The reset the script means: every existing selector emptied, the summary
      box cleared and the regex switch off. */
  function Reset(w: Widgets): (r: Widgets)
    ensures r.ns.Some? == w.ns.Some? && r.tags.Some? == w.tags.Some?
    ensures FiltersOf(r) == Filters([], [], "", false)
  {
    Widgets(if w.ns.Some? then Some([]) else None, if w.tags.Some? then Some([]) else None, "", false)
  }

  /** On a page history with an active summary filter, the reset button resets
      nothing. */
  lemma ResetHistoryAsWritten()
    ensures ResetAsWritten(Widgets(None, None, "revert", false)).None?
    ensures FiltersOf(Reset(Widgets(None, None, "revert", false))).summaryFilter == ""
  {
  }

  /** Both agree wherever the namespace selector exists. */
  lemma ResetAgrees(w: Widgets)
    requires w.ns.Some?
    ensures ResetAsWritten(w) == Some(Reset(w))
  {
  }

  /** After a reset every item passes. */
  lemma ResetShowsAll(w: Widgets, d: ItemData, re: Pattern)
    ensures ItemPasses(d, FiltersOf(Reset(w)), re) == Holds(true)
  {
    NoFiltersPass(d, false, re);
  }

  /** Items shown by `applyFilters` with filters `f`: without a `REGEX_ERROR` each
      item is shown exactly when it passes, and all are hidden after one; the
      count is the number of passing items either way. */
  ghost predicate Shows(items: seq<ItemData>, f: Filters, re: Pattern, shown: seq<bool>, count: nat, err: bool) {
    && |shown| == |items|
    && (err <==> exists i :: 0 <= i < |items| && ItemPasses(items[i], f, re) == RegexError)
    && (!err ==> forall i :: 0 <= i < |items| ==> shown[i] == (ItemPasses(items[i], f, re) == Holds(true)))
    && (err ==> forall i :: 0 <= i < |items| ==> !shown[i])
    && count == Seqs.Count(items, PassesWith(f, re))
  }

  /** The loop of `applyFilters`: the display state of each item, the visible
      count, and whether a `REGEX_ERROR` stopped it. */
  method Evaluate(items: seq<ItemData>, f: Filters, re: Pattern) returns (shown: seq<bool>, count: nat, err: bool)
    ensures Shows(items, f, re, shown, count, err)
  {
    shown := seq(|items|, _ => true);
    count := 0;
    err := false;
    var i := 0;
    while i < |items|
      invariant 0 <= i <= |items| && |shown| == |items|
      invariant forall k :: 0 <= k < i ==> ItemPasses(items[k], f, re) != RegexError
      invariant forall k :: 0 <= k < i ==> shown[k] == (ItemPasses(items[k], f, re) == Holds(true))
      invariant count == Seqs.Count(items[..i], PassesWith(f, re))
    {
      assert items[..i + 1] == items[..i] + [items[i]];
      Seqs.CountSnoc(items[..i], items[i], PassesWith(f, re));
      match ItemPasses(items[i], f, re)
      case Holds(show) =>
        shown := shown[i := show];
        if show {
          count := count + 1;
        }
        i := i + 1;
      case RegexError =>
        err := true;
        shown := seq(|items|, _ => false);
        ItemErrorIff(items[i], f, re);
        InvalidRegexPassesNone(items[..i], f, re);
        InvalidRegexPassesNone(items, f, re);
        return;
    }
    assert items[..i] == items;
  }

  lemma PrefixStep(ds: seq<ItemData>, i: nat)
    requires i < |ds|
    ensures NamespacesOf(ds[..i + 1]) == NamespacesOf(ds[..i]) + [ds[i].namespace]
    ensures TagsOf(ds[..i + 1]) == TagsOf(ds[..i]) + ds[i].tags
  {
    assert ds[..i + 1][..i] == ds[..i];
  }

  /** The loop of `initializeData`: each item's display state (shown), and the
      namespace and tag `Set`s in insertion order. */
  method Collect(ds: seq<ItemData>) returns (r: (seq<bool>, seq<string>, seq<string>))
    ensures |r.0| == |ds| && forall i :: 0 <= i < |ds| ==> r.0[i]
    ensures r.1 == Seqs.FirstOccurrences(NamespacesOf(ds))
    ensures r.2 == Seqs.FirstOccurrences(TagsOf(ds))
  {
    var shown: seq<bool> := [];
    var namespaces: seq<string> := [];
    var tags: seq<string> := [];
    var i := 0;
    while i < |ds|
      invariant 0 <= i <= |ds| && |shown| == i && forall k :: 0 <= k < i ==> shown[k]
      invariant namespaces == Seqs.FirstOccurrences(NamespacesOf(ds[..i]))
      invariant tags == Seqs.FirstOccurrences(TagsOf(ds[..i]))
    {
      PrefixStep(ds, i);
      Seqs.SetAddFirstOccurrences(NamespacesOf(ds[..i]), ds[i].namespace);
      namespaces := Seqs.SetAdd(namespaces, ds[i].namespace);
      tags := AddTags(tags, ds[i].tags, TagsOf(ds[..i]));
      shown := shown + [true];
      i := i + 1;
    }
    assert ds[..i] == ds;
    r := (shown, namespaces, tags);
  }

  /** `data.tags.forEach((tag) => tags.add(tag))`. */
  method AddTags(tags: seq<string>, more: seq<string>, ghost before: seq<string>) returns (r: seq<string>)
    requires tags == Seqs.FirstOccurrences(before)
    ensures r == Seqs.FirstOccurrences(before + more)
  {
    r := tags;
    var j := 0;
    assert before + more[..0] == before;
    while j < |more|
      invariant 0 <= j <= |more|
      invariant r == Seqs.FirstOccurrences(before + more[..j])
    {
      AddTagStep(before, more, j);
      r := Seqs.SetAdd(r, more[j]);
      j := j + 1;
    }
    assert more[..j] == more;
  }

  lemma AddTagStep(before: seq<string>, more: seq<string>, j: nat)
    requires j < |more|
    ensures Seqs.FirstOccurrences(before + more[..j + 1]) == Seqs.SetAdd(Seqs.FirstOccurrences(before + more[..j]), more[j])
  {
    assert before + more[..j + 1] == before + more[..j] + [more[j]];
    Seqs.SetAddFirstOccurrences(before + more[..j], more[j]);
  }

  /** The page: the items with their display state, the namespace and tag sets
      in insertion order, the widgets, and the counters and messages that
      `applyFilters` writes. */
  class Page {
    const isContrib: bool
    /** `new RegExp(text, "i")` for each filter text. */
    const compile: string -> Pattern
    var items: seq<ItemData>
    /** Each item element's `style.display` is not "none". */
    var shown: seq<bool>
    var namespaces: seq<string>
    var tags: seq<string>
    var widgets: Widgets
    var visibleCount: nat
    /** The error message's `display`. */
    var errorShown: bool
    /** The stats label's text. */
    var statsText: string

    ghost predicate Valid()
      reads this
    {
      |shown| == |items|
    }

    constructor(isContrib: bool, compile: string -> Pattern)
      ensures Valid() && this.isContrib == isContrib && this.compile == compile
      ensures items == [] && namespaces == [] && tags == []
      ensures widgets == NewWidgets(isContrib, []) && visibleCount == 0 && !errorShown && statsText == ""
    {
      this.isContrib := isContrib;
      this.compile := compile;
      items := [];
      shown := [];
      namespaces := [];
      tags := [];
      widgets := NewWidgets(isContrib, []);
      visibleCount := 0;
      errorShown := false;
      statsText := "";
    }

    /** `initializeData`: every item is recorded and shown, and its namespace and
        tags are added to the sets. */
    method InitializeData(ds: seq<ItemData>)
      requires Valid() && items == [] && namespaces == [] && tags == []
      modifies this
      ensures Valid() && items == ds && (forall i :: 0 <= i < |shown| ==> shown[i])
      ensures namespaces == Seqs.FirstOccurrences(NamespacesOf(ds))
      ensures tags == Seqs.FirstOccurrences(TagsOf(ds))
      ensures widgets == old(widgets) && visibleCount == old(visibleCount)
      ensures errorShown == old(errorShown) && statsText == old(statsText)
    {
      var r := Collect(ds);
      items, shown, namespaces, tags := ds, r.0, r.1, r.2;
    }

    /** `createUI`: the widgets, empty; no namespace selector on page histories and
        no tag selector when no item has a tag. */
    method CreateUI()
      modifies this
      ensures widgets == NewWidgets(isContrib, tags)
      ensures items == old(items) && shown == old(shown) && namespaces == old(namespaces) && tags == old(tags)
      ensures visibleCount == old(visibleCount) && errorShown == old(errorShown) && statsText == old(statsText)
    {
      widgets := NewWidgets(isContrib, tags);
    }

    /** `applyFilters`: each item is shown or hidden by the filters, the shown ones
        are counted, and the first `REGEX_ERROR` hides every item and shows the
        error message. */
    method ApplyFilters()
      requires Valid()
      modifies this
      ensures Valid() && items == old(items) && widgets == old(widgets)
      ensures namespaces == old(namespaces) && tags == old(tags)
      ensures Shows(items, FiltersOf(widgets), compile(widgets.summary), shown, visibleCount, errorShown)
      ensures statsText == StatsLabel(visibleCount, |items|)
    {
      var sh, n, err := Evaluate(items, FiltersOf(widgets), compile(widgets.summary));
      shown, visibleCount, errorShown := sh, n, err;
      statsText := StatsLabel(visibleCount, |items|);
    }

    /** A widget change by the user, followed by `applyFilters`; the widgets keep
        their shape. */
    method Change(w: Widgets)
      requires Valid() && w.ns.Some? == widgets.ns.Some? && w.tags.Some? == widgets.tags.Some?
      modifies this
      ensures Valid() && widgets == w && items == old(items)
      ensures Shows(items, FiltersOf(w), compile(w.summary), shown, visibleCount, errorShown)
      ensures statsText == StatsLabel(visibleCount, |items|)
    {
      widgets := w;
      ApplyFilters();
    }

    /** The reset button (with the corrected reset): all filters cleared and every
        item shown. */
    method ResetFilters()
      requires Valid()
      modifies this
      ensures Valid() && widgets == Reset(old(widgets)) && items == old(items)
      ensures !errorShown && (forall i :: 0 <= i < |items| ==> shown[i]) && visibleCount == |items|
      ensures statsText == StatsLabel(|items|, |items|)
    {
      widgets := Reset(widgets);
      ApplyFilters();
      forall i | 0 <= i < |items| ensures ItemPasses(items[i], FiltersOf(widgets), compile(widgets.summary)) == Holds(true) {
        ResetShowsAll(old(widgets), items[i], compile(widgets.summary));
      }
      Seqs.CountAll(items, PassesWith(FiltersOf(widgets), compile(widgets.summary)));
    }
  }
}
