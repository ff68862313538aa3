/** The lint-error indicator: the count message, the section whose edit link an
    error gets, and the wikitext window shown around an error. */
module LintHelper {
  import opened JsStrings

  /** An entry of `parse.sections`: its byte offset (-1 for sections that do not
      come from the page's own wikitext) and its `index`. */
  datatype Section = Section(byteoffset: int, index: string)

  /** A lint error's `location`: the start and end offsets. */
  datatype Location = Location(start: int, end: int)

  datatype LintError = LintError(category: string, location: Option<Location>)

  // ---------------------------------------------------------------------------
  // The indicator text

  const NoErrorsMessage: string := "No lint errors"

  /** The indicator after the query: `errors` is `linterrors`, absent when the
      query returned none. */
  function IndicatorText(errors: Option<seq<LintError>>): (r: string)
    ensures errors.None? || |errors.value| == 0 ==> r == NoErrorsMessage
    ensures errors.Some? && |errors.value| > 0 ==> StartsWith(r, "Found ")
  {
    if errors.None? || |errors.value| == 0 then NoErrorsMessage
    else
      var n := |errors.value|;
      "Found " + NatToString(n) + " lint error" + (if n > 1 then "s" else "")
  }

  /** "No lint errors" exactly when the list is missing or empty. */
  lemma IndicatorNoErrors(errors: Option<seq<LintError>>)
    ensures IndicatorText(errors) == NoErrorsMessage <==> errors.None? || |errors.value| == 0
  {
    if errors.Some? && |errors.value| > 0 {
      var r := IndicatorText(errors);
      assert r[0] == 'F' && NoErrorsMessage[0] == 'N';
    }
  }

  /** Otherwise the message reads back as the count, and takes the plural "s"
      exactly when there is more than one error. */
  lemma IndicatorCounts(errors: seq<LintError>)
    requires |errors| > 0
    ensures var r := IndicatorText(Some(errors));
      && StartsWith(r, "Found ") && ParseInt(r[6..]) == Some(|errors|)
      && (EndsWith(r, "s") <==> |errors| > 1)
  {
    var n := |errors|;
    var d := NatToString(n);
    var tail := " lint error" + (if n > 1 then "s" else "");
    var r := IndicatorText(Some(errors));
    assert r == "Found " + (d + tail);
    assert r[6..] == d + tail;
    ParseIntOfNatPrefix(n, tail);
    assert r[|r| - 1] == tail[|tail| - 1];
  }

  /** `parseInt` stops at the first character after the digits. */
  lemma ParseIntOfNatPrefix(n: nat, rest: string)
    requires |rest| > 0 && rest[0] == ' '
    ensures ParseInt(NatToString(n) + rest) == Some(n)
  {
    var d := NatToString(n);
    var s := d + rest;
    assert s[0] == d[0] && IsDigit(s[0]);
    assert SkipSpaces(s, 0) == 0;
    assert forall k :: 0 <= k < |d| ==> s[k] == d[k];
    assert |d| == 1 || (s[1] != 'x' && s[1] != 'X');
    SkipWhileRun(s, 0, |d|, IsDigit);
    assert s[0..|d|] == d;
  }

  // ---------------------------------------------------------------------------
  // The section of an error

  /** A section that starts in the wikitext at or before `start`. */
  predicate Qualifies(s: Section, start: int) {
    s.byteoffset > -1 && s.byteoffset <= start
  }

  /** The section the scan over `ss` settles on: a later section replaces the
      current one only when its offset is strictly greater. */
  function Closest(ss: seq<Section>, start: int): (r: Option<nat>)
    ensures r.Some? ==> r.value < |ss| && Qualifies(ss[r.value], start)
  {
    if |ss| == 0 then None
    else
      var c := Closest(ss[..|ss| - 1], start);
      var s := ss[|ss| - 1];
      var best := if c.Some? then ss[c.value].byteoffset else -1;
      if Qualifies(s, start) && s.byteoffset > best then Some(|ss| - 1) else c
  }

  /** Section `k` qualifies, no qualifying section starts later, and every
      earlier qualifying one starts strictly before it. */
  ghost predicate IsClosest(ss: seq<Section>, start: int, k: nat) {
    && k < |ss| && Qualifies(ss[k], start)
    && (forall j :: 0 <= j < |ss| && Qualifies(ss[j], start) ==> ss[j].byteoffset <= ss[k].byteoffset)
    && (forall j :: 0 <= j < k && Qualifies(ss[j], start) ==> ss[j].byteoffset < ss[k].byteoffset)
  }

  /** The scan finds the latest-starting qualifying section, the first of equals. */
  lemma {:induction false} ClosestIsClosest(ss: seq<Section>, start: int)
    requires Closest(ss, start).Some?
    ensures IsClosest(ss, start, Closest(ss, start).value)
  {
    var init := ss[..|ss| - 1];
    var c := Closest(init, start);
    var k := Closest(ss, start).value;
    assert forall j :: 0 <= j < |init| ==> init[j] == ss[j];
    if c.Some? {
      ClosestIsClosest(init, start);
    } else {
      ClosestNone(init, start);
    }
  }

  /** The scan finds nothing exactly when no section qualifies. */
  lemma {:induction false} ClosestNone(ss: seq<Section>, start: int)
    ensures Closest(ss, start).None? <==> forall j :: 0 <= j < |ss| ==> !Qualifies(ss[j], start)
  {
    if |ss| > 0 {
      var init := ss[..|ss| - 1];
      ClosestNone(init, start);
      assert forall j :: 0 <= j < |init| ==> init[j] == ss[j];
      if Closest(init, start).Some? {
        ClosestIsClosest(init, start);
      }
    }
  }

  /** `find_section_for_error`: "0" without a location or a section list, or when
      no section qualifies; otherwise the closest section's index. */
  function SectionFor(location: Option<Location>, sections: Option<seq<Section>>): (r: string)
    ensures location.None? || sections.None? ==> r == "0"
    ensures r != "0" ==>
              && location.Some? && sections.Some?
              && exists j :: 0 <= j < |sections.value| && sections.value[j].index == r
                             && Qualifies(sections.value[j], location.value.start)
  {
    if location.None? || sections.None? then "0"
    else
      var c := Closest(sections.value, location.value.start);
      if c.Some? then sections.value[c.value].index else "0"
  }

  /** The `for` loop of `find_section_for_error`. */
  method FindSectionForError(location: Option<Location>, sections: Option<seq<Section>>) returns (index: string)
    ensures index == SectionFor(location, sections)
  {
    if location.None? || sections.None? {
      return "0";
    }
    var ss := sections.value;
    var start := location.value.start;
    var closest := Section(-1, "0");
    ghost var found: Option<nat> := None;
    var i := 0;
    while i < |ss|
      invariant 0 <= i <= |ss| && found == Closest(ss[..i], start)
      invariant found.None? ==> closest == Section(-1, "0")
      invariant found.Some? ==> found.value < i && closest == ss[found.value]
    {
      assert ss[..i + 1][..i] == ss[..i];
      var s := ss[i];
      if s.byteoffset > -1 && s.byteoffset <= start && s.byteoffset > closest.byteoffset {
        closest := s;
        found := Some(i);
      }
      i := i + 1;
    }
    assert ss[..i] == ss;
    index := closest.index;
  }

  // ---------------------------------------------------------------------------
  // The context window

  /** `load_context`'s three pieces: up to 100 characters before the error, the
      error's text and up to 100 after; nothing without a location. */
  function Context(wikitext: string, location: Option<Location>): (r: Option<(string, string, string)>)
    ensures r.None? <==> location.None?
  {
    if location.None? then None
    else
      var start := location.value.start;
      var end := location.value.end;
      var from := if start - 100 > 0 then start - 100 else 0;
      var to := if end + 100 < |wikitext| then end + 100 else |wikitext|;
      Some((Slice(wikitext, from, start), Slice(wikitext, start, end), Slice(wikitext, end, to)))
  }

  /** For an error whose offsets are in order, the three pieces are the window
      from max(0, start - 100) to min(length, end + 100), split at the error's
      start and end. */
  lemma ContextIsWindow(wikitext: string, location: Location)
    requires 0 <= location.start <= location.end
    ensures var r := Context(wikitext, Some(location)).value;
      var start := location.start;
      var end := location.end;
      var from := if start - 100 > 0 then start - 100 else 0;
      var to := if end + 100 < |wikitext| then end + 100 else |wikitext|;
      && r.0 + r.1 + r.2 == Slice(wikitext, from, to)
      && r.1 == Slice(wikitext, start, end)
      && |r.0| <= 100 && |r.2| <= 100
  {
    var start := location.start;
    var end := location.end;
    var from := if start - 100 > 0 then start - 100 else 0;
    var to := if end + 100 < |wikitext| then end + 100 else |wikitext|;
    var r := Context(wikitext, Some(location)).value;
    assert r.0 == Slice(wikitext, from, start) && r.1 == Slice(wikitext, start, end) && r.2 == Slice(wikitext, end, to);
    SliceLength(wikitext, from, start);
    SliceLength(wikitext, end, to);
    SliceSplit(wikitext, from, start, end);
    if end <= to {
      SliceSplit(wikitext, from, end, to);
    } else {
      assert Slice(wikitext, from, end) == Slice(wikitext, from, to);
    }
  }

  lemma SliceLength(s: string, a: int, b: int)
    requires 0 <= a && 0 <= b
    ensures |Slice(s, a, b)| <= if b < a then 0 else b - a
  {
  }
}
