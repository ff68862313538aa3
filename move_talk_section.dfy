/** The move-talk-section script: which pages it runs on and may move a
    section to, how it reads a section without its heading, and the edits it
    makes on the target page, the current page and the original poster's talk
    page. */
module MoveTalkSection {
  import opened JsStrings

  // ---------------------------------------------------------------------------
  // is_valid_page

  /** `namespace_number % 2 === 1`; `None` is the `null` a failed lookup leaves. */
  predicate IsTalkNamespace(ns: Option<int>) {
    ns.Some? && JsRem(ns.value, 2) == 1
  }

  /** `s` read at `i` with ASCII letters folded to lower case spells the
      lower-case literal `lit`: the `i` flag of the title pattern. */
  predicate MatchCI(s: string, i: nat, lit: string) {
    i + |lit| <= |s| && forall k :: 0 <= k < |lit| ==> LowerChar(s[i + k]) == lit[k]
  }

  predicate EqualsCI(s: string, lit: string) { |s| == |lit| && MatchCI(s, 0, lit) }

  /** The page patterns after "Wikipedia:". */
  predicate IsDiscussionBoard(t: string) {
    MatchCI(t, 0, "wikipedia:") && BoardName(t[10..])
  }

  predicate BoardName(r: string) {
    || VillagePump(r)
    || EqualsCI(r, "teahouse")
    || EqualsCI(r, "help desk")
    || Noticeboard(r)
    || ReferenceDeskSubpage(r)
  }

  /** `Village pump \([^)/]+\)`: a parenthesised name without `)` or `/`. */
  predicate VillagePump(r: string) {
    && MatchCI(r, 0, "village pump (") && |r| > 15 && r[|r| - 1] == ')'
    && forall k :: 14 <= k < |r| - 1 ==> r[k] != ')' && r[k] != '/'
  }

  /** `[^/\n]*\bnoticeboard\b(?:\/[^/\n]+)?`: the word "noticeboard" inside the
      first path segment, followed by nothing or by exactly one subpage. */
  predicate Noticeboard(r: string) {
    exists k :: 0 <= k < |r| && NoticeboardAt(r, k)
  }

  predicate NoticeboardAt(r: string, k: nat) {
    && MatchCI(r, k, "noticeboard")
    && (forall i :: 0 <= i < k ==> r[i] != '/' && r[i] != '\n')
    && (k == 0 || !IsWordChar(r[k - 1]))
    && SubpageTail(r[k + 11..])
  }

  /** Nothing, or `/` and a non-empty name without `/` or a line break. */
  predicate SubpageTail(s: string) {
    || s == ""
    || (|s| > 1 && s[0] == '/' && forall i :: 1 <= i < |s| ==> s[i] != '/' && s[i] != '\n')
  }

  /** `Reference desk\/.+`: any subpage of the reference desk. */
  predicate ReferenceDeskSubpage(r: string) {
    MatchCI(r, 0, "reference desk/") && |r| > 15
    && forall i :: 15 <= i < |r| ==> !IsLineTerminator(r[i])
  }

  predicate IsValidPage(t: string, ns: Option<int>)
    ensures IsValidPage(t, ns) <==> (ns.Some? && ns.value > 0 && ns.value % 2 == 1) || IsDiscussionBoard(t)
  {
    IsTalkNamespace(ns) || IsDiscussionBoard(t)
  }

  /** The odd namespaces are the positive odd numbers: under the truncating `%`
      a negative namespace such as -1 (Special) has remainder -1, not 1. */
  lemma TalkNamespaces(n: int)
    ensures IsTalkNamespace(Some(n)) <==> n > 0 && n % 2 == 1
    ensures !IsTalkNamespace(None)
  {
  }

  /** No two `/` in `s`. */
  predicate AtMostOneSlash(s: string) {
    forall i, j :: 0 <= i < j < |s| ==> !(s[i] == '/' && s[j] == '/')
  }

  /** A character that folds to a non-letter is that character. */
  lemma FoldsTo(c: char, d: char)
    requires LowerChar(c) == d && !('a' <= d <= 'z')
    ensures c == d
  {
  }

  /** Every board other than a reference-desk subpage has at most one `/` in
      its title: a noticeboard may have one subpage, the others none. */
  lemma BoardsAtMostOneSubpage(t: string)
    requires IsDiscussionBoard(t) && !ReferenceDeskSubpage(t[10..])
    ensures AtMostOneSlash(t)
  {
    var r := t[10..];
    NameAtMostOneSlash(r);
    forall i, j | 0 <= i < j < |t| ensures !(t[i] == '/' && t[j] == '/') {
      if i < 10 {
        assert LowerChar(t[i]) == "wikipedia:"[i];
      } else {
        assert r[i - 10] == t[i] && r[j - 10] == t[j];
      }
    }
  }

  lemma NameAtMostOneSlash(r: string)
    requires BoardName(r) && !ReferenceDeskSubpage(r)
    ensures AtMostOneSlash(r)
  {
    if VillagePump(r) {
      forall i | 0 <= i < |r| - 1 ensures r[i] != '/' {
        if i < 14 {
          assert LowerChar(r[i]) == "village pump ("[i];
        }
      }
    } else if EqualsCI(r, "teahouse") {
      forall i | 0 <= i < |r| ensures r[i] != '/' {
        assert LowerChar(r[i]) == "teahouse"[i];
      }
    } else if EqualsCI(r, "help desk") {
      forall i | 0 <= i < |r| ensures r[i] != '/' {
        assert LowerChar(r[i]) == "help desk"[i];
      }
    } else {
      var k :| 0 <= k < |r| && NoticeboardAt(r, k);
      var tail := r[k + 11..];
      forall i | 0 <= i < |r| && i != k + 11 ensures r[i] != '/' {
        if k <= i < k + 11 {
          assert LowerChar(r[k + (i - k)]) == "noticeboard"[i - k];
        } else if k + 11 < i {
          assert tail[i - k - 11] == r[i];
        }
      }
    }
  }

  /** A board name after the "Wikipedia:" prefix, in any letter case. */
  lemma ProjectPage(rest: string)
    requires BoardName(rest)
    ensures IsDiscussionBoard("Wikipedia:" + rest)
  {
    var t := "Wikipedia:" + rest;
    assert t[10..] == rest;
    assert forall i :: 0 <= i < 10 ==> t[i] == "Wikipedia:"[i];
  }

  /** The help desk and the Teahouse pass the test, as does every
      reference-desk subpage. */
  lemma KnownBoards(sub: string)
    requires sub != "" && forall i :: 0 <= i < |sub| ==> !IsLineTerminator(sub[i])
    ensures IsDiscussionBoard("Wikipedia:" + "Teahouse")
    ensures IsDiscussionBoard("Wikipedia:" + "Help desk")
    ensures IsDiscussionBoard("Wikipedia:" + ("Reference desk/" + sub))
  {
    assert EqualsCI("Teahouse", "teahouse");
    ProjectPage("Teahouse");
    assert EqualsCI("Help desk", "help desk");
    ProjectPage("Help desk");
    var rd := "Reference desk/" + sub;
    assert forall i :: 0 <= i < 15 ==> rd[i] == "Reference desk/"[i];
    assert forall i :: 15 <= i < |rd| ==> rd[i] == sub[i - 15];
    assert ReferenceDeskSubpage(rd);
    ProjectPage(rd);
  }

  /** A noticeboard and one of its subpages pass. */
  lemma Noticeboards(name: string, sub: string)
    requires forall i :: 0 <= i < |name| ==> name[i] != '/' && name[i] != '\n'
    requires |name| > 0 ==> !IsWordChar(name[|name| - 1])
    requires sub != "" && forall i :: 0 <= i < |sub| ==> sub[i] != '/' && sub[i] != '\n'
    ensures IsDiscussionBoard("Wikipedia:" + name + "noticeboard")
    ensures IsDiscussionBoard("Wikipedia:" + name + "noticeboard" + ("/" + sub))
  {
    NoticeboardTail(name, "");
    assert "Wikipedia:" + name + "noticeboard" + "" == "Wikipedia:" + name + "noticeboard";
    var one := "/" + sub;
    assert forall i :: 1 <= i < |one| ==> one[i] == sub[i - 1];
    NoticeboardTail(name, one);
  }

  /** A second subpage under a noticeboard does not pass. */
  lemma NoticeboardSubSubpage(name: string, sub: string, sub2: string)
    requires forall i :: 0 <= i < |name| ==> name[i] != '/' && name[i] != '\n'
    ensures !IsDiscussionBoard("Wikipedia:" + name + "noticeboard" + ("/" + sub) + ("/" + sub2))
  {
    var t := "Wikipedia:" + name + "noticeboard" + ("/" + sub) + ("/" + sub2);
    var k := 10 + |name| + 11;
    assert t[k] == '/' && t[k + 1 + |sub|] == '/';
    assert t[10..] == name + "noticeboard" + ("/" + sub + ("/" + sub2));
    ReferenceDeskIsNotNoticeboard(name, "/" + sub + ("/" + sub2));
    if IsDiscussionBoard(t) {
      BoardsAtMostOneSubpage(t);
    }
  }

  /** A title whose first segment holds "noticeboard" is not a reference-desk
      subpage. */
  lemma ReferenceDeskIsNotNoticeboard(name: string, tail: string)
    requires forall i :: 0 <= i < |name| ==> name[i] != '/' && name[i] != '\n'
    ensures !ReferenceDeskSubpage(name + "noticeboard" + tail)
  {
    var r := name + "noticeboard" + tail;
    var k := |name|;
    if |r| > 15 && k + 11 > 14 {
      if 14 < k {
        assert r[14] == name[14];
      } else {
        assert r[14] == "noticeboard"[14 - k];
      }
      assert LowerChar(r[14]) != "reference desk/"[14];
    } else if |r| > 15 {
      assert r[k] == 'n';
      assert LowerChar(r[k]) != "reference desk/"[k];
    }
  }

  lemma NoticeboardTail(name: string, tail: string)
    requires forall i :: 0 <= i < |name| ==> name[i] != '/' && name[i] != '\n'
    requires |name| > 0 ==> !IsWordChar(name[|name| - 1])
    requires SubpageTail(tail)
    ensures IsDiscussionBoard("Wikipedia:" + name + "noticeboard" + tail)
  {
    var r := name + "noticeboard" + tail;
    NoticeboardNamed(name, tail);
    assert Noticeboard(r);
    ProjectPage(r);
    Regroup("Wikipedia:", name, "noticeboard", tail);
  }

  lemma Regroup(a: string, b: string, c: string, d: string)
    ensures a + (b + c + d) == a + b + c + d
  {
  }

  /** The word "noticeboard" right after such a name is where the pattern's
      word matches. */
  lemma NoticeboardNamed(name: string, tail: string)
    requires forall i :: 0 <= i < |name| ==> name[i] != '/' && name[i] != '\n'
    requires |name| > 0 ==> !IsWordChar(name[|name| - 1])
    requires SubpageTail(tail)
    ensures NoticeboardAt(name + "noticeboard" + tail, |name|)
  {
    var r := name + "noticeboard" + tail;
    var k := |name|;
    MatchInside(name, "noticeboard", tail);
    assert r[k + 11..] == tail;
    assert forall i :: 0 <= i < k ==> r[i] == name[i];
  }

  /** A lower-case word written into a text is matched there in any case. */
  lemma MatchInside(a: string, w: string, b: string)
    requires forall k :: 0 <= k < |w| ==> !('A' <= w[k] <= 'Z')
    ensures MatchCI(a + w + b, |a|, w)
  {
    var s := a + w + b;
    forall k | 0 <= k < |w| ensures LowerChar(s[|a| + k]) == w[k] {
      assert s[|a| + k] == w[k];
    }
  }

  /** The script runs on the current page when its title, with underscores read
      as spaces, and its namespace pass the test. */
  predicate Runs(pageName: string, ns: int) {
    IsValidPage(ReplaceAllChar(pageName, '_', ' '), Some(ns))
  }

  /** Every page of a positive odd namespace, and a board in any namespace. */
  lemma RunsOn(pageName: string, ns: int)
    ensures Runs(pageName, ns) <==> (ns > 0 && ns % 2 == 1) || IsDiscussionBoard(ReplaceAllChar(pageName, '_', ' '))
  {
    TalkNamespaces(ns);
  }

  // ---------------------------------------------------------------------------
  // get_current_section

  predicate NotEquals(c: char) { c != '=' }

  /** `wikitext.replace(/^==[^=]+==\s*\n?/, "")`: a leading `==name==` heading
      and the whitespace after it are removed. */
  function StripHeading(s: string): (r: string)
    ensures |r| <= |s| && r == s[|s| - |r|..]
  {
    if |s| < 2 || s[0] != '=' || s[1] != '=' then s
    else
      var j := SkipWhile(s, 2, NotEquals);
      if j > 2 && j + 1 < |s| && s[j] == '=' && s[j + 1] == '=' then s[SkipSpaces(s, j + 2)..]
      else s
  }

  /** A heading whose name has no `=`, then whitespace, then a body that does
      not start with whitespace: only the body is left. */
  lemma StripHeadingOf(name: string, ws: string, body: string)
    requires name != "" && '=' !in name && AllSpace(ws)
    requires body == "" || !IsSpace(body[0])
    ensures StripHeading("==" + name + "==" + ws + body) == body
  {
    var s := "==" + name + "==" + ws + body;
    var j := 2 + |name|;
    var n := j + 2 + |ws|;
    assert forall i :: 2 <= i < j ==> s[i] == name[i - 2];
    assert s[j] == '=' && s[j + 1] == '=';
    SkipWhileRun(s, 2, j, NotEquals);
    assert forall i :: j + 2 <= i < n ==> s[i] == ws[i - j - 2];
    assert n == |s| || s[n] == body[0];
    SkipSpacesRun(s, j + 2, n);
    assert s[n..] == body;
  }

  lemma Split5(s: string, a: nat, b: nat, c: nat, d: nat)
    requires a <= b <= c <= d <= |s|
    ensures s == s[..a] + s[a..b] + s[b..c] + s[c..d] + s[d..]
  {
    assert s[..a] + s[a..b] == s[..b];
    assert s[..b] + s[b..c] == s[..c];
    assert s[..c] + s[c..d] == s[..d];
    assert s[..d] + s[d..] == s;
  }

  /** A `==name==` heading found at `j` and whitespace up to `n` split `s`. */
  lemma HeadingParts(s: string, j: nat, n: nat)
    requires 2 < j && j + 2 <= n <= |s| && s[0] == '=' && s[1] == '=' && s[j] == '=' && s[j + 1] == '='
    requires forall k :: 2 <= k < j ==> NotEquals(s[k])
    requires forall k :: j + 2 <= k < n ==> IsSpace(s[k])
    requires n == |s| || !IsSpace(s[n])
    ensures var name, ws := s[2..j], s[j + 2..n];
      && name != "" && '=' !in name && AllSpace(ws)
      && s == "==" + name + "==" + ws + s[n..]
      && (s[n..] == "" || !IsSpace(s[n..][0]))
  {
    var name, ws := s[2..j], s[j + 2..n];
    assert forall k :: 0 <= k < |name| ==> name[k] == s[k + 2];
    assert forall k :: 0 <= k < |ws| ==> ws[k] == s[k + j + 2];
    assert s[..2] == "==" && s[j..j + 2] == "==";
    Split5(s, 2, j, j + 2, n);
  }

  /** Either nothing is removed, or exactly such a heading is. */
  lemma StripHeadingCases(s: string) returns (name: string, ws: string)
    ensures StripHeading(s) == s || (
      && name != "" && '=' !in name && AllSpace(ws)
      && s == "==" + name + "==" + ws + StripHeading(s)
      && (StripHeading(s) == "" || !IsSpace(StripHeading(s)[0])))
  {
    name, ws := "", "";
    if |s| >= 2 && s[0] == '=' && s[1] == '=' {
      var j := SkipWhile(s, 2, NotEquals);
      if j > 2 && j + 1 < |s| && s[j] == '=' && s[j + 1] == '=' {
        var n := SkipSpaces(s, j + 2);
        SkipWhileAll(s, 2, NotEquals);
        SkipSpacesAll(s, j + 2);
        name, ws := s[2..j], s[j + 2..n];
        assert StripHeading(s) == s[n..];
        HeadingParts(s, j, n);
      }
    }
  }

  // ---------------------------------------------------------------------------
  // move_section

  const ScriptTag: string := "(using [[User:DVRTed/move-talk-section|move-talk-section]])"

  /** `"~~" + "~~"`: the signature, split in the source so that it is not
      expanded on the script's own page. */
  const Signature: string := "~~~~"

  /** What the dialog hands to `move_section`. */
  datatype Move = Move(target: string, content: string, sectionId: string, newTitle: string,
                       oldTitle: string, notifyOp: bool, opUser: Option<string>, followRedirect: bool)

  /** What a title query reports: the first redirect's target, if any, and the
      namespace of the first page (`None` for a missing `ns`). */
  datatype PageInfo = PageInfo(redirectTo: Option<string>, ns: Option<int>)

  /** An edit: the page, the section replaced (none for an append), the text,
      whether it is appended, and the summary. */
  datatype Edit = Edit(title: string, section: Option<string>, text: string, appends: bool, summary: string)

  datatype MoveOutcome = Rejected(target: string) | Failed | Done(notified: bool)

  /** A level-2 heading. */
  function Heading(title: string): string
  {
    "==" + " " + title + " " + "=="
  }

  /** `{{Moved discussion from|page#section|2=~~~~}}`. */
  function FromLink(current: string, oldTitle: string): string
  {
    "{{Moved discussion from|" + current + "#" + oldTitle + "|2=" + Signature + "}}"
  }

  /** `{{Moved discussion to|page#section|2=~~~~}}`. */
  function ToLink(target: string, newTitle: string): string
  {
    "{{Moved discussion to|" + target + "#" + newTitle + "|2=" + Signature + "}}"
  }

  /** The heading and back-link added at the target, then the section. */
  function MovedFrom(m: Move, current: string): string
  {
    "\n\n" + Heading(m.newTitle) + "\n" + FromLink(current, m.oldTitle) + "\n\n" + m.content
  }

  /** What replaces the section on the current page. */
  function MovedTo(m: Move, target: string): string
  {
    Heading(m.oldTitle) + "\n" + ToLink(target, m.newTitle)
  }

  const NoticeOpening: string := ", I have moved the discussion you started at {{Section link|"
  const NoticeMiddle: string := "}} to '''{{Section link|"
  const NoticeClosing: string :=
    "}}''' as the latter seemed more appropriate; please check the new location for any responses. "

  function NoticeBody(m: Move, op: string, current: string, target: string): string
  {
    "Hi " + op + NoticeOpening + current + "|" + m.oldTitle + NoticeMiddle + target + "|" + m.newTitle
    + NoticeClosing + Signature
  }

  function NoticeText(m: Move, op: string, current: string, target: string): string
  {
    "\n\n" + Heading("Discussion moved") + "\n" + NoticeBody(m, op, current, target)
  }

  const AppendSummaryPrefix: string := "Moved discussion from [["
  const ReplaceSummaryPrefix: string := "Moved discussion to [["
  const NoticeSummary: string := "Notifying about moved discussion section "

  function Appending(m: Move, current: string, target: string): Edit
  {
    Edit(target, None, MovedFrom(m, current), true, AppendSummaryPrefix + current + "]] " + ScriptTag)
  }

  function Replacing(m: Move, current: string, target: string): Edit
  {
    Edit(current, Some(m.sectionId), MovedTo(m, target), false, ReplaceSummaryPrefix + target + "]] " + ScriptTag)
  }

  function Notifying(m: Move, op: string, current: string, target: string): Edit
  {
    Edit("User talk:" + op, None, NoticeText(m, op, current, target), true, NoticeSummary + ScriptTag)
  }

  /** `notify_op && op_user`: notifying was asked for and a poster was found. */
  predicate WantsNotice(m: Move) {
    m.notifyOp && m.opUser.Some? && m.opUser.value != ""
  }

  /** The poster to notify: asked for, found, and their talk page is reported
      in namespace 3. */
  function Notified(m: Move, talkNs: string -> Option<int>): (r: Option<string>)
  {
    if WantsNotice(m) && talkNs("User talk:" + m.opUser.value) == Some(3) then m.opUser else None
  }

  /** The page the section goes to: the redirect's target when redirects are
      followed and there is one. */
  function Resolved(m: Move, info: PageInfo): string
  {
    if m.followRedirect && info.redirectTo.Some? then info.redirectTo.value else m.target
  }

  /** The edits a move makes when every request succeeds, in order. */
  function Plan(m: Move, current: string, target: string, notified: Option<string>): seq<Edit>
  {
    [Appending(m, current, target), Replacing(m, current, target)]
      + (if notified.Some? then [Notifying(m, notified.value, current, target)] else [])
  }

  /** The plan appends the section to the target, replaces the section on the
      current page, and appends a notice to the poster's talk page exactly
      when someone is notified. */
  lemma PlanShape(m: Move, current: string, target: string, notified: Option<string>)
    ensures var p := Plan(m, current, target, notified);
      && |p| == (if notified.Some? then 3 else 2)
      && p[0].title == target && p[0].appends && p[0].text == MovedFrom(m, current)
      && p[1].title == current && p[1].section == Some(m.sectionId) && !p[1].appends
      && (notified.Some? ==> p[2].title == "User talk:" + notified.value && p[2].appends)
  {
    var a, b := Appending(m, current, target), Replacing(m, current, target);
    if notified.Some? {
      var c := Notifying(m, notified.value, current, target);
      assert Plan(m, current, target, notified) == [a, b, c];
    } else {
      assert Plan(m, current, target, notified) == [a, b];
    }
  }

  /** The text appended at the target ends with the moved section. */
  lemma MovedFromEndsWithContent(m: Move, current: string)
    ensures EndsWith(MovedFrom(m, current), m.content)
  {
    var t := MovedFrom(m, current);
    var pre := "\n\n" + Heading(m.newTitle) + "\n" + (FromLink(current, m.oldTitle) + "\n\n");
    assert t == pre + m.content;
    assert t[|t| - |m.content|..] == m.content;
  }

  /** Only a poster who was asked for and found is notified, and only when
      their talk page is in namespace 3. */
  lemma NotifiedWhen(m: Move, talkNs: string -> Option<int>)
    ensures Notified(m, talkNs).Some? <==>
              m.notifyOp && m.opUser.Some? && m.opUser.value != "" && talkNs("User talk:" + m.opUser.value) == Some(3)
    ensures Notified(m, talkNs).Some? ==> Notified(m, talkNs) == m.opUser
  {
  }

  /** A titled heading, a line break and a body that does not start with
      whitespace: reading it back leaves the body. */
  lemma StripTitled(title: string, body: string)
    requires '=' !in title && (body == "" || !IsSpace(body[0]))
    ensures StripHeading(Heading(title) + "\n" + body) == body
  {
    var name := " " + title + " ";
    assert '=' !in name;
    assert Heading(title) + "\n" + body == "==" + name + "==" + "\n" + body;
    assert AllSpace("\n");
    StripHeadingOf(name, "\n", body);
  }

  /** Read back as a section, the text added at the target is the back-link
      line followed by the moved content. */
  lemma MovedFromReadsBack(m: Move, current: string)
    requires '=' !in m.newTitle
    ensures var t := MovedFrom(m, current);
      t[..2] == "\n\n" && StripHeading(t[2..]) == FromLink(current, m.oldTitle) + "\n\n" + m.content
  {
    var body := FromLink(current, m.oldTitle) + "\n\n" + m.content;
    assert body[0] == '{';
    var t := MovedFrom(m, current);
    assert t == "\n\n" + (Heading(m.newTitle) + "\n" + body);
    StripTitled(m.newTitle, body);
  }

  /** Read back, what is left of the old section is the pointer line. */
  lemma MovedToReadsBack(m: Move, target: string)
    requires '=' !in m.oldTitle
    ensures StripHeading(MovedTo(m, target)) == ToLink(target, m.newTitle)
  {
    assert ToLink(target, m.newTitle)[0] == '{';
    StripTitled(m.oldTitle, ToLink(target, m.newTitle));
  }

  /** Read back, the notice section is the greeting. */
  lemma NoticeReadsBack(m: Move, op: string, current: string, target: string)
    ensures var t := NoticeText(m, op, current, target);
      t[..2] == "\n\n" && StripHeading(t[2..]) == NoticeBody(m, op, current, target)
  {
    var body := NoticeBody(m, op, current, target);
    assert body[0] == 'H';
    assert '=' !in "Discussion moved";
    var t := NoticeText(m, op, current, target);
    assert t == "\n\n" + (Heading("Discussion moved") + "\n" + body);
    StripTitled("Discussion moved", body);
  }

  /** `move_section`: resolve the target, refuse an invalid one, then make the
      edits. `query` is the title query (with redirects resolved or not), `post`
      whether an edit succeeds and `talkNs` the namespace the poster's talk
      page is reported in (`None` when that lookup fails); a failed request
      ends the move. */
  method MoveSection(m: Move, current: string, query: (string, bool) -> Option<PageInfo>,
                     post: Edit -> bool, talkNs: string -> Option<int>)
    returns (outcome: MoveOutcome, edits: seq<Edit>)
    ensures query(m.target, m.followRedirect).None? ==> outcome == Failed && edits == []
    ensures query(m.target, m.followRedirect).Some? ==>
              var info := query(m.target, m.followRedirect).value;
              && (!IsValidPage(Resolved(m, info), info.ns) <==> outcome.Rejected?)
              && (outcome.Rejected? ==> outcome.target == Resolved(m, info) && edits == [])
              && (!outcome.Rejected? ==> Made(m, current, Resolved(m, info), post, talkNs, outcome, edits))
  {
    var info := query(m.target, m.followRedirect);
    if info.None? {
      return Failed, [];
    }
    var finalTarget := m.target;
    var targetNamespace: Option<int> := None;
    if m.followRedirect {
      if info.value.redirectTo.Some? {
        finalTarget := info.value.redirectTo.value;
      }
      targetNamespace := info.value.ns;
    } else {
      targetNamespace := info.value.ns;
    }
    if !IsValidPage(finalTarget, targetNamespace) {
      return Rejected(finalTarget), [];
    }
    outcome, edits := MakeEdits(m, current, finalTarget, post, talkNs);
  }

  /** The edits made are the plan up to and including the first that fails;
      the move is done exactly when none fails. */
  ghost predicate Made(m: Move, current: string, target: string, post: Edit -> bool,
                       talkNs: string -> Option<int>, outcome: MoveOutcome, edits: seq<Edit>) {
    var notified := Notified(m, talkNs);
    PlanPrefix(Plan(m, current, target, notified), post, outcome, edits)
    && (outcome.Done? ==> outcome.notified == notified.Some?)
  }

  /** The edits made are `plan` up to and including the first that fails. */
  ghost predicate PlanPrefix(plan: seq<Edit>, post: Edit -> bool, outcome: MoveOutcome, edits: seq<Edit>) {
    && !outcome.Rejected? && 0 < |edits| && edits <= plan
    && (forall i :: 0 <= i < |edits| - 1 ==> post(edits[i]))
    && (outcome.Failed? <==> !post(edits[|edits| - 1]))
    && (outcome.Done? ==> edits == plan)
  }

  /** The edits of a move to a valid target, one after the other. */
  method MakeEdits(m: Move, current: string, target: string, post: Edit -> bool, talkNs: string -> Option<int>)
    returns (outcome: MoveOutcome, edits: seq<Edit>)
    ensures Made(m, current, target, post, talkNs, outcome, edits)
  {
    ghost var notified := Notified(m, talkNs);
    var append := Appending(m, current, target);
    var replace := Replacing(m, current, target);
    ghost var tail: seq<Edit> := if notified.Some? then [Notifying(m, notified.value, current, target)] else [];
    ghost var plan := [append, replace] + tail;
    assert plan == Plan(m, current, target, notified);
    PlanSteps(append, replace, tail);
    edits := [append];
    if !post(append) {
      return Failed, edits;
    }
    edits := edits + [replace];
    if !post(replace) {
      return Failed, edits;
    }
    if WantsNotice(m) {
      var op := m.opUser.value;
      if talkNs("User talk:" + op) != Some(3) {
        assert tail == [];
        return Done(false), edits;
      }
      var notice := Notifying(m, op, current, target);
      assert tail == [notice];
      edits := edits + [notice];
      if !post(notice) {
        return Failed, edits;
      }
      return Done(true), edits;
    }
    assert tail == [];
    return Done(false), edits;
  }

  /** The first one and two edits of a plan, and the whole plan. */
  lemma PlanSteps(a: Edit, b: Edit, tail: seq<Edit>)
    ensures ([a, b] + tail)[..1] == [a] && ([a, b] + tail)[..2] == [a, b]
    ensures [a] + [b] + tail == [a, b] + tail && [a, b] + [] == [a, b]
  {
  }
}
