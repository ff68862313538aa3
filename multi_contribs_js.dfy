/** The JavaScript multiContribs page: the same form and query string as the
    TypeScript page, read back without its whitelists, the user list normalised
    line by line, missing query results skipped, and wikilinks in edit summaries
    turned into anchors. */
module MultiContribsJs {
  import opened JsStrings
  import Seqs
  import opened UrlParams
  import opened UserContribs
  import Ts = MultiContribsTs

  // ---------------------------------------------------------------------------
  // parseUsers

  /** `mw.Title.newFromText(u.trim(), 2)` for each line; `normalize` stands for
      the title lookup, `None` for `null`. */
  function LineParser(normalize: string -> Option<string>): string -> Option<string>
  {
    (u: string) => normalize(Trim(u))
  }

  function Users(text: string, normalize: string -> Option<string>): seq<string>
  {
    ParseUsers(text, LineParser(normalize))
  }

  /** A name is listed exactly when some line, trimmed, normalises to it, and
      no name is listed twice. */
  lemma UsersParsed(text: string, normalize: string -> Option<string>, lines: seq<string>, x: string)
    requires lines == Split(Trim(text), '\n')
    ensures x in Users(text, normalize) <==> exists i :: 0 <= i < |lines| && normalize(Trim(lines[i])) == Some(x)
    ensures Seqs.NoDuplicates(Users(text, normalize))
  {
    ParseUsersMembers(text, LineParser(normalize), lines, x);
    ParseUsersFirstOccurrences(text, LineParser(normalize));
  }

  // ---------------------------------------------------------------------------
  // loadFromURL

  /** The form after `loadFromURL` read the query `q`. */
  function LoadedForm(f: Ts.Form, q: seq<Entry>): (r: Ts.Form)
    ensures r.limit != ""
    ensures Get(q, "limit").Some? && Get(q, "limit").value != "" ==> r.limit == Get(q, "limit").value
    ensures Get(q, "new").Some? ==> (r.newOnly <==> Get(q, "new").value == "1")
  {
    Ts.Form(UsersFrom(f, q), LimitFrom(q), NamespaceFrom(f, q), TagFrom(f, q), NewOnlyFrom(f, q))
  }

  /** `params.get("limit") || "50"`. */
  function LimitFrom(q: seq<Entry>): string
  {
    match Get(q, "limit")
    case Some(l) => if l != "" then l else Ts.DefaultLimit
    case None => Ts.DefaultLimit
  }

  function NamespaceFrom(f: Ts.Form, q: seq<Entry>): string
  {
    match Get(q, "namespace")
    case Some(n) => n
    case None => f.namespace
  }

  function TagFrom(f: Ts.Form, q: seq<Entry>): string
  {
    match Get(q, "tag")
    case Some(t) => t
    case None => f.tag
  }

  function NewOnlyFrom(f: Ts.Form, q: seq<Entry>): bool
  {
    match Get(q, "new")
    case Some(v) => v == "1"
    case None => f.newOnly
  }

  function UsersFrom(f: Ts.Form, q: seq<Entry>): string
  {
    match Get(q, "users")
    case Some(u) => Join(Split(u, ','), "\n")
    case None => f.users
  }

  /** Any non-empty `limit` is taken as it is; otherwise the limit is "50". */
  lemma LoadedLimit(f: Ts.Form, q: seq<Entry>)
    ensures LoadedForm(f, q).limit == if Get(q, "limit").Some? && Get(q, "limit").value != "" then Get(q, "limit").value else "50"
  {
  }

  /** `namespace` and `tag` are taken as they are, `new` checks the box only
      for "1", and `users` lands in the box with commas turned into line breaks. */
  lemma LoadedFields(f: Ts.Form, q: seq<Entry>)
    ensures LoadedForm(f, q).namespace == if Get(q, "namespace").Some? then Get(q, "namespace").value else f.namespace
    ensures LoadedForm(f, q).tag == if Get(q, "tag").Some? then Get(q, "tag").value else f.tag
    ensures LoadedForm(f, q).newOnly == if Get(q, "new").Some? then Get(q, "new").value == "1" else f.newOnly
    ensures LoadedForm(f, q).users == if Get(q, "users").Some? then ReplaceAllChar(Get(q, "users").value, ',', '\n') else f.users
  {
    if Get(q, "users").Some? {
      SplitJoinReplaces(Get(q, "users").value, ',', '\n');
    }
  }

  /** Unlike the TypeScript page, a limit outside the menu is kept, and "true"
      does not check the box. The kept limit is the model's: the form's limit is
      a string here, while on the page it is a `<select>`, whose value cannot be
      set to an entry that is not in its menu. */
  lemma LoadedUnchecked(f: Ts.Form)
    ensures LoadedForm(f, [("limit", "7")]).limit == "7"
    ensures Ts.LoadedForm(f, [("limit", "7")]).limit == "50"
    ensures !LoadedForm(f, [("new", "true")]).newOnly
    ensures Ts.LoadedForm(f, [("new", "true")]).newOnly
  {
    assert NatToString(7) == "7";
    ParseIntOfNat(7);
    assert !Ts.AllowedLimit("7");
  }

  // ---------------------------------------------------------------------------
  // updateURL

  /** `updateURL(users)` writes the same pairs as the TypeScript page, for the
      parsed user list: each field exactly when it is not the default. */
  lemma UrlOmitsDefaults(users: seq<string>, f: Ts.Form)
    ensures Get(Ts.Entries(users, f), "users") == if |users| > 0 then Some(Join(users, ",")) else None
    ensures Get(Ts.Entries(users, f), "limit") == if f.limit != "50" then Some(f.limit) else None
    ensures Get(Ts.Entries(users, f), "namespace") == if f.namespace != "" then Some(f.namespace) else None
    ensures Get(Ts.Entries(users, f), "tag") == if f.tag != "" then Some(f.tag) else None
    ensures Get(Ts.Entries(users, f), "new") == if f.newOnly then Some("1") else None
  {
    Ts.EntriesGet(users, f, "users");
    Ts.EntriesGet(users, f, "limit");
    Ts.EntriesGet(users, f, "namespace");
    Ts.EntriesGet(users, f, "tag");
    Ts.EntriesGet(users, f, "new");
  }

  /** Reading back the query written for `users` into a freshly rendered form
      restores the form, with one user per line in the box; it reloads exactly
      when there are users. */
  lemma UrlRoundTrip(users: seq<string>, f: Ts.Form)
    requires f.limit != ""
    requires forall i :: 0 <= i < |users| ==> ',' !in users[i]
    ensures LoadedForm(Ts.Rendered, Ts.Entries(users, f)) == f.(users := Join(users, "\n"))
    ensures HasKey(Ts.Entries(users, f), "users") <==> |users| > 0
  {
    UrlOmitsDefaults(users, f);
    GetHas(Ts.Entries(users, f), "users");
    if |users| > 0 {
      SplitOfJoin(users, ',');
    }
  }

  // ---------------------------------------------------------------------------
  // loadContributions

  /** `result.query?.usercontribs`: a failed request throws, a missing `query`
      lists nothing. */
  function JsReply(r: Response): Reply
  {
    match r
    case Failure(m) => Thrown(m)
    case Success(None) => Listed(None)
    case Success(Some(q)) => Listed(q.usercontribs)
  }

  /** A reply without `query` is skipped here, where the TypeScript page throws. */
  lemma MissingQuerySkipped(r: Response)
    ensures JsReply(r).Thrown? <==> r.Failure?
    ensures r == Success(None) ==> JsReply(r) == Listed(None) && Ts.TsReply(r).Thrown?
  {
  }

  /** What the loop gets for `user`: the request names the user as parsed. */
  function Replies(f: Ts.Form, api: Request -> Response): string -> Reply
  {
    (u: string) => JsReply(api(RequestFor(u, f.limit, f.namespace, f.tag, f.newOnly)))
  }

  /** `c.user = user`: the parsed name itself. */
  function Same(u: string): string { u }

  function Gathering(f: Ts.Form, normalize: string -> Option<string>, api: Request -> Response): Gathered
  {
    Gather(Users(f.users, normalize), Replies(f, api), Same)
  }

  predicate Asks(f: Ts.Form, normalize: string -> Option<string>) {
    0 < |Users(f.users, normalize)| <= UserLimit
  }

  /** What the results pane ends up showing after `loadContributions`. */
  function Outcome(f: Ts.Form, normalize: string -> Option<string>, api: Request -> Response): (r: Results)
    ensures |Users(f.users, normalize)| == 0 ==> r == Notice(EnterUsersMessage)
    ensures |Users(f.users, normalize)| > UserLimit ==> r == Notice(TooManyUsersMessage)
    ensures r.Listing? ==> 0 < |Users(f.users, normalize)| <= UserLimit
  {
    var users := Users(f.users, normalize);
    if |users| == 0 then Notice(EnterUsersMessage)
    else if |users| > UserLimit then Notice(TooManyUsersMessage)
    else match Gathering(f, normalize, api)
      case Aborted(m) => Notice(ErrorPrefix + m)
      case Gathered(cs) => Render(Merged(cs))
  }

  /** No users, or too many, is answered before any request. */
  lemma GatesBeforeRequests(f: Ts.Form, normalize: string -> Option<string>, api: Request -> Response,
                            other: Request -> Response)
    requires !Asks(f, normalize)
    ensures Outcome(f, normalize, api) == Outcome(f, normalize, other)
    ensures Outcome(f, normalize, api) == Notice(EnterUsersMessage) || Outcome(f, normalize, api) == Notice(TooManyUsersMessage)
  {
  }

  lemma OutcomeListing(f: Ts.Form, normalize: string -> Option<string>, api: Request -> Response)
    requires Outcome(f, normalize, api).Listing?
    ensures Gathering(f, normalize, api).Gathered?
    ensures Outcome(f, normalize, api).items == Seqs.Map(Merged(Gathering(f, normalize, api).contribs), View)
  {
  }

  /** A listing is newest first, and every entry names one of the users asked. */
  lemma ListingNewestFirst(f: Ts.Form, normalize: string -> Option<string>, api: Request -> Response)
    requires Outcome(f, normalize, api).Listing?
    ensures var items := Outcome(f, normalize, api).items;
      forall i, j :: 0 <= i < j < |items| ==> items[i].timestamp >= items[j].timestamp
  {
    OutcomeListing(f, normalize, api);
    MergedNewestFirst(Gathering(f, normalize, api).contribs);
  }

  lemma ItemOf(cs: seq<Contribution>, it: Item) returns (k: nat)
    requires it in Seqs.Map(cs, View)
    ensures k < |cs| && View(cs[k]) == it
  {
    var m := Seqs.Map(cs, View);
    k :| 0 <= k < |m| && m[k] == it;
  }

  lemma ListingStamped(f: Ts.Form, normalize: string -> Option<string>, api: Request -> Response)
    requires Outcome(f, normalize, api).Listing?
    ensures forall it :: it in Outcome(f, normalize, api).items ==> it.user in Users(f.users, normalize)
  {
    var users := Users(f.users, normalize);
    OutcomeListing(f, normalize, api);
    var cs := Gathering(f, normalize, api).contribs;
    GatherStamps(users, Replies(f, api), Same);
    var m := Merged(cs);
    forall it | it in Outcome(f, normalize, api).items
      ensures it.user in users
    {
      var k := ItemOf(m, it);
      MergedFrom(cs, m[k]);
    }
  }

  /** With no failed request, every contribution a user's answer lists appears
      under that user's name. */
  lemma ListingComplete(f: Ts.Form, normalize: string -> Option<string>, api: Request -> Response,
                        i: nat, c: Contribution)
    requires Asks(f, normalize) && Gathering(f, normalize, api).Gathered?
    requires var users := Users(f.users, normalize); var r := Replies(f, api);
      i < |users| && r(users[i]).Listed? && r(users[i]).usercontribs.Some?
      && c in r(users[i]).usercontribs.value
    ensures Outcome(f, normalize, api).Listing?
    ensures View(c.(user := Users(f.users, normalize)[i])) in Outcome(f, normalize, api).items
  {
    var users := Users(f.users, normalize);
    var cs := Gathering(f, normalize, api).contribs;
    var d := c.(user := Same(users[i]));
    GatherKeeps(users, Replies(f, api), Same, i, c);
    var k := MergedHas(cs, d);
    assert Render(Merged(cs)).items[k] == View(d);
  }

  /** A failed request ends in the error notice; otherwise the merged list is
      rendered. */
  lemma FailureReported(f: Ts.Form, normalize: string -> Option<string>, api: Request -> Response)
    requires Asks(f, normalize)
    ensures (exists i :: 0 <= i < |Users(f.users, normalize)| && Replies(f, api)(Users(f.users, normalize)[i]).Thrown?)
            ==> exists m :: Outcome(f, normalize, api) == Notice(ErrorPrefix + m)
    ensures !(exists i :: 0 <= i < |Users(f.users, normalize)| && Replies(f, api)(Users(f.users, normalize)[i]).Thrown?)
            ==> Gathering(f, normalize, api).Gathered?
                && Outcome(f, normalize, api) == Render(Merged(Gathering(f, normalize, api).contribs))
  {
    GatherAborts(Users(f.users, normalize), Replies(f, api), Same);
    var g := Gathering(f, normalize, api);
    if g.Aborted? {
      assert Outcome(f, normalize, api) == Notice(ErrorPrefix + g.message);
    }
  }

  // ---------------------------------------------------------------------------
  // renderContribItem

  predicate PageChar(c: char) { c != ']' && c != '|' }

  predicate LabelChar(c: char) { c != ']' }

  /** The wikilink pattern `[[page]]` or `[[page|label]]` tried at the start of
      `s`: the length of the match, the page and the label. The page runs to the
      first `]` or `|`, the label to the first `]`, and both are non-empty. */
  function Link(s: string): (r: Option<(nat, string, Option<string>)>)
    ensures r.Some? ==> 2 < r.value.0 <= |s|
  {
    if |s| < 2 || s[0] != '[' || s[1] != '[' then None
    else
      var j := SkipWhile(s, 2, PageChar);
      if j == 2 then None
      else if j + 1 < |s| && s[j] == ']' && s[j + 1] == ']' then Some((j + 2, s[2..j], None))
      else if j < |s| && s[j] == '|' then
        var k := SkipWhile(s, j + 1, LabelChar);
        if k > j + 1 && k + 1 < |s| && s[k] == ']' && s[k + 1] == ']' then Some((k + 2, s[2..j], Some(s[j + 1..k])))
        else None
      else None
  }

  function Anchor(page: string, text: string): string
  {
    "<a href=\"/wiki/" + page + "\">" + text + "</a>"
  }

  /** The global `replace` of every wikilink by an anchor whose text is the
      label, or the page when there is none; the scan resumes after a match and
      otherwise moves on by one character. */
  function Linkify(s: string): (r: string)
    ensures (forall k :: 0 <= k < |s| ==> s[k] != '[') ==> r == s
    decreases |s|
  {
    if |s| == 0 then ""
    else match Link(s)
      case Some(m) => Anchor(m.1, if m.2.Some? then m.2.value else m.1) + Linkify(s[m.0..])
      case None => [s[0]] + Linkify(s[1..])
  }

  /** Text without `[` is copied, and the rest is rewritten on its own. */
  lemma {:induction false} LinkifyAfterPlain(a: string, t: string)
    requires '[' !in a
    ensures Linkify(a + t) == a + Linkify(t)
    decreases |a|
  {
    if |a| > 0 {
      var s := a + t;
      assert s[0] == a[0];
      assert s[1..] == a[1..] + t;
      LinkifyAfterPlain(a[1..], t);
      assert a == [a[0]] + a[1..];
    } else {
      assert a + t == t;
    }
  }

  /** A comment with no `[[` is left as it is. */
  lemma {:induction false} LinkifyPlain(s: string)
    requires forall k :: 0 <= k < |s| - 1 ==> !(s[k] == '[' && s[k + 1] == '[')
    ensures Linkify(s) == s
    decreases |s|
  {
    if |s| > 0 {
      assert Link(s).None?;
      LinkifyPlain(s[1..]);
      assert s == [s[0]] + s[1..];
    }
  }

  /** `[[page|label]]` becomes an anchor to the page showing the label. */
  lemma LinkifyLabelled(page: string, caption: string, rest: string)
    requires page != "" && forall k :: 0 <= k < |page| ==> PageChar(page[k])
    requires caption != "" && forall k :: 0 <= k < |caption| ==> LabelChar(caption[k])
    ensures Linkify("[[" + page + "|" + caption + "]]" + rest) == Anchor(page, caption) + Linkify(rest)
  {
    var s := "[[" + page + "|" + caption + "]]" + rest;
    var j := 2 + |page|;
    var k := j + 1 + |caption|;
    assert forall i :: 2 <= i < j ==> s[i] == page[i - 2];
    assert s[j] == '|';
    SkipWhileRun(s, 2, j, PageChar);
    assert forall i :: j + 1 <= i < k ==> s[i] == caption[i - j - 1];
    assert s[k] == ']' && s[k + 1] == ']';
    SkipWhileRun(s, j + 1, k, LabelChar);
    assert s[2..j] == page && s[j + 1..k] == caption && s[k + 2..] == rest;
    assert Link(s) == Some((k + 2, page, Some(caption)));
  }

  /** `[[page]]` becomes an anchor to the page showing the page. */
  lemma LinkifyBare(page: string, rest: string)
    requires page != "" && forall k :: 0 <= k < |page| ==> PageChar(page[k])
    ensures Linkify("[[" + page + "]]" + rest) == Anchor(page, page) + Linkify(rest)
  {
    var s := "[[" + page + "]]" + rest;
    var j := 2 + |page|;
    assert forall i :: 2 <= i < j ==> s[i] == page[i - 2];
    assert s[j] == ']' && s[j + 1] == ']';
    SkipWhileRun(s, 2, j, PageChar);
    assert s[2..j] == page && s[j + 2..] == rest;
    assert Link(s) == Some((j + 2, page, None));
  }

  /** One entry: the TypeScript page's fields, with the comment rewritten. */
  function View(c: Contribution): (r: Item)
    ensures r == Ts.View(c).(comment := r.comment)
    ensures c.comment.None? ==> r.comment == ""
  {
    Ts.View(c).(comment := if c.comment.Some? then Linkify(c.comment.value) else "")
  }

  /** The byte diff is bold exactly from 500 bytes either way, starts with "+"
      exactly when the page grew, and reads back as the size difference, 0
      when it is missing. */
  lemma BytesLabel(c: Contribution)
    ensures View(c).bold <==> c.sizediff.Some? && (c.sizediff.value >= 500 || -c.sizediff.value >= 500)
    ensures View(c).bytes[0] == '+' <==> c.sizediff.Some? && c.sizediff.value > 0
    ensures ParseInt(View(c).bytes) == Some(if c.sizediff.Some? then c.sizediff.value else 0)
  {
    Ts.BytesSign(c.sizediff);
    Ts.BytesParses(c.sizediff);
  }

  function Render(cs: seq<Contribution>): (r: Results)
  {
    if |cs| == 0 then Notice(NoContributionsMessage) else Listing(Seqs.Map(cs, View))
  }

  /** "No contributions" exactly for an empty list; a listing has one entry per
      contribution, in order. */
  lemma RenderShape(cs: seq<Contribution>)
    ensures Render(cs) == Notice(NoContributionsMessage) <==> |cs| == 0
    ensures Render(cs).Listing? ==>
              |Render(cs).items| == |cs| && forall k :: 0 <= k < |cs| ==> Render(cs).items[k] == View(cs[k])
  {
  }

  // ---------------------------------------------------------------------------
  // The page

  class MultiContribs {
    var form: Ts.Form
    var results: Results
    var search: seq<Entry>

    constructor (query: seq<Entry>)
      ensures form == Ts.Rendered && results == Blank && search == query
    {
      form := Ts.Rendered;
      results := Blank;
      search := query;
    }

    /** `updateURL(users)`: the address bar's query becomes the pairs for the
        parsed users and the form. */
    method UpdateUrl(users: seq<string>)
      modifies this
      ensures search == Ts.Entries(users, form)
      ensures form == old(form) && results == old(results)
    {
      search := Ts.BuildParams(users, form);
    }

    /** `loadContributions`, with `api` answering each request. */
    method LoadContributions(normalize: string -> Option<string>, api: Request -> Response)
      modifies this
      ensures form == old(form)
      ensures results == Outcome(form, normalize, api)
      ensures search == if Asks(form, normalize) then Ts.Entries(Users(form.users, normalize), form) else old(search)
    {
      var users := Users(form.users, normalize);
      if |users| == 0 {
        results := Notice(EnterUsersMessage);
        return;
      }
      if |users| > UserLimit {
        results := Notice(TooManyUsersMessage);
        return;
      }
      UpdateUrl(users);
      var g := Collect(users, Replies(form, api), Same);
      if g.Aborted? {
        results := Notice(ErrorPrefix + g.message);
      } else {
        results := Render(Merged(g.contribs));
      }
    }

    /** `loadFromURL`: the form takes the address bar's query, and a `users`
        entry loads the contributions. */
    method LoadFromUrl(normalize: string -> Option<string>, api: Request -> Response)
      modifies this
      ensures form == LoadedForm(old(form), old(search))
      ensures HasKey(old(search), "users") ==>
                && results == Outcome(form, normalize, api)
                && search == if Asks(form, normalize) then Ts.Entries(Users(form.users, normalize), form) else old(search)
      ensures !HasKey(old(search), "users") ==> results == old(results) && search == old(search)
    {
      GetHas(search, "users");
      form := LoadedForm(form, search);
      if HasKey(search, "users") {
        LoadContributions(normalize, api);
      }
    }
  }
}
