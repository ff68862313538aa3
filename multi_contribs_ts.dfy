/** The TypeScript multiContribs page: the form filled from the query string,
    the query string rebuilt from the form, the user list and its limits, the
    newest-first merge of everyone's contributions and the byte-diff label. */
module MultiContribsTs {
  import opened JsStrings
  import Seqs
  import opened UrlParams
  import opened UserContribs

  /** The "Results per user" choices. */
  const Limits: seq<int> := [10, 25, 50, 100, 250, 500]

  /** The ids of the namespace menu ("" is "All namespaces"). */
  const NamespaceIds: seq<string> :=
    ["", "0", "1", "2", "3", "4", "5", "6", "7", "8", "9", "10", "11", "12", "13",
     "14", "15", "100", "101", "118", "119", "828", "829"]

  const DefaultLimit: string := "50"

  /** The form's inputs: the users box, the limit, namespace and tag menus and
      the page-creations checkbox. */
  datatype Form = Form(users: string, limit: string, namespace: string, tag: string, newOnly: bool)

  /** The form as first rendered: empty box, first option of every menu, unchecked. */
  const Rendered: Form := Form("", "10", "", "", false)

  // ---------------------------------------------------------------------------
  // load_from_url

  /** A limit the page accepts from the query string: non-empty, and `parseInt`
      of it is one of the menu's limits. */
  predicate AllowedLimit(l: string) {
    l != "" && ParseInt(l).Some? && ParseInt(l).value in Limits
  }

  /** The form after `load_from_url` read the query `q`. */
  function LoadedForm(f: Form, q: seq<Entry>): (r: Form)
    ensures r.limit == DefaultLimit || AllowedLimit(r.limit)
    ensures r.namespace == f.namespace || r.namespace in NamespaceIds
    ensures Get(q, "new").Some? ==> (r.newOnly <==> Get(q, "new").value == "1" || Get(q, "new").value == "true")
  {
    Form(UsersFrom(f, q), LimitFrom(q), NamespaceFrom(f, q), TagFrom(f, q), NewOnlyFrom(f, q))
  }

  /** The limit is first reset to "50", then replaced by an accepted `limit`. */
  function LimitFrom(q: seq<Entry>): string
  {
    match Get(q, "limit")
    case Some(l) => if AllowedLimit(l) then l else DefaultLimit
    case None => DefaultLimit
  }

  function NamespaceFrom(f: Form, q: seq<Entry>): string
  {
    match Get(q, "namespace")
    case Some(n) => if n != "" && n in NamespaceIds then n else ""
    case None => f.namespace
  }

  function TagFrom(f: Form, q: seq<Entry>): string
  {
    match Get(q, "tag")
    case Some(t) => if t != "" then t else f.tag
    case None => f.tag
  }

  function NewOnlyFrom(f: Form, q: seq<Entry>): bool
  {
    match Get(q, "new")
    case Some(v) => v == "1" || v == "true"
    case None => f.newOnly
  }

  /** `users.split(",").join("\n")` into the box, for a non-empty `users`. */
  function UsersFrom(f: Form, q: seq<Entry>): string
  {
    match Get(q, "users")
    case Some(u) => if u != "" then Join(Split(u, ','), "\n") else f.users
    case None => f.users
  }

  lemma DefaultLimitAllowed()
    ensures AllowedLimit(DefaultLimit)
  {
    assert NatToString(50) == DefaultLimit;
    ParseIntOfNat(50);
  }

  /** The limit field always ends up a whitelisted limit; a limit from the query
      is kept exactly when it is one. */
  lemma LoadedLimit(f: Form, q: seq<Entry>)
    ensures AllowedLimit(LoadedForm(f, q).limit)
    ensures Get(q, "limit").Some? ==>
              (LoadedForm(f, q).limit == Get(q, "limit").value <==> AllowedLimit(Get(q, "limit").value))
  {
    DefaultLimitAllowed();
  }

  /** A namespace from the query is kept exactly when it is a known id, and the
      field is then "" or a known id. */
  lemma LoadedNamespace(f: Form, q: seq<Entry>)
    ensures Get(q, "namespace").Some? ==>
              && LoadedForm(f, q).namespace in NamespaceIds
              && (LoadedForm(f, q).namespace == Get(q, "namespace").value <==> Get(q, "namespace").value in NamespaceIds)
    ensures Get(q, "namespace").None? ==> LoadedForm(f, q).namespace == f.namespace
  {
  }

  /** `new` checks the box exactly for "1" or "true". */
  lemma LoadedNewOnly(f: Form, q: seq<Entry>, v: string)
    requires Get(q, "new") == Some(v)
    ensures LoadedForm(f, q).newOnly <==> v == "1" || v == "true"
  {
  }

  /** A non-empty `users` value lands in the box with every comma turned into a
      line break. */
  lemma LoadedUsers(f: Form, q: seq<Entry>, u: string)
    requires Get(q, "users") == Some(u) && u != ""
    ensures LoadedForm(f, q).users == ReplaceAllChar(u, ',', '\n')
  {
    SplitJoinReplaces(u, ',', '\n');
  }

  // ---------------------------------------------------------------------------
  // update_url

  predicate NotBlank(u: string) { Trim(u) != "" }

  /** The non-blank lines of the trimmed users box, as `update_url` reads it. */
  function UrlUsers(text: string): (r: seq<string>)
  {
    Seqs.Filter(Split(Trim(text), '\n'), NotBlank)
  }

  function Opt(b: bool, e: Entry): seq<Entry> { if b then [e] else [] }

  /** The pairs after `if (b) params.set(e.0, e.1)` on pairs without that name. */
  function SetIfNew(ps: seq<Entry>, b: bool, e: Entry): seq<Entry> { ps + Opt(b, e) }

  /** The pairs `update_url` puts in the query: each field only when it differs
      from its default, in the order users, limit, namespace, tag, new. */
  function UrlEntries(f: Form): (r: seq<Entry>)
  {
    Entries(UrlUsers(f.users), f)
  }

  function Entries(users: seq<string>, f: Form): (r: seq<Entry>)
    ensures |r| == (if |users| > 0 then 1 else 0) + (if f.limit != DefaultLimit then 1 else 0)
                   + (if f.namespace != "" then 1 else 0) + (if f.tag != "" then 1 else 0)
                   + (if f.newOnly then 1 else 0)
  {
    var ps := SetIfNew([], |users| > 0, ("users", Join(users, ",")));
    var ps := SetIfNew(ps, f.limit != DefaultLimit, ("limit", f.limit));
    var ps := SetIfNew(ps, f.namespace != "", ("namespace", f.namespace));
    var ps := SetIfNew(ps, f.tag != "", ("tag", f.tag));
    SetIfNew(ps, f.newOnly, ("new", "1"))
  }

  /** Every pair of `ps` has one of the names `ks`. */
  ghost predicate NamedAmong(ps: seq<Entry>, ks: seq<string>) {
    forall i :: 0 <= i < |ps| ==> ps[i].0 in ks
  }

  /** One `if (cond) params.set(name, value)` on pairs named among `ks`, for a
      name not among them: the pair is appended when the condition holds. */
  method SetIf(ps: seq<Entry>, cond: bool, name: string, value: string, ghost ks: seq<string>)
    returns (r: seq<Entry>)
    requires NamedAmong(ps, ks) && name !in ks
    ensures r == SetIfNew(ps, cond, (name, value))
    ensures NamedAmong(r, ks + [name])
  {
    r := ps;
    if cond {
      SetNew(ps, name, value);
      r := Set(r, name, value);
    } else {
      assert ps + [] == ps;
    }
  }

  /** `update_url`'s `params.set` calls, one field after the other. */
  method BuildParams(users: seq<string>, f: Form) returns (ps: seq<Entry>)
    ensures ps == Entries(users, f)
  {
    ps := SetIf([], |users| > 0, "users", Join(users, ","), []);
    ps := SetIf(ps, f.limit != DefaultLimit, "limit", f.limit, ["users"]);
    ps := SetIf(ps, f.namespace != "", "namespace", f.namespace, ["users", "limit"]);
    ps := SetIf(ps, f.tag != "", "tag", f.tag, ["users", "limit", "namespace"]);
    ps := SetIf(ps, f.newOnly, "new", "1", ["users", "limit", "namespace", "tag"]);
  }

  /** Appending an optional pair: names already present keep their value. */
  lemma GetAppendOpt(ps: seq<Entry>, b: bool, e: Entry, k: string)
    ensures Get(ps + Opt(b, e), k) == if Get(ps, k).Some? then Get(ps, k) else if b && e.0 == k then Some(e.1) else None
  {
    GetHas(ps, k);
    if b {
      GetSnoc(ps, e.0, e.1, k);
    } else {
      assert ps + [] == ps;
    }
  }

  /** `get` on the pairs built for `users` and `f`: the first of the fields
      that is set and has that name. */
  lemma EntriesGet(users: seq<string>, f: Form, k: string)
    ensures Get(Entries(users, f), k) ==
        if |users| > 0 && k == "users" then Some(Join(users, ","))
        else if f.limit != DefaultLimit && k == "limit" then Some(f.limit)
        else if f.namespace != "" && k == "namespace" then Some(f.namespace)
        else if f.tag != "" && k == "tag" then Some(f.tag)
        else if f.newOnly && k == "new" then Some("1")
        else None
  {
    var e0 := SetIfNew([], |users| > 0, ("users", Join(users, ",")));
    var e1 := SetIfNew(e0, f.limit != DefaultLimit, ("limit", f.limit));
    var e2 := SetIfNew(e1, f.namespace != "", ("namespace", f.namespace));
    var e3 := SetIfNew(e2, f.tag != "", ("tag", f.tag));
    GetAppendOpt([], |users| > 0, ("users", Join(users, ",")), k);
    GetAppendOpt(e0, f.limit != DefaultLimit, ("limit", f.limit), k);
    GetAppendOpt(e1, f.namespace != "", ("namespace", f.namespace), k);
    GetAppendOpt(e2, f.tag != "", ("tag", f.tag), k);
    GetAppendOpt(e3, f.newOnly, ("new", "1"), k);
  }

  /** The query holds each field exactly when it is not the default, with its value. */
  lemma UrlOmitsDefaults(f: Form)
    ensures Get(UrlEntries(f), "users") == if |UrlUsers(f.users)| > 0 then Some(Join(UrlUsers(f.users), ",")) else None
    ensures Get(UrlEntries(f), "limit") == if f.limit != DefaultLimit then Some(f.limit) else None
    ensures Get(UrlEntries(f), "namespace") == if f.namespace != "" then Some(f.namespace) else None
    ensures Get(UrlEntries(f), "tag") == if f.tag != "" then Some(f.tag) else None
    ensures Get(UrlEntries(f), "new") == if f.newOnly then Some("1") else None
  {
    EntriesGet(UrlUsers(f.users), f, "users");
    EntriesGet(UrlUsers(f.users), f, "limit");
    EntriesGet(UrlUsers(f.users), f, "namespace");
    EntriesGet(UrlUsers(f.users), f, "tag");
    EntriesGet(UrlUsers(f.users), f, "new");
  }

  /** Reading back the query that `update_url` wrote into a freshly rendered
      form restores the form, with the users box tidied to its non-blank lines;
      it reloads exactly when there is a user line. */
  lemma UrlRoundTrip(f: Form)
    requires AllowedLimit(f.limit) && f.namespace in NamespaceIds
    requires forall i :: 0 <= i < |UrlUsers(f.users)| ==> ',' !in UrlUsers(f.users)[i]
    ensures LoadedForm(Rendered, UrlEntries(f)) == f.(users := Join(UrlUsers(f.users), "\n"))
    ensures HasKey(UrlEntries(f), "users") <==> |UrlUsers(f.users)| > 0
  {
    UrlOmitsDefaults(f);
    GetHas(UrlEntries(f), "users");
    RoundTripLimit(f);
    RoundTripUsers(f);
  }

  lemma RoundTripLimit(f: Form)
    requires AllowedLimit(f.limit)
    ensures LimitFrom(UrlEntries(f)) == f.limit
  {
    EntriesGet(UrlUsers(f.users), f, "limit");
    DefaultLimitAllowed();
  }

  lemma RoundTripUsers(f: Form)
    requires forall i :: 0 <= i < |UrlUsers(f.users)| ==> ',' !in UrlUsers(f.users)[i]
    ensures UsersFrom(Rendered, UrlEntries(f)) == Join(UrlUsers(f.users), "\n")
  {
    var users := UrlUsers(f.users);
    EntriesGet(UrlUsers(f.users), f, "users");
    if |users| > 0 {
      SplitOfJoin(users, ',');
      assert Join(users, ",") != "" by {
        assert NotBlank(users[0]);
        JoinHasFirst(users, ",");
      }
    }
  }

  // ---------------------------------------------------------------------------
  // load_contributions

  /** A line of the users box: blank lines give `null`, the others the
      normalised title of the line as written (`normalize` stands for
      `mw.Title.newFromText(u, 2)?.getPrefixedText()`). */
  function LineParser(normalize: string -> Option<string>): string -> Option<string>
  {
    (u: string) => if Trim(u) == "" then None else normalize(u)
  }

  function Users(f: Form, normalize: string -> Option<string>): seq<string>
  {
    ParseUsers(f.users, LineParser(normalize))
  }

  /** The list is asked for: at least one user and no more than the limit. */
  predicate Asks(f: Form, normalize: string -> Option<string>) {
    0 < |Users(f, normalize)| <= UserLimit
  }

  /** A missing `query` makes `result.query.usercontribs` throw this. */
  const MissingQueryMessage: string := "Cannot read properties of undefined (reading 'usercontribs')"

  function TsReply(r: Response): Reply
  {
    match r
    case Failure(m) => Thrown(m)
    case Success(None) => Thrown(MissingQueryMessage)
    case Success(Some(q)) => Listed(q.usercontribs)
  }

  /** What the loop gets for `user`: the request names the trimmed user. */
  function Replies(f: Form, api: Request -> Response): string -> Reply
  {
    (u: string) => TsReply(api(RequestFor(Trim(u), f.limit, f.namespace, f.tag, f.newOnly)))
  }

  function Gathering(f: Form, normalize: string -> Option<string>, api: Request -> Response): Gathered
  {
    Gather(Users(f, normalize), Replies(f, api), Trim)
  }

  /** What the results pane ends up showing after `load_contributions`. */
  function Outcome(f: Form, normalize: string -> Option<string>, api: Request -> Response): (r: Results)
    ensures |Users(f, normalize)| == 0 ==> r == Notice(EnterUsersMessage)
    ensures |Users(f, normalize)| > UserLimit ==> r == Notice(TooManyUsersMessage)
    ensures r.Listing? ==> 0 < |Users(f, normalize)| <= UserLimit
  {
    var users := Users(f, normalize);
    if |users| == 0 then Notice(EnterUsersMessage)
    else if |users| > UserLimit then Notice(TooManyUsersMessage)
    else match Gathering(f, normalize, api)
      case Aborted(m) => Notice(ErrorPrefix + m)
      case Gathered(cs) => Render(Merged(cs))
  }

  /** No users, or too many, is answered before any request: the outcome does
      not depend on the API. */
  lemma GatesBeforeRequests(f: Form, normalize: string -> Option<string>, api: Request -> Response,
                            other: Request -> Response)
    requires !Asks(f, normalize)
    ensures Outcome(f, normalize, api) == Outcome(f, normalize, other)
    ensures Outcome(f, normalize, api) == Notice(EnterUsersMessage) || Outcome(f, normalize, api) == Notice(TooManyUsersMessage)
  {
  }

  /** A listing shows the merged contributions of a loop that did not fail. */
  lemma OutcomeListing(f: Form, normalize: string -> Option<string>, api: Request -> Response)
    requires Outcome(f, normalize, api).Listing?
    ensures Gathering(f, normalize, api).Gathered?
    ensures Outcome(f, normalize, api).items == Seqs.Map(Merged(Gathering(f, normalize, api).contribs), View)
  {
  }

  /** A listing is newest first. */
  lemma ListingNewestFirst(f: Form, normalize: string -> Option<string>, api: Request -> Response)
    requires Outcome(f, normalize, api).Listing?
    ensures var items := Outcome(f, normalize, api).items;
      forall i, j :: 0 <= i < j < |items| ==> items[i].timestamp >= items[j].timestamp
  {
    OutcomeListing(f, normalize, api);
    MergedNewestFirst(Gathering(f, normalize, api).contribs);
  }

  lemma ItemOf(cs: seq<Contribution>, it: Item) returns (k: nat)
    requires it in Seqs.Map(cs, View)
    ensures k < |cs| && View(cs[k]) == it
  {
    var m := Seqs.Map(cs, View);
    k :| 0 <= k < |m| && m[k] == it;
  }

  /** Every entry of a listing is stamped with the trimmed name of a user asked. */
  lemma ListingStamped(f: Form, normalize: string -> Option<string>, api: Request -> Response)
    requires Outcome(f, normalize, api).Listing?
    ensures var users := Users(f, normalize);
      forall it :: it in Outcome(f, normalize, api).items ==>
        exists i :: 0 <= i < |users| && it.user == Trim(users[i])
  {
    var users := Users(f, normalize);
    OutcomeListing(f, normalize, api);
    var cs := Gathering(f, normalize, api).contribs;
    GatherStamps(users, Replies(f, api), Trim);
    var m := Merged(cs);
    forall it | it in Outcome(f, normalize, api).items
      ensures exists i :: 0 <= i < |users| && it.user == Trim(users[i])
    {
      var k := ItemOf(m, it);
      MergedFrom(cs, m[k]);
    }
  }

  /** With no failed request, every contribution a user's answer lists appears,
      stamped with that user's trimmed name. */
  lemma ListingComplete(f: Form, normalize: string -> Option<string>, api: Request -> Response,
                        i: nat, c: Contribution)
    requires Asks(f, normalize) && Gathering(f, normalize, api).Gathered?
    requires var users := Users(f, normalize); var r := Replies(f, api);
      i < |users| && r(users[i]).Listed? && r(users[i]).usercontribs.Some?
      && c in r(users[i]).usercontribs.value
    ensures Outcome(f, normalize, api).Listing?
    ensures View(c.(user := Trim(Users(f, normalize)[i]))) in Outcome(f, normalize, api).items
  {
    var users := Users(f, normalize);
    var cs := Gathering(f, normalize, api).contribs;
    var d := c.(user := Trim(users[i]));
    GatherKeeps(users, Replies(f, api), Trim, i, c);
    var k := MergedHas(cs, d);
    assert Render(Merged(cs)).items[k] == View(d);
  }

  /** A request that throws ends in the error notice; otherwise the merged
      list is rendered. */
  lemma FailureReported(f: Form, normalize: string -> Option<string>, api: Request -> Response)
    requires Asks(f, normalize)
    ensures (exists i :: 0 <= i < |Users(f, normalize)| && Replies(f, api)(Users(f, normalize)[i]).Thrown?)
            ==> exists m :: Outcome(f, normalize, api) == Notice(ErrorPrefix + m)
    ensures !(exists i :: 0 <= i < |Users(f, normalize)| && Replies(f, api)(Users(f, normalize)[i]).Thrown?)
            ==> Gathering(f, normalize, api).Gathered?
                && Outcome(f, normalize, api) == Render(Merged(Gathering(f, normalize, api).contribs))
  {
    GatherAborts(Users(f, normalize), Replies(f, api), Trim);
    var g := Gathering(f, normalize, api);
    if g.Aborted? {
      assert Outcome(f, normalize, api) == Notice(ErrorPrefix + g.message);
    }
  }

  // ---------------------------------------------------------------------------
  // render_results

  predicate Gain(d: Option<int>) { d.Some? && d.value > 0 }

  /** The weight of the byte diff: bold from 500 bytes either way. */
  predicate Bold(d: Option<int>) { d.Some? && (d.value >= 500 || d.value <= -500) }

  /** `plus_sign + (contrib.sizediff || 0)`. */
  function Bytes(d: Option<int>): (r: string)
    ensures |r| > 0
    ensures Gain(d) ==> r[0] == '+'
  {
    var v := if d.Some? then d.value else 0;
    if v > 0 then "+" + IntToString(v) else IntToString(v)
  }

  /** The label starts with "+" exactly when the page grew. */
  lemma BytesSign(d: Option<int>)
    ensures Bytes(d)[0] == '+' <==> Gain(d)
  {
    var v := if d.Some? then d.value else 0;
    assert IsDigit(NatToString(if v < 0 then -v else v)[0]);
  }

  /** The label reads back as the size difference, 0 when it is missing. */
  lemma BytesParses(d: Option<int>)
    ensures ParseInt(Bytes(d)) == Some(if d.Some? then d.value else 0)
  {
    var v := if d.Some? then d.value else 0;
    var r := Bytes(d);
    if v > 0 {
      ParseIntOfSigned('+', v, r);
    } else if v < 0 {
      var n: nat := -v;
      ParseIntOfSigned('-', n, r);
    } else {
      ParseIntOfNat(0);
    }
  }

  function View(c: Contribution): (r: Item)
    ensures r.revid == c.revid && r.title == c.title && r.user == c.user && r.timestamp == c.timestamp
    ensures r.isNew == c.isNew && r.current == c.top
  {
    Item(c.revid, c.title, c.user, c.timestamp, c.isNew, Bytes(c.sizediff), Bold(c.sizediff),
         Gain(c.sizediff), if c.comment.Some? then c.comment.value else "",
         if c.tags.Some? then c.tags.value else [], c.top)
  }

  /** An entry's byte diff is bold exactly from 500 bytes either way, and its
      label shows "+" exactly when the page grew and reads back as the size
      difference. */
  lemma ItemBytes(c: Contribution)
    ensures View(c).bold <==> c.sizediff.Some? && (c.sizediff.value >= 500 || -c.sizediff.value >= 500)
    ensures View(c).gain <==> View(c).bytes[0] == '+'
    ensures ParseInt(View(c).bytes) == Some(if c.sizediff.Some? then c.sizediff.value else 0)
  {
    BytesSign(c.sizediff);
    BytesParses(c.sizediff);
  }

  /** An empty list gets the "No contributions" notice, any other list one
      entry per contribution. */
  function Render(cs: seq<Contribution>): (r: Results)
    ensures r.Notice? <==> |cs| == 0
    ensures r.Listing? ==> |r.items| == |cs|
  {
    if |cs| == 0 then Notice(NoContributionsMessage) else Listing(Seqs.Map(cs, View))
  }

  /** The notice is shown exactly for an empty list, and a listing has as many
      entries as contributions, in their order. */
  lemma RenderShape(cs: seq<Contribution>)
    ensures Render(cs) == Notice(NoContributionsMessage) <==> |cs| == 0
    ensures Render(cs).Listing? ==>
              |Render(cs).items| == |cs| && forall k :: 0 <= k < |cs| ==> Render(cs).items[k].revid == cs[k].revid
  {
  }

  /** `render_results`'s `forEach` appending one entry per contribution. */
  method RenderResults(cs: seq<Contribution>) returns (r: Results)
    ensures r == Render(cs)
  {
    if |cs| == 0 {
      return Notice(NoContributionsMessage);
    }
    var items: seq<Item> := [];
    var i := 0;
    while i < |cs|
      invariant 0 <= i <= |cs| && items == Seqs.Map(cs[..i], View)
    {
      assert cs[..i + 1] == cs[..i] + [cs[i]];
      MapSnoc(cs[..i], cs[i]);
      items := items + [View(cs[i])];
      i := i + 1;
    }
    assert cs[..i] == cs;
    r := Listing(items);
  }

  lemma MapSnoc(cs: seq<Contribution>, c: Contribution)
    ensures Seqs.Map(cs + [c], View) == Seqs.Map(cs, View) + [View(c)]
  {
    var l, r := Seqs.Map(cs + [c], View), Seqs.Map(cs, View) + [View(c)];
    forall k | 0 <= k < |l| ensures l[k] == r[k] {
      if k < |cs| {
        assert (cs + [c])[k] == cs[k];
      }
    }
  }

  // ---------------------------------------------------------------------------
  // The page

  /** The page's state: the form, the results pane and the query string of
      the address bar. */
  class MultiContribs {
    var form: Form
    var results: Results
    var search: seq<Entry>

    constructor (query: seq<Entry>)
      ensures form == Rendered && results == Blank && search == query
    {
      form := Rendered;
      results := Blank;
      search := query;
    }

    /** `update_url`: the address bar's query becomes the form's pairs. */
    method UpdateUrl()
      modifies this
      ensures search == UrlEntries(form)
      ensures form == old(form) && results == old(results)
    {
      search := BuildParams(UrlUsers(form.users), form);
    }

    /** `load_contributions`, with `api` answering each request. */
    method LoadContributions(normalize: string -> Option<string>, api: Request -> Response)
      modifies this
      ensures form == old(form)
      ensures results == Outcome(form, normalize, api)
      ensures search == if Asks(form, normalize) then UrlEntries(form) else old(search)
    {
      var users := Users(form, normalize);
      if |users| == 0 {
        results := Notice(EnterUsersMessage);
        return;
      }
      if |users| > UserLimit {
        results := Notice(TooManyUsersMessage);
        return;
      }
      UpdateUrl();
      var g := Collect(users, Replies(form, api), Trim);
      if g.Aborted? {
        results := Notice(ErrorPrefix + g.message);
      } else {
        var all := Merged(g.contribs);
        results := RenderResults(all);
      }
    }

    /** `load_from_url`: the form takes the address bar's query, and a `users`
        entry loads the contributions. */
    method LoadFromUrl(normalize: string -> Option<string>, api: Request -> Response)
      modifies this
      ensures form == LoadedForm(old(form), old(search))
      ensures Get(old(search), "users").Some? ==>
                && results == Outcome(form, normalize, api)
                && search == if Asks(form, normalize) then UrlEntries(form) else old(search)
      ensures Get(old(search), "users").None? ==> results == old(results) && search == old(search)
    {
      form := LoadedForm(form, search);
      if Get(search, "users").Some? {
        LoadContributions(normalize, api);
      }
    }
  }
}
