/** What both multiContribs scripts share about `list=usercontribs`: the
    records the API returns, the request one user gets, the loop that asks
    for each user in turn and stamps the replies, the newest-first merge, and
    the texts the results pane shows. */
module UserContribs {
  import opened JsStrings
  import Seqs

  /** `lines.map(parse).filter((u) => u !== null)`. */
  function Present(lines: seq<string>, parse: string -> Option<string>): (r: seq<string>)
  {
    if |lines| == 0 then []
    else
      var last := parse(lines[|lines| - 1]);
      Present(lines[..|lines| - 1], parse) + (if last.Some? then [last.value] else [])
  }

  lemma {:induction false} InPresent(lines: seq<string>, parse: string -> Option<string>, x: string)
    ensures x in Present(lines, parse) <==> exists i :: 0 <= i < |lines| && parse(lines[i]) == Some(x)
  {
    if |lines| > 0 {
      var init := lines[..|lines| - 1];
      InPresent(init, parse, x);
      assert forall i :: 0 <= i < |init| ==> init[i] == lines[i];
      if x in Present(init, parse) {
        var i :| 0 <= i < |init| && parse(init[i]) == Some(x);
        assert parse(lines[i]) == Some(x);
      }
    }
  }

  /** The user list of a text box: its trimmed lines parsed one by one, the
      failures dropped, then `[...new Set(...)]`. */
  function ParseUsers(text: string, parse: string -> Option<string>): (r: seq<string>)
    ensures Seqs.NoDuplicates(r)
    ensures forall x :: x in r <==> x in Present(Split(Trim(text), '\n'), parse)
  {
    Seqs.Dedupe(Present(Split(Trim(text), '\n'), parse))
  }

  /** A name is in the list exactly when some line parses to it. */
  lemma ParseUsersMembers(text: string, parse: string -> Option<string>, lines: seq<string>, x: string)
    requires lines == Split(Trim(text), '\n')
    ensures x in ParseUsers(text, parse) <==> exists i :: 0 <= i < |lines| && parse(lines[i]) == Some(x)
  {
    InPresent(lines, parse, x);
    assert x in Seqs.Dedupe(Present(lines, parse)) <==> x in Present(lines, parse);
  }

  /** The list has no repeats, and keeps each name where it first appears. */
  lemma ParseUsersFirstOccurrences(text: string, parse: string -> Option<string>)
    ensures Seqs.NoDuplicates(ParseUsers(text, parse))
    ensures ParseUsers(text, parse) == Seqs.FirstOccurrences(Present(Split(Trim(text), '\n'), parse))
  {
    Seqs.DedupeKeepsFirstOccurrences(Present(Split(Trim(text), '\n'), parse));
  }

  /** One entry of `query.usercontribs`; `timestamp` stands for the
      `new Date(timestamp).getTime()` the merge compares. */
  datatype Contribution = Contribution(
    revid: nat, title: string, timestamp: int, comment: Option<string>, size: int,
    sizediff: Option<int>, tags: Option<seq<string>>, user: string, isNew: bool, top: bool)

  /** The parameters of one request that depend on the form (`action`,
      `list` and `ucprop` are fixed); `uclimit` is `parseInt` of the limit
      field, `None` for `NaN`. */
  datatype Request = Request(
    ucuser: string, uclimit: Option<int>, ucnamespace: Option<string>,
    uctag: Option<string>, ucshow: Option<string>)

  /** Names a request for `user`: namespace and tag only when chosen, and
      `ucshow=new` only for page creations. */
  function RequestFor(user: string, limit: string, namespace: string, tag: string, newOnly: bool): (r: Request)
    ensures r.ucuser == user && r.uclimit == ParseInt(limit)
    ensures r.ucnamespace.Some? <==> namespace != ""
    ensures r.uctag.Some? <==> tag != ""
    ensures r.ucshow.Some? <==> newOnly
  {
    Request(user, ParseInt(limit),
            if namespace != "" then Some(namespace) else None,
            if tag != "" then Some(tag) else None,
            if newOnly then Some("new") else None)
  }

  /** The `query` member of an answer. */
  datatype Query = Query(usercontribs: Option<seq<Contribution>>)

  /** How `api.get` settles: rejected with a message, or resolved with an
      answer that may lack `query`. */
  datatype Response = Failure(message: string) | Success(query: Option<Query>)

  /** What the loop makes of one response: an exception that ends it, or the
      contributions to push (none when `usercontribs` is missing). */
  datatype Reply = Thrown(message: string) | Listed(usercontribs: Option<seq<Contribution>>)

  /** The loop's outcome: every pushed contribution, or the first exception. */
  datatype Gathered = Gathered(contribs: seq<Contribution>) | Aborted(message: string)

  /** `contrib.user = name` on every contribution of a reply. */
  function Stamp(cs: seq<Contribution>, name: string): (r: seq<Contribution>)
  {
    Seqs.Map(cs, (c: Contribution) => c.(user := name))
  }

  /** The users asked in order; each reply's contributions are stamped with
      `name(user)` and pushed; the first exception ends the loop. */
  function Gather(users: seq<string>, reply: string -> Reply, name: string -> string): (r: Gathered)
    ensures r.Aborted? ==> exists i :: 0 <= i < |users| && reply(users[i]) == Thrown(r.message)
  {
    if |users| == 0 then Gathered([])
    else
      var last := users[|users| - 1];
      match Gather(users[..|users| - 1], reply, name)
      case Aborted(m) => Aborted(m)
      case Gathered(cs) =>
        match reply(last)
        case Thrown(m) => Aborted(m)
        case Listed(None) => Gathered(cs)
        case Listed(Some(list)) => Gathered(cs + Stamp(list, name(last)))
  }

  /** The `for (const user of users)` loop with its inner `forEach` push. */
  method Collect(users: seq<string>, reply: string -> Reply, name: string -> string) returns (g: Gathered)
    ensures g == Gather(users, reply, name)
  {
    var contribs: seq<Contribution> := [];
    var i := 0;
    while i < |users|
      invariant 0 <= i <= |users|
      invariant Gather(users[..i], reply, name) == Gathered(contribs)
    {
      assert users[..i + 1][..i] == users[..i];
      var user := users[i];
      var r := reply(user);
      if r.Thrown? {
        g := Aborted(r.message);
        assert users[..i + 1] == users[..i] + [user];
        AbortedStays(users, i + 1, reply, name);
        return;
      }
      if r.usercontribs.Some? {
        contribs := PushStamped(contribs, r.usercontribs.value, name(user));
      }
      i := i + 1;
    }
    assert users[..i] == users;
    g := Gathered(contribs);
  }

  /** `list.forEach((c) => { c.user = n; contribs.push(c); })`. */
  method PushStamped(contribs: seq<Contribution>, list: seq<Contribution>, n: string) returns (r: seq<Contribution>)
    ensures r == contribs + Stamp(list, n)
  {
    r := contribs;
    var j := 0;
    while j < |list|
      invariant 0 <= j <= |list|
      invariant r == contribs + Stamp(list[..j], n)
    {
      assert list[..j + 1] == list[..j] + [list[j]];
      StampSnoc(list[..j], list[j], n);
      r := r + [list[j].(user := n)];
      j := j + 1;
    }
    assert list[..j] == list;
  }

  lemma StampSnoc(cs: seq<Contribution>, c: Contribution, name: string)
    ensures Stamp(cs + [c], name) == Stamp(cs, name) + [c.(user := name)]
  {
    var l, r := Stamp(cs + [c], name), Stamp(cs, name) + [c.(user := name)];
    assert |l| == |r|;
    forall k | 0 <= k < |l| ensures l[k] == r[k] {
      if k < |cs| {
        assert (cs + [c])[k] == cs[k];
      }
    }
  }

  /** Once a reply throws, the loop's outcome stays the failure. */
  lemma {:induction false} AbortedStays(users: seq<string>, i: nat, reply: string -> Reply, name: string -> string)
    requires 0 < i <= |users| && Gather(users[..i], reply, name).Aborted?
    ensures Gather(users, reply, name) == Gather(users[..i], reply, name)
    decreases |users| - i
  {
    if i < |users| {
      assert users[..i + 1][..i] == users[..i];
      AbortedStays(users, i + 1, reply, name);
    } else {
      assert users[..i] == users;
    }
  }

  /** The loop fails exactly when some user's reply throws. */
  lemma {:induction false} GatherAborts(users: seq<string>, reply: string -> Reply, name: string -> string)
    ensures Gather(users, reply, name).Aborted? <==> exists i :: 0 <= i < |users| && reply(users[i]).Thrown?
  {
    if |users| > 0 {
      var init := users[..|users| - 1];
      GatherAborts(init, reply, name);
      assert forall i :: 0 <= i < |init| ==> init[i] == users[i];
      if Gather(init, reply, name).Aborted? {
        var i :| 0 <= i < |init| && reply(init[i]).Thrown?;
        assert reply(users[i]).Thrown?;
      }
    }
  }

  /** Every gathered contribution carries the name of a requested user. */
  lemma {:induction false} GatherStamps(users: seq<string>, reply: string -> Reply, name: string -> string)
    requires Gather(users, reply, name).Gathered?
    ensures forall c :: c in Gather(users, reply, name).contribs ==>
              exists i :: 0 <= i < |users| && c.user == name(users[i])
  {
    if |users| > 0 {
      var init := users[..|users| - 1];
      var last := users[|users| - 1];
      GatherStamps(init, reply, name);
      assert forall i :: 0 <= i < |init| ==> init[i] == users[i];
      var cs := Gather(init, reply, name).contribs;
      var r := reply(last);
      if r.Listed? && r.usercontribs.Some? {
        var st := Stamp(r.usercontribs.value, name(last));
        forall c: Contribution | c in cs + st ensures exists i :: 0 <= i < |users| && c.user == name(users[i]) {
          if c in st {
            var k :| 0 <= k < |st| && st[k] == c;
            assert c.user == name(users[|users| - 1]);
          } else {
            assert c in cs;
          }
        }
      }
    }
  }

  /** Every contribution some user's reply lists is pushed, stamped with that
      user's name. */
  lemma {:induction false} GatherKeeps(users: seq<string>, reply: string -> Reply, name: string -> string,
                                       i: nat, c: Contribution)
    requires Gather(users, reply, name).Gathered?
    requires i < |users| && reply(users[i]).Listed? && reply(users[i]).usercontribs.Some?
    requires c in reply(users[i]).usercontribs.value
    ensures c.(user := name(users[i])) in Gather(users, reply, name).contribs
  {
    var init := users[..|users| - 1];
    var last := users[|users| - 1];
    var cs := Gather(init, reply, name).contribs;
    if i < |init| {
      assert init[i] == users[i];
      GatherKeeps(init, reply, name, i, c);
      var r := reply(last);
      if r.Listed? && r.usercontribs.Some? {
        assert cs <= cs + Stamp(r.usercontribs.value, name(last));
      }
    } else {
      StampHas(reply(last).usercontribs.value, c, name(last));
    }
  }

  lemma StampHas(list: seq<Contribution>, c: Contribution, n: string)
    requires c in list
    ensures c.(user := n) in Stamp(list, n)
  {
    var k :| 0 <= k < |list| && list[k] == c;
    assert Stamp(list, n)[k] == c.(user := n);
  }

  // ---------------------------------------------------------------------------
  // The newest-first merge

  /** The merge's comparator `(a, b) => time(b) - time(a)` as the order the sort
      produces: `a` may precede `b` when it is not older. */
  predicate NotOlder(a: Contribution, b: Contribution) { a.timestamp >= b.timestamp }

  lemma NotOlderTotal()
    ensures Seqs.TotalPreorder(NotOlder)
  {
  }

  /** `all_contribs.sort(...)`: the gathered contributions, newest first. */
  function Merged(cs: seq<Contribution>): (r: seq<Contribution>)
    ensures multiset(r) == multiset(cs) && |r| == |cs|
  {
    NotOlderTotal();
    Seqs.Sort(cs, NotOlder)
  }

  /** The merge keeps every contribution and orders them newest first. */
  lemma MergedNewestFirst(cs: seq<Contribution>)
    ensures multiset(Merged(cs)) == multiset(cs)
    ensures forall i, j :: 0 <= i < j < |Merged(cs)| ==> Merged(cs)[i].timestamp >= Merged(cs)[j].timestamp
  {
    NotOlderTotal();
  }

  lemma MergedFrom(cs: seq<Contribution>, c: Contribution)
    requires c in Merged(cs)
    ensures c in cs
  {
    MergedNewestFirst(cs);
    assert c in multiset(Merged(cs));
  }

  lemma MergedHas(cs: seq<Contribution>, c: Contribution) returns (k: nat)
    requires c in cs
    ensures k < |Merged(cs)| && Merged(cs)[k] == c
  {
    MergedNewestFirst(cs);
    assert c in multiset(Merged(cs));
    k :| 0 <= k < |Merged(cs)| && Merged(cs)[k] == c;
  }

  // ---------------------------------------------------------------------------
  // The results pane

  /** One rendered list entry, reduced to what the item shows. */
  datatype Item = Item(
    revid: nat, title: string, user: string, timestamp: int, isNew: bool,
    bytes: string, bold: bool, gain: bool, comment: string, tags: seq<string>, current: bool)

  /** The results pane: untouched, a one-paragraph notice, or the list headed
      "Found N contributions" with N the number of items. */
  datatype Results = Blank | Notice(text: string) | Listing(items: seq<Item>)

  const EnterUsersMessage: string := "Please enter at least one username or IP address."
  const TooManyUsersMessage: string := "Exceeded the 50 users limit."
  const NoContributionsMessage: string := "No contributions found with the selected filters."
  const ErrorPrefix: string := "Error loading contributions: "

  /** At most this many users are asked for at once. */
  const UserLimit: nat := 50
}
