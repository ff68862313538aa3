/** `URLSearchParams` as the scripts use it: a list of name-value pairs read with
    `has`/`get`, written with `set`, and serialised behind a `?` when not empty. */
module UrlParams {
  import opened JsStrings
  import Seqs

  type Entry = (string, string)

  predicate HasKey(ps: seq<Entry>, k: string) {
    exists i :: 0 <= i < |ps| && ps[i].0 == k
  }

  /** `params.get(k)`: the value of the first pair named `k`. */
  function Get(ps: seq<Entry>, k: string): (r: Option<string>)
  {
    if |ps| == 0 then None
    else if ps[0].0 == k then Some(ps[0].1)
    else Get(ps[1..], k)
  }

  lemma {:induction false} GetHas(ps: seq<Entry>, k: string)
    ensures Get(ps, k).Some? <==> HasKey(ps, k)
  {
    if |ps| > 0 {
      GetHas(ps[1..], k);
      assert forall i :: 1 <= i < |ps| ==> ps[i] == ps[1..][i - 1];
      if HasKey(ps[1..], k) {
        var i :| 0 <= i < |ps[1..]| && ps[1..][i].0 == k;
        assert ps[i + 1].0 == k;
      }
    }
  }

  /** A pair appended under a new name is found, and nothing else changes. */
  lemma {:induction false} GetSnoc(ps: seq<Entry>, k: string, v: string, j: string)
    ensures Get(ps + [(k, v)], j) == if HasKey(ps, j) then Get(ps, j) else if j == k then Some(v) else None
  {
    if |ps| == 0 {
      assert [(k, v)][1..] == [];
    } else {
      assert (ps + [(k, v)])[1..] == ps[1..] + [(k, v)];
      GetSnoc(ps[1..], k, v, j);
      assert HasKey(ps, j) <==> ps[0].0 == j || HasKey(ps[1..], j) by {
        assert forall i :: 1 <= i < |ps| ==> ps[i] == ps[1..][i - 1];
        if HasKey(ps[1..], j) {
          var i :| 0 <= i < |ps[1..]| && ps[1..][i].0 == j;
          assert ps[i + 1].0 == j;
        }
      }
    }
  }

  /** The pairs not named `k`. */
  function Without(ps: seq<Entry>, k: string): (r: seq<Entry>)
  {
    if |ps| == 0 then []
    else (if ps[0].0 == k then [] else [ps[0]]) + Without(ps[1..], k)
  }

  /** `params.set(k, v)`: the first pair named `k` takes the value `v` and the
      later ones are removed; without one, the pair is appended. */
  function Set(ps: seq<Entry>, k: string, v: string): (r: seq<Entry>)
  {
    if |ps| == 0 then [(k, v)]
    else if ps[0].0 == k then [(k, v)] + Without(ps[1..], k)
    else [ps[0]] + Set(ps[1..], k, v)
  }

  /** Setting a name not yet present appends it. */
  lemma {:induction false} SetNew(ps: seq<Entry>, k: string, v: string)
    requires !HasKey(ps, k)
    ensures Set(ps, k, v) == ps + [(k, v)]
  {
    if |ps| > 0 {
      assert ps[0].0 != k;
      assert forall i :: 0 <= i < |ps[1..]| ==> ps[1..][i] == ps[i + 1];
      SetNew(ps[1..], k, v);
      assert ps == [ps[0]] + ps[1..];
    }
  }

  /** After `set`, `get` of that name reads the new value and every other name
      reads what it read before. */
  lemma {:induction false} GetSet(ps: seq<Entry>, k: string, v: string, j: string)
    ensures Get(Set(ps, k, v), j) == if j == k then Some(v) else Get(ps, j)
  {
    if |ps| > 0 && ps[0].0 != k {
      GetSet(ps[1..], k, v, j);
    } else if |ps| > 0 && j != k {
      GetFiltered(ps[1..], k, j);
    }
  }

  lemma {:induction false} GetFiltered(ps: seq<Entry>, k: string, j: string)
    requires j != k
    ensures Get(Without(ps, k), j) == Get(ps, j)
  {
    if |ps| > 0 {
      GetFiltered(ps[1..], k, j);
      var w := Without(ps[1..], k);
      if ps[0].0 != k {
        assert ([ps[0]] + w)[1..] == w;
      } else {
        assert [] + w == w;
      }
    }
  }

  /** `params.toString()` with `encode` standing for the form-urlencoded
      percent-encoding of one name or value. */
  function Serialize(ps: seq<Entry>, encode: string -> string): (r: string)
  {
    Join(Seqs.Map(ps, (e: Entry) => encode(e.0) + "=" + encode(e.1)), "&")
  }

  /** The serialisation is empty exactly when there are no pairs. */
  lemma SerializeEmpty(ps: seq<Entry>, encode: string -> string)
    ensures Serialize(ps, encode) == "" <==> |ps| == 0
  {
    var parts := Seqs.Map(ps, (e: Entry) => encode(e.0) + "=" + encode(e.1));
    if |ps| > 0 {
      assert '=' in parts[0];
      JoinHasFirst(parts, "&");
    }
  }

  lemma JoinHasFirst(parts: seq<string>, sep: string)
    requires |parts| > 0
    ensures |Join(parts, sep)| >= |parts[0]|
  {
  }

  /** The path and query that `history.replaceState` installs: `?` and the
      pairs when there are any, the bare path otherwise. */
  function NewUrl(pathname: string, ps: seq<Entry>, encode: string -> string): (r: string)
  {
    var q := Serialize(ps, encode);
    pathname + (if q != "" then "?" + q else "")
  }

  lemma NewUrlShape(pathname: string, ps: seq<Entry>, encode: string -> string)
    ensures |ps| == 0 ==> NewUrl(pathname, ps, encode) == pathname
    ensures |ps| > 0 ==> NewUrl(pathname, ps, encode) == pathname + "?" + Serialize(ps, encode)
  {
    SerializeEmpty(ps, encode);
  }
}
