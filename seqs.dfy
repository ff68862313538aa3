/** Sequence operations shared by the scripts: `filter`, counting, summing,
    `[...new Set(xs)]` de-duplication and the stable `Array.prototype.sort`
    with a comparator. */
module Seqs {

  function Filter<T(==,!new)>(s: seq<T>, p: T -> bool): (r: seq<T>)
    ensures |r| <= |s|
    ensures forall i :: 0 <= i < |r| ==> p(r[i])
    ensures multiset(r) <= multiset(s)
  {
    if |s| == 0 then []
    else
      assert s == [s[0]] + s[1..];
      (if p(s[0]) then [s[0]] else []) + Filter(s[1..], p)
  }

  lemma {:induction false} FilterSplit<T(!new)>(s: seq<T>, p: T -> bool, q: T -> bool)
    requires forall x :: q(x) == !p(x)
    ensures multiset(Filter(s, p)) + multiset(Filter(s, q)) == multiset(s)
  {
    if |s| > 0 {
      FilterSplit(s[1..], p, q);
      assert s == [s[0]] + s[1..];
    }
  }

  lemma {:induction false} FilterAppend<T(!new)>(a: seq<T>, b: seq<T>, p: T -> bool)
    ensures Filter(a + b, p) == Filter(a, p) + Filter(b, p)
  {
    if |a| == 0 {
      assert a + b == b;
    } else {
      FilterAppend(a[1..], b, p);
      var h := if p(a[0]) then [a[0]] else [];
      assert (a + b)[0] == a[0];
      assert (a + b)[1..] == a[1..] + b;
      assert Filter(a + b, p) == h + Filter(a[1..] + b, p);
      assert Filter(a, p) == h + Filter(a[1..], p);
    }
  }

  lemma FilterSnoc<T(!new)>(s: seq<T>, x: T, p: T -> bool)
    ensures Filter(s + [x], p) == if p(x) then Filter(s, p) + [x] else Filter(s, p)
  {
    FilterAppend(s, [x], p);
    FilterSingleton(x, p);
    if !p(x) {
      assert Filter(s, p) + [] == Filter(s, p);
    }
  }

  lemma FilterSingleton<T(!new)>(x: T, p: T -> bool)
    ensures Filter([x], p) == if p(x) then [x] else []
  {
    assert [x][1..] == [];
    assert Filter([x], p) == (if p(x) then [x] else []) + Filter([x][1..], p);
  }

  /** A property of every element survives a permutation. */
  lemma PermutationKeepsAll<T(!new)>(a: seq<T>, b: seq<T>, p: T -> bool)
    requires multiset(a) == multiset(b)
    requires forall i :: 0 <= i < |b| ==> p(b[i])
    ensures forall i :: 0 <= i < |a| ==> p(a[i])
  {
    forall i | 0 <= i < |a| ensures p(a[i]) {
      assert a[i] in multiset(b);
      var j :| 0 <= j < |b| && b[j] == a[i];
    }
  }

  /** `s.map(f)`. */
  function Map<A, B>(s: seq<A>, f: A -> B): (r: seq<B>)
    ensures |r| == |s| && forall i :: 0 <= i < |s| ==> r[i] == f(s[i])
  {
    if |s| == 0 then [] else [f(s[0])] + Map(s[1..], f)
  }

  /** Filtering the images is mapping the elements whose image passes. */
  lemma {:induction false} FilterMap<A(!new), B(!new)>(s: seq<A>, f: A -> B, p: B -> bool, q: A -> bool)
    requires forall x :: p(f(x)) == q(x)
    ensures Filter(Map(s, f), p) == Map(Filter(s, q), f)
  {
    if |s| > 0 {
      var m := Map(s, f);
      assert m[1..] == Map(s[1..], f);
      FilterMap(s[1..], f, p, q);
      var t := Filter(s[1..], q);
      if q(s[0]) {
        assert Filter(s, q) == [s[0]] + t;
        assert ([s[0]] + t)[1..] == t;
      } else {
        assert Filter(s, q) == t;
      }
    }
  }

  /** The strings `f(x)` of the elements, concatenated in order. */
  function ConcatMap<T>(s: seq<T>, f: T -> string): string {
    if |s| == 0 then [] else ConcatMap(s[..|s| - 1], f) + f(s[|s| - 1])
  }

  /** `s.forEach((x) => { text += f(x) })` starting from `start`. */
  method AppendEach<T>(start: string, s: seq<T>, f: T -> string) returns (text: string)
    ensures text == start + ConcatMap(s, f)
  {
    text := start;
    var i := 0;
    while i < |s|
      invariant 0 <= i <= |s| && text == start + ConcatMap(s[..i], f)
    {
      assert s[..i + 1][..i] == s[..i];
      text := text + f(s[i]);
      i := i + 1;
    }
    assert s[..i] == s;
  }

  /** Number of elements satisfying `p`. */
  function Count<T(==,!new)>(s: seq<T>, p: T -> bool): (n: nat)
    ensures n <= |s|
  {
    if |s| == 0 then 0 else (if p(s[0]) then 1 else 0) + Count(s[1..], p)
  }

  /** The count is the length of the filtered sequence. */
  lemma {:induction false} CountFilter<T(!new)>(s: seq<T>, p: T -> bool)
    ensures Count(s, p) == |Filter(s, p)|
  {
    if |s| > 0 {
      CountFilter(s[1..], p);
    }
  }

  lemma {:induction false} CountAll<T(!new)>(s: seq<T>, p: T -> bool)
    ensures Count(s, p) == |s| <==> forall i :: 0 <= i < |s| ==> p(s[i])
  {
    if |s| > 0 {
      CountAll(s[1..], p);
      if !p(s[0]) {
        assert Count(s[1..], p) <= |s| - 1;
      }
      assert forall i :: 1 <= i < |s| ==> s[1..][i - 1] == s[i];
    }
  }

  lemma {:induction false} CountNone<T(!new)>(s: seq<T>, p: T -> bool)
    ensures Count(s, p) == 0 <==> forall i :: 0 <= i < |s| ==> !p(s[i])
  {
    if |s| > 0 {
      CountNone(s[1..], p);
      assert forall i :: 1 <= i < |s| ==> s[1..][i - 1] == s[i];
    }
  }

  /** Counting an element appended at the end. */
  lemma CountSnoc<T(!new)>(s: seq<T>, x: T, p: T -> bool)
    ensures Count(s + [x], p) == Count(s, p) + (if p(x) then 1 else 0)
  {
    CountFilter(s + [x], p);
    CountFilter(s, p);
    FilterSnoc(s, x, p);
  }

  /** Counting over a concatenation. */
  lemma CountAppend<T(!new)>(a: seq<T>, b: seq<T>, p: T -> bool)
    ensures Count(a + b, p) == Count(a, p) + Count(b, p)
  {
    CountFilter(a + b, p);
    CountFilter(a, p);
    CountFilter(b, p);
    FilterAppend(a, b, p);
  }

  /** An element satisfying `p` survives the filter. */
  lemma {:induction false} FilterHas<T(!new)>(s: seq<T>, x: T, p: T -> bool)
    requires x in s && p(x)
    ensures x in Filter(s, p)
  {
    if s[0] != x {
      assert x in s[1..] by {
        var k :| 0 <= k < |s| && s[k] == x;
        assert s[1..][k - 1] == x;
      }
      FilterHas(s[1..], x, p);
    }
  }

  /** `s.reduce((sum, x) => sum + f(x), 0)`. */
  function SumBy<T>(s: seq<T>, f: T -> nat): nat {
    if |s| == 0 then 0 else f(s[0]) + SumBy(s[1..], f)
  }

  /** Changing one element changes the sum by the difference. */
  lemma {:induction false} SumByUpdate<T>(s: seq<T>, i: nat, v: T, f: T -> nat)
    requires i < |s|
    ensures SumBy(s[i := v], f) + f(s[i]) == SumBy(s, f) + f(v)
  {
    if i > 0 {
      SumByUpdate(s[1..], i - 1, v, f);
      assert s[i := v][1..] == s[1..][i - 1 := v];
    } else {
      assert s[i := v][1..] == s[1..];
    }
  }

  lemma {:induction false} SumByZero<T>(s: seq<T>, f: T -> nat)
    requires forall i :: 0 <= i < |s| ==> f(s[i]) == 0
    ensures SumBy(s, f) == 0
  {
    if |s| > 0 {
      assert forall i :: 1 <= i < |s| ==> s[1..][i - 1] == s[i];
      SumByZero(s[1..], f);
    }
  }

  /** Changing one element changes the count by at most the element's own vote. */
  lemma {:induction false} CountUpdate<T(!new)>(s: seq<T>, i: nat, v: T, p: T -> bool)
    requires i < |s|
    ensures Count(s[i := v], p) + (if p(s[i]) then 1 else 0) == Count(s, p) + (if p(v) then 1 else 0)
  {
    if i > 0 {
      CountUpdate(s[1..], i - 1, v, p);
      assert s[i := v][1..] == s[1..][i - 1 := v];
    } else {
      assert s[i := v][1..] == s[1..];
    }
  }

  predicate NoDuplicates<T(==)>(s: seq<T>) {
    forall i, j :: 0 <= i < j < |s| ==> s[i] != s[j]
  }

  /** The elements of `s` in order of their first occurrence. */
  function FirstOccurrences<T(==)>(s: seq<T>): seq<T> {
    if |s| == 0 then []
    else FirstOccurrences(s[..|s| - 1]) + (if s[|s| - 1] in s[..|s| - 1] then [] else [s[|s| - 1]])
  }

  /** `set.add(x)` on a `Set` listed in insertion order. */
  function SetAdd<T(==,!new)>(s: seq<T>, x: T): (r: seq<T>)
    ensures x in r && forall y :: y in r <==> y in s || y == x
  {
    if x in s then s else s + [x]
  }

  /** Adding elements one by one to an empty `Set` lists their first occurrences. */
  lemma SetAddFirstOccurrences<T(!new)>(s: seq<T>, x: T)
    ensures SetAdd(FirstOccurrences(s), x) == FirstOccurrences(s + [x])
  {
    DedupeKeepsFirstOccurrences(s);
    assert (s + [x])[..|s|] == s;
  }

  lemma InFirstOccurrences<T(!new)>(s: seq<T>, x: T)
    ensures x in FirstOccurrences(s) <==> x in s
  {
    DedupeKeepsFirstOccurrences(s);
  }

  /** No element occurs twice in a sequence without duplicates. */
  lemma {:induction false} NoDuplicatesAtMostOnce<T>(s: seq<T>, x: T)
    requires NoDuplicates(s)
    ensures multiset(s)[x] <= 1
  {
    if |s| > 0 {
      var t := s[1..];
      assert s == [s[0]] + t;
      forall i, j | 0 <= i < j < |t| ensures t[i] != t[j] {
        assert t[i] == s[i + 1] && t[j] == s[j + 1];
      }
      NoDuplicatesAtMostOnce(t, x);
      if x == s[0] {
        forall k | 0 <= k < |t| ensures t[k] != x {
          assert t[k] == s[k + 1];
        }
        assert x !in t;
      }
    }
  }

  lemma TwiceCounted<T>(s: seq<T>, i: nat, j: nat)
    requires i < j < |s| && s[i] == s[j]
    ensures multiset(s)[s[i]] >= 2
  {
    assert s == s[..j] + s[j..];
    assert s[..j][i] == s[i];
    assert s[j..][0] == s[i];
  }

  /** A permutation of a sequence without duplicates has none. */
  lemma NoDuplicatesPermutation<T>(a: seq<T>, b: seq<T>)
    requires multiset(a) == multiset(b) && NoDuplicates(b)
    ensures NoDuplicates(a)
  {
    forall i, j | 0 <= i < j < |a| ensures a[i] != a[j] {
      if a[i] == a[j] {
        TwiceCounted(a, i, j);
        NoDuplicatesAtMostOnce(b, a[i]);
        assert false;
      }
    }
  }

  /** Building a `Set` from `s` element by element, skipping those already `seen`,
      and spreading it back into an array. */
  function DedupeFrom<T(==,!new)>(s: seq<T>, seen: set<T>): (r: seq<T>)
    ensures NoDuplicates(r)
    ensures forall x :: x in r <==> x in s && x !in seen
  {
    if |s| == 0 then []
    else if s[0] in seen then DedupeFrom(s[1..], seen)
    else [s[0]] + DedupeFrom(s[1..], seen + {s[0]})
  }

  /** `[...new Set(s)]`. */
  function Dedupe<T(==,!new)>(s: seq<T>): (r: seq<T>)
    ensures NoDuplicates(r)
    ensures forall x :: x in r <==> x in s
  {
    DedupeFrom(s, {})
  }

  lemma {:induction false} DedupeFromSnoc<T(!new)>(s: seq<T>, x: T, seen: set<T>)
    ensures DedupeFrom(s + [x], seen)
            == DedupeFrom(s, seen) + (if x in seen || x in s then [] else [x])
  {
    if |s| == 0 {
      assert [x][1..] == [];
    } else {
      var t := s + [x];
      assert t[0] == s[0];
      assert t[1..] == s[1..] + [x];
      assert x in s <==> x == s[0] || x in s[1..] by {
        assert s == [s[0]] + s[1..];
      }
      if s[0] in seen {
        DedupeFromSnoc(s[1..], x, seen);
      } else {
        DedupeFromSnoc(s[1..], x, seen + {s[0]});
      }
    }
  }

  /** The `Set` round trip keeps exactly the first occurrence of each element, in order. */
  lemma {:induction false} DedupeKeepsFirstOccurrences<T(!new)>(s: seq<T>)
    ensures Dedupe(s) == FirstOccurrences(s)
  {
    if |s| > 0 {
      var init := s[..|s| - 1];
      DedupeKeepsFirstOccurrences(init);
      DedupeFromSnoc(init, s[|s| - 1], {});
      assert init + [s[|s| - 1]] == s;
    }
  }

  /** A comparator that is total and transitive (what `sort` needs to be well defined). */
  ghost predicate TotalPreorder<T(!new)>(le: (T, T) -> bool) {
    && (forall a, b :: le(a, b) || le(b, a))
    && (forall a, b, c :: le(a, b) && le(b, c) ==> le(a, c))
  }

  predicate Sorted<T>(s: seq<T>, le: (T, T) -> bool) {
    forall i, j :: 0 <= i < j < |s| ==> le(s[i], s[j])
  }

  /** Inserts `x` after every element that is not greater than it. */
  function Insert<T>(s: seq<T>, x: T, le: (T, T) -> bool): (r: seq<T>)
    ensures multiset(r) == multiset(s) + multiset{x}
    ensures |r| == |s| + 1
  {
    if |s| == 0 then [x]
    else if le(s[0], x) then
      assert s == [s[0]] + s[1..];
      [s[0]] + Insert(s[1..], x, le)
    else [x] + s
  }

  lemma {:induction false} InsertSorted<T(!new)>(s: seq<T>, x: T, le: (T, T) -> bool)
    requires TotalPreorder(le)
    requires Sorted(s, le)
    ensures Sorted(Insert(s, x, le), le)
  {
    if |s| > 0 && le(s[0], x) {
      InsertSorted(s[1..], x, le);
      var r := Insert(s[1..], x, le);
      forall j | 0 <= j < |r| ensures le(s[0], r[j]) {
        assert r[j] in multiset(r);
        assert r[j] in multiset(s[1..]) || r[j] == x;
        if r[j] != x {
          var k :| 0 <= k < |s[1..]| && s[1..][k] == r[j];
          assert s[k + 1] == r[j];
        }
      }
    }
  }

  /** A stable insertion sort: the model of `Array.prototype.sort(cmp)`. */
  function Sort<T(==,!new)>(s: seq<T>, le: (T, T) -> bool): (r: seq<T>)
    requires TotalPreorder(le)
    ensures multiset(r) == multiset(s)
    ensures |r| == |s|
    ensures Sorted(r, le)
  {
    if |s| == 0 then []
    else
      var init := s[..|s| - 1];
      assert s == init + [s[|s| - 1]];
      InsertSorted(Sort(init, le), s[|s| - 1], le);
      Insert(Sort(init, le), s[|s| - 1], le)
  }
}
