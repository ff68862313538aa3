/** Plain JavaScript objects used as dictionaries: assignment `o[k] = v` and the
    order in which `Object.entries`/`Object.values` enumerate the own keys (integer
    index keys first in ascending numeric order, then the other keys in the order
    they were created). */
module JsObjects {
  import opened JsStrings
  import Seqs

  /** The largest array index, 2^32 - 2. */
  const MaxArrayIndex: nat := 4294967294

  /** `k` is the canonical decimal spelling of an array index. */
  predicate IsArrayIndex(k: string) {
    && |k| > 0
    && (forall i :: 0 <= i < |k| ==> IsDigit(k[i]))
    && (k[0] == '0' ==> |k| == 1)
    && DigitsValue(k) <= MaxArrayIndex
  }

  predicate IndexLe(a: string, b: string) { DigitsValue(a) <= DigitsValue(b) }

  lemma IndexLeTotalPreorder()
    ensures Seqs.TotalPreorder(IndexLe)
  {
  }

  /** An object with string keys: `keys` in creation order and their values. */
  datatype Obj<V> = Obj(keys: seq<string>, values: map<string, V>) {
    ghost predicate Valid() {
      && Seqs.NoDuplicates(keys)
      && (forall k :: k in values <==> k in keys)
    }
  }

  function Empty<V>(): (o: Obj<V>)
    ensures o.Valid() && o.keys == []
  {
    Obj([], map[])
  }

  /** `o[k] = v`: a new key is appended to the creation order, an existing one keeps
      its place. */
  function Put<V>(o: Obj<V>, k: string, v: V): (r: Obj<V>)
    requires o.Valid()
    ensures r.Valid()
    ensures r.values == o.values[k := v]
    ensures k in o.values ==> r.keys == o.keys
    ensures k !in o.values ==> r.keys == o.keys + [k]
  {
    if k in o.values then Obj(o.keys, o.values[k := v]) else Obj(o.keys + [k], o.values[k := v])
  }

  predicate NotArrayIndex(k: string) { !IsArrayIndex(k) }

  /** The order in which `Object.keys` enumerates keys created in the order `keys`. */
  function KeyOrder(keys: seq<string>): (r: seq<string>)
    ensures multiset(r) == multiset(keys)
    ensures |r| == |keys|
  {
    IndexLeTotalPreorder();
    Seqs.FilterSplit(keys, IsArrayIndex, NotArrayIndex);
    Seqs.Sort(Seqs.Filter(keys, IsArrayIndex), IndexLe) + Seqs.Filter(keys, NotArrayIndex)
  }

  /** The enumeration order: first the array-index keys in ascending numeric order,
      then every other key in creation order. */
  lemma KeyOrderShape(keys: seq<string>)
    ensures
      var r := KeyOrder(keys);
      var n := Seqs.Count(keys, IsArrayIndex);
      && n <= |r|
      && (forall i :: 0 <= i < n ==> IsArrayIndex(r[i]))
      && (forall i, j :: 0 <= i < j < n ==> DigitsValue(r[i]) <= DigitsValue(r[j]))
      && r[n..] == Seqs.Filter(keys, NotArrayIndex)
  {
    IndexLeTotalPreorder();
    var ai := Seqs.Filter(keys, IsArrayIndex);
    var idx := Seqs.Sort(ai, IndexLe);
    var rest := Seqs.Filter(keys, NotArrayIndex);
    var r := idx + rest;
    assert KeyOrder(keys) == r;
    Seqs.CountFilter(keys, IsArrayIndex);
    assert |idx| == Seqs.Count(keys, IsArrayIndex);
    assert r[|idx|..] == rest;
    PrefixOfSorted(idx, ai, rest);
  }

  lemma PrefixOfSorted(idx: seq<string>, ai: seq<string>, rest: seq<string>)
    requires multiset(idx) == multiset(ai)
    requires forall i :: 0 <= i < |ai| ==> IsArrayIndex(ai[i])
    requires Seqs.Sorted(idx, IndexLe)
    ensures forall i :: 0 <= i < |idx| ==> IsArrayIndex((idx + rest)[i])
    ensures forall i, j :: 0 <= i < j < |idx| ==>
              DigitsValue((idx + rest)[i]) <= DigitsValue((idx + rest)[j])
  {
    Seqs.PermutationKeepsAll(idx, ai, IsArrayIndex);
    assert forall i :: 0 <= i < |idx| ==> (idx + rest)[i] == idx[i];
  }

  /** A key whose spelling is not an array index is enumerated after every key
      created before it. */
  lemma KeyOrderSnoc(keys: seq<string>, k: string)
    requires !IsArrayIndex(k)
    ensures KeyOrder(keys + [k]) == KeyOrder(keys) + [k]
  {
    Seqs.FilterSnoc(keys, k, IsArrayIndex);
    Seqs.FilterSnoc(keys, k, NotArrayIndex);
  }

  /** `Object.keys(o)`. */
  function OwnKeys<V>(o: Obj<V>): (r: seq<string>)
    requires o.Valid()
    ensures multiset(r) == multiset(o.keys)
    ensures forall i :: 0 <= i < |r| ==> r[i] in o.values
  {
    var r := KeyOrder(o.keys);
    assert forall i :: 0 <= i < |r| ==> r[i] in multiset(o.keys);
    r
  }

  /** `Object.values(o)`. */
  function Values<V>(o: Obj<V>): (r: seq<V>)
    requires o.Valid()
    ensures |r| == |o.keys|
    ensures forall i :: 0 <= i < |r| ==> r[i] == o.values[OwnKeys(o)[i]]
  {
    var ks := OwnKeys(o);
    seq(|ks|, i requires 0 <= i < |ks| => o.values[ks[i]])
  }

  /** Array-index keys come before all others and in ascending numeric order. */
  ghost predicate IndexOrdered(keys: seq<string>) {
    forall i, j :: 0 <= i < j < |keys| && IsArrayIndex(keys[j]) ==>
      IsArrayIndex(keys[i]) && DigitsValue(keys[i]) <= DigitsValue(keys[j])
  }

  lemma OwnKeysIndexOrdered<V>(o: Obj<V>)
    requires o.Valid()
    ensures IndexOrdered(OwnKeys(o))
  {
    KeyOrderShape(o.keys);
    var r := OwnKeys(o);
    var n := Seqs.Count(o.keys, IsArrayIndex);
    var rest := Seqs.Filter(o.keys, NotArrayIndex);
    forall j | n <= j < |r| ensures !IsArrayIndex(r[j]) {
      assert r[j] == rest[j - n];
    }
  }

  lemma InOwnKeys<V>(o: Obj<V>, k: string)
    requires o.Valid() && k in o.values
    ensures k in OwnKeys(o)
  {
    assert k in multiset(o.keys);
    assert k in multiset(OwnKeys(o));
  }

  lemma IndexOrderedTail(keys: seq<string>)
    requires |keys| > 0 && IndexOrdered(keys)
    ensures IndexOrdered(keys[1..])
  {
    var tail := keys[1..];
    forall i, j | 0 <= i < j < |tail| && IsArrayIndex(tail[j])
      ensures IsArrayIndex(tail[i]) && DigitsValue(tail[i]) <= DigitsValue(tail[j])
    {
      assert tail[i] == keys[i + 1] && tail[j] == keys[j + 1];
    }
  }
}
