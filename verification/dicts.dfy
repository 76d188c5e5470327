/** A JavaScript plain object used as a dictionary: string keys in
    the order they were created, each key at most once. Property
    assignment (`o[k] = v`), `delete o[k]` and `Object.assign` are modelled
    with the order rules of ECMAScript: an existing key keeps its place, a
    new key goes last, a deleted key leaves the order of the others
    unchanged. `Object.keys` lists array-index keys (such as "69") first,
    in ascending numeric order, and only then the other keys in creation
    order; `ObjectKeys` models that. */
module Dicts {
  import opened Base
  import opened Seqs
  import opened Decimal
  import Sorting

  predicate DistinctKeys<V>(d: seq<(string, V)>) {
    forall i, j :: 0 <= i < j < |d| ==> d[i].0 != d[j].0
  }

  type Dict<V> = d: seq<(string, V)> | DistinctKeys(d) witness []

  /** `Object.keys`. */
  function Keys<V>(d: seq<(string, V)>): (ks: seq<string>)
    ensures |ks| == |d|
    ensures forall i :: 0 <= i < |d| ==> ks[i] == d[i].0
  {
    seq(|d|, i requires 0 <= i < |d| => d[i].0)
  }

  lemma KeysDistinct<V>(d: Dict<V>)
    ensures Distinct(Keys(d))
  {
  }

  /** `o[k]`: the value stored under `k`, or `undefined`. */
  function Get<V>(d: Dict<V>, k: string): (r: Option<V>)
    ensures r.None? <==> k !in Keys(d)
    ensures r.Some? ==> (k, r.value) in d
  {
    if k in Keys(d) then Some(d[IndexOf(Keys(d), k)].1) else None
  }

  /** In a dictionary a pair is present exactly when lookup finds it. */
  lemma GetPair<V>(d: Dict<V>, k: string, v: V)
    ensures Get(d, k) == Some(v) <==> (k, v) in d
  {
    if (k, v) in d {
      var j :| 0 <= j < |d| && d[j] == (k, v);
      assert Keys(d)[j] == k;
    }
  }

  lemma GetAt<V>(d: Dict<V>, i: nat)
    requires i < |d|
    ensures Get(d, d[i].0) == Some(d[i].1)
  {
    GetPair(d, d[i].0, d[i].1);
  }

  /** `o[k] = v`. */
  function Set<V>(d: Dict<V>, k: string, v: V): (r: Dict<V>)
    ensures k !in Keys(d) ==> r == d + [(k, v)]
    ensures k in Keys(d) ==> Keys(r) == Keys(d)
    ensures Get(r, k) == Some(v)
    ensures forall k' :: k' != k ==> Get(r, k') == Get(d, k')
  {
    var r: Dict<V> :=
      if k in Keys(d) then d[IndexOf(Keys(d), k) := (k, v)] else d + [(k, v)];
    GetPair(r, k, v);
    forall k' | k' != k
      ensures Get(r, k') == Get(d, k')
    {
      assert Keys(r) == if k in Keys(d) then Keys(d) else Keys(d) + [k];
      if k' in Keys(d) {
        var u := Get(d, k').value;
        GetPair(d, k', u);
        GetPair(r, k', u);
      }
    }
    r
  }

  /** `delete o[k]`. */
  function Remove<V>(d: Dict<V>, k: string): (r: Dict<V>)
    ensures k !in Keys(r)
    ensures forall k' :: k' != k ==> Get(r, k') == Get(d, k')
    ensures forall k' :: k' in Keys(r) <==> k' in Keys(d) && k' != k
    ensures |r| <= |d|
  {
    var r: Dict<V> :=
      if k in Keys(d) then
        var i := IndexOf(Keys(d), k);
        d[..i] + d[i + 1..]
      else d;
    forall k' | k' != k
      ensures Get(r, k') == Get(d, k')
      ensures k' in Keys(r) <==> k' in Keys(d)
    {
      if k' in Keys(d) {
        var u := Get(d, k').value;
        GetPair(d, k', u);
        GetPair(r, k', u);
      } else if k' in Keys(r) {
        var u := Get(r, k').value;
        GetPair(r, k', u);
      }
    }
    r
  }

  /** `Object.assign(d, src)`: every entry of `src`, in order, assigned
      into `d`. */
  function Assign<V>(d: Dict<V>, src: Dict<V>): (r: Dict<V>)
    ensures forall k :: Get(r, k) == if k in Keys(src) then Get(src, k) else Get(d, k)
    ensures forall k :: k in Keys(r) <==> k in Keys(d) || k in Keys(src)
    decreases |src|
  {
    if |src| == 0 then d
    else
      var tail: Dict<V> := src[1..];
      var r := Assign(Set(d, src[0].0, src[0].1), tail);
      forall k
        ensures Get(r, k) == if k in Keys(src) then Get(src, k) else Get(d, k)
        ensures k in Keys(r) <==> k in Keys(d) || k in Keys(src)
      {
        AssignStep(d, src, tail, k);
      }
      r
  }

  /** Assigning the first entry and then the rest is assigning all. */
  lemma AssignStep<V>(d: Dict<V>, src: Dict<V>, tail: Dict<V>, k: string)
    requires |src| > 0 && tail == src[1..]
    ensures (if k in Keys(tail) then Get(tail, k) else Get(Set(d, src[0].0, src[0].1), k))
            == (if k in Keys(src) then Get(src, k) else Get(d, k))
  {
    assert Keys(src) == [src[0].0] + Keys(tail);
    assert src[0].0 !in Keys(tail);
    if k in Keys(tail) {
      var u := Get(tail, k).value;
      GetPair(tail, k, u);
      GetPair(src, k, u);
    } else if k == src[0].0 {
      GetAt(src, 0);
    }
  }

  /** Assigning entries whose keys are all new appends them in order. */
  lemma {:induction false} AssignFresh<V>(d: Dict<V>, src: Dict<V>)
    requires forall i :: 0 <= i < |src| ==> src[i].0 !in Keys(d)
    ensures Assign(d, src) == d + src
    decreases |src|
  {
    if |src| > 0 {
      var d1 := Set(d, src[0].0, src[0].1);
      var tail: Dict<V> := src[1..];
      assert d1 == d + [src[0]];
      assert Keys(d1) == Keys(d) + [src[0].0];
      forall i | 0 <= i < |tail|
        ensures tail[i].0 !in Keys(d1)
      {
        assert tail[i] == src[i + 1];
        assert src[i + 1].0 != src[0].0;
      }
      AssignFresh(d1, tail);
      SnocTail(d, src);
    }
  }

  lemma SnocTail<T>(d: seq<T>, src: seq<T>)
    requires |src| > 0
    ensures d + [src[0]] + src[1..] == d + src
  {
    assert src == [src[0]] + src[1..];
  }

  /** Lookup in two dictionaries laid end to end. */
  lemma GetAppend<V>(a: Dict<V>, b: Dict<V>, k: string)
    requires DistinctKeys(a + b)
    ensures Get(a + b, k) == if k in Keys(b) then Get(b, k) else Get(a, k)
  {
    var ab: Dict<V> := a + b;
    assert Keys(ab) == Keys(a) + Keys(b);
    if k in Keys(b) {
      var v := Get(b, k).value;
      GetPair(b, k, v);
      GetPair(ab, k, v);
    } else if k in Keys(a) {
      var v := Get(a, k).value;
      GetPair(a, k, v);
      GetPair(ab, k, v);
    }
  }

  lemma KeysAppend<V>(a: seq<(string, V)>, b: seq<(string, V)>)
    ensures Keys(a + b) == Keys(a) + Keys(b)
  {
  }

  // ---------------------------------------------------------------------
  // The order of `Object.keys`

  /** An array index: the canonical decimal numeral of a number below
      2^32 - 1 (section 6.1.7 of ECMA-262). */
  predicate IsArrayIndex(k: string) {
    ParseNat(k).Some? && ParseNat(k).value < 0xFFFF_FFFF
  }

  predicate IsPlainKey(k: string) {
    !IsArrayIndex(k)
  }

  /** Array indices by their numeric value. */
  predicate NumericBefore(a: string, b: string) {
    ParseNat(a).GetOr(0) < ParseNat(b).GetOr(0)
  }

  lemma NumericBeforeIsStrict()
    ensures Sorting.StrictOrder(NumericBefore)
  {
  }

  /** `Object.keys(o)`: the array-index keys in ascending numeric order,
      then every other key in creation order (OrdinaryOwnPropertyKeys,
      section 10.1.11.1 of ECMA-262). */
  function ObjectKeys<V>(d: Dict<V>): (ks: seq<string>)
    ensures |ks| == |d|
    ensures multiset(ks) == multiset(Keys(d))
    ensures Distinct(ks)
    ensures forall k :: k in ks <==> k in Keys(d)
  {
    var keys := Keys(d);
    KeysDistinct(d);
    IndexKeysFirstPermutes(keys);
    IndexKeysFirst(keys)
  }

  /** The order of `Object.keys`: an array-index key is preceded only by
      smaller array-index keys, and the other keys keep their creation
      order. */
  lemma ObjectKeysOrder<V>(d: Dict<V>)
    ensures var ks := ObjectKeys(d);
            forall i, j :: 0 <= i < j < |ks| && IsArrayIndex(ks[j]) ==>
              IsArrayIndex(ks[i]) && ParseNat(ks[i]).value < ParseNat(ks[j]).value
    ensures Filter(ObjectKeys(d), IsPlainKey) == Filter(Keys(d), IsPlainKey)
  {
    KeysDistinct(d);
    IndexKeysFirstOrdered(Keys(d));
    IndexKeysFirstPlain(Keys(d));
  }

  function IndexKeysFirst(keys: seq<string>): seq<string> {
    Sorting.Sort(Filter(keys, IsArrayIndex), NumericBefore) + Filter(keys, IsPlainKey)
  }

  /** Putting the index keys first only reorders the keys. */
  lemma IndexKeysFirstPermutes(keys: seq<string>)
    requires Distinct(keys)
    ensures multiset(IndexKeysFirst(keys)) == multiset(keys)
    ensures |IndexKeysFirst(keys)| == |keys|
    ensures Distinct(IndexKeysFirst(keys))
    ensures forall k :: k in IndexKeysFirst(keys) <==> k in keys
  {
    var ks := IndexKeysFirst(keys);
    FilterPartition(keys, IsArrayIndex, IsPlainKey);
    DistinctPermutation(keys, ks);
    assert forall k :: k in ks <==> k in multiset(keys);
    assert |multiset(ks)| == |multiset(keys)|;
  }

  lemma IndexKeysFirstOrdered(keys: seq<string>)
    requires Distinct(keys)
    ensures var ks := IndexKeysFirst(keys);
            forall i, j :: 0 <= i < j < |ks| && IsArrayIndex(ks[j]) ==>
              IsArrayIndex(ks[i]) && ParseNat(ks[i]).value < ParseNat(ks[j]).value
  {
    var indices, plain := Filter(keys, IsArrayIndex), Filter(keys, IsPlainKey);
    FilterSpec(keys, IsArrayIndex);
    FilterSpec(keys, IsPlainKey);
    IndexKeysFirstPermutes(keys);
    ObjectKeysOrdered(indices, Sorting.Sort(indices, NumericBefore), plain);
  }

  lemma IndexKeysFirstPlain(keys: seq<string>)
    ensures Filter(IndexKeysFirst(keys), IsPlainKey) == Filter(keys, IsPlainKey)
  {
    var indices := Filter(keys, IsArrayIndex);
    var sorted := Sorting.Sort(indices, NumericBefore);
    FilterSpec(keys, IsArrayIndex);
    forall i | 0 <= i < |sorted|
      ensures IsArrayIndex(sorted[i])
    {
      assert sorted[i] in multiset(indices);
    }
    PlainKeysKept(keys, sorted, Filter(keys, IsPlainKey));
  }

  /** The index part comes first and ascends strictly. */
  lemma ObjectKeysOrdered(indices: seq<string>, sorted: seq<string>, plain: seq<string>)
    requires forall i :: 0 <= i < |indices| ==> IsArrayIndex(indices[i])
    requires forall i :: 0 <= i < |plain| ==> IsPlainKey(plain[i])
    requires sorted == Sorting.Sort(indices, NumericBefore)
    requires Distinct(sorted + plain)
    ensures var ks := sorted + plain;
            forall i, j :: 0 <= i < j < |ks| && IsArrayIndex(ks[j]) ==>
              IsArrayIndex(ks[i]) && ParseNat(ks[i]).value < ParseNat(ks[j]).value
  {
    var ks := sorted + plain;
    NumericBeforeIsStrict();
    Sorting.SortSorted(indices, NumericBefore);
    forall i | 0 <= i < |sorted|
      ensures IsArrayIndex(sorted[i])
    {
      assert sorted[i] in multiset(indices);
    }
    forall i, j | 0 <= i < j < |ks| && IsArrayIndex(ks[j])
      ensures IsArrayIndex(ks[i]) && ParseNat(ks[i]).value < ParseNat(ks[j]).value
    {
      assert j < |sorted|;
      assert !NumericBefore(sorted[j], sorted[i]);
      if ParseNat(ks[i]).value == ParseNat(ks[j]).value {
        NatToStringOfParse(ks[i]);
        NatToStringOfParse(ks[j]);
      }
    }
  }

  /** The other keys keep their creation order. */
  lemma PlainKeysKept(keys: seq<string>, sorted: seq<string>, plain: seq<string>)
    requires plain == Filter(keys, IsPlainKey)
    requires forall i :: 0 <= i < |sorted| ==> IsArrayIndex(sorted[i])
    ensures Filter(sorted + plain, IsPlainKey) == plain
  {
    FilterAppend(sorted, plain, IsPlainKey);
    FilterNone(sorted, IsPlainKey);
    FilterSpec(keys, IsPlainKey);
    FilterKeepsAll(plain, IsPlainKey);
  }

  /** Without array-index keys, `Object.keys` is the creation order. */
  lemma ObjectKeysOfPlain<V>(d: Dict<V>)
    requires forall k :: k in Keys(d) ==> IsPlainKey(k)
    ensures ObjectKeys(d) == Keys(d)
  {
    var keys := Keys(d);
    forall i | 0 <= i < |keys|
      ensures !IsArrayIndex(keys[i])
    {
      assert keys[i] in Keys(d);
    }
    FilterNone(keys, IsArrayIndex);
    FilterKeepsAll(keys, IsPlainKey);
    assert Sorting.Sort([], NumericBefore) == [];
  }

  /** The entries as JavaScript enumerates them (`Object.entries`,
      `for...in`): in `Object.keys` order, each with its value. */
  function EntriesInKeyOrder<V>(d: Dict<V>): (r: Dict<V>)
    ensures |r| == |d|
    ensures Keys(r) == ObjectKeys(d)
    ensures forall k :: Get(r, k) == Get(d, k)
  {
    var ks := ObjectKeys(d);
    var r := seq(|ks|, i requires 0 <= i < |ks| => (ks[i], Get(d, ks[i]).value));
    assert forall i :: 0 <= i < |ks| ==> Keys(r)[i] == ks[i];
    forall k
      ensures Get(r, k) == Get(d, k)
    {
      if k in ks {
        var i := IndexOf(ks, k);
        GetAt(r, i);
      }
    }
    r
  }

  /** Enumerating reorders the pairs and changes none of them. */
  lemma EntriesInKeyOrderPermutes<V>(d: Dict<V>)
    ensures multiset(EntriesInKeyOrder(d)) == multiset(d)
  {
    var r := EntriesInKeyOrder(d);
    forall p
      ensures p in r <==> p in d
    {
      GetPair(r, p.0, p.1);
      GetPair(d, p.0, p.1);
    }
    DistinctSameElements(r, d);
  }

  /** Without array-index keys the enumeration order is the creation
      order. */
  lemma EntriesInKeyOrderOfPlain<V>(d: Dict<V>)
    requires forall k :: k in Keys(d) ==> IsPlainKey(k)
    ensures EntriesInKeyOrder(d) == d
  {
    ObjectKeysOfPlain(d);
    var r := EntriesInKeyOrder(d);
    forall i | 0 <= i < |d|
      ensures r[i] == d[i]
    {
      GetAt(d, i);
      GetAt(r, i);
    }
  }

  /** A key that starts with something other than a digit is no array
      index. */
  lemma LetterKeyIsPlain(k: string)
    requires |k| > 0 && !IsDigit(k[0])
    ensures IsPlainKey(k)
  {
  }

  /** A word such as "69" is listed before words created earlier. */
  lemma ObjectKeysExample<V>(v: V)
    ensures ObjectKeys([("ab", v), ("69", v), ("7", v)]) == ["7", "69", "ab"]
  {
    var d := [("ab", v), ("69", v), ("7", v)];
    assert Keys(d) == ["ab", "69", "7"];
    ExampleOrder();
  }

  lemma ExampleOrder()
    ensures IndexKeysFirst(["ab", "69", "7"]) == ["7", "69", "ab"]
  {
    ExampleSplit();
    ExampleSort();
  }

  lemma SmallNumerals()
    ensures ParseNat("69") == Some(69) && ParseNat("7") == Some(7)
  {
    assert NatToString(69) == "69" by {
      assert NatToString(6) == "6";
    }
    ParseOfNatToString(69);
    assert NatToString(7) == "7";
    ParseOfNatToString(7);
  }

  lemma ExampleSplit()
    ensures Filter(["ab", "69", "7"], IsArrayIndex) == ["69", "7"]
    ensures Filter(["ab", "69", "7"], IsPlainKey) == ["ab"]
  {
    SmallNumerals();
    LetterKeyIsPlain("ab");
    var keys := ["ab", "69", "7"];
    assert keys[1..] == ["69", "7"] && keys[1..][1..] == ["7"] && keys[1..][1..][1..] == [];
    assert Filter(["7"], IsArrayIndex) == ["7"];
    assert Filter(["7"], IsPlainKey) == [];
  }

  lemma ExampleSort()
    ensures Sorting.Sort(["69", "7"], NumericBefore) == ["7", "69"]
  {
    SmallNumerals();
    assert ["69", "7"][..1] == ["69"];
  }
}
