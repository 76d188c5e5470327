/** The configuration store's chunking (the behaviour test/webConfig.spec.js
    pins down): a large mapping field such as `domains` is stored as
    numbered chunks `_domains0`, `_domains1`, … each under a size limit,
    and on load the chunks are merged back into the field and removed.
    The byte length of serialized JSON is replaced by an abstract size of
    each entry, summed over a chunk. */
module WebConfigModel {
  import opened Base
  import opened Seqs
  import opened Dicts
  import opened Text
  import opened Decimal
  import Sorting

  /** A top-level configuration value: a mapping (such as `domains` or a
      chunk of it) or any other setting. */
  datatype Value<V, P> = Entries(entries: Dict<V>) | Plain(plain: P)

  type Root<V, P> = Dict<Value<V, P>>

  // Chunk keys.

  /** `_<field><n>`. */
  function ChunkKey(field: string, n: nat): string {
    "_" + field + NatToString(n)
  }

  /** The index of a chunk key of `field`: the key is `_<field>` followed by
      a decimal number written without leading zeros. */
  function ChunkIndex(field: string, key: string): (r: Option<nat>)
    ensures r.Some? ==> |key| > |field| + 1
  {
    var p := "_" + field;
    if |p| <= |key| && key[..|p|] == p then ParseNat(key[|p|..]) else None
  }

  /** Reading a chunk key gives back its index, and a key with an index is
      the chunk key of that index. */
  lemma ChunkKeyRoundTrip(field: string, n: nat)
    ensures ChunkIndex(field, ChunkKey(field, n)) == Some(n)
  {
    var k := ChunkKey(field, n);
    assert k[..|field| + 1] == "_" + field;
    assert k[|field| + 1..] == NatToString(n);
    ParseOfNatToString(n);
  }

  lemma ChunkIndexInverse(field: string, key: string)
    requires ChunkIndex(field, key).Some?
    ensures key == ChunkKey(field, ChunkIndex(field, key).value)
  {
    var p := "_" + field;
    NatToStringOfParse(key[|p|..]);
    assert key == key[..|p|] + key[|p|..];
  }

  /** Different indices give different keys. */
  lemma ChunkKeyInjective(field: string, m: nat, n: nat)
    requires m != n
    ensures ChunkKey(field, m) != ChunkKey(field, n)
  {
    ChunkKeyRoundTrip(field, m);
    ChunkKeyRoundTrip(field, n);
  }

  /** The field itself is never one of its chunks. */
  lemma FieldIsNotChunk(field: string)
    ensures ChunkIndex(field, field).None?
  {
  }

  predicate IsChunkOf(field: string, key: string) {
    ChunkIndex(field, key).Some?
  }

  function ChunkOf(field: string): string -> bool {
    key => IsChunkOf(field, key)
  }

  /** Chunk keys ordered by their index. */
  predicate IndexBefore(field: string, a: string, b: string) {
    ChunkIndex(field, a).GetOr(0) < ChunkIndex(field, b).GetOr(0)
  }

  function IndexOrder(field: string): (string, string) -> bool {
    (a, b) => IndexBefore(field, a, b)
  }

  lemma IndexOrderIsStrict(field: string)
    ensures Sorting.StrictOrder(IndexOrder(field))
  {
  }

  /** `WebConfig.getDataContainerKeys(config, field)`: the chunk keys of
      `field` present in the configuration, by index. */
  function GetDataContainerKeys<V, P>(root: Root<V, P>, field: string): (ks: seq<string>)
    ensures forall k :: k in ks <==> k in Keys(root) && IsChunkOf(field, k)
    ensures IndicesIncrease(ks, field)
  {
    var keys := Keys(root);
    KeysDistinct(root);
    assert Distinct(keys);
    ChunkKeysMembers(keys, field);
    ChunkKeysOrdered(keys, field);
    ContainerKeys(keys, field)
  }

  /** Along the sequence the keys' chunk indices strictly increase. */
  predicate IndicesIncrease(ks: seq<string>, field: string) {
    forall i, j :: 0 <= i < j < |ks| ==>
      && ChunkIndex(field, ks[i]).Some? && ChunkIndex(field, ks[j]).Some?
      && ChunkIndex(field, ks[i]).value < ChunkIndex(field, ks[j]).value
  }

  /** The chunk keys of `field` among `keys`, by index. */
  function ContainerKeys(keys: seq<string>, field: string): seq<string> {
    Sorting.Sort(Filter(keys, ChunkOf(field)), IndexOrder(field))
  }

  /** The keys found are exactly the chunk keys present, each once, in
      strictly increasing index order; with none present the list is
      empty. */
  lemma DataContainerKeysSpec<V, P>(root: Root<V, P>, field: string)
    ensures var r := GetDataContainerKeys(root, field);
            forall k :: k in r <==> k in Keys(root) && IsChunkOf(field, k)
    ensures var r := GetDataContainerKeys(root, field);
            forall i, j :: 0 <= i < j < |r| ==>
              && ChunkIndex(field, r[i]).Some? && ChunkIndex(field, r[j]).Some?
              && ChunkIndex(field, r[i]).value < ChunkIndex(field, r[j]).value
    ensures Distinct(GetDataContainerKeys(root, field))
    ensures (forall k :: k in Keys(root) ==> !IsChunkOf(field, k)) ==> GetDataContainerKeys(root, field) == []
  {
    var keys := Keys(root);
    var r := GetDataContainerKeys(root, field);
    assert r == ContainerKeys(keys, field);
    KeysDistinct(root);
    ChunkKeysMembers(keys, field);
    ChunkKeysOrdered(keys, field);
    if forall k :: k in Keys(root) ==> !IsChunkOf(field, k) {
      NoChunkKeysFound(keys, field);
    }
  }

  lemma NoChunkKeysFound(keys: seq<string>, field: string)
    requires forall k :: k in keys ==> !IsChunkOf(field, k)
    ensures ContainerKeys(keys, field) == []
  {
    FilterNone(keys, ChunkOf(field));
  }

  lemma ChunkKeysMembers(keys: seq<string>, field: string)
    ensures var r := ContainerKeys(keys, field);
            forall k :: k in r <==> k in keys && IsChunkOf(field, k)
  {
    var found := Filter(keys, ChunkOf(field));
    var r := Sorting.Sort(found, IndexOrder(field));
    FilterSpec(keys, ChunkOf(field));
    forall k
      ensures k in r <==> k in keys && IsChunkOf(field, k)
    {
      if k in r {
        assert k in multiset(r);
      }
      if k in keys && IsChunkOf(field, k) {
        assert k in multiset(found);
      }
    }
  }

  lemma ChunkKeysOrdered(keys: seq<string>, field: string)
    requires Distinct(keys)
    ensures var r := ContainerKeys(keys, field);
            forall i, j :: 0 <= i < j < |r| ==>
              && ChunkIndex(field, r[i]).Some? && ChunkIndex(field, r[j]).Some?
              && ChunkIndex(field, r[i]).value < ChunkIndex(field, r[j]).value
    ensures Distinct(ContainerKeys(keys, field))
  {
    var found := Filter(keys, ChunkOf(field));
    var r := Sorting.Sort(found, IndexOrder(field));
    FilterSpec(keys, ChunkOf(field));
    DistinctFilter(keys, ChunkOf(field));
    DistinctPermutation(found, r);
    IndexOrderIsStrict(field);
    Sorting.SortSorted(found, IndexOrder(field));
    forall i | 0 <= i < |r|
      ensures IsChunkOf(field, r[i])
    {
      assert r[i] in multiset(found);
    }
    StrictlyByIndex(r, field);
  }

  /** Distinct chunk keys in index order have strictly increasing indices. */
  lemma StrictlyByIndex(r: seq<string>, field: string)
    requires Distinct(r) && Sorting.SortedBy(r, IndexOrder(field))
    requires forall i :: 0 <= i < |r| ==> IsChunkOf(field, r[i])
    ensures forall i, j :: 0 <= i < j < |r| ==>
              && ChunkIndex(field, r[i]).Some? && ChunkIndex(field, r[j]).Some?
              && ChunkIndex(field, r[i]).value < ChunkIndex(field, r[j]).value
  {
    forall i, j | 0 <= i < j < |r|
      ensures ChunkIndex(field, r[i]).value < ChunkIndex(field, r[j]).value
    {
      assert !IndexBefore(field, r[j], r[i]);
      if ChunkIndex(field, r[i]) == ChunkIndex(field, r[j]) {
        ChunkIndexInverse(field, r[i]);
        ChunkIndexInverse(field, r[j]);
      }
    }
  }

  // Combining on load.

  /** The mapping stored under a key; anything else merges as nothing. */
  function EntriesOf<V, P>(v: Option<Value<V, P>>): Dict<V> {
    if v.Some? && v.value.Entries? then v.value.entries else []
  }

  /** `Object.assign({}, ...chunks)`: a later chunk's value wins. */
  function MergeAll<V>(cs: seq<Dict<V>>): (r: Dict<V>)
    ensures forall k :: k in Keys(r) <==> exists i :: 0 <= i < |cs| && k in Keys(cs[i])
    decreases |cs|
  {
    if |cs| == 0 then []
    else
      var init := cs[..|cs| - 1];
      var prev := MergeAll(init);
      var r := Assign(prev, cs[|cs| - 1]);
      forall k
        ensures k in Keys(r) <==> exists i :: 0 <= i < |cs| && k in Keys(cs[i])
      {
        MergeStep(cs, init, prev, r, k);
      }
      r
  }

  /** Merging one more chunk adds exactly that chunk's keys. */
  lemma MergeStep<V>(cs: seq<Dict<V>>, init: seq<Dict<V>>, prev: Dict<V>, r: Dict<V>, k: string)
    requires |cs| > 0 && init == cs[..|cs| - 1]
    requires forall k :: k in Keys(prev) <==> exists i :: 0 <= i < |init| && k in Keys(init[i])
    requires k in Keys(r) <==> k in Keys(prev) || k in Keys(cs[|cs| - 1])
    ensures k in Keys(r) <==> exists i :: 0 <= i < |cs| && k in Keys(cs[i])
  {
    if exists i :: 0 <= i < |cs| && k in Keys(cs[i]) {
      var i :| 0 <= i < |cs| && k in Keys(cs[i]);
      if i < |init| {
        assert init[i] == cs[i];
      }
    }
    if k in Keys(prev) {
      var i :| 0 <= i < |init| && k in Keys(init[i]);
      assert init[i] == cs[i];
    }
  }

  /** The merged value of a key is that of the last chunk holding it. */
  lemma {:induction false} MergeLastWins<V>(cs: seq<Dict<V>>, k: string, i: nat)
    requires i < |cs| && k in Keys(cs[i])
    requires forall j :: i < j < |cs| ==> k !in Keys(cs[j])
    ensures Get(MergeAll(cs), k) == Get(cs[i], k)
    decreases |cs|
  {
    if i < |cs| - 1 {
      var init := cs[..|cs| - 1];
      assert init[i] == cs[i];
      MergeLastWins(init, k, i);
    }
  }

  /** `delete config[key]` for each key. */
  function RemoveAll<V>(d: Dict<V>, keys: seq<string>): (r: Dict<V>)
    ensures forall k :: Get(r, k) == if k in keys then None else Get(d, k)
    decreases |keys|
  {
    if |keys| == 0 then d
    else RemoveAll(Remove(d, keys[0]), keys[1..])
  }

  /** The chunks named by `keys`, in that order. */
  function ChunksAt<V, P>(root: Root<V, P>, keys: seq<string>): (cs: seq<Dict<V>>)
    ensures |cs| == |keys|
    ensures forall i :: 0 <= i < |keys| ==> cs[i] == EntriesOf(Get(root, keys[i]))
  {
    seq(|keys|, i requires 0 <= i < |keys| => EntriesOf(Get(root, keys[i])))
  }

  datatype Combined<V, P> = Combined(root: Root<V, P>, keys: seq<string>)

  /** `WebConfig.combineData(config, field)`: the chunks of `field`, by
      index, are merged into `field`, the chunk keys are deleted, and the
      keys are returned. */
  function CombineData<V, P>(root: Root<V, P>, field: string): (c: Combined<V, P>)
    ensures forall k :: IsChunkOf(field, k) ==> k !in Keys(c.root)
    ensures Get(c.root, field) == Some(Entries(MergeAll(ChunksAt(root, c.keys))))
    ensures forall k :: k != field && !IsChunkOf(field, k) ==> Get(c.root, k) == Get(root, k)
    ensures forall k :: k in c.keys <==> k in Keys(root) && IsChunkOf(field, k)
    ensures forall i, j :: 0 <= i < j < |c.keys| ==>
              && ChunkIndex(field, c.keys[i]).Some? && ChunkIndex(field, c.keys[j]).Some?
              && ChunkIndex(field, c.keys[i]).value < ChunkIndex(field, c.keys[j]).value
    ensures c.keys == GetDataContainerKeys(root, field)
  {
    var keys := GetDataContainerKeys(root, field);
    DataContainerKeysSpec(root, field);
    FieldIsNotChunk(field);
    var merged := MergeAll(ChunksAt(root, keys));
    CombinedRoot(root, field, keys, Entries(merged));
    Combined(Set(RemoveAll(root, keys), field, Entries(merged)), keys)
  }

  /** Deleting exactly the chunk keys and then setting the field. */
  lemma CombinedRoot<V, P>(root: Root<V, P>, field: string, keys: seq<string>, v: Value<V, P>)
    requires forall k :: k in keys <==> k in Keys(root) && IsChunkOf(field, k)
    requires !IsChunkOf(field, field)
    ensures var r := Set(RemoveAll(root, keys), field, v);
            && (forall k :: IsChunkOf(field, k) ==> k !in Keys(r))
            && Get(r, field) == Some(v)
            && (forall k :: k != field && !IsChunkOf(field, k) ==> Get(r, k) == Get(root, k))
  {
    var r := Set(RemoveAll(root, keys), field, v);
    forall k | IsChunkOf(field, k)
      ensures k !in Keys(r)
    {
      assert Get(r, k) == Get(RemoveAll(root, keys), k);
    }
  }

  /** Every entry of every chunk is in the combined field, and nothing
      else is (no key such as "undefined" appears from nowhere). */
  predicate InSomeChunk<V>(cs: seq<Dict<V>>, w: string) {
    exists i :: 0 <= i < |cs| && w in Keys(cs[i])
  }

  predicate InSomeChunkOf<V, P>(root: Root<V, P>, field: string, w: string) {
    exists k :: k in Keys(root) && IsChunkOf(field, k) && w in Keys(EntriesOf(Get(root, k)))
  }

  lemma CombineKeepsEveryEntry<V, P>(root: Root<V, P>, field: string)
    ensures var c := CombineData(root, field);
            forall w :: w in Keys(Get(c.root, field).value.entries) <==> InSomeChunkOf(root, field, w)
  {
    var keys := GetDataContainerKeys(root, field);
    DataContainerKeysSpec(root, field);
    forall w
      ensures InSomeChunk(ChunksAt(root, keys), w) <==> InSomeChunkOf(root, field, w)
    {
      ChunksAtMembers(root, keys, w);
    }
  }

  lemma ChunksAtMembers<V, P>(root: Root<V, P>, keys: seq<string>, w: string)
    ensures InSomeChunk(ChunksAt(root, keys), w) <==>
            exists k :: k in keys && w in Keys(EntriesOf(Get(root, k)))
  {
    var cs := ChunksAt(root, keys);
    if exists k :: k in keys && w in Keys(EntriesOf(Get(root, k))) {
      var k :| k in keys && w in Keys(EntriesOf(Get(root, k)));
      var i :| 0 <= i < |keys| && keys[i] == k;
      assert w in Keys(cs[i]);
    }
  }

  // Splitting on save.

  /** The size of a run of entries: the sum of the sizes of its entries. */
  function SizeOf<V>(es: seq<(string, V)>, size: (string, V) -> nat): nat
    decreases |es|
  {
    if |es| == 0 then 0
    else SizeOf(es[..|es| - 1], size) + size(es[|es| - 1].0, es[|es| - 1].1)
  }

  lemma {:induction false} SizeAppend<V>(a: seq<(string, V)>, b: seq<(string, V)>, size: (string, V) -> nat)
    ensures SizeOf(a + b, size) == SizeOf(a, size) + SizeOf(b, size)
    decreases |b|
  {
    if |b| == 0 {
      assert a + b == a;
    } else {
      var init := b[..|b| - 1];
      assert (a + b)[..|a + b| - 1] == a + init;
      SizeAppend(a, init, size);
    }
  }

  /** The size of a set of entries does not depend on their order. */
  lemma {:induction false} SizeOfPermutation<V>(a: seq<(string, V)>, b: seq<(string, V)>, size: (string, V) -> nat)
    requires multiset(a) == multiset(b)
    ensures SizeOf(a, size) == SizeOf(b, size)
    decreases |a|
  {
    if |a| > 0 {
      var x := a[|a| - 1];
      var init := a[..|a| - 1];
      assert a == init + [x];
      assert x in multiset(b);
      var j :| 0 <= j < |b| && b[j] == x;
      var rest := b[..j] + b[j + 1..];
      assert b == b[..j] + [x] + b[j + 1..];
      assert multiset(b) == multiset(b[..j]) + multiset{x} + multiset(b[j + 1..]);
      assert multiset(rest) == multiset(b[..j]) + multiset(b[j + 1..]);
      assert multiset(a) == multiset(init) + multiset{x};
      assert multiset(rest) == multiset(b) - multiset{x};
      SizeOfPermutation(init, rest, size);
      SizeAppend(b[..j] + [x], b[j + 1..], size);
      SizeAppend(b[..j], [x], size);
      SizeAppend(b[..j], b[j + 1..], size);
      SizeAppend(init, [x], size);
    } else {
      assert |b| == |multiset(b)| == 0;
    }
  }

  lemma SizeSingle<V>(e: (string, V), size: (string, V) -> nat)
    ensures SizeOf([e], size) == size(e.0, e.1)
  {
    assert [e][..0] == [];
  }

  /** No chunk is empty. */
  predicate AllNonEmpty<V>(r: seq<seq<(string, V)>>) {
    forall i :: 0 <= i < |r| ==> |r[i]| > 0
  }

  /** Every chunk of two or more entries is within `maxBytes`. */
  predicate AllBounded<V>(r: seq<seq<(string, V)>>, size: (string, V) -> nat, maxBytes: nat) {
    forall i :: 0 <= i < |r| && |r[i]| > 1 ==> SizeOf(r[i], size) <= maxBytes
  }

  /** Every chunk but the last is full: the next chunk's first entry would
      have taken it over `maxBytes`. */
  predicate AllFull<V>(r: seq<seq<(string, V)>>, size: (string, V) -> nat, maxBytes: nat) {
    forall i :: 0 < i < |r| ==>
      |r[i]| > 0 && SizeOf(r[i - 1], size) + size(r[i][0].0, r[i][0].1) > maxBytes
  }

  predicate AllDistinct<V>(r: seq<seq<(string, V)>>) {
    forall i :: 0 <= i < |r| ==> DistinctKeys(r[i])
  }

  /** Greedy packing: the next entry joins the open chunk unless the chunk
      already holds something and the entry would take it over `maxBytes`;
      then the chunk is closed and the entry opens the next one. An entry
      larger than `maxBytes` thus sits alone in its chunk. */
  function Greedy<V>(cur: seq<(string, V)>, es: seq<(string, V)>,
                     size: (string, V) -> nat, maxBytes: nat): (r: seq<seq<(string, V)>>)
    ensures |r| > 0
    decreases |es|
  {
    if |es| == 0 then [cur]
    else if |cur| > 0 && SizeOf(cur, size) + size(es[0].0, es[0].1) > maxBytes then
      [cur] + Greedy([es[0]], es[1..], size, maxBytes)
    else Greedy(cur + [es[0]], es[1..], size, maxBytes)
  }

  lemma ConcatCons<T>(x: seq<T>, ss: seq<seq<T>>)
    ensures Concat([x] + ss) == x + Concat(ss)
  {
    assert ([x] + ss)[1..] == ss;
  }

  /** The chunks, read in order, are the open chunk followed by the
      entries. */
  lemma {:induction false} GreedyConcat<V>(cur: seq<(string, V)>, es: seq<(string, V)>,
                                           size: (string, V) -> nat, maxBytes: nat)
    ensures Concat(Greedy(cur, es, size, maxBytes)) == cur + es
    decreases |es|
  {
    if |es| == 0 {
      assert cur + es == cur;
    } else if |cur| > 0 && SizeOf(cur, size) + size(es[0].0, es[0].1) > maxBytes {
      GreedyConcat([es[0]], es[1..], size, maxBytes);
      ConcatCons(cur, Greedy([es[0]], es[1..], size, maxBytes));
      assert [es[0]] + es[1..] == es;
    } else {
      GreedyConcat(cur + [es[0]], es[1..], size, maxBytes);
      assert cur + [es[0]] + es[1..] == cur + es;
    }
  }

  /** The first chunk starts with the open chunk, and no chunk is empty
      unless there was nothing at all. */
  lemma {:induction false} GreedyShape<V>(cur: seq<(string, V)>, es: seq<(string, V)>,
                                          size: (string, V) -> nat, maxBytes: nat)
    ensures var r := Greedy(cur, es, size, maxBytes);
            |cur| > 0 ==> |r[0]| > 0 && r[0][0] == cur[0]
    ensures |cur| + |es| > 0 ==> AllNonEmpty(Greedy(cur, es, size, maxBytes))
    decreases |es|
  {
    if |es| > 0 {
      if |cur| > 0 && SizeOf(cur, size) + size(es[0].0, es[0].1) > maxBytes {
        GreedyShape([es[0]], es[1..], size, maxBytes);
      } else {
        GreedyShape(cur + [es[0]], es[1..], size, maxBytes);
      }
    }
  }

  /** A chunk of two or more entries stays within `maxBytes`. */
  lemma {:induction false} GreedyBounded<V>(cur: seq<(string, V)>, es: seq<(string, V)>,
                                            size: (string, V) -> nat, maxBytes: nat)
    requires |cur| > 1 ==> SizeOf(cur, size) <= maxBytes
    ensures AllBounded(Greedy(cur, es, size, maxBytes), size, maxBytes)
    decreases |es|
  {
    if |es| > 0 {
      if |cur| > 0 && SizeOf(cur, size) + size(es[0].0, es[0].1) > maxBytes {
        var rest := Greedy([es[0]], es[1..], size, maxBytes);
        GreedyBounded([es[0]], es[1..], size, maxBytes);
        var r := Greedy(cur, es, size, maxBytes);
        assert r == [cur] + rest;
        forall i | 0 <= i < |r| && |r[i]| > 1
          ensures SizeOf(r[i], size) <= maxBytes
        {
          if i > 0 {
            assert r[i] == rest[i - 1];
          }
        }
      } else {
        assert (cur + [es[0]])[..|cur|] == cur;
        GreedyBounded(cur + [es[0]], es[1..], size, maxBytes);
        assert Greedy(cur, es, size, maxBytes) == Greedy(cur + [es[0]], es[1..], size, maxBytes);
      }
    }
  }

  /** A chunk was closed only because the next chunk's first entry did not
      fit in it. */
  lemma {:induction false} GreedyFull<V>(cur: seq<(string, V)>, es: seq<(string, V)>,
                                         size: (string, V) -> nat, maxBytes: nat)
    ensures AllFull(Greedy(cur, es, size, maxBytes), size, maxBytes)
    decreases |es|
  {
    if |es| > 0 {
      if |cur| > 0 && SizeOf(cur, size) + size(es[0].0, es[0].1) > maxBytes {
        var rest := Greedy([es[0]], es[1..], size, maxBytes);
        GreedyFull([es[0]], es[1..], size, maxBytes);
        GreedyShape([es[0]], es[1..], size, maxBytes);
        assert Greedy(cur, es, size, maxBytes) == [cur] + rest;
        assert forall i :: 1 <= i < |rest| + 1 ==> ([cur] + rest)[i] == rest[i - 1];
      } else {
        GreedyFull(cur + [es[0]], es[1..], size, maxBytes);
        assert Greedy(cur, es, size, maxBytes) == Greedy(cur + [es[0]], es[1..], size, maxBytes);
      }
    }
  }

  /** Chunks of entries with distinct keys have distinct keys. */
  lemma {:induction false} GreedyDistinct<V>(cur: seq<(string, V)>, es: seq<(string, V)>,
                                             size: (string, V) -> nat, maxBytes: nat)
    requires DistinctKeys(cur + es)
    ensures AllDistinct(Greedy(cur, es, size, maxBytes))
    decreases |es|
  {
    if |es| == 0 {
      assert cur + es == cur;
    } else if |cur| > 0 && SizeOf(cur, size) + size(es[0].0, es[0].1) > maxBytes {
      assert forall i :: 0 <= i < |cur| ==> cur[i] == (cur + es)[i];
      assert forall i :: 0 <= i < |es| ==> es[i] == (cur + es)[|cur| + i];
      assert [es[0]] + es[1..] == es;
      var rest := Greedy([es[0]], es[1..], size, maxBytes);
      GreedyDistinct([es[0]], es[1..], size, maxBytes);
      var r := Greedy(cur, es, size, maxBytes);
      assert r == [cur] + rest;
      forall i | 0 <= i < |r|
        ensures DistinctKeys(r[i])
      {
        if i > 0 {
          assert r[i] == rest[i - 1];
        }
      }
    } else {
      assert cur + [es[0]] + es[1..] == cur + es;
      GreedyDistinct(cur + [es[0]], es[1..], size, maxBytes);
    }
  }

  /** Everything fits: one chunk. */
  lemma {:induction false} GreedyFits<V>(cur: seq<(string, V)>, es: seq<(string, V)>,
                                         size: (string, V) -> nat, maxBytes: nat)
    requires SizeOf(cur + es, size) <= maxBytes
    ensures Greedy(cur, es, size, maxBytes) == [cur + es]
    decreases |es|
  {
    if |es| == 0 {
      assert cur + es == cur;
    } else {
      assert cur + es == (cur + [es[0]]) + es[1..];
      SizeAppend(cur + [es[0]], es[1..], size);
      assert (cur + [es[0]])[..|cur|] == cur;
      GreedyFits(cur + [es[0]], es[1..], size, maxBytes);
    }
  }

  /** The entries of `field` cut into chunks, in the order JavaScript
      enumerates them (`Object.keys` order). */
  function SplitEntries<V>(entries: Dict<V>, size: (string, V) -> nat, maxBytes: nat): (cs: seq<Dict<V>>)
    ensures |cs| > 0
    ensures Concat(cs) == EntriesInKeyOrder(entries)
    ensures |entries| > 0 ==> forall i :: 0 <= i < |cs| ==> |cs[i]| > 0
    ensures forall i :: 0 <= i < |cs| && |cs[i]| > 1 ==> SizeOf(cs[i], size) <= maxBytes
  {
    var es := EntriesInKeyOrder(entries);
    var g := Greedy([], es, size, maxBytes);
    assert [] + es == es;
    GreedyDistinct([], es, size, maxBytes);
    GreedyConcat([], es, size, maxBytes);
    GreedyShape([], es, size, maxBytes);
    GreedyBounded([], es, size, maxBytes);
    var cs: seq<Dict<V>> := g;
    cs
  }

  /** The chunks depend only on what JavaScript sees of the entries: the
      `Object.keys` order and the value under each key. */
  lemma SplitSeesOnlyEnumeration<V>(a: Dict<V>, b: Dict<V>, size: (string, V) -> nat, maxBytes: nat)
    requires ObjectKeys(a) == ObjectKeys(b)
    requires forall k :: Get(a, k) == Get(b, k)
    ensures SplitEntries(a, size, maxBytes) == SplitEntries(b, size, maxBytes)
  {
    var ea, eb := EntriesInKeyOrder(a), EntriesInKeyOrder(b);
    forall i | 0 <= i < |ea|
      ensures ea[i] == eb[i]
    {
      assert Keys(ea)[i] == Keys(eb)[i];
      GetAt(ea, i);
      GetAt(eb, i);
    }
    assert ea == eb;
  }

  /** `{ _<field>0: chunk0, _<field>1: chunk1, … }`. */
  function ChunkTable<V, P>(field: string, cs: seq<Dict<V>>): (r: Root<V, P>)
    ensures |r| == |cs|
    ensures forall i :: 0 <= i < |cs| ==> r[i] == (ChunkKey(field, i), Entries(cs[i]))
  {
    var r := seq(|cs|, i requires 0 <= i < |cs| => (ChunkKey(field, i), Entries(cs[i])));
    forall i, j | 0 <= i < j < |r|
      ensures r[i].0 != r[j].0
    {
      ChunkKeyInjective(field, i, j);
    }
    r
  }

  /** `config.splitData(field)` for the entries of `field`. */
  function SplitData<V, P>(field: string, entries: Dict<V>, size: (string, V) -> nat, maxBytes: nat): (r: Root<V, P>)
    ensures |r| > 0
    ensures forall i :: 0 <= i < |r| ==> r[i].0 == ChunkKey(field, i) && r[i].1.Entries?
    ensures Concat(ChunksAt(r, Keys(r))) == EntriesInKeyOrder(entries)
    ensures |entries| > 0 ==> forall i :: 0 <= i < |r| ==> |r[i].1.entries| > 0
    ensures forall i :: 0 <= i < |r| && |r[i].1.entries| > 1 ==> SizeOf(r[i].1.entries, size) <= maxBytes
  {
    var cs := SplitEntries(entries, size, maxBytes);
    var r := ChunkTable<V, P>(field, cs);
    forall i | 0 <= i < |r|
      ensures ChunksAt(r, Keys(r))[i] == cs[i]
    {
      GetAt(r, i);
    }
    assert ChunksAt(r, Keys(r)) == cs;
    r
  }

  /** The chunk under `_<field><n>`, if there is one. */
  lemma ChunkTableGet<V, P>(field: string, cs: seq<Dict<V>>, n: nat)
    ensures Get(ChunkTable<V, P>(field, cs), ChunkKey(field, n)) ==
            if n < |cs| then Some(Entries(cs[n])) else None
  {
    var r := ChunkTable<V, P>(field, cs);
    if n < |cs| {
      GetAt(r, n);
    } else {
      forall i | 0 <= i < |r|
        ensures r[i].0 != ChunkKey(field, n)
      {
        ChunkKeyInjective(field, i, n);
      }
    }
  }

  /** Under the limit nothing is split: chunk 0 holds every entry and there
      is no chunk 1. */
  lemma SplitUnderMax<V, P>(field: string, entries: Dict<V>, size: (string, V) -> nat, maxBytes: nat)
    requires SizeOf(entries, size) <= maxBytes
    ensures Get(SplitData<V, P>(field, entries, size, maxBytes), ChunkKey(field, 0)) == Some(Entries(EntriesInKeyOrder(entries)))
    ensures Get(SplitData<V, P>(field, entries, size, maxBytes), ChunkKey(field, 1)) == None
  {
    var es := EntriesInKeyOrder(entries);
    EntriesInKeyOrderPermutes(entries);
    SizeOfPermutation(es, entries, size);
    assert [] + es == es;
    GreedyFits([], es, size, maxBytes);
    ChunkTableGet<V, P>(field, SplitEntries(entries, size, maxBytes), 0);
    ChunkTableGet<V, P>(field, SplitEntries(entries, size, maxBytes), 1);
  }

  lemma ConcatLength<T>(ss: seq<seq<T>>)
    requires |ss| >= 2
    ensures Concat(ss) == ss[0] + ss[1] + Concat(ss[2..])
  {
    assert ss[1..][1..] == ss[2..];
  }

  /** Over the limit, entries of more than one entry are split: chunk 0 is
      neither empty nor everything. */
  lemma SplitOverMax<V>(entries: Dict<V>, size: (string, V) -> nat, maxBytes: nat)
    requires SizeOf(entries, size) > maxBytes && |entries| >= 2
    ensures var cs := SplitEntries(entries, size, maxBytes);
            |cs| >= 2 && 0 < |cs[0]| < |entries|
  {
    var cs := SplitEntries(entries, size, maxBytes);
    EntriesInKeyOrderPermutes(entries);
    SizeOfPermutation(EntriesInKeyOrder(entries), entries, size);
    if |cs| >= 2 {
      ConcatLength(cs);
    }
  }

  /** When the whole is over the limit but not by more than the limit less
      the largest entry, there are exactly two chunks, which together hold
      every entry. */
  lemma SplitTwoChunks<V>(entries: Dict<V>, size: (string, V) -> nat, maxBytes: nat, largest: nat)
    requires forall i :: 0 <= i < |entries| ==> size(entries[i].0, entries[i].1) <= largest
    requires maxBytes < SizeOf(entries, size) && SizeOf(entries, size) + largest <= 2 * maxBytes
    requires |entries| >= 2
    ensures var cs := SplitEntries(entries, size, maxBytes);
            |cs| == 2 && |cs[0]| + |cs[1]| == |entries|
  {
    var cs := SplitEntries(entries, size, maxBytes);
    var es := EntriesInKeyOrder(entries);
    SplitOverMax(entries, size, maxBytes);
    EntriesInKeyOrderPermutes(entries);
    SizeOfPermutation(es, entries, size);
    forall i | 0 <= i < |es|
      ensures size(es[i].0, es[i].1) <= largest
    {
      assert es[i] in multiset(entries);
    }
    if |cs| >= 3 {
      SplitFull(entries, size, maxBytes);
      ThreeTooBig(cs, es, size, maxBytes, largest);
    }
    ConcatLength(cs);
    assert cs[2..] == [];
  }

  /** Every chunk but the first was started because the entry would not
      fit into the one before. */
  lemma SplitFull<V>(entries: Dict<V>, size: (string, V) -> nat, maxBytes: nat)
    ensures AllFull(SplitEntries(entries, size, maxBytes), size, maxBytes)
  {
    var es := EntriesInKeyOrder(entries);
    assert [] + es == es;
    GreedyFull([], es, size, maxBytes);
  }

  /** Three or more chunks need more than the second-chunk bound allows. */
  lemma ThreeTooBig<V>(cs: seq<seq<(string, V)>>, entries: seq<(string, V)>,
                       size: (string, V) -> nat, maxBytes: nat, largest: nat)
    requires |cs| >= 3 && AllFull(cs, size, maxBytes) && |cs[0]| > 0 && Concat(cs) == entries
    requires forall i :: 0 <= i < |entries| ==> size(entries[i].0, entries[i].1) <= largest
    ensures SizeOf(entries, size) + largest > 2 * maxBytes
  {
    ThreeFullChunks(cs, size, maxBytes);
    assert size(entries[|cs[0]|].0, entries[|cs[0]|].1) <= largest;
  }

  /** Three full chunks in a row hold more than twice the limit less their
      second chunk's first entry. */
  lemma ThreeFullChunks<V>(cs: seq<seq<(string, V)>>, size: (string, V) -> nat, maxBytes: nat)
    requires |cs| >= 3 && AllFull(cs, size, maxBytes) && |cs[0]| > 0
    ensures |cs[0]| < |Concat(cs)| && Concat(cs)[|cs[0]|] == cs[1][0]
    ensures SizeOf(Concat(cs), size) + size(cs[1][0].0, cs[1][0].1) > 2 * maxBytes
  {
    ConcatLength(cs);
    var rest := Concat(cs[2..]);
    ConcatLength2(cs[2..]);
    SizeAppend(cs[0] + cs[1], rest, size);
    SizeAppend(cs[0], cs[1], size);
    FirstSize(rest, size);
  }

  lemma ConcatLength2<T>(ss: seq<seq<T>>)
    requires |ss| >= 1
    ensures Concat(ss) == ss[0] + Concat(ss[1..])
  {
  }

  /** A run weighs at least its first entry. */
  lemma FirstSize<V>(es: seq<(string, V)>, size: (string, V) -> nat)
    requires |es| > 0
    ensures SizeOf(es, size) >= size(es[0].0, es[0].1)
  {
    assert es == [es[0]] + es[1..];
    SizeAppend([es[0]], es[1..], size);
    SizeSingle(es[0], size);
  }

  /** The halves of a dictionary laid end to end are dictionaries, and no
      key of the second half is in the first. */
  lemma DistinctKeysAppend<V>(a: seq<(string, V)>, b: seq<(string, V)>)
    requires DistinctKeys(a + b)
    ensures DistinctKeys(a)
    ensures forall i :: 0 <= i < |b| ==> b[i].0 !in Keys(a)
  {
    forall i, j | 0 <= i < j < |a|
      ensures a[i].0 != a[j].0
    {
      assert (a + b)[i] == a[i] && (a + b)[j] == a[j];
    }
    forall i | 0 <= i < |b|
      ensures b[i].0 !in Keys(a)
    {
      forall j | 0 <= j < |a|
        ensures Keys(a)[j] != b[i].0
      {
        assert (a + b)[j] == a[j] && (a + b)[|a| + i] == b[i];
      }
    }
  }

  /** Merging chunks whose keys are all different lays them end to end. */
  lemma {:induction false} MergeConcat<V>(cs: seq<Dict<V>>)
    requires DistinctKeys(Concat(cs))
    ensures MergeAll(cs) == Concat(cs)
    decreases |cs|
  {
    if |cs| > 0 {
      var init := cs[..|cs| - 1];
      var last := cs[|cs| - 1];
      assert cs == init + [last];
      ConcatSnoc(init, last);
      var front := Concat(init);
      DistinctKeysAppend(front, last);
      MergeConcat(init);
      AssignFresh(MergeAll(init), last);
    }
  }

  /** The stored form of the configuration: the other settings, with
      `field` replaced by its chunks. */
  function StoreSplit<V, P>(root: Root<V, P>, field: string, entries: Dict<V>,
                            size: (string, V) -> nat, maxBytes: nat): (r: Root<V, P>)
    requires forall k :: k in Keys(root) ==> !IsChunkOf(field, k)
    ensures forall k :: k in Keys(r) <==>
              (k in Keys(root) && k != field) || k in Keys(SplitData<V, P>(field, entries, size, maxBytes))
    ensures Get(r, field) == None
    ensures forall k :: k != field && !IsChunkOf(field, k) ==> Get(r, k) == Get(root, k)
    ensures forall k :: IsChunkOf(field, k) ==> Get(r, k) == Get(SplitData<V, P>(field, entries, size, maxBytes), k)
  {
    var others := Remove(root, field);
    var table := SplitData<V, P>(field, entries, size, maxBytes);
    forall i | 0 <= i < |table|
      ensures table[i].0 !in Keys(others)
      ensures IsChunkOf(field, table[i].0)
    {
      assert table[i].0 == ChunkKey(field, i);
      ChunkKeyRoundTrip(field, i);
      assert IsChunkOf(field, table[i].0);
    }
    FieldIsNotChunk(field);
    assert DistinctKeys(others + table) by {
      forall i, j | 0 <= i < j < |others + table|
        ensures (others + table)[i].0 != (others + table)[j].0
      {
        if j >= |others| && i < |others| {
          assert (others + table)[j] == table[j - |others|];
          assert (others + table)[i].0 in Keys(others);
        }
      }
    }
    KeysAppend(others, table);
    forall k
      ensures Get(others + table, k) == if k in Keys(table) then Get(table, k) else Get(others, k)
    {
      GetAppend(others, table, k);
    }
    others + table
  }

  /** Loading finds exactly the stored chunk keys, in order. */
  lemma StoredKeysFound<V, P>(root: Root<V, P>, field: string, entries: Dict<V>,
                              size: (string, V) -> nat, maxBytes: nat)
    requires forall k :: k in Keys(root) ==> !IsChunkOf(field, k)
    ensures GetDataContainerKeys(StoreSplit(root, field, entries, size, maxBytes), field) ==
            Keys(SplitData<V, P>(field, entries, size, maxBytes))
  {
    var stored := StoreSplit(root, field, entries, size, maxBytes);
    assert stored == Remove(root, field) + ChunkTable<V, P>(field, SplitEntries(entries, size, maxBytes));
    NoChunksLeft(root, field);
    FoundAfterOthers<V, P>(Remove(root, field), field, SplitEntries(entries, size, maxBytes));
  }

  lemma FoundAfterOthers<V, P>(others: Root<V, P>, field: string, cs: seq<Dict<V>>)
    requires forall i :: 0 <= i < |Keys(others)| ==> !IsChunkOf(field, Keys(others)[i])
    requires DistinctKeys(others + ChunkTable<V, P>(field, cs))
    ensures GetDataContainerKeys(others + ChunkTable<V, P>(field, cs), field) == Keys(ChunkTable<V, P>(field, cs))
  {
    var table := ChunkTable<V, P>(field, cs);
    var tk := Keys(table);
    KeysAppend(others, table);
    FilterAppend(Keys(others), tk, ChunkOf(field));
    FilterNone(Keys(others), ChunkOf(field));
    var found := Filter(tk, ChunkOf(field));
    assert Filter(Keys(others + table), ChunkOf(field)) == found by {
      assert [] + found == found;
    }
    TableKeysInOrder<V, P>(field, cs);
  }

  lemma NoChunksLeft<V, P>(root: Root<V, P>, field: string)
    requires forall k :: k in Keys(root) ==> !IsChunkOf(field, k)
    ensures forall i :: 0 <= i < |Keys(Remove(root, field))| ==> !IsChunkOf(field, Keys(Remove(root, field))[i])
  {
    var ok := Keys(Remove(root, field));
    assert forall i :: 0 <= i < |ok| ==> ok[i] in Keys(root);
  }

  /** The keys of a chunk table are chunk keys already in index order, so
      filtering and sorting them changes nothing. */
  lemma TableKeysInOrder<V, P>(field: string, cs: seq<Dict<V>>)
    ensures var tk := Keys(ChunkTable<V, P>(field, cs));
            ContainerKeys(tk, field) == tk
  {
    var tk := Keys(ChunkTable<V, P>(field, cs));
    ChunkKeysByPosition(field, tk, |cs|);
    FilterKeepsAll(tk, ChunkOf(field));
    Sorting.SortOfSorted(tk, IndexOrder(field));
  }

  /** The chunk keys `0, 1, ..., n - 1` are chunks and in index order. */
  lemma ChunkKeysByPosition(field: string, tk: seq<string>, n: nat)
    requires |tk| == n && forall i :: 0 <= i < n ==> tk[i] == ChunkKey(field, i)
    ensures forall i :: 0 <= i < |tk| ==> ChunkOf(field)(tk[i])
    ensures Sorting.SortedBy(tk, IndexOrder(field))
  {
    forall i | 0 <= i < |tk|
      ensures ChunkIndex(field, tk[i]) == Some(i)
    {
      ChunkKeyRoundTrip(field, i);
    }
  }

  /** Loading reads back the chunks in the order they were cut. */
  lemma StoredChunksRead<V, P>(root: Root<V, P>, field: string, entries: Dict<V>,
                               size: (string, V) -> nat, maxBytes: nat)
    requires forall k :: k in Keys(root) ==> !IsChunkOf(field, k)
    ensures ChunksAt(StoreSplit(root, field, entries, size, maxBytes),
                     Keys(SplitData<V, P>(field, entries, size, maxBytes)))
            == SplitEntries(entries, size, maxBytes)
  {
    var others := Remove(root, field);
    var cs := SplitEntries(entries, size, maxBytes);
    var table := SplitData<V, P>(field, entries, size, maxBytes);
    var stored := StoreSplit(root, field, entries, size, maxBytes);
    forall i | 0 <= i < |cs|
      ensures EntriesOf(Get(stored, Keys(table)[i])) == cs[i]
    {
      assert stored[|others| + i] == table[i];
      GetAt(stored, |others| + i);
    }
  }

  /** Splitting then combining gives back the field's entries in the
      order JavaScript enumerated them, each key with its value, and leaves
      every other setting as it was: combining is the left inverse of
      splitting. Without array-index keys the entries come back exactly. */
  lemma SplitCombineRoundTrip<V, P>(root: Root<V, P>, field: string, entries: Dict<V>,
                                    size: (string, V) -> nat, maxBytes: nat)
    requires forall k :: k in Keys(root) ==> !IsChunkOf(field, k)
    ensures var c := CombineData(StoreSplit(root, field, entries, size, maxBytes), field);
            && Get(c.root, field) == Some(Entries(EntriesInKeyOrder(entries)))
            && Keys(EntriesOf(Get(c.root, field))) == ObjectKeys(entries)
            && (forall w :: Get(EntriesOf(Get(c.root, field)), w) == Get(entries, w))
            && ((forall k :: k in Keys(entries) ==> IsPlainKey(k)) ==> Get(c.root, field) == Some(Entries(entries)))
            && c.keys == Keys(SplitData<V, P>(field, entries, size, maxBytes))
            && forall k :: k != field && !IsChunkOf(field, k) ==> Get(c.root, k) == Get(root, k)
  {
    if forall k :: k in Keys(entries) ==> IsPlainKey(k) {
      EntriesInKeyOrderOfPlain(entries);
    }
    CombinedField(root, field, entries, size, maxBytes);
  }

  /** Loading the stored chunks merges them back into the enumerated
      entries. */
  lemma CombinedField<V, P>(root: Root<V, P>, field: string, entries: Dict<V>,
                            size: (string, V) -> nat, maxBytes: nat)
    requires forall k :: k in Keys(root) ==> !IsChunkOf(field, k)
    ensures var c := CombineData(StoreSplit(root, field, entries, size, maxBytes), field);
            && Get(c.root, field) == Some(Entries(EntriesInKeyOrder(entries)))
            && c.keys == Keys(SplitData<V, P>(field, entries, size, maxBytes))
  {
    StoredKeysFound(root, field, entries, size, maxBytes);
    StoredChunksRead(root, field, entries, size, maxBytes);
    MergeConcat(SplitEntries(entries, size, maxBytes));
  }

  // The ordered view.

  /** Keys starting with `_` are the store's own bookkeeping, such as
      `_splitContainerKeys` and the chunks. */
  predicate IsInternal(key: string) {
    |key| > 0 && key[0] == '_'
  }

  function Public(): string -> bool {
    key => !IsInternal(key)
  }

  function KeyOrder(): (string, string) -> bool {
    (a, b) => LexLess(a, b)
  }

  lemma KeyOrderIsStrict()
    ensures Sorting.StrictOrder(KeyOrder())
  {
    forall a
      ensures !LexLess(a, a)
    {
      LexLessIrreflexive(a);
    }
    forall a, b, c | LexLess(a, b) && LexLess(b, c)
      ensures LexLess(a, c)
    {
      LexLessTransitive(a, b, c);
    }
  }

  /** The public keys, sorted. */
  function PublicKeys(keys: seq<string>): seq<string> {
    Sorting.Sort(Filter(keys, Public()), KeyOrder())
  }

  /** The sorted public keys are the public keys, each once, in strictly
      increasing order. */
  lemma PublicKeysSpec(keys: seq<string>)
    requires Distinct(keys)
    ensures forall k :: k in PublicKeys(keys) <==> k in keys && !IsInternal(k)
    ensures Distinct(PublicKeys(keys))
    ensures var ks := PublicKeys(keys);
            forall i, j :: 0 <= i < j < |ks| ==> LexLess(ks[i], ks[j])
  {
    var found := Filter(keys, Public());
    var ks := PublicKeys(keys);
    FilterSpec(keys, Public());
    DistinctFilter(keys, Public());
    DistinctPermutation(found, ks);
    KeyOrderIsStrict();
    Sorting.SortSorted(found, KeyOrder());
    forall k
      ensures k in ks <==> k in keys && !IsInternal(k)
    {
      if k in ks {
        assert k in multiset(ks);
      }
      if k in keys && !IsInternal(k) {
        assert k in multiset(found);
      }
    }
    forall i, j | 0 <= i < j < |ks|
      ensures LexLess(ks[i], ks[j])
    {
      LexLessTotal(ks[i], ks[j]);
    }
  }

  /** `config.ordered()`: the settings without the internal keys, sorted by
      key. */
  function Ordered<V, P>(root: Root<V, P>): (r: Root<V, P>)
    ensures Keys(r) == PublicKeys(Keys(root))
    ensures forall i :: 0 <= i < |r| ==> Get(root, r[i].0) == Some(r[i].1)
  {
    var ks := PublicKeys(Keys(root));
    KeysDistinct(root);
    PublicKeysSpec(Keys(root));
    var r := seq(|ks|, i requires 0 <= i < |ks| => (ks[i], Get(root, ks[i]).value));
    assert Keys(r) == ks;
    r
  }

  /** The ordered view keeps every public setting with its value, drops
      every internal one, and lists keys in increasing order. */
  lemma OrderedSpec<V, P>(root: Root<V, P>)
    ensures forall k :: k in Keys(Ordered(root)) <==> k in Keys(root) && !IsInternal(k)
    ensures forall k :: !IsInternal(k) ==> Get(Ordered(root), k) == Get(root, k)
    ensures var ks := Keys(Ordered(root));
            forall i, j :: 0 <= i < j < |ks| ==> LexLess(ks[i], ks[j])
  {
    var r := Ordered(root);
    KeysDistinct(root);
    PublicKeysSpec(Keys(root));
    forall k | !IsInternal(k)
      ensures Get(r, k) == Get(root, k)
    {
      if k in Keys(r) {
        var i :| 0 <= i < |r| && Keys(r)[i] == k;
        GetAt(r, i);
      }
    }
  }
}
