// The batch loops of src/leveldb/leveldb.hpp: many values in one buffer, cut
// up and packed again by a running offset. Keys are viewed in place, unswapped.
module LevelDb {
  import opened Sequences
  import opened Sums
  import opened KeyEncoding
  import opened Buffers
  import opened Workloads
  import W = Worker

  type Store = map<seq<Byte>, seq<Byte>>

  // One upsert, as leveldb_t::upsert does it.
  function UpsertOne(store: Store, key: nat, value: seq<Byte>): Store {
    store[Memory(key, KEY_WIDTH) := value]
  }

  function UpsertAll(store: Store, keys: seq<nat>, values: seq<seq<Byte>>): Store
    requires |keys| == |values|
  {
    if keys == [] then store
    else
      var n := |keys| - 1;
      UpsertOne(UpsertAll(store, keys[..n], values[..n]), keys[n], values[n])
  }

  // The values one after the other, each of its own size.
  function Slices(values: seq<Byte>, sizes: seq<nat>): (slices: seq<seq<Byte>>)
    requires Sum(sizes) <= |values|
    ensures |slices| == |sizes| && forall i :: 0 <= i < |sizes| ==> |slices[i]| == sizes[i]
  {
    if sizes == [] then []
    else [values[..sizes[0]]] + Slices(values[sizes[0]..], sizes[1..])
  }

  // What is stored under the keys, for those that are found.
  function Found(store: Store, keys: seq<nat>): seq<seq<Byte>> {
    if keys == [] then []
    else
      var n := |keys| - 1;
      var memory := Memory(keys[n], KEY_WIDTH);
      if memory in store then Found(store, keys[..n]) + [store[memory]] else Found(store, keys[..n])
  }

  lemma {:induction false} ConcatLength(parts: seq<seq<Byte>>, cap: nat)
    requires forall i :: 0 <= i < |parts| ==> |parts[i]| <= cap
    ensures |Concat(parts)| <= |parts| * cap
  {
    if parts != [] { ConcatLength(parts[1..], cap); }
  }

  // The slices cover the buffer exactly, without gap or overlap.
  lemma {:induction false} SlicesCover(values: seq<Byte>, sizes: seq<nat>)
    requires Sum(sizes) == |values|
    ensures Concat(Slices(values, sizes)) == values
  {
    if sizes != [] {
      SlicesCover(values[sizes[0]..], sizes[1..]);
    }
  }

  // Slice i starts where the sizes before it end: the running offset.
  lemma {:induction false} SliceAtOffset(values: seq<Byte>, sizes: seq<nat>, i: nat)
    requires Sum(sizes) <= |values| && i < |sizes|
    ensures Sum(sizes[..i]) + sizes[i] <= |values|
    ensures Slices(values, sizes)[i] == values[Sum(sizes[..i])..Sum(sizes[..i]) + sizes[i]]
  {
    if i > 0 {
      SliceAtOffset(values[sizes[0]..], sizes[1..], i - 1);
      assert sizes[..i] == [sizes[0]] + sizes[1..][..i - 1];
    }
  }

  datatype OperationResult = OperationResult(entriesTouched: nat)

  lemma {:induction false} FoundPrefix(store: Store, keys: seq<nat>, k: nat)
    requires k <= |keys|
    ensures |Concat(Found(store, keys[..k]))| <= |Concat(Found(store, keys))|
    decreases |keys|
  {
    if k < |keys| {
      var n := |keys| - 1;
      FoundPrefix(store, keys[..n], k);
      assert keys[..n][..k] == keys[..k];
      var memory := Memory(keys[n], KEY_WIDTH);
      if memory in store { ConcatAppend(Found(store, keys[..n]), store[memory]); }
    } else {
      assert keys[..k] == keys;
    }
  }

  class LevelDb {
    var store: Store

    constructor ()
      ensures store == map[]
    {
      store := map[];
    }

    method Upsert(key: nat, value: seq<Byte>) returns (r: OperationResult)
      modifies this
      ensures store == UpsertOne(old(store), key, value) && r == OperationResult(1)
    {
      store := store[Memory(key, KEY_WIDTH) := value];
      r := OperationResult(1);
    }

    // batch_upsert equals one upsert after the other of the slices.
    method BatchUpsert(keys: seq<nat>, values: seq<Byte>, sizes: seq<nat>) returns (r: OperationResult)
      requires |sizes| == |keys| && Sum(sizes) <= |values|
      modifies this
      ensures store == UpsertAll(old(store), keys, Slices(values, sizes)) && r == OperationResult(|keys|)
    {
      ghost var slices := Slices(values, sizes);
      var offset := 0;
      var batch := store;
      for idx := 0 to |keys|
        invariant offset == Sum(sizes[..idx])
        invariant batch == UpsertAll(old(store), keys[..idx], slices[..idx])
      {
        SliceAtOffset(values, sizes, idx);
        batch := batch[Memory(keys[idx], KEY_WIDTH) := values[offset..offset + sizes[idx]]];
        assert keys[..idx + 1][..idx] == keys[..idx] && slices[..idx + 1][..idx] == slices[..idx];
        SumAppend(sizes[..idx], [sizes[idx]]);
        assert sizes[..idx + 1] == sizes[..idx] + [sizes[idx]];
        offset := offset + sizes[idx];
      }
      assert keys[..|keys|] == keys && slices[..|keys|] == slices;
      store := batch;
      r := OperationResult(|keys|);
    }

    // batch_read packs what it finds at the front of the buffer.
    method BatchRead(keys: seq<nat>, buffer: array<Byte>) returns (r: OperationResult)
      requires |Concat(Found(store, keys))| <= buffer.Length
      modifies buffer
      ensures var found := Found(store, keys);
              && r == OperationResult(|found|)
              && buffer[..] == Concat(found) + old(buffer[|Concat(found)|..])
    {
      var offset, foundCnt := 0, 0;
      for idx := 0 to |keys|
        invariant foundCnt == |Found(store, keys[..idx])|
        invariant offset == |Concat(Found(store, keys[..idx]))| <= buffer.Length
        invariant buffer[..offset] == Concat(Found(store, keys[..idx]))
        invariant buffer[offset..] == old(buffer[offset..])
      {
        FoundPrefix(store, keys, idx + 1);
        var memory := Memory(keys[idx], KEY_WIDTH);
        assert keys[..idx + 1][..idx] == keys[..idx];
        if memory in store {
          var data := store[memory];
          ConcatAppend(Found(store, keys[..idx]), data);
          CopyInto(buffer, offset, data);
          offset := offset + |data|;
          foundCnt := foundCnt + 1;
        }
      }
      assert keys[..|keys|] == keys;
      assert buffer[..] == buffer[..offset] + buffer[offset..];
      r := OperationResult(foundCnt);
    }
  }

  // ----- the round trip -----

  predicate DistinctKeys(keys: seq<nat>) {
    Distinct(keys) && forall i :: 0 <= i < |keys| ==> keys[i] < Pow256(KEY_WIDTH)
  }

  lemma MemoryInjective(x: nat, y: nat)
    requires x < Pow256(KEY_WIDTH) && y < Pow256(KEY_WIDTH)
    ensures Memory(x, KEY_WIDTH) == Memory(y, KEY_WIDTH) <==> x == y
  {
    ValueMemory(x, KEY_WIDTH);
    ValueMemory(y, KEY_WIDTH);
  }

  predicate Written(keys: seq<nat>, m: seq<Byte>) {
    exists i :: 0 <= i < |keys| && Memory(keys[i], KEY_WIDTH) == m
  }

  // The frame of a batch: its keys are there afterwards, all others are as they were.
  lemma {:induction false} UpsertAllFrame(store: Store, keys: seq<nat>, values: seq<seq<Byte>>, m: seq<Byte>)
    requires |keys| == |values|
    ensures m in UpsertAll(store, keys, values) <==> m in store || Written(keys, m)
    ensures m in store && !Written(keys, m) ==> UpsertAll(store, keys, values)[m] == store[m]
  {
    if keys != [] {
      var n := |keys| - 1;
      UpsertAllFrame(store, keys[..n], values[..n], m);
      assert Written(keys, m) <==> Written(keys[..n], m) || Memory(keys[n], KEY_WIDTH) == m by {
        if i :| 0 <= i < |keys| && Memory(keys[i], KEY_WIDTH) == m {
          assert i < n ==> keys[..n][i] == keys[i];
        }
        if i :| 0 <= i < n && Memory(keys[..n][i], KEY_WIDTH) == m {
          assert keys[i] == keys[..n][i];
        }
      }
    }
  }

  // With repeated keys the last value wins.
  lemma {:induction false} LastValueWins(store: Store, keys: seq<nat>, values: seq<seq<Byte>>, i: nat)
    requires |keys| == |values| && i < |keys|
    requires forall j :: i < j < |keys| ==> Memory(keys[j], KEY_WIDTH) != Memory(keys[i], KEY_WIDTH)
    ensures var m := Memory(keys[i], KEY_WIDTH);
            m in UpsertAll(store, keys, values) && UpsertAll(store, keys, values)[m] == values[i]
  {
    var n := |keys| - 1;
    if i < n {
      LastValueWins(store, keys[..n], values[..n], i);
    }
  }

  // What is found, key by key in their order; absent keys contribute nothing.
  lemma {:induction false} FoundOfParts(store: Store, keys: seq<nat>, more: seq<nat>)
    ensures Found(store, keys + more) == Found(store, keys) + Found(store, more)
  {
    if more == [] {
      assert keys + more == keys;
    } else {
      var n := |more| - 1;
      assert (keys + more)[..|keys| + n] == keys + more[..n];
      FoundOfParts(store, keys, more[..n]);
    }
  }

  lemma FoundOfOne(store: Store, key: nat)
    ensures Found(store, [key]) ==
            if Memory(key, KEY_WIDTH) in store then [store[Memory(key, KEY_WIDTH)]] else []
  {
    assert [key][..0] == [];
  }

  lemma {:induction false} UpsertAllAt(store: Store, keys: seq<nat>, values: seq<seq<Byte>>, i: nat)
    requires |keys| == |values| && DistinctKeys(keys) && i < |keys|
    ensures Memory(keys[i], KEY_WIDTH) in UpsertAll(store, keys, values)
    ensures UpsertAll(store, keys, values)[Memory(keys[i], KEY_WIDTH)] == values[i]
  {
    var n := |keys| - 1;
    if i < n {
      UpsertAllAt(store, keys[..n], values[..n], i);
      MemoryInjective(keys[i], keys[n]);
    }
  }

  lemma {:induction false} FoundAll(store: Store, keys: seq<nat>, values: seq<seq<Byte>>)
    requires |keys| == |values|
    requires forall i :: 0 <= i < |keys| ==>
               Memory(keys[i], KEY_WIDTH) in store && store[Memory(keys[i], KEY_WIDTH)] == values[i]
    ensures Found(store, keys) == values
  {
    if keys != [] {
      var n := |keys| - 1;
      FoundAll(store, keys[..n], values[..n]);
      assert values == values[..n] + [values[n]];
    }
  }

  // Writing a batch and reading the same distinct keys back finds all of them
  // and packs the identical bytes.
  lemma BatchRoundTrip(store: Store, keys: seq<nat>, values: seq<Byte>, sizes: seq<nat>)
    requires DistinctKeys(keys) && |sizes| == |keys| && Sum(sizes) == |values|
    ensures var found := Found(UpsertAll(store, keys, Slices(values, sizes)), keys);
            |found| == |keys| && Concat(found) == values
  {
    var slices := Slices(values, sizes);
    var after := UpsertAll(store, keys, slices);
    forall i | 0 <= i < |keys|
      ensures Memory(keys[i], KEY_WIDTH) in after && after[Memory(keys[i], KEY_WIDTH)] == slices[i]
    {
      UpsertAllAt(store, keys, slices, i);
    }
    FoundAll(after, keys, slices);
    SlicesCover(values, sizes);
  }

  lemma {:induction false} FoundShort(store: Store, keys: seq<nat>, cap: nat)
    requires forall k :: k in store ==> |store[k]| <= cap
    ensures |Found(store, keys)| <= |keys|
    ensures forall i :: 0 <= i < |Found(store, keys)| ==> |Found(store, keys)[i]| <= cap
  {
    if keys != [] { FoundShort(store, keys[..|keys| - 1], cap); }
  }

  // A batch read of stored values none of which is longer than the workload's
  // value length stays inside the span the worker hands out for it.
  lemma BatchReadFits(w: Workload, store: Store, keys: seq<nat>)
    requires w.valueLength < 0x1_0000_0000 && |keys| <= W.ElementsMax(w)
    requires forall k :: k in store ==> |store[k]| <= w.valueLength
    ensures |Concat(Found(store, keys))| <= W.ValuesSpan(w, |keys|)
  {
    FoundShort(store, keys, w.valueLength);
    ConcatLength(Found(store, keys), w.valueLength);
    Scale(|Found(store, keys)|, |keys|, w.valueLength);
    W.ValuesFit(w, |keys|);
  }
}
