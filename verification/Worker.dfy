// worker_t (src/core/worker.hpp): buffer sizing, the key sequences and the
// values of a batch. Random draws are parameters.
module Worker {
  import opened Wrappers
  import opened Sequences
  import opened Sums
  import opened Bits
  import opened Workloads
  import opened KeyEncoding
  import A = AckWindow
  import Split = WorkSplit

  // log2 of the buffer alignment, 4096.
  const ALIGNMENT_LOG: nat := 12

  function ElementsMax(w: Workload): (m: nat)
    ensures m >= 1 && m >= w.batchUpsertMaxLength && m >= w.batchReadMaxLength
    ensures m >= w.bulkLoadMaxLength && m >= w.rangeSelectMaxLength
    ensures m == 1 || m == w.batchUpsertMaxLength || m == w.batchReadMaxLength
            || m == w.bulkLoadMaxLength || m == w.rangeSelectMaxLength
  {
    Max(w.batchUpsertMaxLength,
      Max(w.batchReadMaxLength, Max(w.bulkLoadMaxLength, Max(w.rangeSelectMaxLength, 1))))
  }

  // The first draw that is not above the cut-off.
  function FirstAccepted(draws: seq<nat>, cutOff: nat): Option<nat> {
    if draws == [] then None
    else if draws[0] <= cutOff then Some(draws[0])
    else FirstAccepted(draws[1..], cutOff)
  }

  // The keys a draw-and-reject loop keeps, without repetitions, in order of first appearance.
  function UniqueAccepted(draws: seq<nat>, cutOff: nat): seq<nat> {
    if draws == [] then []
    else
      var last := draws[|draws| - 1];
      var before := UniqueAccepted(draws[..|draws| - 1], cutOff);
      if last <= cutOff && last !in before then before + [last] else before
  }

  // values_buffer: the span handed out for reading `count` values.
  function ValuesSpan(w: Workload, count: nat): nat
    requires w.valueLength < 0x1_0000_0000
  {
    count * RoundUp(w.valueLength, ALIGNMENT_LOG)
  }

  lemma AlignmentInNumbers()
    ensures Pow2(ALIGNMENT_LOG) == 4096
  {
    assert Pow2(4) == 16;
    assert Pow2(8) == 256;
  }

  // Every value gets the least multiple of 4096 bytes that holds it.
  lemma ValueSlot(w: Workload, count: nat)
    requires w.valueLength < 0x1_0000_0000
    ensures var slot := RoundUp(w.valueLength, ALIGNMENT_LOG);
            && ValuesSpan(w, count) == count * slot
            && slot % 4096 == 0 && w.valueLength <= slot < w.valueLength + 4096
  {
    AlignmentInNumbers();
    RoundUpLeastMultiple(w.valueLength, ALIGNMENT_LOG);
  }

  // For any batch up to the maximum, count values fit into the span handed out
  // for them, and that span into the worker's allocation.
  lemma ValuesFit(w: Workload, count: nat)
    requires w.valueLength < 0x1_0000_0000 && count <= ElementsMax(w)
    ensures count * w.valueLength <= ValuesSpan(w, count)
    ensures ValuesSpan(w, count) <= ElementsMax(w) * RoundUp(w.valueLength, ALIGNMENT_LOG)
  {
    ValueSlot(w, count);
    var aligned := RoundUp(w.valueLength, ALIGNMENT_LOG);
    Scale(w.valueLength, aligned, count);
    Scale(count, ElementsMax(w), aligned);
  }

  // A key is produced exactly when some draw passes, and it is the first that does.
  lemma {:induction false} FirstAcceptedIsFirst(draws: seq<nat>, cutOff: nat)
    ensures FirstAccepted(draws, cutOff).None? <==> forall k :: 0 <= k < |draws| ==> draws[k] > cutOff
    ensures FirstAccepted(draws, cutOff).Some? ==>
              exists k :: 0 <= k < |draws| && draws[k] == FirstAccepted(draws, cutOff).value <= cutOff
                          && forall j :: 0 <= j < k ==> draws[j] > cutOff
  {
    if draws != [] {
      if draws[0] > cutOff {
        FirstAcceptedIsFirst(draws[1..], cutOff);
        if FirstAccepted(draws[1..], cutOff).Some? {
          var k :| 0 <= k < |draws[1..]| && draws[1..][k] == FirstAccepted(draws[1..], cutOff).value <= cutOff
                   && forall j :: 0 <= j < k ==> draws[1..][j] > cutOff;
          assert draws[k + 1] == draws[1..][k];
          forall j | 0 <= j < k + 1 ensures draws[j] > cutOff {
            assert j > 0 ==> draws[j] == draws[1..][j - 1];
          }
        } else {
          forall k | 0 <= k < |draws| ensures draws[k] > cutOff {
            assert k > 0 ==> draws[k] == draws[1..][k - 1];
          }
        }
      } else {
        assert draws[0] <= cutOff;
      }
    }
  }

  // The keys of a batch read are distinct ...
  lemma {:induction false} UniqueAcceptedDistinct(draws: seq<nat>, cutOff: nat)
    ensures Distinct(UniqueAccepted(draws, cutOff))
  {
    if draws != [] {
      UniqueAcceptedDistinct(draws[..|draws| - 1], cutOff);
    }
  }

  // ... and they are the accepted draws.
  lemma {:induction false} UniqueAcceptedComplete(draws: seq<nat>, cutOff: nat, key: nat)
    ensures key in UniqueAccepted(draws, cutOff) <==> key in draws && key <= cutOff
  {
    if draws != [] {
      var n := |draws| - 1;
      UniqueAcceptedComplete(draws[..n], cutOff, key);
      assert draws == draws[..n] + [draws[n]];
    }
  }

  class Worker {
    const workload: Workload
    // upsert_key_sequence_generator: the next key it hands out.
    var counter: nat
    // limit_ of the acknowledged generator. The worker gives its pointer to that
    // generator away when it is built, so nothing is ever acknowledged.
    const limit: nat
    const keysBuffer: array<nat>
    const valuesBuffer: array<Byte>
    const sizesBuffer: array<nat>

    ghost predicate Valid() {
      && workload.valueLength < 0x1_0000_0000
      && keysBuffer.Length == sizesBuffer.Length == ElementsMax(workload)
      && valuesBuffer.Length == ElementsMax(workload) * RoundUp(workload.valueLength, ALIGNMENT_LOG)
      && keysBuffer != sizesBuffer
      && limit + 1 == workload.dbRecordsCount
    }

    constructor (workload: Workload)
      requires workload.valueLength < 0x1_0000_0000 && workload.dbRecordsCount > 0
      ensures Valid() && fresh(keysBuffer) && fresh(valuesBuffer) && fresh(sizesBuffer)
      ensures this.workload == workload && limit == workload.dbRecordsCount - 1
      ensures counter ==
              if workload.upsertProportion == 1.0 || workload.batchUpsertProportion == 1.0
                 || workload.bulkLoadProportion == 1.0
              then workload.startKey else workload.dbRecordsCount
    {
      this.workload := workload;
      counter := if InsertOnly(workload) then workload.startKey else workload.dbRecordsCount;
      limit := workload.dbRecordsCount - 1;
      var elements := ElementsMax(workload);
      var alignedLength := RoundUp(workload.valueLength, ALIGNMENT_LOG);
      keysBuffer := new nat[elements](_ => 0);
      valuesBuffer := new Byte[elements * alignedLength](_ => 0);
      sizesBuffer := new nat[elements](_ => 0);
    }

    // The loop of generate_batch_upsert_keys and generate_bulk_load_keys.
    method GenerateKeys(length: nat)
      requires Valid() && length <= ElementsMax(workload)
      modifies this`counter, keysBuffer
      ensures keysBuffer[..length] == Range(old(counter), length)
      ensures keysBuffer[length..] == old(keysBuffer[length..])
      ensures counter == old(counter) + length
    {
      for i := 0 to length
        invariant counter == old(counter) + i
        invariant keysBuffer[..i] == Range(old(counter), i)
        invariant keysBuffer[i..] == old(keysBuffer[i..])
      {
        var key := counter;
        counter := counter + 1;
        keysBuffer[i] := key;
        assert keysBuffer[..i + 1] == keysBuffer[..i] + [key];
        RangeAppend(old(counter), i);
      }
    }

    // A whole run of an inserting thread: one batch of keys after the other.
    // The batches together are one consecutive run of keys from the first.
    method InsertRun(lengths: seq<nat>) returns (keys: seq<nat>)
      requires Valid() && forall k :: 0 <= k < |lengths| ==> lengths[k] <= ElementsMax(workload)
      modifies this`counter, keysBuffer
      ensures keys == Range(old(counter), Sum(lengths))
      ensures counter == old(counter) + Sum(lengths)
    {
      keys := [];
      for i := 0 to |lengths|
        invariant counter == old(counter) + Sum(lengths[..i])
        invariant keys == Range(old(counter), Sum(lengths[..i]))
      {
        GenerateKeys(lengths[i]);
        SumAppend(lengths[..i], [lengths[i]]);
        assert lengths[..i + 1] == lengths[..i] + [lengths[i]];
        keys := keys + keysBuffer[..lengths[i]];
      }
      assert lengths[..|lengths|] == lengths;
    }

    // The last key of the upsert sequence, an acknowledged generator where keys are drawn.
    function Last(): nat
      requires !InsertOnly(workload)
    {
      limit
    }

    // generate_key: draws are rejected while they lie above the last key of the
    // upsert sequence; None when these draws were all rejected. So the key is one
    // of the records loaded before.
    method GenerateKey(draws: seq<nat>) returns (key: Option<nat>)
      requires Valid() && !InsertOnly(workload)
      ensures key == FirstAccepted(draws, Last())
      ensures key.Some? ==> key.value in draws && key.value < workload.dbRecordsCount
      ensures key.None? <==> forall k :: 0 <= k < |draws| ==> draws[k] >= workload.dbRecordsCount
    {
      FirstAcceptedIsFirst(draws, Last());
      var i := 0;
      while i < |draws| && draws[i] > Last()
        invariant i <= |draws|
        invariant FirstAccepted(draws[i..], Last()) == FirstAccepted(draws, Last())
      {
        i := i + 1;
      }
      key := if i < |draws| then Some(draws[i]) else None;
    }

    // generate_batch_read_keys: key after key until there are enough distinct
    // ones; false when the draws ran out before that.
    method GenerateBatchReadKeys(length: nat, draws: seq<nat>) returns (complete: bool, used: nat)
      requires Valid() && !InsertOnly(workload) && length <= ElementsMax(workload)
      modifies keysBuffer
      ensures used <= |draws|
      ensures complete ==> keysBuffer[..length] == UniqueAccepted(draws[..used], Last())
      ensures complete <==> |UniqueAccepted(draws[..used], Last())| == length
      ensures !complete ==> used == |draws| && |UniqueAccepted(draws, Last())| < length
      ensures complete ==> Distinct(keysBuffer[..length])
      ensures complete ==>
                forall j :: 0 <= j < length ==> keysBuffer[j] in draws && keysBuffer[j] < workload.dbRecordsCount
    {
      var uniqueCount := 0;
      used := 0;
      while uniqueCount != length && used < |draws|
        invariant used <= |draws| && uniqueCount <= length
        invariant keysBuffer[..uniqueCount] == UniqueAccepted(draws[..used], Last())
      {
        var key := draws[used];
        assert draws[..used + 1][..used] == draws[..used];
        if key <= Last() && key !in keysBuffer[..uniqueCount] {
          keysBuffer[uniqueCount] := key;
          assert keysBuffer[..uniqueCount + 1] == keysBuffer[..uniqueCount] + [key];
          uniqueCount := uniqueCount + 1;
        }
        used := used + 1;
      }
      complete := uniqueCount == length;
      assert draws[..|draws|] == draws;
      UniqueAcceptedDistinct(draws[..used], Last());
      forall j | 0 <= j < uniqueCount ensures keysBuffer[j] in draws && keysBuffer[j] <= Last() {
        assert keysBuffer[..uniqueCount][j] == keysBuffer[j];
        UniqueAcceptedComplete(draws[..used], Last(), keysBuffer[j]);
      }
    }

    // generate_values: random bytes for `count` values, then one length each.
    // The returned spans are valuesBuffer[..total] and sizesBuffer[..count].
    method GenerateValues(count: nat, bytes: seq<Byte>, lengths: seq<nat>) returns (total: nat)
      requires Valid() && count <= ElementsMax(workload)
      requires |bytes| == count * workload.valueLength && |lengths| == count
      requires forall k :: 0 <= k < count ==> lengths[k] <= workload.valueLength
      modifies valuesBuffer, sizesBuffer
      ensures |bytes| <= valuesBuffer.Length && valuesBuffer[..|bytes|] == bytes
      ensures sizesBuffer[..count] == lengths
      ensures total == Sum(lengths) <= |bytes|
    {
      ValuesFit(workload, count);
      for i := 0 to |bytes|
        invariant valuesBuffer[..i] == bytes[..i]
      {
        valuesBuffer[i] := bytes[i];
        assert valuesBuffer[..i + 1] == valuesBuffer[..i] + [bytes[i]];
      }
      assert bytes[..|bytes|] == bytes;
      total := 0;
      for i := 0 to count
        invariant total == Sum(lengths[..i])
        invariant sizesBuffer[..i] == lengths[..i]
        invariant valuesBuffer[..|bytes|] == bytes
      {
        var length := lengths[i];
        sizesBuffer[i] := length;
        assert sizesBuffer[..i + 1] == sizesBuffer[..i] + [length];
        SumAppend(lengths[..i], [length]);
        assert lengths[..i + 1] == lengths[..i] + [length];
        total := total + length;
      }
      assert lengths[..count] == lengths;
      SumAtMost(lengths, workload.valueLength);
    }
  }

  // The cut-off over an acknowledged generator: the key that comes out has been
  // loaded before or acknowledged, like every value between start and it; and
  // none comes out exactly when something is missing below every draw.
  lemma {:induction false} CutOffIsAcknowledged(r: A.Ring, start: nat, acked: set<nat>, draws: seq<nat>)
    requires A.Refines(r, start, acked)
    ensures var key := FirstAccepted(draws, r.limit);
            && (key.Some? ==> key.value in draws && forall v :: start <= v <= key.value ==> v in acked)
            && (key.None? <==> forall k :: 0 <= k < |draws| ==> exists v :: start <= v <= draws[k] && v !in acked)
  {
    FirstAcceptedIsFirst(draws, r.limit);
    forall k | 0 <= k < |draws| ensures draws[k] > r.limit <==> exists v :: start <= v <= draws[k] && v !in acked {
      if draws[k] + 1 >= start { A.LimitIsLargest(r, start, acked, draws[k]); }
    }
  }

  // ----- from the split to the keys -----

  lemma LegalLengthsFit(w: Workload, length: nat)
    requires Split.LegalLength(w, length)
    ensures length <= ElementsMax(w)
  {
  }

  // What thread i does with its share of the workload: it builds its worker and
  // inserts batch after batch. These are the keys the collision theorems speak of.
  method InsertingThread(w: Workload, n: nat, i: nat, lengths: seq<nat>) returns (keys: seq<nat>)
    requires i < n && w.dbRecordsCount > 0 && w.valueLength < 0x1_0000_0000
    requires Split.LegalRun(w, n, i, lengths)
    ensures keys == Split.RunKeys(w, n, i, lengths)
    ensures !(w.upsertProportion == 1.0 || w.batchUpsertProportion == 1.0 || w.bulkLoadProportion == 1.0) ==>
              keys == Range(w.dbRecordsCount, Sum(lengths))
  {
    var parts := Split.Split(w, n);
    forall k | 0 <= k < |lengths| ensures lengths[k] <= ElementsMax(parts[i]) {
      LegalLengthsFit(parts[i], lengths[k]);
    }
    var worker := new Worker(parts[i]);
    keys := worker.InsertRun(lengths);
  }

  // ... in the order in which they were first drawn.
  lemma {:induction false} UniqueAcceptedOrder(draws: seq<nat>, cutOff: nat, i: nat, j: nat)
    requires i < j < |UniqueAccepted(draws, cutOff)|
    ensures var keys := UniqueAccepted(draws, cutOff);
            IndexOf(draws, keys[i]) < IndexOf(draws, keys[j]) < |draws|
  {
    var n := |draws| - 1;
    var keys, before := UniqueAccepted(draws, cutOff), UniqueAccepted(draws[..n], cutOff);
    assert draws == draws[..n] + [draws[n]];
    UniqueAcceptedComplete(draws[..n], cutOff, keys[i]);
    assert keys[i] in before by { assert keys[i] == before[i]; }
    FirstStays(draws[..n], draws, keys[i]);
    IndexOfMember(draws[..n], keys[i]);
    if j < |before| {
      UniqueAcceptedOrder(draws[..n], cutOff, i, j);
      assert keys[j] in before by { assert keys[j] == before[j]; }
      UniqueAcceptedComplete(draws[..n], cutOff, keys[j]);
      IndexOfMember(draws[..n], keys[j]);
      FirstStays(draws[..n], draws, keys[j]);
    } else {
      assert keys[j] == draws[n];
      UniqueAcceptedComplete(draws[..n], cutOff, keys[j]);
      IndexOfIs(draws, keys[j], n);
    }
  }
}
