// split_workload_into_threads (src/bench.cxx): what each thread gets, and that
// the threads' shares add up, tile the key range and never collide.
module WorkSplit {
  import opened Sequences
  import opened Sums
  import opened Workloads

  function FromBool(b: bool): nat {
    if b then 1 else 0
  }

  // The most keys one operation of an inserting workload can take.
  function KeysPerOperation(w: Workload): nat {
    (if w.upsertProportion != 0.0 then 1 else 0)
    + (if w.bulkLoadProportion != 0.0 then w.bulkLoadMaxLength else 0)
    + (if w.batchUpsertProportion != 0.0 then w.batchUpsertMaxLength else 0)
  }

  // new_records_count, the sum as the source writes it.
  function NewRecords(w: Workload, operations: nat): nat {
    (if w.upsertProportion != 0.0 then operations else 0)
    + (if w.bulkLoadProportion != 0.0 then operations * w.bulkLoadMaxLength else 0)
    + (if w.batchUpsertProportion != 0.0 then operations * w.batchUpsertMaxLength else 0)
  }

  // The keys by which a thread's range is advanced.
  function Reserved(w: Workload): nat {
    if InsertOnly(w) then NewRecords(w, w.operationsCount) else w.recordsCount
  }

  // Thread i's part of a total dealt out as evenly as possible, the first threads first.
  function Share(total: nat, n: nat, i: nat): nat
    requires n > 0
  {
    total / n + if i < total % n then 1 else 0
  }

  function Part(w: Workload, n: nat, i: nat): Workload
    requires n > 0
  {
    w.(recordsCount := Share(w.dbRecordsCount, n, i),
       operationsCount := Max(1, Share(w.dbOperationsCount, n, i)))
  }

  function StartKey(w: Workload, n: nat, i: nat): nat
    requires n > 0
  {
    if i == 0 then w.startKey else StartKey(w, n, i - 1) + Reserved(Part(w, n, i - 1))
  }

  // What thread i is given.
  function Assigned(w: Workload, n: nat, i: nat): Workload
    requires n > 0
  {
    Part(w, n, i).(startKey := StartKey(w, n, i))
  }

  // One turn of the loop: what has been dealt out when the leftovers stand as they do.
  lemma DealtPart(w: Workload, n: nat, i: nat, part: Workload, leftoverRecords: nat, leftoverOperations: nat)
    requires n > 0
    requires leftoverRecords == if i < w.dbRecordsCount % n then w.dbRecordsCount % n - i else 0
    requires leftoverOperations == if i < w.dbOperationsCount % n then w.dbOperationsCount % n - i else 0
    requires part == w.(
               recordsCount := w.dbRecordsCount / n + FromBool(leftoverRecords != 0),
               operationsCount := Max(1, w.dbOperationsCount / n + FromBool(leftoverOperations != 0)),
               startKey := StartKey(w, n, i))
    ensures part == Assigned(w, n, i)
    ensures StartKey(w, n, i + 1) == StartKey(w, n, i) +
            if InsertOnly(w) then NewRecords(w, part.operationsCount) else part.recordsCount
  {
  }

  method Split(workload: Workload, threadsCount: nat) returns (parts: seq<Workload>)
    requires threadsCount > 0
    ensures |parts| == threadsCount
    ensures forall i :: 0 <= i < threadsCount ==> parts[i] == Assigned(workload, threadsCount, i)
  {
    parts := [];
    var recordsPerThread := workload.dbRecordsCount / threadsCount;
    var operationsPerThread := workload.dbOperationsCount / threadsCount;
    var leftoverRecords := workload.dbRecordsCount % threadsCount;
    var leftoverOperations := workload.dbOperationsCount % threadsCount;
    ghost var oddRecords, oddOperations := leftoverRecords, leftoverOperations;
    var startKey := workload.startKey;
    for i := 0 to threadsCount
      invariant leftoverRecords == if i < oddRecords then oddRecords - i else 0
      invariant leftoverOperations == if i < oddOperations then oddOperations - i else 0
      invariant startKey == StartKey(workload, threadsCount, i)
      invariant |parts| == i && forall k :: 0 <= k < i ==> parts[k] == Assigned(workload, threadsCount, k)
    {
      var part := workload;
      part := part.(recordsCount := recordsPerThread + FromBool(leftoverRecords != 0));
      part := part.(operationsCount := operationsPerThread + FromBool(leftoverOperations != 0));
      part := part.(operationsCount := Max(1, part.operationsCount));
      part := part.(startKey := startKey);
      parts := parts + [part];
      DealtPart(workload, threadsCount, i, part, leftoverRecords, leftoverOperations);
      leftoverRecords := leftoverRecords - FromBool(leftoverRecords != 0);
      leftoverOperations := leftoverOperations - FromBool(leftoverOperations != 0);
      if InsertOnly(workload) {
        startKey := startKey + NewRecords(workload, part.operationsCount);
      } else {
        startKey := startKey + part.recordsCount;
      }
    }
  }

  // ----- conservation -----

  ghost function Shares(total: nat, n: nat, k: nat): (s: seq<nat>)
    requires n > 0
    ensures |s| == k
  {
    seq(k, i requires 0 <= i < k => Share(total, n, i))
  }

  lemma {:induction false} SharesPrefix(total: nat, n: nat, k: nat)
    requires n > 0
    ensures Sum(Shares(total, n, k)) == k * (total / n) + Min(k, total % n)
  {
    if k > 0 {
      SharesPrefix(total, n, k - 1);
      SumAppend(Shares(total, n, k - 1), [Share(total, n, k - 1)]);
      assert Shares(total, n, k) == Shares(total, n, k - 1) + [Share(total, n, k - 1)];
      assert k * (total / n) == (k - 1) * (total / n) + total / n;
    }
  }

  // The shares add up to the total, and any two differ by at most one.
  lemma SharesConserve(total: nat, n: nat, i: nat, j: nat)
    requires n > 0 && i < n && j < n
    ensures Sum(Shares(total, n, n)) == total
    ensures -1 <= Share(total, n, i) - Share(total, n, j) <= 1
  {
    SharesPrefix(total, n, n);
  }

  ghost function OperationShares(total: nat, n: nat): (s: seq<nat>)
    requires n > 0
    ensures |s| == n
  {
    seq(n, i requires 0 <= i < n => Max(1, Share(total, n, i)))
  }

  // Every thread does something, so with fewer operations than threads the sum grows to the thread count.
  lemma OperationsConserve(total: nat, n: nat)
    requires n > 0
    ensures Sum(OperationShares(total, n)) == Max(total, n)
  {
    if total < n {
      assert total / n == 0;
      SumConstant(OperationShares(total, n), 1);
    } else {
      assert total == n * (total / n) + total % n;
      assert total / n >= 1;
      assert OperationShares(total, n) == Shares(total, n, n);
      SharesConserve(total, n, 0, 0);
    }
  }

  // ----- tiling -----

  // Without inserts, thread i starts at start + i * q + min(i, r), and the last range ends where the records end.
  lemma {:induction false} StartKeyClosedForm(w: Workload, n: nat, i: nat)
    requires n > 0
    requires !(w.upsertProportion == 1.0 || w.batchUpsertProportion == 1.0 || w.bulkLoadProportion == 1.0)
    ensures StartKey(w, n, i) == w.startKey + i * (w.dbRecordsCount / n) + Min(i, w.dbRecordsCount % n)
  {
    if i > 0 {
      StartKeyClosedForm(w, n, i - 1);
      assert i * (w.dbRecordsCount / n) == (i - 1) * (w.dbRecordsCount / n) + w.dbRecordsCount / n;
    }
  }

  lemma {:induction false} StartKeysGrow(w: Workload, n: nat, i: nat, j: nat)
    requires n > 0 && i < j
    ensures StartKey(w, n, i) + Reserved(Part(w, n, i)) <= StartKey(w, n, j)
  {
    if i < j - 1 { StartKeysGrow(w, n, i, j - 1); }
  }

  // Key belongs to thread i.
  predicate Owns(w: Workload, n: nat, i: nat, key: nat)
    requires n > 0
  {
    StartKey(w, n, i) <= key < StartKey(w, n, i) + Part(w, n, i).recordsCount
  }

  lemma RangesEnd(w: Workload, n: nat)
    requires n > 0 && !InsertOnly(w)
    ensures StartKey(w, n, n) == w.startKey + w.dbRecordsCount
  {
    StartKeyClosedForm(w, n, n);
    assert n * (w.dbRecordsCount / n) + w.dbRecordsCount % n == w.dbRecordsCount;
  }

  lemma {:induction false} Owner(w: Workload, n: nat, k: nat, key: nat) returns (i: nat)
    requires n > 0 && !InsertOnly(w) && w.startKey <= key < StartKey(w, n, k)
    ensures i < k && Owns(w, n, i, key)
  {
    if StartKey(w, n, k - 1) <= key { i := k - 1; } else { i := Owner(w, n, k - 1, key); }
  }

  lemma OwnedInside(w: Workload, n: nat, i: nat, key: nat)
    requires n > 0 && !InsertOnly(w) && i < n && Owns(w, n, i, key)
    ensures w.startKey <= key < StartKey(w, n, n)
  {
    StartKeysGrow(w, n, i, n);
    if i > 0 { StartKeysGrow(w, n, 0, i); }
  }

  lemma OneOwner(w: Workload, n: nat, i: nat, j: nat, key: nat)
    requires n > 0 && !InsertOnly(w) && i < j < n
    ensures !(Owns(w, n, i, key) && Owns(w, n, j, key))
  {
    StartKeysGrow(w, n, i, j);
  }

  // Every key of [start, start + db_records_count) belongs to exactly one thread, and no thread has another key.
  lemma RangesTile(w: Workload, n: nat, key: nat)
    requires n > 0
    requires !(w.upsertProportion == 1.0 || w.batchUpsertProportion == 1.0 || w.bulkLoadProportion == 1.0)
    ensures StartKey(w, n, n) == w.startKey + w.dbRecordsCount
    ensures w.startKey <= key < w.startKey + w.dbRecordsCount <==> exists i :: 0 <= i < n && Owns(w, n, i, key)
    ensures forall i, j :: 0 <= i < j < n ==> !(Owns(w, n, i, key) && Owns(w, n, j, key))
  {
    RangesEnd(w, n);
    if w.startKey <= key < w.startKey + w.dbRecordsCount {
      var i := Owner(w, n, n, key);
    }
    if i :| 0 <= i < n && Owns(w, n, i, key) {
      OwnedInside(w, n, i, key);
    }
    forall i, j | 0 <= i < j < n ensures !(Owns(w, n, i, key) && Owns(w, n, j, key)) {
      OneOwner(w, n, i, j, key);
    }
  }

  // ----- inserting threads -----

  // Operations of the threads before thread i.
  function OperationsBefore(w: Workload, n: nat, i: nat): nat
    requires n > 0
  {
    if w.dbOperationsCount < n then i else i * (w.dbOperationsCount / n) + Min(i, w.dbOperationsCount % n)
  }

  lemma OperationsStep(w: Workload, n: nat, i: nat)
    requires n > 0 && i < n
    ensures OperationsBefore(w, n, i + 1) == OperationsBefore(w, n, i) + Part(w, n, i).operationsCount
  {
    var q := w.dbOperationsCount / n;
    assert (i + 1) * q == i * q + q;
    if w.dbOperationsCount < n {
      assert q == 0;
    } else {
      assert q >= 1;
    }
  }

  lemma NewRecordsScale(w: Workload, ops: nat)
    ensures NewRecords(w, ops) == ops * KeysPerOperation(w)
  {
    var u := if w.upsertProportion != 0.0 then 1 else 0;
    var l := if w.bulkLoadProportion != 0.0 then w.bulkLoadMaxLength else 0;
    var b := if w.batchUpsertProportion != 0.0 then w.batchUpsertMaxLength else 0;
    assert ops * (u + l + b) == ops * u + ops * l + ops * b;
  }

  lemma Distribute(a: nat, b: nat, c: nat)
    ensures (a + b) * c == a * c + b * c
  {
  }

  // With inserts, thread i starts behind as many keys as the operations of the
  // threads before it can take: one each for upserts, the longest batch for batch
  // upserts, the longest load for bulk loads.
  lemma {:induction false} StartKeyInserting(w: Workload, n: nat, i: nat)
    requires n > 0 && i <= n
    requires w.upsertProportion == 1.0 || w.batchUpsertProportion == 1.0 || w.bulkLoadProportion == 1.0
    ensures StartKey(w, n, i) == w.startKey + OperationsBefore(w, n, i) *
            ((if w.upsertProportion != 0.0 then 1 else 0)
             + (if w.bulkLoadProportion != 0.0 then w.bulkLoadMaxLength else 0)
             + (if w.batchUpsertProportion != 0.0 then w.batchUpsertMaxLength else 0))
  {
    if i > 0 {
      StartKeyInserting(w, n, i - 1);
      OperationsStep(w, n, i - 1);
      NewRecordsScale(w, Part(w, n, i - 1).operationsCount);
      Distribute(OperationsBefore(w, n, i - 1), Part(w, n, i - 1).operationsCount, KeysPerOperation(w));
    }
  }

  lemma AtLeastOne(total: nat, n: nat, i: nat)
    requires n > 0 && i < n
    ensures Max(1, Share(total, n, i)) == if total < n then 1 else total / n + if i < total % n then 1 else 0
  {
    if total < n {
      assert total / n == 0;
    } else {
      assert total / n >= 1;
    }
  }

  // What the split gives thread i, in numbers.
  lemma AssignedInNumbers(w: Workload, n: nat, i: nat)
    requires n > 0 && i < n
    ensures var part := Assigned(w, n, i);
            && part.recordsCount == w.dbRecordsCount / n + (if i < w.dbRecordsCount % n then 1 else 0)
            && part.operationsCount ==
               (if w.dbOperationsCount < n then 1
                else w.dbOperationsCount / n + if i < w.dbOperationsCount % n then 1 else 0)
            && part == w.(recordsCount := part.recordsCount,
                          operationsCount := part.operationsCount,
                          startKey := part.startKey)
  {
    AtLeastOne(w.dbOperationsCount, n, i);
  }

  // Where thread i begins its upsert sequence.
  function FirstKey(w: Workload, n: nat, i: nat): nat
    requires n > 0
  {
    FirstInsertKey(Assigned(w, n, i))
  }

  // How many keys one operation may insert.
  predicate LegalLength(w: Workload, length: nat) {
    || length == 0
    || (w.upsertProportion != 0.0 && length == 1)
    || (w.batchUpsertProportion != 0.0 && length <= w.batchUpsertMaxLength)
    || (w.bulkLoadProportion != 0.0 && length <= w.bulkLoadMaxLength)
  }

  // Single upserts, and batches and loads up to their longest, are legal.
  lemma LengthsUpToTheLongest(w: Workload, length: nat)
    ensures w.upsertProportion > 0.0 && length == 1 ==> LegalLength(w, length)
    ensures w.batchUpsertProportion > 0.0 && length <= w.batchUpsertMaxLength ==> LegalLength(w, length)
    ensures w.bulkLoadProportion > 0.0 && length <= w.bulkLoadMaxLength ==> LegalLength(w, length)
  {
  }

  // A run of thread i: the lengths of its operations.
  predicate LegalRun(w: Workload, n: nat, i: nat, lengths: seq<nat>)
    requires n > 0
  {
    |lengths| <= Part(w, n, i).operationsCount && forall k :: 0 <= k < |lengths| ==> LegalLength(w, lengths[k])
  }

  // All keys thread i inserts in a run: it takes as many consecutive ones as each operation asks for.
  function RunKeys(w: Workload, n: nat, i: nat, lengths: seq<nat>): seq<nat>
    requires n > 0
  {
    Range(FirstKey(w, n, i), Sum(lengths))
  }

  lemma ReservedCovers(w: Workload, n: nat, i: nat, lengths: seq<nat>)
    requires n > 0 && InsertOnly(w) && LegalRun(w, n, i, lengths)
    ensures Sum(lengths) <= Reserved(Part(w, n, i))
  {
    var ops, cap := Part(w, n, i).operationsCount, KeysPerOperation(w);
    forall k | 0 <= k < |lengths| ensures lengths[k] <= cap {
      assert LegalLength(w, lengths[k]);
    }
    SumAtMost(lengths, cap);
    Scale(|lengths|, ops, cap);
    NewRecordsScale(w, ops);
  }

  // When the workload only inserts, a thread's keys ascend and stay in its reserved range.
  lemma RunInRange(w: Workload, n: nat, i: nat, lengths: seq<nat>)
    requires n > 0 && i < n && LegalRun(w, n, i, lengths)
    requires w.upsertProportion == 1.0 || w.batchUpsertProportion == 1.0 || w.bulkLoadProportion == 1.0
    ensures var keys := RunKeys(w, n, i, lengths);
            && (forall a, b :: 0 <= a < b < |keys| ==> keys[a] < keys[b])
            && (forall a :: 0 <= a < |keys| ==>
                  StartKey(w, n, i) <= keys[a] < StartKey(w, n, i) + Reserved(Part(w, n, i)))
  {
    ReservedCovers(w, n, i, lengths);
  }

  // No two threads ever insert the same key exactly when the workload only
  // inserts. (Any other mix starts every thread at the same key.)
  lemma NoCollisionIffInsertOnly(w: Workload, n: nat, i: nat, j: nat, ls: seq<nat>, ms: seq<nat>)
    requires n > 0 && i < n && j < n && i != j
    requires LegalRun(w, n, i, ls) && LegalRun(w, n, j, ms) && Sum(ls) > 0 && Sum(ms) > 0
    ensures (w.upsertProportion == 1.0 || w.batchUpsertProportion == 1.0 || w.bulkLoadProportion == 1.0) <==>
            forall a, b :: 0 <= a < Sum(ls) && 0 <= b < Sum(ms) ==>
              RunKeys(w, n, i, ls)[a] != RunKeys(w, n, j, ms)[b]
  {
    if InsertOnly(w) {
      ReservedCovers(w, n, i, ls);
      ReservedCovers(w, n, j, ms);
      if i < j { StartKeysGrow(w, n, i, j); } else { StartKeysGrow(w, n, j, i); }
    } else {
      assert RunKeys(w, n, i, ls)[0] == w.dbRecordsCount == RunKeys(w, n, j, ms)[0];
    }
  }
}
