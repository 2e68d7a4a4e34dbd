// The split and the life of the database together: what the database sees when
// every thread runs the operations it was given.
module BenchRun {
  import opened Sequences
  import opened Sums
  import opened Workloads
  import Split = WorkSplit
  import B = BenchLifecycle

  function OperationCounts(w: Workload, threads: nat): (counts: seq<nat>)
    requires threads > 0
    ensures |counts| == threads
  {
    seq(threads, i requires 0 <= i < threads => Split.Assigned(w, threads, i).operationsCount)
  }

  function PlanOf(workloads: seq<Workload>, threads: nat, transactional: bool): B.Plan
    requires threads > 0
  {
    B.Plan(threads,
           seq(|workloads|, k requires 0 <= k < |workloads| => OperationCounts(workloads[k], threads)),
           transactional)
  }

  // Every thread's own number of operations, in numbers.
  lemma PlanInNumbers(workloads: seq<Workload>, threads: nat, transactional: bool, k: nat, i: nat)
    requires k < |workloads| && i < threads
    ensures var plan, operations := PlanOf(workloads, threads, transactional), workloads[k].dbOperationsCount;
            && plan.threads == threads && plan.transactional == transactional && |plan.ops| == |workloads|
            && |plan.ops[k]| == threads
            && plan.ops[k][i] ==
               (if operations < threads then 1 else operations / threads + if i < operations % threads then 1 else 0)
  {
    Split.AssignedInNumbers(workloads[k], threads, i);
  }

  // The split always gives a plan the fence protocol can run, and the workload's
  // operations are conserved in it.
  lemma SplitGivesPlan(workloads: seq<Workload>, threads: nat, transactional: bool)
    requires threads > 0
    ensures var plan := PlanOf(workloads, threads, transactional);
            && plan.Valid()
            && forall k :: 0 <= k < |workloads| ==> plan.Total(k) == Max(workloads[k].dbOperationsCount, threads)
  {
    forall k | 0 <= k < |workloads|
      ensures Sum(OperationCounts(workloads[k], threads)) == Max(workloads[k].dbOperationsCount, threads)
    {
      assert OperationCounts(workloads[k], threads) == Split.OperationShares(workloads[k].dbOperationsCount, threads);
      Split.OperationsConserve(workloads[k].dbOperationsCount, threads);
    }
  }

  // Whatever the interleaving: once every thread is through, the database has
  // been opened, flushed and closed once for every workload, and has run exactly
  // its operations (at least one for every thread).
  lemma EveryOperationRuns(workloads: seq<Workload>, threads: nat, transactional: bool, schedule: seq<nat>)
    requires threads > 0 && forall k :: 0 <= k < |schedule| ==> schedule[k] < threads
    ensures var plan := PlanOf(workloads, threads, transactional);
            plan.Valid() && B.IsSchedule(plan, schedule) &&
            ((forall i :: 0 <= i < threads ==> B.Run(plan, schedule).workers[i].round == |workloads|) ==>
               forall k :: 0 <= k < |workloads| ==>
                 var operations := Max(workloads[k].dbOperationsCount, threads);
                 B.Seen(B.Trace(plan, schedule), k) == B.History(1, operations, operations, 1, 1, 1))
  {
    var plan := PlanOf(workloads, threads, transactional);
    SplitGivesPlan(workloads, threads, transactional);
    B.NoDeadlock(plan, schedule);
    if forall i :: 0 <= i < threads ==> B.Run(plan, schedule).workers[i].round == |workloads| {
      forall k | 0 <= k < |workloads|
        ensures var operations := Max(workloads[k].dbOperationsCount, threads);
                B.Seen(B.Trace(plan, schedule), k) == B.History(1, operations, operations, 1, 1, 1)
      {
        assert B.Complete(plan, B.Trace(plan, schedule), k);
      }
    }
  }

  // Turns that are enough for the workloads from the k-th on.
  function TurnsFor(workloads: seq<Workload>, threads: nat, k: nat): nat
    requires k <= |workloads|
    decreases |workloads| - k
  {
    if k == |workloads| then 0
    else 6 * Max(workloads[k].dbOperationsCount, threads) + 40 * threads + TurnsFor(workloads, threads, k + 1)
  }

  lemma {:induction false} TurnsOfPlan(workloads: seq<Workload>, threads: nat, transactional: bool, k: nat)
    requires threads > 0 && k <= |workloads|
    ensures var plan := PlanOf(workloads, threads, transactional);
            plan.Valid() && B.TurnsFrom(plan, k) == TurnsFor(workloads, threads, k)
    decreases |workloads| - k
  {
    SplitGivesPlan(workloads, threads, transactional);
    if k < |workloads| {
      TurnsOfPlan(workloads, threads, transactional, k + 1);
    }
  }

  // And every fair run gets there: after enough blocks with a turn for every
  // thread, the database has run all operations of all workloads and is closed.
  lemma FairRunRunsEverything(workloads: seq<Workload>, threads: nat, transactional: bool, blocks: seq<seq<nat>>)
    requires threads > 0 && Fair(blocks, threads) && |blocks| >= TurnsFor(workloads, threads, 0)
    ensures var plan, schedule := PlanOf(workloads, threads, transactional), Concat(blocks);
            && plan.Valid() && B.IsSchedule(plan, schedule)
            && B.Run(plan, schedule).db == B.Closed(|workloads|)
            && forall k :: 0 <= k < |workloads| ==>
                 var operations := Max(workloads[k].dbOperationsCount, threads);
                 B.Seen(B.Trace(plan, schedule), k) == B.History(1, operations, operations, 1, 1, 1)
  {
    var plan, schedule := PlanOf(workloads, threads, transactional), Concat(blocks);
    SplitGivesPlan(workloads, threads, transactional);
    TurnsOfPlan(workloads, threads, transactional, 0);
    B.FairRunFinishes(plan, blocks);
    B.NoDeadlock(plan, schedule);
    EveryOperationRuns(workloads, threads, transactional, schedule);
  }
}
