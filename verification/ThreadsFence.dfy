// The reusable spin barrier of src/core/threads_fence.hpp as an interleaved
// step system: one program point per atomic access, any number of threads,
// any schedule, any number of rounds.
module ThreadsFence {
  import opened Sequences
  import opened Sums

  // Where a thread stands: outside `sync`, or about to perform one of its
  // atomic accesses (source lines 19, 22, 23, 26, 27, 30 and 31).
  datatype Pc =
    | Out
    | WaitReleased
    | Arrive
    | WaitAll
    | Release
    | TestLast
    | ResetWaiting
    | ResetReleased

  // The two increments a call performs.
  datatype Door = Entry | Exit

  // `calls` is a history variable: how many times the thread has called `sync`.
  datatype Thread = Thread(pc: Pc, calls: nat) {
    function Returned(): nat
      requires WellFormed()
    {
      if pc.Out? then calls else calls - 1
    }

    // Calls for which the thread has incremented `waiting_threads_count_`.
    function Arrived(): nat
      requires WellFormed()
    {
      if pc.WaitReleased? || pc.Arrive? then calls - 1 else calls
    }

    // Calls for which the thread has incremented `released_threads_count_`.
    function Departed(): nat
      requires WellFormed()
    {
      if pc.WaitReleased? || pc.Arrive? || pc.WaitAll? || pc.Release? then calls - 1 else calls
    }

    function Passed(door: Door): nat
      requires WellFormed()
    {
      if door.Entry? then Arrived() else Departed()
    }

    predicate WellFormed() {
      pc.Out? || calls > 0
    }
  }

  // The two atomics, the threads, and how often each compare-and-swap has succeeded.
  datatype Fence = Fence(
    waiting: nat,
    released: nat,
    threads: seq<Thread>,
    waitingResets: nat,
    releasedResets: nat)

  function Init(n: nat): Fence {
    Fence(0, 0, seq(n, _ => Thread(Out, 0)), 0, 0)
  }

  function Goto(f: Fence, i: nat, pc: Pc): Fence
    requires i < |f.threads|
  {
    f.(threads := f.threads[i := f.threads[i].(pc := pc)])
  }

  // Thread i performs its next atomic access; a thread outside calls `sync`.
  function Step(f: Fence, i: nat): Fence
    requires i < |f.threads|
  {
    var n := |f.threads|;
    match f.threads[i].pc
    case Out => f.(threads := f.threads[i := Thread(WaitReleased, f.threads[i].calls + 1)])
    case WaitReleased => if f.released == 0 then Goto(f, i, Arrive) else f
    case Arrive => Goto(f.(waiting := f.waiting + 1), i, WaitAll)
    case WaitAll => if f.waiting == n then Goto(f, i, Release) else f
    case Release => Goto(f.(released := f.released + 1), i, TestLast)
    case TestLast => Goto(f, i, if f.released == n then ResetWaiting else Out)
    case ResetWaiting =>
      Goto(if f.waiting == n then f.(waiting := 0, waitingResets := f.waitingResets + 1) else f, i, ResetReleased)
    case ResetReleased =>
      Goto(if f.released == n then f.(released := 0, releasedResets := f.releasedResets + 1) else f, i, Out)
  }

  // The next access of thread i makes it move on (it does not spin).
  predicate Moves(f: Fence, i: nat)
    requires i < |f.threads|
  {
    match f.threads[i].pc
    case WaitReleased => f.released == 0
    case WaitAll => f.waiting == |f.threads|
    case _ => true
  }

  predicate IsSchedule(n: nat, schedule: seq<nat>) {
    Turns(schedule, n)
  }

  // The state after the threads were scheduled in the given order.
  function Run(n: nat, schedule: seq<nat>): (f: Fence)
    requires IsSchedule(n, schedule)
    ensures |f.threads| == n
  {
    if schedule == [] then Init(n)
    else
      var last := |schedule| - 1;
      Step(Run(n, schedule[..last]), schedule[last])
  }

  // ----- the inductive invariant: three phases of a round -----

  // For each thread, whether the last call in which it passed the given door is call k.
  ghost function Marks(ts: seq<Thread>, door: Door, k: nat): (m: seq<nat>)
    requires forall i :: 0 <= i < |ts| ==> ts[i].WellFormed()
    ensures |m| == |ts|
    ensures forall i :: 0 <= i < |ts| ==> m[i] == if ts[i].Passed(door) == k then 1 else 0
  {
    seq(|ts|, i requires 0 <= i < |ts| => if ts[i].Passed(door) == k then 1 else 0)
  }

  ghost predicate WellFormed(f: Fence) {
    forall i :: 0 <= i < |f.threads| ==> f.threads[i].WellFormed()
  }

  // A thread while round r + 1 is gathering; nobody has been released.
  ghost predicate GatheringThread(t: Thread, r: nat, full: bool) {
    t.WellFormed() && t.Departed() == r && r <= t.Arrived() <= r + 1 && (t.pc.Release? ==> full)
  }

  ghost predicate Gathering(f: Fence)
    requires WellFormed(f)
  {
    var n, r := |f.threads|, f.releasedResets;
    && f.released == 0
    && f.waitingResets == r
    && f.waiting == Sum(Marks(f.threads, Entry, r + 1))
    && forall i :: 0 <= i < n ==> GatheringThread(f.threads[i], r, f.waiting == n)
  }

  // A thread once everybody has arrived in round r + 1 and threads are being released.
  ghost predicate ReleasingThread(t: Thread, r: nat, full: bool) {
    && t.WellFormed()
    && t.Arrived() == r + 1
    && r <= t.Departed() <= r + 1
    && !t.pc.Arrive? && !t.pc.ResetReleased?
    && (t.pc.ResetWaiting? ==> full)
  }

  // Some thread is about to find out that everybody has been released, or knows it already.
  ghost predicate ResetPending(ts: seq<Thread>) {
    exists i :: 0 <= i < |ts| && (ts[i].pc.TestLast? || ts[i].pc.ResetWaiting?)
  }

  ghost predicate Releasing(f: Fence)
    requires WellFormed(f)
  {
    var n, r := |f.threads|, f.releasedResets;
    && f.released > 0
    && f.waiting == n
    && f.waitingResets == r
    && f.released == Sum(Marks(f.threads, Exit, r + 1))
    && (forall i :: 0 <= i < n ==> ReleasingThread(f.threads[i], r, f.released == n))
    && (f.released == n ==> ResetPending(f.threads))
  }

  // A thread after `waiting` has been reset and before `released` is.
  ghost predicate ClearingThread(t: Thread, r: nat) {
    t.WellFormed() && t.Arrived() == t.Departed() == r + 1 && !t.pc.Arrive?
  }

  ghost predicate Clearing(f: Fence)
    requires WellFormed(f)
  {
    var n, r := |f.threads|, f.releasedResets;
    && f.waiting == 0
    && f.released == n
    && f.waitingResets == r + 1
    && (forall i :: 0 <= i < n ==> ClearingThread(f.threads[i], r))
    && exists i :: 0 <= i < n && f.threads[i].pc.ResetReleased?
  }

  ghost predicate Inv(f: Fence) {
    WellFormed(f) && (Gathering(f) || Releasing(f) || Clearing(f))
  }

  lemma MarksBound(ts: seq<Thread>, door: Door, k: nat)
    requires forall i :: 0 <= i < |ts| ==> ts[i].WellFormed()
    ensures Sum(Marks(ts, door, k)) <= |ts|
    ensures Sum(Marks(ts, door, k)) == |ts| <==> forall i :: 0 <= i < |ts| ==> ts[i].Passed(door) == k
    ensures Sum(Marks(ts, door, k)) == 0 <==> forall i :: 0 <= i < |ts| ==> ts[i].Passed(door) != k
  {
    var m := Marks(ts, door, k);
    var ones := seq(|ts|, _ => 1);
    var zeros := seq(|ts|, _ => 0);
    SumConstant(ones, 1);
    SumConstant(zeros, 0);
    SumMonotone(m, ones);
    SumMonotone(zeros, m);
    if Sum(m) == |ts| {
      forall i | 0 <= i < |ts| ensures ts[i].Passed(door) == k { assert m[i] == ones[i]; }
    } else {
      assert m != ones;
    }
    if Sum(m) == 0 {
      forall i | 0 <= i < |ts| ensures ts[i].Passed(door) != k { assert m[i] == zeros[i]; }
    } else {
      assert m != zeros;
    }
  }

  lemma MarksUpdate(ts: seq<Thread>, i: nat, t: Thread, door: Door, k: nat)
    requires i < |ts| && t.WellFormed()
    requires forall j :: 0 <= j < |ts| ==> ts[j].WellFormed()
    ensures Sum(Marks(ts[i := t], door, k)) ==
            Sum(Marks(ts, door, k))
            - (if ts[i].Passed(door) == k then 1 else 0)
            + (if t.Passed(door) == k then 1 else 0)
  {
    var v := if t.Passed(door) == k then 1 else 0;
    SumUpdate(Marks(ts, door, k), i, v);
    assert Marks(ts[i := t], door, k) == Marks(ts, door, k)[i := v];
  }

  lemma InitInv(n: nat)
    ensures Inv(Init(n))
  {
    MarksBound(Init(n).threads, Entry, 1);
  }

  // What replacing one thread takes to stay in a phase.
  lemma StayGathering(f: Fence, i: nat, u: Thread, waiting: nat)
    requires i < |f.threads| && WellFormed(f) && Gathering(f)
    requires GatheringThread(u, f.releasedResets, waiting == |f.threads|)
    requires f.waiting == |f.threads| ==> waiting == |f.threads|
    requires waiting == f.waiting + u.Arrived() - f.threads[i].Arrived()
    ensures Inv(f.(waiting := waiting, threads := f.threads[i := u]))
  {
    var r := f.releasedResets;
    assert GatheringThread(f.threads[i], r, f.waiting == |f.threads|);
    MarksUpdate(f.threads, i, u, Entry, r + 1);
    var g := f.(waiting := waiting, threads := f.threads[i := u]);
    forall j | 0 <= j < |g.threads| ensures GatheringThread(g.threads[j], r, waiting == |g.threads|) {
      assert j != i ==> GatheringThread(f.threads[j], r, f.waiting == |f.threads|);
    }
    assert Gathering(g);
  }

  lemma StayReleasing(f: Fence, i: nat, u: Thread, released: nat)
    requires i < |f.threads| && WellFormed(f) && Releasing(f)
    requires ReleasingThread(u, f.releasedResets, released == |f.threads|)
    requires released > 0 && (f.released == |f.threads| ==> released == |f.threads|)
    requires released == f.released + u.Departed() - f.threads[i].Departed()
    requires released == |f.threads| ==> ResetPending(f.threads[i := u])
    ensures Inv(f.(released := released, threads := f.threads[i := u]))
  {
    var r := f.releasedResets;
    assert ReleasingThread(f.threads[i], r, f.released == |f.threads|);
    MarksUpdate(f.threads, i, u, Exit, r + 1);
    var g := f.(released := released, threads := f.threads[i := u]);
    forall j | 0 <= j < |g.threads| ensures ReleasingThread(g.threads[j], r, released == |g.threads|) {
      assert j != i ==> ReleasingThread(f.threads[j], r, f.released == |f.threads|);
    }
    assert Releasing(g);
  }

  lemma GatheringStep(f: Fence, i: nat)
    requires i < |f.threads| && WellFormed(f) && Gathering(f) && !f.threads[i].pc.Release?
    ensures Inv(Step(f, i))
  {
    var n := |f.threads|;
    assert GatheringThread(f.threads[i], f.releasedResets, f.waiting == n);
    assert f.threads[i].Arrived() == f.releasedResets ==> f.waiting < n by {
      MarksBound(f.threads, Entry, f.releasedResets + 1);
      assert f.threads[i].Passed(Entry) == f.threads[i].Arrived();
    }
    if Moves(f, i) {
      StayGathering(f, i, Step(f, i).threads[i], Step(f, i).waiting);
    }
  }

  // The first release of a round.
  // A thread that is about to release the others has seen everybody arrive.
  lemma AllGathered(f: Fence, i: nat)
    requires i < |f.threads| && WellFormed(f) && Gathering(f) && f.threads[i].pc.Release?
    ensures f.waiting == |f.threads|
    ensures forall j :: 0 <= j < |f.threads| ==> f.threads[j].Arrived() == f.releasedResets + 1
  {
    var n, r := |f.threads|, f.releasedResets;
    assert GatheringThread(f.threads[i], r, f.waiting == n);
    MarksBound(f.threads, Entry, r + 1);
    forall j | 0 <= j < n ensures f.threads[j].Arrived() == r + 1 {
      assert f.threads[j].Passed(Entry) == r + 1;
    }
  }

  lemma FirstExit(f: Fence, i: nat, u: Thread)
    requires i < |f.threads| && WellFormed(f) && Gathering(f) && u.WellFormed() && u.Departed() == f.releasedResets + 1
    ensures Sum(Marks(f.threads[i := u], Exit, f.releasedResets + 1)) == 1
  {
    var n, r := |f.threads|, f.releasedResets;
    forall j | 0 <= j < n ensures f.threads[j].Passed(Exit) != r + 1 {
      assert GatheringThread(f.threads[j], r, f.waiting == n);
    }
    MarksBound(f.threads, Exit, r + 1);
    MarksUpdate(f.threads, i, u, Exit, r + 1);
  }

  lemma FirstRelease(f: Fence, i: nat)
    requires i < |f.threads| && WellFormed(f) && Gathering(f) && f.threads[i].pc.Release?
    ensures Inv(Step(f, i))
  {
    var g := Step(f, i);
    var n, r := |f.threads|, f.releasedResets;
    AllGathered(f, i);
    FirstExit(f, i, g.threads[i]);
    forall j | 0 <= j < n ensures ReleasingThread(g.threads[j], r, g.released == n) {
      assert GatheringThread(f.threads[j], r, f.waiting == n);
      assert f.threads[j].Arrived() == r + 1;
    }
    assert g.threads[i].pc.TestLast?;
    assert Releasing(g);
  }

  lemma PendingStays(f: Fence, i: nat)
    requires i < |f.threads| && !f.threads[i].pc.ResetWaiting?
    requires f.threads[i].pc.TestLast? ==> f.released == |f.threads|
    requires f.threads[i].pc.Release? || ResetPending(f.threads)
    ensures ResetPending(Step(f, i).threads)
  {
    var g := Step(f, i);
    if f.threads[i].pc.Release? {
      assert g.threads[i].pc.TestLast?;
    } else if f.threads[i].pc.TestLast? {
      assert g.threads[i].pc.ResetWaiting?;
    } else {
      var w :| 0 <= w < |f.threads| && (f.threads[w].pc.TestLast? || f.threads[w].pc.ResetWaiting?);
      assert g.threads[w] == f.threads[w];
    }
  }

  lemma ReleasingStep(f: Fence, i: nat)
    requires i < |f.threads| && WellFormed(f) && Releasing(f) && !f.threads[i].pc.ResetWaiting?
    ensures Inv(Step(f, i))
  {
    var n := |f.threads|;
    assert ReleasingThread(f.threads[i], f.releasedResets, f.released == n);
    assert f.threads[i].Departed() == f.releasedResets ==> f.released < n by {
      MarksBound(f.threads, Exit, f.releasedResets + 1);
      assert f.threads[i].Passed(Exit) == f.threads[i].Departed();
    }
    if Moves(f, i) {
      if Step(f, i).released == n {
        PendingStays(f, i);
      }
      StayReleasing(f, i, Step(f, i).threads[i], Step(f, i).released);
    }
  }

  // The reset of `waiting`: it succeeds, and everybody has departed.
  lemma WaitingReset(f: Fence, i: nat)
    requires i < |f.threads| && WellFormed(f) && Releasing(f) && f.threads[i].pc.ResetWaiting?
    ensures Inv(Step(f, i))
  {
    var g := Step(f, i);
    var n, r := |f.threads|, f.releasedResets;
    assert ReleasingThread(f.threads[i], r, f.released == n);
    assert forall j :: 0 <= j < n ==> f.threads[j].Passed(Exit) == r + 1 by {
      MarksBound(f.threads, Exit, r + 1);
    }
    forall j | 0 <= j < n ensures ClearingThread(g.threads[j], r) {
      assert ReleasingThread(f.threads[j], r, f.released == n);
      assert f.threads[j].Passed(Exit) == r + 1;
    }
    assert g.threads[i].pc.ResetReleased?;
    assert Clearing(g);
  }

  // The round is over: everything is as it was before the first arrival.
  lemma ReleasedReset(f: Fence, i: nat)
    requires i < |f.threads| && WellFormed(f) && Clearing(f) && f.threads[i].pc.ResetReleased?
    ensures Inv(Step(f, i))
  {
    var g := Step(f, i);
    var r := f.releasedResets;
    assert WellFormed(g) && g.releasedResets == r + 1;
    forall j | 0 <= j < |g.threads| ensures g.threads[j].Arrived() == r + 1 {
      assert ClearingThread(f.threads[j], r);
    }
    MarksBound(g.threads, Entry, r + 2);
    assert Gathering(g);
  }

  lemma StillClearing(f: Fence, i: nat)
    requires i < |f.threads| && WellFormed(f) && Clearing(f) && !f.threads[i].pc.ResetReleased?
    ensures Inv(Step(f, i))
  {
    var g := Step(f, i);
    var w :| 0 <= w < |f.threads| && f.threads[w].pc.ResetReleased?;
    assert g.threads[w].pc.ResetReleased?;
    assert Clearing(g);
  }

  lemma ClearingStep(f: Fence, i: nat)
    requires i < |f.threads| && WellFormed(f) && Clearing(f)
    ensures Inv(Step(f, i))
  {
    if f.threads[i].pc.ResetReleased? {
      ReleasedReset(f, i);
    } else {
      StillClearing(f, i);
    }
  }

  // Every step keeps the invariant.
  lemma StepInv(f: Fence, i: nat)
    requires i < |f.threads| && Inv(f)
    ensures Inv(Step(f, i))
  {
    if Gathering(f) {
      if f.threads[i].pc.Release? { FirstRelease(f, i); } else { GatheringStep(f, i); }
    } else if Releasing(f) {
      if f.threads[i].pc.ResetWaiting? { WaitingReset(f, i); } else { ReleasingStep(f, i); }
    } else {
      ClearingStep(f, i);
    }
  }

  lemma {:induction false} RunInv(n: nat, schedule: seq<nat>)
    requires IsSchedule(n, schedule)
    ensures Inv(Run(n, schedule))
  {
    if schedule == [] {
      InitInv(n);
    } else {
      var last := |schedule| - 1;
      RunInv(n, schedule[..last]);
      StepInv(Run(n, schedule[..last]), schedule[last]);
    }
  }

  // ----- safety -----

  // No thread is ahead of another one by more than the fence allows.
  lemma NobodyOvertakes(f: Fence, i: nat, j: nat)
    requires Inv(f) && i < |f.threads| && j < |f.threads|
    ensures f.threads[i].Returned() <= f.threads[j].Arrived() <= f.threads[j].calls
  {
  }

  // The barrier property: whoever has returned from its k-th `sync` proves
  // that every thread has begun (indeed has already counted itself in) its k-th.
  lemma BarrierSafety(n: nat, schedule: seq<nat>, i: nat, j: nat, k: nat)
    requires IsSchedule(n, schedule) && i < n && j < n
    ensures var f := Run(n, schedule);
            && f.threads[i].WellFormed() && f.threads[j].WellFormed()
            && (f.threads[i].Returned() >= k ==> f.threads[j].calls >= k && f.threads[j].Arrived() >= k)
  {
    RunInv(n, schedule);
    NobodyOvertakes(Run(n, schedule), i, j);
  }

  lemma WaitingResetSafe(f: Fence, i: nat)
    requires Inv(f) && i < |f.threads| && f.threads[i].pc.ResetWaiting? && f.waiting == |f.threads|
    ensures f.released == |f.threads|
    ensures forall j :: 0 <= j < |f.threads| ==>
              f.threads[j].Arrived() == f.threads[j].Departed() == f.threads[i].calls
  {
    MarksBound(f.threads, Entry, f.releasedResets + 1);
    MarksBound(f.threads, Exit, f.releasedResets + 1);
  }

  lemma ReleasedResetSafe(f: Fence, i: nat)
    requires Inv(f) && i < |f.threads| && f.threads[i].pc.ResetReleased? && f.released == |f.threads|
    ensures f.waiting == 0
    ensures forall j :: 0 <= j < |f.threads| ==>
              f.threads[j].Arrived() == f.threads[j].Departed() == f.threads[i].calls
  {
  }

  // A compare-and-swap succeeds only while every thread is still in the
  // caller's own round, and `released` is reset only after `waiting` was.
  lemma ResetSafety(n: nat, schedule: seq<nat>, i: nat)
    requires IsSchedule(n, schedule) && i < n
    ensures var f := Run(n, schedule);
            var t := f.threads[i];
            && WellFormed(f)
            && (t.pc.ResetWaiting? && f.waiting == n ==>
                  && f.released == n
                  && forall j :: 0 <= j < n ==> f.threads[j].Arrived() == f.threads[j].Departed() == t.calls)
            && (t.pc.ResetReleased? && f.released == n ==>
                  && f.waiting == 0
                  && forall j :: 0 <= j < n ==> f.threads[j].Arrived() == f.threads[j].Departed() == t.calls)
  {
    RunInv(n, schedule);
    var f := Run(n, schedule);
    if f.threads[i].pc.ResetWaiting? && f.waiting == n {
      WaitingResetSafe(f, i);
    } else if f.threads[i].pc.ResetReleased? && f.released == n {
      ReleasedResetSafe(f, i);
    }
  }

  // A thread that reaches its resets after the next round has begun changes neither counter.
  lemma LateResetFails(n: nat, schedule: seq<nat>, i: nat, j: nat)
    requires IsSchedule(n, schedule) && i < n && j < n
    requires var f := Run(n, schedule);
             WellFormed(f) && f.threads[j].Arrived() > f.threads[i].calls
    ensures var f := Run(n, schedule);
            f.threads[i].pc.ResetWaiting? || f.threads[i].pc.ResetReleased? ==>
              Step(f, i).waiting == f.waiting && Step(f, i).released == f.released
  {
    ResetSafety(n, schedule, i);
  }

  // Each round zeroes each counter exactly once: in every reachable state all
  // threads are in the round after the last full reset, or the one before that
  // just ended; the resets of the two counters differ by at most the one in
  // flight; and when every thread has come back from k calls there were k of each
  // and both counters are zero.
  lemma OneResetPerRound(n: nat, schedule: seq<nat>, k: nat)
    requires IsSchedule(n, schedule) && n > 0
    ensures var f := Run(n, schedule);
            && WellFormed(f)
            && f.releasedResets <= f.waitingResets <= f.releasedResets + 1
            && (forall i :: 0 <= i < n ==>
                  && f.releasedResets <= f.waitingResets <= f.threads[i].Departed()
                  && f.threads[i].Departed() <= f.threads[i].Arrived() <= f.releasedResets + 1)
            && ((forall i :: 0 <= i < n ==> f.threads[i] == Thread(Out, k)) ==>
                  f.waitingResets == f.releasedResets == k && f.waiting == f.released == 0)
  {
    RunInv(n, schedule);
    var f := Run(n, schedule);
    if forall i :: 0 <= i < n ==> f.threads[i] == Thread(Out, k) {
      assert f.threads[0] == Thread(Out, k);
      MarksBound(f.threads, Entry, f.releasedResets + 1);
      MarksBound(f.threads, Exit, f.releasedResets + 1);
    }
  }

  // ----- progress -----

  // Once a thread has been released, some thread inside can move.
  lemma ReleaseMoves(f: Fence)
    requires WellFormed(f) && (Releasing(f) || Clearing(f))
    ensures exists k :: 0 <= k < |f.threads| && !f.threads[k].pc.Out? && Moves(f, k)
  {
    var n, r := |f.threads|, f.releasedResets;
    MarksBound(f.threads, Exit, r + 1);
    if Releasing(f) && f.released < n {
      var k :| 0 <= k < n && f.threads[k].Passed(Exit) != r + 1;
      assert ReleasingThread(f.threads[k], r, false);
      assert Moves(f, k);
    } else if Releasing(f) {
      var k :| 0 <= k < n && (f.threads[k].pc.TestLast? || f.threads[k].pc.ResetWaiting?);
      assert Moves(f, k);
    } else {
      var k :| 0 <= k < n && f.threads[k].pc.ResetReleased?;
      assert Moves(f, k);
    }
  }

  // If everybody inside spins, they wait for a thread that has not called yet.
  lemma Laggard(f: Fence, active: nat) returns (j: nat)
    requires Inv(f) && active < |f.threads| && !f.threads[active].pc.Out?
    requires forall k :: 0 <= k < |f.threads| ==> f.threads[k].pc.Out? || !Moves(f, k)
    ensures j < |f.threads| && f.threads[j].pc.Out?
    ensures f.threads[j].calls + 1 == f.threads[active].calls
  {
    var n, r := |f.threads|, f.releasedResets;
    if !Gathering(f) {
      ReleaseMoves(f);
      assert false;
    }
    assert GatheringThread(f.threads[active], r, f.waiting == n);
    MarksBound(f.threads, Entry, r + 1);
    j :| 0 <= j < n && f.threads[j].Passed(Entry) != r + 1;
    assert GatheringThread(f.threads[j], r, f.waiting == n);
  }

  // While somebody is inside `sync`, either a thread inside can move, or some
  // thread outside is one call behind everybody inside.
  lemma SomeoneMoves(f: Fence, active: nat) returns (j: nat)
    requires Inv(f) && active < |f.threads| && !f.threads[active].pc.Out?
    ensures j < |f.threads|
    ensures Moves(f, j)
    ensures f.threads[j].pc.Out? ==> f.threads[j].calls + 1 == f.threads[active].calls
  {
    if exists k :: 0 <= k < |f.threads| && !f.threads[k].pc.Out? && Moves(f, k) {
      j :| 0 <= j < |f.threads| && !f.threads[j].pc.Out? && Moves(f, j);
    } else {
      j := Laggard(f, active);
    }
  }

  // Every thread makes exactly `limit` calls; thread i can move within that plan.
  predicate Enabled(f: Fence, limit: nat, i: nat)
    requires i < |f.threads|
  {
    Moves(f, i) && (f.threads[i].pc.Out? ==> f.threads[i].calls < limit)
  }

  predicate Finished(f: Fence, limit: nat) {
    forall i :: 0 <= i < |f.threads| ==> f.threads[i] == Thread(Out, limit)
  }

  function PcRank(pc: Pc): nat {
    match pc
    case Out => 0
    case WaitReleased => 7
    case Arrive => 6
    case WaitAll => 5
    case Release => 4
    case TestLast => 3
    case ResetWaiting => 2
    case ResetReleased => 1
  }

  function Budget(t: Thread, limit: nat): nat
    requires t.calls <= limit
  {
    8 * (limit - t.calls) + PcRank(t.pc)
  }

  // Upper bounds on the accesses each thread still has to perform.
  ghost function Budgets(f: Fence, limit: nat): (b: seq<nat>)
    requires forall i :: 0 <= i < |f.threads| ==> f.threads[i].calls <= limit
    ensures |b| == |f.threads|
  {
    seq(|f.threads|, i requires 0 <= i < |f.threads| => Budget(f.threads[i], limit))
  }

  ghost function Remaining(f: Fence, limit: nat): nat
    requires forall i :: 0 <= i < |f.threads| ==> f.threads[i].calls <= limit
  {
    Sum(Budgets(f, limit))
  }

  // No deadlock: an unfinished reachable state has a step that does not spin;
  // once no such step is left, everybody is done and the fence is as good as new.
  lemma NoDeadlock(n: nat, schedule: seq<nat>, limit: nat)
    requires IsSchedule(n, schedule) && n > 0
    requires forall i :: 0 <= i < n ==> Run(n, schedule).threads[i].calls <= limit
    ensures var f := Run(n, schedule);
            && (Finished(f, limit) <==> forall i :: 0 <= i < n ==> !Enabled(f, limit, i))
            && (Finished(f, limit) ==> f.waiting == f.released == 0)
  {
    RunInv(n, schedule);
    OneResetPerRound(n, schedule, limit);
    var f := Run(n, schedule);
    if !Finished(f, limit) {
      var i :| 0 <= i < n && f.threads[i] != Thread(Out, limit);
      if !f.threads[i].pc.Out? {
        var j := SomeoneMoves(f, i);
        assert Enabled(f, limit, j);
      } else {
        assert Enabled(f, limit, i);
      }
    }
  }

  lemma MoverSpends(f: Fence, limit: nat, i: nat)
    requires i < |f.threads| && f.threads[i].calls <= limit && Enabled(f, limit, i)
    ensures var u := Step(f, i).threads[i];
            && Step(f, i).threads == f.threads[i := u]
            && u.calls <= limit && Budget(u, limit) < Budget(f.threads[i], limit)
  {
  }

  // Each step that does not spin uses up the measure; a spinning step changes nothing.
  lemma StepDecreases(f: Fence, limit: nat, i: nat)
    requires i < |f.threads|
    requires forall k :: 0 <= k < |f.threads| ==> f.threads[k].calls <= limit
    requires Moves(f, i) ==> Enabled(f, limit, i)
    ensures var g := Step(f, i);
            && (forall k :: 0 <= k < |g.threads| ==> g.threads[k].calls <= limit)
            && (if Moves(f, i) then Remaining(g, limit) < Remaining(f, limit) else g == f)
  {
    var g := Step(f, i);
    if Moves(f, i) {
      MoverSpends(f, limit, i);
      var v := Budget(g.threads[i], limit);
      SumUpdate(Budgets(f, limit), i, v);
      assert Budgets(f, limit)[i := v] == Budgets(g, limit);
    }
  }

  // A schedule in which nobody spins and nobody calls more than `limit` times.
  ghost predicate Productive(n: nat, schedule: seq<nat>, limit: nat)
    requires IsSchedule(n, schedule)
  {
    forall k :: 0 <= k < |schedule| ==> Enabled(Run(n, schedule[..k]), limit, schedule[k])
  }

  lemma ProductivePrefix(n: nat, schedule: seq<nat>, limit: nat)
    requires IsSchedule(n, schedule) && schedule != [] && Productive(n, schedule, limit)
    ensures var last := |schedule| - 1;
            Productive(n, schedule[..last], limit) && Enabled(Run(n, schedule[..last]), limit, schedule[last])
  {
    var before := schedule[..|schedule| - 1];
    forall k | 0 <= k < |before| ensures Enabled(Run(n, before[..k]), limit, before[k]) {
      assert before[..k] == schedule[..k];
    }
  }

  lemma StartBudget(n: nat, limit: nat)
    ensures Remaining(Init(n), limit) == 8 * limit * n
  {
    SumConstant(Budgets(Init(n), limit), 8 * limit);
  }

  // Termination: such a schedule has at most 8 * limit * n steps.
  lemma {:induction false} BoundedRuns(n: nat, schedule: seq<nat>, limit: nat)
    requires IsSchedule(n, schedule) && Productive(n, schedule, limit)
    ensures forall i :: 0 <= i < n ==> Run(n, schedule).threads[i].calls <= limit
    ensures |schedule| + Remaining(Run(n, schedule), limit) <= 8 * limit * n
  {
    if schedule == [] {
      StartBudget(n, limit);
    } else {
      var last := |schedule| - 1;
      var before := schedule[..last];
      ProductivePrefix(n, schedule, limit);
      BoundedRuns(n, before, limit);
      StepDecreases(Run(n, before), limit, schedule[last]);
    }
  }

  // ----- fair runs of `limit` calls each -----

  // The turns of a schedule that do something: nobody calls more than `limit`
  // times, and a spinning access changes nothing.
  function Effective(n: nat, schedule: seq<nat>, limit: nat): (turns: seq<nat>)
    requires IsSchedule(n, schedule)
    ensures IsSchedule(n, turns)
  {
    if schedule == [] then []
    else
      var last := |schedule| - 1;
      var before := Effective(n, schedule[..last], limit);
      if Enabled(Run(n, before), limit, schedule[last]) then before + [schedule[last]] else before
  }

  lemma {:induction false} EffectiveProductive(n: nat, schedule: seq<nat>, limit: nat)
    requires IsSchedule(n, schedule)
    ensures Productive(n, Effective(n, schedule, limit), limit)
  {
    if schedule != [] {
      var last := |schedule| - 1;
      var before, turns := Effective(n, schedule[..last], limit), Effective(n, schedule, limit);
      EffectiveProductive(n, schedule[..last], limit);
      forall k | 0 <= k < |turns| ensures Enabled(Run(n, turns[..k]), limit, turns[k]) {
        if k < |before| {
          assert turns[..k] == before[..k];
        } else {
          assert turns[..k] == before;
        }
      }
    }
  }

  lemma AppendTurn(n: nat, before: seq<nat>, block: seq<nat>, i: nat, limit: nat)
    requires IsSchedule(n, before + block) && i < n
    ensures IsSchedule(n, before + (block + [i]))
    ensures var was := Effective(n, before + block, limit);
            Effective(n, before + (block + [i]), limit) == if Enabled(Run(n, was), limit, i) then was + [i] else was
  {
    var turns := before + (block + [i]);
    assert turns[..|turns| - 1] == before + block;
  }

  // At least one of the turns of a block does something, or none could.
  ghost predicate Worked(n: nat, was: seq<nat>, now: seq<nat>, block: seq<nat>, limit: nat)
    requires IsSchedule(n, was) && IsSchedule(n, block)
  {
    |now| > |was| || (now == was && forall m :: 0 <= m < |block| ==> !Enabled(Run(n, was), limit, block[m]))
  }

  ghost predicate BlockWorked(n: nat, before: seq<nat>, block: seq<nat>, limit: nat)
    requires IsSchedule(n, before)
  {
    && IsSchedule(n, block) && IsSchedule(n, before + block)
    && Worked(n, Effective(n, before, limit), Effective(n, before + block, limit), block, limit)
  }

  // The block has no effect.
  ghost predicate Idle(n: nat, before: seq<nat>, block: seq<nat>, limit: nat)
    requires IsSchedule(n, before)
  {
    IsSchedule(n, before + block) && Effective(n, before + block, limit) == Effective(n, before, limit)
  }

  lemma EmptyBlock(n: nat, before: seq<nat>, limit: nat)
    requires IsSchedule(n, before)
    ensures BlockWorked(n, before, [], limit) && Idle(n, before, [], limit)
  {
    assert before + [] == before;
  }

  lemma WorkedOn(n: nat, was: seq<nat>, now: seq<nat>, block: seq<nat>, limit: nat, i: nat)
    requires IsSchedule(n, was) && IsSchedule(n, now) && IsSchedule(n, block) && i < n
    requires Worked(n, was, now, block, limit)
    ensures IsSchedule(n, block + [i])
    ensures Worked(n, was, if Enabled(Run(n, now), limit, i) then now + [i] else now, block + [i], limit)
  {
  }

  lemma BlockGrows(n: nat, before: seq<nat>, block: seq<nat>, limit: nat, i: nat)
    requires IsSchedule(n, before) && BlockWorked(n, before, block, limit) && i < n
    ensures BlockWorked(n, before, block + [i], limit)
  {
    AppendTurn(n, before, block, i, limit);
    WorkedOn(n, Effective(n, before, limit), Effective(n, before + block, limit), block, limit, i);
  }

  lemma {:induction false} BlockWorks(n: nat, before: seq<nat>, block: seq<nat>, limit: nat)
    requires IsSchedule(n, before) && IsSchedule(n, block)
    ensures BlockWorked(n, before, block, limit)
  {
    if block == [] {
      EmptyBlock(n, before, limit);
    } else {
      var last := |block| - 1;
      assert block[..last] + [block[last]] == block;
      BlockWorks(n, before, block[..last], limit);
      BlockGrows(n, before, block[..last], limit, block[last]);
    }
  }

  // Some turn of a block for every thread does something until all have finished.
  lemma TurnThatMoves(n: nat, was: seq<nat>, block: seq<nat>, limit: nat) returns (m: nat)
    requires n > 0 && IsSchedule(n, was) && Productive(n, was, limit) && IsSchedule(n, block) && Covers(block, n)
    requires !Finished(Run(n, was), limit)
    ensures m < |block| && Enabled(Run(n, was), limit, block[m])
  {
    BoundedRuns(n, was, limit);
    NoDeadlock(n, was, limit);
    var i :| 0 <= i < n && Enabled(Run(n, was), limit, i);
    assert i in block;
    m :| 0 <= m < |block| && block[m] == i;
  }

  lemma IdlesOn(n: nat, before: seq<nat>, block: seq<nat>, limit: nat, i: nat)
    requires IsSchedule(n, before) && Idle(n, before, block, limit) && i < n
    requires Finished(Run(n, Effective(n, before, limit)), limit)
    ensures Idle(n, before, block + [i], limit)
  {
    AppendTurn(n, before, block, i, limit);
  }

  lemma {:induction false} FinishedStays(n: nat, before: seq<nat>, block: seq<nat>, limit: nat)
    requires IsSchedule(n, before) && IsSchedule(n, block)
    requires Finished(Run(n, Effective(n, before, limit)), limit)
    ensures Idle(n, before, block, limit)
  {
    if block == [] {
      EmptyBlock(n, before, limit);
    } else {
      var last := |block| - 1;
      assert block[..last] + [block[last]] == block;
      FinishedStays(n, before, block[..last], limit);
      IdlesOn(n, before, block[..last], limit, block[last]);
    }
  }

  lemma BlockProgress(n: nat, before: seq<nat>, block: seq<nat>, limit: nat)
    requires n > 0 && IsSchedule(n, before) && IsSchedule(n, block) && Covers(block, n)
    ensures IsSchedule(n, before + block)
    ensures var was, now := Effective(n, before, limit), Effective(n, before + block, limit);
            if Finished(Run(n, was), limit) then now == was else |now| > |was|
  {
    var was := Effective(n, before, limit);
    if Finished(Run(n, was), limit) {
      FinishedStays(n, before, block, limit);
    } else {
      BlockWorks(n, before, block, limit);
      EffectiveProductive(n, before, limit);
      var m := TurnThatMoves(n, was, block, limit);
    }
  }

  lemma {:induction false} FairProgress(n: nat, blocks: seq<seq<nat>>, limit: nat)
    requires n > 0 && Fair(blocks, n)
    ensures IsSchedule(n, Concat(blocks))
    ensures var turns := Effective(n, Concat(blocks), limit);
            |turns| >= |blocks| || Finished(Run(n, turns), limit)
    decreases |blocks|
  {
    FairTurns(blocks, n);
    if blocks != [] {
      var last := |blocks| - 1;
      FairProgress(n, blocks[..last], limit);
      ConcatLast(blocks);
      BlockProgress(n, Concat(blocks[..last]), blocks[last], limit);
    }
  }

  // Fair runs end: after more than 8 * limit * n blocks with a turn for every
  // thread, each of the n threads has returned from all its calls.
  lemma FairRunFinishes(n: nat, blocks: seq<seq<nat>>, limit: nat)
    requires n > 0 && Fair(blocks, n) && |blocks| > 8 * limit * n
    ensures IsSchedule(n, Concat(blocks)) && Finished(Run(n, Effective(n, Concat(blocks), limit)), limit)
  {
    FairProgress(n, blocks, limit);
    EffectiveProductive(n, Concat(blocks), limit);
    BoundedRuns(n, Effective(n, Concat(blocks), limit), limit);
  }
}
