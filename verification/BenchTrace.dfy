// What every thread of src/bench.cxx does to the database, event by event, and
// what that adds up to over all threads. Only who flushes depends on the interleaving.
module BenchTrace {
  import opened Sequences
  import opened Sums
  import opened BenchLifecycle

  // The events of thread i in a run.
  function ThreadTrace(plan: Plan, schedule: seq<nat>, i: nat): seq<Event>
    requires plan.Valid() && IsSchedule(plan, schedule) && i < plan.threads
  {
    if schedule == [] then []
    else
      var last := |schedule| - 1;
      ThreadTrace(plan, schedule[..last], i)
      + if schedule[last] == i then Advance(plan, Run(plan, schedule[..last]), i).events else []
  }

  // The first n events without the flush.
  function UnflushedTo(trace: seq<Event>, n: nat): seq<Event>
    requires n <= |trace|
  {
    if n == 0 then []
    else UnflushedTo(trace, n - 1) + if trace[n - 1].FlushBegin? || trace[n - 1].FlushEnd? then [] else [trace[n - 1]]
  }

  function Unflushed(trace: seq<Event>): seq<Event> {
    UnflushedTo(trace, |trace|)
  }

  // ----- the script of a thread -----

  // k operations, one after the other.
  function Operations(w: nat, k: nat): seq<Event> {
    if k == 0 then [] else Operations(w, k - 1) + [OpBegin(w), OpEnd(w)]
  }

  function When(b: bool, e: Event): seq<Event> {
    if b then [e] else []
  }

  // Before its operations: thread 0 opens, and with transactions every thread creates its own.
  function Leading(plan: Plan, i: nat, w: nat): seq<Event> {
    When(i == 0, OpenDb(w)) + When(plan.transactional, CreateTransaction(w))
  }

  // One workload, from opening to closing.
  function WorkloadScript(plan: Plan, i: nat, w: nat): seq<Event>
    requires plan.Valid() && w < |plan.ops| && i < plan.threads
  {
    Leading(plan, i, w) + Operations(w, plan.ops[w][i])
    + When(i == 0, AskSize(w)) + When(plan.transactional, EndTransaction(w)) + When(i == 0, CloseDb(w))
  }

  function Scripts(plan: Plan, i: nat, w: nat): seq<Event>
    requires plan.Valid() && w <= |plan.ops| && i < plan.threads
  {
    if w == 0 then [] else Scripts(plan, i, w - 1) + WorkloadScript(plan, i, w - 1)
  }

  // How much of the current workload's script thread i has done where wk is.
  function Done(plan: Plan, i: nat, wk: Worker): seq<Event>
    requires plan.Valid() && i < plan.threads && WorkerOk(plan, i, wk)
  {
    var w := wk.round;
    if w == |plan.ops| then []
    else
      var all := plan.ops[w][i];
      match wk.stage
      case Opening => []
      case Entering => When(i == 0, OpenDb(w))
      case Sync1 => When(i == 0, OpenDb(w))
      case Creating => When(i == 0, OpenDb(w))
      case Registering => Leading(plan, i, w)
      case StartGate => Leading(plan, i, w)
      case Ready(left) => Leading(plan, i, w) + Operations(w, all - left)
      case InOp(left) => Leading(plan, i, w) + Operations(w, all - left) + [OpBegin(w)]
      case Counting(left) => Leading(plan, i, w) + Operations(w, all - left + 1)
      case Checking(left, _) => Leading(plan, i, w) + Operations(w, all - left + 1)
      case InFlush(left) => Leading(plan, i, w) + Operations(w, all - left + 1)
      case EndGate => Leading(plan, i, w) + Operations(w, all)
      case Reporting => Leading(plan, i, w) + Operations(w, all)
      case Committing => Leading(plan, i, w) + Operations(w, all) + When(i == 0, AskSize(w))
      case _ =>
        Leading(plan, i, w) + Operations(w, all) + When(i == 0, AskSize(w))
        + When(plan.transactional, EndTransaction(w))
  }

  lemma OneEvent(plan: Plan, s: System, i: nat)
    requires plan.Valid() && Shaped(plan, s) && i < plan.threads
    ensures |Advance(plan, s, i).events| <= 1
  {
  }

  lemma UnflushedOne(e: Event)
    ensures Unflushed([e]) == if e.FlushBegin? || e.FlushEnd? then [] else [e]
  {
    assert UnflushedTo([e], 0) == [];
  }

  lemma {:induction false} UnflushedPrefix(trace: seq<Event>, whole: seq<Event>, n: nat)
    requires n <= |trace| && trace <= whole
    ensures UnflushedTo(whole, n) == UnflushedTo(trace, n)
  {
    if n > 0 { UnflushedPrefix(trace, whole, n - 1); }
  }

  lemma UnflushedAppend(trace: seq<Event>, events: seq<Event>)
    requires |events| <= 1
    ensures Unflushed(trace + events) == Unflushed(trace) + Unflushed(events)
  {
    if events == [] {
      assert trace + events == trace;
      assert Unflushed(trace) + [] == Unflushed(trace);
    } else {
      UnflushedPrefix(trace, trace + events, |trace|);
      UnflushedOne(events[0]);
      assert events == [events[0]];
    }
  }

  lemma OperationsStep(w: nat, k: nat)
    ensures Operations(w, k + 1) == Operations(w, k) + [OpBegin(w)] + [OpEnd(w)]
  {
  }

  lemma NothingMore(a: seq<Event>)
    ensures a + [] == a && a + Unflushed([]) == a
  {
  }

  lemma Regroup(a: seq<Event>, b: seq<Event>, c: seq<Event>)
    ensures a + (b + c) == a + b + c
  {
  }

  // A step inside a workload does the next event of the script, if any.
  ghost predicate Proceeds(plan: Plan, s: System, i: nat)
    requires plan.Valid() && Shaped(plan, s) && i < plan.threads
  {
    var o := Advance(plan, s, i);
    && o.worker.round == s.workers[i].round
    && Done(plan, i, o.worker) == Done(plan, i, s.workers[i]) + Unflushed(o.events)
  }

  // Where a step does nothing to the database.
  predicate QuietBefore(stage: Stage) {
    stage.Entering? || stage.Sync1? || stage.Registering? || stage.StartGate?
  }

  predicate QuietAfter(stage: Stage) {
    stage.EndGate? || stage.Leaving? || stage.Sync2?
  }

  lemma ProceedsWhen(plan: Plan, s: System, i: nat, b: bool, e: Event)
    requires plan.Valid() && Shaped(plan, s) && i < plan.threads && !e.FlushBegin? && !e.FlushEnd?
    requires var o := Advance(plan, s, i);
             && o.events == When(b, e) && o.worker.round == s.workers[i].round
             && Done(plan, i, o.worker) == Done(plan, i, s.workers[i]) + When(b, e)
    ensures Proceeds(plan, s, i)
  {
    if b { UnflushedOne(e); }
  }

  lemma ProceedsQuietly(plan: Plan, s: System, i: nat)
    requires plan.Valid() && Shaped(plan, s) && i < plan.threads
    requires var o := Advance(plan, s, i);
             && Unflushed(o.events) == [] && o.worker.round == s.workers[i].round
             && Done(plan, i, o.worker) == Done(plan, i, s.workers[i])
    ensures Proceeds(plan, s, i)
  {
    NothingMore(Done(plan, i, s.workers[i]));
  }

  lemma ProceedsOpening(plan: Plan, s: System, i: nat)
    requires plan.Valid() && Shaped(plan, s) && i < plan.threads
    requires s.workers[i].round < |plan.ops| && s.workers[i].stage.Opening?
    ensures Proceeds(plan, s, i)
  {
    ProceedsWhen(plan, s, i, i == 0, OpenDb(s.workers[i].round));
  }

  lemma ProceedsCreating(plan: Plan, s: System, i: nat)
    requires plan.Valid() && Shaped(plan, s) && i < plan.threads
    requires s.workers[i].round < |plan.ops| && s.workers[i].stage.Creating?
    ensures Proceeds(plan, s, i)
  {
    ProceedsWhen(plan, s, i, plan.transactional, CreateTransaction(s.workers[i].round));
  }

  lemma ProceedsToStart(plan: Plan, s: System, i: nat)
    requires plan.Valid() && Shaped(plan, s) && i < plan.threads
    requires s.workers[i].round < |plan.ops| && QuietBefore(s.workers[i].stage)
    ensures Proceeds(plan, s, i)
  {
    ProceedsQuietly(plan, s, i);
  }

  lemma ProceedsFromEnd(plan: Plan, s: System, i: nat)
    requires plan.Valid() && Shaped(plan, s) && i < plan.threads
    requires s.workers[i].round < |plan.ops| && QuietAfter(s.workers[i].stage)
    ensures Proceeds(plan, s, i)
  {
    ProceedsQuietly(plan, s, i);
  }

  lemma LeavesLoop(plan: Plan, s: System, i: nat)
    requires plan.Valid() && Shaped(plan, s) && i < plan.threads
    requires s.workers[i].round < |plan.ops| && s.workers[i].stage.Ready? && s.workers[i].stage.left == 0
    ensures Proceeds(plan, s, i)
  {
    ProceedsQuietly(plan, s, i);
  }

  lemma ProceedsReady(plan: Plan, s: System, i: nat)
    requires plan.Valid() && Shaped(plan, s) && i < plan.threads
    requires s.workers[i].round < |plan.ops| && s.workers[i].stage.Ready?
    ensures Proceeds(plan, s, i)
  {
    if s.workers[i].stage.left == 0 {
      LeavesLoop(plan, s, i);
    } else {
      ProceedsWhen(plan, s, i, true, OpBegin(s.workers[i].round));
    }
  }

  lemma ProceedsInOp(plan: Plan, s: System, i: nat)
    requires plan.Valid() && Shaped(plan, s) && i < plan.threads
    requires s.workers[i].round < |plan.ops| && s.workers[i].stage.InOp?
    ensures Proceeds(plan, s, i)
  {
    var w, left := s.workers[i].round, s.workers[i].stage.left;
    OperationsStep(w, plan.ops[w][i] - left);
    Regroup(Leading(plan, i, w), Operations(w, plan.ops[w][i] - left) + [OpBegin(w)], [OpEnd(w)]);
    Regroup(Leading(plan, i, w), Operations(w, plan.ops[w][i] - left), [OpBegin(w)]);
    ProceedsWhen(plan, s, i, true, OpEnd(w));
  }

  lemma ProceedsCounting(plan: Plan, s: System, i: nat)
    requires plan.Valid() && Shaped(plan, s) && i < plan.threads
    requires s.workers[i].round < |plan.ops| && s.workers[i].stage.Counting?
    ensures Proceeds(plan, s, i)
  {
    ProceedsQuietly(plan, s, i);
  }

  lemma ChecksQuietly(plan: Plan, s: System, i: nat)
    requires plan.Valid() && Shaped(plan, s) && i < plan.threads
    requires s.workers[i].round < |plan.ops| && s.workers[i].stage.Checking?
    ensures var o := Advance(plan, s, i);
            && (o.events == [] || o.events == [FlushBegin(s.workers[i].round)])
            && o.worker.round == s.workers[i].round && Done(plan, i, o.worker) == Done(plan, i, s.workers[i])
  {
  }

  lemma ProceedsChecking(plan: Plan, s: System, i: nat)
    requires plan.Valid() && Shaped(plan, s) && i < plan.threads
    requires s.workers[i].round < |plan.ops| && s.workers[i].stage.Checking?
    ensures Proceeds(plan, s, i)
  {
    UnflushedOne(FlushBegin(s.workers[i].round));
    ChecksQuietly(plan, s, i);
    ProceedsQuietly(plan, s, i);
  }

  lemma ProceedsInFlush(plan: Plan, s: System, i: nat)
    requires plan.Valid() && Shaped(plan, s) && i < plan.threads
    requires s.workers[i].round < |plan.ops| && s.workers[i].stage.InFlush?
    ensures Proceeds(plan, s, i)
  {
    UnflushedOne(FlushEnd(s.workers[i].round));
    ProceedsQuietly(plan, s, i);
  }

  lemma ProceedsReporting(plan: Plan, s: System, i: nat)
    requires plan.Valid() && Shaped(plan, s) && i < plan.threads
    requires s.workers[i].round < |plan.ops| && s.workers[i].stage.Reporting?
    ensures Proceeds(plan, s, i)
  {
    ProceedsWhen(plan, s, i, i == 0, AskSize(s.workers[i].round));
  }

  lemma ProceedsCommitting(plan: Plan, s: System, i: nat)
    requires plan.Valid() && Shaped(plan, s) && i < plan.threads
    requires s.workers[i].round < |plan.ops| && s.workers[i].stage.Committing?
    ensures Proceeds(plan, s, i)
  {
    ProceedsWhen(plan, s, i, plan.transactional, EndTransaction(s.workers[i].round));
  }

  lemma DoneGrows(plan: Plan, s: System, i: nat)
    requires plan.Valid() && Shaped(plan, s) && i < plan.threads
    requires s.workers[i].round < |plan.ops| && !s.workers[i].stage.Closing?
    ensures Proceeds(plan, s, i)
  {
    var stage := s.workers[i].stage;
    match stage
    case Opening => ProceedsOpening(plan, s, i);
    case Creating => ProceedsCreating(plan, s, i);
    case Ready(_) => ProceedsReady(plan, s, i);
    case InOp(_) => ProceedsInOp(plan, s, i);
    case Counting(_) => ProceedsCounting(plan, s, i);
    case Checking(_, _) => ProceedsChecking(plan, s, i);
    case InFlush(_) => ProceedsInFlush(plan, s, i);
    case Reporting => ProceedsReporting(plan, s, i);
    case Committing => ProceedsCommitting(plan, s, i);
    case Closing =>
    case _ => if QuietBefore(stage) { ProceedsToStart(plan, s, i); } else { ProceedsFromEnd(plan, s, i); }
  }

  // Closing completes it.
  lemma DoneAll(plan: Plan, s: System, i: nat)
    requires plan.Valid() && Shaped(plan, s) && i < plan.threads
    requires s.workers[i].round < |plan.ops| && s.workers[i].stage.Closing?
    ensures var o, w := Advance(plan, s, i), s.workers[i].round;
            && o.worker.round == w + 1 && Done(plan, i, o.worker) == []
            && Done(plan, i, s.workers[i]) + Unflushed(o.events) == WorkloadScript(plan, i, w)
  {
    UnflushedOne(CloseDb(s.workers[i].round));
  }

  // Everything thread i has done where wk is.
  function Script(plan: Plan, i: nat, wk: Worker): seq<Event>
    requires plan.Valid() && i < plan.threads && WorkerOk(plan, i, wk)
  {
    Scripts(plan, i, wk.round) + Done(plan, i, wk)
  }

  lemma ScriptGrows(plan: Plan, s: System, i: nat)
    requires plan.Valid() && Shaped(plan, s) && i < plan.threads
    ensures var o := Advance(plan, s, i);
            Script(plan, i, o.worker) == Script(plan, i, s.workers[i]) + Unflushed(o.events)
  {
    var wk, o := s.workers[i], Advance(plan, s, i);
    if wk.round == |plan.ops| {
      assert o.worker == wk && o.events == [];
      NothingMore(Script(plan, i, wk));
    } else if wk.stage.Closing? {
      DoneAll(plan, s, i);
      Regroup(Scripts(plan, i, wk.round), Done(plan, i, wk), Unflushed(o.events));
      NothingMore(Scripts(plan, i, wk.round + 1));
    } else {
      DoneGrows(plan, s, i);
      Regroup(Scripts(plan, i, wk.round), Done(plan, i, wk), Unflushed(o.events));
    }
  }

  // Whatever the interleaving, every thread follows its script: apart from
  // flushing, what it has done is determined by where it stands. With
  // transactions it creates one before its first operation of a workload and ends
  // it after the last; without, it never does.
  lemma {:induction false} ThreadFollowsScript(plan: Plan, schedule: seq<nat>, i: nat)
    requires plan.Valid() && IsSchedule(plan, schedule) && i < plan.threads
    ensures Unflushed(ThreadTrace(plan, schedule, i)) == Script(plan, i, Run(plan, schedule).workers[i])
  {
    if schedule != [] {
      var last := |schedule| - 1;
      ThreadFollowsScript(plan, schedule[..last], i);
      var s := Run(plan, schedule[..last]);
      OneEvent(plan, s, schedule[last]);
      if schedule[last] == i {
        ScriptGrows(plan, s, i);
        UnflushedAppend(ThreadTrace(plan, schedule[..last], i), Advance(plan, s, i).events);
      } else {
        assert ThreadTrace(plan, schedule, i) == ThreadTrace(plan, schedule[..last], i);
      }
    }
  }

  // ----- counting -----

  function CountTo(trace: seq<Event>, e: Event, n: nat): nat
    requires n <= |trace|
  {
    if n == 0 then 0 else CountTo(trace, e, n - 1) + if trace[n - 1] == e then 1 else 0
  }

  function Count(trace: seq<Event>, e: Event): nat {
    CountTo(trace, e, |trace|)
  }

  lemma {:induction false} CountToIsMultiset(trace: seq<Event>, e: Event, n: nat)
    requires n <= |trace|
    ensures CountTo(trace, e, n) == multiset(trace[..n])[e]
  {
    if n > 0 {
      CountToIsMultiset(trace, e, n - 1);
      assert trace[..n] == trace[..n - 1] + [trace[n - 1]];
    }
  }

  lemma CountIsMultiset(trace: seq<Event>, e: Event)
    ensures Count(trace, e) == multiset(trace)[e]
  {
    CountToIsMultiset(trace, e, |trace|);
    assert trace[..|trace|] == trace;
  }

  lemma {:induction false} CountPrefix(a: seq<Event>, b: seq<Event>, e: Event, n: nat)
    requires n <= |a|
    ensures CountTo(a + b, e, n) == CountTo(a, e, n)
  {
    if n > 0 { CountPrefix(a, b, e, n - 1); }
  }

  lemma {:induction false} CountSuffix(a: seq<Event>, b: seq<Event>, e: Event, n: nat)
    requires n <= |b|
    ensures CountTo(a + b, e, |a| + n) == Count(a, e) + CountTo(b, e, n)
  {
    if n > 0 {
      CountSuffix(a, b, e, n - 1);
    } else {
      CountPrefix(a, b, e, |a|);
    }
  }

  lemma CountAppend(a: seq<Event>, b: seq<Event>, e: Event)
    ensures Count(a + b, e) == Count(a, e) + Count(b, e)
  {
    CountSuffix(a, b, e, |b|);
  }

  lemma CountSum(a: seq<Event>, b: seq<Event>, whole: seq<Event>, e: Event, p: nat, q: nat)
    requires whole == a + b && Count(a, e) == p && Count(b, e) == q
    ensures Count(whole, e) == p + q
  {
    CountAppend(a, b, e);
  }

  // What the database sees is what the threads do.
  ghost function ThreadCounts(plan: Plan, schedule: seq<nat>, e: Event): (c: seq<nat>)
    requires plan.Valid() && IsSchedule(plan, schedule)
    ensures |c| == plan.threads
  {
    seq(plan.threads, i requires 0 <= i < plan.threads => Count(ThreadTrace(plan, schedule, i), e))
  }

  lemma ThreadTurn(plan: Plan, schedule: seq<nat>, i: nat, e: Event)
    requires plan.Valid() && IsSchedule(plan, schedule) && schedule != [] && i < plan.threads
    ensures var last := |schedule| - 1;
            Count(ThreadTrace(plan, schedule, i), e) == Count(ThreadTrace(plan, schedule[..last], i), e)
            + if schedule[last] == i then Count(Advance(plan, Run(plan, schedule[..last]), i).events, e) else 0
  {
    var last := |schedule| - 1;
    var before := ThreadTrace(plan, schedule[..last], i);
    if schedule[last] == i {
      var events := Advance(plan, Run(plan, schedule[..last]), i).events;
      CountSum(before, events, ThreadTrace(plan, schedule, i), e, Count(before, e), Count(events, e));
    } else {
      NothingMore(before);
    }
  }

  lemma TraceTurn(plan: Plan, schedule: seq<nat>, e: Event)
    requires plan.Valid() && IsSchedule(plan, schedule) && schedule != []
    ensures var last := |schedule| - 1;
            Count(Trace(plan, schedule), e) == Count(Trace(plan, schedule[..last]), e)
            + Count(Advance(plan, Run(plan, schedule[..last]), schedule[last]).events, e)
  {
    var last := |schedule| - 1;
    var before := Trace(plan, schedule[..last]);
    var events := Advance(plan, Run(plan, schedule[..last]), schedule[last]).events;
    CountSum(before, events, Trace(plan, schedule), e, Count(before, e), Count(events, e));
  }

  lemma OneMore(was: seq<nat>, now: seq<nat>, j: nat, more: nat)
    requires |was| == |now| && j < |was|
    requires forall i :: 0 <= i < |was| ==> now[i] == was[i] + if i == j then more else 0
    ensures Sum(now) == Sum(was) + more
  {
    SumUpdate(was, j, was[j] + more);
    assert now == was[j := was[j] + more];
  }

  lemma OneMoreTurn(plan: Plan, schedule: seq<nat>, e: Event)
    requires plan.Valid() && IsSchedule(plan, schedule) && schedule != []
    requires var before := schedule[..|schedule| - 1];
             Count(Trace(plan, before), e) == Sum(ThreadCounts(plan, before, e))
    ensures Count(Trace(plan, schedule), e) == Sum(ThreadCounts(plan, schedule, e))
  {
    var last := |schedule| - 1;
    var more := Count(Advance(plan, Run(plan, schedule[..last]), schedule[last]).events, e);
    TraceTurn(plan, schedule, e);
    forall i | 0 <= i < plan.threads
      ensures ThreadCounts(plan, schedule, e)[i] ==
              ThreadCounts(plan, schedule[..last], e)[i] + if i == schedule[last] then more else 0
    {
      ThreadTurn(plan, schedule, i, e);
    }
    OneMore(ThreadCounts(plan, schedule[..last], e), ThreadCounts(plan, schedule, e), schedule[last], more);
  }

  lemma {:induction false} TraceIsThreads(plan: Plan, schedule: seq<nat>, e: Event)
    requires plan.Valid() && IsSchedule(plan, schedule)
    ensures Count(Trace(plan, schedule), e) == Sum(ThreadCounts(plan, schedule, e))
  {
    if schedule == [] {
      SumConstant(ThreadCounts(plan, schedule, e), 0);
    } else {
      TraceIsThreads(plan, schedule[..|schedule| - 1], e);
      OneMoreTurn(plan, schedule, e);
    }
  }

  // The events that belong to a transaction or the report.
  predicate Aside(e: Event) {
    e.CreateTransaction? || e.EndTransaction? || e.AskSize?
  }

  // How often thread i has done such an event where wk is.
  function Made(plan: Plan, i: nat, wk: Worker, e: Event): nat {
    var r := if e.workload < wk.round then 12 else if e.workload == wk.round then Rank(wk.stage) else 0;
    if e.CreateTransaction? then (if plan.transactional && r >= 4 then 1 else 0)
    else if e.EndTransaction? then (if plan.transactional && r >= 10 then 1 else 0)
    else if e.AskSize? then (if i == 0 && r >= 9 then 1 else 0)
    else 0
  }

  lemma CountOne(f: Event, e: Event)
    ensures Count([f], e) == if e == f then 1 else 0
  {
    assert CountTo([f], e, 0) == 0;
  }

  lemma MadeQuietly(plan: Plan, s: System, i: nat, e: Event)
    requires plan.Valid() && Shaped(plan, s) && i < plan.threads && Aside(e) && e.workload < |plan.ops|
    requires Advance(plan, s, i).events == []
    ensures Made(plan, i, Advance(plan, s, i).worker, e) == Made(plan, i, s.workers[i], e)
  {
  }

  lemma MadeInLoop(plan: Plan, s: System, i: nat, e: Event)
    requires plan.Valid() && Shaped(plan, s) && i < plan.threads && Aside(e) && e.workload < |plan.ops|
    requires Advance(plan, s, i).events != [] && Rank(s.workers[i].stage) == 6
    ensures Made(plan, i, Advance(plan, s, i).worker, e) == Made(plan, i, s.workers[i], e)
    ensures e != Advance(plan, s, i).events[0]
  {
  }

  lemma MadeOutside(plan: Plan, s: System, i: nat, e: Event)
    requires plan.Valid() && Shaped(plan, s) && i < plan.threads && Aside(e) && e.workload < |plan.ops|
    requires Advance(plan, s, i).events != [] && Rank(s.workers[i].stage) != 6
    ensures var o := Advance(plan, s, i);
            Made(plan, i, o.worker, e) == Made(plan, i, s.workers[i], e) + if e == o.events[0] then 1 else 0
  {
  }

  lemma MadeStep(plan: Plan, s: System, i: nat, e: Event)
    requires plan.Valid() && Shaped(plan, s) && i < plan.threads && Aside(e) && e.workload < |plan.ops|
    ensures var o := Advance(plan, s, i);
            Made(plan, i, o.worker, e) == Made(plan, i, s.workers[i], e) + Count(o.events, e)
  {
    var events := Advance(plan, s, i).events;
    if events == [] {
      MadeQuietly(plan, s, i, e);
    } else {
      OneEvent(plan, s, i);
      CountOne(events[0], e);
      assert events == [events[0]];
      if Rank(s.workers[i].stage) == 6 {
        MadeInLoop(plan, s, i, e);
      } else {
        MadeOutside(plan, s, i, e);
      }
    }
  }

  lemma {:induction false} ThreadMade(plan: Plan, schedule: seq<nat>, i: nat, e: Event)
    requires plan.Valid() && IsSchedule(plan, schedule) && i < plan.threads && Aside(e) && e.workload < |plan.ops|
    ensures Count(ThreadTrace(plan, schedule, i), e) == Made(plan, i, Run(plan, schedule).workers[i], e)
  {
    if schedule != [] {
      var last := |schedule| - 1;
      ThreadMade(plan, schedule[..last], i, e);
      ThreadTurn(plan, schedule, i, e);
      if schedule[last] == i {
        MadeStep(plan, Run(plan, schedule[..last]), i, e);
      }
    }
  }

  lemma BeginsWhenReady(plan: Plan, s: System, i: nat)
    requires plan.Valid() && Shaped(plan, s) && i < plan.threads
    requires Advance(plan, s, i).events == [OpBegin(s.workers[i].round)]
    ensures s.workers[i].stage.Ready? && s.workers[i].round < |plan.ops|
  {
  }

  // Every operation runs inside the transaction its thread has created for the
  // workload, exactly when the run is transactional: at the moment it begins, the
  // thread has created one and not ended it, or has never created one.
  lemma OperationsInTransaction(plan: Plan, schedule: seq<nat>, i: nat)
    requires plan.Valid() && IsSchedule(plan, schedule) && i < plan.threads
    requires Advance(plan, Run(plan, schedule), i).events == [OpBegin(Run(plan, schedule).workers[i].round)]
    ensures var w, trace := Run(plan, schedule).workers[i].round, ThreadTrace(plan, schedule, i);
            && multiset(trace)[CreateTransaction(w)] == (if plan.transactional then 1 else 0)
            && multiset(trace)[EndTransaction(w)] == 0
  {
    var w, trace := Run(plan, schedule).workers[i].round, ThreadTrace(plan, schedule, i);
    BeginsWhenReady(plan, Run(plan, schedule), i);
    ThreadMade(plan, schedule, i, CreateTransaction(w));
    ThreadMade(plan, schedule, i, EndTransaction(w));
    CountIsMultiset(trace, CreateTransaction(w));
    CountIsMultiset(trace, EndTransaction(w));
  }

  lemma AsideThrough(plan: Plan, schedule: seq<nat>, e: Event)
    requires plan.Valid() && IsSchedule(plan, schedule) && Through(plan, Run(plan, schedule))
    requires Aside(e) && e.workload < |plan.ops|
    ensures Count(Trace(plan, schedule), e) == Sum(ThreadCounts(plan, schedule, e))
    ensures forall i :: 0 <= i < plan.threads ==>
              ThreadCounts(plan, schedule, e)[i] ==
              if e.AskSize? then (if i == 0 then 1 else 0) else if plan.transactional then 1 else 0
  {
    TraceIsThreads(plan, schedule, e);
    forall i | 0 <= i < plan.threads
      ensures Count(ThreadTrace(plan, schedule, i), e) ==
              if e.AskSize? then (if i == 0 then 1 else 0) else if plan.transactional then 1 else 0
    {
      ThreadMade(plan, schedule, i, e);
    }
  }

  lemma EveryThreadOnce(plan: Plan, schedule: seq<nat>, e: Event)
    requires plan.Valid() && IsSchedule(plan, schedule) && Through(plan, Run(plan, schedule))
    requires (e.CreateTransaction? || e.EndTransaction?) && e.workload < |plan.ops|
    ensures Count(Trace(plan, schedule), e) == if plan.transactional then plan.threads else 0
  {
    AsideThrough(plan, schedule, e);
    SumConstant(ThreadCounts(plan, schedule, e), if plan.transactional then 1 else 0);
  }

  lemma AskedOnce(plan: Plan, schedule: seq<nat>, e: Event)
    requires plan.Valid() && IsSchedule(plan, schedule) && Through(plan, Run(plan, schedule))
    requires e.AskSize? && e.workload < |plan.ops|
    ensures Count(Trace(plan, schedule), e) == 1
  {
    AsideThrough(plan, schedule, e);
    var asked := ThreadCounts(plan, schedule, e);
    SumUpdate(asked, 0, 0);
    SumConstant(asked[0 := 0], 0);
  }

  // When all threads are through, every one of them has created and ended one
  // transaction for each workload, or none without transactions, and the size on
  // disk has been asked for once.
  lemma TransactionsCounted(plan: Plan, schedule: seq<nat>, w: nat)
    requires plan.Valid() && IsSchedule(plan, schedule) && w < |plan.ops| && Through(plan, Run(plan, schedule))
    ensures var trace := Trace(plan, schedule);
            && multiset(trace)[CreateTransaction(w)] == (if plan.transactional then plan.threads else 0)
            && multiset(trace)[EndTransaction(w)] == (if plan.transactional then plan.threads else 0)
            && multiset(trace)[AskSize(w)] == 1
  {
    EveryThreadOnce(plan, schedule, CreateTransaction(w));
    EveryThreadOnce(plan, schedule, EndTransaction(w));
    AskedOnce(plan, schedule, AskSize(w));
    CountIsMultiset(Trace(plan, schedule), CreateTransaction(w));
    CountIsMultiset(Trace(plan, schedule), EndTransaction(w));
    CountIsMultiset(Trace(plan, schedule), AskSize(w));
  }

  // ----- the local flag -----

  // Thread i has begun a flush in its current workload exactly when its flag says
  // so; none in a later one.
  ghost predicate FlagTells(plan: Plan, wk: Worker, trace: seq<Event>) {
    && (forall v :: v > wk.round ==> FlushBegin(v) !in trace)
    && (Rank(wk.stage) < 5 ==> FlushBegin(wk.round) !in trace)
    && (Rank(wk.stage) >= 5 ==> (FlushBegin(wk.round) in trace <==> !wk.mayFlush))
  }

  lemma InAppend(trace: seq<Event>, e: Event, f: Event)
    ensures f in trace + [e] <==> f in trace || f == e
  {
  }

  lemma FlagAppend(plan: Plan, wk: Worker, u: Worker, trace: seq<Event>, e: Event)
    requires FlagTells(plan, wk, trace) && u.round == wk.round && e.workload == wk.round
    requires (Rank(wk.stage) < 5 && Rank(u.stage) < 5) || (Rank(wk.stage) >= 5 && Rank(u.stage) >= 5)
    requires if e.FlushBegin? then Rank(u.stage) >= 5 && !u.mayFlush else u.mayFlush == wk.mayFlush
    ensures FlagTells(plan, u, trace + [e])
  {
    forall v ensures FlushBegin(v) in trace + [e] <==> FlushBegin(v) in trace || FlushBegin(v) == e {
      InAppend(trace, e, FlushBegin(v));
    }
  }

  // A step without an event keeps the flag, or sets it for a workload in which
  // the thread has not flushed.
  lemma FlagQuiet(plan: Plan, s: System, i: nat, trace: seq<Event>)
    requires plan.Valid() && Shaped(plan, s) && i < plan.threads && FlagTells(plan, s.workers[i], trace)
    requires Advance(plan, s, i).events == []
    ensures FlagTells(plan, Advance(plan, s, i).worker, trace)
  {
  }

  lemma FlagClosed(plan: Plan, s: System, i: nat, trace: seq<Event>)
    requires plan.Valid() && Shaped(plan, s) && i < plan.threads && FlagTells(plan, s.workers[i], trace)
    requires s.workers[i].round < |plan.ops| && s.workers[i].stage.Closing? && Advance(plan, s, i).events != []
    ensures FlagTells(plan, Advance(plan, s, i).worker, trace + Advance(plan, s, i).events)
  {
    var w := s.workers[i].round;
    forall v ensures FlushBegin(v) in trace + [CloseDb(w)] <==> FlushBegin(v) in trace {
      InAppend(trace, CloseDb(w), FlushBegin(v));
    }
  }

  lemma FlagInLoop(plan: Plan, s: System, i: nat)
    requires plan.Valid() && Shaped(plan, s) && i < plan.threads
    requires Advance(plan, s, i).events != [] && Rank(s.workers[i].stage) == 6
    ensures var wk, u, e := s.workers[i], Advance(plan, s, i).worker, Advance(plan, s, i).events[0];
            && u.round == wk.round == e.workload && Rank(u.stage) == 6
            && (if e.FlushBegin? then !u.mayFlush else u.mayFlush == wk.mayFlush)
  {
  }

  lemma FlagEvent(plan: Plan, s: System, i: nat)
    requires plan.Valid() && Shaped(plan, s) && i < plan.threads
    requires Advance(plan, s, i).events != [] && !s.workers[i].stage.Closing?
    ensures var wk, u, e := s.workers[i], Advance(plan, s, i).worker, Advance(plan, s, i).events[0];
            && u.round == wk.round == e.workload
            && (Rank(wk.stage) < 5 <==> Rank(u.stage) < 5)
            && (if e.FlushBegin? then Rank(u.stage) >= 5 && !u.mayFlush else u.mayFlush == wk.mayFlush)
  {
    if Rank(s.workers[i].stage) == 6 {
      FlagInLoop(plan, s, i);
    }
  }

  lemma FlagStep(plan: Plan, s: System, i: nat, trace: seq<Event>)
    requires plan.Valid() && Shaped(plan, s) && i < plan.threads && FlagTells(plan, s.workers[i], trace)
    ensures var o := Advance(plan, s, i); FlagTells(plan, o.worker, trace + o.events)
  {
    var wk, o := s.workers[i], Advance(plan, s, i);
    if o.events == [] {
      NothingMore(trace);
      FlagQuiet(plan, s, i, trace);
    } else if wk.stage.Closing? {
      FlagClosed(plan, s, i, trace);
    } else {
      OneEvent(plan, s, i);
      assert o.events == [o.events[0]];
      FlagEvent(plan, s, i);
      FlagAppend(plan, wk, o.worker, trace, o.events[0]);
    }
  }

  lemma {:induction false} FlagMeansFlushed(plan: Plan, schedule: seq<nat>, i: nat)
    requires plan.Valid() && IsSchedule(plan, schedule) && i < plan.threads
    ensures FlagTells(plan, Run(plan, schedule).workers[i], ThreadTrace(plan, schedule, i))
  {
    if schedule != [] {
      var last := |schedule| - 1;
      FlagMeansFlushed(plan, schedule[..last], i);
      if schedule[last] == i {
        FlagStep(plan, Run(plan, schedule[..last]), i, ThreadTrace(plan, schedule[..last], i));
      } else {
        NothingMore(ThreadTrace(plan, schedule[..last], i));
      }
    }
  }
}
