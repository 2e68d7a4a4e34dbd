// The life of the database in src/bench.cxx: all threads run the workloads one
// after another; thread 0 opens and closes the database around two calls of
// the fence; the shared progress counters decide which thread flushes. The
// fence is the one of ThreadsFence, access by access.
module BenchLifecycle {
  import opened Sequences
  import opened Sums
  import F = ThreadsFence

  // ----- what the database sees, and the sequential protocol it relies on -----

  datatype Event =
    | OpenDb(workload: nat)
    | CreateTransaction(workload: nat)
    | EndTransaction(workload: nat)
    | AskSize(workload: nat)           // the size on disk, for the report
    | OpBegin(workload: nat)
    | OpEnd(workload: nat)
    | FlushBegin(workload: nat)
    | FlushEnd(workload: nat)
    | CloseDb(workload: nat)

  datatype Db =
    | Closed(workload: nat)
    | Serving(workload: nat, active: nat, finished: nat)
    | Flushing(workload: nat)
    | Flushed(workload: nat)
    | Misused

  // operations_count of every workload and thread, as the split hands them out.
  datatype Plan = Plan(threads: nat, ops: seq<seq<nat>>, transactional: bool) {
    // At least one thread, and at least one operation each.
    predicate Valid() {
      && threads > 0
      && (forall w :: 0 <= w < |ops| ==> |ops[w]| == threads)
      && (forall w, i :: 0 <= w < |ops| && 0 <= i < threads ==> ops[w][i] > 0)
    }

    function Total(w: nat): nat {
      if w < |ops| then Sum(ops[w]) else 0
    }
  }

  // What may happen at any time while the database is open.
  predicate Touches(e: Event, w: nat) {
    e == CreateTransaction(w) || e == EndTransaction(w) || e == AskSize(w)
  }

  // The protocol: open, operations, one flush once all operations have
  // finished, close; then the next workload. Anything else is misuse.
  function Observe(plan: Plan, db: Db, e: Event): Db {
    match db
    case Closed(w) => if e == OpenDb(w) then Serving(w, 0, 0) else Misused
    case Serving(w, active, finished) =>
      if e == OpBegin(w) then Serving(w, active + 1, finished)
      else if e == OpEnd(w) && active > 0 then Serving(w, active - 1, finished + 1)
      else if e == FlushBegin(w) && active == 0 && finished == plan.Total(w) then Flushing(w)
      else if Touches(e, w) then db
      else Misused
    case Flushing(w) => if e == FlushEnd(w) then Flushed(w) else if Touches(e, w) then db else Misused
    case Flushed(w) => if e == CloseDb(w) then Closed(w + 1) else if Touches(e, w) then db else Misused
    case Misused => Misused
  }

  // ----- the threads -----

  datatype Stage =
    | Opening
    | Entering
    | Sync1
    | Creating
    | Registering
    | StartGate
    | Ready(left: nat)
    | InOp(left: nat)
    | Counting(left: nat)
    | Checking(left: nat, mine: nat)
    | InFlush(left: nat)
    | EndGate
    | Reporting
    | Committing
    | Leaving
    | Sync2
    | Closing

  // mayFlush is the local `do_flash`: every thread has its own.
  datatype Worker = Worker(round: nat, stage: Stage, mayFlush: bool)

  datatype System = System(fence: F.Fence, workers: seq<Worker>, total: nat, done: nat, db: Db)

  datatype Outcome = Outcome(worker: Worker, total: nat, done: nat, fenceMoves: bool, events: seq<Event>)

  function Rank(stage: Stage): (r: nat)
    ensures r <= 12
  {
    match stage
    case Opening => 0
    case Entering => 1
    case Sync1 => 2
    case Creating => 3
    case Registering => 4
    case StartGate => 5
    case Ready(_) => 6
    case InOp(_) => 6
    case Counting(_) => 6
    case Checking(_, _) => 6
    case InFlush(_) => 6
    case EndGate => 7
    case Reporting => 8
    case Committing => 9
    case Leaving => 10
    case Sync2 => 11
    case Closing => 12
  }

  function Pos(wk: Worker): nat {
    13 * wk.round + Rank(wk.stage)
  }

  // Google Benchmark's barriers around its loop, taken as given: nobody passes
  // before everybody is there.
  predicate AllReached(s: System, pos: nat) {
    forall j :: 0 <= j < |s.workers| ==> Pos(s.workers[j]) >= pos
  }

  predicate WorkerOk(plan: Plan, i: nat, wk: Worker) {
    && wk.round <= |plan.ops|
    && (wk.round == |plan.ops| ==> wk.stage.Opening?)
    && (wk.round < |plan.ops| ==>
          && i < |plan.ops[wk.round]|
          && (Rank(wk.stage) == 6 ==>
                wk.stage.left <= plan.ops[wk.round][i] && (!wk.stage.Ready? ==> wk.stage.left > 0)))
  }

  predicate Shaped(plan: Plan, s: System) {
    && |s.workers| == |s.fence.threads| == plan.threads
    && forall i :: 0 <= i < |s.workers| ==> WorkerOk(plan, i, s.workers[i])
  }

  function Start(plan: Plan): System {
    System(F.Init(plan.threads), seq(plan.threads, _ => Worker(0, Opening, true)), 0, 0, Closed(0))
  }

  // Thread i goes on to another stage and touches nothing else.
  function Go(s: System, i: nat, stage: Stage, events: seq<Event>): Outcome
    requires i < |s.workers|
  {
    Outcome(s.workers[i].(stage := stage), s.total, s.done, false, events)
  }

  // What thread i does next.
  function Advance(plan: Plan, s: System, i: nat): (o: Outcome)
    requires plan.Valid() && Shaped(plan, s) && i < plan.threads
    ensures WorkerOk(plan, i, o.worker)
  {
    var me := s.workers[i];
    var w := me.round;
    if w == |plan.ops| then Go(s, i, me.stage, []) else
    match me.stage
    case Opening => Go(s, i, Entering, if i == 0 then [OpenDb(w)] else [])
    case Entering => Go(s, i, Sync1, []).(fenceMoves := true)
    case Sync1 =>
      if s.fence.threads[i].pc.Out? then Go(s, i, Creating, [])
      else Go(s, i, Sync1, []).(fenceMoves := true)
    case Creating => Go(s, i, Registering, if plan.transactional then [CreateTransaction(w)] else [])
    case Registering => Outcome(Worker(w, StartGate, true), s.total + plan.ops[w][i], s.done, false, [])
    case StartGate => Go(s, i, if AllReached(s, Pos(me)) then Ready(plan.ops[w][i]) else StartGate, [])
    case Ready(left) => if left == 0 then Go(s, i, EndGate, []) else Go(s, i, InOp(left), [OpBegin(w)])
    case InOp(left) => Go(s, i, Counting(left), [OpEnd(w)])
    case Counting(left) => Go(s, i, Checking(left, s.done + 1), []).(done := s.done + 1)
    case Checking(left, mine) =>
      if mine == s.total && me.mayFlush
      then Outcome(Worker(w, InFlush(left), false), s.total, s.done, false, [FlushBegin(w)])
      else Go(s, i, Ready(left - 1), [])
    case InFlush(left) => Go(s, i, Ready(left - 1), [FlushEnd(w)])
    case EndGate => Go(s, i, if AllReached(s, Pos(me)) then Reporting else EndGate, [])
    case Reporting =>
      if i == 0 then Go(s, i, Committing, [AskSize(w)]).(total := 0, done := 0)
      else Go(s, i, Committing, [])
    case Committing => Go(s, i, Leaving, if plan.transactional then [EndTransaction(w)] else [])
    case Leaving => Go(s, i, Sync2, []).(fenceMoves := true)
    case Sync2 =>
      if s.fence.threads[i].pc.Out? then Go(s, i, Closing, [])
      else Go(s, i, Sync2, []).(fenceMoves := true)
    case Closing =>
      Outcome(Worker(w + 1, Opening, me.mayFlush), s.total, s.done, false, if i == 0 then [CloseDb(w)] else [])
  }

  function Replay(plan: Plan, db: Db, trace: seq<Event>): Db {
    if trace == [] then db
    else Observe(plan, Replay(plan, db, trace[..|trace| - 1]), trace[|trace| - 1])
  }

  function Next(plan: Plan, s: System, i: nat): (t: System)
    requires plan.Valid() && Shaped(plan, s) && i < plan.threads
    ensures Shaped(plan, t)
  {
    var o := Advance(plan, s, i);
    System(
      if o.fenceMoves then F.Step(s.fence, i) else s.fence,
      s.workers[i := o.worker],
      o.total,
      o.done,
      if o.events == [] then s.db else Observe(plan, s.db, o.events[0]))
  }

  // ----- the invariant -----

  // Calls of the fence and the place in `bench` go together.
  ghost predicate Coupled(t: F.Thread, wk: Worker) {
    var w, r := wk.round, Rank(wk.stage);
    if r < 2 then t == F.Thread(F.Out, 2 * w)
    else if r == 2 then t.calls == 2 * w + 1
    else if r < 11 then t == F.Thread(F.Out, 2 * w + 1)
    else if r == 11 then t.calls == 2 * w + 2
    else t == F.Thread(F.Out, 2 * w + 2)
  }

  // How far every thread must have got for one of them to be where wk is.
  function Floor(wk: Worker): int {
    var r := Rank(wk.stage);
    13 * wk.round + if r < 3 then -2 else if r < 6 then 2 else if r < 8 then 5 else if r < 12 then 7 else 11
  }

  ghost predicate Ordered(s: System) {
    forall i, j :: 0 <= i < |s.workers| && 0 <= j < |s.workers| ==> Pos(s.workers[j]) >= Floor(s.workers[i])
  }

  datatype Kind = Registered | Counted | Active | Finished

  // What thread i contributes to a counter of workload e.
  ghost function Part(kind: Kind, plan: Plan, e: nat, i: nat, wk: Worker): nat
    requires WorkerOk(plan, i, wk) && plan.Valid() && i < plan.threads
  {
    if e >= |plan.ops| || Pos(wk) < 13 * e + 5 then 0
    else if Pos(wk) == 13 * e + 6 then
      var before := plan.ops[e][i] - wk.stage.left;
      match kind
      case Registered => plan.ops[e][i]
      case Counted => if wk.stage.Checking? || wk.stage.InFlush? then before + 1 else before
      case Active => if wk.stage.InOp? then 1 else 0
      case Finished => if wk.stage.Ready? || wk.stage.InOp? then before else before + 1
    else if kind.Registered? then plan.ops[e][i]
    else if kind.Active? || Pos(wk) == 13 * e + 5 then 0
    else plan.ops[e][i]
  }

  ghost function Parts(kind: Kind, plan: Plan, e: nat, workers: seq<Worker>): (p: seq<nat>)
    requires plan.Valid() && |workers| == plan.threads
    requires forall i :: 0 <= i < |workers| ==> WorkerOk(plan, i, workers[i])
    ensures |p| == |workers|
    ensures forall i :: 0 <= i < |workers| ==> p[i] == Part(kind, plan, e, i, workers[i])
  {
    seq(|workers|, i requires 0 <= i < |workers| => Part(kind, plan, e, i, workers[i]))
  }

  ghost function Tally(kind: Kind, plan: Plan, e: nat, workers: seq<Worker>): nat
    requires plan.Valid() && |workers| == plan.threads
    requires forall i :: 0 <= i < |workers| ==> WorkerOk(plan, i, workers[i])
  {
    Sum(Parts(kind, plan, e, workers))
  }

  // The workload the shared counters are about: thread 0 clears them when it reports.
  ghost function Epoch(s: System): nat
    requires |s.workers| > 0
  {
    s.workers[0].round + if Rank(s.workers[0].stage) >= 9 then 1 else 0
  }

  ghost predicate Counters(plan: Plan, s: System)
    requires plan.Valid() && Shaped(plan, s)
  {
    && s.total == Tally(Registered, plan, Epoch(s), s.workers)
    && s.done == Tally(Counted, plan, Epoch(s), s.workers)
  }

  // The results of the atomic increment that are still to be compared are distinct.
  ghost predicate Tickets(s: System) {
    && (forall i :: 0 <= i < |s.workers| && s.workers[i].stage.Checking? ==> 1 <= s.workers[i].stage.mine <= s.done)
    && (forall i, j :: 0 <= i < j < |s.workers| && s.workers[i].stage.Checking? && s.workers[j].stage.Checking? ==>
          s.workers[i].stage.mine != s.workers[j].stage.mine)
  }

  ghost predicate HoldsLastTicket(wk: Worker, total: nat) {
    wk.stage.Checking? && wk.stage.mine == total
  }

  // The database while thread 0 is between opening it and reporting.
  ghost predicate DbInUse(plan: Plan, s: System, w: nat)
    requires plan.Valid() && Shaped(plan, s)
  {
    var last := plan.Total(w);
    match s.db
    case Serving(v, active, finished) =>
      && v == w
      && active == Tally(Active, plan, w, s.workers)
      && finished == Tally(Finished, plan, w, s.workers)
      && (forall j :: 0 <= j < |s.workers| ==> !s.workers[j].stage.InFlush?)
      && (forall j :: 0 <= j < |s.workers| && 5 <= Rank(s.workers[j].stage) <= 6 ==> s.workers[j].mayFlush)
      && (s.done == last ==> exists j :: 0 <= j < |s.workers| && HoldsLastTicket(s.workers[j], last))
    case Flushing(v) =>
      && v == w && s.done == last
      && (exists j :: 0 <= j < |s.workers| && s.workers[j].stage.InFlush?)
      && (forall i, j :: 0 <= i < j < |s.workers| ==> !s.workers[i].stage.InFlush? || !s.workers[j].stage.InFlush?)
      && (forall j :: 0 <= j < |s.workers| ==> !HoldsLastTicket(s.workers[j], last))
    case Flushed(v) =>
      && v == w && s.done == last
      && (forall j :: 0 <= j < |s.workers| ==> !s.workers[j].stage.InFlush?)
      && (forall j :: 0 <= j < |s.workers| ==> !HoldsLastTicket(s.workers[j], last))
    case _ => false
  }

  ghost predicate DbOk(plan: Plan, s: System)
    requires plan.Valid() && Shaped(plan, s)
  {
    var w, r := s.workers[0].round, Rank(s.workers[0].stage);
    if r == 0 then s.db == Closed(w)
    else if r < 8 then DbInUse(plan, s, w)
    else s.db == Flushed(w)
  }

  ghost predicate Base(plan: Plan, s: System) {
    && plan.Valid()
    && Shaped(plan, s)
    && F.Inv(s.fence)
    && (forall i :: 0 <= i < |s.workers| ==> Coupled(s.fence.threads[i], s.workers[i]))
    && Ordered(s)
  }

  ghost predicate Inv(plan: Plan, s: System) {
    Base(plan, s) && Counters(plan, s) && Tickets(s) && DbOk(plan, s)
  }

  // ----- facts about the tallies -----

  lemma TallyUpdate(kind: Kind, plan: Plan, e: nat, workers: seq<Worker>, i: nat, u: Worker)
    requires plan.Valid() && |workers| == plan.threads && i < |workers| && WorkerOk(plan, i, u)
    requires forall j :: 0 <= j < |workers| ==> WorkerOk(plan, j, workers[j])
    ensures Tally(kind, plan, e, workers[i := u]) ==
            Tally(kind, plan, e, workers) - Part(kind, plan, e, i, workers[i]) + Part(kind, plan, e, i, u)
    ensures Tally(kind, plan, e, workers) >= Part(kind, plan, e, i, workers[i])
  {
    SumUpdate(Parts(kind, plan, e, workers), i, Part(kind, plan, e, i, u));
    assert Parts(kind, plan, e, workers[i := u]) ==
           Parts(kind, plan, e, workers)[i := Part(kind, plan, e, i, u)];
  }

  // Before anybody registers for workload e its counters are zero.
  lemma TallyZero(kind: Kind, plan: Plan, e: nat, workers: seq<Worker>)
    requires plan.Valid() && |workers| == plan.threads
    requires forall j :: 0 <= j < |workers| ==> WorkerOk(plan, j, workers[j])
    requires forall j :: 0 <= j < |workers| ==> Pos(workers[j]) < 13 * e + 5
    ensures Tally(kind, plan, e, workers) == 0
  {
    SumConstant(Parts(kind, plan, e, workers), 0);
  }

  // A counter never exceeds the total, and reaches it exactly when every part is complete.
  lemma TallyFull(kind: Kind, plan: Plan, e: nat, workers: seq<Worker>)
    requires plan.Valid() && |workers| == plan.threads && e < |plan.ops| && !kind.Active?
    requires forall j :: 0 <= j < |workers| ==> WorkerOk(plan, j, workers[j])
    ensures Tally(kind, plan, e, workers) <= plan.Total(e)
    ensures Tally(kind, plan, e, workers) == plan.Total(e) <==>
            forall j :: 0 <= j < |workers| ==> Part(kind, plan, e, j, workers[j]) == plan.ops[e][j]
  {
    var p := Parts(kind, plan, e, workers);
    SumMonotone(p, plan.ops[e]);
    if forall j :: 0 <= j < |workers| ==> Part(kind, plan, e, j, workers[j]) == plan.ops[e][j] {
      assert p == plan.ops[e];
    }
  }

  lemma TotalPositive(plan: Plan, e: nat)
    requires plan.Valid() && e < |plan.ops|
    ensures plan.Total(e) > 0
  {
    SumUpdate(plan.ops[e], 0, 0);
  }

  // ----- the order of the threads -----

  lemma FenceStepLocal(f: F.Fence, i: nat)
    requires i < |f.threads|
    ensures var g := F.Step(f, i);
            && |g.threads| == |f.threads|
            && (forall j :: 0 <= j < |f.threads| && j != i ==> g.threads[j] == f.threads[j])
            && g.threads[i].calls == f.threads[i].calls + if f.threads[i].pc.Out? then 1 else 0
  {
  }

  lemma MoverCoupled(plan: Plan, s: System, i: nat)
    requires plan.Valid() && Shaped(plan, s) && i < plan.threads && Coupled(s.fence.threads[i], s.workers[i])
    ensures var o := Advance(plan, s, i);
            Coupled(if o.fenceMoves then F.Step(s.fence, i).threads[i] else s.fence.threads[i], o.worker)
  {
    FenceStepLocal(s.fence, i);
  }

  lemma CoupledStep(plan: Plan, s: System, i: nat)
    requires Base(plan, s) && i < plan.threads
    ensures var t := Next(plan, s, i);
            forall j :: 0 <= j < |t.workers| ==> Coupled(t.fence.threads[j], t.workers[j])
  {
    var o := Advance(plan, s, i);
    MoverCoupled(plan, s, i);
    FenceStepLocal(s.fence, i);
    var ts := if o.fenceMoves then F.Step(s.fence, i).threads else s.fence.threads;
    forall j | 0 <= j < |s.workers| ensures Coupled(ts[j], s.workers[i := o.worker][j]) {
      assert j != i ==> Coupled(s.fence.threads[j], s.workers[j]);
    }
  }

  lemma PosGrows(plan: Plan, s: System, i: nat)
    requires plan.Valid() && Shaped(plan, s) && i < plan.threads
    ensures var me, u := s.workers[i], Advance(plan, s, i).worker;
            (u.round == me.round && Rank(u.stage) >= Rank(me.stage)) || (u.round == me.round + 1 && u.stage.Opening?)
  {
  }

  // A thread that has returned from the fence has everybody at least inside that call.
  lemma CallsOrder(t: F.Thread, me: Worker, other: F.Thread, wk: Worker)
    requires Coupled(t, me) && Coupled(other, wk)
    requires (me.stage.Sync1? || me.stage.Sync2?) && t.calls <= other.calls
    ensures Pos(wk) >= Pos(me)
  {
  }

  lemma FenceOrders(plan: Plan, s: System, i: nat, j: nat)
    requires Base(plan, s) && i < plan.threads && j < plan.threads
    requires s.workers[i].stage.Sync1? || s.workers[i].stage.Sync2?
    requires s.fence.threads[i].pc.Out?
    ensures Pos(s.workers[j]) >= Pos(s.workers[i])
  {
    F.NobodyOvertakes(s.fence, i, j);
    CallsOrder(s.fence.threads[i], s.workers[i], s.fence.threads[j], s.workers[j]);
  }

  predicate Crossing(stage: Stage) {
    stage.Sync1? || stage.StartGate? || stage.EndGate? || stage.Sync2?
  }

  lemma FloorKept(plan: Plan, s: System, i: nat)
    requires plan.Valid() && Shaped(plan, s) && i < plan.threads && !Crossing(s.workers[i].stage)
    ensures Floor(Advance(plan, s, i).worker) == Floor(s.workers[i])
  {
  }

  // Crossing the fence or a gate is the only way to rely on others being further on.
  lemma FloorRises(plan: Plan, s: System, i: nat)
    requires plan.Valid() && Shaped(plan, s) && i < plan.threads
    ensures var me, u := s.workers[i], Advance(plan, s, i).worker;
            || Floor(u) == Floor(me)
            || (Floor(u) <= Pos(me) &&
                if me.stage.Sync1? || me.stage.Sync2? then s.fence.threads[i].pc.Out? else AllReached(s, Pos(me)))
  {
    if !Crossing(s.workers[i].stage) {
      FloorKept(plan, s, i);
    }
  }

  lemma NewFloor(plan: Plan, s: System, i: nat, j: nat)
    requires Base(plan, s) && i < plan.threads && j < plan.threads
    ensures Pos(s.workers[j]) >= Floor(Advance(plan, s, i).worker)
  {
    var me := s.workers[i];
    FloorRises(plan, s, i);
    assert Pos(s.workers[j]) >= Floor(me);
    if (me.stage.Sync1? || me.stage.Sync2?) && s.fence.threads[i].pc.Out? {
      FenceOrders(plan, s, i, j);
    }
  }

  lemma OrderStep(plan: Plan, s: System, i: nat)
    requires Base(plan, s) && i < plan.threads
    ensures Ordered(Next(plan, s, i))
  {
    var t := Next(plan, s, i);
    var u := Advance(plan, s, i).worker;
    assert t.workers == s.workers[i := u];
    forall k, j | 0 <= k < |s.workers| && 0 <= j < |s.workers| ensures Pos(t.workers[j]) >= Floor(t.workers[k]) {
      NewFloor(plan, s, i, j);
      PosGrows(plan, s, i);
      assert Pos(s.workers[j]) >= Floor(s.workers[k]);
      assert Pos(s.workers[i]) >= Floor(s.workers[k]);
    }
  }

  lemma BaseStep(plan: Plan, s: System, i: nat)
    requires Base(plan, s) && i < plan.threads
    ensures Base(plan, Next(plan, s, i))
  {
    if Advance(plan, s, i).fenceMoves {
      F.StepInv(s.fence, i);
    }
    CoupledStep(plan, s, i);
    OrderStep(plan, s, i);
  }

  lemma NearLoop(s: System, i: nat, j: nat)
    requires Ordered(s) && i < |s.workers| && j < |s.workers| && Rank(s.workers[i].stage) == 6
    ensures var w := s.workers[i].round; 13 * w + 5 <= Pos(s.workers[j]) <= 13 * w + 7
  {
    assert Pos(s.workers[j]) >= Floor(s.workers[i]);
    assert Pos(s.workers[i]) >= Floor(s.workers[j]);
  }

  lemma AllRegistered(plan: Plan, workers: seq<Worker>, w: nat)
    requires plan.Valid() && |workers| == plan.threads && w < |plan.ops|
    requires forall j :: 0 <= j < |workers| ==> WorkerOk(plan, j, workers[j])
    requires forall j :: 0 <= j < |workers| ==> Pos(workers[j]) >= 13 * w + 5
    ensures Tally(Registered, plan, w, workers) == plan.Total(w)
  {
    TallyFull(Registered, plan, w, workers);
  }

  // While one thread is in the loop of workload w, everybody has registered for it,
  // nobody has reported, and the shared counters are about it.
  lemma Busy(plan: Plan, s: System, i: nat)
    requires Base(plan, s) && Counters(plan, s) && i < plan.threads && Rank(s.workers[i].stage) == 6
    ensures var w := s.workers[i].round;
            && w < |plan.ops| && Epoch(s) == w == s.workers[0].round && 5 <= Rank(s.workers[0].stage) <= 7
            && s.total == plan.Total(w)
            && forall j :: 0 <= j < |s.workers| ==> 13 * w + 5 <= Pos(s.workers[j]) <= 13 * w + 7
  {
    var w := s.workers[i].round;
    assert WorkerOk(plan, i, s.workers[i]);
    forall j | 0 <= j < |s.workers| ensures 13 * w + 5 <= Pos(s.workers[j]) <= 13 * w + 7 {
      NearLoop(s, i, j);
    }
    assert 13 * w + 5 <= Pos(s.workers[0]) <= 13 * w + 7;
    AllRegistered(plan, s.workers, w);
  }

  // ----- the shared counters -----

  // A move outside the operation loop never changes a contribution, except registering.
  lemma PartKeptAtGate(kind: Kind, plan: Plan, s: System, i: nat, e: nat)
    requires plan.Valid() && Shaped(plan, s) && i < plan.threads
    requires var stage := s.workers[i].stage;
             stage.StartGate? || stage.EndGate? || (stage.Registering? && !kind.Registered?)
    ensures Part(kind, plan, e, i, Advance(plan, s, i).worker) == Part(kind, plan, e, i, s.workers[i])
  {
  }

  // Other moves outside the loop stay before the registration or after the loop.
  lemma SameSide(plan: Plan, s: System, i: nat)
    requires plan.Valid() && Shaped(plan, s) && i < plan.threads && Rank(s.workers[i].stage) != 6
    requires var stage := s.workers[i].stage; !stage.StartGate? && !stage.EndGate? && !stage.Registering?
    ensures var me, u := s.workers[i], Advance(plan, s, i).worker;
            && Rank(u.stage) != 6
            && ((u.round == me.round && (Rank(u.stage) < 5 <==> Rank(me.stage) < 5))
                || (u.round == me.round + 1 && u.stage.Opening? && me.stage.Closing?))
  {
  }

  lemma PartKeptOutside(kind: Kind, plan: Plan, s: System, i: nat, e: nat)
    requires plan.Valid() && Shaped(plan, s) && i < plan.threads && Rank(s.workers[i].stage) != 6
    requires kind.Registered? ==> !s.workers[i].stage.Registering?
    ensures Part(kind, plan, e, i, Advance(plan, s, i).worker) == Part(kind, plan, e, i, s.workers[i])
  {
    PosGrows(plan, s, i);
    var stage := s.workers[i].stage;
    if stage.StartGate? || stage.Registering? || stage.EndGate? {
      PartKeptAtGate(kind, plan, s, i, e);
    } else {
      SameSide(plan, s, i);
    }
  }

  // Inside the loop, only counting changes the counters ...
  lemma CounterPartKept(kind: Kind, plan: Plan, s: System, i: nat, e: nat)
    requires plan.Valid() && Shaped(plan, s) && i < plan.threads && Rank(s.workers[i].stage) == 6
    requires kind.Registered? || (kind.Counted? && !s.workers[i].stage.Counting?)
    ensures Part(kind, plan, e, i, Advance(plan, s, i).worker) == Part(kind, plan, e, i, s.workers[i])
  {
  }

  // ... and only beginning and ending an operation change the other two tallies.
  lemma OpPartKept(kind: Kind, plan: Plan, s: System, i: nat, e: nat)
    requires plan.Valid() && Shaped(plan, s) && i < plan.threads && Rank(s.workers[i].stage) == 6
    requires kind.Active? || kind.Finished?
    requires !s.workers[i].stage.InOp?
    requires s.workers[i].stage.Ready? ==> s.workers[i].stage.left == 0
    ensures Part(kind, plan, e, i, Advance(plan, s, i).worker) == Part(kind, plan, e, i, s.workers[i])
  {
  }

  lemma EpochIsRound(plan: Plan, s: System, i: nat)
    requires Base(plan, s) && i < plan.threads && 3 <= Rank(s.workers[i].stage) <= 6
    ensures Epoch(s) == s.workers[i].round == s.workers[0].round && 2 <= Rank(s.workers[0].stage) <= 7
  {
    assert Pos(s.workers[0]) >= Floor(s.workers[i]);
    assert Pos(s.workers[i]) >= Floor(s.workers[0]);
  }

  lemma ReportEnds(plan: Plan, s: System)
    requires plan.Valid() && Shaped(plan, s) && s.workers[0].stage.Reporting?
    ensures var t := Next(plan, s, 0);
            && Epoch(t) == Epoch(s) + 1 && t.total == t.done == 0
            && Pos(t.workers[0]) < 13 * Epoch(t) + 5
            && forall j :: 0 < j < |s.workers| ==> t.workers[j] == s.workers[j]
  {
    assert WorkerOk(plan, 0, s.workers[0]);
  }

  // While thread 0 reports, nobody has registered for the next workload.
  lemma NotYetRegistered(s: System, j: nat)
    requires Ordered(s) && j < |s.workers| && s.workers[0].stage.Reporting?
    ensures Pos(s.workers[j]) < 13 * (Epoch(s) + 1) + 5
  {
    assert Pos(s.workers[0]) >= Floor(s.workers[j]);
  }

  lemma ReportClears(plan: Plan, s: System)
    requires Base(plan, s) && s.workers[0].stage.Reporting?
    ensures Counters(plan, Next(plan, s, 0))
  {
    var t := Next(plan, s, 0);
    var e := Epoch(s) + 1;
    ReportEnds(plan, s);
    forall j | 0 <= j < |t.workers| ensures Pos(t.workers[j]) < 13 * e + 5 {
      if j > 0 { NotYetRegistered(s, j); }
    }
    TallyZero(Registered, plan, e, t.workers);
    TallyZero(Counted, plan, e, t.workers);
  }

  lemma EpochKept(plan: Plan, s: System, i: nat)
    requires plan.Valid() && Shaped(plan, s) && i < plan.threads
    requires i == 0 ==> !s.workers[0].stage.Reporting?
    ensures Epoch(Next(plan, s, i)) == Epoch(s)
  {
  }

  lemma RegisteringAdds(plan: Plan, s: System, i: nat)
    requires Base(plan, s) && i < plan.threads && s.workers[i].stage.Registering?
    ensures var e := Epoch(s);
            && e < |plan.ops|
            && Part(Registered, plan, e, i, s.workers[i]) == 0
            && Part(Registered, plan, e, i, Advance(plan, s, i).worker) == plan.ops[e][i]
            && Next(plan, s, i).total == s.total + plan.ops[e][i]
  {
    EpochIsRound(plan, s, i);
    assert WorkerOk(plan, i, s.workers[i]);
  }

  lemma CountingAdds(plan: Plan, s: System, i: nat)
    requires Base(plan, s) && i < plan.threads && s.workers[i].stage.Counting?
    ensures var e := Epoch(s);
            && Part(Counted, plan, e, i, Advance(plan, s, i).worker) == Part(Counted, plan, e, i, s.workers[i]) + 1
            && Next(plan, s, i).done == s.done + 1
  {
    EpochIsRound(plan, s, i);
    assert WorkerOk(plan, i, s.workers[i]);
  }

  lemma OthersLeaveCounters(plan: Plan, s: System, i: nat)
    requires plan.Valid() && Shaped(plan, s) && i < plan.threads
    requires i == 0 ==> !s.workers[0].stage.Reporting?
    ensures !s.workers[i].stage.Registering? ==> Next(plan, s, i).total == s.total
    ensures !s.workers[i].stage.Counting? ==> Next(plan, s, i).done == s.done
  {
  }

  lemma TotalStep(plan: Plan, s: System, i: nat)
    requires Base(plan, s) && Counters(plan, s) && i < plan.threads
    requires !s.workers[i].stage.Registering? ==> Next(plan, s, i).total == s.total
    ensures Next(plan, s, i).total == Tally(Registered, plan, Epoch(s), Next(plan, s, i).workers)
  {
    TallyUpdate(Registered, plan, Epoch(s), s.workers, i, Advance(plan, s, i).worker);
    if s.workers[i].stage.Registering? {
      RegisteringAdds(plan, s, i);
    } else if Rank(s.workers[i].stage) == 6 {
      CounterPartKept(Registered, plan, s, i, Epoch(s));
    } else {
      PartKeptOutside(Registered, plan, s, i, Epoch(s));
    }
  }

  lemma DoneStep(plan: Plan, s: System, i: nat)
    requires Base(plan, s) && Counters(plan, s) && i < plan.threads
    requires !s.workers[i].stage.Counting? ==> Next(plan, s, i).done == s.done
    ensures Next(plan, s, i).done == Tally(Counted, plan, Epoch(s), Next(plan, s, i).workers)
  {
    TallyUpdate(Counted, plan, Epoch(s), s.workers, i, Advance(plan, s, i).worker);
    if s.workers[i].stage.Counting? {
      CountingAdds(plan, s, i);
    } else if Rank(s.workers[i].stage) == 6 {
      CounterPartKept(Counted, plan, s, i, Epoch(s));
    } else {
      PartKeptOutside(Counted, plan, s, i, Epoch(s));
    }
  }

  lemma CountersStep(plan: Plan, s: System, i: nat)
    requires Base(plan, s) && Counters(plan, s) && i < plan.threads
    ensures Counters(plan, Next(plan, s, i))
  {
    if i == 0 && s.workers[0].stage.Reporting? {
      ReportClears(plan, s);
    } else {
      EpochKept(plan, s, i);
      OthersLeaveCounters(plan, s, i);
      TotalStep(plan, s, i);
      DoneStep(plan, s, i);
    }
  }

  lemma NewTicket(plan: Plan, s: System, i: nat)
    requires plan.Valid() && Shaped(plan, s) && i < plan.threads
    ensures var t, u := Next(plan, s, i), Advance(plan, s, i).worker;
            u.stage.Checking? ==> u.stage.mine == t.done == s.done + 1
  {
  }

  lemma DoneGrows(plan: Plan, s: System, i: nat)
    requires plan.Valid() && Shaped(plan, s) && i < plan.threads
    ensures var t := Next(plan, s, i); t.done >= s.done || (i == 0 && s.workers[0].stage.Reporting? && t.done == 0)
  {
  }

  // Nobody compares while thread 0 reports.
  lemma NoTicketsLeft(plan: Plan, s: System)
    requires Base(plan, s) && Counters(plan, s) && s.workers[0].stage.Reporting?
    ensures forall j :: 0 <= j < |s.workers| ==> !s.workers[j].stage.Checking?
  {
    forall j | 0 <= j < |s.workers| && s.workers[j].stage.Checking? ensures false {
      Busy(plan, s, j);
    }
  }

  lemma TicketsKept(s: System, t: System, i: nat, u: Worker)
    requires Tickets(s) && i < |s.workers| && t.workers == s.workers[i := u] && t.done >= s.done
    requires u.stage.Checking? ==> u.stage.mine == t.done == s.done + 1
    ensures Tickets(t)
  {
  }

  lemma TicketsStep(plan: Plan, s: System, i: nat)
    requires Base(plan, s) && Counters(plan, s) && Tickets(s) && i < plan.threads
    ensures Tickets(Next(plan, s, i))
  {
    var t, u := Next(plan, s, i), Advance(plan, s, i).worker;
    NewTicket(plan, s, i);
    DoneGrows(plan, s, i);
    assert t.workers == s.workers[i := u];
    if i == 0 && s.workers[0].stage.Reporting? {
      NoTicketsLeft(plan, s);
    } else {
      TicketsKept(s, t, i, u);
    }
  }

  // ----- the database -----

  predicate TouchesKeep(plan: Plan, db: Db, w: nat) {
    && Observe(plan, db, CreateTransaction(w)) == db
    && Observe(plan, db, EndTransaction(w)) == db
    && Observe(plan, db, AskSize(w)) == db
  }

  // Whoever may touch the database outside the loop does so while it is open.
  lemma TouchAllowed(plan: Plan, s: System, i: nat)
    requires Base(plan, s) && DbOk(plan, s) && i < plan.threads
    requires 3 <= Rank(s.workers[i].stage) <= 10
    ensures TouchesKeep(plan, s.db, s.workers[i].round)
    ensures s.workers[0].round == s.workers[i].round && 1 <= Rank(s.workers[0].stage) <= 11
  {
    assert Pos(s.workers[0]) >= Floor(s.workers[i]);
    assert Pos(s.workers[i]) >= Floor(s.workers[0]);
  }

  lemma LastTicketKept(s: System, workers: seq<Worker>, i: nat, u: Worker, total: nat)
    requires i < |s.workers| && workers == s.workers[i := u] && !HoldsLastTicket(s.workers[i], total)
    requires exists j :: 0 <= j < |s.workers| && HoldsLastTicket(s.workers[j], total)
    ensures exists j :: 0 <= j < |workers| && HoldsLastTicket(workers[j], total)
  {
    var j :| 0 <= j < |s.workers| && HoldsLastTicket(s.workers[j], total);
    assert workers[j] == s.workers[j];
  }

  // What a move outside the loop, or out of it, means for the mover.
  lemma QuietMove(plan: Plan, s: System, i: nat)
    requires plan.Valid() && Shaped(plan, s) && i < plan.threads
    requires Rank(s.workers[i].stage) != 6 || (s.workers[i].stage.Ready? && s.workers[i].stage.left == 0)
    ensures var me, u := s.workers[i], Advance(plan, s, i).worker;
            && !u.stage.Checking? && !u.stage.InFlush?
            && (5 <= Rank(u.stage) <= 6 ==> u.mayFlush || (5 <= Rank(me.stage) <= 6 && u.mayFlush == me.mayFlush))
  {
  }

  // The database in use does not depend on a mover with no part in it.
  ghost predicate Bystander(plan: Plan, s: System, i: nat, u: Worker, w: nat)
    requires plan.Valid() && Shaped(plan, s) && i < plan.threads
  {
    var me := s.workers[i];
    && WorkerOk(plan, i, u)
    && !u.stage.Checking? && !u.stage.InFlush?
    && !HoldsLastTicket(me, plan.Total(w)) && !me.stage.InFlush?
    && (5 <= Rank(u.stage) <= 6 ==> u.mayFlush || (5 <= Rank(me.stage) <= 6 && u.mayFlush == me.mayFlush))
    && Part(Active, plan, w, i, u) == Part(Active, plan, w, i, me)
    && Part(Finished, plan, w, i, u) == Part(Finished, plan, w, i, me)
  }

  lemma QuietBystander(plan: Plan, s: System, i: nat, w: nat)
    requires plan.Valid() && Shaped(plan, s) && i < plan.threads
    requires Rank(s.workers[i].stage) != 6 || (s.workers[i].stage.Ready? && s.workers[i].stage.left == 0)
    ensures Bystander(plan, s, i, Advance(plan, s, i).worker, w)
  {
    QuietMove(plan, s, i);
    if s.workers[i].stage.Ready? {
      OpPartKept(Active, plan, s, i, w);
      OpPartKept(Finished, plan, s, i, w);
    } else {
      PartKeptOutside(Active, plan, s, i, w);
      PartKeptOutside(Finished, plan, s, i, w);
    }
  }

  lemma BystanderServing(plan: Plan, s: System, i: nat, u: Worker, w: nat)
    requires plan.Valid() && Shaped(plan, s) && i < plan.threads && DbInUse(plan, s, w) && s.db.Serving?
    requires Bystander(plan, s, i, u, w)
    ensures DbInUse(plan, s.(workers := s.workers[i := u]), w)
  {
    TallyUpdate(Active, plan, w, s.workers, i, u);
    TallyUpdate(Finished, plan, w, s.workers, i, u);
    if s.done == plan.Total(w) {
      LastTicketKept(s, s.workers[i := u], i, u, plan.Total(w));
    }
  }

  lemma BystanderFlush(plan: Plan, s: System, i: nat, u: Worker, w: nat)
    requires plan.Valid() && Shaped(plan, s) && i < plan.threads && DbInUse(plan, s, w) && !s.db.Serving?
    requires Bystander(plan, s, i, u, w)
    ensures DbInUse(plan, s.(workers := s.workers[i := u]), w)
  {
    if s.db.Flushing? {
      var j :| 0 <= j < |s.workers| && s.workers[j].stage.InFlush?;
      assert s.workers[i := u][j] == s.workers[j];
    }
  }

  lemma MoverKeepsInUse(plan: Plan, s: System, t: System, i: nat, u: Worker, w: nat)
    requires plan.Valid() && Shaped(plan, s) && i < plan.threads && DbInUse(plan, s, w)
    requires Bystander(plan, s, i, u, w)
    requires Shaped(plan, t) && t.workers == s.workers[i := u] && t.db == s.db && t.done == s.done
    ensures DbInUse(plan, t, w)
  {
    if s.db.Serving? {
      BystanderServing(plan, s, i, u, w);
    } else {
      BystanderFlush(plan, s, i, u, w);
    }
  }

  // A step outside the operation loop leaves the database in use as it is.
  lemma InUseKept(plan: Plan, s: System, i: nat, w: nat)
    requires Base(plan, s) && i < plan.threads && DbInUse(plan, s, w)
    requires var t := Next(plan, s, i); t.db == s.db && t.done == s.done
    requires Rank(s.workers[i].stage) != 6 || (s.workers[i].stage.Ready? && s.workers[i].stage.left == 0)
    ensures DbInUse(plan, Next(plan, s, i), w)
  {
    QuietBystander(plan, s, i, w);
    MoverKeepsInUse(plan, s, Next(plan, s, i), i, Advance(plan, s, i).worker, w);
  }

  // A thread with an operation left keeps the workload incomplete, so nobody has flushed.
  lemma Incomplete(plan: Plan, s: System, i: nat)
    requires Inv(plan, s) && i < plan.threads
    requires var st := s.workers[i].stage; (st.Ready? && st.left > 0) || st.InOp? || st.Counting?
    ensures var w := s.workers[i].round;
            w < |plan.ops| && s.done < plan.Total(w) && DbInUse(plan, s, w) && s.db.Serving?
  {
    Busy(plan, s, i);
    var w := s.workers[i].round;
    TallyFull(Counted, plan, w, s.workers);
    assert Part(Counted, plan, w, i, s.workers[i]) < plan.ops[w][i];
  }

  // Beginning or ending an operation while the database serves.
  lemma OpInService(plan: Plan, s: System, i: nat, w: nat)
    requires plan.Valid() && Shaped(plan, s) && i < plan.threads && DbInUse(plan, s, w)
    requires s.db.Serving? && s.done < plan.Total(w)
    requires s.workers[0].round == w && 1 <= Rank(s.workers[0].stage) <= 7 && s.workers[i].round == w < |plan.ops|
    requires var st := s.workers[i].stage; (st.Ready? && st.left > 0) || st.InOp?
    ensures DbOk(plan, Next(plan, s, i))
  {
    var t, u := Next(plan, s, i), Advance(plan, s, i).worker;
    assert t.workers == s.workers[i := u];
    TallyUpdate(Active, plan, w, s.workers, i, u);
    TallyUpdate(Finished, plan, w, s.workers, i, u);
    assert DbInUse(plan, t, w);
  }

  lemma OpBeginStep(plan: Plan, s: System, i: nat)
    requires Inv(plan, s) && i < plan.threads && s.workers[i].stage.Ready? && s.workers[i].stage.left > 0
    ensures DbOk(plan, Next(plan, s, i))
  {
    Incomplete(plan, s, i);
    Busy(plan, s, i);
    OpInService(plan, s, i, s.workers[i].round);
  }

  lemma OpEndStep(plan: Plan, s: System, i: nat)
    requires Inv(plan, s) && i < plan.threads && s.workers[i].stage.InOp?
    ensures DbOk(plan, Next(plan, s, i))
  {
    Incomplete(plan, s, i);
    Busy(plan, s, i);
    OpInService(plan, s, i, s.workers[i].round);
  }

  // Drawing a ticket while the database serves.
  lemma TicketDrawn(plan: Plan, s: System, i: nat, u: Worker, w: nat)
    requires plan.Valid() && Shaped(plan, s) && i < plan.threads && DbInUse(plan, s, w) && s.db.Serving?
    requires WorkerOk(plan, i, u) && u.stage.Checking? && u.stage.mine == s.done + 1
    requires Rank(s.workers[i].stage) == 6 && u.mayFlush == s.workers[i].mayFlush
    requires Part(Active, plan, w, i, u) == Part(Active, plan, w, i, s.workers[i])
    requires Part(Finished, plan, w, i, u) == Part(Finished, plan, w, i, s.workers[i])
    ensures DbInUse(plan, s.(workers := s.workers[i := u], done := s.done + 1), w)
  {
    TallyUpdate(Active, plan, w, s.workers, i, u);
    TallyUpdate(Finished, plan, w, s.workers, i, u);
    if s.done + 1 == plan.Total(w) {
      assert HoldsLastTicket(s.workers[i := u][i], plan.Total(w));
    }
  }

  lemma CountStep(plan: Plan, s: System, i: nat)
    requires Inv(plan, s) && i < plan.threads && s.workers[i].stage.Counting?
    ensures DbOk(plan, Next(plan, s, i))
  {
    var w := s.workers[i].round;
    var u := Advance(plan, s, i).worker;
    Incomplete(plan, s, i);
    Busy(plan, s, i);
    OpPartKept(Active, plan, s, i, w);
    OpPartKept(Finished, plan, s, i, w);
    TicketDrawn(plan, s, i, u, w);
    assert Next(plan, s, i) == s.(workers := s.workers[i := u], done := s.done + 1);
  }

  // Who has counted all operations of workload w has finished them and is in none.
  lemma CountedIsFinished(plan: Plan, w: nat, j: nat, wk: Worker)
    requires plan.Valid() && w < |plan.ops| && j < plan.threads && WorkerOk(plan, j, wk)
    requires Part(Counted, plan, w, j, wk) == plan.ops[w][j]
    ensures Part(Finished, plan, w, j, wk) == plan.ops[w][j] && Part(Active, plan, w, j, wk) == 0
  {
  }

  lemma AllCounted(plan: Plan, s: System, w: nat)
    requires plan.Valid() && Shaped(plan, s) && w < |plan.ops|
    requires Tally(Counted, plan, w, s.workers) == plan.Total(w)
    ensures Tally(Finished, plan, w, s.workers) == plan.Total(w) && Tally(Active, plan, w, s.workers) == 0
  {
    TallyFull(Counted, plan, w, s.workers);
    forall j | 0 <= j < |s.workers|
      ensures Part(Finished, plan, w, j, s.workers[j]) == plan.ops[w][j]
      ensures Part(Active, plan, w, j, s.workers[j]) == 0
    {
      CountedIsFinished(plan, w, j, s.workers[j]);
    }
    TallyFull(Finished, plan, w, s.workers);
    SumConstant(Parts(Active, plan, w, s.workers), 0);
  }

  // The last ticket is drawn after every operation of every thread has finished.
  lemma LastTicketMeansAllDone(plan: Plan, s: System, i: nat)
    requires Inv(plan, s) && i < plan.threads && HoldsLastTicket(s.workers[i], s.total)
    ensures var w := s.workers[i].round;
            && w < |plan.ops| && s.total == s.done == plan.Total(w)
            && s.db == Serving(w, 0, plan.Total(w)) && DbInUse(plan, s, w)
            && s.workers[i].mayFlush
  {
    Busy(plan, s, i);
    var w := s.workers[i].round;
    TallyFull(Counted, plan, w, s.workers);
    AllCounted(plan, s, w);
    assert DbInUse(plan, s, w);
  }

  lemma FlushStarts(plan: Plan, s: System, i: nat, w: nat)
    requires plan.Valid() && Shaped(plan, s) && i < plan.threads && DbInUse(plan, s, w)
    requires s.db == Serving(w, 0, plan.Total(w)) && s.total == s.done == plan.Total(w)
    requires s.workers[0].round == w && 1 <= Rank(s.workers[0].stage) <= 7 && s.workers[i].round == w < |plan.ops|
    requires HoldsLastTicket(s.workers[i], s.total) && s.workers[i].mayFlush
    requires forall j :: 0 <= j < |s.workers| && j != i ==> !HoldsLastTicket(s.workers[j], s.total)
    ensures DbOk(plan, Next(plan, s, i))
  {
    var t := Next(plan, s, i);
    assert t.workers == s.workers[i := Advance(plan, s, i).worker];
    assert t.workers[i].stage.InFlush?;
    assert DbInUse(plan, t, w);
  }

  lemma LastTicketStep(plan: Plan, s: System, i: nat)
    requires Inv(plan, s) && i < plan.threads && HoldsLastTicket(s.workers[i], s.total)
    ensures DbOk(plan, Next(plan, s, i))
  {
    var w := s.workers[i].round;
    LastTicketMeansAllDone(plan, s, i);
    Busy(plan, s, i);
    forall j | 0 <= j < |s.workers| && j != i ensures !HoldsLastTicket(s.workers[j], s.total) {
      assert j < i || i < j;
    }
    FlushStarts(plan, s, i, w);
  }

  lemma OrdinaryTicket(plan: Plan, s: System, i: nat, w: nat)
    requires plan.Valid() && Shaped(plan, s) && i < plan.threads && s.workers[i].stage.Checking?
    requires s.workers[i].stage.mine != s.total == plan.Total(w)
    ensures Bystander(plan, s, i, Advance(plan, s, i).worker, w)
    ensures Next(plan, s, i) == s.(workers := s.workers[i := Advance(plan, s, i).worker])
  {
    OpPartKept(Active, plan, s, i, w);
    OpPartKept(Finished, plan, s, i, w);
  }

  lemma OrdinaryStep(plan: Plan, s: System, i: nat, w: nat)
    requires plan.Valid() && Shaped(plan, s) && i < plan.threads && DbInUse(plan, s, w)
    requires s.workers[0].round == w && 1 <= Rank(s.workers[0].stage) <= 7
    requires s.workers[i].stage.Checking? && s.workers[i].stage.mine != s.total == plan.Total(w)
    ensures DbOk(plan, Next(plan, s, i))
  {
    OrdinaryTicket(plan, s, i, w);
    MoverKeepsInUse(plan, s, Next(plan, s, i), i, Advance(plan, s, i).worker, w);
  }

  lemma NoLastTicketStep(plan: Plan, s: System, i: nat)
    requires Inv(plan, s) && i < plan.threads && s.workers[i].stage.Checking? && s.workers[i].stage.mine != s.total
    ensures DbOk(plan, Next(plan, s, i))
  {
    Busy(plan, s, i);
    OrdinaryStep(plan, s, i, s.workers[i].round);
  }

  lemma CheckStep(plan: Plan, s: System, i: nat)
    requires Inv(plan, s) && i < plan.threads && s.workers[i].stage.Checking?
    ensures DbOk(plan, Next(plan, s, i))
  {
    if s.workers[i].stage.mine == s.total {
      LastTicketStep(plan, s, i);
    } else {
      NoLastTicketStep(plan, s, i);
    }
  }

  lemma FlushEnds(plan: Plan, s: System, i: nat, w: nat)
    requires plan.Valid() && Shaped(plan, s) && i < plan.threads && DbInUse(plan, s, w)
    requires s.workers[0].round == w && 1 <= Rank(s.workers[0].stage) <= 7
    requires s.workers[i].stage.InFlush? && s.workers[i].round == w < |plan.ops|
    ensures DbOk(plan, Next(plan, s, i))
  {
    var t := Next(plan, s, i);
    assert t.workers == s.workers[i := Advance(plan, s, i).worker];
    forall j | 0 <= j < |s.workers| && j != i ensures !s.workers[j].stage.InFlush? {
      assert j < i || i < j;
    }
    assert DbInUse(plan, t, w);
  }

  lemma FlushEndStep(plan: Plan, s: System, i: nat)
    requires Inv(plan, s) && i < plan.threads && s.workers[i].stage.InFlush?
    ensures DbOk(plan, Next(plan, s, i))
  {
    Busy(plan, s, i);
    FlushEnds(plan, s, i, s.workers[i].round);
  }

  // When thread 0 opens for workload w, everybody else is before the operations of w
  // and after those of the workload before it.
  lemma AllOutsideLoop(plan: Plan, s: System, j: nat)
    requires Base(plan, s) && s.workers[0].stage.Opening? && j < plan.threads
    ensures var w := s.workers[0].round;
            Pos(s.workers[j]) < 13 * w + 3 && (Rank(s.workers[j].stage) < 5 || 6 < Rank(s.workers[j].stage))
  {
    assert Pos(s.workers[0]) >= Floor(s.workers[j]);
    assert Pos(s.workers[j]) >= Floor(s.workers[0]);
  }

  lemma FreshlyOpened(plan: Plan, t: System, w: nat)
    requires plan.Valid() && Shaped(plan, t) && w < |plan.ops| && t.db == Serving(w, 0, 0) && t.done == 0
    requires forall j :: 0 <= j < |t.workers| ==>
               Pos(t.workers[j]) < 13 * w + 3 && (Rank(t.workers[j].stage) < 5 || 6 < Rank(t.workers[j].stage))
    ensures DbInUse(plan, t, w)
  {
    TallyZero(Active, plan, w, t.workers);
    TallyZero(Finished, plan, w, t.workers);
    TotalPositive(plan, w);
  }

  lemma OpenStep(plan: Plan, s: System)
    requires Inv(plan, s) && s.workers[0].stage.Opening? && s.workers[0].round < |plan.ops|
    ensures DbOk(plan, Next(plan, s, 0))
  {
    var w := s.workers[0].round;
    var t := Next(plan, s, 0);
    assert t == System(s.fence, s.workers[0 := s.workers[0].(stage := Entering)], s.total, s.done, Serving(w, 0, 0));
    forall j | 0 <= j < |t.workers|
      ensures Pos(s.workers[j]) < 13 * w + 3 && Pos(t.workers[j]) < 13 * w + 3
      ensures Rank(t.workers[j].stage) < 5 || 6 < Rank(t.workers[j].stage)
    {
      AllOutsideLoop(plan, s, j);
    }
    TallyZero(Counted, plan, w, s.workers);
    FreshlyOpened(plan, t, w);
  }

  // When thread 0 passes the end gate everybody has finished and the flush is over.
  lemma CompleteAtEnd(plan: Plan, s: System, j: nat)
    requires Base(plan, s) && s.workers[0].stage.EndGate? && AllReached(s, Pos(s.workers[0])) && j < plan.threads
    ensures var w := s.workers[0].round;
            && w < |plan.ops|
            && Part(Counted, plan, w, j, s.workers[j]) == plan.ops[w][j]
            && Rank(s.workers[j].stage) != 6
  {
    var w := s.workers[0].round;
    assert WorkerOk(plan, 0, s.workers[0]);
    assert Pos(s.workers[j]) >= 13 * w + 7;
    assert Pos(s.workers[0]) >= Floor(s.workers[j]);
  }

  // With every operation counted and nobody comparing or flushing, the flush is over.
  lemma NothingInFlight(plan: Plan, s: System, w: nat)
    requires plan.Valid() && Shaped(plan, s) && DbInUse(plan, s, w) && s.done == plan.Total(w)
    requires forall j :: 0 <= j < |s.workers| ==> Rank(s.workers[j].stage) != 6
    ensures s.db == Flushed(w)
  {
  }

  lemma FlushedAtEnd(plan: Plan, s: System)
    requires Inv(plan, s) && s.workers[0].stage.EndGate? && AllReached(s, Pos(s.workers[0]))
    ensures s.db == Flushed(s.workers[0].round)
  {
    var w := s.workers[0].round;
    forall j | 0 <= j < |s.workers|
      ensures w < |plan.ops|
      ensures Part(Counted, plan, w, j, s.workers[j]) == plan.ops[w][j] && Rank(s.workers[j].stage) != 6
    {
      CompleteAtEnd(plan, s, j);
    }
    CompleteAtEnd(plan, s, 0);
    TallyFull(Counted, plan, w, s.workers);
    TotalPositive(plan, w);
    NothingInFlight(plan, s, w);
  }

  lemma FlushedStep(plan: Plan, s: System)
    requires plan.Valid() && Shaped(plan, s) && Rank(s.workers[0].stage) >= 8
    requires s.workers[0].round < |plan.ops| && s.db == Flushed(s.workers[0].round)
    ensures DbOk(plan, Next(plan, s, 0))
  {
  }

  lemma AfterReport(plan: Plan, s: System)
    requires Inv(plan, s) && Rank(s.workers[0].stage) >= 8
    ensures DbOk(plan, Next(plan, s, 0))
  {
    assert WorkerOk(plan, 0, s.workers[0]);
    FlushedStep(plan, s);
  }

  lemma QuietDb(plan: Plan, s: System, i: nat)
    requires plan.Valid() && Shaped(plan, s) && i < plan.threads
    requires Rank(s.workers[i].stage) != 6 || (s.workers[i].stage.Ready? && s.workers[i].stage.left == 0)
    requires i == 0 ==> 1 <= Rank(s.workers[0].stage) <= 7
    requires 3 <= Rank(s.workers[i].stage) <= 10 ==> TouchesKeep(plan, s.db, s.workers[i].round)
    ensures Next(plan, s, i).db == s.db && Next(plan, s, i).done == s.done
    ensures i == 0 ==> Next(plan, s, i).workers[0].round == s.workers[0].round
    ensures i == 0 ==> 1 <= Rank(Next(plan, s, i).workers[0].stage)
    ensures i == 0 && Rank(Next(plan, s, i).workers[0].stage) > 7 ==>
              s.workers[0].stage.EndGate? && AllReached(s, Pos(s.workers[0]))
    ensures Rank(Next(plan, s, 0).workers[0].stage) <= 8 || i != 0
  {
  }

  lemma OutsideLoopStep(plan: Plan, s: System, i: nat)
    requires Inv(plan, s) && i < plan.threads
    requires Rank(s.workers[i].stage) != 6 || (s.workers[i].stage.Ready? && s.workers[i].stage.left == 0)
    requires i == 0 ==> !s.workers[0].stage.Opening?
    ensures DbOk(plan, Next(plan, s, i))
  {
    var r := Rank(s.workers[0].stage);
    if i == 0 && r >= 8 {
      AfterReport(plan, s);
    } else {
      if 3 <= Rank(s.workers[i].stage) <= 10 {
        TouchAllowed(plan, s, i);
      }
      QuietDb(plan, s, i);
      if i == 0 && Rank(Next(plan, s, i).workers[0].stage) > 7 {
        FlushedAtEnd(plan, s);
      } else if 1 <= r < 8 {
        InUseKept(plan, s, i, s.workers[0].round);
      }
    }
  }

  lemma DbStep(plan: Plan, s: System, i: nat)
    requires Inv(plan, s) && i < plan.threads
    ensures DbOk(plan, Next(plan, s, i))
  {
    if s.workers[i].round == |plan.ops| {
      assert Next(plan, s, i) == s by {
        assert s.workers[i := s.workers[i]] == s.workers;
      }
    } else if i == 0 && s.workers[0].stage.Opening? {
      OpenStep(plan, s);
    } else {
      match s.workers[i].stage
      case Ready(left) => if left > 0 { OpBeginStep(plan, s, i); } else { OutsideLoopStep(plan, s, i); }
      case InOp(_) => OpEndStep(plan, s, i);
      case Counting(_) => CountStep(plan, s, i);
      case Checking(_, _) => CheckStep(plan, s, i);
      case InFlush(_) => FlushEndStep(plan, s, i);
      case _ => OutsideLoopStep(plan, s, i);
    }
  }

  lemma InvStep(plan: Plan, s: System, i: nat)
    requires Inv(plan, s) && i < plan.threads
    ensures Inv(plan, Next(plan, s, i))
  {
    BaseStep(plan, s, i);
    CountersStep(plan, s, i);
    TicketsStep(plan, s, i);
    DbStep(plan, s, i);
  }

  lemma InvStart(plan: Plan)
    requires plan.Valid()
    ensures Inv(plan, Start(plan))
  {
    var s := Start(plan);
    F.InitInv(plan.threads);
    TallyZero(Registered, plan, 0, s.workers);
    TallyZero(Counted, plan, 0, s.workers);
  }

  // ----- runs -----

  predicate IsSchedule(plan: Plan, schedule: seq<nat>) {
    Turns(schedule, plan.threads)
  }

  function Run(plan: Plan, schedule: seq<nat>): (s: System)
    requires plan.Valid() && IsSchedule(plan, schedule)
    ensures Shaped(plan, s)
  {
    if schedule == [] then Start(plan)
    else
      var last := |schedule| - 1;
      Next(plan, Run(plan, schedule[..last]), schedule[last])
  }

  // Everything the database saw during the run.
  function Trace(plan: Plan, schedule: seq<nat>): seq<Event>
    requires plan.Valid() && IsSchedule(plan, schedule)
  {
    if schedule == [] then []
    else
      var last := |schedule| - 1;
      Trace(plan, schedule[..last]) + Advance(plan, Run(plan, schedule[..last]), schedule[last]).events
  }

  lemma ReplayStep(plan: Plan, before: seq<Event>, s: System, i: nat)
    requires plan.Valid() && Shaped(plan, s) && i < plan.threads
    requires Replay(plan, Closed(0), before) == s.db
    ensures Replay(plan, Closed(0), before + Advance(plan, s, i).events) == Next(plan, s, i).db
  {
    var events := Advance(plan, s, i).events;
    if events == [] {
      assert before + events == before;
    } else {
      assert |events| == 1;
      assert (before + events)[..|before|] == before;
    }
  }

  lemma {:induction false} RunInv(plan: Plan, schedule: seq<nat>)
    requires plan.Valid() && IsSchedule(plan, schedule)
    ensures Inv(plan, Run(plan, schedule))
    ensures Replay(plan, Closed(0), Trace(plan, schedule)) == Run(plan, schedule).db
  {
    if schedule == [] {
      InvStart(plan);
    } else {
      var last := |schedule| - 1;
      var s := Run(plan, schedule[..last]);
      RunInv(plan, schedule[..last]);
      InvStep(plan, s, schedule[last]);
      ReplayStep(plan, Trace(plan, schedule[..last]), s, schedule[last]);
    }
  }

  // For every number of threads, every list of workloads and every interleaving
  // the database only ever sees what the sequential protocol allows.
  lemma ProtocolHolds(plan: Plan, schedule: seq<nat>)
    requires plan.Valid() && IsSchedule(plan, schedule)
    ensures Replay(plan, Closed(0), Trace(plan, schedule)) != Misused
  {
    RunInv(plan, schedule);
  }

  // ----- what the protocol means for a trace -----

  // How often each event of one workload occurs in a trace.
  datatype History = History(opens: nat, begins: nat, ends: nat, flushes: nat, flushed: nat, closes: nat)

  ghost function Seen(trace: seq<Event>, w: nat): History {
    var m := multiset(trace);
    History(m[OpenDb(w)], m[OpBegin(w)], m[OpEnd(w)], m[FlushBegin(w)], m[FlushEnd(w)], m[CloseDb(w)])
  }

  const NOTHING := History(0, 0, 0, 0, 0, 0)

  function Bump(h: History, e: Event): History {
    match e
    case OpenDb(_) => h.(opens := h.opens + 1)
    case OpBegin(_) => h.(begins := h.begins + 1)
    case OpEnd(_) => h.(ends := h.ends + 1)
    case FlushBegin(_) => h.(flushes := h.flushes + 1)
    case FlushEnd(_) => h.(flushed := h.flushed + 1)
    case CloseDb(_) => h.(closes := h.closes + 1)
    case _ => h
  }

  lemma SeenAppend(trace: seq<Event>, e: Event, w: nat)
    ensures Seen(trace + [e], w) == if e.workload == w then Bump(Seen(trace, w), e) else Seen(trace, w)
  {
    assert multiset(trace + [e]) == multiset(trace) + multiset{e};
  }

  function Whole(plan: Plan, w: nat): History {
    History(1, plan.Total(w), plan.Total(w), 1, 1, 1)
  }

  // Workload w has been opened, run, flushed and closed, each exactly once.
  ghost predicate Complete(plan: Plan, trace: seq<Event>, w: nat) {
    Seen(trace, w) == Whole(plan, w)
  }

  // The history of the current workload in each state of the protocol.
  function Expected(plan: Plan, db: Db): History
    requires !db.Misused?
  {
    match db
    case Closed(_) => NOTHING
    case Serving(_, active, finished) => History(1, active + finished, finished, 0, 0, 0)
    case Flushing(w) => History(1, plan.Total(w), plan.Total(w), 1, 0, 0)
    case Flushed(w) => History(1, plan.Total(w), plan.Total(w), 1, 1, 0)
  }

  ghost predicate Describes(plan: Plan, trace: seq<Event>, db: Db) {
    db.Misused? ||
    forall v: nat :: Seen(trace, v) ==
      if v < db.workload then Whole(plan, v)
      else if v == db.workload then Expected(plan, db)
      else NOTHING
  }

  lemma AllowedEvent(plan: Plan, db: Db, e: Event)
    requires !Observe(plan, db, e).Misused?
    ensures var next := Observe(plan, db, e);
            && !db.Misused? && e.workload == db.workload
            && if e.CloseDb?
               then next == Closed(db.workload + 1) && Bump(Expected(plan, db), e) == Whole(plan, db.workload)
               else next.workload == db.workload && Bump(Expected(plan, db), e) == Expected(plan, next)
  {
  }

  lemma DescribesStep(plan: Plan, trace: seq<Event>, db: Db, e: Event)
    requires Describes(plan, trace, db)
    ensures Describes(plan, trace + [e], Observe(plan, db, e))
  {
    var next := Observe(plan, db, e);
    if !next.Misused? {
      AllowedEvent(plan, db, e);
      forall v: nat
        ensures Seen(trace + [e], v) ==
                if v < next.workload then Whole(plan, v)
                else if v == next.workload then Expected(plan, next)
                else NOTHING
      {
        SeenAppend(trace, e, v);
      }
    }
  }

  lemma {:induction false} TraceDescribed(plan: Plan, trace: seq<Event>)
    ensures Describes(plan, trace, Replay(plan, Closed(0), trace))
  {
    if trace != [] {
      var last := |trace| - 1;
      TraceDescribed(plan, trace[..last]);
      DescribesStep(plan, trace[..last], Replay(plan, Closed(0), trace[..last]), trace[last]);
      assert trace == trace[..last] + [trace[last]];
    }
  }

  lemma {:induction false} ReplayPrefix(plan: Plan, trace: seq<Event>, k: nat)
    requires k <= |trace| && Replay(plan, Closed(0), trace) != Misused
    ensures Replay(plan, Closed(0), trace[..k]) != Misused
  {
    if k < |trace| {
      var last := |trace| - 1;
      assert trace[..last][..k] == trace[..k];
      ReplayPrefix(plan, trace[..last], k);
    } else {
      assert trace[..k] == trace;
    }
  }

  // Lifecycle, as the history at the moment of an event: a workload is opened
  // after all earlier ones have been closed; an operation happens after its
  // workload was opened and before it was flushed or closed; the flush begins
  // when all operations of all threads have ended, and only once; the database is
  // closed after that flush has ended.
  ghost predicate Timely(plan: Plan, before: seq<Event>, e: Event) {
    var h, total := Seen(before, e.workload), plan.Total(e.workload);
    && (e.OpenDb? ==> h == NOTHING && forall v: nat :: v < e.workload ==> Seen(before, v) == Whole(plan, v))
    && (e.OpBegin? || e.OpEnd? ==> h.opens == 1 && h.flushes == h.closes == 0)
    && (e.OpEnd? ==> h.ends < h.begins)
    && (e.FlushBegin? ==> h.opens == 1 && h.begins == h.ends == total && h.flushes == h.closes == 0)
    && (e.FlushEnd? ==> h.flushes == 1 && h.flushed == h.closes == 0)
    && (e.CloseDb? ==> h.ends == total && h.flushed == 1 && h.closes == 0)
    && (Touches(e, e.workload) ==> h.opens == 1 && h.closes == 0)
  }

  lemma DescribedTimely(plan: Plan, before: seq<Event>, db: Db, e: Event)
    requires Describes(plan, before, db) && Observe(plan, db, e) != Misused
    ensures Timely(plan, before, e)
  {
  }

  lemma AcceptedTimely(plan: Plan, trace: seq<Event>, k: nat)
    requires k < |trace| && Replay(plan, Closed(0), trace) != Misused
    ensures Timely(plan, trace[..k], trace[k])
  {
    ReplayPrefix(plan, trace, k + 1);
    assert trace[..k + 1][..k] == trace[..k];
    TraceDescribed(plan, trace[..k]);
    DescribedTimely(plan, trace[..k], Replay(plan, Closed(0), trace[..k]), trace[k]);
  }

  // Every event of every run is timely.
  lemma Lifecycle(plan: Plan, schedule: seq<nat>, k: nat)
    requires plan.Valid() && IsSchedule(plan, schedule) && k < |Trace(plan, schedule)|
    ensures Timely(plan, Trace(plan, schedule)[..k], Trace(plan, schedule)[k])
  {
    ProtocolHolds(plan, schedule);
    AcceptedTimely(plan, Trace(plan, schedule), k);
  }

  // ----- progress -----

  // Thread i has work left and its next step does not spin.
  predicate Advances(plan: Plan, s: System, i: nat)
    requires Shaped(plan, s) && i < plan.threads
  {
    s.workers[i].round < |plan.ops| &&
    match s.workers[i].stage
    case Sync1 => s.fence.threads[i].pc.Out? || F.Moves(s.fence, i)
    case Sync2 => s.fence.threads[i].pc.Out? || F.Moves(s.fence, i)
    case StartGate => AllReached(s, Pos(s.workers[i]))
    case EndGate => AllReached(s, Pos(s.workers[i]))
    case _ => true
  }

  lemma {:induction false} Hindmost(workers: seq<Worker>) returns (i: nat)
    requires workers != []
    ensures i < |workers| && forall j :: 0 <= j < |workers| ==> Pos(workers[j]) >= Pos(workers[i])
  {
    i := 0;
    for k := 1 to |workers|
      invariant 0 <= i < |workers| && forall j :: 0 <= j < k ==> Pos(workers[j]) >= Pos(workers[i])
    {
      if Pos(workers[k]) < Pos(workers[i]) { i := k; }
    }
  }

  // The hindmost thread is never held up by others.
  lemma HindmostAdvances(plan: Plan, s: System, i: nat) returns (j: nat)
    requires Base(plan, s) && i < plan.threads && s.workers[i].round < |plan.ops|
    requires AllReached(s, Pos(s.workers[i]))
    ensures j < plan.threads && Advances(plan, s, j)
  {
    j := i;
    if (s.workers[i].stage.Sync1? || s.workers[i].stage.Sync2?) && !s.fence.threads[i].pc.Out? {
      j := F.SomeoneMoves(s.fence, i);
      assert Coupled(s.fence.threads[i], s.workers[i]);
      assert Coupled(s.fence.threads[j], s.workers[j]);
      assert WorkerOk(plan, j, s.workers[j]);
      assert Pos(s.workers[j]) >= Pos(s.workers[i]);
    }
  }

  // Some thread can take a step that does not spin while thread k has a workload left.
  lemma SomeoneAdvances(plan: Plan, s: System, k: nat) returns (j: nat)
    requires Base(plan, s) && k < plan.threads && s.workers[k].round < |plan.ops|
    ensures j < plan.threads && Advances(plan, s, j)
  {
    var i := Hindmost(s.workers);
    assert Pos(s.workers[k]) < 13 * |plan.ops|;
    j := HindmostAdvances(plan, s, i);
  }

  // Every thread is through with every workload.
  ghost predicate Through(plan: Plan, s: System)
    requires |s.workers| == plan.threads
  {
    forall i :: 0 <= i < plan.threads ==> s.workers[i].round == |plan.ops|
  }

  lemma AllThrough(plan: Plan, s: System)
    requires Inv(plan, s) && Through(plan, s)
    ensures s.db == Closed(|plan.ops|) && s.total == s.done == 0
  {
    assert WorkerOk(plan, 0, s.workers[0]);
    forall j | 0 <= j < |s.workers| ensures Pos(s.workers[j]) < 13 * |plan.ops| + 5 {
      assert WorkerOk(plan, j, s.workers[j]);
    }
    TallyZero(Registered, plan, |plan.ops|, s.workers);
    TallyZero(Counted, plan, |plan.ops|, s.workers);
  }

  lemma DescribedComplete(plan: Plan, trace: seq<Event>)
    requires Describes(plan, trace, Closed(|plan.ops|))
    ensures forall w :: 0 <= w < |plan.ops| ==> Complete(plan, trace, w)
  {
  }

  // No deadlock: as long as some thread has a workload left, some thread can
  // take a step that does not spin; when all have finished, the database is
  // closed and every workload went through its whole life.
  lemma NoDeadlock(plan: Plan, schedule: seq<nat>)
    requires plan.Valid() && IsSchedule(plan, schedule)
    ensures var s := Run(plan, schedule);
            if !Through(plan, s)
            then exists i :: 0 <= i < plan.threads && Advances(plan, s, i)
            else
              && s.db == Closed(|plan.ops|)
              && s.total == s.done == 0
              && forall w :: 0 <= w < |plan.ops| ==> Complete(plan, Trace(plan, schedule), w)
  {
    var s := Run(plan, schedule);
    RunInv(plan, schedule);
    if Through(plan, s) {
      AllThrough(plan, s);
      TraceDescribed(plan, Trace(plan, schedule));
      DescribedComplete(plan, Trace(plan, schedule));
    } else {
      var k :| 0 <= k < plan.threads && s.workers[k].round != |plan.ops|;
      assert WorkerOk(plan, k, s.workers[k]);
      var i := SomeoneAdvances(plan, s, k);
    }
  }

  // Steps thread i needs for the workloads from w on.
  function FutureCost(plan: Plan, i: nat, w: nat): nat
    requires plan.Valid() && i < plan.threads && w <= |plan.ops|
    decreases |plan.ops| - w
  {
    if w == |plan.ops| then 0 else 6 * plan.ops[w][i] + 40 + FutureCost(plan, i, w + 1)
  }

  // Upper bound on the steps left in the current workload.
  function StageCost(stage: Stage, pc: F.Pc, ops: nat): nat {
    match stage
    case Opening => 6 * ops + 39
    case Entering => 6 * ops + 38
    case Sync1 => 6 * ops + 29 + F.PcRank(pc)
    case Creating => 6 * ops + 28
    case Registering => 6 * ops + 27
    case StartGate => 6 * ops + 26
    case Ready(left) => 6 * left + 25
    case InOp(left) => 6 * left + 24
    case Counting(left) => 6 * left + 23
    case Checking(left, _) => 6 * left + 22
    case InFlush(left) => 6 * left + 21
    case EndGate => 24
    case Reporting => 23
    case Committing => 22
    case Leaving => 21
    case Sync2 => 12 + F.PcRank(pc)
    case Closing => 11
  }

  function Cost(plan: Plan, i: nat, wk: Worker, pc: F.Pc): nat
    requires plan.Valid() && i < plan.threads && WorkerOk(plan, i, wk)
  {
    if wk.round == |plan.ops| then 0
    else StageCost(wk.stage, pc, plan.ops[wk.round][i]) + FutureCost(plan, i, wk.round + 1)
  }

  ghost function Costs(plan: Plan, s: System): (c: seq<nat>)
    requires plan.Valid() && Shaped(plan, s)
    ensures |c| == plan.threads
  {
    seq(plan.threads, i requires 0 <= i < plan.threads => Cost(plan, i, s.workers[i], s.fence.threads[i].pc))
  }

  lemma LoopCheaper(plan: Plan, s: System, i: nat)
    requires plan.Valid() && Shaped(plan, s) && i < plan.threads
    requires s.workers[i].round < |plan.ops| && Rank(s.workers[i].stage) == 6
    ensures var t := Next(plan, s, i);
            Cost(plan, i, t.workers[i], t.fence.threads[i].pc) < Cost(plan, i, s.workers[i], s.fence.threads[i].pc)
  {
  }

  lemma MoverCheaper(plan: Plan, s: System, i: nat)
    requires plan.Valid() && Shaped(plan, s) && i < plan.threads && Advances(plan, s, i)
    requires Coupled(s.fence.threads[i], s.workers[i])
    ensures var t := Next(plan, s, i);
            Cost(plan, i, t.workers[i], t.fence.threads[i].pc) < Cost(plan, i, s.workers[i], s.fence.threads[i].pc)
  {
    if Rank(s.workers[i].stage) == 6 {
      LoopCheaper(plan, s, i);
    }
  }

  lemma SpinChangesNothing(plan: Plan, s: System, i: nat)
    requires plan.Valid() && Shaped(plan, s) && i < plan.threads && !Advances(plan, s, i)
    ensures Next(plan, s, i) == s
  {
    assert s.workers[i := s.workers[i]] == s.workers;
  }

  // A step that does not spin uses up the measure; a spinning one changes nothing.
  lemma StepDecreases(plan: Plan, s: System, i: nat)
    requires Base(plan, s) && i < plan.threads
    ensures var t := Next(plan, s, i);
            if Advances(plan, s, i) then Sum(Costs(plan, t)) < Sum(Costs(plan, s)) else t == s
  {
    var t := Next(plan, s, i);
    assert Coupled(s.fence.threads[i], s.workers[i]);
    if Advances(plan, s, i) {
      MoverCheaper(plan, s, i);
      FenceStepLocal(s.fence, i);
      var c := Cost(plan, i, t.workers[i], t.fence.threads[i].pc);
      SumUpdate(Costs(plan, s), i, c);
      assert Costs(plan, t) == Costs(plan, s)[i := c];
    } else {
      SpinChangesNothing(plan, s, i);
    }
  }

  // The steps of a run that did not spin.
  function Productive(plan: Plan, schedule: seq<nat>): nat
    requires plan.Valid() && IsSchedule(plan, schedule)
  {
    if schedule == [] then 0
    else
      var last := |schedule| - 1;
      Productive(plan, schedule[..last]) +
      if Advances(plan, Run(plan, schedule[..last]), schedule[last]) then 1 else 0
  }

  // Termination: no run has more productive steps than the initial measure.
  lemma {:induction false} BoundedWork(plan: Plan, schedule: seq<nat>)
    requires plan.Valid() && IsSchedule(plan, schedule)
    ensures Productive(plan, schedule) + Sum(Costs(plan, Run(plan, schedule))) <= Sum(Costs(plan, Start(plan)))
  {
    if schedule != [] {
      var last := |schedule| - 1;
      BoundedWork(plan, schedule[..last]);
      RunInv(plan, schedule[..last]);
      StepDecreases(plan, Run(plan, schedule[..last]), schedule[last]);
    }
  }

  // ----- fair runs -----

  // Turns that are enough for the workloads from w on.
  function TurnsFrom(plan: Plan, w: nat): nat
    requires plan.Valid() && w <= |plan.ops|
    decreases |plan.ops| - w
  {
    if w == |plan.ops| then 0 else 6 * plan.Total(w) + 40 * plan.threads + TurnsFrom(plan, w + 1)
  }

  ghost function FutureCosts(plan: Plan, w: nat): (c: seq<nat>)
    requires plan.Valid() && w <= |plan.ops|
    ensures |c| == plan.threads
  {
    seq(plan.threads, i requires 0 <= i < plan.threads => FutureCost(plan, i, w))
  }

  lemma {:induction false} TurnsForAll(plan: Plan, w: nat)
    requires plan.Valid() && w <= |plan.ops|
    ensures Sum(FutureCosts(plan, w)) == TurnsFrom(plan, w)
    decreases |plan.ops| - w
  {
    if w == |plan.ops| {
      SumConstant(FutureCosts(plan, w), 0);
    } else {
      TurnsForAll(plan, w + 1);
      SumAffine(plan.ops[w], FutureCosts(plan, w + 1), FutureCosts(plan, w), 6, 40);
    }
  }

  ghost function Measure(plan: Plan, s: System): nat
    requires plan.Valid() && Shaped(plan, s)
  {
    Sum(Costs(plan, s))
  }

  // The initial measure in terms of the workloads.
  lemma MeasureAtStart(plan: Plan)
    requires plan.Valid()
    ensures Measure(plan, Start(plan)) <= TurnsFrom(plan, 0)
  {
    SumMonotone(Costs(plan, Start(plan)), FutureCosts(plan, 0));
    TurnsForAll(plan, 0);
  }

  lemma AppendTurn(plan: Plan, before: seq<nat>, block: seq<nat>, i: nat)
    requires plan.Valid() && IsSchedule(plan, before + block) && i < plan.threads
    ensures IsSchedule(plan, before + (block + [i]))
    ensures Run(plan, before + (block + [i])) == Next(plan, Run(plan, before + block), i)
  {
    var turns := before + (block + [i]);
    assert turns[..|turns| - 1] == before + block;
  }

  // The turns of a block that lead from s to t used up the measure, or none of them could.
  ghost predicate Worked(plan: Plan, s: System, t: System, block: seq<nat>)
    requires plan.Valid() && Shaped(plan, s) && Shaped(plan, t) && IsSchedule(plan, block)
  {
    || Measure(plan, t) < Measure(plan, s)
    || (t == s && forall m :: 0 <= m < |block| ==> !Advances(plan, s, block[m]))
  }

  lemma WorkedOn(plan: Plan, s: System, t: System, block: seq<nat>, i: nat)
    requires plan.Valid() && Shaped(plan, s) && IsSchedule(plan, block) && i < plan.threads
    requires Base(plan, t) && Worked(plan, s, t, block)
    ensures IsSchedule(plan, block + [i]) && Worked(plan, s, Next(plan, t, i), block + [i])
  {
    StepDecreases(plan, t, i);
  }

  ghost predicate BlockWorked(plan: Plan, before: seq<nat>, block: seq<nat>)
    requires plan.Valid() && IsSchedule(plan, before)
  {
    && IsSchedule(plan, block) && IsSchedule(plan, before + block)
    && Worked(plan, Run(plan, before), Run(plan, before + block), block)
  }

  lemma BlockGrows(plan: Plan, before: seq<nat>, block: seq<nat>, i: nat)
    requires plan.Valid() && IsSchedule(plan, before) && BlockWorked(plan, before, block) && i < plan.threads
    ensures BlockWorked(plan, before, block + [i])
  {
    AppendTurn(plan, before, block, i);
    RunInv(plan, before + block);
    WorkedOn(plan, Run(plan, before), Run(plan, before + block), block, i);
  }

  ghost predicate Unchanged(plan: Plan, before: seq<nat>, block: seq<nat>)
    requires plan.Valid() && IsSchedule(plan, before)
  {
    IsSchedule(plan, before + block) && Run(plan, before + block) == Run(plan, before)
  }

  lemma EmptyBlock(plan: Plan, before: seq<nat>)
    requires plan.Valid() && IsSchedule(plan, before)
    ensures BlockWorked(plan, before, []) && Unchanged(plan, before, [])
  {
    assert before + [] == before;
  }

  lemma {:induction false} BlockWorks(plan: Plan, before: seq<nat>, block: seq<nat>)
    requires plan.Valid() && IsSchedule(plan, before) && IsSchedule(plan, block)
    ensures BlockWorked(plan, before, block)
  {
    if block == [] {
      EmptyBlock(plan, before);
    } else {
      var n := |block| - 1;
      assert block[..n] + [block[n]] == block;
      BlockWorks(plan, before, block[..n]);
      BlockGrows(plan, before, block[..n], block[n]);
    }
  }

  lemma StaysOn(plan: Plan, before: seq<nat>, block: seq<nat>, i: nat)
    requires plan.Valid() && IsSchedule(plan, before) && Unchanged(plan, before, block) && i < plan.threads
    requires Through(plan, Run(plan, before))
    ensures Unchanged(plan, before, block + [i])
  {
    AppendTurn(plan, before, block, i);
    SpinChangesNothing(plan, Run(plan, before), i);
  }

  // Who is through stays there.
  lemma {:induction false} ThroughStays(plan: Plan, before: seq<nat>, block: seq<nat>)
    requires plan.Valid() && IsSchedule(plan, before) && IsSchedule(plan, block)
    requires Through(plan, Run(plan, before))
    ensures Unchanged(plan, before, block)
  {
    if block == [] {
      EmptyBlock(plan, before);
    } else {
      var n := |block| - 1;
      assert block[..n] + [block[n]] == block;
      ThroughStays(plan, before, block[..n]);
      StaysOn(plan, before, block[..n], block[n]);
    }
  }

  lemma TurnThatAdvances(plan: Plan, before: seq<nat>, block: seq<nat>) returns (m: nat)
    requires plan.Valid() && IsSchedule(plan, before) && IsSchedule(plan, block) && Covers(block, plan.threads)
    requires !Through(plan, Run(plan, before))
    ensures m < |block| && Advances(plan, Run(plan, before), block[m])
  {
    NoDeadlock(plan, before);
    var i :| 0 <= i < plan.threads && Advances(plan, Run(plan, before), i);
    assert i in block;
    m :| 0 <= m < |block| && block[m] == i;
  }

  // A block with a turn for every thread uses up the measure until all are through.
  lemma BlockDecreases(plan: Plan, before: seq<nat>, block: seq<nat>)
    requires plan.Valid() && IsSchedule(plan, before) && IsSchedule(plan, block) && Covers(block, plan.threads)
    ensures IsSchedule(plan, before + block)
    ensures if Through(plan, Run(plan, before)) then Run(plan, before + block) == Run(plan, before)
            else Measure(plan, Run(plan, before + block)) < Measure(plan, Run(plan, before))
  {
    if Through(plan, Run(plan, before)) {
      ThroughStays(plan, before, block);
    } else {
      BlockWorks(plan, before, block);
      var m := TurnThatAdvances(plan, before, block);
    }
  }

  lemma {:induction false} FairProgress(plan: Plan, blocks: seq<seq<nat>>)
    requires plan.Valid() && Fair(blocks, plan.threads)
    ensures IsSchedule(plan, Concat(blocks))
    ensures Through(plan, Run(plan, Concat(blocks))) ||
            |blocks| + Measure(plan, Run(plan, Concat(blocks))) <= Measure(plan, Start(plan))
    decreases |blocks|
  {
    FairTurns(blocks, plan.threads);
    if blocks != [] {
      var last := |blocks| - 1;
      FairProgress(plan, blocks[..last]);
      ConcatLast(blocks);
      BlockDecreases(plan, Concat(blocks[..last]), blocks[last]);
    }
  }

  // Fair runs end: after 6 blocks for each operation and 40 for each thread and
  // workload, or more, every thread is through, so (NoDeadlock) everything has
  // been run, flushed and closed.
  lemma FairRunFinishes(plan: Plan, blocks: seq<seq<nat>>)
    requires plan.Valid() && Fair(blocks, plan.threads) && |blocks| >= TurnsFrom(plan, 0)
    ensures IsSchedule(plan, Concat(blocks)) && Through(plan, Run(plan, Concat(blocks)))
  {
    MeasureAtStart(plan);
    FairProgress(plan, blocks);
    var schedule := Concat(blocks);
    if !Through(plan, Run(plan, schedule)) {
      NoDeadlock(plan, schedule);
      var i :| 0 <= i < plan.threads && Advances(plan, Run(plan, schedule), i);
      RunInv(plan, schedule);
      StepDecreases(plan, Run(plan, schedule), i);
    }
  }
}
