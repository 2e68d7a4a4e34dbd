// timer_t (src/core/timer.hpp): the pausing timer with two accumulators. The
// clock is a parameter of every call that reads it.
module Timer {
  datatype Mode = Stopped | Running | Paused

  datatype TimerState = TimerState(
    mode: Mode,
    startTime: int,
    elapsed: int,
    operationsStartTime: int,
    operationsElapsed: int)

  // The calls, each with the clock reading.
  datatype Event =
    | Start(at: int)
    | Pause(at: int)
    | Resume(at: int)
    | Stop(at: int)
    | AskOperations(at: int)
    | AskElapsed(at: int)

  // The assertions of the source on the timer's state.
  predicate Legal(mode: Mode, e: Event) {
    match e
    case Start(_) => mode.Stopped?
    case Pause(_) => mode.Running?
    case Resume(_) => mode.Paused?
    case Stop(_) => mode.Running?
    case _ => true
  }

  function NextMode(mode: Mode, e: Event): Mode {
    match e
    case Start(_) => Running
    case Pause(_) => Paused
    case Resume(_) => Running
    case Stop(_) => Stopped
    case _ => mode
  }

  // recalculate_operations_elapsed_time and recalculate_elapsed_time.
  function RefreshOperations(s: TimerState, now: int): TimerState {
    s.(operationsElapsed := s.operationsElapsed + (now - s.operationsStartTime), operationsStartTime := now)
  }

  function RefreshElapsed(s: TimerState, now: int): TimerState {
    s.(elapsed := s.elapsed + (now - s.startTime), startTime := now)
  }

  function Apply(s: TimerState, e: Event): TimerState {
    match e
    case Start(now) => TimerState(Running, now, 0, now, 0)
    case Pause(now) => RefreshOperations(s, now).(mode := Paused)
    case Resume(now) => s.(operationsStartTime := now, mode := Running)
    case Stop(now) => RefreshOperations(s, now).(mode := Stopped)
    case AskOperations(now) => if s.mode.Running? then RefreshOperations(s, now) else s
    case AskElapsed(now) => if s.mode.Stopped? then s else RefreshElapsed(s, now)
  }

  class Timer {
    var mode: Mode
    var startTime: int
    var elapsed: int
    var operationsStartTime: int
    var operationsElapsed: int

    function State(): TimerState
      reads this
    {
      TimerState(mode, startTime, elapsed, operationsStartTime, operationsElapsed)
    }

    constructor ()
      ensures mode == Stopped && elapsed == 0 && operationsElapsed == 0
    {
      mode, startTime, elapsed, operationsStartTime, operationsElapsed := Stopped, 0, 0, 0, 0;
    }

    method RecalculateOperations(now: int)
      modifies this`operationsElapsed, this`operationsStartTime
      ensures State() == RefreshOperations(old(State()), now)
    {
      operationsElapsed := operationsElapsed + (now - operationsStartTime);
      operationsStartTime := now;
    }

    method DoStart(now: int)
      requires mode.Stopped?
      modifies this
      ensures State() == Apply(old(State()), Start(now))
    {
      elapsed := 0;
      operationsElapsed := 0;
      startTime := now;
      operationsStartTime := now;
      mode := Running;
    }

    method DoPause(now: int)
      requires mode.Running?
      modifies this
      ensures State() == Apply(old(State()), Pause(now))
    {
      RecalculateOperations(now);
      mode := Paused;
    }

    method DoResume(now: int)
      requires mode.Paused?
      modifies this
      ensures State() == Apply(old(State()), Resume(now))
    {
      operationsStartTime := now;
      mode := Running;
    }

    method DoStop(now: int)
      requires mode.Running?
      modifies this
      ensures State() == Apply(old(State()), Stop(now))
    {
      RecalculateOperations(now);
      mode := Stopped;
    }

    method OperationsElapsedTime(now: int) returns (time: int)
      modifies this
      ensures State() == Apply(old(State()), AskOperations(now)) && time == operationsElapsed
    {
      if mode.Running? {
        RecalculateOperations(now);
      }
      time := operationsElapsed;
    }

    method ElapsedTime(now: int) returns (time: int)
      modifies this
      ensures State() == Apply(old(State()), AskElapsed(now)) && time == elapsed
    {
      if !mode.Stopped? {
        elapsed := elapsed + (now - startTime);
        startTime := now;
      }
      time := elapsed;
    }
  }

  // ----- what a history of calls amounts to, without accumulators -----

  function ModeAfter(h: seq<Event>): Mode {
    if h == [] then Stopped else NextMode(ModeAfter(h[..|h| - 1]), h[|h| - 1])
  }

  // Legal calls under a clock that never goes back.
  ghost predicate LegalHistory(h: seq<Event>) {
    h == [] ||
    (var n := |h| - 1;
     && LegalHistory(h[..n])
     && Legal(ModeAfter(h[..n]), h[n])
     && (n > 0 ==> h[n - 1].at <= h[n].at))
  }

  function LastTime(h: seq<Event>): int {
    if h == [] then 0 else h[|h| - 1].at
  }

  // Time spent in the given mode since the last start, up to now.
  function Spent(mode: Mode, h: seq<Event>, now: int): int {
    if h == [] then 0
    else
      var last := h[|h| - 1];
      (if last.Start? then 0 else Spent(mode, h[..|h| - 1], last.at))
      + if ModeAfter(h) == mode then now - last.at else 0
  }

  function Initial(): TimerState {
    TimerState(Stopped, 0, 0, 0, 0)
  }

  function After(h: seq<Event>): TimerState {
    if h == [] then Initial() else Apply(After(h[..|h| - 1]), h[|h| - 1])
  }

  // What the two queries answer after a history.
  function OperationsAnswer(h: seq<Event>, now: int): int {
    Apply(After(h), AskOperations(now)).operationsElapsed
  }

  function ElapsedAnswer(h: seq<Event>, now: int): int {
    Apply(After(h), AskElapsed(now)).elapsed
  }

  // The accumulators and start times against the history.
  ghost predicate Tracks(h: seq<Event>, s: TimerState, now: int) {
    && s.mode == ModeAfter(h)
    && Spent(Running, h, now) == s.operationsElapsed + (if s.mode.Running? then now - s.operationsStartTime else 0)
    && (!s.mode.Stopped? ==> Spent(Running, h, now) + Spent(Paused, h, now) == s.elapsed + (now - s.startTime))
  }

  lemma {:induction false} HistoryTracked(h: seq<Event>, now: int)
    requires LegalHistory(h)
    ensures Tracks(h, After(h), now)
  {
    if h != [] {
      HistoryTracked(h[..|h| - 1], h[|h| - 1].at);
    }
  }

  // When the elapsed time was last brought up to date: by the last start, or by
  // a query while the timer was not stopped.
  function LastRefresh(h: seq<Event>): int {
    if h == [] then 0
    else
      var before, last := h[..|h| - 1], h[|h| - 1];
      if last.Start? || (last.AskElapsed? && !ModeAfter(before).Stopped?) then last.at else LastRefresh(before)
  }

  function LastStop(h: seq<Event>): int {
    if h == [] then 0
    else if h[|h| - 1].Stop? then h[|h| - 1].at
    else LastStop(h[..|h| - 1])
  }

  // The time before the last stop that no query has brought into the elapsed time.
  function Unrefreshed(h: seq<Event>): int {
    if ModeAfter(h).Stopped? then LastStop(h) - LastRefresh(h) else 0
  }

  lemma {:induction false} StoppedTracked(h: seq<Event>, now: int)
    requires LegalHistory(h)
    ensures After(h).startTime == LastRefresh(h)
    ensures ModeAfter(h).Stopped? ==>
              After(h).elapsed + Unrefreshed(h) == Spent(Running, h, now) + Spent(Paused, h, now)
  {
    if h != [] {
      StoppedTracked(h[..|h| - 1], h[|h| - 1].at);
      HistoryTracked(h, now);
      HistoryTracked(h[..|h| - 1], h[|h| - 1].at);
    }
  }

  // Operations time is the total time spent running. Elapsed time is that plus
  // the time spent paused, less what was unrefreshed when the timer stopped.
  lemma TimerConservation(h: seq<Event>, now: int)
    requires LegalHistory(h) && LastTime(h) <= now
    ensures OperationsAnswer(h, now) == Spent(Running, h, now)
    ensures ElapsedAnswer(h, now) + Unrefreshed(h) == OperationsAnswer(h, now) + Spent(Paused, h, now)
  {
    HistoryTracked(h, now);
    StoppedTracked(h, now);
  }

  // So the two times add up exactly when the timer is not stopped, or was
  // stopped at the moment of its start or of a query for the elapsed time.
  lemma ConservedIff(h: seq<Event>, now: int)
    requires LegalHistory(h) && LastTime(h) <= now
    ensures ElapsedAnswer(h, now) == OperationsAnswer(h, now) + Spent(Paused, h, now) <==>
            ModeAfter(h) != Stopped || LastStop(h) == LastRefresh(h)
  {
    TimerConservation(h, now);
  }

  // ----- queries -----

  predicate IsQuery(e: Event) {
    e.AskOperations? || e.AskElapsed?
  }

  // The history without its queries.
  function Commands(h: seq<Event>): seq<Event> {
    if h == [] then []
    else
      var before, last := Commands(h[..|h| - 1]), h[|h| - 1];
      if IsQuery(last) then before else before + [last]
  }

  lemma CommandsStep(h: seq<Event>)
    requires h != []
    ensures var n := |h| - 1;
            Commands(h) == if IsQuery(h[n]) then Commands(h[..n]) else Commands(h[..n]) + [h[n]]
    ensures var c := Commands(h[..|h| - 1]) + [h[|h| - 1]]; c[..|c| - 1] == Commands(h[..|h| - 1])
  {
  }

  lemma {:induction false} CommandsLegal(h: seq<Event>)
    requires LegalHistory(h)
    ensures LegalHistory(Commands(h)) && ModeAfter(Commands(h)) == ModeAfter(h)
    ensures h != [] && Commands(h) != [] ==> LastTime(Commands(h)) <= LastTime(h)
    ensures h == [] ==> Commands(h) == []
  {
    if h != [] {
      CommandsStep(h);
      CommandsLegal(h[..|h| - 1]);
    }
  }

  // The time since the last event counts the same whether or not it is split by a query.
  lemma SpentShifts(h: seq<Event>, mode: Mode, at: int, now: int)
    requires !mode.Stopped?
    ensures Spent(mode, h, now) == Spent(mode, h, at) + if ModeAfter(h) == mode then now - at else 0
  {
  }

  lemma {:induction false} CommandsSpend(h: seq<Event>, mode: Mode, now: int)
    requires LegalHistory(h) && !mode.Stopped?
    ensures Spent(mode, Commands(h), now) == Spent(mode, h, now)
  {
    if h != [] {
      var n := |h| - 1;
      CommandsStep(h);
      CommandsLegal(h);
      CommandsSpend(h[..n], mode, h[n].at);
      CommandsLegal(h[..n]);
      if IsQuery(h[n]) {
        SpentShifts(Commands(h[..n]), mode, h[n].at, now);
      }
    }
  }

  // Extra queries never change a later answer while the timer is not stopped,
  // and never change the operations time at all.
  lemma QueriesAreHarmless(h: seq<Event>, now: int)
    requires LegalHistory(h) && LastTime(h) <= now
    ensures OperationsAnswer(h, now) == OperationsAnswer(Commands(h), now)
    ensures ModeAfter(h) != Stopped ==> ElapsedAnswer(h, now) == ElapsedAnswer(Commands(h), now)
  {
    CommandsLegal(h);
    CommandsSpend(h, Running, now);
    CommandsSpend(h, Paused, now);
    HistoryTracked(h, now);
    HistoryTracked(Commands(h), now);
  }

  // `stop` does not refresh the elapsed time, so after it the answer is the one
  // of the last query: 0 without any, 5 with one at time 5.
  lemma StoppedElapsedIsStale()
    ensures ElapsedAnswer([Start(0), Stop(10)], 10) == 0
    ensures ElapsedAnswer([Start(0), AskElapsed(5), Stop(10)], 10) == 5
  {
    assert [Start(0), Stop(10)][..1] == [Start(0)];
    assert [Start(0), AskElapsed(5), Stop(10)][..2] == [Start(0), AskElapsed(5)];
    assert [Start(0), AskElapsed(5)][..1] == [Start(0)];
    assert [Start(0)][..0] == [];
  }

  predicate QueryFree(c: seq<Event>) {
    forall i :: 0 <= i < |c| ==> !IsQuery(c[i])
  }

  lemma {:induction false} NeverAskedIsZero(c: seq<Event>)
    requires LegalHistory(c) && QueryFree(c)
    ensures After(c).elapsed == 0
  {
    if c != [] { NeverAskedIsZero(c[..|c| - 1]); }
  }

  // The histories up to now that give these commands when their queries are left out.
  ghost predicate Elaborates(h: seq<Event>, c: seq<Event>, now: int) {
    LegalHistory(h) && Commands(h) == c && (h != [] ==> LastTime(h) <= now)
  }

  lemma {:induction false} CommandsOfCommands(c: seq<Event>)
    requires QueryFree(c)
    ensures Commands(c) == c
  {
    if c != [] {
      CommandsOfCommands(c[..|c| - 1]);
      assert c == c[..|c| - 1] + [c[|c| - 1]];
    }
  }

  lemma {:induction false} ElapsedBounded(h: seq<Event>)
    requires LegalHistory(h)
    ensures var s, t := After(h), LastTime(h);
            && 0 <= s.elapsed <= Spent(Running, h, t) + Spent(Paused, h, t)
            && (ModeAfter(h) != Stopped ==> s.startTime <= t)
  {
    if h != [] {
      var n := |h| - 1;
      ElapsedBounded(h[..n]);
      HistoryTracked(h, LastTime(h));
      HistoryTracked(h[..n], h[n].at);
      if n > 0 {
        SpentShifts(h[..n], Running, LastTime(h[..n]), h[n].at);
        SpentShifts(h[..n], Paused, LastTime(h[..n]), h[n].at);
      }
    }
  }

  // A history that asks for the elapsed time at the moment of its last stop.
  function AskBeforeStop(c: seq<Event>): seq<Event>
    requires c != []
  {
    c[..|c| - 1] + [AskElapsed(c[|c| - 1].at), c[|c| - 1]]
  }

  // Asking after a history without queries that has not stopped.
  lemma AskedOnce(c: seq<Event>, at: int)
    requires LegalHistory(c) && QueryFree(c) && ModeAfter(c) != Stopped && LastTime(c) <= at
    ensures var asked := c + [AskElapsed(at)];
            && LegalHistory(asked) && ModeAfter(asked) == ModeAfter(c) && Commands(asked) == c
            && After(asked).elapsed == Spent(Running, c, at) + Spent(Paused, c, at)
  {
    var asked := c + [AskElapsed(at)];
    assert asked[..|c|] == c;
    CommandsOfCommands(c);
    CommandsStep(asked);
    HistoryTracked(c, at);
  }

  lemma AskedElapsed(c: seq<Event>, now: int)
    requires LegalHistory(c) && QueryFree(c) && c != [] && ModeAfter(c) == Stopped && LastTime(c) <= now
    ensures Elaborates(AskBeforeStop(c), c, now)
    ensures ElapsedAnswer(AskBeforeStop(c), now) == Spent(Running, c, now) + Spent(Paused, c, now)
  {
    var n := |c| - 1;
    var asked := c[..n] + [AskElapsed(c[n].at)];
    assert c[n].Stop?;
    AskedOnce(c[..n], c[n].at);
    assert AskBeforeStop(c) == asked + [c[n]];
    CommandsStep(AskBeforeStop(c));
    assert AskBeforeStop(c)[..n + 1] == asked;
    assert c == c[..n] + [c[n]];
    assert After(AskBeforeStop(c)) == Apply(After(asked), c[n]);
  }

  lemma InsensitiveHistory(h: seq<Event>, c: seq<Event>, now: int)
    requires LegalHistory(c) && QueryFree(c) && Elaborates(h, c, now)
    requires ModeAfter(c) != Stopped || Spent(Running, c, now) + Spent(Paused, c, now) == 0
    ensures ElapsedAnswer(h, now) == ElapsedAnswer(c, now)
  {
    CommandsLegal(h);
    CommandsSpend(h, Running, now);
    CommandsSpend(h, Paused, now);
    CommandsOfCommands(c);
    NeverAskedIsZero(c);
    if h != [] {
      if ModeAfter(c) != Stopped {
        QueriesAreHarmless(h, now);
      } else {
        HistoryTracked(h, now);
        HistoryTracked(c, now);
        ElapsedBounded(h);
        SpentShifts(h, Running, LastTime(h), now);
        SpentShifts(h, Paused, LastTime(h), now);
      }
    }
  }

  // Exactly when no query can change a later elapsed time: the timer is not
  // stopped, or no time has passed since its last start.
  lemma ElapsedQueryInsensitiveIff(c: seq<Event>, now: int)
    requires LegalHistory(c) && QueryFree(c) && (c != [] ==> LastTime(c) <= now)
    ensures (forall h :: Elaborates(h, c, now) ==> ElapsedAnswer(h, now) == ElapsedAnswer(c, now)) <==>
            ModeAfter(c) != Stopped || Spent(Running, c, now) + Spent(Paused, c, now) == 0
  {
    CommandsOfCommands(c);
    NeverAskedIsZero(c);
    forall h | Elaborates(h, c, now) && (ModeAfter(c) != Stopped || Spent(Running, c, now) + Spent(Paused, c, now) == 0)
      ensures ElapsedAnswer(h, now) == ElapsedAnswer(c, now)
    {
      InsensitiveHistory(h, c, now);
    }
    if ModeAfter(c) == Stopped && c != [] {
      AskedElapsed(c, now);
    }
  }
}
