// acknowledged_counter_generator_t (src/core/generators): a ring of bits that
// stands for an unbounded set of acknowledged values, and the counter it extends.
module AckWindow {
  import opened Wrappers
  import opened Bits

  // The window and the limit; the number of bits is the window size.
  datatype Ring = Ring(bits: seq<bool>, limit: nat)

  predicate Bit(r: Ring, value: nat)
    requires |r.bits| > 0
  {
    r.bits[value % |r.bits|]
  }

  // The clearing loop: where it stops, and the bits it leaves.
  function Drain(bits: seq<bool>, i: nat, until: nat): (r: (seq<bool>, nat))
    requires |bits| > 0 && i <= until
    ensures |r.0| == |bits| && i <= r.1 <= until
    decreases until - i
  {
    if i == until || !bits[i % |bits|] then (bits, i)
    else Drain(bits[i % |bits| := false], i + 1, until)
  }

  lemma DrainStep(bits: seq<bool>, i: nat, until: nat)
    requires |bits| > 0 && i <= until
    ensures Drain(bits, i, until) ==
            if i == until || !bits[i % |bits|] then (bits, i) else Drain(bits[i % |bits| := false], i + 1, until)
  {
  }

  // A masked value is its slot.
  lemma SlotInside(value: nat, sizeLog: nat)
    ensures And(value, Pow2(sizeLog) - 1) == value % Pow2(sizeLog) < Pow2(sizeLog)
  {
    MaskIsModulo(value, sizeLog);
  }

  // None is the exception "Not enough window size".
  function Acknowledged(r: Ring, value: nat): (next: Option<Ring>)
    requires |r.bits| > 0
    ensures next.Some? ==> |next.value.bits| == |r.bits| && next.value.limit >= r.limit
  {
    if Bit(r, value) then None
    else
      var drained := Drain(r.bits[value % |r.bits| := true], r.limit + 1, r.limit + |r.bits|);
      Some(Ring(drained.0, drained.1 - 1))
  }

  lemma AcknowledgedIs(r: Ring, value: nat)
    requires |r.bits| > 0
    ensures Acknowledged(r, value) ==
            if Bit(r, value) then None
            else
              var drained := Drain(r.bits[value % |r.bits| := true], r.limit + 1, r.limit + |r.bits|);
              Some(Ring(drained.0, drained.1 - 1))
  {
  }

  // The generator object: the inherited counter, the bit vector and the limit.
  class AcknowledgedCounter {
    const window: array<bool>
    ghost const sizeLog: nat
    var counter: nat
    var limit: nat

    ghost predicate Valid()
    {
      window.Length == Pow2(sizeLog)
    }

    ghost function State(): Ring
      reads this, window
    {
      Ring(window[..], limit)
    }

    constructor (sizeLog: nat, start: nat)
      requires start > 0
      ensures Valid() && fresh(window) && window.Length == Pow2(sizeLog)
      ensures State() == Ring(seq(Pow2(sizeLog), _ => false), start - 1) && counter == start
    {
      window := new bool[Pow2(sizeLog)](_ => false);
      this.sizeLog := sizeLog;
      counter := start;
      limit := start - 1;
    }

    method Generate() returns (value: nat)
      requires Valid()
      modifies this`counter
      ensures value == old(counter) && counter == old(counter) + 1
    {
      value := counter;
      counter := counter + 1;
    }

    method Last() returns (value: nat)
      requires Valid()
      ensures value == State().limit
    {
      value := limit;
    }

    // The loop of acknowledge: clears the run of set bits, up to the window.
    method ClearRun(from: nat, until: nat) returns (i: nat)
      requires Valid() && from <= until
      modifies window
      ensures (window[..], i) == Drain(old(window[..]), from, until)
    {
      ghost var result := Drain(window[..], from, until);
      i := from;
      while i < until
        invariant from <= i <= until
        invariant Drain(window[..], i, until) == result
      {
        SlotInside(i, sizeLog);
        DrainStep(window[..], i, until);
        var slot := And(i, window.Length - 1);
        if !window[slot] {
          break;
        }
        window[slot] := false;
        i := i + 1;
      }
      DrainStep(window[..], i, until);
    }

    method Acknowledge(value: nat) returns (thrown: bool)
      requires Valid()
      modifies this`limit, window
      ensures Valid()
      ensures thrown <==> Acknowledged(old(State()), value).None?
      ensures State() == if thrown then old(State()) else Acknowledged(old(State()), value).value
    {
      var size := window.Length;
      AcknowledgedIs(State(), value);
      SlotInside(value, sizeLog);
      var curSlot := And(value, size - 1);
      if window[curSlot] {
        return true;
      }
      window[curSlot] := true;
      var i := ClearRun(limit + 1, limit + size);
      limit := i - 1;
      return false;
    }
  }

  // ----- the unbounded set the ring stands for -----

  // `acked` has been acknowledged: the limit is the last value of the unbroken
  // run from `start`, and the set bits are the slots of the values above it.
  ghost predicate Refines(r: Ring, start: nat, acked: set<nat>) {
    var size := |r.bits|;
    && size > 0
    && 0 < start <= r.limit + 1
    && (forall v :: v in acked ==> start <= v < r.limit + size)
    && (forall v :: start <= v <= r.limit ==> v in acked)
    && r.limit + 1 !in acked
    && (forall v: nat :: r.limit <= v < r.limit + size ==> (Bit(r, v) <==> v > r.limit && v in acked))
  }

  lemma SlotsDistinct(u: nat, v: nat, size: nat)
    requires size > 0 && u <= v < u + size && u % size == v % size
    ensures u == v
  {
    var e := v / size - u / size;
    assert v - u == size * e;
    if e != 0 { MultipleNotSmall(size, e); }
  }

  lemma SlotWraps(v: nat, size: nat)
    requires 0 < size <= v
    ensures (v - size) % size == v % size
  {
    DivisionUnique(v - size, size, v / size - 1, v % size);
  }

  // Every slot belongs to one value of the window that starts at base.
  lemma SlotOwner(base: nat, slot: nat, size: nat) returns (v: nat)
    requires slot < size
    ensures base <= v < base + size && v % size == slot
  {
    var q, rest := base / size, base % size;
    v := if slot >= rest then base - rest + slot else base - rest + slot + size;
    DivisionUnique(v, size, if slot >= rest then q else q + 1, slot);
  }

  lemma CreateRefines(size: nat, start: nat)
    requires size > 0 && start > 0
    ensures Refines(Ring(seq(size, _ => false), start - 1), start, {})
  {
  }

  // The limit is the largest L for which start..L have all been acknowledged.
  lemma LimitIsLargest(r: Ring, start: nat, acked: set<nat>, l: nat)
    requires Refines(r, start, acked) && l + 1 >= start
    ensures (forall v :: start <= v <= l ==> v in acked) <==> l <= r.limit
  {
    if l > r.limit {
      assert start <= r.limit + 1 <= l;
    }
  }

  // The set bits are exactly the slots of the pending values.
  lemma BitsArePending(r: Ring, start: nat, acked: set<nat>, slot: nat)
    requires Refines(r, start, acked) && slot < |r.bits|
    ensures r.bits[slot] <==> exists v :: v in acked && v > r.limit && v % |r.bits| == slot
  {
    var v := SlotOwner(r.limit, slot, |r.bits|);
    assert Bit(r, v) <==> r.bits[slot];
    if u :| u in acked && u > r.limit && u % |r.bits| == slot {
      if u <= v { SlotsDistinct(u, v, |r.bits|); } else { SlotsDistinct(v, u, |r.bits|); }
    }
  }

  // `acknowledge` throws exactly when a pending value has the slot already.
  lemma ThrowsOnlyOnCollision(r: Ring, start: nat, acked: set<nat>, value: nat)
    requires Refines(r, start, acked)
    ensures Acknowledged(r, value).None? <==>
            exists v :: v in acked && v > r.limit && v % |r.bits| == value % |r.bits|
  {
    BitsArePending(r, start, acked, value % |r.bits|);
  }

  // What the clearing loop does to a window over [base, base + size) whose bits
  // from i on are those of `acked`, the earlier ones being clear.
  ghost predicate WindowFrom(bits: seq<bool>, base: nat, i: nat, acked: set<nat>) {
    && |bits| > 0
    && forall v: nat :: base <= v < base + |bits| ==> (Bit(Ring(bits, 0), v) <==> v >= i && v in acked)
  }

  lemma ClearOne(bits: seq<bool>, base: nat, i: nat, acked: set<nat>)
    requires WindowFrom(bits, base, i, acked) && base <= i < base + |bits|
    ensures WindowFrom(bits[i % |bits| := false], base, i + 1, acked)
  {
    var cleared := bits[i % |bits| := false];
    forall v: nat | base <= v < base + |bits|
      ensures Bit(Ring(cleared, 0), v) <==> v >= i + 1 && v in acked
    {
      assert Bit(Ring(bits, 0), v) <==> v >= i && v in acked;
      if v % |bits| == i % |bits| {
        if v <= i { SlotsDistinct(v, i, |bits|); } else { SlotsDistinct(i, v, |bits|); }
      }
    }
  }

  lemma {:induction false} DrainSpec(bits: seq<bool>, base: nat, i: nat, acked: set<nat>)
    requires WindowFrom(bits, base, i, acked) && base <= i <= base + |bits|
    ensures var (b, j) := Drain(bits, i, base + |bits|);
            && WindowFrom(b, base, j, acked)
            && (forall v :: i <= v < j ==> v in acked)
            && (j < base + |bits| ==> j !in acked)
    decreases base + |bits| - i
  {
    if i < base + |bits| {
      assert Bit(Ring(bits, 0), i) <==> i in acked;
      if bits[i % |bits|] {
        ClearOne(bits, base, i, acked);
        DrainSpec(bits[i % |bits| := false], base, i + 1, acked);
      }
    }
  }

  lemma MarkOne(r: Ring, start: nat, acked: set<nat>, value: nat)
    requires Refines(r, start, acked) && r.limit < value < r.limit + |r.bits|
    ensures WindowFrom(r.bits[value % |r.bits| := true], r.limit, r.limit + 1, acked + {value})
  {
    var size := |r.bits|;
    var marked := r.bits[value % size := true];
    forall v: nat | r.limit <= v < r.limit + size
      ensures Bit(Ring(marked, 0), v) <==> v >= r.limit + 1 && v in acked + {value}
    {
      assert Bit(r, v) <==> v > r.limit && v in acked;
      if v % size == value % size {
        if v <= value { SlotsDistinct(v, value, size); } else { SlotsDistinct(value, v, size); }
      }
    }
  }

  // The window slides: the values that enter it take over cleared slots.
  lemma Slide(bits: seq<bool>, base: nat, j: nat, acked: set<nat>, v: nat)
    requires WindowFrom(bits, base, j, acked) && base + 1 <= j <= base + |bits|
    requires forall u :: u in acked ==> u < base + |bits|
    requires j - 1 <= v < j - 1 + |bits|
    ensures Bit(Ring(bits, j - 1), v) <==> v > j - 1 && v in acked
  {
    if v < base + |bits| {
      assert Bit(Ring(bits, 0), v) <==> v >= j && v in acked;
    } else {
      SlotWraps(v, |bits|);
      assert Bit(Ring(bits, 0), v - |bits|) <==> v - |bits| >= j && v - |bits| in acked;
    }
  }

  lemma DrainedRefines(bits: seq<bool>, base: nat, j: nat, start: nat, acked: set<nat>)
    requires WindowFrom(bits, base, j, acked) && 0 < start <= base + 1 <= j <= base + |bits|
    requires forall v :: v in acked ==> start <= v < base + |bits|
    requires forall v :: start <= v < j ==> v in acked
    requires j !in acked
    ensures Refines(Ring(bits, j - 1), start, acked)
  {
    var next := Ring(bits, j - 1);
    forall v: nat | next.limit <= v < next.limit + |bits| ensures Bit(next, v) <==> v > next.limit && v in acked {
      Slide(bits, base, j, acked, v);
    }
  }

  lemma MarkedRun(r: Ring, start: nat, acked: set<nat>, value: nat, j: nat)
    requires Refines(r, start, acked) && r.limit < value < r.limit + |r.bits|
    requires r.limit + 1 <= j <= r.limit + |r.bits| && forall v :: r.limit + 1 <= v < j ==> v in acked + {value}
    requires j < r.limit + |r.bits| ==> j !in acked + {value}
    ensures forall v :: v in acked + {value} ==> start <= v < r.limit + |r.bits|
    ensures forall v :: start <= v < j ==> v in acked + {value}
    ensures j !in acked + {value}
  {
  }

  lemma MarkedDrain(r: Ring, start: nat, acked: set<nat>, value: nat)
    requires Refines(r, start, acked) && r.limit < value < r.limit + |r.bits|
    ensures var (bits, j) := Drain(r.bits[value % |r.bits| := true], r.limit + 1, r.limit + |r.bits|);
            Refines(Ring(bits, j - 1), start, acked + {value})
  {
    var size, all := |r.bits|, acked + {value};
    MarkOne(r, start, acked, value);
    var marked := r.bits[value % size := true];
    DrainSpec(marked, r.limit, r.limit + 1, all);
    var (bits, j) := Drain(marked, r.limit + 1, r.limit + size);
    MarkedRun(r, start, acked, value, j);
    DrainedRefines(bits, r.limit, j, start, all);
  }

  // A fresh value inside the window: no exception, and the ring stands for the
  // larger set; the limit never falls.
  lemma AcknowledgeRefines(r: Ring, start: nat, acked: set<nat>, value: nat)
    requires Refines(r, start, acked) && value !in acked && start <= value < r.limit + |r.bits|
    ensures Acknowledged(r, value).Some?
    ensures Refines(Acknowledged(r, value).value, start, acked + {value})
    ensures r.limit <= Acknowledged(r, value).value.limit
  {
    assert value > r.limit;
    assert !Bit(r, value);
    MarkedDrain(r, start, acked, value);
  }

  // ----- runs -----

  function AcknowledgeAll(r: Ring, values: seq<nat>): Option<Ring>
    requires |r.bits| > 0
    decreases |values|
  {
    if values == [] then Some(r)
    else
      var next := Acknowledged(r, values[0]);
      if next.None? then None else AcknowledgeAll(next.value, values[1..])
  }

  // Distinct values at or above start, each less than the window size above
  // the limit at its time, in any order.
  ghost predicate InWindow(r: Ring, start: nat, acked: set<nat>, values: seq<nat>)
    requires |r.bits| > 0
    decreases |values|
  {
    values == [] ||
    (&& values[0] !in acked && start <= values[0] < r.limit + |r.bits|
     && (Acknowledged(r, values[0]).Some? ==>
           InWindow(Acknowledged(r, values[0]).value, start, acked + {values[0]}, values[1..])))
  }

  function Elements(values: seq<nat>): set<nat> {
    set v | v in values
  }

  // The whole contract, from a new generator on: no exception, and at every
  // moment the ring stands for exactly the values acknowledged so far.
  lemma {:induction false} RunRefines(r: Ring, start: nat, acked: set<nat>, values: seq<nat>)
    requires Refines(r, start, acked) && InWindow(r, start, acked, values)
    ensures AcknowledgeAll(r, values).Some?
    ensures Refines(AcknowledgeAll(r, values).value, start, acked + Elements(values))
    ensures AcknowledgeAll(r, values).value.limit >= r.limit
    decreases |values|
  {
    if values == [] {
      assert acked + Elements(values) == acked;
    } else {
      AcknowledgeRefines(r, start, acked, values[0]);
      RunRefines(Acknowledged(r, values[0]).value, start, acked + {values[0]}, values[1..]);
      assert values == [values[0]] + values[1..];
      assert acked + Elements(values) == acked + {values[0]} + Elements(values[1..]);
    }
  }

  // ----- the bound of the window is exact -----

  // A value at or beyond the window: the limit moves only when it wraps onto the
  // slot of the next value, which is still missing.
  lemma BeyondBreaks(r: Ring, start: nat, acked: set<nat>, value: nat)
    requires Refines(r, start, acked) && value !in acked && value >= r.limit + |r.bits|
    requires Acknowledged(r, value).Some?
    ensures !Refines(Acknowledged(r, value).value, start, acked + {value})
  {
    var size, next, all := |r.bits|, Acknowledged(r, value).value, acked + {value};
    if size > 1 {
      assert Bit(r, r.limit + 1) <==> false;
      if value % size == (r.limit + 1) % size {
        assert next.limit >= r.limit + 1;
        assert r.limit + 1 !in all;
      } else {
        assert next.limit == r.limit;
        assert value in all;
      }
    } else {
      assert next.limit == r.limit;
      assert value in all;
    }
  }

  // The window's bound is exact: for a fresh value, being less than the window
  // size above the limit is what it takes for the ring to go on standing for the
  // acknowledged values.
  lemma WindowIsExact(r: Ring, start: nat, acked: set<nat>, value: nat)
    requires Refines(r, start, acked) && value !in acked && value >= start
    ensures value < r.limit + |r.bits| <==>
            Acknowledged(r, value).Some? && Refines(Acknowledged(r, value).value, start, acked + {value})
  {
    if value < r.limit + |r.bits| {
      AcknowledgeRefines(r, start, acked, value);
    } else if Acknowledged(r, value).Some? {
      BeyondBreaks(r, start, acked, value);
    }
  }

  lemma DrainFull(bits: seq<bool>, i: nat, until: nat)
    requires 0 < |bits| && i <= until <= i + |bits|
    requires forall v: nat :: i <= v < until ==> bits[v % |bits|]
    ensures Drain(bits, i, until).1 == until
    decreases until - i
  {
    if i < until {
      forall v: nat | i + 1 <= v < until ensures bits[i % |bits| := false][v % |bits|] {
        if v % |bits| == i % |bits| { SlotsDistinct(i, v, |bits|); }
      }
      DrainFull(bits[i % |bits| := false], i + 1, until);
    }
  }

  lemma BoundaryAccepted(r: Ring, start: nat, acked: set<nat>)
    requires Refines(r, start, acked) && |r.bits| >= 2
    ensures var far := r.limit + |r.bits|;
            Acknowledged(r, far) == Some(Ring(r.bits[far % |r.bits| := true], r.limit))
  {
    var size, far := |r.bits|, r.limit + |r.bits|;
    SlotWraps(far, size);
    assert Bit(r, r.limit) <==> false;
    assert Bit(r, r.limit + 1) <==> false;
    if (r.limit + 1) % size == far % size { SlotsDistinct(r.limit + 1, far, size); }
  }

  // The value limit + size is accepted too, but once everything below it has been
  // acknowledged the limit stops one short of it: the loop never looks that far.
  lemma BoundaryLags(r: Ring, start: nat, acked: set<nat>)
    requires Refines(r, start, acked) && |r.bits| >= 2
    requires forall v :: r.limit + 2 <= v < r.limit + |r.bits| ==> v in acked
    ensures var far := r.limit + |r.bits|;
            && Acknowledged(r, far).Some?
            && Acknowledged(Acknowledged(r, far).value, r.limit + 1).Some?
            && Acknowledged(Acknowledged(r, far).value, r.limit + 1).value.limit == far - 1
            && (forall v :: start <= v <= far ==> v in acked || v == far || v == r.limit + 1)
  {
    var size, far := |r.bits|, r.limit + |r.bits|;
    BoundaryAccepted(r, start, acked);
    var marked := r.bits[far % size := true];
    assert Bit(r, r.limit + 1) <==> false;
    if (r.limit + 1) % size == far % size { SlotsDistinct(r.limit + 1, far, size); }
    var full := marked[(r.limit + 1) % size := true];
    forall v: nat | r.limit + 1 <= v < far ensures full[v % size] {
      assert Bit(r, v) <==> v > r.limit && v in acked;
    }
    DrainFull(full, r.limit + 1, far);
  }

  // One value further and the limit passes a value nobody has acknowledged.
  lemma BeyondSkips(r: Ring, start: nat, acked: set<nat>)
    requires Refines(r, start, acked) && |r.bits| >= 2
    ensures var value := r.limit + 1 + |r.bits|;
            && Acknowledged(r, value).Some?
            && Acknowledged(r, value).value.limit >= r.limit + 1
            && r.limit + 1 !in acked + {value}
  {
    var size := |r.bits|;
    SlotWraps(r.limit + 1 + size, size);
    assert Bit(r, r.limit + 1) <==> false;
  }

  // ----- what an observer sees -----

  // The limit is the largest one for the acknowledged values.
  ghost predicate IsLimit(limit: nat, start: nat, acked: set<nat>) {
    && start <= limit + 1
    && (forall v :: start <= v <= limit ==> v in acked)
    && limit + 1 !in acked
  }

  // Less than the window size above that largest limit: below whatever is missing by more than it.
  ghost predicate InReach(value: nat, start: nat, size: nat, acked: set<nat>) {
    forall m: nat :: m >= start && m !in acked ==> value + 1 < m + size
  }

  // Fresh values from start on, each in reach at its time.
  ghost predicate Continuation(start: nat, size: nat, acked: set<nat>, values: seq<nat>)
    decreases |values|
  {
    values == [] ||
    (&& values[0] !in acked && start <= values[0] && InReach(values[0], start, size, acked)
     && Continuation(start, size, acked + {values[0]}, values[1..]))
  }

  // Acknowledging the values throws nothing and leaves the largest limit.
  ghost predicate Faithful(r: Ring, start: nat, acked: set<nat>, values: seq<nat>)
    requires |r.bits| > 0
  {
    var next := AcknowledgeAll(r, values);
    next.Some? && IsLimit(next.value.limit, start, acked + Elements(values))
  }

  lemma RefinesIsLimit(r: Ring, start: nat, acked: set<nat>)
    requires Refines(r, start, acked)
    ensures IsLimit(r.limit, start, acked)
  {
  }

  // A ring that stands for the set answers every continuation right.
  lemma {:induction false} ContinuationInWindow(r: Ring, start: nat, acked: set<nat>, values: seq<nat>)
    requires Refines(r, start, acked) && Continuation(start, |r.bits|, acked, values)
    ensures InWindow(r, start, acked, values)
    decreases |values|
  {
    if values != [] {
      assert values[0] + 1 < r.limit + 1 + |r.bits|;
      AcknowledgeRefines(r, start, acked, values[0]);
      ContinuationInWindow(Acknowledged(r, values[0]).value, start, acked + {values[0]}, values[1..]);
    }
  }

  lemma RefinesFaithful(r: Ring, start: nat, acked: set<nat>, values: seq<nat>)
    requires Refines(r, start, acked) && Continuation(start, |r.bits|, acked, values)
    ensures Faithful(r, start, acked, values)
  {
    ContinuationInWindow(r, start, acked, values);
    RunRefines(r, start, acked, values);
    RefinesIsLimit(AcknowledgeAll(r, values).value, start, acked + Elements(values));
  }

  // The observer goes on with one value, and what is left fails.
  lemma FailsLater(r: Ring, start: nat, acked: set<nat>, value: nat, rest: seq<nat>)
    requires |r.bits| > 0
    requires Acknowledged(r, value).Some? ==>
               !Faithful(Acknowledged(r, value).value, start, acked + {value}, rest)
    ensures !Faithful(r, start, acked, [value] + rest)
  {
    var values := [value] + rest;
    assert values[1..] == rest;
    assert acked + Elements(values) == acked + {value} + Elements(rest);
  }

  lemma ContinueWith(start: nat, size: nat, acked: set<nat>, value: nat, rest: seq<nat>)
    requires value !in acked && start <= value && InReach(value, start, size, acked)
    requires Continuation(start, size, acked + {value}, rest)
    ensures Continuation(start, size, acked, [value] + rest)
  {
    assert ([value] + rest)[1..] == rest;
  }

  // `low` is missing, so values less than the window size above it, less one, are in reach.
  lemma ReachFromMissing(value: nat, start: nat, size: nat, acked: set<nat>, low: nat)
    requires forall v :: start <= v < low ==> v in acked
    requires value + 1 < low + size
    ensures InReach(value, start, size, acked)
  {
  }

  // ----- how a value beyond the window comes to light -----

  // Draining up to `until` leaves the slot of `until` alone.
  lemma {:induction false} DrainKeeps(bits: seq<bool>, i: nat, until: nat)
    requires |bits| > 0 && i <= until < i + |bits|
    ensures Drain(bits, i, until).0[until % |bits|] == bits[until % |bits|]
    decreases until - i
  {
    if i < until && bits[i % |bits|] {
      if i % |bits| == until % |bits| { SlotsDistinct(i, until, |bits|); }
      DrainKeeps(bits[i % |bits| := false], i + 1, until);
    }
  }

  // Case 1: it shares the slot of the first missing value, and the limit passes that at once.
  lemma SharesNextSlot(r: Ring, start: nat, acked: set<nat>, value: nat)
    requires Refines(r, start, acked) && |r.bits| >= 2 && value >= r.limit + |r.bits|
    requires Acknowledged(r, value).Some? && value % |r.bits| == (r.limit + 1) % |r.bits|
    ensures !Faithful(Acknowledged(r, value).value, start, acked + {value}, [])
  {
    var next := Acknowledged(r, value).value;
    assert next.limit >= r.limit + 1;
    assert r.limit + 1 !in acked + {value} + Elements([]);
  }

  // Otherwise it only sets its bit.
  lemma SetsBit(r: Ring, start: nat, acked: set<nat>, value: nat)
    requires Refines(r, start, acked) && |r.bits| >= 2
    requires Acknowledged(r, value).Some? && value % |r.bits| != (r.limit + 1) % |r.bits|
    ensures Acknowledged(r, value).value == Ring(r.bits[value % |r.bits| := true], r.limit)
  {
    assert Bit(r, r.limit + 1) <==> false;
  }

  // Case 2: it takes the slot of a pending value; acknowledging that one throws.
  lemma TakesSlot(r: Ring, start: nat, acked: set<nat>, value: nat, w: nat)
    requires Refines(r, start, acked) && |r.bits| >= 2 && value !in acked && value >= r.limit + |r.bits|
    requires Acknowledged(r, value).Some? && value % |r.bits| == w % |r.bits|
    requires r.limit + 2 <= w < r.limit + |r.bits| && value % |r.bits| != (r.limit + 1) % |r.bits|
    ensures Continuation(start, |r.bits|, acked + {value}, [w])
    ensures !Faithful(Acknowledged(r, value).value, start, acked + {value}, [w])
  {
    SetsBit(r, start, acked, value);
    assert Bit(r, w) <==> w in acked;
    ReachFromMissing(w, start, |r.bits|, acked + {value}, r.limit + 1);
    ContinueWith(start, |r.bits|, acked + {value}, w, []);
    FailsLater(Acknowledged(r, value).value, start, acked + {value}, w, []);
    assert [w] + [] == [w];
  }

  lemma FarThrows(q: Ring, start: nat, acked: set<nat>)
    requires |q.bits| >= 2 && Bit(q, q.limit + |q.bits|)
    ensures !Faithful(q, start, acked, [q.limit + 1, q.limit + |q.bits|])
  {
    var size, low, far := |q.bits|, q.limit + 1, q.limit + |q.bits|;
    if Acknowledged(q, low).Some? {
      var marked := q.bits[low % size := true];
      DrainKeeps(marked, low, far);
      FailsLater(Acknowledged(q, low).value, start, acked + {low}, far, []);
      assert [far] + [] == [far];
    }
    FailsLater(q, start, acked, low, [far]);
    assert [low] + [far] == [low, far];
  }

  // Case 3: it takes the slot of the limit, which is that of limit + size; once
  // the first missing value is in, acknowledging limit + size throws.
  lemma TakesFarSlot(r: Ring, start: nat, acked: set<nat>, value: nat)
    requires Refines(r, start, acked) && |r.bits| >= 2 && value !in acked && value > r.limit + |r.bits|
    requires Acknowledged(r, value).Some? && value % |r.bits| == r.limit % |r.bits|
    requires value % |r.bits| != (r.limit + 1) % |r.bits|
    ensures Continuation(start, |r.bits|, acked + {value}, [r.limit + 1, r.limit + |r.bits|])
    ensures !Faithful(Acknowledged(r, value).value, start, acked + {value}, [r.limit + 1, r.limit + |r.bits|])
  {
    var size, low, far, all := |r.bits|, r.limit + 1, r.limit + |r.bits|, acked + {value};
    SetsBit(r, start, acked, value);
    SlotWraps(far, size);
    ReachFromMissing(far, start, size, all + {low}, low + 1);
    ContinueWith(start, size, all + {low}, far, []);
    ReachFromMissing(low, start, size, all, low);
    ContinueWith(start, size, all, low, [far]);
    FarThrows(Acknowledged(r, value).value, start, all);
    assert [far] + [] == [far] && [low] + [far] == [low, far];
  }

  // Case 4: it is limit + size itself. The ring agrees with the set inside the
  // window, but the value at its end is in already.
  ghost predicate Ahead(q: Ring, start: nat, acked: set<nat>) {
    var size := |q.bits|;
    && size >= 2 && start <= q.limit + 1
    && (forall v :: start <= v <= q.limit ==> v in acked)
    && q.limit + 1 !in acked && q.limit + size in acked
    && (forall v: nat :: q.limit < v < q.limit + size ==> (Bit(q, v) <==> v in acked))
  }

  // With everything else in, the first missing value takes the limit to the end
  // of the window, one short of the largest.
  lemma LastOneShort(q: Ring, start: nat, acked: set<nat>)
    requires Ahead(q, start, acked) && forall v :: q.limit + 2 <= v < q.limit + |q.bits| ==> v in acked
    ensures Continuation(start, |q.bits|, acked, [q.limit + 1])
    ensures !Faithful(q, start, acked, [q.limit + 1])
  {
    var size, low, far := |q.bits|, q.limit + 1, q.limit + |q.bits|;
    var full := q.bits[low % size := true];
    assert Bit(q, low) <==> low in acked;
    forall v: nat | low <= v < far ensures full[v % size] {
      assert Bit(q, v) <==> v in acked;
    }
    DrainFull(full, low, far);
    assert far in acked + {low} + Elements([]);
    FailsLater(q, start, acked, low, []);
    ReachFromMissing(low, start, size, acked, low);
    ContinueWith(start, size, acked, low, []);
    assert [low] + [] == [low];
  }

  lemma AheadStays(q: Ring, start: nat, acked: set<nat>, v: nat)
    requires Ahead(q, start, acked) && q.limit + 2 <= v < q.limit + |q.bits| && v !in acked
    ensures var next := Ring(q.bits[v % |q.bits| := true], q.limit);
            Acknowledged(q, v) == Some(next) && Ahead(next, start, acked + {v})
  {
    var size, low := |q.bits|, q.limit + 1;
    var next := Ring(q.bits[v % size := true], q.limit);
    assert Bit(q, v) <==> v in acked;
    assert Bit(q, low) <==> low in acked;
    if low % size == v % size { SlotsDistinct(low, v, size); }
    forall u: nat | q.limit < u < q.limit + size ensures Bit(next, u) <==> u in acked + {v} {
      assert Bit(q, u) <==> u in acked;
      if u % size == v % size {
        if u <= v { SlotsDistinct(u, v, size); } else { SlotsDistinct(v, u, size); }
      }
    }
  }

  // Fill the window up from v on, and end with the first missing value.
  lemma {:induction false} FillUp(q: Ring, start: nat, acked: set<nat>, v: nat) returns (values: seq<nat>)
    requires Ahead(q, start, acked) && q.limit + 2 <= v <= q.limit + |q.bits|
    requires forall u :: q.limit + 2 <= u < v ==> u in acked
    ensures Continuation(start, |q.bits|, acked, values) && !Faithful(q, start, acked, values)
    decreases q.limit + |q.bits| - v
  {
    if v == q.limit + |q.bits| {
      LastOneShort(q, start, acked);
      values := [q.limit + 1];
    } else if v in acked {
      values := FillUp(q, start, acked, v + 1);
    } else {
      AheadStays(q, start, acked, v);
      var rest := FillUp(Acknowledged(q, v).value, start, acked + {v}, v + 1);
      values := [v] + rest;
      FailsLater(q, start, acked, v, rest);
      ReachFromMissing(v, start, |q.bits|, acked, q.limit + 1);
      ContinueWith(start, |q.bits|, acked, v, rest);
    }
  }

  lemma FarIsAhead(r: Ring, start: nat, acked: set<nat>)
    requires Refines(r, start, acked) && |r.bits| >= 2
    ensures var far := r.limit + |r.bits|;
            Acknowledged(r, far).Some? && Ahead(Acknowledged(r, far).value, start, acked + {far})
  {
    var size, far := |r.bits|, r.limit + |r.bits|;
    BoundaryAccepted(r, start, acked);
    SlotWraps(far, size);
    var next := Acknowledged(r, far).value;
    forall v: nat | r.limit < v < far ensures Bit(next, v) <==> v in acked + {far} {
      assert Bit(r, v) <==> v in acked;
      if v % size == far % size { SlotsDistinct(v, far, size); }
    }
  }

  lemma SlotsApart(base: nat, u: nat, v: nat, size: nat)
    requires size > 0 && base <= u < base + size && base <= v < base + size && u % size == v % size
    ensures u == v
  {
    if u <= v { SlotsDistinct(u, v, size); } else { SlotsDistinct(v, u, size); }
  }

  // Some continuation within the window brings the value to light.
  lemma ComesToLight(r: Ring, start: nat, acked: set<nat>, value: nat) returns (values: seq<nat>)
    requires Refines(r, start, acked) && |r.bits| >= 2 && value !in acked && value >= r.limit + |r.bits|
    requires Acknowledged(r, value).Some?
    ensures Continuation(start, |r.bits|, acked + {value}, values)
    ensures !Faithful(Acknowledged(r, value).value, start, acked + {value}, values)
  {
    var size := |r.bits|;
    var w := SlotOwner(r.limit, value % size, size);
    if w == r.limit + 1 {
      SharesNextSlot(r, start, acked, value);
      values := [];
    } else {
      if value % size == (r.limit + 1) % size { SlotsApart(r.limit, w, r.limit + 1, size); }
      if w > r.limit {
        TakesSlot(r, start, acked, value, w);
        values := [w];
      } else if value > r.limit + size {
        TakesFarSlot(r, start, acked, value);
        values := [r.limit + 1, r.limit + size];
      } else {
        FarIsAhead(r, start, acked);
        values := FillUp(Acknowledged(r, value).value, start, acked + {value}, r.limit + 2);
      }
    }
  }

  // The bound of the window as an observer sees it: a fresh value is less than
  // the window size above the limit exactly when it is accepted and, whatever
  // in-window values follow, nothing is thrown and every limit is the largest.
  // (A window of one slot has no fresh values within it.)
  lemma WindowObservable(r: Ring, start: nat, acked: set<nat>, value: nat)
    requires Refines(r, start, acked) && |r.bits| >= 2 && value !in acked && value >= start
    ensures value < r.limit + |r.bits| <==>
            && Acknowledged(r, value).Some?
            && forall values :: Continuation(start, |r.bits|, acked + {value}, values) ==>
                 Faithful(Acknowledged(r, value).value, start, acked + {value}, values)
  {
    if value < r.limit + |r.bits| {
      AcknowledgeRefines(r, start, acked, value);
      forall values | Continuation(start, |r.bits|, acked + {value}, values)
        ensures Faithful(Acknowledged(r, value).value, start, acked + {value}, values)
      {
        RefinesFaithful(Acknowledged(r, value).value, start, acked + {value}, values);
      }
    } else if Acknowledged(r, value).Some? {
      var values := ComesToLight(r, start, acked, value);
    }
  }
}
