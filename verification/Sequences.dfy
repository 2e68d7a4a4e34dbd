// Sequences without repetitions, ranges and concatenations, shared by the other modules.
module Sequences {
  predicate Distinct<T(==)>(s: seq<T>) {
    forall i, j :: 0 <= i < j < |s| ==> s[i] != s[j]
  }

  lemma DistinctConcat<T>(xs: seq<T>, ys: seq<T>)
    requires Distinct(xs) && Distinct(ys) && forall y :: y in ys ==> y !in xs
    ensures Distinct(xs + ys)
  {
    forall i, j | 0 <= i < j < |xs + ys| ensures (xs + ys)[i] != (xs + ys)[j] {
      if i < |xs| <= j {
        assert ys[j - |xs|] in ys && xs[i] in xs;
      }
    }
  }

  function Range(first: nat, count: nat): (run: seq<nat>)
    ensures |run| == count && forall i :: 0 <= i < count ==> run[i] == first + i
  {
    seq(count, i => first + i)
  }

  lemma RangeAppend(first: nat, count: nat)
    ensures Range(first, count + 1) == Range(first, count) + [first + count]
  {
  }

  function Concat<T>(parts: seq<seq<T>>): seq<T> {
    if parts == [] then [] else parts[0] + Concat(parts[1..])
  }

  lemma {:induction false} ConcatAppend<T>(parts: seq<seq<T>>, last: seq<T>)
    ensures Concat(parts + [last]) == Concat(parts) + last
  {
    if parts == [] {
      assert parts + [last] == [last];
    } else {
      assert (parts + [last])[1..] == parts[1..] + [last];
      ConcatAppend(parts[1..], last);
    }
  }

  // Every thread below n has a turn in the block.
  predicate Covers(block: seq<nat>, n: nat) {
    forall i :: 0 <= i < n ==> i in block
  }

  predicate Turns(schedule: seq<nat>, n: nat) {
    forall k :: 0 <= k < |schedule| ==> schedule[k] < n
  }

  // Blocks of turns of n threads, each with a turn for every one of them.
  ghost predicate Fair(blocks: seq<seq<nat>>, n: nat) {
    forall b :: 0 <= b < |blocks| ==> Covers(blocks[b], n) && Turns(blocks[b], n)
  }

  lemma ConcatLast<T>(blocks: seq<seq<T>>)
    requires blocks != []
    ensures Concat(blocks) == Concat(blocks[..|blocks| - 1]) + blocks[|blocks| - 1]
  {
    var last := |blocks| - 1;
    assert blocks == blocks[..last] + [blocks[last]];
    ConcatAppend(blocks[..last], blocks[last]);
  }

  lemma {:induction false} FairTurns(blocks: seq<seq<nat>>, n: nat)
    requires Fair(blocks, n)
    ensures Turns(Concat(blocks), n)
  {
    if blocks != [] {
      FairTurns(blocks[1..], n);
    }
  }

  // The first position of an element, or the length.
  function IndexOf<T(==)>(s: seq<T>, x: T): (i: nat)
    ensures i <= |s|
    ensures i < |s| ==> s[i] == x
    ensures forall k :: 0 <= k < i ==> s[k] != x
  {
    if s == [] || s[0] == x then 0 else 1 + IndexOf(s[1..], x)
  }

  lemma IndexOfIs<T>(s: seq<T>, x: T, i: nat)
    requires i <= |s| && (i < |s| ==> s[i] == x)
    requires forall k :: 0 <= k < i ==> s[k] != x
    ensures IndexOf(s, x) == i
  {
  }

  lemma IndexOfMember<T>(s: seq<T>, x: T)
    ensures x in s <==> IndexOf(s, x) < |s|
  {
  }

  // Appending does not move the first position of an element that was there.
  lemma FirstStays<T>(before: seq<T>, after: seq<T>, x: T)
    requires before <= after && x in after
    ensures IndexOf(before, x) < |before| ==> IndexOf(after, x) == IndexOf(before, x)
    ensures IndexOf(before, x) == |before| && |after| == |before| + 1 ==> IndexOf(after, x) == |before|
  {
    var i := IndexOf(before, x);
    if i < |after| && after[i] == x {
      IndexOfIs(after, x, i);
    }
  }
}
