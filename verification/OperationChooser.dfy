// operation_chooser_t (src/core/operation.hpp): weighted choice. Weights and
// draws are exact reals; the draw is a parameter.
module OperationChooser {
  datatype OperationKind =
    | Upsert
    | Update
    | Remove
    | Read
    | ReadModifyWrite
    | BatchUpsert
    | BatchRead
    | BulkLoad
    | RangeSelect
    | Scan

  type Weighted = (OperationKind, real)

  // The weight of the first k entries.
  function Prefix(ops: seq<Weighted>, k: nat): real
    requires k <= |ops|
  {
    if k == 0 then 0.0 else Prefix(ops, k - 1) + ops[k - 1].1
  }

  function Total(ops: seq<Weighted>): real {
    Prefix(ops, |ops|)
  }

  // The draws that belong to entry i.
  predicate InShare(ops: seq<Weighted>, i: nat, draw: real)
    requires i < |ops| && Total(ops) > 0.0
  {
    Prefix(ops, i) / Total(ops) <= draw < Prefix(ops, i + 1) / Total(ops)
  }

  ghost predicate NonNegative(ops: seq<Weighted>) {
    forall i :: 0 <= i < |ops| ==> ops[i].1 >= 0.0
  }

  lemma {:induction false} PrefixSame(ops: seq<Weighted>, last: Weighted, k: nat)
    requires k <= |ops|
    ensures Prefix(ops + [last], k) == Prefix(ops, k)
  {
    if k > 0 { PrefixSame(ops, last, k - 1); }
  }

  lemma {:induction false} PrefixAppend(ops: seq<Weighted>, last: Weighted, k: nat)
    requires k <= |ops|
    ensures Prefix(ops + [last], k) == Prefix(ops, k)
    ensures Total(ops + [last]) == Total(ops) + last.1
  {
    PrefixSame(ops, last, k);
    PrefixSame(ops, last, |ops|);
  }

  lemma {:induction false} PrefixGrows(ops: seq<Weighted>, i: nat, j: nat)
    requires NonNegative(ops) && i <= j <= |ops|
    ensures Prefix(ops, i) <= Prefix(ops, j)
  {
    if i < j { PrefixGrows(ops, i, j - 1); }
  }

  lemma Ratio(a: real, b: real, total: real)
    requires total > 0.0 && a <= b
    ensures a / total <= b / total
  {
  }

  lemma SharesBelowOne(ops: seq<Weighted>, i: nat)
    requires NonNegative(ops) && i < |ops| && Total(ops) > 0.0
    ensures Prefix(ops, i + 1) / Total(ops) <= 1.0
  {
    PrefixGrows(ops, i + 1, |ops|);
    Ratio(Prefix(ops, i + 1), Total(ops), Total(ops));
  }

  lemma WholeIsOne(total: real)
    requires total > 0.0
    ensures total / total == 1.0
  {
  }

  class OperationChooser {
    var ops: seq<Weighted>
    var sum: real

    ghost predicate Valid()
      reads this
    {
      NonNegative(ops) && sum == Total(ops)
    }

    constructor ()
      ensures Valid() && ops == []
    {
      ops := [];
      sum := 0.0;
    }

    method Add(op: OperationKind, weight: real)
      requires Valid() && weight >= 0.0
      modifies this
      ensures Valid() && ops == old(ops) + [(op, weight)]
    {
      PrefixAppend(ops, (op, weight), |ops|);
      ops := ops + [(op, weight)];
      sum := sum + weight;
    }

    // The result is the kind of the entry whose share holds the draw. A draw
    // beyond all shares ends at the assertion after the loop (`fell`).
    method Choose(draw: real) returns (op: OperationKind, fell: bool)
      requires Valid() && sum > 0.0 && draw >= 0.0
      ensures fell <==> draw >= 1.0
      ensures fell ==> op == Read
      ensures !fell ==> exists i :: 0 <= i < |ops| && InShare(ops, i, draw) && op == ops[i].0
    {
      var chooser := draw;
      for i := 0 to |ops|
        invariant chooser == draw - Prefix(ops, i) / sum
        invariant chooser >= 0.0
      {
        var part := ops[i].1 / sum;
        assert Prefix(ops, i + 1) / sum == Prefix(ops, i) / sum + part;
        if chooser < part {
          SharesBelowOne(ops, i);
          assert InShare(ops, i, draw);
          return ops[i].0, false;
        }
        chooser := chooser - part;
      }
      WholeIsOne(sum);
      assert Prefix(ops, |ops|) / sum == 1.0;
      return Read, true;
    }
  }

  lemma {:induction false} FindShare(ops: seq<Weighted>, draw: real, k: nat) returns (i: nat)
    requires Total(ops) > 0.0 && k <= |ops| && 0.0 <= draw < Prefix(ops, k) / Total(ops)
    ensures i < k && InShare(ops, i, draw)
  {
    if draw >= Prefix(ops, k - 1) / Total(ops) { i := k - 1; } else { i := FindShare(ops, draw, k - 1); }
  }

  lemma ShareWithinUnit(ops: seq<Weighted>, i: nat, draw: real)
    requires NonNegative(ops) && Total(ops) > 0.0 && i < |ops| && InShare(ops, i, draw)
    ensures 0.0 <= draw < 1.0 && ops[i].1 > 0.0
  {
    PrefixGrows(ops, 0, i);
    Ratio(0.0, Prefix(ops, i), Total(ops));
    SharesBelowOne(ops, i);
    if ops[i].1 <= 0.0 { Ratio(Prefix(ops, i + 1), Prefix(ops, i), Total(ops)); }
  }

  lemma SharesApart(ops: seq<Weighted>, i: nat, j: nat, draw: real)
    requires NonNegative(ops) && Total(ops) > 0.0 && i < j < |ops|
    ensures !(InShare(ops, i, draw) && InShare(ops, j, draw))
  {
    PrefixGrows(ops, i + 1, j);
    Ratio(Prefix(ops, i + 1), Prefix(ops, j), Total(ops));
  }

  // The shares partition [0, 1): every draw there lies in exactly one of them,
  // and that entry's weight is positive.
  lemma SharesPartition(ops: seq<Weighted>, draw: real)
    requires NonNegative(ops) && Total(ops) > 0.0
    ensures 0.0 <= draw < 1.0 <==> exists i :: 0 <= i < |ops| && InShare(ops, i, draw)
    ensures forall i, j :: 0 <= i < |ops| && 0 <= j < |ops| && InShare(ops, i, draw) && InShare(ops, j, draw) ==> i == j
    ensures forall i :: 0 <= i < |ops| && InShare(ops, i, draw) ==> ops[i].1 > 0.0
  {
    if 0.0 <= draw < 1.0 {
      WholeIsOne(Total(ops));
      var i := FindShare(ops, draw, |ops|);
    }
    forall i | 0 <= i < |ops| && InShare(ops, i, draw) ensures 0.0 <= draw < 1.0 && ops[i].1 > 0.0 {
      ShareWithinUnit(ops, i, draw);
    }
    forall i, j | 0 <= i < j < |ops| ensures !(InShare(ops, i, draw) && InShare(ops, j, draw)) {
      SharesApart(ops, i, j, draw);
    }
  }

  lemma Quotients(a: real, b: real, total: real)
    requires total > 0.0
    ensures (a + b) / total - a / total == b / total
  {
  }

  // Prefix sums add up the weights, so a share is as wide as its weight over the total.
  lemma ShareWidth(ops: seq<Weighted>, i: nat)
    requires i < |ops| && Total(ops) > 0.0
    ensures Prefix(ops, 0) == 0.0
    ensures Prefix(ops, i + 1) / Total(ops) - Prefix(ops, i) / Total(ops) == ops[i].1 / Total(ops)
  {
    Quotients(Prefix(ops, i), ops[i].1, Total(ops));
  }
}
