// Minimum, maximum and finite sums of naturals, shared by the other modules.
module Sums {

  function Min(a: nat, b: nat): nat {
    if a < b then a else b
  }

  function Max(a: nat, b: nat): nat {
    if a < b then b else a
  }

  function Sum(s: seq<nat>): nat {
    if s == [] then 0 else s[0] + Sum(s[1..])
  }

  lemma {:induction false} SumUpdate(s: seq<nat>, i: nat, v: nat)
    requires i < |s|
    ensures Sum(s[i := v]) == Sum(s) - s[i] + v
    ensures Sum(s) >= s[i]
  {
    var u := s[i := v];
    if i == 0 {
      assert u[1..] == s[1..];
    } else {
      SumUpdate(s[1..], i - 1, v);
      assert u[1..] == s[1..][i - 1 := v];
    }
  }

  lemma {:induction false} SumAppend(s: seq<nat>, t: seq<nat>)
    ensures Sum(s + t) == Sum(s) + Sum(t)
  {
    if s == [] {
      assert s + t == t;
    } else {
      SumAppend(s[1..], t);
      assert (s + t)[1..] == s[1..] + t;
    }
  }

  lemma {:induction false} SumMonotone(s: seq<nat>, t: seq<nat>)
    requires |s| == |t|
    requires forall i :: 0 <= i < |s| ==> s[i] <= t[i]
    ensures Sum(s) <= Sum(t)
    ensures Sum(s) == Sum(t) ==> s == t
  {
    if s != [] {
      SumMonotone(s[1..], t[1..]);
      if Sum(s) == Sum(t) {
        assert s == [s[0]] + s[1..] && t == [t[0]] + t[1..];
      }
    }
  }

  lemma {:induction false} SumConstant(s: seq<nat>, v: nat)
    requires forall i :: 0 <= i < |s| ==> s[i] == v
    ensures Sum(s) == |s| * v
  {
    if s != [] {
      SumConstant(s[1..], v);
    }
  }

  lemma {:induction false} SumAtMost(lengths: seq<nat>, cap: nat)
    requires forall k :: 0 <= k < |lengths| ==> lengths[k] <= cap
    ensures Sum(lengths) <= |lengths| * cap
  {
    SumMonotone(lengths, seq(|lengths|, _ => cap));
    SumConstant(seq(|lengths|, _ => cap), cap);
  }

  lemma Scale(a: nat, b: nat, c: nat)
    requires a <= b
    ensures a * c <= b * c
  {
  }

  lemma AffineStep(a: nat, b: nat, x: nat, sum: nat, n: nat)
    ensures a * x + b + (a * sum + b * n) == a * (x + sum) + b * (n + 1)
  {
  }

  lemma {:induction false} SumAffine(s: seq<nat>, t: seq<nat>, u: seq<nat>, a: nat, b: nat)
    requires |s| == |t| == |u| && forall i :: 0 <= i < |s| ==> u[i] == a * s[i] + b + t[i]
    ensures Sum(u) == a * Sum(s) + b * |s| + Sum(t)
  {
    if s != [] {
      SumAffine(s[1..], t[1..], u[1..], a, b);
      AffineStep(a, b, s[0], Sum(s[1..]), |s| - 1);
    }
  }
}
