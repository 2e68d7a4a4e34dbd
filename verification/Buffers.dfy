// memcpy into a buffer, shared by the adapters.
module Buffers {
  import opened KeyEncoding

  method CopyInto(buffer: array<Byte>, offset: nat, data: seq<Byte>)
    requires offset + |data| <= buffer.Length
    modifies buffer
    ensures buffer[..offset] == old(buffer[..offset])
    ensures buffer[offset..offset + |data|] == data
    ensures buffer[offset + |data|..] == old(buffer[offset + |data|..])
    ensures buffer[..] == old(buffer[..offset]) + data + old(buffer[offset + |data|..])
  {
    for i := 0 to |data|
      invariant buffer[..offset] == old(buffer[..offset])
      invariant buffer[offset..offset + i] == data[..i]
      invariant buffer[offset + i..] == old(buffer[offset + i..])
    {
      buffer[offset + i] := data[i];
      assert buffer[offset..offset + i + 1] == buffer[offset..offset + i] + [data[i]];
    }
    assert data[..|data|] == data;
    assert buffer[..] == buffer[..offset] + buffer[offset..offset + |data|] + buffer[offset + |data|..];
  }

  // A buffer after the values of the keys were copied to its front, one over the
  // other; keys without a value are passed over.
  ghost function Overwritten(was: seq<Byte>, m: map<nat, seq<Byte>>, ks: seq<nat>): seq<Byte> {
    if ks == [] then was
    else
      var last := ks[|ks| - 1];
      var before := Overwritten(was, m, ks[..|ks| - 1]);
      if last in m && |m[last]| <= |before| then m[last] + before[|m[last]|..] else before
  }

  ghost predicate Fit(m: map<nat, seq<Byte>>, ks: seq<nat>, room: nat) {
    forall k :: k in ks && k in m ==> |m[k]| <= room
  }

  lemma OverwrittenAppend(was: seq<Byte>, m: map<nat, seq<Byte>>, ks: seq<nat>, k: nat)
    ensures var before := Overwritten(was, m, ks);
            Overwritten(was, m, ks + [k]) ==
            if k in m && |m[k]| <= |before| then m[k] + before[|m[k]|..] else before
  {
    assert (ks + [k])[..|ks|] == ks;
  }

  lemma {:induction false} OverwrittenLength(was: seq<Byte>, m: map<nat, seq<Byte>>, ks: seq<nat>)
    ensures |Overwritten(was, m, ks)| == |was|
  {
    if ks != [] { OverwrittenLength(was, m, ks[..|ks| - 1]); }
  }

  // Copying one more value to the front.
  lemma CopiedOver(was: seq<Byte>, before: seq<Byte>, after: seq<Byte>, m: map<nat, seq<Byte>>, ks: seq<nat>, k: nat)
    requires before == Overwritten(was, m, ks) && k in m && |m[k]| <= |before|
    requires after == before[..0] + m[k] + before[|m[k]|..]
    ensures after == Overwritten(was, m, ks + [k])
  {
    OverwrittenAppend(was, m, ks, k);
  }

  // What remains to be seen is the value of the last key, if there is a key.
  lemma OverwrittenByLast(was: seq<Byte>, m: map<nat, seq<Byte>>, ks: seq<nat>)
    requires ks != [] && ks[|ks| - 1] in m && Fit(m, ks, |was|)
    ensures m[ks[|ks| - 1]] <= Overwritten(was, m, ks)
  {
    OverwrittenLength(was, m, ks[..|ks| - 1]);
  }

  // Byte for byte: the last key whose value reaches that far decides ...
  lemma {:induction false} OverwrittenByte(was: seq<Byte>, m: map<nat, seq<Byte>>, ks: seq<nat>, j: nat, p: nat)
    requires Fit(m, ks, |was|) && j < |ks| && ks[j] in m && p < |m[ks[j]]|
    requires forall i :: j < i < |ks| && ks[i] in m ==> |m[ks[i]]| <= p
    ensures p < |was| == |Overwritten(was, m, ks)| && Overwritten(was, m, ks)[p] == m[ks[j]][p]
  {
    var n := |ks| - 1;
    OverwrittenLength(was, m, ks);
    OverwrittenLength(was, m, ks[..n]);
    if j < n {
      OverwrittenByte(was, m, ks[..n], j, p);
    }
  }

  // ... and where no value reaches, the buffer is as it was.
  lemma {:induction false} OverwrittenElsewhere(was: seq<Byte>, m: map<nat, seq<Byte>>, ks: seq<nat>, p: nat)
    requires Fit(m, ks, |was|) && p < |was|
    requires forall i :: 0 <= i < |ks| && ks[i] in m ==> |m[ks[i]]| <= p
    ensures |Overwritten(was, m, ks)| == |was| && Overwritten(was, m, ks)[p] == was[p]
  {
    OverwrittenLength(was, m, ks);
    if ks != [] {
      var n := |ks| - 1;
      OverwrittenLength(was, m, ks[..n]);
      OverwrittenElsewhere(was, m, ks[..n], p);
    }
  }
}
