// The key scrambling of src/core/generators/scrambled_zipfian_generator.hpp:
// 64-bit FNV-1a (section 2 of draft-eastlake-fnv) over the eight octets of a
// number, low octet first.
module FnvScramble {
  import opened Bits
  import opened KeyEncoding

  const OFFSET_BASIS: nat := 0xCBF2_9CE4_8422_2325

  const PRIME: nat := 1099511628211

  // The inverse of the prime modulo 2^64.
  const INVERSE: nat := 14886173955864302971

  function Round(hash: nat, octet: nat): (next: nat)
    ensures next < WORD
  {
    (Xor(hash, octet) * PRIME) % WORD
  }

  // The hash of a string of octets, started from any state.
  function Fold(hash: nat, octets: seq<nat>): nat {
    if octets == [] then hash
    else Round(Fold(hash, octets[..|octets| - 1]), octets[|octets| - 1])
  }

  lemma FoldAppend(hash: nat, octets: seq<nat>, octet: nat)
    ensures Fold(hash, octets + [octet]) == Round(Fold(hash, octets), octet)
  {
    assert (octets + [octet])[..|octets|] == octets;
  }

  lemma LowOctet(val: nat)
    ensures And(val, 0x00ff) == val % 256
  {
    MaskIsModulo(val, 8);
    assert Pow2(4) == 16;
    assert Pow2(8) == 256;
  }

  lemma ShiftOctet(octets: seq<nat>, val: nat, n: nat)
    requires n > 0
    ensures And(val, 0x00ff) < 256
    ensures octets + Memory(val, n) == octets + [And(val, 0x00ff)] + Memory(val / 256, n - 1)
  {
    LowOctet(val);
  }

  // The loop of fnv_hash64: shift the value and fold in its low octet.
  method HashOctets(value: nat, rounds: nat) returns (hash: nat)
    ensures hash == Fold(OFFSET_BASIS, Memory(value, rounds)) && hash < WORD
  {
    var val := value;
    hash := OFFSET_BASIS;
    ghost var octets: seq<nat> := [];
    for i := 0 to rounds
      invariant hash == Fold(OFFSET_BASIS, octets) && hash < WORD
      invariant Memory(value, rounds) == octets + Memory(val, rounds - i)
    {
      var octet := And(val, 0x00ff);
      ShiftOctet(octets, val, rounds - i);
      FoldAppend(OFFSET_BASIS, octets, octet);
      octets := octets + [octet];
      val := val / 256;
      hash := Xor(hash, octet);
      hash := (hash * PRIME) % WORD;
    }
    assert octets + Memory(val, 0) == octets;
  }

  // fnv_hash64.
  method Hash64(value: nat) returns (hash: nat)
    requires value < WORD
    ensures hash == Fold(OFFSET_BASIS, Memory(value, 8)) && hash < WORD
  {
    hash := HashOctets(value, 8);
  }

  // Multiplying by the prime modulo 2^64 loses nothing.
  lemma PrimeInvertible(h: nat)
    requires h < WORD
    ensures ((h * PRIME) % WORD * INVERSE) % WORD == h
  {
    var k := 887285111055;
    var q, r := h * PRIME / WORD, h * PRIME % WORD;
    assert h * PRIME == q * WORD + r;
    assert PRIME * INVERSE == 1 + k * WORD;
    assert r * INVERSE == WORD * (h * k - q * INVERSE) + h by {
      assert r * INVERSE == h * PRIME * INVERSE - q * WORD * INVERSE;
      assert h * PRIME * INVERSE == h * (1 + k * WORD);
    }
    DivisionUnique(r * INVERSE, WORD, h * k - q * INVERSE, h);
  }

  // For a fixed octet a round is a bijection of the 64-bit states: it is injective ...
  lemma RoundInjective(h: nat, g: nat, octet: nat)
    requires h < WORD && g < WORD && octet < 256
    requires Round(h, octet) == Round(g, octet)
    ensures h == g
  {
    WordIsPow2();
    XorBound(h, octet, 64);
    XorBound(g, octet, 64);
    PrimeInvertible(Xor(h, octet));
    PrimeInvertible(Xor(g, octet));
    XorSelfInverse(h, octet);
    XorSelfInverse(g, octet);
  }

  // ... and onto.
  lemma RoundOnto(target: nat, octet: nat) returns (h: nat)
    requires target < WORD && octet < 256
    ensures h < WORD && Round(h, octet) == target
  {
    var x := (target * INVERSE) % WORD;
    h := Xor(x, octet);
    WordIsPow2();
    XorBound(x, octet, 64);
    XorSelfInverse(x, octet);
    var k := 887285111055;
    var q := target * INVERSE / WORD;
    assert target * INVERSE == q * WORD + x;
    assert INVERSE * PRIME == 1 + k * WORD;
    assert x * PRIME == WORD * (target * k - q * PRIME) + target by {
      assert x * PRIME == target * INVERSE * PRIME - q * WORD * PRIME;
      assert target * INVERSE * PRIME == target * (1 + k * WORD);
    }
    DivisionUnique(x * PRIME, WORD, target * k - q * PRIME, target);
  }

  // From one state, different octets lead to different states.
  lemma RoundSeparates(hash: nat, a: nat, b: nat)
    requires hash < WORD && a < 256 && b < 256
    requires Round(hash, a) == Round(hash, b)
    ensures a == b
  {
    WordIsPow2();
    XorBound(hash, a, 64);
    XorBound(hash, b, 64);
    PrimeInvertible(Xor(hash, a));
    PrimeInvertible(Xor(hash, b));
    XorCommutes(hash, a);
    XorCommutes(hash, b);
    XorSelfInverse(a, hash);
    XorSelfInverse(b, hash);
  }

  lemma FoldBound(hash: nat, octets: seq<nat>)
    requires hash < WORD
    ensures Fold(hash, octets) < WORD
  {
  }

  // Strings of octets that differ in exactly one place never hash equal,
  // whatever their length and the starting state.
  lemma {:induction false} OneOctetApart(hash: nat, s: seq<nat>, t: seq<nat>, i: nat)
    requires hash < WORD && |s| == |t| && i < |s| && s[i] != t[i]
    requires forall j :: 0 <= j < |s| ==> s[j] < 256 && t[j] < 256 && (j != i ==> s[j] == t[j])
    ensures Fold(hash, s) != Fold(hash, t)
  {
    var last := |s| - 1;
    FoldBound(hash, s[..last]);
    FoldBound(hash, t[..last]);
    if i == last {
      assert s[..last] == t[..last];
      if Fold(hash, s) == Fold(hash, t) {
        RoundSeparates(Fold(hash, s[..last]), s[last], t[last]);
      }
    } else {
      OneOctetApart(hash, s[..last], t[..last], i);
      if Fold(hash, s) == Fold(hash, t) {
        RoundInjective(Fold(hash, s[..last]), Fold(hash, t[..last]), s[last]);
      }
    }
  }

  // Two 64-bit values that differ in exactly one octet have different hashes.
  lemma HashSeparates(u: nat, v: nat, i: nat)
    requires u < WORD && v < WORD && i < 8
    requires Memory(u, 8)[i] != Memory(v, 8)[i]
    requires forall j :: 0 <= j < 8 && j != i ==> Memory(u, 8)[j] == Memory(v, 8)[j]
    ensures Fold(OFFSET_BASIS, Memory(u, 8)) != Fold(OFFSET_BASIS, Memory(v, 8))
  {
    OneOctetApart(OFFSET_BASIS, Memory(u, 8), Memory(v, 8), i);
  }

  // scramble over the generator's range, num_items = max - min + 1.
  method Scramble(min: nat, max: nat, value: nat) returns (key: nat)
    requires min <= max < WORD && max - min + 1 < WORD && value < WORD
    ensures min <= key <= max
    ensures key == min + Fold(OFFSET_BASIS, Memory(value, 8)) % (max - min + 1)
  {
    var hash := Hash64(value);
    key := min + hash % (max - min + 1);
  }

  // ----- the function in numbers -----

  lemma XorOctet(hash: nat, h: nat, l: nat, octet: nat, x: nat)
    requires hash == 256 * h + l && l < 256 && octet < 256 && Xor(l, octet) == x
    ensures Xor(hash, octet) == 256 * h + x
  {
    assert Pow2(4) == 16;
    assert Pow2(8) == 256;
    XorSplit(hash, octet, h, l, 0, octet, 8);
    XorZero(h);
  }

  // One octet more, with the product before it is reduced to 64 bits.
  lemma FoldNext(octets: seq<nat>, k: nat, before: nat, x: nat, q: nat, next: nat)
    requires k < |octets| && Fold(OFFSET_BASIS, octets[..k]) == before && Xor(before, octets[k]) == x
    requires x * PRIME == q * WORD + next && next < WORD
    ensures Fold(OFFSET_BASIS, octets[..k + 1]) == next
  {
    assert octets[..k + 1] == octets[..k] + [octets[k]];
    FoldAppend(OFFSET_BASIS, octets[..k], octets[k]);
    DivisionUnique(x * PRIME, WORD, q, next);
  }

  lemma XorOfFirstOctets()
    ensures Xor(0x25, 0x61) == 0x44
    ensures Xor(0x25, 0x66) == 0x43
    ensures Xor(0x42, 0x6f) == 0x2d
    ensures Xor(0xd9, 0x6f) == 0xb6
  {
    assert Pow2(4) == 16;
    XorSplit(0x25, 0x61, 0x2, 0x5, 0x6, 0x1, 4);
    XorSplit(0x25, 0x66, 0x2, 0x5, 0x6, 0x6, 4);
    XorSplit(0x42, 0x6f, 0x4, 0x2, 0x6, 0xf, 4);
    XorSplit(0xd9, 0x6f, 0xd, 0x9, 0x6, 0xf, 4);
  }

  lemma XorOfLaterOctets()
    ensures Xor(0x0a, 0x72) == 0x78
    ensures Xor(0x77, 0x62) == 0x15
    ensures Xor(0xaf, 0x61) == 0xce
  {
    assert Pow2(4) == 16;
    XorSplit(0x0a, 0x72, 0x0, 0xa, 0x7, 0x2, 4);
    XorSplit(0x77, 0x62, 0x7, 0x7, 0x6, 0x2, 4);
    XorSplit(0xaf, 0x61, 0xa, 0xf, 0x6, 0x1, 4);
  }

  // The empty string hashes to the 64-bit offset basis.
  lemma HashOfNothing(octets: seq<nat>)
    requires octets == []
    ensures Fold(OFFSET_BASIS, octets) == 14695981039346656037
  {
  }

  // The same, with the exclusive or worked out on the low octet of the state.
  lemma FoldLow(octets: seq<nat>, k: nat, h: nat, l: nat, x: nat, q: nat, next: nat)
    requires k < |octets| && l < 256 && octets[k] < 256
    requires Fold(OFFSET_BASIS, octets[..k]) == 256 * h + l && Xor(l, octets[k]) == x
    requires (256 * h + x) * PRIME == q * WORD + next && next < WORD
    ensures Fold(OFFSET_BASIS, octets[..k + 1]) == next
  {
    XorOctet(256 * h + l, h, l, octets[k], x);
    FoldNext(octets, k, 256 * h + l, 256 * h + x, q, next);
  }

  lemma FoldZero(octets: seq<nat>, k: nat, before: nat, q: nat, next: nat)
    requires k < |octets| && octets[k] == 0 && Fold(OFFSET_BASIS, octets[..k]) == before
    requires before * PRIME == q * WORD + next && next < WORD
    ensures Fold(OFFSET_BASIS, octets[..k + 1]) == next
  {
    XorZero(before);
    FoldNext(octets, k, before, before, q, next);
  }

  // The published hash of the single octet "a".
  lemma HashOfA(octets: seq<nat>)
    requires octets == [0x61]
    ensures Fold(OFFSET_BASIS, octets) == 0xaf63dc4c8601ec8c
  {
    XorOfFirstOctets();
    HashOfNothing(octets[..0]);
    FoldLow(octets, 0, 0xcbf29ce4842223, 0x25, 0x44, 875948729822, 0xaf63dc4c8601ec8c);
    assert octets[..1] == octets;
  }

  lemma HashOfFoo(octets: seq<nat>)
    requires |octets| >= 3 && octets[0] == 0x66 && octets[1] == 0x6f && octets[2] == 0x6f
    ensures Fold(OFFSET_BASIS, octets[..3]) == 0xdcb27518fed9d577
  {
    XorOfFirstOctets();
    HashOfNothing(octets[..0]);
    FoldLow(octets, 0, 0xcbf29ce4842223, 0x25, 0x43, 875948729822, 0xaf63db4c8601ead9);
    FoldLow(octets, 1, 0xaf63db4c8601ea, 0xd9, 0xb6, 753294593456, 0x08985907b541d342);
    FoldLow(octets, 2, 0x08985907b541d3, 0x42, 0x2d, 36915709891, 0xdcb27518fed9d577);
  }

  lemma HashOfBar(octets: seq<nat>)
    requires |octets| >= 6 && octets[3] == 0x62 && octets[4] == 0x61 && octets[5] == 0x72
    requires Fold(OFFSET_BASIS, octets[..3]) == 0xdcb27518fed9d577
    ensures Fold(OFFSET_BASIS, octets[..6]) == 0x85944171f73967e8
  {
    XorOfLaterOctets();
    FoldLow(octets, 3, 0xdcb27518fed9d5, 0x77, 0x15, 947886824053, 0xdd120e790c2512af);
    FoldLow(octets, 4, 0xdd120e790c2512, 0xaf, 0xce, 949490711171, 0xcac165afa2fef40a);
    FoldLow(octets, 5, 0xcac165afa2fef4, 0x0a, 0x78, 870828060923, 0x85944171f73967e8);
  }

  // The published hash of "foobar": octets are folded in from the first to the last.
  lemma HashOfFoobar(octets: seq<nat>)
    requires octets == [0x66, 0x6f, 0x6f, 0x62, 0x61, 0x72]
    ensures Fold(OFFSET_BASIS, octets) == 0x85944171f73967e8
  {
    HashOfFoo(octets);
    HashOfBar(octets);
    assert octets[..6] == octets;
  }

  lemma HashOfFourZeros(octets: seq<nat>)
    requires |octets| >= 4 && octets[0] == octets[1] == octets[2] == octets[3] == 0
    ensures Fold(OFFSET_BASIS, octets[..4]) == 0x4d25767f9dce13f5
  {
    HashOfNothing(octets[..0]);
    FoldZero(octets, 0, 0xcbf29ce484222325, 875948729822, 0xaf63bd4c8601b7df);
    FoldZero(octets, 1, 0xaf63bd4c8601b7df, 753292627376, 0x08328807b4eb6fed);
    FoldZero(octets, 2, 0x08328807b4eb6fed, 35207514050, 0xd94d12186c0f2fb7);
    FoldZero(octets, 3, 0xd94d12186c0f2fb7, 933300935133, 0x4d25767f9dce13f5);
  }

  lemma HashOfEightZeros(octets: seq<nat>)
    requires |octets| == 8 && forall i :: 0 <= i < 8 ==> octets[i] == 0
    ensures Fold(OFFSET_BASIS, octets) == 0xa8c7f832281a39c5
  {
    HashOfFourZeros(octets);
    FoldZero(octets, 4, 0x4d25767f9dce13f5, 331341004832, 0xe4bc4fd9252be94f);
    FoldZero(octets, 5, 0xe4bc4fd9252be94f, 982411893417, 0xd7e4fcfa299d713d);
    FoldZero(octets, 6, 0xd7e4fcfa299d713d, 927259753368, 0x778b1a14b6876aa7);
    FoldZero(octets, 7, 0x778b1a14b6876aa7, 513434850689, 0xa8c7f832281a39c5);
    assert octets[..8] == octets;
  }

  // fnv_hash64(0).
  lemma HashOfZero()
    ensures Fold(OFFSET_BASIS, Memory(0, 8)) == 0xa8c7f832281a39c5
  {
    var octets := Memory(0, 8);
    forall i | 0 <= i < 8 ensures octets[i] == 0 {
      MemoryDigit(0, 8, i);
    }
    HashOfEightZeros(octets);
  }
}
