// Keys as the engines see them: the memory of an integer on a little-endian
// host, the byte swap of src/rocksdb/rocksdb_transaction.hpp, and bytewise order.
module KeyEncoding {
  import opened Bits
  type Byte = b: nat | b < 256

  // Width of the keys, sizeof(key_t).
  const KEY_WIDTH: nat := 8

  function Pow256(n: nat): (p: nat)
    ensures p > 0
  {
    if n == 0 then 1 else 256 * Pow256(n - 1)
  }

  // The n bytes of an integer in memory, lowest first.
  function Memory(x: nat, n: nat): (bytes: seq<Byte>)
    ensures |bytes| == n
  {
    if n == 0 then [] else [x % 256] + Memory(x / 256, n - 1)
  }

  // The integer whose memory the bytes are.
  function Value(bytes: seq<Byte>): nat {
    if bytes == [] then 0 else bytes[0] + 256 * Value(bytes[1..])
  }

  function Reverse(bytes: seq<Byte>): (r: seq<Byte>)
    ensures |r| == |bytes|
  {
    if bytes == [] then [] else Reverse(bytes[1..]) + [bytes[0]]
  }

  // The byte swap of an n-byte integer (`__builtin_bswap64` for n = 8).
  function Swap(x: nat, n: nat): nat {
    Value(Reverse(Memory(x, n)))
  }

  // Bytes read with the first one as the most significant.
  function BigEndian(bytes: seq<Byte>): nat {
    Value(Reverse(bytes))
  }

  // The engines' default comparator: memcmp on keys of one length.
  predicate LexLess(a: seq<Byte>, b: seq<Byte>) {
    if b == [] then false
    else if a == [] then true
    else a[0] < b[0] || (a[0] == b[0] && LexLess(a[1..], b[1..]))
  }

  lemma {:induction false} ValueMemory(x: nat, n: nat)
    requires x < Pow256(n)
    ensures Value(Memory(x, n)) == x
  {
    if n > 0 { ValueMemory(x / 256, n - 1); }
  }

  lemma {:induction false} MemoryValue(bytes: seq<Byte>)
    ensures Value(bytes) < Pow256(|bytes|)
    ensures Memory(Value(bytes), |bytes|) == bytes
  {
    if bytes != [] {
      MemoryValue(bytes[1..]);
      assert Value(bytes) % 256 == bytes[0] && Value(bytes) / 256 == Value(bytes[1..]);
    }
  }

  lemma {:induction false} ReverseAppend(bytes: seq<Byte>, last: Byte)
    ensures Reverse(bytes + [last]) == [last] + Reverse(bytes)
  {
    if bytes == [] {
      assert bytes + [last] == [last];
    } else {
      assert (bytes + [last])[1..] == bytes[1..] + [last];
      ReverseAppend(bytes[1..], last);
    }
  }

  lemma {:induction false} ReverseTwice(bytes: seq<Byte>)
    ensures Reverse(Reverse(bytes)) == bytes
  {
    if bytes != [] {
      ReverseTwice(bytes[1..]);
      ReverseAppend(Reverse(bytes[1..]), bytes[0]);
    }
  }

  // The memory of a swapped key is that of the key read backwards.
  lemma SwappedMemory(x: nat, n: nat)
    ensures Swap(x, n) < Pow256(n)
    ensures Memory(Swap(x, n), n) == Reverse(Memory(x, n))
  {
    MemoryValue(Reverse(Memory(x, n)));
  }

  // The swap undoes itself.
  lemma SwapTwice(x: nat, n: nat)
    requires x < Pow256(n)
    ensures Swap(Swap(x, n), n) == x
  {
    SwappedMemory(x, n);
    ReverseTwice(Memory(x, n));
    ValueMemory(x, n);
  }

  lemma {:induction false} ValueAppend(bytes: seq<Byte>, last: Byte)
    ensures Value(bytes + [last]) == Value(bytes) + last * Pow256(|bytes|)
  {
    if bytes == [] {
      assert bytes + [last] == [last];
    } else {
      assert (bytes + [last])[1..] == bytes[1..] + [last];
      ValueAppend(bytes[1..], last);
      assert 256 * (last * Pow256(|bytes| - 1)) == last * Pow256(|bytes|);
    }
  }

  lemma SmallerLeadingByte(a: nat, b: nat, x: nat, y: nat, p: nat)
    requires a < b && x < p
    ensures x + a * p < y + b * p
  {
    var k: nat := b - a - 1;
    assert b == a + 1 + k;
    assert (a + 1 + k) * p == a * p + p + k * p;
    assert k * p >= 0;
  }

  lemma LeadingByte(a: nat, b: nat, x: nat, y: nat, p: nat)
    requires x < p && y < p
    ensures x + a * p < y + b * p <==> a < b || (a == b && x < y)
  {
    if a < b {
      SmallerLeadingByte(a, b, x, y, p);
    } else if b < a {
      SmallerLeadingByte(b, a, y, x, p);
    }
  }

  // On keys of one length, bytewise order is numeric order of the big-endian values.
  lemma {:induction false} LexIsBigEndian(a: seq<Byte>, b: seq<Byte>)
    requires |a| == |b|
    ensures LexLess(a, b) <==> BigEndian(a) < BigEndian(b)
    ensures a == b <==> BigEndian(a) == BigEndian(b)
  {
    MemoryValue(Reverse(a));
    MemoryValue(Reverse(b));
    ReverseTwice(a);
    ReverseTwice(b);
    if a != [] {
      LexIsBigEndian(a[1..], b[1..]);
      MemoryValue(Reverse(a[1..]));
      MemoryValue(Reverse(b[1..]));
      ValueAppend(Reverse(a[1..]), a[0]);
      ValueAppend(Reverse(b[1..]), b[0]);
      LeadingByte(a[0], b[0], BigEndian(a[1..]), BigEndian(b[1..]), Pow256(|a| - 1));
    }
  }

  // The swap preserves order: swapped keys compare bytewise as the keys do numerically.
  lemma SwapPreservesOrder(x: nat, y: nat, n: nat)
    requires x < Pow256(n) && y < Pow256(n)
    ensures LexLess(Memory(Swap(x, n), n), Memory(Swap(y, n), n)) <==> x < y
  {
    SwappedMemory(x, n);
    SwappedMemory(y, n);
    ReverseTwice(Memory(x, n));
    ReverseTwice(Memory(y, n));
    ValueMemory(x, n);
    ValueMemory(y, n);
    LexIsBigEndian(Memory(Swap(x, n), n), Memory(Swap(y, n), n));
  }

  // Without the swap (as in src/leveldb/leveldb.hpp) bytewise order is the order
  // of the swapped numbers, ...
  lemma UnswappedOrder(x: nat, y: nat, n: nat)
    ensures LexLess(Memory(x, n), Memory(y, n)) <==> Swap(x, n) < Swap(y, n)
  {
    LexIsBigEndian(Memory(x, n), Memory(y, n));
  }

  // ... so 256 comes before 1 there.
  lemma UnswappedOrderIsNotNumeric()
    ensures LexLess(Memory(256, KEY_WIDTH), Memory(1, KEY_WIDTH))
  {
    assert Memory(256, KEY_WIDTH)[0] == 0;
    assert Memory(1, KEY_WIDTH)[0] == 1;
  }

  lemma SameBlock(x: nat, y: nat, n: nat)
    requires x / 256 == y / 256 && n > 0
    ensures LexLess(Memory(x, n), Memory(y, n)) <==> x < y
  {
    LexIsBigEndian(Memory(x / 256, n - 1), Memory(y / 256, n - 1));
    assert Memory(x, n)[1..] == Memory(y, n)[1..];
  }

  lemma BlockBorder(y: nat, n: nat)
    requires y > 0 && y % 256 == 0 && n > 0
    ensures LexLess(Memory(y, n), Memory(y - 1, n)) && !LexLess(Memory(y - 1, n), Memory(y, n))
  {
    assert Memory(y, n)[0] == 0 && Memory(y - 1, n)[0] == 255;
  }

  // Within a run of keys the unswapped order is numeric exactly when the run
  // crosses no multiple of 256.
  lemma UnswappedNumericIff(a: nat, b: nat, n: nat)
    requires a < b && n > 0
    ensures (forall x, y :: a <= x < b && a <= y < b ==> (LexLess(Memory(x, n), Memory(y, n)) <==> x < y)) <==>
            a / 256 == (b - 1) / 256
  {
    if a / 256 == (b - 1) / 256 {
      forall x, y | a <= x < b && a <= y < b ensures LexLess(Memory(x, n), Memory(y, n)) <==> x < y {
        SameBlock(x, y, n);
      }
    } else {
      var y := 256 * (a / 256) + 256;
      assert a <= y - 1 < y < b;
      BlockBorder(y, n);
    }
  }

  // The number a stored, swapped key stands for.
  lemma StoredKeyValue(x: nat, n: nat)
    requires x < Pow256(n)
    ensures BigEndian(Memory(Swap(x, n), n)) == x
  {
    SwappedMemory(x, n);
    ReverseTwice(Memory(x, n));
    ValueMemory(x, n);
  }

  lemma PowerDivides(x: nat, p: nat)
    requires p > 0
    ensures x / 256 / p == x / (256 * p)
  {
    var q, r := x / 256 / p, x / 256 % p;
    assert x / 256 == p * q + r;
    assert x == 256 * (p * q + r) + x % 256;
    DivisionUnique(x, 256 * p, q, 256 * r + x % 256);
  }

  // The i-th byte in memory is the i-th digit to the base 256, the lowest first.
  lemma {:induction false} MemoryDigit(x: nat, n: nat, i: nat)
    requires i < n
    ensures Memory(x, n)[i] == x / Pow256(i) % 256
  {
    if i > 0 {
      MemoryDigit(x / 256, n - 1, i - 1);
      PowerDivides(x, Pow256(i - 1));
    }
  }

  // A key that goes on where another one ends comes after it.
  lemma {:induction false} PrefixFirst(a: seq<Byte>, b: seq<Byte>)
    requires a <= b
    ensures LexLess(a, b) <==> a != b
    ensures !LexLess(b, a)
  {
    if a != [] { PrefixFirst(a[1..], b[1..]); }
  }
}
