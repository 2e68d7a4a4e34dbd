// The RocksDB adapter's own work over swapped keys (src/rocksdb/rocksdb.hpp).
// The engine itself is an ordered list of entries under its default bytewise
// comparator; the adapter must make it look like a map over numbers.
module RocksDb {
  import opened Wrappers
  import opened KeyEncoding
  import opened Buffers
  import opened Sums
  import opened Workloads
  import W = Worker

  // ----- the engine -----

  datatype Entry = Entry(key: seq<Byte>, value: seq<Byte>)

  function Put(entries: seq<Entry>, key: seq<Byte>, value: seq<Byte>): seq<Entry> {
    if entries == [] || LexLess(key, entries[0].key) then [Entry(key, value)] + entries
    else if entries[0].key == key then [Entry(key, value)] + entries[1..]
    else [entries[0]] + Put(entries[1..], key, value)
  }

  function Get(entries: seq<Entry>, key: seq<Byte>): Option<seq<Byte>> {
    if entries == [] then None
    else if entries[0].key == key then Some(entries[0].value)
    else Get(entries[1..], key)
  }

  // Where an iterator stands after seeking a key: at the first entry not below it.
  function Seek(entries: seq<Entry>, key: seq<Byte>): (i: nat)
    ensures i <= |entries|
  {
    if entries == [] || !LexLess(entries[0].key, key) then 0
    else 1 + Seek(entries[1..], key)
  }

  ghost predicate Keyed(entries: seq<Entry>) {
    forall i :: 0 <= i < |entries| ==> |entries[i].key| == KEY_WIDTH
  }

  ghost predicate Sorted(entries: seq<Entry>) {
    Keyed(entries) && forall i, j :: 0 <= i < j < |entries| ==> LexLess(entries[i].key, entries[j].key)
  }

  // ----- what the engine holds, as a map over numbers -----

  function KeyOf(e: Entry): nat {
    BigEndian(e.key)
  }

  ghost function Contents(entries: seq<Entry>): map<nat, seq<Byte>> {
    if entries == [] then map[]
    else Contents(entries[1..])[KeyOf(entries[0]) := entries[0].value]
  }

  ghost predicate Ascending(entries: seq<Entry>) {
    forall i, j :: 0 <= i < j < |entries| ==> KeyOf(entries[i]) < KeyOf(entries[j])
  }

  lemma SortedIsAscending(entries: seq<Entry>)
    requires Keyed(entries)
    ensures Sorted(entries) <==> Ascending(entries)
  {
    forall i, j | 0 <= i < j < |entries|
      ensures LexLess(entries[i].key, entries[j].key) <==> KeyOf(entries[i]) < KeyOf(entries[j])
    {
      LexIsBigEndian(entries[i].key, entries[j].key);
    }
  }

  lemma {:induction false} ContentsKeys(entries: seq<Entry>, k: nat)
    ensures k in Contents(entries) <==> exists i :: 0 <= i < |entries| && KeyOf(entries[i]) == k
  {
    if entries != [] {
      ContentsKeys(entries[1..], k);
      if k in Contents(entries[1..]) {
        var i :| 0 <= i < |entries[1..]| && KeyOf(entries[1..][i]) == k;
        assert entries[i + 1] == entries[1..][i];
      }
      if i :| 0 <= i < |entries| && KeyOf(entries[i]) == k {
        assert i > 0 ==> entries[1..][i - 1] == entries[i];
      }
    }
  }

  lemma {:induction false} ContentsAt(entries: seq<Entry>, i: nat)
    requires Ascending(entries) && i < |entries|
    ensures KeyOf(entries[i]) in Contents(entries) && Contents(entries)[KeyOf(entries[i])] == entries[i].value
  {
    if i > 0 {
      ContentsAt(entries[1..], i - 1);
    }
  }

  lemma {:induction false} PutMembers(entries: seq<Entry>, key: seq<Byte>, value: seq<Byte>, e: Entry)
    requires e in Put(entries, key, value)
    ensures e in entries || e == Entry(key, value)
  {
    if !(entries == [] || LexLess(key, entries[0].key) || entries[0].key == key) {
      if e != entries[0] { PutMembers(entries[1..], key, value, e); }
    }
  }

  lemma ConsAscending(e: Entry, rest: seq<Entry>)
    requires |e.key| == KEY_WIDTH && Keyed(rest) && Ascending(rest)
    requires forall j :: 0 <= j < |rest| ==> KeyOf(e) < KeyOf(rest[j])
    ensures Keyed([e] + rest) && Ascending([e] + rest)
  {
  }

  lemma PutAfter(entries: seq<Entry>, key: seq<Byte>, value: seq<Byte>)
    requires entries != [] && Ascending(entries) && KeyOf(entries[0]) < BigEndian(key)
    ensures forall j :: 0 <= j < |Put(entries[1..], key, value)| ==>
              KeyOf(entries[0]) < KeyOf(Put(entries[1..], key, value)[j])
  {
    var rest := Put(entries[1..], key, value);
    forall j | 0 <= j < |rest| ensures KeyOf(entries[0]) < KeyOf(rest[j]) {
      PutMembers(entries[1..], key, value, rest[j]);
    }
  }

  lemma {:induction false} PutAscending(entries: seq<Entry>, key: seq<Byte>, value: seq<Byte>)
    requires Keyed(entries) && Ascending(entries) && |key| == KEY_WIDTH
    ensures Keyed(Put(entries, key, value)) && Ascending(Put(entries, key, value))
  {
    if entries != [] {
      LexIsBigEndian(key, entries[0].key);
      if LexLess(key, entries[0].key) {
        ConsAscending(Entry(key, value), entries);
      } else if entries[0].key == key {
        ConsAscending(Entry(key, value), entries[1..]);
      } else {
        PutAscending(entries[1..], key, value);
        PutAfter(entries, key, value);
        ConsAscending(entries[0], Put(entries[1..], key, value));
      }
    }
  }

  lemma {:induction false} PutUpdates(entries: seq<Entry>, key: seq<Byte>, value: seq<Byte>)
    requires Keyed(entries) && |key| == KEY_WIDTH
    ensures Contents(Put(entries, key, value)) == Contents(entries)[BigEndian(key) := value]
  {
    var es := Put(entries, key, value);
    if entries != [] {
      LexIsBigEndian(key, entries[0].key);
      if LexLess(key, entries[0].key) {
        assert es[1..] == entries;
      } else if entries[0].key == key {
        assert es[1..] == entries[1..];
      } else {
        PutUpdates(entries[1..], key, value);
        assert es[1..] == Put(entries[1..], key, value);
      }
    }
  }

  // Writing under a swapped key updates the number's entry and nothing else.
  lemma PutContents(entries: seq<Entry>, key: seq<Byte>, value: seq<Byte>)
    requires Sorted(entries) && |key| == KEY_WIDTH
    ensures Sorted(Put(entries, key, value))
    ensures Contents(Put(entries, key, value)) == Contents(entries)[BigEndian(key) := value]
  {
    SortedIsAscending(entries);
    PutAscending(entries, key, value);
    PutUpdates(entries, key, value);
    SortedIsAscending(Put(entries, key, value));
  }

  lemma {:induction false} GetContents(entries: seq<Entry>, key: seq<Byte>)
    requires Keyed(entries) && |key| == KEY_WIDTH
    ensures Get(entries, key) ==
            if BigEndian(key) in Contents(entries) then Some(Contents(entries)[BigEndian(key)]) else None
  {
    if entries != [] {
      LexIsBigEndian(entries[0].key, key);
      GetContents(entries[1..], key);
    }
  }

  lemma {:induction false} SeekNumeric(entries: seq<Entry>, key: seq<Byte>)
    requires Keyed(entries) && Ascending(entries) && |key| == KEY_WIDTH
    ensures forall i :: 0 <= i < |entries| ==> (i < Seek(entries, key) <==> KeyOf(entries[i]) < BigEndian(key))
  {
    if entries != [] {
      LexIsBigEndian(entries[0].key, key);
      if LexLess(entries[0].key, key) {
        SeekNumeric(entries[1..], key);
        forall i | 0 <= i < |entries| ensures i < Seek(entries, key) <==> KeyOf(entries[i]) < BigEndian(key) {
          assert i > 0 ==> entries[i] == entries[1..][i - 1];
        }
      }
    }
  }

  // ----- selections -----

  // ks are the `length` smallest keys of m that are not below `key`, in
  // numeric order (all of them when there are fewer).
  ghost predicate IsSmallest(m: map<nat, seq<Byte>>, key: nat, length: nat, ks: seq<nat>) {
    && |ks| <= length
    && (forall i, j :: 0 <= i < j < |ks| ==> ks[i] < ks[j])
    && (forall i :: 0 <= i < |ks| ==> ks[i] in m && ks[i] >= key)
    && (forall k :: k in m && k >= key && k !in ks ==> |ks| == length && forall i :: 0 <= i < |ks| ==> ks[i] < k)
  }

  ghost predicate Agree(ks: seq<nat>, ls: seq<nat>, n: nat) {
    n <= |ks| && n <= |ls| && forall j :: 0 <= j < n ==> ks[j] == ls[j]
  }

  lemma NoSmaller(m: map<nat, seq<Byte>>, key: nat, length: nat, ks: seq<nat>, ls: seq<nat>, i: nat)
    requires IsSmallest(m, key, length, ks) && IsSmallest(m, key, length, ls) && i < |ks| && i < |ls|
    requires Agree(ks, ls, i)
    ensures ls[i] <= ks[i]
  {
    if j :| 0 <= j < |ls| && ls[j] == ks[i] {
      assert j >= i;
    } else {
      assert ks[i] !in ls;
    }
  }

  lemma SameNext(m: map<nat, seq<Byte>>, key: nat, length: nat, ks: seq<nat>, ls: seq<nat>, i: nat)
    requires IsSmallest(m, key, length, ks) && IsSmallest(m, key, length, ls) && i < |ks| && i < |ls|
    requires Agree(ks, ls, i)
    ensures Agree(ks, ls, i + 1)
  {
    assert Agree(ls, ks, i);
    NoSmaller(m, key, length, ks, ls, i);
    NoSmaller(m, key, length, ls, ks, i);
  }

  lemma {:induction false} SmallestPrefix(m: map<nat, seq<Byte>>, key: nat, length: nat,
        ks: seq<nat>, ls: seq<nat>, n: nat)
    requires IsSmallest(m, key, length, ks) && IsSmallest(m, key, length, ls) && n <= |ks| && n <= |ls|
    ensures Agree(ks, ls, n)
  {
    if n > 0 {
      SmallestPrefix(m, key, length, ks, ls, n - 1);
      SameNext(m, key, length, ks, ls, n - 1);
    }
  }

  lemma NextMissing(ks: seq<nat>, ls: seq<nat>)
    requires |ks| < |ls| && Agree(ks, ls, |ks|)
    requires forall i, j :: 0 <= i < j < |ls| ==> ls[i] < ls[j]
    ensures ls[|ks|] !in ks
  {
  }

  lemma NotShorter(m: map<nat, seq<Byte>>, key: nat, length: nat, ks: seq<nat>, ls: seq<nat>)
    requires IsSmallest(m, key, length, ks) && IsSmallest(m, key, length, ls)
    ensures |ks| >= |ls|
  {
    if |ks| < |ls| {
      SmallestPrefix(m, key, length, ks, ls, |ks|);
      NextMissing(ks, ls);
    }
  }

  // There is only one such list.
  lemma SmallestUnique(m: map<nat, seq<Byte>>, key: nat, length: nat, ks: seq<nat>, ls: seq<nat>)
    requires IsSmallest(m, key, length, ks) && IsSmallest(m, key, length, ls)
    ensures ks == ls
  {
    NotShorter(m, key, length, ks, ls);
    NotShorter(m, key, length, ls, ks);
    SmallestPrefix(m, key, length, ks, ls, |ks|);
  }

  // The numbers of the entries' keys.
  ghost function Numbers(entries: seq<Entry>): (ns: seq<nat>)
    ensures |ns| == |entries|
  {
    seq(|entries|, i requires 0 <= i < |entries| => KeyOf(entries[i]))
  }

  ghost function Keys(entries: seq<Entry>, from: nat, count: nat): (ks: seq<nat>)
    requires from + count <= |entries|
    ensures |ks| == count
  {
    Numbers(entries)[from..from + count]
  }

  // The values of the given keys, one after the other.
  ghost function Packed(m: map<nat, seq<Byte>>, ks: seq<nat>): seq<Byte> {
    if ks == [] then []
    else
      var last := ks[|ks| - 1];
      Packed(m, ks[..|ks| - 1]) + if last in m then m[last] else []
  }

  // ns are the keys of m, ascending.
  ghost predicate Lists(ns: seq<nat>, m: map<nat, seq<Byte>>) {
    && (forall i, j :: 0 <= i < j < |ns| ==> ns[i] < ns[j])
    && (forall i :: 0 <= i < |ns| ==> ns[i] in m)
    && (forall k :: k in m ==> k in ns)
  }

  ghost predicate StartsAt(ns: seq<nat>, from: nat, key: nat) {
    from <= |ns| && forall i :: 0 <= i < |ns| ==> (i < from <==> ns[i] < key)
  }

  lemma NumbersOf(entries: seq<Entry>, slice: seq<Byte>)
    requires Sorted(entries) && |slice| == KEY_WIDTH
    ensures Lists(Numbers(entries), Contents(entries))
    ensures StartsAt(Numbers(entries), Seek(entries, slice), BigEndian(slice))
  {
    var ns, m := Numbers(entries), Contents(entries);
    SortedIsAscending(entries);
    SeekNumeric(entries, slice);
    forall i | 0 <= i < |ns| ensures ns[i] in m {
      ContentsAt(entries, i);
    }
    forall k | k in m ensures k in ns {
      ContentsKeys(entries, k);
      var e :| 0 <= e < |entries| && KeyOf(entries[e]) == k;
      assert ns[e] == k;
    }
  }

  lemma InWindow(ns: seq<nat>, from: nat, count: nat, e: nat)
    requires from <= e < from + count <= |ns|
    ensures ns[e] in ns[from..from + count]
  {
    assert ns[from..from + count][e - from] == ns[e];
  }

  lemma Behind(ns: seq<nat>, from: nat, count: nat, ks: seq<nat>, k: nat)
    requires from + count <= |ns| && ks == ns[from..from + count] && k in ns && k !in ks
    requires forall i, j :: 0 <= i < j < |ns| ==> ns[i] < ns[j]
    requires forall i :: 0 <= i < from ==> ns[i] < k
    ensures from + count < |ns| && forall i :: 0 <= i < count ==> ks[i] < k
  {
    var e :| 0 <= e < |ns| && ns[e] == k;
    if from <= e < from + count {
      InWindow(ns, from, count, e);
    }
  }

  lemma Window(ns: seq<nat>, m: map<nat, seq<Byte>>, key: nat, length: nat, from: nat, count: nat, ks: seq<nat>)
    requires Lists(ns, m) && StartsAt(ns, from, key) && from + count <= |ns|
    requires count <= length && (count == length || from + count == |ns|)
    requires ks == ns[from..from + count]
    ensures IsSmallest(m, key, length, ks)
  {
    forall k | k in m && k >= key && k !in ks ensures count == length && forall i :: 0 <= i < count ==> ks[i] < k {
      Behind(ns, from, count, ks, k);
    }
  }

  // What an iterator passes from the seek position on.
  lemma IterationSelects(entries: seq<Entry>, slice: seq<Byte>, length: nat, count: nat)
    requires Sorted(entries) && |slice| == KEY_WIDTH
    requires count <= length && Seek(entries, slice) + count <= |entries|
    requires count == length || Seek(entries, slice) + count == |entries|
    ensures IsSmallest(Contents(entries), BigEndian(slice), length, Keys(entries, Seek(entries, slice), count))
  {
    NumbersOf(entries, slice);
    var from := Seek(entries, slice);
    Window(Numbers(entries), Contents(entries), BigEndian(slice), length, from, count, Keys(entries, from, count));
  }

  lemma KeysStep(entries: seq<Entry>, from: nat, count: nat)
    requires from + count < |entries|
    ensures Keys(entries, from, count + 1) == Keys(entries, from, count) + [KeyOf(entries[from + count])]
  {
  }

  lemma PackedAppend(m: map<nat, seq<Byte>>, ks: seq<nat>, k: nat)
    requires k in m
    ensures Packed(m, ks + [k]) == Packed(m, ks) + m[k]
  {
    assert (ks + [k])[..|ks|] == ks;
  }

  lemma PackedStep(entries: seq<Entry>, from: nat, count: nat)
    requires Ascending(entries) && from + count < |entries|
    ensures Packed(Contents(entries), Keys(entries, from, count + 1)) ==
            Packed(Contents(entries), Keys(entries, from, count)) + entries[from + count].value
  {
    ContentsAt(entries, from + count);
    KeysStep(entries, from, count);
    PackedAppend(Contents(entries), Keys(entries, from, count), KeyOf(entries[from + count]));
  }

  // The keys an iterator passes, up to `length` of them, from a position on, ...
  ghost function KeysFrom(entries: seq<Entry>, from: nat, length: nat): (ks: seq<nat>)
    requires from <= |entries|
    ensures |ks| == Min(length, |entries| - from)
  {
    Keys(entries, from, Min(length, |entries| - from))
  }

  // ... and from the sought key on.
  ghost function Selection(entries: seq<Entry>, key: nat, length: nat): (ks: seq<nat>)
    ensures |ks| <= length
  {
    KeysFrom(entries, Seek(entries, Memory(Swap(key, KEY_WIDTH), KEY_WIDTH)), length)
  }

  // They are the `length` smallest keys not below it.
  lemma SelectionIsSmallest(entries: seq<Entry>, key: nat, length: nat)
    requires Sorted(entries) && key < Pow256(KEY_WIDTH)
    ensures IsSmallest(Contents(entries), key, length, Selection(entries, key, length))
  {
    var slice := Memory(Swap(key, KEY_WIDTH), KEY_WIDTH);
    StoredKeyValue(key, KEY_WIDTH);
    IterationSelects(entries, slice, length, Min(length, |entries| - Seek(entries, slice)));
  }

  lemma {:induction false} PackedPrefix(m: map<nat, seq<Byte>>, ks: seq<nat>, n: nat)
    requires n <= |ks|
    ensures |Packed(m, ks[..n])| <= |Packed(m, ks)|
    decreases |ks|
  {
    if n < |ks| {
      PackedPrefix(m, ks[..|ks| - 1], n);
      assert ks[..|ks| - 1][..n] == ks[..n];
    } else {
      assert ks[..n] == ks;
    }
  }

  lemma {:induction false} PackedLength(m: map<nat, seq<Byte>>, ks: seq<nat>, cap: nat)
    requires forall k :: k in m ==> |m[k]| <= cap
    ensures |Packed(m, ks)| <= |ks| * cap
  {
    if ks != [] {
      PackedLength(m, ks[..|ks| - 1], cap);
      assert |ks| * cap == (|ks| - 1) * cap + cap;
    }
  }

  // The buffer holds the packed values of the entries passed, and behind them what it held before.
  ghost predicate Exported(was: seq<Byte>, buffer: seq<Byte>, bytes: nat, entries: seq<Entry>, from: nat, count: nat) {
    && from + count <= |entries| && bytes <= |was|
    && |Packed(Contents(entries), Keys(entries, from, count))| == bytes
    && buffer == Packed(Contents(entries), Keys(entries, from, count)) + was[bytes..]
  }

  lemma NothingExported(was: seq<Byte>, entries: seq<Entry>, from: nat)
    requires from <= |entries|
    ensures Exported(was, was, 0, entries, from, 0)
  {
  }

  lemma ExportedNext(was: seq<Byte>, before: seq<Byte>, after: seq<Byte>, bytes: nat, value: seq<Byte>,
        entries: seq<Entry>, from: nat, count: nat)
    requires Exported(was, before, bytes, entries, from, count)
    requires Sorted(entries) && from + count < |entries| && value == entries[from + count].value
    requires bytes + |value| <= |before| && after == before[..bytes] + value + before[bytes + |value|..]
    ensures Exported(was, after, bytes + |value|, entries, from, count + 1)
  {
    SortedIsAscending(entries);
    PackedStep(entries, from, count);
  }

  lemma KeysPrefix(entries: seq<Entry>, from: nat, count: nat, all: nat)
    requires count <= all && from + all <= |entries|
    ensures Keys(entries, from, all)[..count] == Keys(entries, from, count)
  {
  }

  lemma PackedRoom(entries: seq<Entry>, from: nat, count: nat, all: nat)
    requires Sorted(entries) && count < all && from + all <= |entries|
    ensures |Packed(Contents(entries), Keys(entries, from, count))| + |entries[from + count].value| <=
            |Packed(Contents(entries), Keys(entries, from, all))|
  {
    SortedIsAscending(entries);
    PackedStep(entries, from, count);
    KeysPrefix(entries, from, count + 1, all);
    PackedPrefix(Contents(entries), Keys(entries, from, all), count + 1);
  }

  // As long as something is left to pass, there is room for it.
  lemma RoomLeft(was: seq<Byte>, buffer: seq<Byte>, bytes: nat, entries: seq<Entry>, from: nat, count: nat, all: nat)
    requires Exported(was, buffer, bytes, entries, from, count)
    requires Sorted(entries) && count < all && from + all <= |entries|
    requires |Packed(Contents(entries), Keys(entries, from, all))| <= |was|
    ensures |buffer| == |was| && bytes + |entries[from + count].value| <= |buffer|
  {
    PackedRoom(entries, from, count, all);
  }

  // ----- the adapter -----

  // A key_t variable, which `to_slice` changes through a reference.
  class KeyVar {
    var value: nat

    constructor (value: nat)
      ensures this.value == value
    {
      this.value := value;
    }
  }

  // to_slice: swaps the variable in place and views its memory.
  method ToSlice(key: KeyVar) returns (slice: seq<Byte>)
    requires key.value < Pow256(KEY_WIDTH)
    modifies key
    ensures key.value == Swap(old(key.value), KEY_WIDTH) < Pow256(KEY_WIDTH)
    ensures |slice| == 8 && slice == Memory(key.value, KEY_WIDTH) && BigEndian(slice) == old(key.value)
  {
    StoredKeyValue(key.value, KEY_WIDTH);
    SwappedMemory(key.value, KEY_WIDTH);
    key.value := Swap(key.value, KEY_WIDTH);
    slice := Memory(key.value, KEY_WIDTH);
  }

  lemma PassedFits(entries: seq<Entry>, from: nat, count: nat, all: nat, room: nat)
    requires Sorted(entries) && count < all && from + all <= |entries|
    requires Fit(Contents(entries), Keys(entries, from, all), room)
    ensures var k := KeyOf(entries[from + count]);
            && k in Contents(entries) && Contents(entries)[k] == entries[from + count].value
            && |entries[from + count].value| <= room
            && Keys(entries, from, count + 1) == Keys(entries, from, count) + [k]
  {
    SortedIsAscending(entries);
    ContentsAt(entries, from + count);
    KeysStep(entries, from, count);
    assert Keys(entries, from, all)[count] == KeyOf(entries[from + count]);
  }

  // The loop of range_select, from the position of the iterator.
  method ExportFrom(entries: seq<Entry>, from: nat, length: nat, buffer: array<Byte>) returns (i: nat)
    requires Sorted(entries) && from <= |entries|
    requires |Packed(Contents(entries), KeysFrom(entries, from, length))| <= buffer.Length
    modifies buffer
    ensures i == |KeysFrom(entries, from, length)|
    ensures var data := Packed(Contents(entries), KeysFrom(entries, from, length));
            buffer[..] == data + old(buffer[|data|..])
  {
    ghost var was, all := buffer[..], Min(length, |entries| - from);
    i := 0;
    var exportedBytes: nat := 0;
    NothingExported(was, entries, from);
    while from + i < |entries| && i != length
      invariant i <= all
      invariant Exported(was, buffer[..], exportedBytes, entries, from, i)
    {
      ghost var before := buffer[..];
      var value := entries[from + i].value;
      RoomLeft(was, before, exportedBytes, entries, from, i, all);
      CopyInto(buffer, exportedBytes, value);
      ExportedNext(was, before, buffer[..], exportedBytes, value, entries, from, i);
      exportedBytes := exportedBytes + |value|;
      i := i + 1;
    }
    assert Exported(was, buffer[..], exportedBytes, entries, from, all);
  }

  // The loop of scan, from the position of the iterator.
  method OverwriteFrom(entries: seq<Entry>, from: nat, length: nat, buffer: array<Byte>) returns (i: nat)
    requires Sorted(entries) && from <= |entries|
    requires Fit(Contents(entries), KeysFrom(entries, from, length), buffer.Length)
    modifies buffer
    ensures i == |KeysFrom(entries, from, length)|
    ensures buffer[..] == Overwritten(old(buffer[..]), Contents(entries), KeysFrom(entries, from, length))
  {
    ghost var was, m, all := buffer[..], Contents(entries), Min(length, |entries| - from);
    ghost var ks := Keys(entries, from, 0);
    i := 0;
    while from + i < |entries| && i != length
      invariant i <= all && ks == Keys(entries, from, i)
      invariant buffer[..] == Overwritten(was, m, ks)
    {
      PassedFits(entries, from, i, all, buffer.Length);
      ghost var before := buffer[..];
      CopyInto(buffer, 0, entries[from + i].value);
      CopiedOver(was, before, buffer[..], m, ks, KeyOf(entries[from + i]));
      i := i + 1;
      ks := Keys(entries, from, i);
    }
  }

  datatype Status = Ok | NotFound

  datatype OperationResult = OperationResult(entriesTouched: nat, status: Status)

  class RocksDb {
    var entries: seq<Entry>

    ghost predicate Valid()
      reads this
    {
      Sorted(entries)
    }

    ghost function Map(): map<nat, seq<Byte>>
      reads this
    {
      Contents(entries)
    }

    constructor ()
      ensures Valid() && Map() == map[]
    {
      entries := [];
    }

    method Upsert(key: nat, value: seq<Byte>) returns (r: OperationResult)
      requires Valid() && key < Pow256(KEY_WIDTH)
      modifies this
      ensures Valid() && Map() == old(Map())[key := value] && r == OperationResult(1, Ok)
    {
      var keyVar := new KeyVar(key);
      var slice := ToSlice(keyVar);
      PutContents(entries, slice, value);
      entries := Put(entries, slice, value);
      r := OperationResult(1, Ok);
    }

    // update: one variable is swapped for the read, another one for the write.
    method Update(key: nat, value: seq<Byte>) returns (r: OperationResult)
      requires Valid() && key < Pow256(KEY_WIDTH)
      modifies this
      ensures Valid()
      ensures if key in old(Map()) then Map() == old(Map())[key := value] && r == OperationResult(1, Ok)
              else entries == old(entries) && r == OperationResult(0, NotFound)
    {
      var keyToRead := new KeyVar(key);
      var keyToWrite := new KeyVar(key);
      var slice := ToSlice(keyToRead);
      GetContents(entries, slice);
      if Get(entries, slice).None? {
        return OperationResult(0, NotFound);
      }
      slice := ToSlice(keyToWrite);
      PutContents(entries, slice, value);
      entries := Put(entries, slice, value);
      r := OperationResult(1, Ok);
    }

    method Read(key: nat, buffer: array<Byte>) returns (r: OperationResult)
      requires Valid() && key < Pow256(KEY_WIDTH)
      requires key in Map() ==> |Map()[key]| <= buffer.Length
      modifies buffer
      ensures if key in Map()
              then r == OperationResult(1, Ok) && buffer[..] == Map()[key] + old(buffer[|Map()[key]|..])
              else r == OperationResult(0, NotFound) && buffer[..] == old(buffer[..])
    {
      var keyVar := new KeyVar(key);
      var slice := ToSlice(keyVar);
      GetContents(entries, slice);
      var data := Get(entries, slice);
      if data.None? {
        return OperationResult(0, NotFound);
      }
      CopyInto(buffer, 0, data.value);
      r := OperationResult(1, Ok);
    }

    // range_select exports, in numeric order, the values of the `length`
    // smallest keys not below the given one.
    method RangeSelect(key: nat, length: nat, buffer: array<Byte>) returns (r: OperationResult, ghost ks: seq<nat>)
      requires Valid() && key < Pow256(KEY_WIDTH)
      requires |Packed(Map(), Selection(entries, key, length))| <= buffer.Length
      modifies buffer
      ensures IsSmallest(Map(), key, length, ks) && r == OperationResult(|ks|, Ok)
      ensures var data := Packed(Map(), ks); |data| <= buffer.Length && buffer[..] == data + old(buffer[|data|..])
    {
      var keyVar := new KeyVar(key);
      var slice := ToSlice(keyVar);
      SelectionIsSmallest(entries, key, length);
      var i := ExportFrom(entries, Seek(entries, slice), length, buffer);
      ks := Selection(entries, key, length);
      r := OperationResult(i, Ok);
    }

    // scan visits the same entries; every value overwrites the one before it.
    method Scan(key: nat, length: nat, buffer: array<Byte>) returns (r: OperationResult, ghost ks: seq<nat>)
      requires Valid() && key < Pow256(KEY_WIDTH)
      requires Fit(Map(), Selection(entries, key, length), buffer.Length)
      modifies buffer
      ensures IsSmallest(Map(), key, length, ks) && r == OperationResult(|ks|, Ok)
      ensures buffer[..] == Overwritten(old(buffer[..]), Map(), ks)
    {
      var keyVar := new KeyVar(key);
      var slice := ToSlice(keyVar);
      SelectionIsSmallest(entries, key, length);
      var i := OverwriteFrom(entries, Seek(entries, slice), length, buffer);
      ks := Selection(entries, key, length);
      r := OperationResult(i, Ok);
    }
  }

  // The span the worker hands out for `length` values (src/core/worker.hpp) has
  // room for everything a range select exports.
  lemma RangeSelectFits(w: Workload, entries: seq<Entry>, key: nat, length: nat)
    requires w.valueLength < 0x1_0000_0000 && length <= W.ElementsMax(w)
    requires forall k :: k in Contents(entries) ==> |Contents(entries)[k]| <= w.valueLength
    ensures |Packed(Contents(entries), Selection(entries, key, length))| <= W.ValuesSpan(w, length)
  {
    var ks := Selection(entries, key, length);
    PackedLength(Contents(entries), ks, w.valueLength);
    Scale(|ks|, length, w.valueLength);
    W.ValuesFit(w, length);
  }
}
