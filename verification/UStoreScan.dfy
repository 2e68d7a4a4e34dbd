// The chunk loop of ustore_t::scan (src/ustore/ustore.hpp). The store is its
// keys in ascending order; the chunk limit (1'000'000) is a parameter.
module UStoreScan {
  import opened Sequences
  import opened Sums
  import opened KeyEncoding
  import opened Buffers

  predicate Ascending(keys: seq<nat>) {
    forall i, j :: 0 <= i < j < |keys| ==> keys[i] < keys[j]
  }

  // The first position from i on whose key is not below the given one.
  function RankFrom(keys: seq<nat>, key: nat, i: nat): (r: nat)
    requires i <= |keys|
    ensures i <= r <= |keys|
    decreases |keys| - i
  {
    if i == |keys| || keys[i] >= key then i else RankFrom(keys, key, i + 1)
  }

  // How many of the ascending keys lie below the given one.
  function Rank(keys: seq<nat>, key: nat): (r: nat)
    ensures r <= |keys|
  {
    RankFrom(keys, key, 0)
  }

  // One scan of the engine: up to `limit` keys from `key` on.
  function ScanOnce(keys: seq<nat>, key: nat, limit: nat): seq<nat> {
    var from := Rank(keys, key);
    keys[from..Min(from + limit, |keys|)]
  }

  // The keys the loop visits when it stands at `key` with `remaining` to go.
  function Chunks(keys: seq<nat>, key: nat, remaining: nat, chunk: nat): seq<nat>
    requires chunk > 0
    decreases remaining
  {
    if remaining <= chunk then ScanOnce(keys, key, remaining)
    else ScanOnce(keys, key, chunk) + Chunks(keys, key + chunk, remaining - chunk, chunk)
  }

  // ustore_length_t has 32 bits; a longer length is truncated.
  const LENGTHS: nat := 0x1_0000_0000

  function Truncated(n: nat): (t: nat)
    ensures t < LENGTHS
  {
    n % LENGTHS
  }

  // No more keys are visited than asked for.
  lemma {:induction false} ChunksShort(keys: seq<nat>, key: nat, remaining: nat, chunk: nat)
    requires chunk > 0
    ensures |Chunks(keys, key, remaining, chunk)| <= remaining
    decreases remaining
  {
    if remaining > chunk {
      ChunksShort(keys, key + chunk, remaining - chunk, chunk);
    }
  }

  lemma ChunksStep(keys: seq<nat>, key: nat, nextKey: nat, remaining: nat, nextRemaining: nat, chunk: nat, len: nat)
    requires chunk > 0 && remaining > 0 && len == Min(remaining, chunk)
    requires nextKey == key + len && nextRemaining == remaining - len
    ensures Chunks(keys, key, remaining, chunk) ==
            ScanOnce(keys, key, len) + Chunks(keys, nextKey, nextRemaining, chunk)
  {
    if remaining <= chunk {
      assert Chunks(keys, nextKey, nextRemaining, chunk) == [];
      assert ScanOnce(keys, key, len) + [] == ScanOnce(keys, key, len);
    }
  }

  // 32-bit addition, of lengths whose sum does not wrap around.
  method AddLengths(a: nat, b: nat) returns (sum: nat)
    requires a + b < LENGTHS
    ensures sum == a + b
  {
    sum := Truncated(a + b);
  }

  // The inner loop of a chunk.
  method ReadAll(ghost was: seq<Byte>, ghost visited: seq<nat>, foundKeys: seq<nat>, values: map<nat, seq<Byte>>,
        buffer: array<Byte>)
    requires Fit(values, foundKeys, buffer.Length)
    requires buffer[..] == Overwritten(was, values, visited)
    modifies buffer
    ensures buffer[..] == Overwritten(was, values, visited + foundKeys)
  {
    ghost var seen := visited;
    for i := 0 to |foundKeys|
      invariant seen == visited + foundKeys[..i]
      invariant buffer[..] == Overwritten(was, values, seen)
    {
      var k := foundKeys[i];
      if k in values {
        ghost var before := buffer[..];
        CopyInto(buffer, 0, values[k]);
        CopiedOver(was, before, buffer[..], values, seen, k);
      } else {
        OverwrittenAppend(was, values, seen, k);
      }
      seen := seen + [k];
    }
    assert foundKeys[..|foundKeys|] == foundKeys;
  }

  // The invariant of the loop: `rest` is still to be visited, of `all`.
  ghost predicate Stands(keys: seq<nat>, chunk: nat, all: seq<nat>, key: nat, remaining: nat, len: nat,
        scanned: nat, visited: seq<nat>, rest: seq<nat>)
  {
    && chunk > 0 && len == Min(remaining, chunk)
    && rest == Chunks(keys, key, remaining, chunk) && visited + rest == all
    && scanned == |visited|
  }

  // Before a chunk is read: nothing wraps around, and the buffer has room.
  lemma BeforeChunk(keys: seq<nat>, values: map<nat, seq<Byte>>, chunk: nat, all: seq<nat>, key: nat, remaining: nat,
        len: nat, scanned: nat, visited: seq<nat>, rest: seq<nat>, room: nat)
    requires Stands(keys, chunk, all, key, remaining, len, scanned, visited, rest)
    requires remaining > 0 && |all| < LENGTHS && Fit(values, all, room)
    ensures var foundKeys := ScanOnce(keys, key, len);
            && 0 < len <= remaining && foundKeys <= rest
            && scanned + |foundKeys| < LENGTHS
            && Fit(values, foundKeys, room)
  {
    var foundKeys := ScanOnce(keys, key, len);
    assert foundKeys <= rest;
    assert forall k :: k in foundKeys ==> k in visited + rest;
  }

  lemma Shift(visited: seq<nat>, foundKeys: seq<nat>, next: seq<nat>, rest: seq<nat>, all: seq<nat>)
    requires rest == foundKeys + next && visited + rest == all
    ensures rest[|foundKeys|..] == next && visited + foundKeys + rest[|foundKeys|..] == all
  {
  }

  // After it has been read, and the variables have moved on.
  lemma AfterChunk(keys: seq<nat>, chunk: nat, all: seq<nat>, key: nat, nextKey: nat, remaining: nat,
        nextRemaining: nat, len: nat, nextLen: nat, scanned: nat, nextScanned: nat, visited: seq<nat>, rest: seq<nat>,
        foundKeys: seq<nat>)
    requires Stands(keys, chunk, all, key, remaining, len, scanned, visited, rest)
    requires remaining > 0 && foundKeys == ScanOnce(keys, key, len) && foundKeys <= rest
    requires nextKey == key + len && nextRemaining == remaining - len && nextLen == Min(len, nextRemaining)
    requires nextScanned == scanned + |foundKeys|
    ensures Stands(keys, chunk, all, nextKey, nextRemaining, nextLen, nextScanned,
                   visited + foundKeys, rest[|foundKeys|..])
  {
    ChunksStep(keys, key, nextKey, remaining, nextRemaining, chunk, len);
    Shift(visited, foundKeys, Chunks(keys, nextKey, nextRemaining, chunk), rest, all);
  }

  // The loop, over a store with these keys and values. Every value read is
  // copied to the front of the one buffer; a key whose value is missing by then is
  // counted all the same.
  method Scan(keys: seq<nat>, values: map<nat, seq<Byte>>, key: nat, length: nat, chunkLimit: nat, buffer: array<Byte>)
    returns (scanned: nat, found: bool, ghost visited: seq<nat>)
    requires chunkLimit > 0
    requires Fit(values, Chunks(keys, key, Truncated(length), chunkLimit), buffer.Length)
    modifies buffer
    ensures visited == Chunks(keys, key, Truncated(length), chunkLimit)
    ensures scanned == |visited| && (found <==> visited != [])
    ensures buffer[..] == Overwritten(old(buffer[..]), values, visited)
  {
    var key_ := key;
    var remaining := Truncated(length);
    var len := Min(remaining, chunkLimit);
    scanned := 0;
    visited := [];
    ghost var was, all := buffer[..], Chunks(keys, key, remaining, chunkLimit);
    ghost var rest := all;
    ChunksShort(keys, key, remaining, chunkLimit);
    assert visited + rest == all;
    while remaining != 0
      invariant Stands(keys, chunkLimit, all, key_, remaining, len, scanned, visited, rest)
      invariant buffer[..] == Overwritten(was, values, visited)
      decreases remaining
    {
      var foundKeys := ScanOnce(keys, key_, len);
      BeforeChunk(keys, values, chunkLimit, all, key_, remaining, len, scanned, visited, rest, buffer.Length);
      ReadAll(was, visited, foundKeys, values, buffer);
      ghost var key0, remaining0, len0, scanned0 := key_, remaining, len, scanned;
      scanned := AddLengths(scanned, |foundKeys|);
      key_ := key_ + len;
      remaining := remaining - len;
      len := Min(len, remaining);
      AfterChunk(keys, chunkLimit, all, key0, key_, remaining0, remaining, len0, len, scanned0, scanned,
                 visited, rest, foundKeys);
      visited, rest := visited + foundKeys, rest[|foundKeys|..];
    }
    assert visited + [] == visited;
    found := scanned > 0;
  }

  // ----- when the loop is one scan -----

  // The boundary at key + offset does not disturb the scan: either every key
  // below it (from `key` on) is present, or there is no key at or above it.
  ghost predicate CleanBoundary(keys: seq<nat>, key: nat, offset: nat) {
    || (forall k :: key <= k < key + offset ==> k in keys)
    || (forall k :: k in keys ==> k < key + offset)
  }

  // Every boundary between two chunks is clean, from the given offset on.
  ghost predicate CleanFrom(keys: seq<nat>, key: nat, length: nat, chunk: nat, offset: nat)
    requires chunk > 0
    decreases length - offset
  {
    offset >= length || (CleanBoundary(keys, key, offset) && CleanFrom(keys, key, length, chunk, offset + chunk))
  }

  lemma {:induction false} RankFromMeaning(keys: seq<nat>, key: nat, i: nat)
    requires i <= |keys|
    ensures var r := RankFrom(keys, key, i);
            (forall j :: i <= j < r ==> keys[j] < key) && (r < |keys| ==> keys[r] >= key)
    decreases |keys| - i
  {
    if i < |keys| && keys[i] < key {
      RankFromMeaning(keys, key, i + 1);
    }
  }

  lemma RankSplits(keys: seq<nat>, key: nat, i: nat)
    requires Ascending(keys) && i < |keys|
    ensures keys[i] < key <==> i < Rank(keys, key)
  {
    RankFromMeaning(keys, key, 0);
  }

  lemma RankStep(keys: seq<nat>, key: nat)
    requires Ascending(keys)
    ensures Rank(keys, key + 1) == Rank(keys, key) + if key in keys then 1 else 0
  {
    var r, next := Rank(keys, key), Rank(keys, key + 1);
    RankFromMeaning(keys, key, 0);
    RankFromMeaning(keys, key + 1, 0);
    if key in keys {
      var i :| 0 <= i < |keys| && keys[i] == key;
      assert i == r;
      assert r + 1 < |keys| ==> keys[r] < keys[r + 1];
    } else {
      assert r < |keys| ==> keys[r] != key;
    }
  }

  lemma RankAll(keys: seq<nat>, key: nat)
    requires forall i :: 0 <= i < |keys| ==> keys[i] < key
    ensures Rank(keys, key) == |keys|
  {
    RankFromMeaning(keys, key, 0);
  }

  // No more than `offset` keys lie in [key, key + offset), and that many only when all are present.
  lemma {:induction false} RankRange(keys: seq<nat>, key: nat, offset: nat)
    requires Ascending(keys)
    ensures 0 <= Rank(keys, key + offset) - Rank(keys, key) <= offset
    ensures Rank(keys, key + offset) - Rank(keys, key) == offset <==> forall k :: key <= k < key + offset ==> k in keys
  {
    if offset > 0 {
      RankRange(keys, key, offset - 1);
      RankStep(keys, key + offset - 1);
    }
  }

  lemma CleanIsAligned(keys: seq<nat>, key: nat, offset: nat)
    requires Ascending(keys)
    ensures Rank(keys, key + offset) <= Rank(keys, key) + Min(offset, |keys| - Rank(keys, key))
    ensures CleanBoundary(keys, key, offset) <==>
            Rank(keys, key + offset) == Rank(keys, key) + Min(offset, |keys| - Rank(keys, key))
  {
    RankRange(keys, key, offset);
    forall i | 0 <= i < |keys| ensures keys[i] < key + offset <==> i < Rank(keys, key + offset) {
      RankSplits(keys, key + offset, i);
    }
    if Rank(keys, key + offset) < |keys| {
      assert keys[Rank(keys, key + offset)] in keys;
    }
  }

  // The keys of a single scan from its o-th on.
  function SingleFrom(keys: seq<nat>, key: nat, length: nat, o: nat): seq<nat>
    requires o <= length
  {
    var from := Rank(keys, key);
    var m := |keys| - from;
    keys[from + Min(o, m)..from + Min(length, m)]
  }

  // A chunk that starts at an unclean boundary visits a key for a second time.
  lemma UncleanDiffers(keys: seq<nat>, key: nat, length: nat, chunk: nat, offset: nat)
    requires Ascending(keys) && chunk > 0 && offset < length && !CleanBoundary(keys, key, offset)
    ensures Chunks(keys, key + offset, length - offset, chunk) != SingleFrom(keys, key, length, offset)
  {
    CleanIsAligned(keys, key, offset);
    var again := Chunks(keys, key + offset, length - offset, chunk);
    var single := SingleFrom(keys, key, length, offset);
    assert again[0] == keys[Rank(keys, key + offset)];
    if single != [] {
      assert single[0] == keys[Rank(keys, key) + Min(offset, |keys| - Rank(keys, key))];
    }
  }

  lemma Cut(keys: seq<nat>, a: nat, b: nat, c: nat)
    requires a <= b <= c <= |keys|
    ensures keys[a..c] == keys[a..b] + keys[b..c]
  {
  }

  // A clean boundary starts the chunk that a single scan would continue with, ...
  lemma FirstOfSingle(keys: seq<nat>, key: nat, length: nat, chunk: nat, offset: nat)
    requires Ascending(keys) && offset + chunk < length && CleanBoundary(keys, key, offset)
    ensures SingleFrom(keys, key, length, offset) ==
            ScanOnce(keys, key + offset, chunk) + SingleFrom(keys, key, length, offset + chunk)
  {
    CleanIsAligned(keys, key, offset);
    var from, start := Rank(keys, key), Rank(keys, key + offset);
    var m := |keys| - from;
    Cut(keys, start, Min(start + chunk, |keys|), from + Min(length, m));
    assert Min(start + chunk, |keys|) == from + Min(offset + chunk, m);
  }

  // ... or ends with.
  lemma LastOfSingle(keys: seq<nat>, key: nat, length: nat, offset: nat)
    requires Ascending(keys) && offset < length && CleanBoundary(keys, key, offset)
    ensures SingleFrom(keys, key, length, offset) == ScanOnce(keys, key + offset, length - offset)
  {
    CleanIsAligned(keys, key, offset);
    var from, start := Rank(keys, key), Rank(keys, key + offset);
    assert Min(start + (length - offset), |keys|) == from + Min(length, |keys| - from);
  }

  lemma SamePrefix(first: seq<nat>, again: seq<nat>, rest: seq<nat>, chunks: seq<nat>, single: seq<nat>)
    requires chunks == first + again && single == first + rest
    ensures chunks == single <==> again == rest
  {
    assert chunks[|first|..] == again;
    assert single[|first|..] == rest;
  }

  lemma FirstOfChunks(keys: seq<nat>, key: nat, length: nat, chunk: nat, offset: nat)
    requires chunk > 0 && offset + chunk < length
    ensures Chunks(keys, key + offset, length - offset, chunk) ==
            ScanOnce(keys, key + offset, chunk)
            + Chunks(keys, key + (offset + chunk), length - (offset + chunk), chunk)
  {
    assert key + (offset + chunk) == key + offset + chunk;
  }

  lemma MoreChunks(keys: seq<nat>, key: nat, length: nat, chunk: nat, offset: nat)
    requires Ascending(keys) && chunk > 0 && offset + chunk < length && CleanBoundary(keys, key, offset)
    ensures Chunks(keys, key + offset, length - offset, chunk) == SingleFrom(keys, key, length, offset) <==>
            Chunks(keys, key + (offset + chunk), length - (offset + chunk), chunk) ==
            SingleFrom(keys, key, length, offset + chunk)
  {
    var next := offset + chunk;
    FirstOfSingle(keys, key, length, chunk, offset);
    FirstOfChunks(keys, key, length, chunk, offset);
    SamePrefix(ScanOnce(keys, key + offset, chunk),
               Chunks(keys, key + next, length - next, chunk), SingleFrom(keys, key, length, next),
               Chunks(keys, key + offset, length - offset, chunk), SingleFrom(keys, key, length, offset));
  }

  lemma LastChunk(keys: seq<nat>, key: nat, length: nat, chunk: nat, offset: nat)
    requires Ascending(keys) && offset < length <= offset + chunk && CleanBoundary(keys, key, offset)
    ensures Chunks(keys, key + offset, length - offset, chunk) == SingleFrom(keys, key, length, offset)
  {
    LastOfSingle(keys, key, length, offset);
  }

  // From the given offset on the loop visits what a single scan would.
  ghost predicate Continues(keys: seq<nat>, key: nat, length: nat, chunk: nat, offset: nat)
    requires chunk > 0 && offset <= length
  {
    Chunks(keys, key + offset, length - offset, chunk) == SingleFrom(keys, key, length, offset)
  }

  lemma ContinuesStep(keys: seq<nat>, key: nat, length: nat, chunk: nat, offset: nat)
    requires Ascending(keys) && chunk > 0 && offset < length
    ensures Continues(keys, key, length, chunk, offset) <==>
            CleanBoundary(keys, key, offset) &&
            (offset + chunk < length ==> Continues(keys, key, length, chunk, offset + chunk))
  {
    if !CleanBoundary(keys, key, offset) {
      UncleanDiffers(keys, key, length, chunk, offset);
    } else if offset + chunk < length {
      MoreChunks(keys, key, length, chunk, offset);
    } else {
      LastChunk(keys, key, length, chunk, offset);
    }
  }

  lemma {:induction false} ChunksIffClean(keys: seq<nat>, key: nat, length: nat, chunk: nat, offset: nat)
    requires Ascending(keys) && chunk > 0 && offset < length
    ensures Continues(keys, key, length, chunk, offset) <==> CleanFrom(keys, key, length, chunk, offset)
    decreases length - offset
  {
    ContinuesStep(keys, key, length, chunk, offset);
    if offset + chunk < length {
      ChunksIffClean(keys, key, length, chunk, offset + chunk);
    }
  }

  // The loop visits exactly what a single scan would visit, in the same order,
  // if and only if every chunk boundary inside the length is clean.
  lemma ChunkedScanIffClean(keys: seq<nat>, key: nat, length: nat, chunk: nat)
    requires Ascending(keys) && chunk > 0
    ensures Chunks(keys, key, length, chunk) == ScanOnce(keys, key, length) <==>
            CleanFrom(keys, key, length, chunk, chunk)
  {
    if length > 0 {
      ChunksIffClean(keys, key, length, chunk, 0);
      assert SingleFrom(keys, key, length, 0) == ScanOnce(keys, key, length);
    }
  }

  ghost predicate Contiguous(keys: seq<nat>, key: nat, m: nat) {
    forall k :: k >= key ==> (k in keys <==> k < key + m)
  }

  lemma {:induction false} ContiguousIsClean(keys: seq<nat>, key: nat, m: nat, length: nat, chunk: nat, offset: nat)
    requires chunk > 0 && Contiguous(keys, key, m)
    ensures CleanFrom(keys, key, length, chunk, offset)
    decreases length - offset
  {
    if offset < length {
      ContiguousIsClean(keys, key, m, length, chunk, offset + chunk);
    }
  }

  lemma RunLength(keys: seq<nat>, key: nat, m: nat)
    requires Ascending(keys) && Contiguous(keys, key, m)
    ensures |keys| == Rank(keys, key) + m
  {
    RankRange(keys, key, m);
    forall i | 0 <= i < |keys| ensures keys[i] < key + m {
      assert keys[i] in keys;
    }
    RankAll(keys, key + m);
  }

  lemma RunOfKeys(keys: seq<nat>, key: nat, m: nat, i: nat)
    requires Ascending(keys) && Contiguous(keys, key, m) && i < m
    ensures |keys| == Rank(keys, key) + m
    ensures keys[Rank(keys, key) + i] == key + i
  {
    RunLength(keys, key, m);
    RankRange(keys, key, i);
    RankStep(keys, key + i);
    var r := Rank(keys, key + i);
    RankSplits(keys, key + i, r);
    RankSplits(keys, key + i + 1, r);
  }

  lemma SingleScanOfRun(keys: seq<nat>, key: nat, m: nat, length: nat)
    requires Ascending(keys) && Contiguous(keys, key, m)
    ensures ScanOnce(keys, key, length) == Range(key, Min(length, m))
  {
    RunLength(keys, key, m);
    var found := ScanOnce(keys, key, length);
    assert |found| == Min(length, m);
    forall i | 0 <= i < |found| ensures found[i] == key + i {
      RunOfKeys(keys, key, m, i);
    }
  }

  // In particular a store whose keys from `key` on are key .. key + m - 1 is
  // scanned right for any chunk limit: the first min(length, m) keys, once each.
  lemma ContiguousScan(keys: seq<nat>, key: nat, m: nat, length: nat, chunk: nat)
    requires Ascending(keys) && chunk > 0 && Contiguous(keys, key, m)
    ensures Chunks(keys, key, length, chunk) == Range(key, Min(length, m))
  {
    ContiguousIsClean(keys, key, m, length, chunk, chunk);
    ChunkedScanIffClean(keys, key, length, chunk);
    SingleScanOfRun(keys, key, m, length);
  }

  lemma SameRuns(key: nat, a: nat, b: nat)
    ensures Range(key, a) == Range(key, b) <==> a == b
  {
    assert |Range(key, a)| == a && |Range(key, b)| == b;
  }

  // Such a store is scanned in full length exactly when the length survives the
  // truncation to 32 bits, or the run is over before the truncated length is.
  lemma TruncatedScanIff(keys: seq<nat>, key: nat, m: nat, length: nat, chunk: nat)
    requires Ascending(keys) && chunk > 0 && Contiguous(keys, key, m)
    ensures Chunks(keys, key, Truncated(length), chunk) == ScanOnce(keys, key, length) <==>
            length < LENGTHS || m <= Truncated(length)
  {
    ContiguousScan(keys, key, m, Truncated(length), chunk);
    SingleScanOfRun(keys, key, m, length);
    SameRuns(key, Min(Truncated(length), m), Min(length, m));
    assert Truncated(length) <= length;
    assert length >= LENGTHS ==> Truncated(length) < length;
  }

  lemma InScan(keys: seq<nat>, from: nat, to: nat, i: nat)
    requires from <= i < to <= |keys|
    ensures keys[i] in keys[from..to]
  {
    assert keys[from..to][i - from] == keys[i];
  }

  lemma BehindScan(keys: seq<nat>, from: nat, limit: nat, found: seq<nat>, k: nat)
    requires Ascending(keys) && from <= |keys| && found == keys[from..Min(from + limit, |keys|)]
    requires k in keys && k !in found && forall i :: 0 <= i < from ==> keys[i] < k
    ensures |found| == limit && forall f :: f in found ==> f < k
  {
    var i :| 0 <= i < |keys| && keys[i] == k;
    if from <= i < Min(from + limit, |keys|) {
      InScan(keys, from, Min(from + limit, |keys|), i);
    }
  }

  // One scan of the engine: the `limit` smallest keys not below `key`, ascending.
  lemma ScanOnceSelects(keys: seq<nat>, key: nat, limit: nat)
    requires Ascending(keys)
    ensures var found := ScanOnce(keys, key, limit);
            && |found| <= limit && Ascending(found)
            && (forall k :: k in found ==> k in keys && k >= key)
            && (forall k :: k in keys && k >= key && k !in found ==>
                  |found| == limit && forall f :: f in found ==> f < k)
  {
    var found, from := ScanOnce(keys, key, limit), Rank(keys, key);
    forall i | 0 <= i < |keys| ensures keys[i] < key <==> i < from {
      RankSplits(keys, key, i);
    }
    forall k | k in keys && k >= key && k !in found ensures |found| == limit && forall f :: f in found ==> f < k {
      BehindScan(keys, from, limit, found, k);
    }
  }

  // The truncation keeps exactly what is below 2^32.
  lemma TruncatedInNumbers(n: nat)
    ensures Truncated(n) == n <==> n < 4294967296
    ensures Truncated(4294967296) == 0 && Truncated(4294967295) == 4294967295
  {
  }
}
