/**
 What stores leave in byte memory, read off the columns of the rows: a SHA3 row hashes, address by
 address, the byte of the last word or byte stored there, and the access list names the same bytes.
 */
module MemoryContents {
  import opened ByteMemory
  import opened PrimeField

  /** The address is one of the 32 from the offset on, modulo 2^64. */
  predicate InWord(offset: nat, addr: nat) {
    addr < 0x1_0000_0000_0000_0000 && (addr - offset) % 0x1_0000_0000_0000_0000 < 32
  }

  /** The row stores a byte at the address. */
  predicate Touches(row: MemRow, addr: nat) {
    || (row.selMstore == 1 && InWord(row.memOffset, addr))
    || (row.selMstore != 1 && row.selMstore8 == 1 && row.memOffset == addr)
  }

  /** No row from i up to but not including n stores at the address. */
  predicate Untouched(rows: seq<MemRow>, i: nat, n: nat, addr: nat)
    requires n <= |rows|
  {
    forall q :: i <= q < n ==> !Touches(rows[q], addr)
  }

  /** Big-endian byte k of a word of four little-endian limbs. */
  function WordByte(limbs: seq<nat>, k: nat): nat
    requires |limbs| == 4 && k < 32
  {
    limbs[3 - k / 8] / Pow256(7 - k % 8) % 256
  }

  lemma InWordAt(offset: nat, k: nat)
    requires k < 32
    ensures InWord(offset, (offset + k) % U64)
  {
    var addr := (offset + k) % U64;
    var q := (offset + k) / U64;
    assert addr - offset == k - q * U64;
    assert (k - q * U64) % U64 == k;
  }

  // ---------------------------------------------------------------- bytes of a word

  lemma {:induction false} BeBytesAt(x: nat, n: nat, i: nat)
    requires i < n
    ensures BeBytes(x, n)[i] == x / Pow256(n - 1 - i) % 256
    decreases n
  {
    if i < n - 1 {
      BeBytesAt(x / 256, n - 1, i);
      DivideTwice(x, Pow256(n - 2 - i));
    }
  }

  lemma DivideTwice(x: nat, d: nat)
    requires d > 0
    ensures x / 256 / d == x / (256 * d)
  {
    var q, r := x / 256 / d, x / 256 % d;
    assert 256 * (q * d) == q * (256 * d);
    ModUnique(256 * d, x, q, 256 * r + x % 256);
  }

  lemma U256BytesAt(limbs: seq<nat>, k: nat)
    requires |limbs| == 4 && k < 32
    ensures U256BeBytes(limbs)[k] == WordByte(limbs, k)
  {
    hide BeBytes;
    BeBytesAt(limbs[3 - k / 8], 8, k % 8);
    assert U256BeBytes(limbs)[k] == BeBytes(limbs[3 - k / 8], 8)[k % 8];
  }

  // ---------------------------------------------------------------- the last write to an address

  predicate Misses(log: seq<(nat, nat)>, addr: nat) {
    forall i :: 0 <= i < |log| ==> log[i].0 != addr
  }

  /** Writes elsewhere do not matter; a write that only other addresses follow does. */
  lemma {:induction false} LastWriteAt(a: seq<(nat, nat)>, b: seq<(nat, nat)>, addr: nat)
    requires Misses(b, addr)
    ensures LastWrite(a + b, addr) == LastWrite(a, addr)
    decreases b
  {
    if b == [] {
      assert a + b == a;
    } else {
      var b' := b[..|b| - 1];
      assert (a + b)[..|a + b| - 1] == a + b';
      LastWriteAt(a, b', addr);
    }
  }

  /** The write at place i, the last of its row to its address, is what the row leaves there. */
  lemma LastWriteOfRow(log: seq<(nat, nat)>, writes: seq<(nat, nat)>, i: nat)
    requires i < |writes| && Misses(writes[i + 1..], writes[i].0)
    ensures LastWrite(log + writes, writes[i].0) == writes[i].1
  {
    hide Misses;
    var a := log + writes[..i] + [writes[i]];
    assert log + writes == a + writes[i + 1..];
    LastWriteAt(a, writes[i + 1..], writes[i].0);
  }

  lemma UntouchedMisses(row: MemRow, addr: nat)
    requires ValidRow(row) && !Touches(row, addr)
    ensures Misses(RowWrites(row), addr)
  {
    hide U256BeBytes, InWord;
    forall k | 0 <= k < |RowWrites(row)| ensures RowWrites(row)[k].0 != addr {
      if row.selMstore == 1 {
        InWordAt(row.memOffset, k);
      }
    }
  }

  lemma {:induction false} Kept(rows: seq<MemRow>, i: nat, n: nat, addr: nat)
    requires ValidRows(rows) && i <= n <= |rows| && Untouched(rows, i, n, addr)
    ensures LastWrite(WriteLog(rows, n), addr) == LastWrite(WriteLog(rows, i), addr)
    decreases n
  {
    hide RowWrites, LastWrite, Touches;
    if i < n {
      Kept(rows, i, n - 1, addr);
      UntouchedMisses(rows[n - 1], addr);
      LastWriteAt(WriteLog(rows, n - 1), RowWrites(rows[n - 1]), addr);
    }
  }

  /** An MSTORE writes byte k of its word k places after its offset, and its 32 addresses are distinct. */
  lemma WordWrites(row: MemRow, k: nat)
    requires ValidRow(row) && row.selMstore == 1 && k < 32
    ensures |RowWrites(row)| == 32
    ensures RowWrites(row)[k] == ((row.memOffset + k) % U64, WordByte(row.memValue, k))
    ensures Misses(RowWrites(row)[k + 1..], (row.memOffset + k) % U64)
  {
    hide U256BeBytes, WordByte;
    U256BytesAt(row.memValue, k);
    var later := RowWrites(row)[k + 1..];
    forall i | 0 <= i < |later| ensures later[i].0 != (row.memOffset + k) % U64 {
      NearbyDiffer(row.memOffset, k, k + 1 + i);
    }
  }

  lemma NearbyDiffer(offset: nat, k: nat, j: nat)
    requires k < j < 32
    ensures (offset + k) % U64 != (offset + j) % U64
  {}

  lemma StoredWordByte(rows: seq<MemRow>, w: nat, k: nat)
    requires ValidRows(rows) && w < |rows| && rows[w].selMstore == 1 && k < 32
    ensures LastWrite(WriteLog(rows, w + 1), (rows[w].memOffset + k) % U64) == WordByte(rows[w].memValue, k)
  {
    hide WordByte, RowWrites;
    WordWrites(rows[w], k);
    LastWriteOfRow(WriteLog(rows, w), RowWrites(rows[w]), k);
  }

  lemma StoredByte(rows: seq<MemRow>, w: nat)
    requires ValidRows(rows) && w < |rows| && rows[w].selMstore != 1 && rows[w].selMstore8 == 1
    ensures LastWrite(WriteLog(rows, w + 1), rows[w].memOffset) == rows[w].memValue[0] % 256
  {}

  // ---------------------------------------------------------------- what a SHA3 row hashes

  /** The j-th byte hashed at row r lies at the address; the columns say which. */
  predicate ReadsAt(rows: seq<MemRow>, r: nat, j: nat, addr: nat)
    requires r < |rows|
  {
    j < rows[r].len && (rows[r].offset + j) % 0x1_0000_0000_0000_0000 == addr
  }

  /**
   Byte k of the word an MSTORE row stores is what every row up to the next store at its address
   finds there, wherever it starts reading.
   */
  lemma WordByteRead(rows: seq<MemRow>, w: nat, k: nat, r: nat, j: nat)
    requires ValidRows(rows) && w <= r < |rows| && rows[w].selMstore == 1 && k < 32
    requires ReadsAt(rows, r, j, (rows[w].memOffset + k) % 0x1_0000_0000_0000_0000)
    requires Untouched(rows, w + 1, r + 1, (rows[w].memOffset + k) % 0x1_0000_0000_0000_0000)
    ensures Snapshot(rows, r)[j] == rows[w].memValue[3 - k / 8] / Pow256(7 - k % 8) % 256
  {
    hide Untouched, LastWrite, WriteLog;
    Kept(rows, w + 1, r + 1, (rows[w].memOffset + k) % U64);
    StoredWordByte(rows, w, k);
  }

  /** An MSTORE8 row leaves the low byte of its word at its offset, until a later row stores there. */
  lemma ByteRead(rows: seq<MemRow>, w: nat, r: nat, j: nat)
    requires ValidRows(rows) && w <= r < |rows| && rows[w].selMstore != 1 && rows[w].selMstore8 == 1
    requires ReadsAt(rows, r, j, rows[w].memOffset) && Untouched(rows, w + 1, r + 1, rows[w].memOffset)
    ensures Snapshot(rows, r)[j] == rows[w].memValue[0] % 256
  {
    hide Untouched, LastWrite, WriteLog;
    Kept(rows, w + 1, r + 1, rows[w].memOffset);
    StoredByte(rows, w);
  }

  /** Addresses that no row in between stores at keep their byte, and start out as 0. */
  lemma UntouchedRead(rows: seq<MemRow>, q: nat, i: nat, r: nat, j: nat, addr: nat)
    requires ValidRows(rows) && q <= r < |rows| && ReadsAt(rows, q, i, addr) && ReadsAt(rows, r, j, addr)
    ensures Untouched(rows, q + 1, r + 1, addr) ==> Snapshot(rows, r)[j] == Snapshot(rows, q)[i]
    ensures Untouched(rows, 0, r + 1, addr) ==> Snapshot(rows, r)[j] == 0
  {
    hide Untouched, LastWrite, WriteLog;
    if Untouched(rows, q + 1, r + 1, addr) {
      Kept(rows, q + 1, r + 1, addr);
    }
    if Untouched(rows, 0, r + 1, addr) {
      Kept(rows, 0, r + 1, addr);
      NothingWritten(rows, addr);
    }
  }

  lemma NothingWritten(rows: seq<MemRow>, addr: nat)
    requires ValidRows(rows)
    ensures LastWrite(WriteLog(rows, 0), addr) == 0
  {}

  /**
   Reading 32 bytes where a word was stored, before any store into them, gives the 256-bit value
   that was stored.
   */
  lemma WordReadBack(rows: seq<MemRow>, w: nat, r: nat)
    requires ValidRows(rows) && w <= r < |rows| && rows[w].selMstore == 1
    requires rows[r].len == 32 && rows[r].offset == rows[w].memOffset
    requires forall addr :: InWord(rows[w].memOffset, addr) ==> Untouched(rows, w + 1, r + 1, addr)
    ensures BeValue(Snapshot(rows, r)) == WordValue(rows[w].memValue)
  {
    hide BeValue, Untouched;
    var limbs := rows[w].memValue;
    forall k: nat | k < 32 ensures Snapshot(rows, r)[k] == U256BeBytes(limbs)[k] {
      InWordAt(rows[w].memOffset, k);
      WordByteRead(rows, w, k, r, k);
      U256BytesAt(limbs, k);
    }
    assert Snapshot(rows, r) == U256BeBytes(limbs);
    U256BytesValue(limbs);
  }

  /** The 256-bit value of four little-endian limbs. */
  function WordValue(limbs: seq<nat>): nat
    requires |limbs| == 4
  {
    ((limbs[3] * 0x1_0000_0000_0000_0000 + limbs[2]) * 0x1_0000_0000_0000_0000 + limbs[1]) * 0x1_0000_0000_0000_0000 + limbs[0]
  }

  // ---------------------------------------------------------------- what the access list names

  /** The accesses one source row made, in order. */
  function AccessesOf(accesses: seq<ByteAccess>, row: nat): seq<ByteAccess> {
    if accesses == [] then [] else
    var last := accesses[|accesses| - 1];
    AccessesOf(accesses[..|accesses| - 1], row) + if last.sourceRow == row then [last] else []
  }

  lemma {:induction false} AccessesConcat(a: seq<ByteAccess>, b: seq<ByteAccess>, row: nat)
    ensures AccessesOf(a + b, row) == AccessesOf(a, row) + AccessesOf(b, row)
    decreases b
  {
    if b == [] {
      assert a + b == a;
    } else {
      assert (a + b)[..|a + b| - 1] == a + b[..|b| - 1];
      AccessesConcat(a, b[..|b| - 1], row);
    }
  }

  lemma {:induction false} OneSource(s: seq<ByteAccess>, source: nat, row: nat)
    requires forall k :: 0 <= k < |s| ==> s[k].sourceRow == source
    ensures AccessesOf(s, row) == if row == source then s else []
    decreases s
  {
    if s != [] {
      OneSource(s[..|s| - 1], source, row);
      assert s == s[..|s| - 1] + [s[|s| - 1]];
    }
  }

  lemma {:induction false} ListedByRow(rows: seq<MemRow>, n: nat, r: nat)
    requires ValidRows(rows) && n <= |rows|
    ensures AccessesOf(AccessList(rows, n), r) ==
      if r < n then RowAccesses(rows, r, |AccessList(rows, r)|) else []
    decreases n
  {
    hide RowAccesses;
    if n > 0 {
      var a := AccessList(rows, n - 1);
      ListedByRow(rows, n - 1, r);
      AccessesConcat(a, RowAccesses(rows, n - 1, |a|), r);
      RowSource(rows, n - 1, |a|);
      OneSource(RowAccesses(rows, n - 1, |a|), n - 1, r);
    }
  }

  lemma RowSource(rows: seq<MemRow>, r: nat, ts: nat)
    requires ValidRows(rows) && r < |rows|
    ensures forall k :: 0 <= k < |RowAccesses(rows, r, ts)| ==> RowAccesses(rows, r, ts)[k].sourceRow == r
  {
    hide RowWrites, Snapshot;
  }

  /** How many bytes the row writes. */
  function Width(row: MemRow): nat {
    if row.selMstore == 1 then 32 else if row.selMstore8 == 1 then 1 else 0
  }

  /**
   The access list names for each row, in order, the bytes it stores at the addresses it stores them
   and then, at a SHA3 row, the bytes it hashes at the addresses it reads them; nothing else.
   */
  lemma RowListed(rows: seq<MemRow>, n: nat, r: nat)
    requires ValidRows(rows) && r < n <= |rows|
    ensures var a, row, w := AccessesOf(AccessList(rows, n), r), rows[r], Width(rows[r]);
      && |a| == w + (if row.selKeccak == 1 then row.len else 0)
      && (forall k :: 0 <= k < w ==> a[k].rw == Write)
      && (row.selMstore == 1 ==> forall k :: 0 <= k < 32 ==>
            a[k].addr == (row.memOffset + k) % 0x1_0000_0000_0000_0000 &&
            a[k].val == row.memValue[3 - k / 8] / Pow256(7 - k % 8) % 256)
      && (row.selMstore != 1 && row.selMstore8 == 1 ==> a[0].addr == row.memOffset && a[0].val == row.memValue[0] % 256)
      && (forall k :: w <= k < |a| ==>
            a[k].rw == Read && a[k].addr == (row.offset + k - w) % 0x1_0000_0000_0000_0000 &&
            a[k].val == Snapshot(rows, r)[k - w])
  {
    hide AccessList, AccessesOf, RowAccesses, Snapshot;
    ListedByRow(rows, n, r);
    RowShows(rows, r, |AccessList(rows, r)|);
    RowStores(rows[r]);
  }

  /** The writes of a row, in its columns. */
  lemma RowStores(row: MemRow)
    requires ValidRow(row)
    ensures |RowWrites(row)| == Width(row)
    ensures row.selMstore == 1 ==>
      forall k :: 0 <= k < 32 ==> RowWrites(row)[k] == ((row.memOffset + k) % U64, WordByte(row.memValue, k))
    ensures row.selMstore != 1 && row.selMstore8 == 1 ==> RowWrites(row)[0] == (row.memOffset, row.memValue[0] % 256)
  {
    hide U256BeBytes, WordByte;
    if row.selMstore == 1 {
      forall k | 0 <= k < 32 ensures RowWrites(row)[k] == ((row.memOffset + k) % U64, WordByte(row.memValue, k)) {
        WordWrites(row, k);
      }
    }
  }

  lemma RowShows(rows: seq<MemRow>, r: nat, ts: nat)
    requires ValidRows(rows) && r < |rows|
    ensures var a, row, writes := RowAccesses(rows, r, ts), rows[r], RowWrites(rows[r]);
      && |a| == |writes| + (if row.selKeccak == 1 then row.len else 0)
      && (forall k :: 0 <= k < |writes| ==> a[k].rw == Write && (a[k].addr, a[k].val) == writes[k])
      && (forall k :: |writes| <= k < |a| ==>
            a[k].rw == Read && a[k].addr == (row.offset + k - |writes|) % U64 && a[k].val == Snapshot(rows, r)[k - |writes|])
  {
    hide RowWrites, Snapshot;
  }

  /** The values an MSTORE row's writes list spell the word it stores. */
  lemma ListedWord(rows: seq<MemRow>, n: nat, r: nat)
    requires ValidRows(rows) && r < n <= |rows| && rows[r].selMstore == 1
    ensures var a := AccessesOf(AccessList(rows, n), r);
      |a| >= 32 && BeValue(seq(32, k requires 0 <= k < 32 => a[k].val)) == WordValue(rows[r].memValue)
  {
    hide AccessList, AccessesOf, BeValue;
    RowListed(rows, n, r);
    var a, limbs := AccessesOf(AccessList(rows, n), r), rows[r].memValue;
    var vals := seq(32, k requires 0 <= k < 32 => a[k].val);
    forall k: nat | k < 32 ensures vals[k] == U256BeBytes(limbs)[k] {
      U256BytesAt(limbs, k);
    }
    assert vals == U256BeBytes(limbs);
    U256BytesValue(limbs);
  }

  /**
   The replay and the access list agree: the replay answers exactly the SHA3 rows, in order, each with
   the values the list says the row read.
   */
  lemma ReplayAgreesWithList(rows: seq<MemRow>, snapshots: seq<seq<nat>>, sha3Rows: seq<nat>)
    requires ValidRows(rows) && Replayed(rows, |rows|, snapshots, sha3Rows)
    ensures |snapshots| == |sha3Rows| && forall i, j :: 0 <= i < j < |sha3Rows| ==> sha3Rows[i] < sha3Rows[j]
    ensures forall r: nat :: r in sha3Rows <==> r < |rows| && rows[r].selKeccak == 1
    ensures forall k :: 0 <= k < |sha3Rows| ==> snapshots[k] == ReadsOf(AccessList(rows, |rows|), sha3Rows[k])
  {
    hide Snapshot, AccessList, ReadsOf;
    forall k | 0 <= k < |sha3Rows| ensures snapshots[k] == ReadsOf(AccessList(rows, |rows|), sha3Rows[k]) {
      ReadsAreSnapshots(rows, |rows|, sha3Rows[k]);
      assert sha3Rows[k] in sha3Rows;
    }
  }
}
