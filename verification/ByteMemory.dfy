/**
 Byte-granular memory: replaying the trace's stores, the offline access list built from it,
 and the sort-and-scan check that accepts a list exactly when every read sees the latest earlier write.
 */
module ByteMemory {

  const U64: nat := 0x1_0000_0000_0000_0000

  datatype Rw = Read | Write

  datatype ByteAccess = ByteAccess(addr: nat, val: nat, ts: nat, rw: Rw, sourceRow: nat)

  /** The columns of one trace row that concern byte memory; values are four little-endian limbs. */
  datatype MemRow = MemRow(selMstore: nat, selMstore8: nat, memOffset: nat, memValue: seq<nat>,
                           selKeccak: nat, offset: nat, len: nat)

  predicate ValidRow(row: MemRow) {
    |row.memValue| == 4 && forall i :: 0 <= i < 4 ==> row.memValue[i] < U64
  }

  predicate ValidRows(rows: seq<MemRow>) {
    forall i :: 0 <= i < |rows| ==> ValidRow(rows[i])
  }

  // ---------------------------------------------------------------- big-endian bytes

  function Pow256(n: nat): (r: nat)
    ensures r > 0
  {
    if n == 0 then 1 else 256 * Pow256(n - 1)
  }

  /** The n big-endian bytes of x. */
  function BeBytes(x: nat, n: nat): (r: seq<nat>)
    ensures |r| == n && forall i :: 0 <= i < n ==> r[i] < 256
  {
    if n == 0 then [] else BeBytes(x / 256, n - 1) + [x % 256]
  }

  /** `u256_be_bytes`: the most significant limb first. */
  function U256BeBytes(limbs: seq<nat>): (r: seq<nat>)
    requires |limbs| == 4
    ensures |r| == 32 && forall i :: 0 <= i < 32 ==> r[i] < 256
  {
    BeBytes(limbs[3], 8) + BeBytes(limbs[2], 8) + BeBytes(limbs[1], 8) + BeBytes(limbs[0], 8)
  }

  function BeValue(bytes: seq<nat>): nat {
    if bytes == [] then 0 else BeValue(bytes[..|bytes| - 1]) * 256 + bytes[|bytes| - 1]
  }

  lemma {:induction false} BeValueConcat(a: seq<nat>, b: seq<nat>)
    ensures BeValue(a + b) == BeValue(a) * Pow256(|b|) + BeValue(b)
    decreases b
  {
    if b == [] {
      assert a + b == a;
    } else {
      var b', last := b[..|b| - 1], b[|b| - 1];
      BeValueConcat(a, b');
      assert (a + b)[..|a + b| - 1] == a + b';
      assert (BeValue(a) * Pow256(|b'|) + BeValue(b')) * 256 == BeValue(a) * (256 * Pow256(|b'|)) + BeValue(b') * 256;
    }
  }

  lemma {:induction false} BeBytesValue(x: nat, n: nat)
    requires x < Pow256(n)
    ensures BeValue(BeBytes(x, n)) == x
  {
    if n > 0 {
      BeBytesValue(x / 256, n - 1);
      assert BeBytes(x, n)[..n - 1] == BeBytes(x / 256, n - 1);
    }
  }

  /** The 32 bytes read as one big-endian number are the 256-bit value of the limbs. */
  lemma U256BytesValue(limbs: seq<nat>)
    requires |limbs| == 4 && forall i :: 0 <= i < 4 ==> limbs[i] < U64
    ensures BeValue(U256BeBytes(limbs)) == ((limbs[3] * U64 + limbs[2]) * U64 + limbs[1]) * U64 + limbs[0]
  {
    assert Pow256(8) == U64 by {
      assert Pow256(4) == 0x1_0000_0000;
    }
    var b3, b2, b1, b0 := BeBytes(limbs[3], 8), BeBytes(limbs[2], 8), BeBytes(limbs[1], 8), BeBytes(limbs[0], 8);
    BeBytesValue(limbs[3], 8);
    BeBytesValue(limbs[2], 8);
    BeBytesValue(limbs[1], 8);
    BeBytesValue(limbs[0], 8);
    BeValueConcat(b3, b2);
    BeValueConcat(b3 + b2, b1);
    BeValueConcat(b3 + b2 + b1, b0);
  }

  // ---------------------------------------------------------------- the write log

  /** Wrapping address arithmetic. */
  function Address(offset: nat, k: nat): nat {
    (offset + k) % U64
  }

  /** The byte writes of one row: 32 for MSTORE, otherwise one for MSTORE8. */
  function RowWrites(row: MemRow): seq<(nat, nat)>
    requires ValidRow(row)
  {
    if row.selMstore == 1 then
      seq(32, k requires 0 <= k < 32 => (Address(row.memOffset, k), U256BeBytes(row.memValue)[k]))
    else if row.selMstore8 == 1 then [(row.memOffset, row.memValue[0] % 256)]
    else []
  }

  function WriteLog(rows: seq<MemRow>, n: nat): seq<(nat, nat)>
    requires ValidRows(rows) && n <= |rows|
  {
    if n == 0 then [] else WriteLog(rows, n - 1) + RowWrites(rows[n - 1])
  }

  /** The value of the last write to `addr` in the log, or 0. */
  function LastWrite(log: seq<(nat, nat)>, addr: nat): nat {
    if log == [] then 0
    else if log[|log| - 1].0 == addr then log[|log| - 1].1
    else LastWrite(log[..|log| - 1], addr)
  }

  /** The bytes a SHA3 row must hash: the last write before or at that row, per address. */
  function Snapshot(rows: seq<MemRow>, r: nat): (s: seq<nat>)
    requires ValidRows(rows) && r < |rows|
    ensures |s| == rows[r].len
  {
    seq(rows[r].len, k requires 0 <= k < rows[r].len => LastWrite(WriteLog(rows, r + 1), Address(rows[r].offset, k)))
  }

  function Get(mem: map<nat, nat>, addr: nat): nat {
    if addr in mem then mem[addr] else 0
  }

  /** The memory image shows exactly the last writes of the log. */
  ghost predicate Shows(mem: map<nat, nat>, log: seq<(nat, nat)>) {
    forall a :: Get(mem, a) == LastWrite(log, a)
  }

  lemma ShowsNothing()
    ensures Shows(map[], [])
  {}

  lemma ShowsNext(mem: map<nat, nat>, log: seq<(nat, nat)>, addr: nat, val: nat)
    requires Shows(mem, log)
    ensures Shows(mem[addr := val], log + [(addr, val)])
  {
    var log' := log + [(addr, val)];
    assert log'[..|log'| - 1] == log;
    forall a ensures Get(mem[addr := val], a) == LastWrite(log', a) {
      assert Get(mem, a) == LastWrite(log, a);
    }
  }

  /** Applies the stores of one row to the memory image. */
  method StoreRow(mem0: map<nat, nat>, row: MemRow, ghost log: seq<(nat, nat)>) returns (mem: map<nat, nat>)
    requires ValidRow(row) && Shows(mem0, log)
    ensures Shows(mem, log + RowWrites(row))
  {
    mem := mem0;
    ghost var writes := RowWrites(row);
    if row.selMstore == 1 {
      var bytes := U256BeBytes(row.memValue);
      assert log + writes[..0] == log;
      for k := 0 to 32
        invariant Shows(mem, log + writes[..k])
      {
        ShowsNext(mem, log + writes[..k], Address(row.memOffset, k), bytes[k]);
        assert log + writes[..k] + [writes[k]] == log + writes[..k + 1];
        mem := mem[Address(row.memOffset, k) := bytes[k]];
      }
      assert writes[..32] == writes;
    } else if row.selMstore8 == 1 {
      ShowsNext(mem, log, row.memOffset, row.memValue[0] % 256);
      mem := mem[row.memOffset := row.memValue[0] % 256];
    } else {
      assert log + writes == log;
    }
  }

  // ---------------------------------------------------------------- replay

  method TakeSnapshot(mem: map<nat, nat>, rows: seq<MemRow>, i: nat) returns (snap: seq<nat>)
    requires ValidRows(rows) && i < |rows| && Shows(mem, WriteLog(rows, i + 1))
    ensures snap == Snapshot(rows, i)
  {
    snap := [];
    for k := 0 to rows[i].len
      invariant snap == Snapshot(rows, i)[..k]
    {
      snap := snap + [Get(mem, Address(rows[i].offset, k))];
    }
  }

  /** The SHA3 rows among the first n, in order, each with its snapshot. */
  ghost predicate Replayed(rows: seq<MemRow>, n: nat, snapshots: seq<seq<nat>>, sha3Rows: seq<nat>)
    requires ValidRows(rows) && n <= |rows|
  {
    && |snapshots| == |sha3Rows|
    && (forall k :: 0 <= k < |sha3Rows| ==> sha3Rows[k] < n)
    && (forall i, j :: 0 <= i < j < |sha3Rows| ==> sha3Rows[i] < sha3Rows[j])
    && (forall r: nat :: r in sha3Rows <==> r < n && rows[r].selKeccak == 1)
    && (forall k :: 0 <= k < |sha3Rows| ==> snapshots[k] == Snapshot(rows, sha3Rows[k]))
  }

  lemma ReplayedNext(rows: seq<MemRow>, n: nat, snapshots: seq<seq<nat>>, sha3Rows: seq<nat>)
    requires ValidRows(rows) && n < |rows| && Replayed(rows, n, snapshots, sha3Rows)
    ensures rows[n].selKeccak == 1 ==> Replayed(rows, n + 1, snapshots + [Snapshot(rows, n)], sha3Rows + [n])
    ensures rows[n].selKeccak != 1 ==> Replayed(rows, n + 1, snapshots, sha3Rows)
  {
    hide Snapshot;
  }

  /** `replay_byte_memory_at_sha3`: one snapshot per SHA3 row, in trace order. */
  method ReplayByteMemoryAtSha3(rows: seq<MemRow>) returns (snapshots: seq<seq<nat>>, sha3Rows: seq<nat>)
    requires ValidRows(rows)
    ensures Replayed(rows, |rows|, snapshots, sha3Rows)
  {
    var mem: map<nat, nat> := map[];
    snapshots, sha3Rows := [], [];
    hide RowWrites, Snapshot, Replayed, Shows, LastWrite;
    ShowsNothing();
    ReplayedNone(rows);
    for i := 0 to |rows|
      invariant Shows(mem, WriteLog(rows, i)) && Replayed(rows, i, snapshots, sha3Rows)
    {
      mem := StoreRow(mem, rows[i], WriteLog(rows, i));
      ReplayedNext(rows, i, snapshots, sha3Rows);
      if rows[i].selKeccak == 1 {
        var snap := TakeSnapshot(mem, rows, i);
        snapshots := snapshots + [snap];
        sha3Rows := sha3Rows + [i];
      }
    }
  }

  lemma ReplayedNone(rows: seq<MemRow>)
    requires ValidRows(rows)
    ensures Replayed(rows, 0, [], [])
  {}

  // ---------------------------------------------------------------- the access list

  /** The accesses of row r, the first of them at time ts: its writes, then its reads. */
  function RowAccesses(rows: seq<MemRow>, r: nat, ts: nat): seq<ByteAccess>
    requires ValidRows(rows) && r < |rows|
  {
    var writes := RowWrites(rows[r]);
    seq(|writes|, k requires 0 <= k < |writes| => ByteAccess(writes[k].0, writes[k].1, ts + k, Write, r)) +
    if rows[r].selKeccak == 1 then
      seq(rows[r].len, k requires 0 <= k < rows[r].len =>
        ByteAccess(Address(rows[r].offset, k), Snapshot(rows, r)[k], ts + |writes| + k, Read, r))
    else []
  }

  function AccessList(rows: seq<MemRow>, n: nat): seq<ByteAccess>
    requires ValidRows(rows) && n <= |rows|
  {
    if n == 0 then [] else AccessList(rows, n - 1) + RowAccesses(rows, n - 1, |AccessList(rows, n - 1)|)
  }

  /** The writes a row emits, timestamped from ts. */
  method EmitWrites(row: MemRow, i: nat, ts: nat) returns (out: seq<ByteAccess>)
    requires ValidRow(row)
    ensures |out| == |RowWrites(row)|
    ensures forall k :: 0 <= k < |out| ==> out[k] == ByteAccess(RowWrites(row)[k].0, RowWrites(row)[k].1, ts + k, Write, i)
  {
    out := [];
    if row.selMstore == 1 {
      var bytes := U256BeBytes(row.memValue);
      for k := 0 to 32
        invariant |out| == k
        invariant forall j :: 0 <= j < k ==> out[j] == ByteAccess(Address(row.memOffset, j), bytes[j], ts + j, Write, i)
      {
        out := out + [ByteAccess(Address(row.memOffset, k), bytes[k], ts + k, Write, i)];
      }
    } else if row.selMstore8 == 1 {
      out := [ByteAccess(row.memOffset, row.memValue[0] % 256, ts, Write, i)];
    }
  }

  /** The reads a SHA3 row emits from the memory image, timestamped from ts. */
  method EmitReads(mem: map<nat, nat>, rows: seq<MemRow>, i: nat, ts: nat) returns (out: seq<ByteAccess>)
    requires ValidRows(rows) && i < |rows| && Shows(mem, WriteLog(rows, i + 1))
    ensures |out| == if rows[i].selKeccak == 1 then rows[i].len else 0
    ensures forall k :: 0 <= k < |out| ==>
      out[k] == ByteAccess(Address(rows[i].offset, k), Snapshot(rows, i)[k], ts + k, Read, i)
  {
    out := [];
    if rows[i].selKeccak == 1 {
      for k := 0 to rows[i].len
        invariant |out| == k
        invariant forall j :: 0 <= j < k ==>
          out[j] == ByteAccess(Address(rows[i].offset, j), Snapshot(rows, i)[j], ts + j, Read, i)
      {
        var addr := Address(rows[i].offset, k);
        out := out + [ByteAccess(addr, Get(mem, addr), ts + k, Read, i)];
      }
    }
  }

  lemma RowIs(rows: seq<MemRow>, i: nat, ts: nat, writes: seq<ByteAccess>, seen: seq<ByteAccess>)
    requires ValidRows(rows) && i < |rows| && |writes| == |RowWrites(rows[i])|
    requires forall k :: 0 <= k < |writes| ==>
      writes[k] == ByteAccess(RowWrites(rows[i])[k].0, RowWrites(rows[i])[k].1, ts + k, Write, i)
    requires |seen| == if rows[i].selKeccak == 1 then rows[i].len else 0
    requires forall k :: 0 <= k < |seen| ==>
      seen[k] == ByteAccess(Address(rows[i].offset, k), Snapshot(rows, i)[k], ts + |writes| + k, Read, i)
    ensures writes + seen == RowAccesses(rows, i, ts)
  {
    hide RowWrites;
  }

  /** `build_byte_access_trace`. */
  method BuildByteAccessTrace(rows: seq<MemRow>) returns (accesses: seq<ByteAccess>)
    requires ValidRows(rows)
    ensures accesses == AccessList(rows, |rows|)
  {
    hide RowWrites, Snapshot, Shows, LastWrite, RowAccesses;
    var mem: map<nat, nat> := map[];
    accesses := [];
    ShowsNothing();
    for i := 0 to |rows|
      invariant Shows(mem, WriteLog(rows, i)) && accesses == AccessList(rows, i)
    {
      var ts := |accesses|;
      var writes := EmitWrites(rows[i], i, ts);
      mem := StoreRow(mem, rows[i], WriteLog(rows, i));
      var seen := EmitReads(mem, rows, i, ts + |writes|);
      RowIs(rows, i, ts, writes, seen);
      accesses := accesses + (writes + seen);
    }
  }

  // ---------------------------------------------------------------- what consistency means

  predicate EarlierWrite(w: ByteAccess, r: ByteAccess) {
    w.rw.Write? && w.addr == r.addr && w.ts < r.ts
  }

  ghost predicate NoLaterWrite(accesses: seq<ByteAccess>, w: ByteAccess, r: ByteAccess) {
    forall v :: v in accesses && EarlierWrite(v, r) ==> v.ts <= w.ts
  }

  /** The access r carries the value of the latest earlier write to its address, or 0 if there is none. */
  ghost predicate ReadOk(accesses: seq<ByteAccess>, r: ByteAccess) {
    || (exists w :: w in accesses && EarlierWrite(w, r) && w.val == r.val && NoLaterWrite(accesses, w, r))
    || (r.val == 0 && forall v :: v in accesses ==> !EarlierWrite(v, r))
  }

  ghost predicate ReadConsistent(accesses: seq<ByteAccess>) {
    forall r :: r in accesses && r.rw.Read? ==> ReadOk(accesses, r)
  }

  predicate DistinctKeys(accesses: seq<ByteAccess>) {
    forall i, j :: 0 <= i < j < |accesses| ==> accesses[i].addr != accesses[j].addr || accesses[i].ts != accesses[j].ts
  }

  // ---------------------------------------------------------------- sorting by (addr, ts)

  predicate KeyLe(a: ByteAccess, b: ByteAccess) {
    a.addr < b.addr || (a.addr == b.addr && a.ts <= b.ts)
  }

  predicate SortedByKey(s: seq<ByteAccess>) {
    forall i, j :: 0 <= i < j < |s| ==> KeyLe(s[i], s[j])
  }

  function Insert(a: ByteAccess, s: seq<ByteAccess>): (r: seq<ByteAccess>)
    requires SortedByKey(s)
    ensures SortedByKey(r) && multiset(r) == multiset(s) + multiset{a} && |r| == |s| + 1
  {
    if s == [] then [a]
    else if KeyLe(s[|s| - 1], a) then
      s + [a]
    else
      assert s == s[..|s| - 1] + [s[|s| - 1]];
      var r := Insert(a, s[..|s| - 1]);
      assert forall i :: 0 <= i < |r| ==> KeyLe(r[i], s[|s| - 1]) by { InsertBelow(a, s[..|s| - 1], r, s[|s| - 1]); }
      r + [s[|s| - 1]]
  }

  lemma InsertBelow(a: ByteAccess, s: seq<ByteAccess>, r: seq<ByteAccess>, top: ByteAccess)
    requires multiset(r) == multiset(s) + multiset{a} && KeyLe(a, top)
    requires forall i :: 0 <= i < |s| ==> KeyLe(s[i], top)
    ensures forall i :: 0 <= i < |r| ==> KeyLe(r[i], top)
  {
    forall i | 0 <= i < |r| ensures KeyLe(r[i], top) {
      assert r[i] in multiset(r);
      assert r[i] == a || r[i] in multiset(s);
    }
  }

  /** The library's stable sort by (addr, ts). */
  function SortByKey(s: seq<ByteAccess>): (r: seq<ByteAccess>)
    ensures SortedByKey(r) && multiset(r) == multiset(s) && |r| == |s|
  {
    if s == [] then []
    else
      assert s == s[..|s| - 1] + [s[|s| - 1]];
      Insert(s[|s| - 1], SortByKey(s[..|s| - 1]))
  }

  predicate SameKey(a: ByteAccess, b: ByteAccess) {
    a.addr == b.addr && a.ts == b.ts
  }

  // ---------------------------------------------------------------- the sort is stable

  /** Access i comes before access j: by key, and by position among equal keys. */
  predicate Before(accesses: seq<ByteAccess>, i: nat, j: nat)
    requires i < |accesses| && j < |accesses|
  {
    !KeyLe(accesses[j], accesses[i]) || (SameKey(accesses[i], accesses[j]) && i < j)
  }

  predicate Ordered(accesses: seq<ByteAccess>, order: seq<nat>) {
    && (forall k :: 0 <= k < |order| ==> order[k] < |accesses|)
    && (forall k, l :: 0 <= k < l < |order| ==> Before(accesses, order[k], order[l]))
  }

  /** The accesses at the given positions. */
  function Pick(accesses: seq<ByteAccess>, order: seq<nat>): (s: seq<ByteAccess>)
    requires forall k :: 0 <= k < |order| ==> order[k] < |accesses|
    ensures |s| == |order|
  {
    seq(|order|, k requires 0 <= k < |order| => accesses[order[k]])
  }

  function InsertPosition(accesses: seq<ByteAccess>, i: nat, order: seq<nat>): (r: seq<nat>)
    requires i < |accesses| && forall k :: 0 <= k < |order| ==> order[k] < |accesses|
    ensures forall x: nat :: x in r <==> x in order || x == i
  {
    if order == [] then [i] else
    var last := order[|order| - 1];
    assert order == order[..|order| - 1] + [last];
    if KeyLe(accesses[last], accesses[i]) then order + [i]
    else InsertPosition(accesses, i, order[..|order| - 1]) + [last]
  }

  /** The positions of the first n accesses in sorted order. */
  function Order(accesses: seq<ByteAccess>, n: nat): (r: seq<nat>)
    requires n <= |accesses|
    ensures forall x: nat :: x in r <==> x < n
  {
    if n == 0 then [] else
    var front := Order(accesses, n - 1);
    assert forall k :: 0 <= k < |front| ==> front[k] in front;
    InsertPosition(accesses, n - 1, front)
  }

  lemma {:induction false} InsertOrdered(accesses: seq<ByteAccess>, i: nat, order: seq<nat>)
    requires i < |accesses| && Ordered(accesses, order) && forall k :: 0 <= k < |order| ==> order[k] < i
    ensures Ordered(accesses, InsertPosition(accesses, i, order))
    ensures SortedByKey(Pick(accesses, order))
    ensures Pick(accesses, InsertPosition(accesses, i, order)) == Insert(accesses[i], Pick(accesses, order))
    decreases order
  {
    if order != [] {
      var front, last := order[..|order| - 1], order[|order| - 1];
      InsertOrdered(accesses, i, front);
      assert Pick(accesses, order) == Pick(accesses, front) + [accesses[last]];
      assert Pick(accesses, order)[..|front|] == Pick(accesses, front);
      var r := InsertPosition(accesses, i, front);
      forall k | 0 <= k < |r| ensures r[k] == i || r[k] in front {
        assert r[k] in r;
      }
    }
  }

  /** The library's stable sort arranges the accesses by key, and equal keys as listed. */
  lemma {:induction false} SortIsOrder(accesses: seq<ByteAccess>, n: nat)
    requires n <= |accesses|
    ensures forall k :: 0 <= k < |Order(accesses, n)| ==> Order(accesses, n)[k] < n
    ensures Ordered(accesses, Order(accesses, n))
    ensures SortByKey(accesses[..n]) == Pick(accesses, Order(accesses, n))
  {
    if n > 0 {
      SortIsOrder(accesses, n - 1);
      assert accesses[..n][..n - 1] == accesses[..n - 1];
      InsertOrdered(accesses, n - 1, Order(accesses, n - 1));
    }
    forall k | 0 <= k < |Order(accesses, n)| ensures Order(accesses, n)[k] < n {
      assert Order(accesses, n)[k] in Order(accesses, n);
    }
  }

  // ---------------------------------------------------------------- the scan

  /** The value the scan compares a read with: the previous access to the same address, or 0. */
  function Expected(s: seq<ByteAccess>, i: nat): nat
    requires i < |s|
  {
    if i > 0 && s[i - 1].addr == s[i].addr then s[i - 1].val else 0
  }

  predicate ScanPasses(s: seq<ByteAccess>, n: nat)
    requires n <= |s|
  {
    forall i :: 0 <= i < n && s[i].rw.Read? ==> s[i].val == Expected(s, i)
  }

  /** The position of the last write before i to the address of s[i], or -1. */
  function LatestWrite(s: seq<ByteAccess>, i: nat): (j: int)
    requires i < |s|
    ensures -1 <= j < i
  {
    if i == 0 || s[i - 1].addr != s[i].addr then -1
    else if s[i - 1].rw.Write? then i - 1
    else LatestWrite(s, i - 1)
  }

  function LatestValue(s: seq<ByteAccess>, i: nat): nat
    requires i < |s|
  {
    if LatestWrite(s, i) < 0 then 0 else s[LatestWrite(s, i)].val
  }

  lemma {:induction false} LatestWriteIs(s: seq<ByteAccess>, i: nat)
    requires SortedByKey(s) && i < |s|
    ensures var j := LatestWrite(s, i);
      (j >= 0 ==> s[j].rw.Write? && s[j].addr == s[i].addr) &&
      forall k :: j < k < i && s[k].addr == s[i].addr ==> s[k].rw.Read?
  {
    if i > 0 && s[i - 1].addr == s[i].addr && s[i - 1].rw.Read? {
      LatestWriteIs(s, i - 1);
    }
  }

  /** Comparing with the previous access amounts to comparing with the latest write. */
  lemma {:induction false} ScanMeansLatest(s: seq<ByteAccess>, n: nat)
    requires n <= |s|
    ensures ScanPasses(s, n) <==> forall i :: 0 <= i < n && s[i].rw.Read? ==> s[i].val == LatestValue(s, i)
  {
    if n > 0 {
      ScanMeansLatest(s, n - 1);
      var i := n - 1;
      if ScanPasses(s, n - 1) && i > 0 && s[i - 1].addr == s[i].addr {
        assert Expected(s, i) == LatestValue(s, i);
      }
    }
  }

  // ---------------------------------------------------------------- ties

  /** Access w is a write before r to the same address, and none such is later. */
  predicate Latest(accesses: seq<ByteAccess>, w: nat, r: nat)
    requires w < |accesses| && r < |accesses|
  {
    && EarlierWrite(accesses[w], accesses[r])
    && forall v :: 0 <= v < |accesses| && EarlierWrite(accesses[v], accesses[r]) ==> accesses[v].ts <= accesses[w].ts
  }

  /** No write is listed before a read of the same address and timestamp. */
  predicate NoTiedRead(accesses: seq<ByteAccess>) {
    forall i, j :: 0 <= i < j < |accesses| && accesses[i].rw.Write? && accesses[j].rw.Read? ==>
      !SameKey(accesses[i], accesses[j])
  }

  /** No read has two latest earlier writes. */
  predicate NoTiedWrites(accesses: seq<ByteAccess>) {
    forall i, j, r :: 0 <= i < j < |accesses| && 0 <= r < |accesses| && accesses[r].rw.Read? ==>
      !(Latest(accesses, i, r) && Latest(accesses, j, r))
  }

  lemma DistinctHasNoTies(accesses: seq<ByteAccess>)
    requires DistinctKeys(accesses)
    ensures NoTiedRead(accesses) && NoTiedWrites(accesses)
  {
    forall i, j, r | 0 <= i < j < |accesses| && 0 <= r < |accesses| && Latest(accesses, i, r)
      ensures !Latest(accesses, j, r)
    {
      assert accesses[i].addr != accesses[j].addr || accesses[i].ts != accesses[j].ts;
    }
  }

  /** ReadOk by positions. */
  lemma ReadOkAt(accesses: seq<ByteAccess>, r: nat)
    requires r < |accesses|
    ensures ReadOk(accesses, accesses[r]) <==>
      || (exists w :: 0 <= w < |accesses| && Latest(accesses, w, r) && accesses[w].val == accesses[r].val)
      || (accesses[r].val == 0 && forall v :: 0 <= v < |accesses| ==> !EarlierWrite(accesses[v], accesses[r]))
  {
    var a := accesses[r];
    if exists w :: w in accesses && EarlierWrite(w, a) && w.val == a.val && NoLaterWrite(accesses, w, a) {
      var w :| w in accesses && EarlierWrite(w, a) && w.val == a.val && NoLaterWrite(accesses, w, a);
      var k :| 0 <= k < |accesses| && accesses[k] == w;
      assert Latest(accesses, k, r);
    }
    if k: nat :| k < |accesses| && Latest(accesses, k, r) && accesses[k].val == a.val {
      assert accesses[k] in accesses && NoLaterWrite(accesses, accesses[k], a);
    }
  }

  /** In the sorted list the latest write before a read is its only latest earlier write, unless keys tie. */
  lemma SortedLatest(accesses: seq<ByteAccess>, order: seq<nat>, k: nat) returns (j: int)
    requires Ordered(accesses, order) && SortedByKey(Pick(accesses, order)) && k < |order|
    requires forall x: nat :: x < |accesses| ==> x in order
    requires NoTiedRead(accesses) && accesses[order[k]].rw.Read?
    ensures j == LatestWrite(Pick(accesses, order), k)
    ensures j >= 0 ==> Latest(accesses, order[j], order[k])
    ensures j < 0 ==> forall v :: 0 <= v < |accesses| ==> !EarlierWrite(accesses[v], accesses[order[k]])
  {
    var s := Pick(accesses, order);
    j := LatestWrite(s, k);
    LatestWriteIs(s, k);
    forall v: nat | v < |accesses| && EarlierWrite(accesses[v], accesses[order[k]])
      ensures j >= 0 && accesses[v].ts <= s[j].ts
    {
      assert v in order;
      var x :| 0 <= x < |order| && order[x] == v;
      InOrder(accesses, order, x, k);
      assert x < k && s[x] == accesses[v];
      if x < j {
        assert Before(accesses, order[x], order[j]);
      }
    }
    if j >= 0 {
      assert Before(accesses, order[j], order[k]);
    }
  }

  lemma ReadAgrees(accesses: seq<ByteAccess>, order: seq<nat>, k: nat)
    requires Ordered(accesses, order) && SortedByKey(Pick(accesses, order)) && k < |order|
    requires forall x: nat :: x < |accesses| ==> x in order
    requires NoTiedRead(accesses) && NoTiedWrites(accesses) && accesses[order[k]].rw.Read?
    ensures accesses[order[k]].val == LatestValue(Pick(accesses, order), k) <==> ReadOk(accesses, accesses[order[k]])
  {
    hide ReadOk, LatestWrite, Latest, NoTiedRead, SortedByKey;
    var r := order[k];
    var j := SortedLatest(accesses, order, k);
    ReadOkAt(accesses, r);
    if j >= 0 {
      forall w | 0 <= w < |accesses| && Latest(accesses, w, r) ensures w == order[j] {
        OnlyLatest(accesses, w, order[j], r);
      }
    } else {
      forall w | 0 <= w < |accesses| ensures !Latest(accesses, w, r) {
        LatestIsEarlier(accesses, w, r);
      }
    }
  }

  lemma OnlyLatest(accesses: seq<ByteAccess>, v: nat, w: nat, r: nat)
    requires NoTiedWrites(accesses) && v < |accesses| && w < |accesses| && r < |accesses| && accesses[r].rw.Read?
    ensures Latest(accesses, v, r) && Latest(accesses, w, r) ==> v == w
  {
    hide Latest;
    if v < w {
      assert !(Latest(accesses, v, r) && Latest(accesses, w, r));
    } else if w < v {
      assert !(Latest(accesses, w, r) && Latest(accesses, v, r));
    }
  }

  lemma LatestIsEarlier(accesses: seq<ByteAccess>, w: nat, r: nat)
    requires w < |accesses| && r < |accesses|
    ensures Latest(accesses, w, r) ==> EarlierWrite(accesses[w], accesses[r])
  {}

  /** The sorted list and where each access is in it. */
  lemma WholeOrder(accesses: seq<ByteAccess>) returns (order: seq<nat>)
    ensures Ordered(accesses, order) && |order| == |accesses| && forall x: nat :: x < |accesses| ==> x in order
    ensures SortByKey(accesses) == Pick(accesses, order)
  {
    order := Order(accesses, |accesses|);
    SortIsOrder(accesses, |accesses|);
    assert accesses[..|accesses|] == accesses;
  }

  /** Without ties of either kind the scan's verdict is read consistency. */
  lemma UntiedAgrees(accesses: seq<ByteAccess>)
    requires NoTiedRead(accesses) && NoTiedWrites(accesses)
    ensures ScanPasses(SortByKey(accesses), |accesses|) <==> ReadConsistent(accesses)
  {
    hide NoTiedRead, NoTiedWrites, ReadOk, SortByKey, LatestValue, Expected, Ordered;
    var n := |accesses|;
    var order := WholeOrder(accesses);
    var s := Pick(accesses, order);
    ScanMeansLatest(s, n);
    forall k | 0 <= k < n && s[k].rw.Read?
      ensures s[k].val == LatestValue(s, k) <==> ReadOk(accesses, accesses[order[k]])
    {
      ReadAgrees(accesses, order, k);
    }
    if ScanPasses(s, n) {
      forall r | r in accesses && r.rw.Read? ensures ReadOk(accesses, r) {
        var i: nat :| i < n && accesses[i] == r;
        assert i in order;
        var k :| 0 <= k < n && order[k] == i;
        assert s[k].val == LatestValue(s, k);
      }
    }
    if ReadConsistent(accesses) {
      forall k | 0 <= k < n && s[k].rw.Read? ensures s[k].val == LatestValue(s, k) {
        assert accesses[order[k]] in accesses;
      }
    }
  }

  // ---------------------------------------------------------------- exactly when the verdict is right

  function WithValues(accesses: seq<ByteAccess>, vals: seq<nat>): (r: seq<ByteAccess>)
    requires |vals| == |accesses|
    ensures |r| == |accesses|
  {
    seq(|accesses|, i requires 0 <= i < |accesses| => accesses[i].(val := vals[i]))
  }

  ghost predicate VerdictRight(accesses: seq<ByteAccess>) {
    ScanPasses(SortByKey(accesses), |accesses|) <==> ReadConsistent(accesses)
  }

  ghost predicate AlwaysRight(accesses: seq<ByteAccess>) {
    forall vals: seq<nat> :: |vals| == |accesses| ==> VerdictRight(WithValues(accesses, vals))
  }

  lemma SameTies(accesses: seq<ByteAccess>, vals: seq<nat>)
    requires |vals| == |accesses|
    ensures NoTiedRead(accesses) ==> NoTiedRead(WithValues(accesses, vals))
    ensures NoTiedWrites(accesses) ==> NoTiedWrites(WithValues(accesses, vals))
  {
    var b := WithValues(accesses, vals);
    assert forall i :: 0 <= i < |b| ==> (b[i].addr, b[i].ts, b[i].rw) == (accesses[i].addr, accesses[i].ts, accesses[i].rw);
    forall i: nat, r: nat | i < |b| && r < |b| ensures Latest(b, i, r) <==> Latest(accesses, i, r) {
      SameLatest(accesses, vals, i, r);
    }
  }

  lemma SameLatest(accesses: seq<ByteAccess>, vals: seq<nat>, i: nat, r: nat)
    requires |vals| == |accesses| && i < |accesses| && r < |accesses|
    ensures Latest(WithValues(accesses, vals), i, r) <==> Latest(accesses, i, r)
  {
    var b := WithValues(accesses, vals);
    forall v | 0 <= v < |b| ensures EarlierWrite(b[v], b[r]) <==> EarlierWrite(accesses[v], accesses[r]) {}
    if Latest(accesses, i, r) {
      assert Latest(b, i, r);
    }
    if Latest(b, i, r) {
      forall v | 0 <= v < |accesses| && EarlierWrite(accesses[v], accesses[r]) ensures accesses[v].ts <= accesses[i].ts {
        assert EarlierWrite(b[v], b[r]);
      }
    }
  }

  /** Value 1 for access i and everything after it at its address, 0 otherwise. */
  function FromOn(accesses: seq<ByteAccess>, i: nat): (vals: seq<nat>)
    requires i < |accesses|
    ensures |vals| == |accesses|
  {
    seq(|accesses|, k requires 0 <= k < |accesses| =>
      if accesses[k].addr == accesses[i].addr && (k == i || Before(accesses, i, k)) then 1 else 0)
  }

  lemma FromOnAt(accesses: seq<ByteAccess>, i: nat, order: seq<nat>, x: nat, k: nat)
    requires i < |accesses| && Ordered(accesses, order) && x < |order| && order[x] == i && k < |order|
    ensures FromOn(accesses, i)[order[k]] == if accesses[order[k]].addr == accesses[i].addr && x <= k then 1 else 0
  {
    if k < x {
      assert Before(accesses, order[k], order[x]);
    } else if x < k {
      assert Before(accesses, order[x], order[k]);
    }
  }

  lemma FromOnAccepted(accesses: seq<ByteAccess>, i: nat)
    requires i < |accesses| && accesses[i].rw.Write?
    ensures ScanPasses(SortByKey(WithValues(accesses, FromOn(accesses, i))), |accesses|)
  {
    hide FromOn, SortByKey;
    var n, b := |accesses|, WithValues(accesses, FromOn(accesses, i));
    var order := WholeOrder(b);
    assert forall k, l :: 0 <= k < n && 0 <= l < n ==> (Before(accesses, k, l) <==> Before(b, k, l));
    assert Ordered(accesses, order);
    assert i in order;
    var x :| 0 <= x < n && order[x] == i;
    var s := Pick(b, order);
    forall k | 0 <= k < n && s[k].rw.Read? ensures s[k].val == Expected(s, k) {
      FromOnAt(accesses, i, order, x, k);
      if k > 0 {
        FromOnAt(accesses, i, order, x, k - 1);
        if x < k && s[k - 1].addr != s[k].addr {
          assert Before(accesses, order[k - 1], order[k]);
          if x < k - 1 {
            assert Before(accesses, order[x], order[k - 1]);
          }
        }
      }
    }
  }

  /** A write tied with a read listed after it: values 0 before the write and 1 from it on are accepted, yet wrong. */
  lemma TiedReadWrong(accesses: seq<ByteAccess>, i: nat, j: nat)
    requires i < j < |accesses| && accesses[i].rw.Write? && accesses[j].rw.Read? && SameKey(accesses[i], accesses[j])
    ensures !AlwaysRight(accesses)
  {
    hide ScanPasses, SortByKey, ReadOk;
    var b := WithValues(accesses, FromOn(accesses, i));
    FromOnAccepted(accesses, i);
    ReadOkAt(b, j);
    assert b[j] in b && b[j].val == 1 && !ReadOk(b, b[j]);
    assert !VerdictRight(b);
  }

  lemma {:induction false} LatestExists(accesses: seq<ByteAccess>, r: nat, v: nat) returns (w: nat)
    requires r < |accesses| && v < |accesses| && EarlierWrite(accesses[v], accesses[r])
    ensures w < |accesses| && Latest(accesses, w, r)
    decreases accesses[r].ts - accesses[v].ts
  {
    if Latest(accesses, v, r) {
      w := v;
    } else {
      var u :| 0 <= u < |accesses| && EarlierWrite(accesses[u], accesses[r]) && accesses[u].ts > accesses[v].ts;
      w := LatestExists(accesses, r, u);
    }
  }

  /** Value 1 for write i and for the reads it is a latest earlier write of, 0 otherwise. */
  function ServedBy(accesses: seq<ByteAccess>, i: nat): (vals: seq<nat>)
    requires i < |accesses|
    ensures |vals| == |accesses|
  {
    seq(|accesses|, k requires 0 <= k < |accesses| =>
      if k == i || (accesses[k].rw.Read? && Latest(accesses, i, k)) then 1 else 0)
  }

  lemma ServedConsistent(accesses: seq<ByteAccess>, i: nat)
    requires i < |accesses| && accesses[i].rw.Write?
    ensures ReadConsistent(WithValues(accesses, ServedBy(accesses, i)))
  {
    hide Latest, ReadOk;
    var vals := ServedBy(accesses, i);
    var b := WithValues(accesses, vals);
    forall r | r in b && r.rw.Read? ensures ReadOk(b, r) {
      var k: nat :| k < |b| && b[k] == r;
      ReadOkAt(b, k);
      SameLatest(accesses, vals, i, k);
      if !Latest(b, i, k) && exists v :: 0 <= v < |b| && EarlierWrite(b[v], b[k]) {
        var v: nat :| v < |b| && EarlierWrite(b[v], b[k]);
        var w := LatestExists(b, k, v);
        LatestIsEarlier(b, w, k);
        assert b[w].val == 0;
      }
    }
  }

  lemma ServedRejected(accesses: seq<ByteAccess>, i: nat, j: nat, r: nat)
    requires i < j < |accesses| && r < |accesses| && accesses[r].rw.Read?
    requires Latest(accesses, i, r) && Latest(accesses, j, r)
    ensures !ScanPasses(SortByKey(WithValues(accesses, ServedBy(accesses, i))), |accesses|)
  {
    hide ScanPasses, SortByKey, Latest;
    var n, b := |accesses|, WithValues(accesses, ServedBy(accesses, i));
    LatestIsEarlier(accesses, i, r);
    LatestIsEarlier(accesses, j, r);
    assert accesses[i].ts == accesses[j].ts by { LatestTied(accesses, i, j, r); }
    var order := WholeOrder(b);
    var s := Pick(b, order);
    assert i in order && j in order && r in order;
    var x :| 0 <= x < n && order[x] == r;
    var y :| 0 <= y < n && order[y] == i;
    var z :| 0 <= z < n && order[z] == j;
    InOrder(b, order, y, z);
    InOrder(b, order, z, x);
    assert y < z < x && s[z].rw.Write? && s[x].rw.Read? && s[x].val == 1;
    ScanMeansLatest(s, n);
    LatestWriteIs(s, x);
    ListedOnce(b, order, y);
  }

  lemma LatestTied(accesses: seq<ByteAccess>, i: nat, j: nat, r: nat)
    requires i < |accesses| && j < |accesses| && r < |accesses| && Latest(accesses, i, r) && Latest(accesses, j, r)
    ensures accesses[i].ts == accesses[j].ts
  {}

  lemma InOrder(accesses: seq<ByteAccess>, order: seq<nat>, k: nat, l: nat)
    requires Ordered(accesses, order) && k < |order| && l < |order|
    ensures Before(accesses, order[k], order[l]) ==> k < l
  {
    if l < k {
      assert Before(accesses, order[l], order[k]);
    }
  }

  /** Two latest writes of a read: values 1 and 0, with the reads they serve 1, are consistent, yet rejected. */
  lemma TiedWritesWrong(accesses: seq<ByteAccess>, i: nat, j: nat, r: nat)
    requires i < j < |accesses| && r < |accesses| && accesses[r].rw.Read?
    requires Latest(accesses, i, r) && Latest(accesses, j, r)
    ensures !AlwaysRight(accesses)
  {
    ServedConsistent(accesses, i);
    ServedRejected(accesses, i, j, r);
    assert !VerdictRight(WithValues(accesses, ServedBy(accesses, i)));
  }

  lemma ListedOnce(accesses: seq<ByteAccess>, order: seq<nat>, k: nat)
    requires Ordered(accesses, order) && k < |order|
    ensures forall l :: 0 <= l < |order| && order[l] == order[k] ==> l == k
  {
    forall l | 0 <= l < |order| && l != k ensures order[l] != order[k] {
      if l < k {
        assert Before(accesses, order[l], order[k]);
      } else {
        assert Before(accesses, order[k], order[l]);
      }
    }
  }

  /**
   The verdict is right for every assignment of values exactly when no write ties with a read listed
   after it and no read has two latest earlier writes: a condition on addresses, timestamps and order alone.
   */
  lemma VerdictRightIff(accesses: seq<ByteAccess>)
    ensures AlwaysRight(accesses) <==> NoTiedRead(accesses) && NoTiedWrites(accesses)
  {
    if !NoTiedRead(accesses) {
      var i, j :| 0 <= i < j < |accesses| && accesses[i].rw.Write? && accesses[j].rw.Read? &&
        SameKey(accesses[i], accesses[j]);
      TiedReadWrong(accesses, i, j);
    } else if !NoTiedWrites(accesses) {
      var i, j, r :| 0 <= i < j < |accesses| && 0 <= r < |accesses| && accesses[r].rw.Read? &&
        Latest(accesses, i, r) && Latest(accesses, j, r);
      TiedWritesWrong(accesses, i, j, r);
    } else {
      forall vals: seq<nat> | |vals| == |accesses| ensures VerdictRight(WithValues(accesses, vals)) {
        SameTies(accesses, vals);
        UntiedAgrees(WithValues(accesses, vals));
      }
    }
  }

  /**
   `verify_read_consistency`: without ties it accepts exactly the lists whose reads see the latest
   earlier write; in general, those whose sorted form passes the scan.
   */
  method VerifyReadConsistency(accesses: seq<ByteAccess>) returns (ok: bool)
    ensures NoTiedRead(accesses) && NoTiedWrites(accesses) ==> (ok <==> ReadConsistent(accesses))
    ensures ok <==> ScanPasses(SortByKey(accesses), |accesses|)
  {
    hide NoTiedRead, NoTiedWrites, ReadConsistent, SortByKey;
    var sorted := SortByKey(accesses);
    if NoTiedRead(accesses) && NoTiedWrites(accesses) {
      UntiedAgrees(accesses);
    }
    for i := 0 to |sorted|
      invariant ScanPasses(sorted, i)
    {
      var cur := sorted[i];
      if i == 0 {
        if cur.rw.Read? && cur.val != 0 {
          return false;
        }
      } else {
        var prev := sorted[i - 1];
        if prev.addr == cur.addr {
          if cur.rw.Read? && cur.val != prev.val {
            return false;
          }
        } else if cur.rw.Read? && cur.val != 0 {
          return false;
        }
      }
    }
    return true;
  }

  /** With a repeated (addr, ts) the verdict can be wrong: a read at the time of a write passes with the written value. */
  lemma RepeatedKeyAccepted()
    ensures var accesses := [ByteAccess(0, 1, 0, Write, 0), ByteAccess(0, 1, 0, Read, 0)];
      ScanPasses(SortByKey(accesses), |accesses|) && !ReadConsistent(accesses)
  {
    var w, r := ByteAccess(0, 1, 0, Write, 0), ByteAccess(0, 1, 0, Read, 0);
    var accesses := [w, r];
    assert accesses[..1] == [w] && [w][..0] == [];
    assert SortByKey([w]) == [w];
    assert SortByKey(accesses) == [w, r];
    assert r in accesses && !ReadOk(accesses, r);
  }

  // ---------------------------------------------------------------- generated lists are consistent

  /** The writes of an access list, in order. */
  function Writes(accesses: seq<ByteAccess>): seq<(nat, nat)> {
    if accesses == [] then [] else
    var last := accesses[|accesses| - 1];
    Writes(accesses[..|accesses| - 1]) + if last.rw.Write? then [(last.addr, last.val)] else []
  }

  /** The values read by one source row, in order. */
  function ReadsOf(accesses: seq<ByteAccess>, row: nat): seq<nat> {
    if accesses == [] then [] else
    var last := accesses[|accesses| - 1];
    ReadsOf(accesses[..|accesses| - 1], row) + if last.rw.Read? && last.sourceRow == row then [last.val] else []
  }

  lemma {:induction false} WritesConcat(a: seq<ByteAccess>, b: seq<ByteAccess>)
    ensures Writes(a + b) == Writes(a) + Writes(b)
    decreases b
  {
    if b == [] {
      assert a + b == a;
    } else {
      assert (a + b)[..|a + b| - 1] == a + b[..|b| - 1];
      WritesConcat(a, b[..|b| - 1]);
    }
  }

  lemma {:induction false} ReadsConcat(a: seq<ByteAccess>, b: seq<ByteAccess>, row: nat)
    ensures ReadsOf(a + b, row) == ReadsOf(a, row) + ReadsOf(b, row)
    decreases b
  {
    if b == [] {
      assert a + b == a;
    } else {
      assert (a + b)[..|a + b| - 1] == a + b[..|b| - 1];
      ReadsConcat(a, b[..|b| - 1], row);
    }
  }

  lemma {:induction false} AllWrites(s: seq<ByteAccess>, writes: seq<(nat, nat)>, row: nat)
    requires |s| == |writes| && forall k :: 0 <= k < |s| ==> s[k].rw.Write? && (s[k].addr, s[k].val) == writes[k]
    ensures Writes(s) == writes && ReadsOf(s, row) == []
    decreases s
  {
    if s != [] {
      var n := |s| - 1;
      AllWrites(s[..n], writes[..n], row);
      assert writes == writes[..n] + [writes[n]];
    }
  }

  lemma {:induction false} NoWrites(s: seq<ByteAccess>)
    requires forall k :: 0 <= k < |s| ==> s[k].rw.Read?
    ensures Writes(s) == []
    decreases s
  {
    if s != [] {
      NoWrites(s[..|s| - 1]);
    }
  }

  lemma {:induction false} AllReads(s: seq<ByteAccess>, vals: seq<nat>, source: nat, row: nat)
    requires |s| == |vals| && forall k :: 0 <= k < |s| ==> s[k].rw.Read? && s[k].val == vals[k] && s[k].sourceRow == source
    ensures ReadsOf(s, row) == if row == source then vals else []
    decreases s
  {
    if s != [] {
      var n := |s| - 1;
      AllReads(s[..n], vals[..n], source, row);
      assert vals == vals[..n] + [vals[n]];
    }
  }

  lemma RowShape(rows: seq<MemRow>, r: nat, ts: nat, row: nat)
    requires ValidRows(rows) && r < |rows|
    ensures Writes(RowAccesses(rows, r, ts)) == RowWrites(rows[r])
    ensures ReadsOf(RowAccesses(rows, r, ts), row) ==
      if row == r && rows[r].selKeccak == 1 then Snapshot(rows, r) else []
  {
    var all, writes := RowAccesses(rows, r, ts), RowWrites(rows[r]);
    var a, b := all[..|writes|], all[|writes|..];
    assert all == a + b;
    AllWrites(a, writes, row);
    NoWrites(b);
    AllReads(b, if rows[r].selKeccak == 1 then Snapshot(rows, r) else [], r, row);
    WritesConcat(a, b);
    ReadsConcat(a, b, row);
  }

  /** The reads of each source row are, byte for byte, the snapshot the independent replay takes at that row. */
  lemma {:induction false} ReadsAreSnapshots(rows: seq<MemRow>, n: nat, row: nat)
    requires ValidRows(rows) && n <= |rows|
    ensures Writes(AccessList(rows, n)) == WriteLog(rows, n)
    ensures ReadsOf(AccessList(rows, n), row) ==
      if row < n && rows[row].selKeccak == 1 then Snapshot(rows, row) else []
  {
    hide RowAccesses, RowWrites, Snapshot, Writes, ReadsOf;
    if n == 0 {
      EmptyList(row);
    } else {
      var a := AccessList(rows, n - 1);
      ReadsAreSnapshots(rows, n - 1, row);
      RowShape(rows, n - 1, |a|, row);
      WritesConcat(a, RowAccesses(rows, n - 1, |a|));
      ReadsConcat(a, RowAccesses(rows, n - 1, |a|), row);
    }
  }

  lemma EmptyList(row: nat)
    ensures Writes([]) == [] && ReadsOf([], row) == []
  {}

  /** Access k has timestamp k, and a read carries the last write among the accesses before it. */
  lemma {:induction false} AccessAt(rows: seq<MemRow>, n: nat, k: nat)
    requires ValidRows(rows) && n <= |rows| && k < |AccessList(rows, n)|
    ensures var acc := AccessList(rows, n);
      acc[k].ts == k && (acc[k].rw.Read? ==> acc[k].val == LastWrite(Writes(acc[..k]), acc[k].addr))
  {
    hide RowAccesses, RowWrites, Snapshot, Writes, ReadsOf, LastWrite;
    var before := AccessList(rows, n - 1);
    var acc := AccessList(rows, n);
    if k < |before| {
      AccessAt(rows, n - 1, k);
      assert acc[..k] == before[..k];
    } else {
      var row := RowAccesses(rows, n - 1, |before|);
      var i := k - |before|;
      assert acc[k] == row[i] && acc[..k] == before + row[..i];
      RowAccessAt(rows, n - 1, |before|, i);
      ReadsAreSnapshots(rows, n - 1, 0);
      WritesConcat(before, row[..i]);
    }
  }

  /** Within a row, the reads come after all the writes. */
  lemma RowAccessAt(rows: seq<MemRow>, r: nat, ts: nat, i: nat)
    requires ValidRows(rows) && r < |rows| && i < |RowAccesses(rows, r, ts)|
    ensures var row := RowAccesses(rows, r, ts);
      row[i].ts == ts + i &&
      (row[i].rw.Read? ==> Writes(row[..i]) == RowWrites(rows[r])) &&
      (row[i].rw.Read? ==> row[i].val == LastWrite(WriteLog(rows, r) + RowWrites(rows[r]), row[i].addr))
  {
    hide RowWrites, Writes, LastWrite;
    var row, writes := RowAccesses(rows, r, ts), RowWrites(rows[r]);
    if row[i].rw.Read? {
      var a, mid := row[..|writes|], row[|writes|..i];
      assert row[..i] == a + mid;
      AllWrites(a, writes, 0);
      NoWrites(mid);
      WritesConcat(a, mid);
    }
  }

  /** In a list timestamped by position, the last write of a prefix is its latest write to the address. */
  lemma {:induction false} LastWriteFound(acc: seq<ByteAccess>, k: nat, addr: nat) returns (j: int)
    requires k <= |acc|
    ensures -1 <= j < k
    ensures j == -1 ==> LastWrite(Writes(acc[..k]), addr) == 0
    ensures j >= 0 ==> acc[j].rw.Write? && acc[j].addr == addr && acc[j].val == LastWrite(Writes(acc[..k]), addr)
    ensures forall i :: j < i < k ==> acc[i].rw.Read? || acc[i].addr != addr
  {
    if k == 0 {
      return -1;
    }
    var last := acc[k - 1];
    assert acc[..k][..k - 1] == acc[..k - 1];
    var w := Writes(acc[..k]);
    if last.rw.Write? {
      assert w[..|w| - 1] == Writes(acc[..k - 1]);
      if last.addr == addr {
        return k - 1;
      }
    } else {
      assert w == Writes(acc[..k - 1]);
    }
    j := LastWriteFound(acc, k - 1, addr);
  }

  /** Every generated access list has strictly increasing timestamps and passes the consistency check. */
  lemma GeneratedConsistent(rows: seq<MemRow>)
    requires ValidRows(rows)
    ensures var acc := AccessList(rows, |rows|);
      (forall k :: 0 <= k < |acc| ==> acc[k].ts == k) && DistinctKeys(acc) && ReadConsistent(acc)
  {
    var acc := AccessList(rows, |rows|);
    forall k | 0 <= k < |acc|
      ensures acc[k].ts == k && (acc[k].rw.Read? ==> acc[k].val == LastWrite(Writes(acc[..k]), acc[k].addr))
    {
      AccessAt(rows, |rows|, k);
    }
    forall r | r in acc && r.rw.Read?
      ensures ReadOk(acc, r)
    {
      var k :| 0 <= k < |acc| && acc[k] == r;
      var j := LastWriteFound(acc, k, r.addr);
      forall v | v in acc && EarlierWrite(v, r)
        ensures j >= 0 && v.ts <= j
      {
        var i :| 0 <= i < |acc| && acc[i] == v;
      }
      if j >= 0 {
        assert acc[j] in acc && EarlierWrite(acc[j], r) && NoLaterWrite(acc, acc[j], r);
      }
    }
  }

  /** Building the list and checking it always succeeds. */
  method BuildThenVerify(rows: seq<MemRow>) returns (ok: bool)
    requires ValidRows(rows)
    ensures ok
  {
    var acc := BuildByteAccessTrace(rows);
    GeneratedConsistent(rows);
    DistinctHasNoTies(acc);
    ok := VerifyReadConsistency(acc);
  }
}
