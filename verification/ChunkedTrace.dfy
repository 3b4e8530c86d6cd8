/**
 Streaming execution in fixed-size chunks. The VM is a deterministic step on its core state and
 memory pages; the prover keeps counters, a page-hash cache and the UART hash across chunks.
 Chunk boundaries do not change the run.
 */
module ChunkedTrace {
  import opened Common

  type Page = seq<nat>
  type Digest = seq<nat>
  type Pages = map<nat, Page>

  datatype Result<+T, +E> = Ok(value: T) | Err(error: E)
  datatype VmError = Decode | Halted | Ebreak(pc: nat)

  /** Page contents and the set of pages stored to since the last clear. */
  datatype Memory = Memory(pages: Pages, dirty: set<nat>)

  /** `core` is everything but memory and pending UART output: registers, CSRs, timers, the halt flag. */
  datatype Vm<C> = Vm(core: C, memory: Memory, uart: seq<nat>)

  /** The effect of one step; `row` is absent when a trap was delivered instead of an instruction. */
  datatype Effect<C, R> = Effect(core: C, stores: seq<(nat, Page)>, uart: seq<nat>, row: Option<R>, error: Option<VmError>)

  /** The deterministic step and the hash functions the prover is built on. */
  datatype Machine<!C, !R> = Machine(
    step: (C, Pages) -> Effect<C, R>,
    halted: C -> bool,
    pageHash: (nat, Page) -> Digest,
    combine: map<nat, Digest> -> Digest,
    uartHash: seq<nat> -> Digest,
    boundary: (C, Digest, Digest, nat) -> Digest)

  datatype Row<R> = Row(step: nat, data: R)

  datatype Chunk<R> = Chunk(index: nat, rows: seq<Row<R>>, initialHash: Digest, finalHash: Digest,
                            uart: seq<nat>, numSteps: nat)

  // ---------------------------------------------------------------- one uninterrupted run

  function StorePages(pages: Pages, stores: seq<(nat, Page)>): Pages
    decreases |stores|
  {
    if stores == [] then pages else StorePages(pages[stores[0].0 := stores[0].1], stores[1..])
  }

  function Touched(stores: seq<(nat, Page)>): set<nat> {
    set i | 0 <= i < |stores| :: stores[i].0
  }

  function RowsOf<R>(row: Option<R>): seq<R> {
    match row case None => [] case Some(r) => [r]
  }

  datatype Outcome<C, R> = Outcome(core: C, pages: Pages, rows: seq<R>, uart: seq<nat>, steps: nat, error: Option<VmError>)

  /** Up to n steps from a state, stopping at a halt or an error. */
  function RunSteps<C, R>(m: Machine<C, R>, core: C, pages: Pages, n: nat): Outcome<C, R>
    decreases n
  {
    if n == 0 || m.halted(core) then Outcome(core, pages, [], [], 0, None) else
    var e := m.step(core, pages);
    var pages' := StorePages(pages, e.stores);
    if e.error.Some? then Outcome(e.core, pages', [], e.uart, 0, e.error) else
    Prepend(RowsOf(e.row), e.uart, 1, RunSteps(m, e.core, pages', n - 1))
  }

  function Prepend<C, R>(rows: seq<R>, uart: seq<nat>, steps: nat, o: Outcome<C, R>): Outcome<C, R> {
    Outcome(o.core, o.pages, rows + o.rows, uart + o.uart, steps + o.steps, o.error)
  }

  lemma PrependTwice<C, R>(a: seq<R>, u: seq<nat>, i: nat, b: seq<R>, v: seq<nat>, j: nat, o: Outcome<C, R>)
    ensures Prepend(a, u, i, Prepend(b, v, j, o)) == Prepend(a + b, u + v, i + j, o)
  {
    assert a + (b + o.rows) == a + b + o.rows && u + (v + o.uart) == u + v + o.uart;
  }

  /** Running a + b steps is running a and, if that did not fail, b more from where it ended. */
  lemma {:induction false} RunSplit<C, R>(m: Machine<C, R>, core: C, pages: Pages, a: nat, b: nat)
    ensures var o := RunSteps(m, core, pages, a);
      RunSteps(m, core, pages, a + b) ==
        if o.error.Some? then o else Prepend(o.rows, o.uart, o.steps, RunSteps(m, o.core, o.pages, b))
    decreases a
  {
    if a == 0 || m.halted(core) {
      var o := RunSteps(m, core, pages, a);
      var t := RunSteps(m, core, pages, b);
      assert [] + t.rows == t.rows && [] + t.uart == t.uart;
    } else {
      var e := m.step(core, pages);
      if e.error.None? {
        var pages' := StorePages(pages, e.stores);
        RunSplit(m, e.core, pages', a - 1, b);
        var o := RunSteps(m, e.core, pages', a - 1);
        PrependTwice(RowsOf(e.row), e.uart, 1, o.rows, o.uart, o.steps, RunSteps(m, o.core, o.pages, b));
      }
    }
  }

  lemma HaltedStays<C, R>(m: Machine<C, R>, core: C, pages: Pages, n: nat)
    requires m.halted(core) || n == 0
    ensures RunSteps(m, core, pages, n) == Outcome(core, pages, [], [], 0, None)
  {}

  lemma OneStep<C, R>(m: Machine<C, R>, core: C, pages: Pages, n: nat)
    requires !m.halted(core) && n > 0
    ensures var e := m.step(core, pages);
      var pages' := StorePages(pages, e.stores);
      RunSteps(m, core, pages, n) ==
        if e.error.Some? then Outcome(e.core, pages', [], e.uart, 0, e.error)
        else Prepend(RowsOf(e.row), e.uart, 1, RunSteps(m, e.core, pages', n - 1))
  {}

  // ---------------------------------------------------------------- the memory hash

  /** The hash of the whole memory, every page hashed afresh. */
  function MemoryHash<C, R>(m: Machine<C, R>, pages: Pages): Digest {
    m.combine(map p | p in pages :: m.pageHash(p, pages[p]))
  }

  /** Cached hashes are those of the pages not stored to since they were taken. */
  ghost predicate CacheOk<C, R>(m: Machine<C, R>, cache: map<nat, Digest>, mem: Memory) {
    && cache.Keys <= mem.pages.Keys && mem.dirty <= mem.pages.Keys
    && forall p :: p in mem.pages && p !in mem.dirty ==> p in cache && cache[p] == m.pageHash(p, mem.pages[p])
  }

  /** Re-hashing only dirty pages gives the hash of the whole memory. */
  method UpdateHash<C, R>(m: Machine<C, R>, cache0: map<nat, Digest>, mem0: Memory)
    returns (cache: map<nat, Digest>, mem: Memory, digest: Digest)
    requires CacheOk(m, cache0, mem0)
    ensures mem == Memory(mem0.pages, {}) && CacheOk(m, cache, mem)
    ensures digest == MemoryHash(m, mem0.pages)
  {
    cache := cache0;
    var todo := mem0.dirty;
    while todo != {}
      invariant todo <= mem0.dirty && cache.Keys <= mem0.pages.Keys
      invariant forall p :: p in mem0.pages && p !in todo ==> p in cache && cache[p] == m.pageHash(p, mem0.pages[p])
      decreases todo
    {
      var p :| p in todo;
      cache := cache[p := m.pageHash(p, mem0.pages[p])];
      todo := todo - {p};
    }
    mem := Memory(mem0.pages, {});
    assert cache == map p | p in mem0.pages :: m.pageHash(p, mem0.pages[p]);
    digest := m.combine(cache);
  }

  lemma {:induction false} StoreKeepsOthers(pages: Pages, stores: seq<(nat, Page)>)
    ensures StorePages(pages, stores).Keys == pages.Keys + Touched(stores)
    ensures forall p :: p in pages && p !in Touched(stores) ==> StorePages(pages, stores)[p] == pages[p]
    decreases stores
  {
    if stores != [] {
      var (q, data) := stores[0];
      StoreKeepsOthers(pages[q := data], stores[1..]);
      assert forall i :: 0 <= i < |stores| - 1 ==> stores[1..][i].0 == stores[i + 1].0;
      forall p | p in Touched(stores) ensures p == q || p in Touched(stores[1..]) {
        var i :| 0 <= i < |stores| && stores[i].0 == p;
        if i > 0 {
          assert stores[1..][i - 1].0 == p;
        }
      }
      forall p | p in Touched(stores[1..]) ensures p in Touched(stores) {
        var i :| 0 <= i < |stores[1..]| && stores[1..][i].0 == p;
        assert stores[i + 1].0 == p;
      }
      assert stores[0].0 in Touched(stores);
      assert Touched(stores) == {q} + Touched(stores[1..]);
    }
  }

  // ---------------------------------------------------------------- one chunk

  function Numbered<R>(rows: seq<R>): (r: seq<Row<R>>)
    ensures |r| == |rows|
  {
    seq(|rows|, i requires 0 <= i < |rows| => Row(i, rows[i]))
  }

  lemma NumberedOneMore<R>(rows: seq<R>, row: Option<R>)
    ensures Numbered(rows + RowsOf(row)) == Numbered(rows) + if row.Some? then [Row(|rows|, row.value)] else []
  {}

  /** `TracingVmBorrowed::step`. */
  method TraceStep<C, R>(m: Machine<C, R>, vm: Vm<C>, trace: seq<Row<R>>, ghost cache: map<nat, Digest>)
    returns (vm': Vm<C>, trace': seq<Row<R>>, error: Option<VmError>)
    requires CacheOk(m, cache, vm.memory)
    ensures CacheOk(m, cache, vm'.memory)
    ensures m.halted(vm.core) ==> error == Some(Halted) && vm' == vm && trace' == trace
    ensures !m.halted(vm.core) ==> var e := m.step(vm.core, vm.memory.pages);
      && error == e.error && vm'.core == e.core && vm'.uart == vm.uart + e.uart
      && vm'.memory.pages == StorePages(vm.memory.pages, e.stores)
      && trace' == trace + if e.error.None? && e.row.Some? then [Row(|trace|, e.row.value)] else []
  {
    if m.halted(vm.core) {
      return vm, trace, Some(Halted);
    }
    var e := m.step(vm.core, vm.memory.pages);
    StoreKeepsOthers(vm.memory.pages, e.stores);
    vm' := Vm(e.core, Memory(StorePages(vm.memory.pages, e.stores), vm.memory.dirty + Touched(e.stores)), vm.uart + e.uart);
    trace', error := trace, e.error;
    if error.None? && e.row.Some? {
      trace' := trace + [Row(|trace|, e.row.value)];
    }
  }

  /** The step loop of a chunk: up to n steps, leaving at a halt or an error. */
  method TraceSteps<C, R>(m: Machine<C, R>, vm0: Vm<C>, n: nat, ghost cache: map<nat, Digest>)
    returns (vm: Vm<C>, trace: seq<Row<R>>, steps: nat, error: Option<VmError>)
    requires CacheOk(m, cache, vm0.memory)
    ensures CacheOk(m, cache, vm.memory)
    ensures var o := RunSteps(m, vm0.core, vm0.memory.pages, n);
      && vm.core == o.core && vm.memory.pages == o.pages && vm.uart == vm0.uart + o.uart
      && trace == Numbered(o.rows) && steps == o.steps && error == o.error
  {
    hide RunSteps, StorePages, Touched, CacheOk, Numbered;
    ghost var o := RunSteps(m, vm0.core, vm0.memory.pages, n);
    ghost var rows: seq<R>, bytes: seq<nat> := [], [];
    vm, trace, steps, error := vm0, [], 0, None;
    assert Numbered<R>([]) == [];
    for i := 0 to n
      invariant CacheOk(m, cache, vm.memory) && error == None
      invariant vm.uart == vm0.uart + bytes && trace == Numbered(rows) && |trace| == |rows|
      invariant o == Prepend(rows, bytes, steps, RunSteps(m, vm.core, vm.memory.pages, n - i))
    {
      if m.halted(vm.core) {
        HaltedStays(m, vm.core, vm.memory.pages, n - i);
        assert rows + [] == rows && bytes + [] == bytes;
        return;
      }
      ghost var e := m.step(vm.core, vm.memory.pages);
      ghost var more := RunSteps(m, e.core, StorePages(vm.memory.pages, e.stores), n - i - 1);
      OneStep(m, vm.core, vm.memory.pages, n - i);
      PrependTwice(rows, bytes, steps, RowsOf(e.row), e.uart, 1, more);
      NumberedOneMore(rows, e.row);
      assert vm.uart + e.uart == vm0.uart + (bytes + e.uart);
      vm, trace, error := TraceStep(m, vm, trace, cache);
      if error.Some? {
        assert rows + [] == rows && trace == Numbered(rows);
        return;
      }
      rows, bytes, steps := rows + RowsOf(e.row), bytes + e.uart, steps + 1;
    }
    HaltedStays(m, vm.core, vm.memory.pages, 0);
    assert rows + [] == rows && bytes + [] == bytes;
  }

  /** What the prover's observable state is between chunks. */
  datatype State<C> = State(core: C, pages: Pages, pending: seq<nat>, globalStep: nat, chunkIndex: nat, uartSeen: seq<nat>)

  function Boundary<C, R>(m: Machine<C, R>, s: State<C>): Digest {
    m.boundary(s.core, MemoryHash(m, s.pages), m.uartHash(s.uartSeen), s.globalStep)
  }

  /** A chunk of up to `size` steps: the new state and the chunk, or the error. */
  function ChunkSpec<C, R>(m: Machine<C, R>, s: State<C>, size: nat): Result<(State<C>, Chunk<R>), VmError> {
    var o := RunSteps(m, s.core, s.pages, size);
    if o.error.Some? then Err(o.error.value) else
    var out := s.pending + o.uart;
    var s' := State(o.core, o.pages, [], s.globalStep + o.steps, s.chunkIndex + 1, s.uartSeen + out);
    Ok((s', Chunk(s.chunkIndex, Numbered(o.rows), Boundary(m, s), Boundary(m, s'), out, o.steps)))
  }

  /** Where a failing chunk leaves the prover: the VM as far as it got, counters and UART hash untouched. */
  function AfterFailure<C, R>(m: Machine<C, R>, s: State<C>, size: nat): State<C> {
    var o := RunSteps(m, s.core, s.pages, size);
    s.(core := o.core, pages := o.pages, pending := s.pending + o.uart)
  }

  /** A successful chunk in terms of its run and its parts. */
  lemma ChunkDone<C, R>(m: Machine<C, R>, s: State<C>, size: nat, initialHash: Digest, out: seq<nat>, finalHash: Digest)
    requires RunSteps(m, s.core, s.pages, size).error.None?
    requires initialHash == m.boundary(s.core, MemoryHash(m, s.pages), m.uartHash(s.uartSeen), s.globalStep)
    requires var o := RunSteps(m, s.core, s.pages, size);
      out == s.pending + o.uart &&
      finalHash == m.boundary(o.core, MemoryHash(m, o.pages), m.uartHash(s.uartSeen + out), s.globalStep + o.steps)
    ensures var o := RunSteps(m, s.core, s.pages, size);
      ChunkSpec(m, s, size) ==
        Ok((State(o.core, o.pages, [], s.globalStep + o.steps, s.chunkIndex + 1, s.uartSeen + out),
            Chunk(s.chunkIndex, Numbered(o.rows), initialHash, finalHash, out, o.steps)))
  {
    hide RunSteps, MemoryHash, Numbered;
  }

  lemma ChunkFailed<C, R>(m: Machine<C, R>, s: State<C>, size: nat)
    requires RunSteps(m, s.core, s.pages, size).error.Some?
    ensures var o := RunSteps(m, s.core, s.pages, size);
      ChunkSpec(m, s, size) == Err(o.error.value) &&
      AfterFailure(m, s, size) == State(o.core, o.pages, s.pending + o.uart, s.globalStep, s.chunkIndex, s.uartSeen)
  {
    hide RunSteps;
  }

  class StreamingProver<C, !R> {
    const m: Machine<C, R>
    const chunkSize: nat
    var vm: Vm<C>
    var globalStep: nat
    var chunkIndex: nat
    var pageHashes: map<nat, Digest>
    var uartHashed: seq<nat>

    ghost predicate Valid()
      reads this
    {
      CacheOk(m, pageHashes, vm.memory)
    }

    ghost function View(): State<C>
      reads this
    {
      State(vm.core, vm.memory.pages, vm.uart, globalStep, chunkIndex, uartHashed)
    }

    constructor (m: Machine<C, R>, vm: Vm<C>, chunkSize: nat)
      ensures this.m == m && this.chunkSize == chunkSize && this.vm == vm && pageHashes == map[]
      ensures View() == State(vm.core, vm.memory.pages, vm.uart, 0, 0, [])
    {
      this.m, this.chunkSize, this.vm := m, chunkSize, vm;
      globalStep, chunkIndex, pageHashes, uartHashed := 0, 0, map[], [];
    }

    /** Must be called once before the first chunk: hashes every loaded page, dirty or not. */
    method InitializeMemoryHash()
      modifies this
      ensures Valid() && View() == old(View())
    {
      pageHashes := map p | p in vm.memory.pages :: m.pageHash(p, vm.memory.pages[p]);
      vm := vm.(memory := Memory(vm.memory.pages, {}));
    }

    /** One chunk is exactly what its specification says, whether its steps succeed or one fails. */
    method ExecuteChunk() returns (r: Result<Chunk<R>, VmError>)
      requires Valid()
      modifies this
      ensures Valid()
      ensures match ChunkSpec(m, old(View()), chunkSize)
        case Ok((s, c)) => r == Ok(c) && View() == s
        case Err(e) => r == Err(e) && View() == AfterFailure(m, old(View()), chunkSize)
    {
      hide RunSteps, MemoryHash, CacheOk, Numbered, ChunkSpec, Boundary, AfterFailure;
      ghost var s0 := View();
      var cache, mem, memHash := UpdateHash(m, pageHashes, vm.memory);
      pageHashes, vm := cache, vm.(memory := mem);
      var initialHash := m.boundary(vm.core, memHash, m.uartHash(uartHashed), globalStep);
      ghost var o := RunSteps(m, s0.core, s0.pages, chunkSize);
      assert initialHash == m.boundary(s0.core, MemoryHash(m, s0.pages), m.uartHash(s0.uartSeen), s0.globalStep);

      var vm', trace, steps, error := TraceSteps(m, vm, chunkSize, pageHashes);
      vm := vm';
      if error.Some? {
        ChunkFailed(m, s0, chunkSize);
        return Err(error.value);
      }

      var out := vm.uart;
      assert out == s0.pending + o.uart;
      vm := vm.(uart := []);
      if out != [] {
        uartHashed := uartHashed + out;
      }
      assert uartHashed == s0.uartSeen + out;
      globalStep := globalStep + steps;
      cache, mem, memHash := UpdateHash(m, pageHashes, vm.memory);
      pageHashes, vm := cache, vm.(memory := mem);
      var finalHash := m.boundary(vm.core, memHash, m.uartHash(uartHashed), globalStep);
      assert finalHash == m.boundary(o.core, MemoryHash(m, o.pages), m.uartHash(s0.uartSeen + out), s0.globalStep + o.steps);
      ChunkDone(m, s0, chunkSize, initialHash, out, finalHash);
      r := Ok(Chunk(chunkIndex, trace, initialHash, finalHash, out, steps));
      chunkIndex := chunkIndex + 1;
    }
  }

  // ---------------------------------------------------------------- many chunks

  /** Chunks of the given sizes one after the other, until one fails. */
  function ChunksSpec<C, R>(m: Machine<C, R>, s: State<C>, sizes: seq<nat>): Result<(State<C>, seq<Chunk<R>>), VmError>
    decreases |sizes|
  {
    if sizes == [] then Ok((s, [])) else
    match ChunkSpec(m, s, sizes[0])
    case Err(e) => Err(e)
    case Ok((s1, c)) =>
      match ChunksSpec(m, s1, sizes[1..])
      case Err(e) => Err(e)
      case Ok((s2, cs)) => Ok((s2, [c] + cs))
  }

  /** Where a failing chunked run leaves the prover, and the UART bytes its successful chunks emitted. */
  function ChunksFailure<C, R>(m: Machine<C, R>, s: State<C>, sizes: seq<nat>): (State<C>, seq<nat>)
    requires ChunksSpec(m, s, sizes).Err?
    decreases |sizes|
  {
    match ChunkSpec(m, s, sizes[0])
    case Err(_) => (AfterFailure(m, s, sizes[0]), [])
    case Ok((s1, c)) =>
      var (t, emitted) := ChunksFailure(m, s1, sizes[1..]);
      (t, c.uart + emitted)
  }

  function Sum(xs: seq<nat>): nat {
    if xs == [] then 0 else xs[0] + Sum(xs[1..])
  }

  function Data<R>(rows: seq<Row<R>>): (d: seq<R>)
    ensures |d| == |rows|
  {
    seq(|rows|, i requires 0 <= i < |rows| => rows[i].data)
  }

  /** The row data of all chunks, chunk-local step numbers dropped. */
  function AllData<R>(cs: seq<Chunk<R>>): seq<R> {
    if cs == [] then [] else Data(cs[0].rows) + AllData(cs[1..])
  }

  function AllUart<R>(cs: seq<Chunk<R>>): seq<nat> {
    if cs == [] then [] else cs[0].uart + AllUart(cs[1..])
  }

  function AllSteps<R>(cs: seq<Chunk<R>>): nat {
    if cs == [] then 0 else cs[0].numSteps + AllSteps(cs[1..])
  }

  lemma DataNumbered<R>(rows: seq<R>)
    ensures Data(Numbered(rows)) == rows
  {}

  /** Two successive chunks against one chunk of both sizes. */
  ghost predicate Joined<C, R>(s: State<C>, c1: Chunk<R>, s2: State<C>, c2: Chunk<R>, t: State<C>, c: Chunk<R>) {
    && t == s2.(chunkIndex := s.chunkIndex + 1)
    && Data(c.rows) == Data(c1.rows) + Data(c2.rows)
    && c.uart == c1.uart + c2.uart && c.numSteps == c1.numSteps + c2.numSteps
  }

  /** The VM and all UART bytes, emitted or pending, left by a failing chunked run, against one failing chunk. */
  ghost predicate SameFailure<C>(t: State<C>, emitted: seq<nat>, f: State<C>) {
    && t.core == f.core && t.pages == f.pages && emitted + t.pending == f.pending
    && t.uartSeen == f.uartSeen + emitted
  }

  lemma TwoChunks<C, R>(m: Machine<C, R>, s: State<C>, a: nat, b: nat)
    ensures match ChunkSpec(m, s, a)
      case Err(e) => ChunkSpec(m, s, a + b) == Err(e) && AfterFailure(m, s, a + b) == AfterFailure(m, s, a)
      case Ok((s1, c1)) =>
        match ChunkSpec(m, s1, b)
        case Err(e) =>
          ChunkSpec(m, s, a + b) == Err(e) && SameFailure(AfterFailure(m, s1, b), c1.uart, AfterFailure(m, s, a + b))
        case Ok((s2, c2)) =>
          ChunkSpec(m, s, a + b).Ok? && var (t, c) := ChunkSpec(m, s, a + b).value; Joined(s, c1, s2, c2, t, c)
  {
    hide RunSteps, Boundary;
    RunSplit(m, s.core, s.pages, a, b);
    var o := RunSteps(m, s.core, s.pages, a);
    if o.error.None? {
      var t := RunSteps(m, o.core, o.pages, b);
      DataNumbered(o.rows);
      DataNumbered(t.rows);
      DataNumbered(o.rows + t.rows);
      assert s.pending + (o.uart + t.uart) == s.pending + o.uart + ([] + t.uart);
      assert s.uartSeen + (s.pending + o.uart) + ([] + t.uart) == s.uartSeen + (s.pending + (o.uart + t.uart));
    }
  }

  /** What a chunked run recorded against what one big chunk recorded. */
  ghost predicate SameRun<C, R>(s: State<C>, k: nat, s1: State<C>, cs: seq<Chunk<R>>, s2: State<C>, c: Chunk<R>) {
    && s1 == s2.(chunkIndex := s.chunkIndex + k)
    && AllData(cs) == Data(c.rows) && AllUart(cs) == c.uart && AllSteps(cs) == c.numSteps
  }

  /**
   However the steps are cut into chunks, the chunked run succeeds exactly when one chunk of all of
   them does, with the same state, rows, UART bytes and step count, and fails with the same error,
   leaving the same registers, memory and UART bytes behind.
   */
  lemma {:induction false} ChunkingIrrelevant<C, R>(m: Machine<C, R>, s: State<C>, sizes: seq<nat>)
    requires sizes != []
    ensures match ChunkSpec(m, s, Sum(sizes))
      case Err(e) =>
        ChunksSpec(m, s, sizes) == Err(e) &&
        var (t, emitted) := ChunksFailure(m, s, sizes);
        SameFailure(t, emitted, AfterFailure(m, s, Sum(sizes)))
      case Ok((s2, c)) =>
        ChunksSpec(m, s, sizes).Ok? && var (s1, cs) := ChunksSpec(m, s, sizes).value; SameRun(s, |sizes|, s1, cs, s2, c)
    decreases |sizes|
  {
    hide ChunkSpec, Data, AfterFailure;
    var n, rest := sizes[0], sizes[1..];
    TwoChunks(m, s, n, Sum(rest));
    var first := ChunkSpec(m, s, n);
    if first.Ok? {
      var (s1, c1) := first.value;
      if rest == [] {
        assert Sum(sizes) == n;
        assert ChunksSpec(m, s1, rest) == Ok((s1, []));
        SingleChunk(c1);
        assert [c1] + [] == [c1];
        assert ChunksSpec(m, s, sizes) == Ok((s1, [c1]));
        NextIndex(m, s, n);
      } else {
        ChunkingIrrelevant(m, s1, rest);
        NextIndex(m, s, n);
        if ChunksSpec(m, s1, rest).Ok? {
          var (_, cs) := ChunksSpec(m, s1, rest).value;
          MoreChunks(c1, cs);
        }
      }
    }
  }

  lemma NextIndex<C, R>(m: Machine<C, R>, s: State<C>, n: nat)
    requires ChunkSpec(m, s, n).Ok?
    ensures ChunkSpec(m, s, n).value.0.chunkIndex == s.chunkIndex + 1
  {}

  lemma MoreChunks<R>(c: Chunk<R>, cs: seq<Chunk<R>>)
    ensures AllData([c] + cs) == Data(c.rows) + AllData(cs)
    ensures AllUart([c] + cs) == c.uart + AllUart(cs)
    ensures AllSteps([c] + cs) == c.numSteps + AllSteps(cs)
  {
    assert ([c] + cs)[1..] == cs;
  }

  lemma SingleChunk<R>(c: Chunk<R>)
    ensures AllData([c]) == Data(c.rows) && AllUart([c]) == c.uart && AllSteps([c]) == c.numSteps
  {
    MoreChunks(c, []);
    assert [c] + [] == [c];
  }

  /** Consecutive chunks of a run from s to t. */
  ghost predicate Chained<C, R>(m: Machine<C, R>, s: State<C>, cs: seq<Chunk<R>>, t: State<C>) {
    && (cs != [] ==> cs[0].initialHash == Boundary(m, s) && cs[|cs| - 1].finalHash == Boundary(m, t))
    && (forall i :: 0 <= i < |cs| - 1 ==> cs[i].finalHash == cs[i + 1].initialHash)
    && (forall i :: 0 <= i < |cs| ==> cs[i].index == s.chunkIndex + i)
  }

  /**
   Along a chunked run each final state hash is the next initial one, the first and last are those
   of the end states, chunks are numbered in order, the step counter is the sum of their steps and
   the UART hash covers all their bytes.
   */
  lemma {:induction false} ChunksChain<C, R>(m: Machine<C, R>, s: State<C>, sizes: seq<nat>)
    requires ChunksSpec(m, s, sizes).Ok?
    ensures var (t, cs) := ChunksSpec(m, s, sizes).value;
      && |cs| == |sizes| && Chained(m, s, cs, t)
      && t.globalStep == s.globalStep + AllSteps(cs) && t.uartSeen == s.uartSeen + AllUart(cs)
    decreases |sizes|
  {
    hide ChunkSpec, Boundary;
    if sizes == [] {
      assert s.uartSeen + [] == s.uartSeen;
    } else {
      var (s1, c) := ChunkSpec(m, s, sizes[0]).value;
      ChunkEnds(m, s, sizes[0]);
      ChunksChain(m, s1, sizes[1..]);
      var (t, cs) := ChunksSpec(m, s1, sizes[1..]).value;
      MoreChunks(c, cs);
      var all := [c] + cs;
      forall i | 0 <= i < |all| - 1 ensures all[i].finalHash == all[i + 1].initialHash {
        if i > 0 {
          assert all[i] == cs[i - 1] && all[i + 1] == cs[i];
        }
      }
      assert s.uartSeen + c.uart + AllUart(cs) == s.uartSeen + (c.uart + AllUart(cs));
      if cs == [] {
        assert t == s1;
      }
    }
  }

  lemma ChunkEnds<C, R>(m: Machine<C, R>, s: State<C>, n: nat)
    requires ChunkSpec(m, s, n).Ok?
    ensures var (s1, c) := ChunkSpec(m, s, n).value;
      && c.initialHash == Boundary(m, s) && c.finalHash == Boundary(m, s1)
      && c.index == s.chunkIndex && s1.chunkIndex == s.chunkIndex + 1
      && s1.globalStep == s.globalStep + c.numSteps && s1.uartSeen == s.uartSeen + c.uart
  {}
}
