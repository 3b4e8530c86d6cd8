/**
 What a chunked run commits to, read off the run itself: the states it goes through one step at a
 time, the memory each step's stores leave, and the four parts of every boundary hash.
 */
module ChunkBoundaries {
  import opened Common
  import opened ChunkedTrace

  // ---------------------------------------------------------------- the stores of a step

  /** Of several stores to one page the last wins. */
  lemma {:induction false} LastStoreWins(pages: Pages, stores: seq<(nat, Page)>, i: nat)
    requires i < |stores| && forall j :: i < j < |stores| ==> stores[j].0 != stores[i].0
    ensures stores[i].0 in StorePages(pages, stores) && StorePages(pages, stores)[stores[i].0] == stores[i].1
    decreases |stores|
  {
    var (q, data) := stores[0];
    if i > 0 {
      LastStoreWins(pages[q := data], stores[1..], i - 1);
    } else {
      StoreKeepsOthers(pages[q := data], stores[1..]);
      assert q !in Touched(stores[1..]) by {
        forall k | 0 <= k < |stores[1..]| ensures stores[1..][k].0 != q {
          assert stores[1..][k] == stores[k + 1];
        }
      }
    }
  }

  // ---------------------------------------------------------------- a run, state by state

  /** The states of a run: none but the last is halted, and each is the previous one's step. */
  ghost predicate Execution<C, R>(m: Machine<C, R>, states: seq<(C, Pages)>) {
    && states != []
    && forall k :: 0 <= k < |states| - 1 ==> Follows(m, states[k], states[k + 1])
  }

  ghost predicate Follows<C, R>(m: Machine<C, R>, a: (C, Pages), b: (C, Pages)) {
    var e := m.step(a.0, a.1);
    !m.halted(a.0) && e.error.None? && b == (e.core, StorePages(a.1, e.stores))
  }

  /** The rows recorded and bytes printed by the steps taken from the states. */
  ghost function Recorded<C, R>(m: Machine<C, R>, states: seq<(C, Pages)>, k: nat): (seq<R>, seq<nat>)
    requires k <= |states|
  {
    if k == 0 then ([], []) else
    var (rows, uart) := Recorded(m, states, k - 1);
    var e := m.step(states[k - 1].0, states[k - 1].1);
    (match e.row case None => rows case Some(r) => rows + [r], uart + e.uart)
  }

  /** A run without error ends at its limit or at a halt. */
  ghost predicate EndsWell<C, R>(m: Machine<C, R>, states: seq<(C, Pages)>, n: nat, o: Outcome<C, R>)
    requires states != []
  {
    var k := |states| - 1;
    && o.steps == k <= n && (k == n || m.halted(o.core)) && states[k] == (o.core, o.pages)
    && (o.rows, o.uart) == Recorded(m, states, k)
  }

  /** A failing run has made all steps but the one that fails, whose stores and output it keeps. */
  ghost predicate EndsBadly<C, R>(m: Machine<C, R>, states: seq<(C, Pages)>, n: nat, o: Outcome<C, R>)
    requires states != []
  {
    var k := |states| - 1;
    var e := m.step(states[k].0, states[k].1);
    && o.steps == k < n && !m.halted(states[k].0) && e.error == o.error
    && o.core == e.core && o.pages == StorePages(states[k].1, e.stores)
    && o.rows == Recorded(m, states, k).0 && o.uart == Recorded(m, states, k).1 + e.uart
  }

  lemma {:induction false} RecordedCons<C, R>(m: Machine<C, R>, a: (C, Pages), states: seq<(C, Pages)>, k: nat)
    requires k <= |states|
    ensures var e := m.step(a.0, a.1);
      var (rows, uart) := Recorded(m, states, k);
      Recorded(m, [a] + states, k + 1) == (RowsOf(e.row) + rows, e.uart + uart)
  {
    var all := [a] + states;
    if k == 0 {
      var e := m.step(a.0, a.1);
      assert Recorded(m, all, 0) == ([], []) && [] + e.uart == e.uart + [] && RowsOf(e.row) + [] == RowsOf(e.row);
      assert e.row.Some? ==> [] + [e.row.value] == RowsOf(e.row);
    } else {
      RecordedCons(m, a, states, k - 1);
      assert all[k] == states[k - 1];
      var e, e' := m.step(a.0, a.1), m.step(states[k - 1].0, states[k - 1].1);
      var (rows, uart) := Recorded(m, states, k - 1);
      assert e.uart + uart + e'.uart == e.uart + (uart + e'.uart);
      if e'.row.Some? {
        assert RowsOf(e.row) + rows + [e'.row.value] == RowsOf(e.row) + (rows + [e'.row.value]);
      }
    }
  }

  /** A run is a chain of single steps from its first state, and stops only where it must. */
  lemma {:induction false} RunIsExecution<C, R>(m: Machine<C, R>, core: C, pages: Pages, n: nat)
    returns (states: seq<(C, Pages)>)
    ensures Execution(m, states) && states[0] == (core, pages)
    ensures var o := RunSteps(m, core, pages, n);
      if o.error.None? then EndsWell(m, states, n, o) else EndsBadly(m, states, n, o)
    decreases n
  {
    hide StorePages;
    if n == 0 || m.halted(core) {
      return [(core, pages)];
    }
    var e := m.step(core, pages);
    if e.error.Some? {
      return [(core, pages)];
    }
    var a := (core, pages);
    var rest := RunIsExecution(m, e.core, StorePages(pages, e.stores), n - 1);
    states := [a] + rest;
    forall k | 0 <= k < |states| - 1 ensures Follows(m, states[k], states[k + 1]) {
      if k > 0 {
        assert Follows(m, rest[k - 1], rest[k]);
      }
    }
    var o := RunSteps(m, core, pages, n);
    var k := |rest| - 1;
    RecordedCons(m, a, rest, k);
    assert states[k + 1] == rest[k];
    var (rows, uart) := Recorded(m, rest, k);
    if o.error.Some? {
      var e' := m.step(rest[k].0, rest[k].1);
      assert e.uart + uart + e'.uart == e.uart + (uart + e'.uart);
    }
  }

  // ---------------------------------------------------------------- prefixes of a chunked run

  lemma {:induction false} ChunksPrefix<C, R>(m: Machine<C, R>, s: State<C>, sizes: seq<nat>, k: nat)
    requires k <= |sizes| && ChunksSpec(m, s, sizes).Ok?
    ensures |ChunksSpec(m, s, sizes).value.1| == |sizes|
    ensures ChunksSpec(m, s, sizes[..k]).Ok?
    ensures ChunksSpec(m, s, sizes[..k]).value.1 == ChunksSpec(m, s, sizes).value.1[..k]
    decreases |sizes|
  {
    hide ChunkSpec;
    if sizes != [] {
      var (s1, c) := ChunkSpec(m, s, sizes[0]).value;
      ChunksPrefix(m, s1, sizes[1..], if k == 0 then 0 else k - 1);
      if k > 0 {
        assert sizes[..k][1..] == sizes[1..][..k - 1];
        var (_, cs) := ChunksSpec(m, s1, sizes[1..]).value;
        assert ([c] + cs)[..k] == [c] + cs[..k - 1];
      }
    }
  }

  /** The digest of a state: registers, every page under its own number, all UART bytes, all steps. */
  ghost predicate Commits<C, R>(m: Machine<C, R>, digest: Digest, core: C, pages: Pages, uart: seq<nat>, steps: nat) {
    digest == m.boundary(core, m.combine(map p | p in pages :: m.pageHash(p, pages[p])), m.uartHash(uart), steps)
  }

  lemma BoundaryCommits<C, R>(m: Machine<C, R>, s: State<C>)
    ensures Commits(m, Boundary(m, s), s.core, s.pages, s.uartSeen, s.globalStep)
  {
    assert (map p | p in s.pages :: m.pageHash(p, s.pages[p])) == (map q | q in s.pages :: m.pageHash(q, s.pages[q]));
  }

  /** One chunk as large as a run holds what the run recorded and ends where it ends. */
  lemma OneChunk<C, R>(m: Machine<C, R>, s: State<C>, n: nat)
    requires ChunkSpec(m, s, n).Ok?
    ensures var (t, c), o := ChunkSpec(m, s, n).value, RunSteps(m, s.core, s.pages, n);
      && o.error.None? && t.core == o.core && t.pages == o.pages
      && Data(c.rows) == o.rows && c.uart == s.pending + o.uart && c.numSteps == o.steps
      && forall k :: 0 <= k < |c.rows| ==> c.rows[k].step == k
  {
    hide RunSteps, Boundary;
  }

  /**
   The final hash of chunk i commits to the registers and memory of one uninterrupted run of the
   first i + 1 chunks' steps, to all bytes seen by then and to the steps made; those bytes, steps and
   rows are that run's.
   */
  lemma FinalHashCommits<C, R>(m: Machine<C, R>, s: State<C>, sizes: seq<nat>, i: nat)
    requires i < |sizes| && ChunksSpec(m, s, sizes).Ok?
    ensures var cs, o := ChunksSpec(m, s, sizes).value.1, RunSteps(m, s.core, s.pages, Sum(sizes[..i + 1]));
      && |cs| == |sizes| && o.error.None?
      && Commits(m, cs[i].finalHash, o.core, o.pages, s.uartSeen + AllUart(cs[..i + 1]), s.globalStep + AllSteps(cs[..i + 1]))
      && AllUart(cs[..i + 1]) == s.pending + o.uart && AllSteps(cs[..i + 1]) == o.steps
      && AllData(cs[..i + 1]) == o.rows
  {
    hide ChunkSpec, RunSteps, Boundary, Commits, ChunksSpec, AllUart, AllSteps, AllData, Data;
    var first := sizes[..i + 1];
    ChunksPrefix(m, s, sizes, i + 1);
    ChunksChain(m, s, first);
    ChunkingIrrelevant(m, s, first);
    var (t, cs) := ChunksSpec(m, s, first).value;
    OneChunk(m, s, Sum(first));
    BoundaryCommits(m, t);
    assert cs[|cs| - 1] == cs[i];
  }

  /** The first chunk starts from a hash of the state before it, and its rows, like those of all chunks, count from 0. */
  lemma {:induction false} ChunksStart<C, R>(m: Machine<C, R>, s: State<C>, sizes: seq<nat>, i: nat)
    requires i < |sizes| && ChunksSpec(m, s, sizes).Ok?
    ensures var cs := ChunksSpec(m, s, sizes).value.1;
      && |cs| == |sizes| && Commits(m, cs[0].initialHash, s.core, s.pages, s.uartSeen, s.globalStep)
      && (forall k :: 0 <= k < |cs[i].rows| ==> cs[i].rows[k].step == k)
      && (forall k :: 0 <= k < |cs| - 1 ==> cs[k + 1].initialHash == cs[k].finalHash)
    decreases |sizes|
  {
    hide ChunkSpec, Boundary, Commits;
    ChunksChain(m, s, sizes);
    BoundaryCommits(m, s);
    var (s1, c) := ChunkSpec(m, s, sizes[0]).value;
    if i == 0 {
      OneChunk(m, s, sizes[0]);
    } else {
      ChunksStart(m, s1, sizes[1..], i - 1);
    }
  }

  // ---------------------------------------------------------------- a failing run

  /** The first k chunks succeeded and the prover stands where the next one failed. */
  ghost predicate FailedAfter<C, R>(m: Machine<C, R>, s: State<C>, sizes: seq<nat>, k: nat, t: State<C>, emitted: seq<nat>) {
    && k < |sizes| && ChunksSpec(m, s, sizes[..k]).Ok?
    && var cs := ChunksSpec(m, s, sizes[..k]).value.1;
    && t.globalStep == s.globalStep + AllSteps(cs) && t.chunkIndex == s.chunkIndex + k
    && emitted == AllUart(cs) && t.uartSeen == s.uartSeen + AllUart(cs)
  }

  lemma {:induction false} FailurePoint<C, R>(m: Machine<C, R>, s: State<C>, sizes: seq<nat>) returns (k: nat)
    requires ChunksSpec(m, s, sizes).Err?
    ensures var (t, emitted) := ChunksFailure(m, s, sizes); FailedAfter(m, s, sizes, k, t, emitted)
    decreases |sizes|
  {
    hide ChunkSpec;
    if ChunkSpec(m, s, sizes[0]).Err? {
      assert s.uartSeen + [] == s.uartSeen;
      return 0;
    }
    var (s1, c) := ChunkSpec(m, s, sizes[0]).value;
    var k' := FailurePoint(m, s1, sizes[1..]);
    k := k' + 1;
    ChunkEnds(m, s, sizes[0]);
    assert sizes[..k][1..] == sizes[1..][..k'];
    var cs := ChunksSpec(m, s1, sizes[1..][..k']).value.1;
    MoreChunks(c, cs);
    assert s.uartSeen + c.uart + AllUart(cs) == s.uartSeen + (c.uart + AllUart(cs));
  }

  /**
   A chunked run that fails leaves the registers and memory of the uninterrupted run of all its
   steps, the bytes of the failing chunk pending, and counters and UART hash that stand at the end of
   the chunks before it.
   */
  lemma FailureLeaves<C, R>(m: Machine<C, R>, s: State<C>, sizes: seq<nat>) returns (k: nat)
    requires ChunksSpec(m, s, sizes).Err?
    ensures var (t, emitted), o := ChunksFailure(m, s, sizes), RunSteps(m, s.core, s.pages, Sum(sizes));
      && o.error == Some(ChunksSpec(m, s, sizes).error)
      && t.core == o.core && t.pages == o.pages && emitted + t.pending == s.pending + o.uart
      && FailedAfter(m, s, sizes, k, t, emitted)
  {
    hide RunSteps, Boundary, FailedAfter;
    k := FailurePoint(m, s, sizes);
    ChunkingIrrelevant(m, s, sizes);
  }
}
