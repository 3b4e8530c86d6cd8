/**
 The call-frame transition check over recorded rows, and the inspector runs whose traces pass it.
 */
module CallFrames {
  import opened Inspector

  predicate IsCallFamily(opcode: nat) {
    opcode == 0xF0 || opcode == 0xF1 || opcode == 0xF2 || opcode == 0xF4 || opcode == 0xF5 || opcode == 0xFA
  }

  predicate IsReturn(opcode: nat) {
    opcode == 0xF3 || opcode == 0xFD
  }

  datatype Transition = Transition(row: nat, opcode: nat, pre: Frame, post: Frame)

  // ---------------------------------------------------------------- the checks

  /** A call-family row leaves depth alone or adds one; a frame it adds is called by the running contract. */
  predicate CallOk(t: Transition) {
    IsCallFamily(t.opcode) ==>
      && (t.post.depth == t.pre.depth + 1 || t.post.depth == t.pre.depth)
      && (t.post.depth == t.pre.depth + 1 && t.opcode != 0xF4 ==> t.post.caller == t.pre.callee)
  }

  /** RETURN and REVERT in a sub-frame drop the depth by one. */
  predicate ReturnOk(t: Transition) {
    IsReturn(t.opcode) && t.pre.depth > 0 ==> t.post.depth == t.pre.depth - 1
  }

  function TransitionAt(rows: seq<Row>, r: nat): Transition
    requires r + 1 < |rows|
  {
    Transition(r, rows[r].info.opcode, rows[r].frame, rows[r + 1].frame)
  }

  /** Both rules hold between each row and the next. */
  predicate TransitionsOk(rows: seq<Row>) {
    forall r :: 0 <= r < |rows| - 1 ==> CallOk(TransitionAt(rows, r)) && ReturnOk(TransitionAt(rows, r))
  }

  predicate Extracted(rows: seq<Row>, n: nat, t: Transition)
    requires n == 0 || n < |rows|
  {
    && (IsCallFamily(t.opcode) || IsReturn(t.opcode) || t.opcode == 0)
    && exists r :: 0 <= r < n && t == TransitionAt(rows, r)
  }

  /** `extract_frame_transitions`: the call-family, STOP, RETURN and REVERT rows but the last row, in order. */
  method ExtractFrameTransitions(rows: seq<Row>) returns (ts: seq<Transition>)
    ensures forall t :: t in ts <==> Extracted(rows, if rows == [] then 0 else |rows| - 1, t)
    ensures forall i, j :: 0 <= i < j < |ts| ==> ts[i].row < ts[j].row
  {
    ts := [];
    var n := if |rows| == 0 then 0 else |rows| - 1;
    for r := 0 to n
      invariant forall t :: t in ts <==> Extracted(rows, r, t)
      invariant forall i, j :: 0 <= i < j < |ts| ==> ts[i].row < ts[j].row
      invariant forall i :: 0 <= i < |ts| ==> ts[i].row < r
    {
      var opcode := rows[r].info.opcode;
      if !IsCallFamily(opcode) && !(IsReturn(opcode) || opcode == 0) {
        continue;
      }
      ts := ts + [TransitionAt(rows, r)];
    }
  }

  /** `verify_call_transition`. */
  method VerifyCallTransition(t: Transition) returns (ok: bool)
    ensures ok <==> CallOk(t)
  {
    if !IsCallFamily(t.opcode) {
      return true;
    }
    if t.post.depth != t.pre.depth + 1 && t.post.depth != t.pre.depth {
      return false;
    }
    if t.post.depth == t.pre.depth + 1 && t.opcode != 0xF4 {
      if t.post.caller != t.pre.callee {
        return false;
      }
    }
    return true;
  }

  /** `verify_return_transition`. */
  method VerifyReturnTransition(t: Transition) returns (ok: bool)
    ensures ok <==> ReturnOk(t)
  {
    if !IsReturn(t.opcode) {
      return true;
    }
    if t.pre.depth > 0 && t.post.depth != t.pre.depth - 1 {
      return false;
    }
    return true;
  }

  /** `verify_all_transitions` accepts exactly the traces whose every adjacent pair of rows obeys both rules. */
  method VerifyAllTransitions(rows: seq<Row>) returns (ok: bool)
    ensures ok <==> TransitionsOk(rows)
  {
    var ts := ExtractFrameTransitions(rows);
    for i := 0 to |ts|
      invariant forall k :: 0 <= k < i ==> CallOk(ts[k]) && ReturnOk(ts[k])
    {
      var a := VerifyCallTransition(ts[i]);
      var b := VerifyReturnTransition(ts[i]);
      if !a || !b {
        assert ts[i] in ts;
        return false;
      }
    }
    forall r | 0 <= r < |rows| - 1 ensures CallOk(TransitionAt(rows, r)) && ReturnOk(TransitionAt(rows, r)) {
      var t := TransitionAt(rows, r);
      if IsCallFamily(t.opcode) || IsReturn(t.opcode) {
        assert Extracted(rows, |rows| - 1, t) && t in ts;
      }
    }
    return true;
  }

  // ---------------------------------------------------------------- well-behaved runs

  /** One opcode and the frame hooks fired between it and the next. */
  datatype Block = Block(info: OpInfo, hooks: seq<Event>)

  predicate IsOpen(e: Event) {
    e.CallHook? || e.CreateHook?
  }

  predicate IsClose(e: Event) {
    e.CallEnd? || e.CreateEnd?
  }

  predicate IsHook(e: Event) {
    IsOpen(e) || IsClose(e)
  }

  predicate AllHooks(hooks: seq<Event>) {
    forall i :: 0 <= i < |hooks| ==> IsHook(hooks[i])
  }

  /** The frame an opening hook pushes is called by the contract running in `frame`. */
  predicate CalledBy(e: Event, frame: Frame)
    requires IsOpen(e)
  {
    match e
    case CallHook(c) => !c.scheme.DelegateCall? && AddressToLimbs(c.caller) == frame.callee
    case CreateHook(c) => AddressToLimbs(c.caller) == frame.callee
  }

  /** What the interpreter does after an opcode run in `frame`. */
  predicate BlockOk(frame: Frame, b: Block) {
    && AllHooks(b.hooks)
    && (IsCallFamily(b.info.opcode) ==>
          || b.hooks == []
          || (|b.hooks| == 1 && IsOpen(b.hooks[0]) && (b.info.opcode == 0xF4 || CalledBy(b.hooks[0], frame)))
          || (|b.hooks| == 2 && IsOpen(b.hooks[0]) && IsClose(b.hooks[1])))
    && (IsReturn(b.info.opcode) && frame.depth > 0 ==> |b.hooks| == 1 && IsClose(b.hooks[0]))
  }

  function ApplyAll(s: State, events: seq<Event>): State
    decreases |events|
  {
    if events == [] then s else ApplyAll(Apply(s, events[0]), events[1..])
  }

  function BlockEvents(b: Block): seq<Event> {
    [Step(b.info), StepEnd] + b.hooks
  }

  /** The state after the first n blocks, from a state reached by opening hooks. */
  function AfterBlocks(s: State, blocks: seq<Block>, n: nat): State
    requires n <= |blocks|
  {
    if n == 0 then s else ApplyAll(AfterBlocks(s, blocks, n - 1), BlockEvents(blocks[n - 1]))
  }

  /** Every frame's depth is its index on the stack. */
  predicate Indexed(stack: seq<Frame>) {
    forall i :: 0 <= i < |stack| ==> stack[i].depth == i
  }

  /** The same rows, hints aside. */
  predicate SameRows(a: seq<Row>, b: seq<Row>) {
    |a| == |b| && forall k :: 0 <= k < |a| ==> a[k].info == b[k].info && a[k].frame == b[k].frame
  }

  /** Hooks keep depths indexed and touch only the hints of recorded rows. */
  lemma {:induction false} HooksKeep(s: State, hooks: seq<Event>)
    requires AllHooks(hooks) && Indexed(s.stack)
    ensures Indexed(ApplyAll(s, hooks).stack)
    ensures SameRows(s.trace, ApplyAll(s, hooks).trace)
    decreases hooks
  {
    if hooks != [] {
      assert IsHook(hooks[0]);
      HooksKeep(Apply(s, hooks[0]), hooks[1..]);
    }
  }

  lemma BlockStart(s: State, b: Block)
    ensures ApplyAll(s, BlockEvents(b)) == ApplyAll(Apply(Apply(s, Step(b.info)), StepEnd), b.hooks)
  {
    var e := BlockEvents(b);
    assert e[1..][1..] == b.hooks;
  }

  /** The rules hold between a block's row and the row of the next block. */
  lemma BlockTransition(s: State, b: Block, row: nat)
    requires Indexed(s.stack) && BlockOk(Top(s.stack), b)
    ensures var t := Transition(row, b.info.opcode, Top(s.stack), Top(ApplyAll(s, BlockEvents(b)).stack));
      CallOk(t) && ReturnOk(t)
  {
    BlockStart(s, b);
    var m := Apply(Apply(s, Step(b.info)), StepEnd);
    assert m.stack == s.stack;
    if |b.hooks| == 1 {
      var h := b.hooks[0];
      assert b.hooks[1..] == [];
      assert ApplyAll(m, b.hooks) == Apply(m, h);
    } else if |b.hooks| == 2 {
      assert b.hooks[1..][1..] == [] && b.hooks[1..][0] == b.hooks[1];
      assert ApplyAll(Apply(m, b.hooks[0]), b.hooks[1..]) == Apply(Apply(m, b.hooks[0]), b.hooks[1]);
      assert ApplyAll(m, b.hooks) == Apply(Apply(m, b.hooks[0]), b.hooks[1]);
    }
  }

  predicate BlocksOk(s: State, blocks: seq<Block>) {
    forall n :: 0 <= n < |blocks| ==> BlockOk(Top(AfterBlocks(s, blocks, n).stack), blocks[n])
  }

  /** Row k is block k's opcode with the frame on top before that block, for each of n rows. */
  predicate RowsMatch(s: State, blocks: seq<Block>, n: nat, rows: seq<Row>)
    requires n <= |blocks|
  {
    |rows| == n && forall k :: 0 <= k < n ==>
      rows[k].info == blocks[k].info && rows[k].frame == Top(AfterBlocks(s, blocks, k).stack)
  }

  lemma {:induction false} BlockRows(s: State, blocks: seq<Block>, n: nat)
    requires n <= |blocks| && s.trace == [] && Indexed(s.stack) && BlocksOk(s, blocks)
    ensures Indexed(AfterBlocks(s, blocks, n).stack) && RowsMatch(s, blocks, n, AfterBlocks(s, blocks, n).trace)
  {
    hide Apply, Indexed, ApplyAll, RowsMatch, SameRows;
    if n == 0 {
      assert RowsMatch(s, blocks, 0, []) by { NoRows(s, blocks); }
    } else {
      BlockRows(s, blocks, n - 1);
      var before, b := AfterBlocks(s, blocks, n - 1), blocks[n - 1];
      assert BlockOk(Top(before.stack), b);
      BlockStart(before, b);
      StepRecorded(before, b.info);
      HooksKeep(Apply(Apply(before, Step(b.info)), StepEnd), b.hooks);
      RowsMatchNext(s, blocks, n - 1, before.trace, NewRow(Pending(before.stepCount, b.info, Top(before.stack))),
        AfterBlocks(s, blocks, n).trace);
    }
  }

  lemma NoRows(s: State, blocks: seq<Block>)
    ensures RowsMatch(s, blocks, 0, [])
  {}

  lemma RowsMatchNext(s: State, blocks: seq<Block>, n: nat, rows: seq<Row>, row: Row, after: seq<Row>)
    requires n < |blocks| && RowsMatch(s, blocks, n, rows) && SameRows(rows + [row], after)
    requires row.info == blocks[n].info && row.frame == Top(AfterBlocks(s, blocks, n).stack)
    ensures RowsMatch(s, blocks, n + 1, after)
  {
    hide AfterBlocks;
  }

  lemma StepRecorded(s: State, info: OpInfo)
    ensures var m := Apply(Apply(s, Step(info)), StepEnd);
      m.stack == s.stack && m.trace == s.trace + [NewRow(Pending(s.stepCount, info, Top(s.stack)))]
  {}

  // ---------------------------------------------------------------- the two ways of running events

  lemma {:induction false} ApplyAllConcat(s: State, a: seq<Event>, b: seq<Event>)
    ensures ApplyAll(s, a + b) == ApplyAll(ApplyAll(s, a), b)
    decreases a
  {
    hide Apply;
    if a == [] {
      assert a + b == b;
    } else {
      assert (a + b)[1..] == a[1..] + b;
      ApplyAllConcat(Apply(s, a[0]), a[1..], b);
    }
  }

  /** Running events from the front is running them from the back. */
  lemma {:induction false} ApplyAllIsRun(s: State, events: seq<Event>)
    ensures ApplyAll(s, events) == Run(s, events)
    decreases events
  {
    hide Apply;
    if events != [] {
      var n := |events| - 1;
      ApplyAllIsRun(s, events[..n]);
      ApplyAllConcat(s, events[..n], [events[n]]);
      assert events == events[..n] + [events[n]];
    }
  }

  /** The events of the first n blocks, in order. */
  function AllEvents(blocks: seq<Block>, n: nat): seq<Event>
    requires n <= |blocks|
  {
    if n == 0 then [] else AllEvents(blocks, n - 1) + BlockEvents(blocks[n - 1])
  }

  lemma {:induction false} BlocksAreEvents(s: State, blocks: seq<Block>, n: nat)
    requires n <= |blocks|
    ensures AfterBlocks(s, blocks, n) == ApplyAll(s, AllEvents(blocks, n))
  {
    hide Apply;
    if n > 0 {
      BlocksAreEvents(s, blocks, n - 1);
      ApplyAllConcat(s, AllEvents(blocks, n - 1), BlockEvents(blocks[n - 1]));
    }
  }

  /**
   A run in which call-family rows open one frame, open and close one, or leave depth alone,
   RETURN and REVERT in a sub-frame close exactly that frame, and opened frames are called by the
   running contract except under DELEGATECALL, records a trace the check accepts.
   */
  lemma WellBehavedRunAccepted(opening: seq<Event>, blocks: seq<Block>)
    requires AllHooks(opening) && BlocksOk(Run(INITIAL, opening), blocks)
    ensures TransitionsOk(Run(INITIAL, opening + AllEvents(blocks, |blocks|)).trace)
  {
    hide Apply;
    HooksKeep(INITIAL, opening);
    ApplyAllIsRun(INITIAL, opening);
    var s := Run(INITIAL, opening);
    var rows := AfterBlocks(s, blocks, |blocks|).trace;
    BlocksAreEvents(s, blocks, |blocks|);
    ApplyAllConcat(INITIAL, opening, AllEvents(blocks, |blocks|));
    ApplyAllIsRun(INITIAL, opening + AllEvents(blocks, |blocks|));
    BlockRows(s, blocks, |blocks|);
    forall r | 0 <= r < |rows| - 1
      ensures CallOk(TransitionAt(rows, r)) && ReturnOk(TransitionAt(rows, r))
    {
      BlockRows(s, blocks, r);
      var before := AfterBlocks(s, blocks, r);
      assert BlockOk(Top(before.stack), blocks[r]);
      BlockTransition(before, blocks[r], r);
      assert AfterBlocks(s, blocks, r + 1) == ApplyAll(before, BlockEvents(blocks[r]));
    }
  }
}
