/**
 What an accepted trace satisfies, in the columns of its rows, and which hook runs record one:
 exactly those whose calls, creations, returns and reverts move one frame the way the check expects.
 */
module FrameChecks {
  import opened Inspector
  import opened CallFrames

  // ---------------------------------------------------------------- accepted traces, in columns

  /** The opcodes CREATE, CALL, CALLCODE, DELEGATECALL, CREATE2 and STATICCALL. */
  predicate Calls(row: Row) {
    row.info.opcode in {0xF0, 0xF1, 0xF2, 0xF4, 0xF5, 0xFA}
  }

  /** The opcodes RETURN and REVERT. */
  predicate Ends(row: Row) {
    row.info.opcode in {0xF3, 0xFD}
  }

  /** A calling row is followed at its own depth, or one deeper in a frame its own contract called. */
  predicate CallFollowed(row: Row, next: Row) {
    || next.frame.depth == row.frame.depth
    || (next.frame.depth == row.frame.depth + 1 && (row.info.opcode == 0xF4 || next.frame.caller == row.frame.callee))
  }

  /** A row that ends a sub-frame is followed one shallower. */
  predicate EndFollowed(row: Row, next: Row) {
    row.frame.depth == 0 || next.frame.depth == row.frame.depth - 1
  }

  /** The check accepts exactly the traces whose calling and ending rows are followed as they should be. */
  lemma AcceptedTraces(rows: seq<Row>)
    ensures TransitionsOk(rows) <==>
      forall r :: 0 <= r < |rows| - 1 ==>
        (Calls(rows[r]) ==> CallFollowed(rows[r], rows[r + 1])) && (Ends(rows[r]) ==> EndFollowed(rows[r], rows[r + 1]))
  {
    if TransitionsOk(rows) {
      forall r | 0 <= r < |rows| - 1
        ensures (Calls(rows[r]) ==> CallFollowed(rows[r], rows[r + 1])) && (Ends(rows[r]) ==> EndFollowed(rows[r], rows[r + 1]))
      {
        assert CallOk(TransitionAt(rows, r)) && ReturnOk(TransitionAt(rows, r));
      }
    }
  }

  /** A transition is extracted exactly from a calling, ending or STOP row that has a successor, and shows both frames. */
  lemma ExtractedTransitions(rows: seq<Row>, t: Transition)
    ensures Extracted(rows, if rows == [] then 0 else |rows| - 1, t) <==>
      t.row + 1 < |rows| && t.opcode == rows[t.row].info.opcode && t.opcode in {0x00, 0xF0, 0xF1, 0xF2, 0xF3, 0xF4, 0xF5, 0xFA, 0xFD} &&
      t.pre == rows[t.row].frame && t.post == rows[t.row + 1].frame
  {
    if t.row + 1 < |rows| && t.opcode == rows[t.row].info.opcode && t.pre == rows[t.row].frame && t.post == rows[t.row + 1].frame {
      assert t == TransitionAt(rows, t.row);
    }
  }

  // ---------------------------------------------------------------- exactly the runs that pass

  /** After one opcode no frame opens or closes, or one does, or one opens and closes at once. */
  predicate Plain(hooks: seq<Event>) {
    || hooks == []
    || (|hooks| == 1 && IsHook(hooks[0]))
    || (|hooks| == 2 && IsOpen(hooks[0]) && IsClose(hooks[1]))
  }

  predicate Opening(hooks: seq<Event>) {
    |hooks| == 1 && (hooks[0].CallHook? || hooks[0].CreateHook?)
  }

  predicate Closing(hooks: seq<Event>) {
    |hooks| == 1 && (hooks[0].CallEnd? || hooks[0].CreateEnd?)
  }

  /** Who the frame an opening hook pushes says it was called by, over the running frame. */
  function CallerShown(e: Event, running: Frame): Word
    requires e.CallHook? || e.CreateHook?
  {
    match e
    case CallHook(c) => if c.scheme == DelegateCall then running.caller else AddressToLimbs(c.caller)
    case CreateHook(c) => AddressToLimbs(c.caller)
  }

  /**
   What the interpreter may do after an opcode in the running frame: a calling opcode closes
   nothing and opens, unless it is DELEGATECALL, only for the running contract; RETURN and REVERT in a
   sub-frame close it and do nothing else.
   */
  predicate Legal(running: Frame, b: Block) {
    && (b.info.opcode in {0xF0, 0xF1, 0xF2, 0xF4, 0xF5, 0xFA} ==>
          !Closing(b.hooks) &&
          (Opening(b.hooks) && b.info.opcode != 0xF4 ==> CallerShown(b.hooks[0], running) == running.callee))
    && (b.info.opcode in {0xF3, 0xFD} && running.depth > 0 ==> Closing(b.hooks))
  }

  /** A frame is running before each block. */
  predicate Running(s: State, blocks: seq<Block>) {
    AllPlain(blocks) && forall n :: 0 <= n < |blocks| ==> AfterBlocks(s, blocks, n).stack != []
  }

  predicate AllPlain(blocks: seq<Block>) {
    forall n :: 0 <= n < |blocks| ==> Plain(blocks[n].hooks)
  }

  /** The frame running before block n. */
  function RunningFrame(s: State, blocks: seq<Block>, n: nat): Frame
    requires Running(s, blocks) && n < |blocks|
  {
    var stack := AfterBlocks(s, blocks, n).stack;
    stack[|stack| - 1]
  }

  lemma PlainHooks(hooks: seq<Event>)
    requires Plain(hooks)
    ensures AllHooks(hooks)
  {}

  /** The frame on top after an opcode's hooks. */
  lemma PlainTop(s: State, hooks: seq<Event>)
    requires Plain(hooks) && s.stack != [] && Indexed(s.stack) && ApplyAll(s, hooks).stack != []
    ensures var top, top' := s.stack[|s.stack| - 1], Top(ApplyAll(s, hooks).stack);
      && (Opening(hooks) ==> top'.depth == top.depth + 1 && top'.caller == CallerShown(hooks[0], top))
      && (Closing(hooks) ==> top.depth > 0 && top'.depth == top.depth - 1)
      && (!Opening(hooks) && !Closing(hooks) ==> top' == top)
  {
    if |hooks| == 1 {
      assert hooks[1..] == [];
      assert ApplyAll(s, hooks) == Apply(s, hooks[0]);
    } else if |hooks| == 2 {
      assert hooks[1..][1..] == [] && hooks[1..][0] == hooks[1];
      assert ApplyAll(Apply(s, hooks[0]), hooks[1..]) == Apply(Apply(s, hooks[0]), hooks[1]);
      assert ApplyAll(s, hooks) == Apply(Apply(s, hooks[0]), hooks[1]);
    }
  }

  /** The rows around a block pass exactly when the block is legal. */
  lemma BlockPassesIff(s: State, b: Block, row: nat)
    requires Plain(b.hooks) && s.stack != [] && Indexed(s.stack) && ApplyAll(s, BlockEvents(b)).stack != []
    ensures var t := Transition(row, b.info.opcode, Top(s.stack), Top(ApplyAll(s, BlockEvents(b)).stack));
      CallOk(t) && ReturnOk(t) <==> Legal(s.stack[|s.stack| - 1], b)
  {
    hide Apply, ApplyAll, CallerShown;
    BlockStart(s, b);
    StepRecorded(s, b.info);
    PlainTop(Apply(Apply(s, Step(b.info)), StepEnd), b.hooks);
  }

  lemma NoBlocks(s: State, blocks: seq<Block>)
    ensures AfterBlocks(s, blocks, 0) == s
  {}

  lemma NextBlock(s: State, blocks: seq<Block>, n: nat)
    requires n < |blocks|
    ensures AfterBlocks(s, blocks, n + 1) == ApplyAll(AfterBlocks(s, blocks, n), BlockEvents(blocks[n]))
  {}

  lemma {:induction false} PlainRows(s: State, blocks: seq<Block>, n: nat)
    requires n <= |blocks| && s.trace == [] && Indexed(s.stack) && AllPlain(blocks)
    ensures Indexed(AfterBlocks(s, blocks, n).stack) && RowsMatch(s, blocks, n, AfterBlocks(s, blocks, n).trace)
  {
    hide Apply, Indexed, ApplyAll, RowsMatch, SameRows, Plain, AfterBlocks, BlockEvents;
    if n == 0 {
      NoBlocks(s, blocks);
      NoRows(s, blocks);
    } else {
      PlainRows(s, blocks, n - 1);
      NextBlock(s, blocks, n - 1);
      var before, b := AfterBlocks(s, blocks, n - 1), blocks[n - 1];
      PlainHooks(b.hooks);
      BlockStart(before, b);
      StepRecorded(before, b.info);
      HooksKeep(Apply(Apply(before, Step(b.info)), StepEnd), b.hooks);
      RowsMatchNext(s, blocks, n - 1, before.trace, NewRow(Pending(before.stepCount, b.info, Top(before.stack))),
        AfterBlocks(s, blocks, n).trace);
    }
  }

  /**
   A run over running frames records an accepted trace exactly when every block but the last is
   legal: in particular a frame opened for a foreign caller, or a RETURN that leaves its sub-frame
   on the stack, is always rejected.
   */
  lemma RunAcceptedIff(opening: seq<Event>, blocks: seq<Block>)
    requires AllHooks(opening) && Running(Run(INITIAL, opening), blocks)
    ensures var s := Run(INITIAL, opening);
      TransitionsOk(Run(INITIAL, opening + AllEvents(blocks, |blocks|)).trace) <==>
      forall n :: 0 <= n < |blocks| - 1 ==> Legal(RunningFrame(s, blocks, n), blocks[n])
  {
    hide Apply, Legal, Plain, CallOk, ReturnOk, AfterBlocks, ApplyAll, BlockEvents, Indexed, Run, AllEvents;
    HooksKeep(INITIAL, opening);
    ApplyAllIsRun(INITIAL, opening);
    var s := Run(INITIAL, opening);
    var rows := AfterBlocks(s, blocks, |blocks|).trace;
    BlocksAreEvents(s, blocks, |blocks|);
    ApplyAllConcat(INITIAL, opening, AllEvents(blocks, |blocks|));
    ApplyAllIsRun(INITIAL, opening + AllEvents(blocks, |blocks|));
    PlainRows(s, blocks, |blocks|);
    forall r | 0 <= r < |rows| - 1
      ensures CallOk(TransitionAt(rows, r)) && ReturnOk(TransitionAt(rows, r)) <==>
              Legal(RunningFrame(s, blocks, r), blocks[r])
    {
      PlainRows(s, blocks, r);
      var before := AfterBlocks(s, blocks, r);
      NextBlock(s, blocks, r);
      BlockPassesIff(before, blocks[r], r);
    }
    if TransitionsOk(rows) {
      forall n | 0 <= n < |blocks| - 1 ensures Legal(RunningFrame(s, blocks, n), blocks[n]) {
        assert CallOk(TransitionAt(rows, n)) && ReturnOk(TransitionAt(rows, n));
      }
    }
  }
}
