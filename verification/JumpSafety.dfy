/**
 Program-counter continuity and jump-target checking over a trace, and what both verdicts together
 say about a whole single-frame run: the program counter never enters PUSH data.
 */
module JumpSafety {
  import opened CodeWalk

  const TWO64: nat := 0x1_0000_0000_0000_0000

  /** The columns the two checkers read; target and condition are whole 256-bit stack words. */
  datatype Row = Row(pc: nat, opcode: nat, selJump: nat, target: nat, condition: nat)

  datatype Verdict = Accept
    | PcMismatch(step: nat, opcode: Byte, pc: nat, next: nat, expected: nat)
    | BadTarget(step: nat, target: nat)

  /** The first of the four limbs of a stack word. */
  function Low(word: nat): (l: nat)
    ensures l < TWO64
  {
    word % TWO64
  }

  function AsByte(opcode: nat): Byte {
    opcode % 256
  }

  predicate Terminating(op: Byte) {
    op == 0x00 || op == 0xF3 || op == 0xFD || op == 0xFE || op == 0xFF
  }

  predicate FrameChanging(op: Byte) {
    op == 0xF0 || op == 0xF1 || op == 0xF2 || op == 0xF4 || op == 0xF5 || op == 0xFA
  }

  predicate Jump(op: Byte) {
    op == 0x56 || op == 0x57
  }

  // ---------------------------------------------------------------- the two checkers

  /** Straight-line successors are where the instruction ends, in 64-bit arithmetic. */
  predicate Continues(row: Row, next: Row) {
    var op := AsByte(row.opcode);
    Terminating(op) || FrameChanging(op) || Jump(op) || next.pc == (row.pc + InstructionSize(op)) % TWO64
  }

  ghost predicate PcContinuous(rows: seq<Row>) {
    forall r :: 0 <= r < |rows| - 1 ==> Continues(rows[r], rows[r + 1])
  }

  /** The reported step is the first that breaks continuity, with the values that disagree. */
  ghost predicate FirstMismatch(rows: seq<Row>, v: Verdict)
    requires v.PcMismatch?
  {
    && v.step < |rows| - 1 && PcContinuous(rows[..v.step + 1]) && !Continues(rows[v.step], rows[v.step + 1])
    && v.opcode == AsByte(rows[v.step].opcode) && v.pc == rows[v.step].pc && v.next == rows[v.step + 1].pc
    && v.expected == (v.pc + InstructionSize(v.opcode)) % TWO64
  }

  method VerifyPcContinuity(rows: seq<Row>) returns (v: Verdict)
    ensures v.Accept? <==> PcContinuous(rows)
    ensures !v.Accept? ==> v.PcMismatch? && FirstMismatch(rows, v)
    ensures v.PcMismatch? ==> v.step < |rows| - 1 && v.opcode == rows[v.step].opcode % 256
    ensures v.PcMismatch? ==> v.pc == rows[v.step].pc && v.next == rows[v.step + 1].pc && v.next != v.expected
  {
    var n := |rows|;
    for r := 0 to if n == 0 then 0 else n - 1
      invariant forall k :: 0 <= k < r ==> Continues(rows[k], rows[k + 1])
    {
      var opcode := AsByte(rows[r].opcode);
      var pc, next := rows[r].pc, rows[r + 1].pc;
      if opcode in {0x00, 0xF3, 0xFD, 0xFE, 0xFF} {
        continue;
      } else if opcode in {0xF0, 0xF1, 0xF2, 0xF4, 0xF5, 0xFA} {
        continue;
      } else if opcode == 0x56 {
        // the target is checked by VerifyJumpTargets
      } else if opcode == 0x57 {
        // taken or not
      } else {
        var expected := (pc + InstructionSize(opcode)) % TWO64;
        if next != expected {
          return PcMismatch(r, opcode, pc, next, expected);
        }
      }
    }
    return Accept;
  }

  /** A flagged jump aims at a valid destination, as far as the low limbs show. */
  ghost predicate TargetOk(code: Code, row: Row) {
    var op := AsByte(row.opcode);
    row.selJump == 1 && (op == 0x56 || (op == 0x57 && Low(row.condition) != 0)) ==> ValidDest(code, Low(row.target))
  }

  ghost predicate TargetsOk(code: Code, rows: seq<Row>) {
    forall r :: 0 <= r < |rows| ==> TargetOk(code, rows[r])
  }

  ghost predicate FirstBadTarget(code: Code, rows: seq<Row>, v: Verdict)
    requires v.BadTarget?
  {
    && v.step < |rows| && TargetsOk(code, rows[..v.step]) && !TargetOk(code, rows[v.step])
    && v.target == Low(rows[v.step].target)
  }

  method VerifyJumpTargets(code: Code, rows: seq<Row>) returns (v: Verdict)
    ensures v.Accept? <==> TargetsOk(code, rows)
    ensures !v.Accept? ==> v.BadTarget? && FirstBadTarget(code, rows, v)
    ensures v.BadTarget? ==> v.step < |rows| && v.target == rows[v.step].target % 0x1_0000_0000_0000_0000
  {
    var positions := ValidJumpdestPositions(code);
    var valid := set p | p in positions;
    for r := 0 to |rows|
      invariant forall k :: 0 <= k < r ==> TargetOk(code, rows[k])
    {
      if rows[r].selJump != 1 {
        continue;
      }
      var opcode, target := AsByte(rows[r].opcode), Low(rows[r].target);
      if opcode == 0x56 {
        if target !in valid {
          return BadTarget(r, target);
        }
      } else if opcode == 0x57 {
        var condition := Low(rows[r].condition);
        if condition != 0 && target !in valid {
          return BadTarget(r, target);
        }
      }
    }
    return Accept;
  }

  /** Opcodes that end a frame, change frames or jump. */
  const FREE: set<nat> := {0x00, 0x56, 0x57, 0xF0, 0xF1, 0xF2, 0xF3, 0xF4, 0xF5, 0xFA, 0xFD, 0xFE, 0xFF}

  /** Where a row's instruction ends, modulo 2^64. */
  function StraightOn(row: Row): nat {
    (row.pc + if 0x60 <= row.opcode % 256 <= 0x7F then row.opcode % 256 - 0x5E else 1) % 0x1_0000_0000_0000_0000
  }

  /** The continuity check passes exactly the traces whose other rows are each followed at their instruction's end. */
  lemma ContinuousTraces(rows: seq<Row>)
    ensures PcContinuous(rows) <==>
      forall r :: 0 <= r < |rows| - 1 ==> rows[r].opcode % 256 in FREE || rows[r + 1].pc == StraightOn(rows[r])
  {
    if PcContinuous(rows) {
      forall r | 0 <= r < |rows| - 1 ensures rows[r].opcode % 256 in FREE || rows[r + 1].pc == StraightOn(rows[r]) {
        assert Continues(rows[r], rows[r + 1]);
      }
    }
  }

  /** The reported mismatch is the first row that is not followed where its instruction ends. */
  lemma FirstMismatchIs(rows: seq<Row>, v: Verdict)
    requires v.PcMismatch? && FirstMismatch(rows, v)
    ensures v.step < |rows| - 1 && rows[v.step].opcode % 256 !in FREE && v.expected == StraightOn(rows[v.step])
    ensures rows[v.step + 1].pc != v.expected
    ensures forall r :: 0 <= r < v.step ==> rows[r].opcode % 256 in FREE || rows[r + 1].pc == StraightOn(rows[r])
  {
    ContinuousTraces(rows[..v.step + 1]);
    forall r | 0 <= r < v.step ensures rows[r].opcode % 256 in FREE || rows[r + 1].pc == StraightOn(rows[r]) {
      assert rows[..v.step + 1][r] == rows[r] && rows[..v.step + 1][r + 1] == rows[r + 1];
    }
  }

  /** The row is a flagged JUMP, or a flagged JUMPI whose condition's low limb is not zero. */
  predicate Jumps(row: Row) {
    row.selJump == 1 && row.opcode % 256 in {0x56, 0x57} &&
    (row.opcode % 256 == 0x57 ==> row.condition % 0x1_0000_0000_0000_0000 != 0)
  }

  /** The target check passes exactly the traces whose jumping rows aim, by low limb, at a byte 0x5B outside PUSH data. */
  lemma CheckedTargets(code: Code, rows: seq<Row>)
    ensures TargetsOk(code, rows) <==>
      forall r :: 0 <= r < |rows| && Jumps(rows[r]) ==>
        var t := rows[r].target % 0x1_0000_0000_0000_0000; t < |code| && code[t] == 0x5B && !Covered(code, t)
  {
    hide Covered, ValidDest;
    forall t: nat ensures ValidDest(code, t) <==> t < |code| && code[t] == 0x5B && !Covered(code, t) {
      if t < |code| {
        DestinationIff(code, t);
      } else {
        PastTheEnd(code, t);
      }
    }
    if TargetsOk(code, rows) {
      forall r | 0 <= r < |rows| && Jumps(rows[r]) ensures ValidDest(code, rows[r].target % TWO64) {
        assert TargetOk(code, rows[r]);
      }
    }
  }

  lemma PastTheEnd(code: Code, t: nat)
    requires t >= |code|
    ensures !ValidDest(code, t)
  {}

  // ---------------------------------------------------------------- runs

  /** The byte executed at a position; past the end of the code it is an implicit STOP. */
  function OpcodeAt(code: Code, pc: nat): Byte {
    if pc < |code| then code[pc] else 0
  }

  /** One EVM step inside a frame: straight on, or to a valid destination. */
  ghost predicate EvmStep(code: Code, row: Row, next: nat) {
    var op := OpcodeAt(code, row.pc);
    if op == 0x56 || (op == 0x57 && row.condition != 0) then next == row.target && ValidDest(code, next)
    else next == row.pc + InstructionSize(op)
  }

  ghost predicate EvmRun(code: Code, rows: seq<Row>) {
    forall r :: 0 <= r < |rows| - 1 ==> EvmStep(code, rows[r], rows[r + 1].pc)
  }

  ghost predicate MatchesCode(code: Code, rows: seq<Row>) {
    forall r :: 0 <= r < |rows| ==> rows[r].opcode == OpcodeAt(code, rows[r].pc)
  }

  /** The frame neither ends nor changes before the last row. */
  ghost predicate SingleFrame(rows: seq<Row>) {
    forall r :: 0 <= r < |rows| - 1 ==> !Terminating(AsByte(rows[r].opcode)) && !FrameChanging(AsByte(rows[r].opcode))
  }

  /** What neither checker looks at: jump rows are flagged and go where their words say. */
  ghost predicate JumpFollows(row: Row, next: nat) {
    var op := AsByte(row.opcode);
    && (Jump(op) ==> row.selJump == 1)
    && (op == 0x56 || (op == 0x57 && row.condition != 0) ==> next == row.target)
    && (op == 0x57 && row.condition == 0 ==> next == row.pc + 1)
  }

  ghost predicate JumpsFollow(rows: seq<Row>) {
    forall r :: 0 <= r < |rows| - 1 ==> JumpFollows(rows[r], rows[r + 1].pc)
  }

  /** A condition word is visible when its low limb decides it. */
  predicate Visible(condition: nat) {
    condition == 0 || Low(condition) != 0
  }

  ghost predicate ConditionsVisible(rows: seq<Row>) {
    forall r :: 0 <= r < |rows| - 1 && rows[r].opcode == 0x57 ==> Visible(rows[r].condition)
  }

  /** Program counters are 64-bit and code is addressable with room for one more instruction. */
  ghost predicate Addressable(code: Code, rows: seq<Row>) {
    && |code| + 33 <= TWO64
    && forall r :: 0 <= r < |rows| ==> rows[r].pc < TWO64
  }

  lemma StepAccepted(code: Code, row: Row, next: Row)
    requires row.opcode == OpcodeAt(code, row.pc) && |code| + 33 <= TWO64 && next.pc < TWO64
    requires !Terminating(AsByte(row.opcode)) && !FrameChanging(AsByte(row.opcode))
    requires JumpFollows(row, next.pc) && (row.opcode == 0x57 ==> Visible(row.condition))
    ensures Continues(row, next) && TargetOk(code, row) <==> EvmStep(code, row, next.pc)
  {
    assert row.pc < |code|;
  }

  /**
   On a single-frame run both checkers accept exactly when every step is a legal EVM step and the
   last row, which has no successor, passes the target check.
   */
  lemma AcceptedIffEvmRun(code: Code, rows: seq<Row>)
    requires rows != [] && Addressable(code, rows) && MatchesCode(code, rows) && SingleFrame(rows)
    requires JumpsFollow(rows) && ConditionsVisible(rows)
    ensures PcContinuous(rows) && TargetsOk(code, rows) <==>
            EvmRun(code, rows) && TargetOk(code, rows[|rows| - 1])
  {
    hide Continues, TargetOk, EvmStep, JumpFollows;
    forall r | 0 <= r < |rows| - 1
      ensures Continues(rows[r], rows[r + 1]) && TargetOk(code, rows[r]) <==> EvmStep(code, rows[r], rows[r + 1].pc)
    {
      StepAccepted(code, rows[r], rows[r + 1]);
    }
    if PcContinuous(rows) && TargetsOk(code, rows) {
      forall r | 0 <= r < |rows| - 1 ensures EvmStep(code, rows[r], rows[r + 1].pc) {
        assert Continues(rows[r], rows[r + 1]) && TargetOk(code, rows[r]);
      }
    }
    if EvmRun(code, rows) && TargetOk(code, rows[|rows| - 1]) {
      forall r | 0 <= r < |rows| - 1 ensures Continues(rows[r], rows[r + 1]) && TargetOk(code, rows[r]) {
        assert EvmStep(code, rows[r], rows[r + 1].pc);
      }
    }
  }

  lemma {:induction false} EvmRunOnBoundaries(code: Code, rows: seq<Row>, r: nat)
    requires EvmRun(code, rows) && r < |rows| && rows[0].pc == 0
    requires MatchesCode(code, rows) && SingleFrame(rows)
    ensures Boundary(code, rows[r].pc)
    decreases r
  {
    if r == 0 {
      StartIsBoundary(code);
    } else {
      EvmRunOnBoundaries(code, rows, r - 1);
      var here := rows[r - 1];
      assert EvmStep(code, here, rows[r].pc);
      assert here.pc < |code|;
      NextBoundary(code, here.pc);
    }
  }

  /** If both checkers accept, no row of the run has its program counter inside PUSH data. */
  lemma JumpSafe(code: Code, rows: seq<Row>, r: nat)
    requires rows != [] && rows[0].pc == 0 && Addressable(code, rows) && MatchesCode(code, rows) && SingleFrame(rows)
    requires JumpsFollow(rows) && ConditionsVisible(rows)
    requires PcContinuous(rows) && TargetsOk(code, rows)
    requires r < |rows|
    ensures Boundary(code, rows[r].pc) && !InPushData(code, rows[r].pc)
  {
    AcceptedIffEvmRun(code, rows);
    EvmRunOnBoundaries(code, rows, r);
    if InPushData(code, rows[r].pc) {
      var b: nat :| Owns(code, b, rows[r].pc) && b < rows[r].pc;
      NoBoundaryInside(code, b, rows[r].pc);
    }
  }

  // ---------------------------------------------------------------- only low limbs are read

  /** Accepting a flagged JUMPI with this condition word always means that a taken jump is valid. */
  ghost predicate ConditionSound(condition: nat) {
    forall code: Code, pc: nat, target: nat ::
      target < TWO64 && condition != 0 && TargetOk(code, Row(pc, 0x57, 1, target, condition)) ==> ValidDest(code, target)
  }

  /** The JUMPI check is sound for exactly the condition words whose low limb decides them. */
  lemma ConditionSoundIff(condition: nat)
    ensures ConditionSound(condition) <==> Visible(condition)
  {
    if Visible(condition) {
      forall code: Code, pc: nat, target: nat | target < TWO64 && condition != 0
        && TargetOk(code, Row(pc, 0x57, 1, target, condition))
        ensures ValidDest(code, target)
      {
        assert Low(target) == target;
      }
    } else {
      assert TargetOk([], Row(0, 0x57, 1, 0, condition)) && !ValidDest([], 0);
    }
  }

  /** Accepting a flagged JUMP with this target word always means that the word is a valid destination. */
  ghost predicate TargetSound(target: nat) {
    forall code: Code, pc: nat, condition: nat ::
      TargetOk(code, Row(pc, 0x56, 1, target, condition)) ==> ValidDest(code, target)
  }

  lemma {:induction false} JumpdestPath(n: nat) returns (path: seq<nat>)
    ensures Reaches(seq(n + 1, _ => JUMPDEST), path, n)
  {
    path := seq(n + 1, k requires 0 <= k <= n => k);
  }

  /** The JUMP check is sound for exactly the target words that fit one limb. */
  lemma TargetSoundIff(target: nat)
    ensures TargetSound(target) <==> target < TWO64
  {
    if target < TWO64 {
      assert Low(target) == target;
    } else {
      var n := Low(target);
      var code: Code := seq(n + 1, _ => JUMPDEST);
      var path := JumpdestPath(n);
      assert ValidDest(code, n);
      assert TargetOk(code, Row(0, 0x56, 1, target, 0)) && !ValidDest(code, target);
    }
  }

  /** A run with every hypothesis of JumpSafe but visible conditions, and a row in PUSH data. */
  ghost predicate Escapes(code: Code, rows: seq<Row>, r: nat) {
    && rows != [] && rows[0].pc == 0 && Addressable(code, rows) && MatchesCode(code, rows) && SingleFrame(rows)
    && JumpsFollow(rows) && PcContinuous(rows) && TargetsOk(code, rows)
    && r < |rows| && InPushData(code, rows[r].pc)
  }

  /**
   PUSH32 of 2^64, PUSH1 3, JUMPI: the condition's low limb is 0, so both checkers accept a run that
   jumps to byte 3, which is PUSH data.
   */
  lemma HighConditionEscapes()
    ensures exists code: Code, rows: seq<Row>, r: nat :: Escapes(code, rows, r)
  {
    hide Boundary, ValidDest;
    var code: Code := seq(36, (i: nat) => match i case 0 => 0x7F case 24 => 1 case 33 => 0x60 case 34 => 3 case 35 => 0x57 case _ => 0);
    var rows := [Row(0, 0x7F, 0, 0, 0), Row(33, 0x60, 0, 0, 0), Row(35, 0x57, 1, 3, TWO64), Row(3, 0, 0, 0, 0)];
    assert InPushData(code, 3) by {
      StartIsBoundary(code);
      assert Owns(code, 0, 3);
    }
    assert Low(TWO64) == 0;
    assert Continues(rows[0], rows[1]) && Continues(rows[1], rows[2]) && Continues(rows[2], rows[3]);
    assert JumpFollows(rows[0], 33) && JumpFollows(rows[1], 35) && JumpFollows(rows[2], 3);
    assert TargetOk(code, rows[0]) && TargetOk(code, rows[1]) && TargetOk(code, rows[2]) && TargetOk(code, rows[3]);
    assert MatchesCode(code, rows) && SingleFrame(rows) by {
      hide Low;
    }
    assert PcContinuous(rows) && JumpsFollow(rows) && TargetsOk(code, rows) by {
      hide Low, Continues, JumpFollows, TargetOk;
    }
    assert Escapes(code, rows, 3);
  }
}
