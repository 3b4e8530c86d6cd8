/**
 The walk over contract bytecode: which bytes start an instruction, which are PUSH data, which are
 valid jump destinations (Yellow Paper, section 9.4.3), and the byte table looked up by the trace.
 */
module CodeWalk {

  type Byte = x: nat | x < 256
  type Code = seq<Byte>

  const JUMPDEST: Byte := 0x5B
  const PUSH1: Byte := 0x60
  const PUSH32: Byte := 0x7F

  function InstructionSize(opcode: Byte): (n: nat)
    ensures 1 <= n <= 33
  {
    if PUSH1 <= opcode <= PUSH32 then 1 + (opcode - PUSH1 + 1) else 1
  }

  // ---------------------------------------------------------------- instruction boundaries

  /** The positions visited by executing straight through from 0; the last may be past the end. */
  ghost predicate IsPath(code: Code, path: seq<nat>) {
    && path != [] && path[0] == 0
    && forall k :: 0 <= k < |path| - 1 ==> path[k] < |code| && path[k + 1] == path[k] + InstructionSize(code[path[k]])
  }

  ghost predicate Reaches(code: Code, path: seq<nat>, i: nat) {
    IsPath(code, path) && path[|path| - 1] == i
  }

  /** Position i is where some instruction starts, or where the walk leaves the code. */
  ghost predicate Boundary(code: Code, i: nat) {
    exists path :: Reaches(code, path, i)
  }

  ghost predicate ValidDest(code: Code, i: nat) {
    i < |code| && code[i] == JUMPDEST && Boundary(code, i)
  }

  /** Byte i belongs to the instruction that starts at b. */
  ghost predicate Owns(code: Code, b: nat, i: nat) {
    b < |code| && Boundary(code, b) && b <= i < b + InstructionSize(code[b])
  }

  ghost predicate InPushData(code: Code, i: nat) {
    exists b: nat :: Owns(code, b, i) && b < i
  }

  lemma {:induction false} PathAscends(code: Code, path: seq<nat>, j: nat, k: nat)
    requires IsPath(code, path) && j < k < |path|
    ensures path[j] < path[k]
    decreases k
  {
    if j < k - 1 {
      PathAscends(code, path, j, k - 1);
    }
  }

  /** There is only one way to walk: of two paths the shorter begins the longer. */
  lemma {:induction false} PathsAgree(code: Code, p: seq<nat>, q: seq<nat>, k: nat)
    requires IsPath(code, p) && IsPath(code, q) && k < |p| && k < |q|
    ensures p[k] == q[k]
    decreases k
  {
    if k > 0 {
      PathsAgree(code, p, q, k - 1);
    }
  }

  lemma ExtendPath(code: Code, path: seq<nat>, pc: nat)
    requires Reaches(code, path, pc) && pc < |code|
    ensures Reaches(code, path + [pc + InstructionSize(code[pc])], pc + InstructionSize(code[pc]))
  {
    var longer := path + [pc + InstructionSize(code[pc])];
    forall k | 0 <= k < |longer| - 1
      ensures longer[k] < |code| && longer[k + 1] == longer[k] + InstructionSize(code[longer[k]])
    {
      if k == |path| - 1 {
        assert longer[k] == pc;
      } else {
        assert longer[k] == path[k] && longer[k + 1] == path[k + 1];
      }
    }
  }

  lemma NextBoundary(code: Code, i: nat)
    requires Boundary(code, i) && i < |code|
    ensures Boundary(code, i + InstructionSize(code[i]))
  {
    var path :| Reaches(code, path, i);
    ExtendPath(code, path, i);
  }

  lemma StartIsBoundary(code: Code)
    ensures Boundary(code, 0)
  {
    assert Reaches(code, [0], 0);
  }

  /** No boundary lies strictly inside an instruction. */
  lemma NoBoundaryInside(code: Code, b: nat, i: nat)
    requires Owns(code, b, i) && b < i
    ensures !Boundary(code, i)
  {
    if Boundary(code, i) {
      var p :| Reaches(code, p, b);
      var q :| Reaches(code, q, i);
      if |q| <= |p| {
        PathsAgree(code, p, q, |q| - 1);
        if |q| < |p| {
          PathAscends(code, p, |q| - 1, |p| - 1);
        }
        assert false;
      } else {
        PathsAgree(code, p, q, |p| - 1);
        assert q[|p|] == b + InstructionSize(code[b]);
        if |p| < |q| - 1 {
          PathAscends(code, q, |p|, |q| - 1);
        }
        assert false;
      }
    }
  }

  lemma {:induction false} OwnerFrom(code: Code, b: nat, i: nat)
    requires Boundary(code, b) && b <= i < |code|
    ensures exists o: nat :: Owns(code, o, i)
    decreases i - b
  {
    if i < b + InstructionSize(code[b]) {
      assert Owns(code, b, i);
    } else {
      NextBoundary(code, b);
      OwnerFrom(code, b + InstructionSize(code[b]), i);
    }
  }

  lemma OwnerUnique(code: Code, b: nat, c: nat, i: nat)
    requires Owns(code, b, i) && Owns(code, c, i)
    ensures b == c
  {
    if b < c {
      assert Owns(code, b, c);
      NoBoundaryInside(code, b, c);
    } else if c < b {
      assert Owns(code, c, b);
      NoBoundaryInside(code, c, b);
    }
  }

  /**
   Every byte of the code belongs to exactly one instruction; it starts an instruction or is PUSH
   data, never both; a truncated final PUSH included.
   */
  lemma Partition(code: Code, i: nat)
    requires i < |code|
    ensures exists b: nat :: Owns(code, b, i) && forall c: nat :: Owns(code, c, i) ==> c == b
    ensures Boundary(code, i) <==> !InPushData(code, i)
    ensures InPushData(code, i) ==> !ValidDest(code, i)
  {
    StartIsBoundary(code);
    OwnerFrom(code, 0, i);
    var b: nat :| Owns(code, b, i);
    forall c: nat | Owns(code, c, i) ensures c == b {
      OwnerUnique(code, b, c, i);
    }
    if b < i {
      NoBoundaryInside(code, b, i);
    }
  }

  /** The byte is one of the 1 to 32 that a PUSH starting before it takes as data. */
  ghost predicate Covered(code: Code, i: nat) {
    exists b: nat :: Boundary(code, b) && b < i && b < |code| && 0x60 <= code[b] <= 0x7F && i <= b + (code[b] - 0x5F)
  }

  /** A jump destination is a byte 0x5B that no PUSH covers, and PUSH data are the bytes that one covers. */
  lemma DestinationIff(code: Code, i: nat)
    requires i < |code|
    ensures ValidDest(code, i) <==> code[i] == 0x5B && !Covered(code, i)
    ensures InPushData(code, i) <==> Covered(code, i)
    ensures Boundary(code, i) <==> !Covered(code, i)
  {
    hide Boundary;
    Partition(code, i);
    if InPushData(code, i) {
      var b: nat :| Owns(code, b, i) && b < i;
      assert Boundary(code, b) && 0x60 <= code[b] <= 0x7F;
    }
    if Covered(code, i) {
      var b: nat :| Boundary(code, b) && b < i && b < |code| && 0x60 <= code[b] <= 0x7F && i <= b + (code[b] - 0x5F);
      assert Owns(code, b, i);
    }
  }

  /** From an instruction's first byte the next boundary is the byte after it and, for a PUSH, after its data. */
  lemma NextInstruction(code: Code, b: nat)
    requires Boundary(code, b) && b < |code|
    ensures var next := b + 1 + if 0x60 <= code[b] <= 0x7F then code[b] - 0x5F else 0;
      Boundary(code, next) && forall i: nat :: b < i < next ==> !Boundary(code, i)
  {
    hide Boundary;
    NextBoundary(code, b);
    forall i: nat | b < i < b + InstructionSize(code[b]) ensures !Boundary(code, i) {
      NoBoundaryInside(code, b, i);
    }
  }

  /** Below the position a walk has come to, the boundaries are exactly the positions it has seen. */
  lemma BoundariesBelow(code: Code, seen: seq<nat>, pc: nat, i: nat)
    requires Reaches(code, seen + [pc], pc) && i < pc
    ensures Boundary(code, i) <==> i in seen
  {
    var path, n := seen + [pc], |seen|;
    if Boundary(code, i) {
      var q :| Reaches(code, q, i);
      if |q| <= n {
        PathsAgree(code, path, q, |q| - 1);
        assert seen[|q| - 1] == i;
      } else {
        PathsAgree(code, path, q, n);
        if n < |q| - 1 {
          PathAscends(code, q, n, |q| - 1);
        }
        assert false;
      }
    }
    if i in seen {
      var k :| 0 <= k < n && seen[k] == i;
      assert Reaches(code, path[..k + 1], i);
    }
  }

  // ---------------------------------------------------------------- valid jump destinations

  ghost predicate Ascending(s: seq<nat>) {
    forall j, k :: 0 <= j < k < |s| ==> s[j] < s[k]
  }

  /** The ascending list of exactly the valid destinations. */
  method ValidJumpdestPositions(code: Code) returns (out: seq<nat>)
    ensures Ascending(out)
    ensures forall i: nat :: i in out <==> ValidDest(code, i)
  {
    out := [];
    var pc := 0;
    ghost var seen: seq<nat> := [];
    assert Reaches(code, [] + [0], 0);
    hide Reaches, Boundary;
    while pc < |code|
      invariant Reaches(code, seen + [pc], pc) && Ascending(out)
      invariant forall i: nat :: i in out <==> i in seen && i < |code| && code[i] == JUMPDEST
      invariant forall j :: 0 <= j < |out| ==> out[j] < pc
      decreases |code| - pc
    {
      var op := code[pc];
      ExtendPath(code, seen + [pc], pc);
      seen := seen + [pc];
      if op == JUMPDEST {
        out := out + [pc];
        pc := pc + 1;
      } else if PUSH1 <= op <= PUSH32 {
        var n := op - PUSH1 + 1;
        pc := pc + 1 + n;
      } else {
        pc := pc + 1;
      }
    }
    forall i: nat | i < |code| ensures Boundary(code, i) <==> i in seen {
      BoundariesBelow(code, seen, pc, i);
    }
  }

  method ValidJumpdestBitmap(code: Code) returns (bitmap: array<bool>)
    ensures fresh(bitmap) && bitmap.Length == |code|
    ensures forall i :: 0 <= i < |code| ==> (bitmap[i] <==> ValidDest(code, i))
  {
    bitmap := new bool[|code|](_ => false);
    var positions := ValidJumpdestPositions(code);
    for k := 0 to |positions|
      invariant forall i :: 0 <= i < |code| ==> (bitmap[i] <==> i in positions[..k])
    {
      assert positions[k] in positions;
      assert positions[..k + 1] == positions[..k] + [positions[k]];
      bitmap[positions[k]] := true;
    }
    assert positions[..|positions|] == positions;
  }

  method IsValidJumpdest(code: Code, target: nat) returns (ok: bool)
    ensures ok <==> ValidDest(code, target)
  {
    if target >= |code| {
      return false;
    }
    var bitmap := ValidJumpdestBitmap(code);
    ok := bitmap[target];
  }

  // ---------------------------------------------------------------- the bytecode table

  datatype BytecodeEntry = BytecodeEntry(pc: nat, opcode: Byte, isJumpdest: bool)

  ghost predicate EntryFor(code: Code, i: nat, e: BytecodeEntry) {
    i < |code| && e.pc == i && e.opcode == code[i] && (e.isJumpdest <==> ValidDest(code, i))
  }

  function Min(a: nat, b: nat): nat {
    if a <= b then a else b
  }

  /** One entry per byte in order, the flag set exactly at the valid destinations. */
  method BuildBytecodeTable(code: Code) returns (table: seq<BytecodeEntry>)
    ensures |table| == |code|
    ensures forall i :: 0 <= i < |code| ==> table[i].pc == i && table[i].opcode == code[i]
    ensures forall i :: 0 <= i < |code| ==> (table[i].isJumpdest <==> ValidDest(code, i))
  {
    var positions := ValidJumpdestPositions(code);
    var jumpdests := set p | p in positions;
    table := [];
    var pc := 0;
    StartIsBoundary(code);
    while pc < |code|
      invariant Boundary(code, pc)
      invariant |table| == Min(pc, |code|)
      invariant forall i :: 0 <= i < |table| ==> EntryFor(code, i, table[i])
      decreases |code| - pc
    {
      var opcode := code[pc];
      NextBoundary(code, pc);
      table := table + [BytecodeEntry(pc, opcode, pc in jumpdests)];
      if opcode >= 0x60 && opcode <= 0x7F {
        var pushSize := opcode - 0x60 + 1;
        for k := 1 to pushSize + 1
          invariant |table| == Min(pc + k, |code|)
          invariant forall i :: 0 <= i < |table| ==> EntryFor(code, i, table[i])
        {
          if pc + k < |code| {
            NoBoundaryInside(code, pc, pc + k);
            table := table + [BytecodeEntry(pc + k, code[pc + k], false)];
          }
        }
        pc := pc + 1 + pushSize;
      } else {
        pc := pc + 1;
      }
    }
  }
}
