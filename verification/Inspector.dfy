/**
 The tracing inspector: hooks fired by the interpreter record one row per opcode and keep a stack
 of call frames. The class does the updates; `Apply` is the state machine its methods refine.
 */
module Inspector {
  import opened Common

  /** Four 64-bit limbs. */
  datatype Word = Word(l0: nat, l1: nat, l2: nat, l3: nat)

  const ZERO: Word := Word(0, 0, 0, 0)

  datatype Frame = Frame(depth: nat, caller: Word, callee: Word, value: Word, gas: nat,
                         returnPc: nat, returnOffset: nat, returnSize: nat, isStatic: nat)

  const NO_FRAME: Frame := Frame(0, ZERO, ZERO, ZERO, 0, 0, 0, 0, 0)

  datatype Scheme = Call | CallCode | DelegateCall | StaticCall

  /** An opcode is one byte. */
  type Opcode = x: nat | x < 256

  /** What the interpreter shows the inspector when an opcode is about to run. */
  datatype OpInfo = OpInfo(pc: nat, opcode: Opcode, gas: nat, stackDepth: nat)

  datatype CallInputs = CallInputs(scheme: Scheme, caller: seq<nat>, target: seq<nat>, value: Word,
                                   gasLimit: nat, returnStart: nat, returnLen: nat)

  /** `created` is the address revm derives from the sender's live nonce; `create2` holds the salt and init-code hash limbs. */
  datatype CreateInputs = CreateInputs(caller: seq<nat>, value: Word, gasLimit: nat, nonce: nat,
                                       created: seq<nat>, create2: Option<(Word, Word)>)

  datatype Event =
    | Step(info: OpInfo)
    | StepEnd
    | CallHook(call: CallInputs)
    | CallEnd
    | CreateHook(create: CreateInputs)
    | CreateEnd

  datatype Pending = Pending(step: nat, info: OpInfo, frame: Frame)

  datatype Row = Row(step: nat, info: OpInfo, frame: Frame, addressHint: Word, nonceHint: nat,
                     saltHint: Word, initcodeHint: Word)

  datatype State = State(trace: seq<Row>, pending: Option<Pending>, stepCount: nat, stack: seq<Frame>)

  const INITIAL: State := State([], None, 0, [])

  // ---------------------------------------------------------------- addresses

  predicate IsAddress(a: seq<nat>) {
    |a| == 20 && forall i :: 0 <= i < 20 ==> a[i] < 256
  }

  function LeValue(bytes: seq<nat>): nat {
    if bytes == [] then 0 else bytes[0] + 256 * LeValue(bytes[1..])
  }

  /** `address_to_limbs`: little-endian groups of 8, 8 and 4 bytes. */
  function AddressToLimbs(a: seq<nat>): Word {
    if |a| != 20 then ZERO else
    Word(LeValue(a[0..8]), LeValue(a[8..16]), LeValue(a[16..20]), 0)
  }

  lemma {:induction false} LeValueInjective(a: seq<nat>, b: seq<nat>)
    requires |a| == |b| && LeValue(a) == LeValue(b)
    requires forall i :: 0 <= i < |a| ==> a[i] < 256 && b[i] < 256
    ensures a == b
  {
    if a != [] {
      assert a[0] == b[0] && LeValue(a[1..]) == LeValue(b[1..]);
      LeValueInjective(a[1..], b[1..]);
      assert a == [a[0]] + a[1..] && b == [b[0]] + b[1..];
    }
  }

  /** Comparing address limbs compares addresses. */
  lemma AddressLimbsInjective(a: seq<nat>, b: seq<nat>)
    requires IsAddress(a) && IsAddress(b) && AddressToLimbs(a) == AddressToLimbs(b)
    ensures a == b
  {
    LeValueInjective(a[0..8], b[0..8]);
    LeValueInjective(a[8..16], b[8..16]);
    LeValueInjective(a[16..20], b[16..20]);
    assert a == a[0..8] + a[8..16] + a[16..20] && b == b[0..8] + b[8..16] + b[16..20];
  }

  // ---------------------------------------------------------------- the state machine

  function Top(stack: seq<Frame>): Frame {
    if stack == [] then NO_FRAME else stack[|stack| - 1]
  }

  function ReturnPc(trace: seq<Row>): nat {
    if trace == [] then 0 else trace[|trace| - 1].info.pc + 1
  }

  function CallFrame(s: State, c: CallInputs): Frame {
    var parent := Top(s.stack);
    var delegate := c.scheme.DelegateCall?;
    Frame(|s.stack|,
      if delegate then parent.caller else AddressToLimbs(c.caller),
      AddressToLimbs(c.target),
      if delegate then parent.value else c.value,
      c.gasLimit, ReturnPc(s.trace), c.returnStart, c.returnLen,
      if parent.isStatic == 1 || c.scheme.StaticCall? then 1 else 0)
  }

  function CreateFrame(s: State, c: CreateInputs): Frame {
    Frame(|s.stack|, AddressToLimbs(c.caller), AddressToLimbs(c.created), c.value, c.gasLimit,
      ReturnPc(s.trace), 0, 0, Top(s.stack).isStatic)
  }

  /** The row recorded for a finished step, its hints still zero. */
  function NewRow(q: Pending): Row {
    Row(q.step, q.info, q.frame, ZERO, 0, ZERO, ZERO)
  }

  /** The create hook backfills its hints on the row pushed last. */
  function Backfill(trace: seq<Row>, c: CreateInputs): seq<Row> {
    if trace == [] then [] else
    var last := trace[|trace| - 1].(addressHint := AddressToLimbs(c.created), nonceHint := c.nonce);
    trace[|trace| - 1 := match c.create2
      case None => last
      case Some((salt, hash)) => last.(saltHint := salt, initcodeHint := hash)]
  }

  function Pop(stack: seq<Frame>): seq<Frame> {
    if stack == [] then [] else stack[..|stack| - 1]
  }

  function Apply(s: State, e: Event): State {
    match e
    case Step(info) => s.(pending := Some(Pending(s.stepCount, info, Top(s.stack))))
    case StepEnd =>
      (match s.pending
       case None => s
       case Some(q) => s.(trace := s.trace + [NewRow(q)],
         pending := None, stepCount := s.stepCount + 1))
    case CallHook(c) => s.(stack := s.stack + [CallFrame(s, c)])
    case CallEnd => s.(stack := Pop(s.stack))
    case CreateHook(c) => s.(trace := Backfill(s.trace, c), stack := s.stack + [CreateFrame(s.(trace := Backfill(s.trace, c)), c)])
    case CreateEnd => s.(stack := Pop(s.stack))
  }

  /** The state after a list of events. */
  function Run(s: State, events: seq<Event>): State {
    if events == [] then s else Apply(Run(s, events[..|events| - 1]), events[|events| - 1])
  }

  class TracingInspector {
    var trace: seq<Row>
    var pending: Option<Pending>
    var stepCount: nat
    var frameStack: seq<Frame>

    ghost function View(): State
      reads this
    {
      State(trace, pending, stepCount, frameStack)
    }

    constructor ()
      ensures View() == INITIAL
    {
      trace, pending, stepCount, frameStack := [], None, 0, [];
    }

    function CurrentFrame(): Frame
      reads this
    {
      Top(frameStack)
    }

    method OnStep(info: OpInfo)
      modifies this
      ensures View() == Apply(old(View()), Step(info))
    {
      pending := Some(Pending(stepCount, info, CurrentFrame()));
    }

    method OnStepEnd()
      modifies this
      ensures View() == Apply(old(View()), StepEnd)
    {
      match pending {
        case None =>
        case Some(q) =>
          pending := None;
          trace := trace + [NewRow(q)];
          stepCount := stepCount + 1;
      }
    }

    method OnCall(c: CallInputs)
      modifies this
      ensures View() == Apply(old(View()), CallHook(c))
    {
      var returnPc := ReturnPc(trace);
      var parent := CurrentFrame();
      var isStatic := if parent.isStatic == 1 || c.scheme.StaticCall? then 1 else 0;
      var caller, value := AddressToLimbs(c.caller), c.value;
      if c.scheme.DelegateCall? {
        caller, value := parent.caller, parent.value;
      }
      var frame := Frame(|frameStack|, caller, AddressToLimbs(c.target), value, c.gasLimit, returnPc,
        c.returnStart, c.returnLen, isStatic);
      frameStack := frameStack + [frame];
    }

    method OnCallEnd()
      modifies this
      ensures View() == Apply(old(View()), CallEnd)
    {
      frameStack := Pop(frameStack);
    }

    method OnCreate(c: CreateInputs)
      modifies this
      ensures View() == Apply(old(View()), CreateHook(c))
    {
      var address := AddressToLimbs(c.created);
      if trace != [] {
        var last := |trace| - 1;
        trace := trace[last := trace[last].(addressHint := address, nonceHint := c.nonce)];
        if c.create2.Some? {
          var (salt, hash) := c.create2.value;
          trace := trace[last := trace[last].(saltHint := salt, initcodeHint := hash)];
        }
      }
      assert trace == Backfill(old(trace), c);
      var frame := Frame(|frameStack|, AddressToLimbs(c.caller), address, c.value, c.gasLimit,
        ReturnPc(trace), 0, 0, CurrentFrame().isStatic);
      frameStack := frameStack + [frame];
    }

    method OnCreateEnd()
      modifies this
      ensures View() == Apply(old(View()), CreateEnd)
    {
      frameStack := Pop(frameStack);
    }
  }

  // ---------------------------------------------------------------- every reachable state

  datatype Kind = ByCall(scheme: Scheme) | ByCreate

  /** How each frame on the stack after the events was entered. */
  function Kinds(events: seq<Event>): seq<Kind> {
    if events == [] then [] else
    var before := Kinds(events[..|events| - 1]);
    match events[|events| - 1]
    case CallHook(c) => before + [ByCall(c.scheme)]
    case CreateHook(_) => before + [ByCreate]
    case CallEnd => if before == [] then [] else before[..|before| - 1]
    case CreateEnd => if before == [] then [] else before[..|before| - 1]
    case _ => before
  }

  predicate FrameOk(stack: seq<Frame>, kinds: seq<Kind>, i: nat)
    requires i < |stack| == |kinds|
  {
    && stack[i].depth == i
    && (stack[i].isStatic == 1 <==> exists j :: 0 <= j <= i && kinds[j] == ByCall(StaticCall))
    && (kinds[i] == ByCall(DelegateCall) ==>
          stack[i].caller == Top(stack[..i]).caller && stack[i].value == Top(stack[..i]).value)
  }

  /**
   After any events: each frame's depth is its stack index, a frame is static exactly when it or a
   frame below it was entered by STATICCALL, and DELEGATECALL frames carry their parent's caller and value.
   */
  lemma {:induction false} StackInvariant(events: seq<Event>)
    ensures |Run(INITIAL, events).stack| == |Kinds(events)|
    ensures forall i :: 0 <= i < |Kinds(events)| ==> FrameOk(Run(INITIAL, events).stack, Kinds(events), i)
    decreases events
  {
    if events != [] {
      var before, e := events[..|events| - 1], events[|events| - 1];
      StackInvariant(before);
      var s, ks := Run(INITIAL, before), Kinds(before);
      var s', ks' := Run(INITIAL, events), Kinds(events);
      forall i | 0 <= i < |ks'| ensures FrameOk(s'.stack, ks', i) {
        if i < |ks| {
          assert FrameOk(s.stack, ks, i);
          assert s'.stack[..i] == s.stack[..i];
          assert forall j :: 0 <= j <= i ==> ks'[j] == ks[j];
        } else {
          assert s'.stack[..i] == s.stack;
          assert ks' == ks + [ks'[i]];
          if i > 0 {
            assert FrameOk(s.stack, ks, i - 1);
            if Top(s.stack).isStatic == 1 {
              var j :| 0 <= j <= i - 1 && ks[j] == ByCall(StaticCall);
              assert ks'[j] == ByCall(StaticCall);
            }
          }
          forall j | 0 <= j < i && ks'[j] == ByCall(StaticCall) ensures Top(s.stack).isStatic == 1 {
            assert ks[j] == ByCall(StaticCall);
          }
        }
      }
    }
  }

  /** Every frame above a static frame is static. */
  lemma StaticIsInherited(events: seq<Event>, i: nat, j: nat)
    requires i <= j < |Run(INITIAL, events).stack|
    requires Run(INITIAL, events).stack[i].isStatic == 1
    ensures Run(INITIAL, events).stack[j].isStatic == 1
  {
    StackInvariant(events);
    assert FrameOk(Run(INITIAL, events).stack, Kinds(events), i);
    assert FrameOk(Run(INITIAL, events).stack, Kinds(events), j);
  }

  /** No opcode starts or ends strictly between events i and j. */
  predicate Quiet(events: seq<Event>, i: int, j: int)
    requires 0 <= i && j <= |events|
  {
    forall m :: i < m < j ==> !events[m].Step? && !events[m].StepEnd?
  }

  /** A pending row was captured by the latest Step, with the frame then on top. */
  lemma {:induction false} PendingOrigin(events: seq<Event>) returns (i: nat)
    requires Run(INITIAL, events).pending.Some?
    ensures i < |events| && events[i].Step? && Quiet(events, i, |events|)
    ensures var q := Run(INITIAL, events).pending.value; var s := Run(INITIAL, events[..i]);
      q == Pending(Run(INITIAL, events).stepCount, events[i].info, Top(s.stack))
    decreases events
  {
    var n := |events| - 1;
    var before := events[..n];
    if events[n].Step? {
      return n;
    }
    i := PendingOrigin(before);
    assert before[..i] == events[..i];
    forall m | i < m < |events| ensures !events[m].Step? && !events[m].StepEnd? {
      if m < n {
        assert events[m] == before[m];
      }
    }
  }

  lemma {:induction false} StepCountIsLength(events: seq<Event>)
    ensures Run(INITIAL, events).stepCount == |Run(INITIAL, events).trace|
    decreases events
  {
    if events != [] {
      StepCountIsLength(events[..|events| - 1]);
    }
  }

  /** An event keeps the rows it finds, hints aside; only a StepEnd adds one, from the pending step. */
  lemma TraceGrows(s: State, e: Event)
    ensures |s.trace| <= |Apply(s, e).trace|
    ensures forall k :: 0 <= k < |s.trace| ==>
      (Apply(s, e).trace[k].step, Apply(s, e).trace[k].info, Apply(s, e).trace[k].frame) ==
      (s.trace[k].step, s.trace[k].info, s.trace[k].frame)
    ensures |Apply(s, e).trace| > |s.trace| ==> e.StepEnd? && s.pending.Some?
    ensures e.StepEnd? && s.pending.Some? ==> Apply(s, e).trace == s.trace + [NewRow(s.pending.value)]
  {}

  /**
   Row k has step number k; it was opened by a Step and closed by the next StepEnd, and carries
   that Step's opcode data and the frame on top when the step began.
   */
  lemma {:induction false} RowOrigin(events: seq<Event>, k: nat) returns (i: nat, j: nat)
    requires k < |Run(INITIAL, events).trace|
    ensures i < j < |events| && events[i].Step? && events[j].StepEnd? && Quiet(events, i, j)
    ensures |Run(INITIAL, events[..j]).trace| == k
    ensures var row := Run(INITIAL, events).trace[k];
      row.step == k && row.info == events[i].info && row.frame == Top(Run(INITIAL, events[..i]).stack)
    decreases events
  {
    hide Apply;
    var n := |events| - 1;
    var before := events[..n];
    var s := Run(INITIAL, before);
    TraceGrows(s, events[n]);
    if k < |s.trace| {
      i, j := RowOrigin(before, k);
      assert before[..i] == events[..i] && before[..j] == events[..j];
      forall m | i < m < j ensures !events[m].Step? && !events[m].StepEnd? {
        assert events[m] == before[m];
      }
    } else {
      i := PendingOrigin(before);
      j := n;
      StepCountIsLength(before);
      assert before[..i] == events[..i];
      forall m | i < m < j ensures !events[m].Step? && !events[m].StepEnd? {
        assert events[m] == before[m];
      }
    }
  }
}
