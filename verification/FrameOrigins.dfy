/**
 Where every frame on the stack and every CREATE hint in the trace comes from: the one hook that set
 it, found in the event history, with each field traced to that hook's inputs.
 */
module FrameOrigins {
  import opened Common
  import opened LittleEndian
  import opened Inspector

  // ---------------------------------------------------------------- address bytes

  lemma {:induction false} LeValueByte(bytes: seq<nat>, i: nat)
    requires i < |bytes| && forall k :: 0 <= k < |bytes| ==> bytes[k] < 256
    ensures ByteAt(LeValue(bytes), i) == bytes[i]
  {
    var rest := LeValue(bytes[1..]);
    assert LeValue(bytes) == bytes[0] + 256 * rest;
    BytePrepended(bytes[0], rest, if i == 0 then 0 else i - 1);
    if i > 0 {
      LeValueByte(bytes[1..], i - 1);
    }
  }

  /** Byte i of an address is byte i % 8, least significant first, of limb i / 8; the last limb is zero. */
  lemma AddressBytes(a: seq<nat>, i: nat)
    requires IsAddress(a) && i < 20
    ensures var w := AddressToLimbs(a);
      a[i] == ByteAt(if i < 8 then w.l0 else if i < 16 then w.l1 else w.l2, i % 8) && w.l3 == 0
  {
    hide ByteAt, LeValue;
    if i < 8 {
      LeValueByte(a[0..8], i);
    } else if i < 16 {
      LeValueByte(a[8..16], i - 8);
    } else {
      LeValueByte(a[16..20], i - 16);
    }
  }

  // ---------------------------------------------------------------- frames

  predicate Opens(e: Event) {
    e.CallHook? || e.CreateHook?
  }

  /** Where a frame entered after these rows resumes its caller. */
  function ResumeAt(rows: seq<Row>): nat {
    if |rows| > 0 then rows[|rows| - 1].info.pc + 1 else 0
  }

  /** The fields of a frame a call hook entered, given its parent and the rows recorded by then. */
  predicate CallEntered(f: Frame, c: CallInputs, parent: Frame, rows: seq<Row>) {
    && f.callee == AddressToLimbs(c.target) && f.gas == c.gasLimit
    && f.returnPc == ResumeAt(rows) && f.returnOffset == c.returnStart && f.returnSize == c.returnLen
    && (c.scheme == DelegateCall ==> f.caller == parent.caller && f.value == parent.value)
    && (c.scheme != DelegateCall ==> f.caller == AddressToLimbs(c.caller) && f.value == c.value)
    && (f.isStatic == 1 <==> parent.isStatic == 1 || c.scheme == StaticCall)
  }

  /** The fields of a frame a create hook entered. */
  predicate CreateEntered(f: Frame, c: CreateInputs, parent: Frame, rows: seq<Row>) {
    && f.caller == AddressToLimbs(c.caller) && f.callee == AddressToLimbs(c.created)
    && f.value == c.value && f.gas == c.gasLimit
    && f.returnPc == ResumeAt(rows) && f.returnOffset == 0 && f.returnSize == 0
    && f.isStatic == parent.isStatic
  }

  predicate Entered(f: Frame, e: Event, parent: Frame, rows: seq<Row>)
    requires Opens(e)
  {
    match e
    case CallHook(c) => CallEntered(f, c, parent, rows)
    case CreateHook(c) => CreateEntered(f, c, parent, rows)
  }

  function Parent(stack: seq<Frame>, i: nat): Frame
    requires i < |stack|
  {
    if i > 0 then stack[i - 1] else Frame(0, ZERO, ZERO, ZERO, 0, 0, 0, 0, 0)
  }

  /** Frames below the top survive any event. */
  lemma StackBelow(s: State, e: Event, i: nat)
    requires i < |s.stack| && i < |Apply(s, e).stack|
    ensures Apply(s, e).stack[i] == s.stack[i]
  {}

  lemma NewFrame(s: State, e: Event)
    requires |Apply(s, e).stack| > |s.stack|
    ensures Opens(e) && |Apply(s, e).stack| == |s.stack| + 1
    ensures var t := Apply(s, e).stack; t[|s.stack|].depth == |s.stack| && Entered(t[|s.stack|], e, Parent(t, |s.stack|), s.trace)
  {}

  /**
   Frame i was entered by an opening hook fired when i frames were on the stack and has been there
   since; each field is that hook's input, its parent's field or the resume position of the last row.
   */
  lemma {:induction false} FrameOrigin(events: seq<Event>, i: nat) returns (k: nat)
    requires i < |Run(INITIAL, events).stack|
    ensures k < |events| && Opens(events[k]) && |Run(INITIAL, events[..k]).stack| == i
    ensures forall m :: k < m <= |events| ==> |Run(INITIAL, events[..m]).stack| > i
    ensures var stack := Run(INITIAL, events).stack;
      stack[i].depth == i && Entered(stack[i], events[k], Parent(stack, i), Run(INITIAL, events[..k]).trace)
    decreases events
  {
    hide Apply, Entered, Opens;
    var n := |events| - 1;
    var before := events[..n];
    var s := Run(INITIAL, before);
    assert events[..|events|] == events;
    if i < |s.stack| {
      k := FrameOrigin(before, i);
      StackBelow(s, events[n], i);
      if i > 0 {
        StackBelow(s, events[n], i - 1);
      }
      assert before[..k] == events[..k];
      forall m | k < m <= |events| ensures |Run(INITIAL, events[..m]).stack| > i {
        if m <= n {
          assert before[..m] == events[..m];
        }
      }
    } else {
      NewFrame(s, events[n]);
      k := n;
    }
  }

  // ---------------------------------------------------------------- CREATE hints

  /** Event k is a create hook, with a salt if one is asked for, fired when row r was the last. */
  predicate HintsRow(events: seq<Event>, k: nat, r: nat, salted: bool)
    requires k < |events|
  {
    events[k].CreateHook? && (salted ==> events[k].create.create2.Some?) && |Run(INITIAL, events[..k]).trace| == r + 1
  }

  /** Row r's hint columns show event k, or are zero if k is negative. */
  predicate Shown(row: Row, events: seq<Event>, k: int, salted: bool)
    requires k < |events| && (k >= 0 ==> events[k].CreateHook? && (salted ==> events[k].create.create2.Some?))
  {
    if salted then
      (row.saltHint, row.initcodeHint) == if k < 0 then (ZERO, ZERO) else events[k].create.create2.value
    else
      (row.addressHint, row.nonceHint) ==
        if k < 0 then (ZERO, 0) else (AddressToLimbs(events[k].create.created), events[k].create.nonce)
  }

  function Hints(row: Row, salted: bool): (Word, Word, nat) {
    if salted then (row.saltHint, row.initcodeHint, 0) else (row.addressHint, ZERO, row.nonceHint)
  }

  /** Only a create hook changes hints, and only those of the last row. */
  lemma HintStep(s: State, e: Event, r: nat, salted: bool)
    requires r < |s.trace|
    ensures r < |Apply(s, e).trace|
    ensures !(e.CreateHook? && |s.trace| == r + 1 && (salted ==> e.create.create2.Some?)) ==>
      Hints(Apply(s, e).trace[r], salted) == Hints(s.trace[r], salted)
    ensures e.CreateHook? && |s.trace| == r + 1 && !salted ==>
      Hints(Apply(s, e).trace[r], salted) == (AddressToLimbs(e.create.created), ZERO, e.create.nonce)
    ensures e.CreateHook? && |s.trace| == r + 1 && salted && e.create.create2.Some? ==>
      Hints(Apply(s, e).trace[r], salted) == (e.create.create2.value.0, e.create.create2.value.1, 0)
  {}

  lemma FreshHints(s: State, e: Event, r: nat, salted: bool)
    requires |s.trace| <= r < |Apply(s, e).trace|
    ensures Hints(Apply(s, e).trace[r], salted) == (ZERO, ZERO, 0)
  {}

  /**
   The hints of a row are those of the last create hook fired while it was the last row, the salt
   and init-code hash those of the last such hook with a salt, and zero if there was none.
   */
  lemma {:induction false} HintOrigin(events: seq<Event>, r: nat, salted: bool) returns (k: int)
    requires r < |Run(INITIAL, events).trace|
    ensures -1 <= k < |events| && (k >= 0 ==> HintsRow(events, k, r, salted))
    ensures forall m :: k < m < |events| ==> !HintsRow(events, m, r, salted)
    ensures Shown(Run(INITIAL, events).trace[r], events, k, salted)
    decreases events
  {
    hide Apply;
    var n := |events| - 1;
    var before := events[..n];
    var s := Run(INITIAL, before);
    if r >= |s.trace| {
      FreshHints(s, events[n], r, salted);
      k := -1;
      forall m | 0 <= m < |events| ensures !HintsRow(events, m, r, salted) {
        TraceLonger(events, m, n);
      }
    } else {
      HintStep(s, events[n], r, salted);
      if HintsRow(events, n, r, salted) {
        return n;
      }
      k := HintOrigin(before, r, salted);
      forall m | 0 <= m < n ensures HintsRow(events, m, r, salted) == HintsRow(before, m, r, salted) {
        assert before[..m] == events[..m];
      }
    }
  }

  lemma {:induction false} TraceLonger(events: seq<Event>, m: nat, n: nat)
    requires m <= n <= |events|
    ensures |Run(INITIAL, events[..m]).trace| <= |Run(INITIAL, events[..n]).trace|
    decreases n
  {
    hide Apply;
    if m < n {
      TraceLonger(events, m, n - 1);
      assert events[..n][..n - 1] == events[..n - 1];
      TraceGrows(Run(INITIAL, events[..n - 1]), events[n - 1]);
    }
  }
}
