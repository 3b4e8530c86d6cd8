/**
 Many EXP invocations in one trace: a block of 256 rows each, the exponent rebuilt limb by limb from
 the exponent bits, the blocks separated only by the first-row flag.
 */
module ExpMultiTrace {
  import opened Common
  import opened PrimeField
  import opened PolyArith
  import opened LimbChain
  import opened ExpAir
  import opened ExpWitness
  import opened ExpOverflow

  datatype Invocation = Invocation(base: Limbs, exponent: nat)

  predicate ValidInvocation(v: Invocation) {
    v.base.InRange() && v.exponent < Two(NUM_STEPS)
  }

  predicate AllValid(invocations: seq<Invocation>) {
    forall k :: 0 <= k < |invocations| ==> ValidInvocation(invocations[k])
  }

  // ---------------------------------------------------------------- the exponent columns

  /** `v | 1 << off`. */
  function SetBit(v: nat, off: nat): nat {
    if Bit(v, off) == 1 then v else v + Two(off)
  }

  /** The part of limb k made of its bits t and up. */
  function LimbFrom(e: nat, k: nat, t: nat): nat
    requires t <= 64
    decreases 64 - t
  {
    if t == 64 then 0 else Bit(e, 64 * k + t) * Two(t) + LimbFrom(e, k, t + 1)
  }

  lemma TwoLimb()
    ensures Two(64) == B
  {
    assert Two(4) == 16;
    TwoSum(4, 4);
    TwoSum(8, 8);
    TwoSum(16, 16);
    TwoSum(32, 32);
  }

  lemma HalveModulus(q: nat, b: int, m: nat)
    requires m > 0 && 0 <= b <= 1
    ensures (2 * q + b) % (2 * m) == 2 * (q % m) + b
  {
    assert q == (q / m) * m + q % m;
    assert 2 * q + b == (q / m) * (2 * m) + (2 * (q % m) + b);
    ModUnique(2 * m, 2 * q + b, q / m, 2 * (q % m) + b);
  }

  /** One more low bit of a quotient, in place. */
  lemma LowerBit(e: nat, d: int, m: nat, t: int)
    requires m > 0 && d > 0
    ensures e / d % (2 * m) * t == e / d % 2 * t + e / (2 * d) % m * (2 * t)
  {
    var q, b := e / (2 * d), e / d % 2;
    HalveQuotient(e, d);
    HalveModulus(q, b, m);
    Spread(q % m, b, t);
  }

  lemma Spread(x: int, b: int, t: int)
    ensures (2 * x + b) * t == b * t + x * (2 * t)
  {}

  /** The upper part of a limb is the quotient's low bits, in place. */
  lemma {:induction false} LimbFromIs(e: nat, k: nat, t: nat)
    requires t <= 64
    ensures LimbFrom(e, k, t) == e / Two(64 * k + t) % Two(64 - t) * Two(t)
    decreases 64 - t
  {
    hide Two;
    if t == 64 {
      EmptyLimb(e, k);
    } else {
      LimbFromIs(e, k, t + 1);
      TwoNext(64 * k + t);
      TwoNext(63 - t);
      TwoNext(t);
      LowerBit(e, Two(64 * k + t), Two(63 - t), Two(t));
    }
  }

  lemma EmptyLimb(e: nat, k: nat)
    ensures e / Two(64 * k + 64) % Two(0) * Two(64) == 0
  {
    assert e / Two(64 * k + 64) % 1 == 0;
  }

  lemma EvenQuotient(y: nat, t: int)
    requires t > 0
    ensures y * (2 * t) >= 0 && y * (2 * t) / t % 2 == 0
  {
    assert y * (2 * t) == (2 * y) * t + 0;
    ModUnique(t, y * (2 * t), 2 * y, 0);
  }

  lemma BitNotSet(e: nat, k: nat, off: nat)
    requires off < 64
    ensures Bit(LimbFrom(e, k, off + 1), off) == 0
  {
    hide Two, LimbFrom;
    LimbFromIs(e, k, off + 1);
    TwoNext(off);
    EvenQuotient(e / Two(64 * k + off + 1) % Two(63 - off), Two(off));
  }

  function ExponentLimbs(e: nat): Limbs {
    Limbs(LimbFrom(e, 0, 0), LimbFrom(e, 1, 0), LimbFrom(e, 2, 0), LimbFrom(e, 3, 0))
  }

  lemma WholeLimb(e: nat, k: nat, d: int)
    requires Two(64 * k) == d
    ensures LimbFrom(e, k, 0) == e / d % B
  {
    hide LimbFrom;
    TwoLimb();
    LimbFromIs(e, k, 0);
    assert Two(0) == 1;
  }

  lemma TwoLimbs()
    ensures Two(128) == B * B && Two(192) == B * B * B && Two(NUM_STEPS) == B * B * B * B
  {
    TwoLimb();
    TwoSum(64, 64);
    TwoSum(128, 64);
    TwoSum(192, 64);
  }

  lemma LimbsAre(e: nat)
    ensures ExponentLimbs(e) == ToLimbs(e)
  {
    hide LimbFrom;
    assert LimbFrom(e, 0, 0) == e % B by { WholeLimb(e, 0, 1); }
    assert LimbFrom(e, 1, 0) == e / B % B by { TwoLimb(); WholeLimb(e, 1, B); }
    assert LimbFrom(e, 2, 0) == e / (B * B) % B by { TwoLimbs(); WholeLimb(e, 2, B * B); }
    assert LimbFrom(e, 3, 0) == e / (B * B * B) % B by { TwoLimbs(); WholeLimb(e, 3, B * B * B); }
  }

  /** The four limbs rebuilt from its bits have the exponent as their value. */
  lemma ExponentLimbsValue(e: nat)
    requires e < Two(NUM_STEPS)
    ensures ExponentLimbs(e).InRange() && ExponentLimbs(e).Value() == e
  {
    hide ExponentLimbs, Two;
    LimbsAre(e);
    TwoLimbs();
    ToLimbsValue(e);
  }

  /** How much of limb k is rebuilt when all bits from `low` up are in. */
  function Reached(k: nat, low: nat): nat {
    if low <= 64 * k then 0 else if low >= 64 * k + 64 then 64 else low - 64 * k
  }

  /** Sets bit 255 - r of the limbs for every row r whose exponent bit is 1. */
  method RebuildExponent(ghost base: Limbs, ghost exponent: nat, rows: seq<ExpRow>) returns (x: Limbs)
    requires |rows| == NUM_STEPS && exponent < Two(NUM_STEPS)
    requires forall r :: 0 <= r < NUM_STEPS ==> rows[r] == WitnessRow(base, exponent, r)
    ensures x == ExponentLimbs(exponent)
  {
    hide LimbFrom, WitnessRow, Two, Bit;
    var limbs := new nat[4](_ => 0);
    forall k: nat | k < 4 ensures LimbFrom(exponent, k, 64) == 0 {
      LimbFromTop(exponent, k);
    }
    for r := 0 to NUM_STEPS
      invariant forall k :: 0 <= k < 4 ==> limbs[k] == LimbFrom(exponent, k, Reached(k, NUM_STEPS - r))
    {
      WitnessShape(base, exponent, r);
      var pos := NUM_STEPS - 1 - r;
      var limb, off := pos / 64, pos % 64;
      LimbFromNext(exponent, limb, off);
      if rows[r].expBit == 1 {
        limbs[limb] := SetBit(limbs[limb], off);
      }
    }
    x := Limbs(limbs[0], limbs[1], limbs[2], limbs[3]);
  }

  lemma LimbFromTop(e: nat, k: nat)
    ensures LimbFrom(e, k, 64) == 0
  {}

  lemma LimbFromNext(e: nat, k: nat, off: nat)
    requires off < 64
    ensures LimbFrom(e, k, off) ==
      if Bit(e, 64 * k + off) == 1 then SetBit(LimbFrom(e, k, off + 1), off) else LimbFrom(e, k, off + 1)
  {
    BitNotSet(e, k, off);
  }

  // ---------------------------------------------------------------- the blocks

  function Block(v: Invocation): (rows: seq<seq<int>>)
    ensures |rows| == NUM_STEPS
  {
    Trace(v.base, v.exponent, ExponentLimbs(v.exponent))
  }

  function MultiTrace(invocations: seq<Invocation>): (rows: seq<seq<int>>)
    ensures |rows| == NUM_STEPS * |invocations|
  {
    if invocations == [] then [] else
    MultiTrace(invocations[..|invocations| - 1]) + Block(invocations[|invocations| - 1])
  }

  /** `populate_multi_trace`, row by row. */
  method PopulateMultiTrace(invocations: seq<Invocation>) returns (columns: seq<seq<int>>)
    requires |invocations| > 0 && AllValid(invocations)
    ensures columns == MultiTrace(invocations)
  {
    hide WitnessRow, Populate, LimbFrom;
    columns := [];
    for k := 0 to |invocations|
      invariant columns == MultiTrace(invocations[..k])
    {
      var v := invocations[k];
      assert ValidInvocation(v);
      var rows := MakeWitness(v.base, v.exponent);
      var exponentLimbs := RebuildExponent(v.base, v.exponent, rows);
      var final := rows[NUM_STEPS - 1].Out();
      var block: seq<seq<int>> := [];
      for r := 0 to NUM_STEPS
        invariant block == Block(v)[..r]
      {
        block := block + [Populate(rows[r], exponentLimbs, final, if r == 0 then 1 else 0)];
      }
      assert block == Block(v);
      assert invocations[..k + 1][..k] == invocations[..k];
      columns := columns + block;
    }
    assert invocations[..|invocations|] == invocations;
  }

  /** No product of the invocation overflows its accumulator. */
  predicate Fits(v: Invocation) {
    forall r :: 0 <= r < NUM_STEPS ==> PowersFit(v.base, v.exponent, r)
  }

  predicate AllFit(invocations: seq<Invocation>) {
    forall k :: 0 <= k < |invocations| ==> Fits(invocations[k])
  }

  lemma BlockAcceptedIff(p: int, v: Invocation)
    requires ExpField(p) && ValidInvocation(v)
    ensures Accepted(p, Block(v)) <==> Fits(v)
  {
    hide Accepted, Trace, LimbFrom, PowersFit;
    ExponentLimbsValue(v.exponent);
    WitnessAcceptedIff(p, v.base, v.exponent, ExponentLimbs(v.exponent));
  }

  /** From the last row of one block into the first of the next every cross-row body vanishes. */
  lemma BetweenBlocks(p: int, v: Invocation, w: Invocation)
    requires ExpField(p) && ValidInvocation(v) && ValidInvocation(w)
    ensures CrossOk(p, Block(v)[NUM_STEPS - 1], Block(w)[0])
  {
    hide FMul, FSub, FAdd, WitnessRow, SchoolbookMul, ChosenLimb, TraceRow, LimbFrom;
    var x, y, last := ExponentLimbs(v.exponent), ExponentLimbs(w.exponent), NUM_STEPS - 1;
    ExponentLimbsValue(v.exponent);
    ExponentLimbsValue(w.exponent);
    TraceRowValid(p, v.base, v.exponent, x, last);
    TraceRowValid(p, w.base, w.exponent, y, 0);
    TraceLimbs(v.base, v.exponent, x, last);
    TraceLimbs(w.base, w.exponent, y, 0);
    WitnessShape(v.base, v.exponent, last);
    ChosenSelects(p, Block(v)[last]);
    IntoFirstRow(p, Block(v)[last], Block(w)[0]);
  }

  lemma IntoFirstRow(p: int, row: seq<int>, next: seq<int>)
    requires p > 1 && ValidRow(p, row) && ValidRow(p, next)
    requires row[ACTIVE] == 1 && next[ACTIVE] == 1 && next[IS_FIRST_ROW] == 1
    requires LimbsAt(row, FINAL_OUTPUT) == Chosen(p, row)
    ensures CrossOk(p, row, next)
  {
    hide FMul, FSub, FAdd, ChosenLimb, Differences, ResultDifferences, OutputDifferences, LimbsAt, Chosen;
    var sh := Shifted(next);
    forall y ensures FMul(p, 0, y) == 0 && FMul(p, y, 0) == 0 {
      MulZero(p, y);
    }
    SubZeroIff(p, 1, 1);
    assert Continues(p, sh) == 0 && BitStep(p, row, sh) == 0;
    OutputIsChosen(p, row);
  }

  lemma OutputIsChosen(p: int, row: seq<int>)
    requires p > 1 && ValidRow(p, row) && LimbsAt(row, FINAL_OUTPUT) == Chosen(p, row)
    ensures AllZero(OutputDifferences(p, row))
  {
    hide FSub, ChosenLimb;
    SubZeroIff(p, row[FINAL_OUTPUT], row[FINAL_OUTPUT]);
    SubZeroIff(p, row[FINAL_OUTPUT + 1], row[FINAL_OUTPUT + 1]);
    SubZeroIff(p, row[FINAL_OUTPUT + 2], row[FINAL_OUTPUT + 2]);
    SubZeroIff(p, row[FINAL_OUTPUT + 3], row[FINAL_OUTPUT + 3]);
  }

  /** Two traces whose seam passes are accepted together exactly when each is. */
  lemma AcceptedConcat(p: int, a: seq<seq<int>>, b: seq<seq<int>>)
    requires p > 1 && (forall r :: 0 <= r < |a| ==> |a[r]| == COLUMNS) && (forall r :: 0 <= r < |b| ==> |b[r]| == COLUMNS)
    requires a != [] && b != [] ==> CrossOk(p, a[|a| - 1], b[0])
    ensures Accepted(p, a + b) <==> Accepted(p, a) && Accepted(p, b)
  {
    hide RowOk, CrossOk, ValidRow;
    var all, n := a + b, |a|;
    if Accepted(p, all) {
      forall r | 0 <= r < n ensures ValidRow(p, a[r]) && RowOk(p, a[r]) {
        assert all[r] == a[r];
      }
      forall r | 0 <= r < |b| ensures ValidRow(p, b[r]) && RowOk(p, b[r]) {
        assert all[n + r] == b[r];
      }
      forall r | 0 <= r < n - 1 ensures CrossOk(p, a[r], a[r + 1]) {
        assert CrossOk(p, all[r], all[r + 1]);
      }
      forall r | 0 <= r < |b| - 1 ensures CrossOk(p, b[r], b[r + 1]) {
        assert CrossOk(p, all[n + r], all[n + r + 1]);
      }
    }
    if Accepted(p, a) && Accepted(p, b) {
      forall r | 0 <= r < |all| - 1 ensures CrossOk(p, all[r], all[r + 1]) {
        if r < n - 1 {
          assert CrossOk(p, a[r], a[r + 1]);
        } else if r >= n {
          assert CrossOk(p, b[r - n], b[r - n + 1]);
        }
      }
    }
  }

  lemma {:induction false} RowsHaveColumns(invocations: seq<Invocation>)
    ensures forall r :: 0 <= r < |MultiTrace(invocations)| ==> |MultiTrace(invocations)[r]| == COLUMNS
  {
    hide TraceRow;
    if invocations != [] {
      RowsHaveColumns(invocations[..|invocations| - 1]);
    }
  }

  /** A trace of many honest invocations is accepted exactly when every product of every one of them fits. */
  lemma {:induction false} MultiAcceptedIff(p: int, invocations: seq<Invocation>)
    requires ExpField(p) && AllValid(invocations)
    ensures Accepted(p, MultiTrace(invocations)) <==> AllFit(invocations)
  {
    hide Block, CrossOk, Accepted, Fits;
    if invocations == [] {
      assert Accepted(p, MultiTrace(invocations)) by {
        NothingAccepted(p);
      }
    } else {
      var m := |invocations| - 1;
      var front, last := invocations[..m], invocations[m];
      assert ValidInvocation(last);
      MultiAcceptedIff(p, front);
      BlockAcceptedIff(p, last);
      RowsHaveColumns(front);
      BlockColumns(last);
      if m > 0 {
        assert ValidInvocation(invocations[m - 1]);
        BetweenBlocks(p, invocations[m - 1], last);
        assert MultiTrace(front)[|MultiTrace(front)| - 1] == Block(invocations[m - 1])[NUM_STEPS - 1];
      }
      AcceptedConcat(p, MultiTrace(front), Block(last));
      assert forall k :: 0 <= k < m ==> front[k] == invocations[k];
    }
  }

  lemma NothingAccepted(p: int)
    requires p > 1
    ensures Accepted(p, [])
  {}

  lemma BlockColumns(v: Invocation)
    ensures forall r :: 0 <= r < NUM_STEPS ==> |Block(v)[r]| == COLUMNS
  {
    hide TraceRow;
  }

  lemma {:induction false} MultiAt(invocations: seq<Invocation>, k: nat, r: nat)
    requires k < |invocations| && r < NUM_STEPS
    ensures NUM_STEPS * k + r < |MultiTrace(invocations)|
    ensures MultiTrace(invocations)[NUM_STEPS * k + r] == Block(invocations[k])[r]
  {
    hide Block;
    var m := |invocations| - 1;
    if k < m {
      MultiAt(invocations[..m], k, r);
    }
  }

  /**
   In an accepted trace of honest invocations, every row of block k carries the k-th base and exponent
   and the k-th power modulo 2^256, and only its first row is flagged.
   */
  lemma MultiComputesPowers(p: int, invocations: seq<Invocation>, k: nat, r: nat)
    requires ExpField(p) && AllValid(invocations) && Accepted(p, MultiTrace(invocations))
    requires k < |invocations| && r < NUM_STEPS
    ensures NUM_STEPS * k + r < |MultiTrace(invocations)| && |MultiTrace(invocations)[NUM_STEPS * k + r]| == COLUMNS
    ensures var (row, v) := (MultiTrace(invocations)[NUM_STEPS * k + r], invocations[k]);
      && LimbsAt(row, BASE) == v.base && LimbsAt(row, EXPONENT).Value() == v.exponent
      && LimbsAt(row, FINAL_OUTPUT).Value() == Pow(v.base.Value(), v.exponent) % M
      && row[IS_FIRST_ROW] == if r == 0 then 1 else 0
  {
    hide Accepted, WitnessRow, TraceRow, LimbFrom, PowersFit, MultiTrace, LimbsAt;
    MultiAcceptedIff(p, invocations);
    MultiAt(invocations, k, r);
    var v := invocations[k];
    assert Fits(v) && ValidInvocation(v);
    var x := ExponentLimbs(v.exponent);
    ExponentLimbsValue(v.exponent);
    TraceLimbs(v.base, v.exponent, x, r);
    WitnessRanges(v.base, v.exponent, r);
    FittingComputesPower(v.base, v.exponent);
  }
}
