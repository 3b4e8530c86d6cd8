/**
 The honest EXP witness: 256 rows of square-and-multiply whose products come from the 128-bit
 schoolbook code. It satisfies the constraints exactly when no product overflows its accumulator.
 */
module ExpWitness {
  import opened Common
  import opened PrimeField
  import opened PolyArith
  import opened LimbChain
  import opened ExpAir

  datatype ExpRow = ExpRow(resultIn: Limbs, base: Limbs, squared: Limbs, squaredCarry: Limbs,
                           mul: Limbs, mulCarry: Limbs, expBit: int, bitIndex: int)
  {
    function Out(): Limbs {
      if expBit == 1 then mul else squared
    }
  }

  function Bit(exponent: nat, k: nat): (b: int)
    ensures b == 0 || b == 1
  {
    exponent / Two(k) % 2
  }

  /** The row computed from an accumulator at bit index k. */
  function MakeRow(acc: Limbs, base: Limbs, exponent: nat, k: nat): ExpRow {
    var (squared, squaredCarry) := SchoolbookMul(acc, acc);
    var (mul, mulCarry) := SchoolbookMul(squared, base);
    ExpRow(acc, base, squared, squaredCarry, mul, mulCarry, Bit(exponent, k), k)
  }

  /** Row r of the witness: the first starts from 1, every other from its predecessor's output. */
  function WitnessRow(base: Limbs, exponent: nat, r: nat): ExpRow
    requires r < NUM_STEPS
  {
    var acc := if r == 0 then Limbs(1, 0, 0, 0) else WitnessRow(base, exponent, r - 1).Out();
    MakeRow(acc, base, exponent, NUM_STEPS - 1 - r)
  }

  method MakeWitness(base: Limbs, exponent: nat) returns (rows: seq<ExpRow>)
    ensures |rows| == NUM_STEPS
    ensures forall r :: 0 <= r < NUM_STEPS ==> rows[r] == WitnessRow(base, exponent, r)
  {
    hide MakeRow;
    rows := [];
    var result := Limbs(1, 0, 0, 0);
    for r := 0 to NUM_STEPS
      invariant |rows| == r && forall k :: 0 <= k < r ==> rows[k] == WitnessRow(base, exponent, k)
      invariant result == if r == 0 then Limbs(1, 0, 0, 0) else WitnessRow(base, exponent, r - 1).Out()
    {
      var row := MakeRow(result, base, exponent, NUM_STEPS - 1 - r);
      rows := rows + [row];
      result := row.Out();
    }
  }

  /** The column values of a row, with the linkage columns of its invocation. */
  function Populate(row: ExpRow, exponent: Limbs, final: Limbs, first: int): (r: seq<int>)
    ensures |r| == COLUMNS
  {
    [ row.resultIn.l0, row.resultIn.l1, row.resultIn.l2, row.resultIn.l3,
      row.base.l0, row.base.l1, row.base.l2, row.base.l3,
      row.squared.l0, row.squared.l1, row.squared.l2, row.squared.l3,
      row.squaredCarry.l0, row.squaredCarry.l1, row.squaredCarry.l2, row.squaredCarry.l3,
      row.mul.l0, row.mul.l1, row.mul.l2, row.mul.l3,
      row.mulCarry.l0, row.mulCarry.l1, row.mulCarry.l2, row.mulCarry.l3,
      row.expBit, row.bitIndex, 1,
      exponent.l0, exponent.l1, exponent.l2, exponent.l3,
      final.l0, final.l1, final.l2, final.l3,
      first ]
  }

  function TraceRow(base: Limbs, exponent: nat, x: Limbs, r: nat): (row: seq<int>)
    requires r < NUM_STEPS
    ensures |row| == COLUMNS
  {
    Populate(WitnessRow(base, exponent, r), x, WitnessRow(base, exponent, NUM_STEPS - 1).Out(), if r == 0 then 1 else 0)
  }

  /** The populated trace, with x in the EXPONENT columns. */
  function Trace(base: Limbs, exponent: nat, x: Limbs): (rows: seq<seq<int>>)
    ensures |rows| == NUM_STEPS
  {
    seq(NUM_STEPS, r requires 0 <= r < NUM_STEPS => TraceRow(base, exponent, x, r))
  }

  /** No accumulator of either product of row r overflows 128 bits. */
  predicate RowFits(base: Limbs, exponent: nat, r: nat)
    requires r < NUM_STEPS
  {
    var row := WitnessRow(base, exponent, r);
    NoOverflow(row.resultIn, row.resultIn) && NoOverflow(row.squared, row.base)
  }

  lemma {:induction false} WitnessRanges(base: Limbs, exponent: nat, r: nat)
    requires base.InRange() && r < NUM_STEPS
    ensures var row := WitnessRow(base, exponent, r);
      row.resultIn.InRange() && row.squared.InRange() && row.squaredCarry.InRange() && row.mul.InRange() &&
      row.mulCarry.InRange() && row.base == base
  {
    hide SchoolbookMul, NoOverflow;
    if r > 0 {
      WitnessRanges(base, exponent, r - 1);
    }
    var row := WitnessRow(base, exponent, r);
    SchoolbookAcceptedIff(row.resultIn, row.resultIn);
    SchoolbookAcceptedIff(row.squared, base);
  }

  lemma RangeInField(p: int, a: Limbs)
    requires p >= 8 * B * B && a.InRange()
    ensures InField(p, a.l0) && InField(p, a.l1) && InField(p, a.l2) && InField(p, a.l3)
  {}

  lemma PopulateValid(p: int, row: ExpRow, x: Limbs, final: Limbs, first: int)
    requires p >= 8 * B * B && x.InRange() && final.InRange() && 0 <= first <= 1
    requires row.resultIn.InRange() && row.base.InRange() && row.squared.InRange() && row.squaredCarry.InRange()
    requires row.mul.InRange() && row.mulCarry.InRange() && 0 <= row.expBit <= 1 && 0 <= row.bitIndex < NUM_STEPS
    ensures ValidRow(p, Populate(row, x, final, first))
  {
    RangeInField(p, row.resultIn);
    RangeInField(p, row.base);
    RangeInField(p, row.squared);
    RangeInField(p, row.squaredCarry);
    RangeInField(p, row.mul);
    RangeInField(p, row.mulCarry);
    RangeInField(p, x);
    RangeInField(p, final);
  }

  lemma TraceRowValid(p: int, base: Limbs, exponent: nat, x: Limbs, r: nat)
    requires ExpField(p) && base.InRange() && x.InRange() && r < NUM_STEPS
    ensures ValidRow(p, TraceRow(base, exponent, x, r)) && InRanges(TraceRow(base, exponent, x, r))
  {
    hide WitnessRow, ValidRow;
    WitnessRanges(base, exponent, r);
    WitnessRanges(base, exponent, NUM_STEPS - 1);
    WitnessShape(base, exponent, r);
    var w, final := WitnessRow(base, exponent, r), WitnessRow(base, exponent, NUM_STEPS - 1).Out();
    PopulateValid(p, w, x, final, if r == 0 then 1 else 0);
    TraceLimbs(base, exponent, x, r);
  }

  lemma TraceLimbs(base: Limbs, exponent: nat, x: Limbs, r: nat)
    requires r < NUM_STEPS
    ensures var w, row := WitnessRow(base, exponent, r), TraceRow(base, exponent, x, r);
      LimbsAt(row, RESULT_IN) == w.resultIn && LimbsAt(row, BASE) == w.base &&
      LimbsAt(row, SQUARED) == w.squared && LimbsAt(row, SQUARED_CARRY) == w.squaredCarry &&
      LimbsAt(row, MUL) == w.mul && LimbsAt(row, MUL_CARRY) == w.mulCarry &&
      LimbsAt(row, EXPONENT) == x && LimbsAt(row, FINAL_OUTPUT) == WitnessRow(base, exponent, NUM_STEPS - 1).Out() &&
      row[EXP_BIT] == w.expBit && row[BIT_INDEX] == w.bitIndex && row[ACTIVE] == 1 &&
      row[IS_FIRST_ROW] == if r == 0 then 1 else 0
  {
    hide WitnessRow, Populate, LimbsAt;
    PopulateLimbs(WitnessRow(base, exponent, r), x, WitnessRow(base, exponent, NUM_STEPS - 1).Out(), if r == 0 then 1 else 0);
  }

  lemma PopulateLimbs(w: ExpRow, x: Limbs, final: Limbs, first: int)
    ensures var row := Populate(w, x, final, first);
      LimbsAt(row, RESULT_IN) == w.resultIn && LimbsAt(row, BASE) == w.base &&
      LimbsAt(row, SQUARED) == w.squared && LimbsAt(row, SQUARED_CARRY) == w.squaredCarry &&
      LimbsAt(row, MUL) == w.mul && LimbsAt(row, MUL_CARRY) == w.mulCarry &&
      LimbsAt(row, EXPONENT) == x && LimbsAt(row, FINAL_OUTPUT) == final &&
      row[EXP_BIT] == w.expBit && row[BIT_INDEX] == w.bitIndex && row[ACTIVE] == 1 && row[IS_FIRST_ROW] == first
  {
    hide Populate, LimbsAt;
    PopulateFactors(w, x, final, first);
    PopulateProducts(w, x, final, first);
    PopulateLinkage(w, x, final, first);
  }

  lemma PopulateFactors(w: ExpRow, x: Limbs, final: Limbs, first: int)
    ensures var row := Populate(w, x, final, first);
      LimbsAt(row, RESULT_IN) == w.resultIn && LimbsAt(row, BASE) == w.base && LimbsAt(row, SQUARED) == w.squared
  {}

  lemma PopulateProducts(w: ExpRow, x: Limbs, final: Limbs, first: int)
    ensures var row := Populate(w, x, final, first);
      LimbsAt(row, SQUARED_CARRY) == w.squaredCarry && LimbsAt(row, MUL) == w.mul && LimbsAt(row, MUL_CARRY) == w.mulCarry
  {}

  lemma PopulateLinkage(w: ExpRow, x: Limbs, final: Limbs, first: int)
    ensures var row := Populate(w, x, final, first);
      LimbsAt(row, EXPONENT) == x && LimbsAt(row, FINAL_OUTPUT) == final &&
      row[EXP_BIT] == w.expBit && row[BIT_INDEX] == w.bitIndex && row[ACTIVE] == 1 && row[IS_FIRST_ROW] == first
  {}

  lemma WitnessShape(base: Limbs, exponent: nat, r: nat)
    requires r < NUM_STEPS
    ensures var row := WitnessRow(base, exponent, r);
      row.bitIndex == NUM_STEPS - 1 - r && row.expBit == Bit(exponent, NUM_STEPS - 1 - r) &&
      (row.squared, row.squaredCarry) == SchoolbookMul(row.resultIn, row.resultIn) &&
      (row.mul, row.mulCarry) == SchoolbookMul(row.squared, row.base) &&
      row.resultIn == (if r == 0 then Limbs(1, 0, 0, 0) else WitnessRow(base, exponent, r - 1).Out())
  {
    hide SchoolbookMul;
  }

  /** In-range limb bodies vanish together exactly when the chain holds. */
  lemma BodiesVanishIff(p: int, a: Limbs, b: Limbs, o: Limbs, c: Limbs)
    requires ExpField(p) && a.InRange() && b.InRange() && o.InRange() && c.CarriesInRange()
    ensures AllZero(seq(4, k => LimbBody(p, a, b, o, c, k))) <==> ChainHolds(a, b, o, c)
  {
    hide LimbBody, LimbEquation;
    var s := seq(4, k => LimbBody(p, a, b, o, c, k));
    forall k | 0 <= k < 4
      ensures s[k] == 0 <==> LimbEquation(a, b, o, c, k)
    {
      LimbBodyExact(p, a, b, o, c, k);
    }
    if AllZero(s) {
      forall k | 0 <= k < 4 ensures LimbEquation(a, b, o, c, k) {
        assert s[k] == 0;
      }
    }
  }

  lemma GatedByOne(p: int, bodies: seq<int>)
    requires p > 1 && AllInField(p, bodies)
    ensures Gated(p, 1, bodies) <==> AllZero(bodies)
  {
    forall k | 0 <= k < |bodies| ensures FMul(p, 1, bodies[k]) == bodies[k] {
      MulOne(p, bodies[k]);
    }
  }

  /** A witness row passes the row-local bodies exactly when its products fit. */
  lemma RowOkIffFits(p: int, base: Limbs, exponent: nat, x: Limbs, r: nat)
    requires ExpField(p) && base.InRange() && x.InRange() && r < NUM_STEPS
    ensures RowOk(p, TraceRow(base, exponent, x, r)) <==> RowFits(base, exponent, r)
  {
    hide FMul, FSub, FAdd, LimbBody, WitnessRow, NoOverflow, SchoolbookMul, ChainHolds, InitBody;
    var w, row := WitnessRow(base, exponent, r), TraceRow(base, exponent, x, r);
    TraceRowValid(p, base, exponent, x, r);
    WitnessRanges(base, exponent, r);
    WitnessShape(base, exponent, r);
    TraceLimbs(base, exponent, x, r);
    SchoolbookAcceptedIff(w.resultIn, w.resultIn);
    SchoolbookAcceptedIff(w.squared, base);
    BodiesVanishIff(p, w.resultIn, w.resultIn, w.squared, w.squaredCarry);
    BodiesVanishIff(p, w.squared, base, w.mul, w.mulCarry);
    assert SquareBodies(p, row) == seq(4, k => LimbBody(p, w.resultIn, w.resultIn, w.squared, w.squaredCarry, k));
    assert MulBodies(p, row) == seq(4, k => LimbBody(p, w.squared, base, w.mul, w.mulCarry, k));
    GatedByOne(p, SquareBodies(p, row));
    GatedByOne(p, MulBodies(p, row));
    SimpleBodies(p, row, r);
  }

  /** The bit and first-row bodies vanish on any row of the witness shape. */
  lemma SimpleBodies(p: int, row: seq<int>, r: nat)
    requires p > NUM_STEPS && ValidRow(p, row) && row[ACTIVE] == 1
    requires row[EXP_BIT] == 0 || row[EXP_BIT] == 1
    requires row[IS_FIRST_ROW] == (if r == 0 then 1 else 0)
    requires r == 0 ==> row[BIT_INDEX] == NUM_STEPS - 1 && LimbsAt(row, RESULT_IN) == Limbs(1, 0, 0, 0)
    ensures FMul(p, row[ACTIVE], Binary(p, row[EXP_BIT])) == 0 && Binary(p, row[ACTIVE]) == 0
    ensures Binary(p, row[IS_FIRST_ROW]) == 0
    ensures FMul(p, row[IS_FIRST_ROW], FSub(p, row[BIT_INDEX], NUM_STEPS - 1)) == 0
    ensures Gated(p, row[IS_FIRST_ROW], InitBodies(p, row))
  {
    hide FMul, FSub, FAdd;
    SubZeroIff(p, 1, 1);
    SubZeroIff(p, NUM_STEPS - 1, NUM_STEPS - 1);
    forall y ensures FMul(p, 0, y) == 0 && FMul(p, y, 0) == 0 {
      MulZero(p, y);
    }
  }

  lemma TraceCross(p: int, base: Limbs, exponent: nat, x: Limbs, r: nat)
    requires ExpField(p) && base.InRange() && x.InRange() && r < NUM_STEPS - 1
    ensures CrossOk(p, TraceRow(base, exponent, x, r), TraceRow(base, exponent, x, r + 1))
  {
    hide FMul, FSub, FAdd, WitnessRow, SchoolbookMul, ChosenLimb, TraceRow;
    var row, next := TraceRow(base, exponent, x, r), TraceRow(base, exponent, x, r + 1);
    TraceRowValid(p, base, exponent, x, r);
    TraceRowValid(p, base, exponent, x, r + 1);
    TraceLimbs(base, exponent, x, r);
    TraceLimbs(base, exponent, x, r + 1);
    WitnessShape(base, exponent, r);
    WitnessShape(base, exponent, r + 1);
    WitnessRanges(base, exponent, r);
    WitnessRanges(base, exponent, r + 1);
    ChosenSelects(p, row);
    StepDown(p, next[BIT_INDEX]);
    InnerCross(p, row, next);
  }

  /** Two consecutive rows that chain as the algorithm does pass every cross-row body. */
  lemma InnerCross(p: int, row: seq<int>, next: seq<int>)
    requires p > NUM_STEPS && ValidRow(p, row) && ValidRow(p, next)
    requires row[ACTIVE] == 1 && next[ACTIVE] == 1 && next[IS_FIRST_ROW] == 0
    requires next[BIT_INDEX] == FSub(p, row[BIT_INDEX], 1)
    requires LimbsAt(next, RESULT_IN) == Chosen(p, row) && LimbsAt(next, BASE) == LimbsAt(row, BASE)
    requires LimbsAt(next, EXPONENT) == LimbsAt(row, EXPONENT)
    requires LimbsAt(next, FINAL_OUTPUT) == LimbsAt(row, FINAL_OUTPUT)
    ensures CrossOk(p, row, next)
  {
    hide FMul, FSub, FAdd, ChosenLimb, Differences, ResultDifferences, OutputDifferences, LimbsAt, Chosen;
    var sh := Shifted(next);
    forall y ensures FMul(p, 0, y) == 0 && FMul(p, y, 0) == 0 {
      MulZero(p, y);
    }
    SubZeroIff(p, 1, 1);
    AddZero(p, 0);
    assert LastIndicator(p, row, sh) == 0;
    SubZeroIff(p, next[BIT_INDEX], next[BIT_INDEX]);
    assert BitStep(p, row, sh) == 0;
    NoDifference(p, row, next, 4, BASE);
    NoDifference(p, row, next, 10, EXPONENT);
    NoDifference(p, row, next, 14, FINAL_OUTPUT);
    NoResultDifference(p, row, next);
  }

  lemma NoDifference(p: int, row: seq<int>, next: seq<int>, shifted: nat, offset: nat)
    requires p > 1 && ValidRow(p, row) && ValidRow(p, next) && shifted + 4 <= 19 && offset + 4 <= COLUMNS
    requires SHIFTED[shifted] == offset && SHIFTED[shifted + 1] == offset + 1
    requires SHIFTED[shifted + 2] == offset + 2 && SHIFTED[shifted + 3] == offset + 3
    requires LimbsAt(next, offset) == LimbsAt(row, offset)
    ensures AllZero(Differences(p, row, Shifted(next), shifted, offset))
  {
    hide FSub;
    SubZeroIff(p, row[offset], row[offset]);
    SubZeroIff(p, row[offset + 1], row[offset + 1]);
    SubZeroIff(p, row[offset + 2], row[offset + 2]);
    SubZeroIff(p, row[offset + 3], row[offset + 3]);
  }

  lemma NoResultDifference(p: int, row: seq<int>, next: seq<int>)
    requires p > 1 && ValidRow(p, row) && ValidRow(p, next)
    requires LimbsAt(next, RESULT_IN) == Chosen(p, row)
    ensures AllZero(ResultDifferences(p, row, Shifted(next)))
  {
    hide FSub, ChosenLimb;
    SubZeroIff(p, next[0], next[0]);
    SubZeroIff(p, next[1], next[1]);
    SubZeroIff(p, next[2], next[2]);
    SubZeroIff(p, next[3], next[3]);
  }

  lemma StepDown(p: int, y: int)
    requires InField(p, y)
    ensures FSub(p, y + 1, 1) == y
  {
    ModSmall(p, y);
  }

  /** The honest trace is accepted exactly when every one of its 512 products fits in 128-bit accumulators. */
  lemma AcceptedIffRowsFit(p: int, base: Limbs, exponent: nat, x: Limbs)
    requires ExpField(p) && base.InRange() && x.InRange()
    ensures Accepted(p, Trace(base, exponent, x)) <==> forall r :: 0 <= r < NUM_STEPS ==> RowFits(base, exponent, r)
  {
    hide RowOk, CrossOk, RowFits, TraceRow;
    var rows := Trace(base, exponent, x);
    forall r | 0 <= r < NUM_STEPS
      ensures ValidRow(p, rows[r]) && (RowOk(p, rows[r]) <==> RowFits(base, exponent, r))
    {
      TraceRowValid(p, base, exponent, x, r);
      RowOkIffFits(p, base, exponent, x, r);
    }
    forall r | 0 <= r < NUM_STEPS - 1
      ensures CrossOk(p, rows[r], rows[r + 1])
    {
      TraceCross(p, base, exponent, x, r);
    }
    if Accepted(p, rows) {
      forall r | 0 <= r < NUM_STEPS ensures RowFits(base, exponent, r) {
        assert RowOk(p, rows[r]);
      }
    }
  }

  // ---------------------------------------------------------------- runs of any length

  const ONE: Limbs := Limbs(1, 0, 0, 0)
  const NONE: Limbs := Limbs(0, 0, 0, 0)

  /** Row r of a run of base 1 and exponent bits 0; the counter goes on past 0 in the field. */
  function UnitRow(p: int, r: nat): (row: seq<int>)
    requires p > 1
    ensures |row| == COLUMNS
  {
    Populate(ExpRow(ONE, ONE, ONE, NONE, ONE, NONE, 0, FSub(p, NUM_STEPS - 1, r)), NONE, ONE, if r == 0 then 1 else 0)
  }

  lemma UnitRowOk(p: int, r: nat)
    requires ExpField(p)
    ensures ValidRow(p, UnitRow(p, r)) && InRanges(UnitRow(p, r)) && RowOk(p, UnitRow(p, r))
  {
    hide FMul, FSub, FAdd, LimbBody, InitBody, Populate;
    var row := UnitRow(p, r);
    PopulateLimbs(ExpRow(ONE, ONE, ONE, NONE, ONE, NONE, 0, FSub(p, NUM_STEPS - 1, r)), NONE, ONE, if r == 0 then 1 else 0);
    UnitRowValid(p, r);
    BodiesVanishIff(p, ONE, ONE, ONE, NONE);
    assert SquareBodies(p, row) == seq(4, k => LimbBody(p, ONE, ONE, ONE, NONE, k));
    assert MulBodies(p, row) == seq(4, k => LimbBody(p, ONE, ONE, ONE, NONE, k));
    GatedByOne(p, SquareBodies(p, row));
    GatedByOne(p, MulBodies(p, row));
    AddZero(p, NUM_STEPS - 1);
    SimpleBodies(p, row, r);
  }

  lemma UnitRowValid(p: int, r: nat)
    requires p > NUM_STEPS
    ensures ValidRow(p, UnitRow(p, r))
  {
    hide FSub;
  }

  lemma UnitCross(p: int, r: nat)
    requires ExpField(p)
    ensures CrossOk(p, UnitRow(p, r), UnitRow(p, r + 1))
  {
    hide FMul, FAdd, FSub, ChosenLimb, Populate, RowOk, CrossOk;
    var row, next := UnitRow(p, r), UnitRow(p, r + 1);
    UnitRowOk(p, r);
    UnitRowOk(p, r + 1);
    PopulateLimbs(ExpRow(ONE, ONE, ONE, NONE, ONE, NONE, 0, FSub(p, NUM_STEPS - 1, r)), NONE, ONE, if r == 0 then 1 else 0);
    PopulateLimbs(ExpRow(ONE, ONE, ONE, NONE, ONE, NONE, 0, FSub(p, NUM_STEPS - 1, r + 1)), NONE, ONE, 0);
    ChosenSelects(p, row);
    SubSub(p, NUM_STEPS - 1, r, 1);
    SubSum(p, NUM_STEPS - 1, r);
    InnerCross(p, row, next);
  }

  lemma SubSum(p: int, a: int, r: int)
    requires p > 1
    ensures FSub(p, a, FAdd(p, r, 1)) == FSub(p, a, r + 1)
  {
    ModSubLeft(p, a, r + 1);
  }

  /** Nothing makes a run stop at, before or after its 256th row: there are accepted runs of every length. */
  lemma AnyLengthRunAccepted(p: int, n: nat)
    requires ExpField(p) && n > 0
    ensures var rows := seq(n, r requires 0 <= r < n => UnitRow(p, r));
      Accepted(p, rows) && Run(p, rows, 0, n - 1)
  {
    hide RowOk, CrossOk, ValidRow, InRanges, FSub;
    forall r: nat ensures ValidRow(p, UnitRow(p, r)) && InRanges(UnitRow(p, r)) && RowOk(p, UnitRow(p, r)) {
      UnitRowOk(p, r);
    }
    forall r: nat ensures CrossOk(p, UnitRow(p, r), UnitRow(p, r + 1)) {
      UnitCross(p, r);
    }
  }

  // ---------------------------------------------------------------- the bits spell the exponent

  lemma HalveQuotient(e: nat, t: int)
    requires t > 0
    ensures e / t == 2 * (e / (2 * t)) + e / t % 2
  {
    var q, r := e / (2 * t), e % (2 * t);
    assert e == 2 * t * q + r;
    if r < t {
      assert e == (2 * q) * t + r;
      ModUnique(t, e, 2 * q, r);
    } else {
      assert e == (2 * q + 1) * t + (r - t);
      ModUnique(t, e, 2 * q + 1, r - t);
    }
  }

  lemma {:induction false} TraceSpells(base: Limbs, exponent: nat, x: Limbs, e: nat)
    requires exponent < Two(NUM_STEPS) && e <= NUM_STEPS
    ensures var rows := Trace(base, exponent, x);
      (forall r :: 0 <= r < e ==> |rows[r]| == COLUMNS && 0 <= rows[r][EXP_BIT]) &&
      Spelled(rows, 0, e) == exponent / Two(NUM_STEPS - e)
  {
    hide WitnessRow;
    var rows := Trace(base, exponent, x);
    forall r | 0 <= r < e ensures |rows[r]| == COLUMNS && rows[r][EXP_BIT] == Bit(exponent, NUM_STEPS - 1 - r) {
      WitnessShape(base, exponent, r);
    }
    if e == 0 {
      ModUnique(Two(NUM_STEPS), exponent, 0, exponent);
    } else {
      TraceSpells(base, exponent, x, e - 1);
      HalveQuotient(exponent, Two(NUM_STEPS - e));
    }
  }

  lemma WitnessIsRun(p: int, base: Limbs, exponent: nat, x: Limbs)
    requires ExpField(p) && base.InRange() && x.InRange()
    ensures Run(p, Trace(base, exponent, x), 0, NUM_STEPS - 1)
  {
    hide WitnessRow, TraceRow, InRanges, ValidRow;
    forall r | 0 <= r < NUM_STEPS
      ensures var row := TraceRow(base, exponent, x, r);
        ValidRow(p, row) && row[ACTIVE] == 1 && InRanges(row) && row[IS_FIRST_ROW] == if r == 0 then 1 else 0
    {
      TraceRowValid(p, base, exponent, x, r);
      TraceLimbs(base, exponent, x, r);
    }
  }
}
