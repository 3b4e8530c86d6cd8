/**
 The EXP gadget: 256-bit square-and-multiply, one exponent bit per row, over 64-bit limbs.
 A row is the vector of its 36 column values. The constraint bodies here are the pointwise ones;
 `ExpPolynomials` relates them to the polynomials the prover builds. `Accepted` asks every limb body
 to vanish; `ExpCheck` says how that compares with the one polynomial that is checked.
 */
module ExpAir {
  import opened PrimeField
  import opened PolyArith
  import opened LimbChain

  const RESULT_IN: nat := 0
  const BASE: nat := 4
  const SQUARED: nat := 8
  const SQUARED_CARRY: nat := 12
  const MUL: nat := 16
  const MUL_CARRY: nat := 20
  const EXP_BIT: nat := 24
  const BIT_INDEX: nat := 25
  const ACTIVE: nat := 26
  const EXPONENT: nat := 27
  const FINAL_OUTPUT: nat := 31
  const IS_FIRST_ROW: nat := 35
  const COLUMNS: nat := 36
  const NUM_STEPS: nat := 256

  /** Columns whose next-row value the cross-row bodies use, in order. */
  const SHIFTED: seq<nat> := [0, 1, 2, 3, 4, 5, 6, 7, 25, 26, 27, 28, 29, 30, 31, 32, 33, 34, 35]

  predicate ValidRow(p: int, row: seq<int>) {
    |row| == COLUMNS && AllInField(p, row)
  }

  function LimbsAt(row: seq<int>, offset: nat): Limbs
    requires |row| == COLUMNS && offset + 4 <= COLUMNS
  {
    Limbs(row[offset], row[offset + 1], row[offset + 2], row[offset + 3])
  }

  /** The next-row values the cross-row bodies see. */
  function Shifted(next: seq<int>): (sh: seq<int>)
    requires |next| == COLUMNS
    ensures |sh| == 19
  {
    seq(19, i requires 0 <= i < 19 => next[SHIFTED[i]])
  }

  // ---------------------------------------------------------------- row-local bodies

  function SquareBody(p: int, row: seq<int>, k: int): (r: int)
    requires p > 1 && |row| == COLUMNS
    ensures InField(p, r)
  {
    LimbBody(p, LimbsAt(row, RESULT_IN), LimbsAt(row, RESULT_IN), LimbsAt(row, SQUARED), LimbsAt(row, SQUARED_CARRY), k)
  }

  function MulBody(p: int, row: seq<int>, k: int): (r: int)
    requires p > 1 && |row| == COLUMNS
    ensures InField(p, r)
  {
    LimbBody(p, LimbsAt(row, SQUARED), LimbsAt(row, BASE), LimbsAt(row, MUL), LimbsAt(row, MUL_CARRY), k)
  }

  /** result_in minus the initial accumulator (1, 0, 0, 0), limb k. */
  function InitBody(p: int, row: seq<int>, k: nat): int
    requires p > 1 && |row| == COLUMNS && k < 4
  {
    if k == 0 then FSub(p, row[RESULT_IN], 1) else row[RESULT_IN + k]
  }

  function Binary(p: int, x: int): (r: int)
    requires p > 1
    ensures InField(p, r)
  {
    FMul(p, x, FSub(p, x, 1))
  }

  /** The seven bodies of `evaluate_row_local_at_point`, limb groups mixed with powers of beta. */
  function RowLocalBodies(p: int, row: seq<int>, beta: int): (r: seq<int>)
    requires p > 1 && |row| == COLUMNS
    ensures |r| == 7
  {
    [ FMul(p, row[ACTIVE], Binary(p, row[EXP_BIT])),
      Binary(p, row[ACTIVE]),
      FMul(p, row[ACTIVE], Eval(p, SquareBodies(p, row), beta)),
      FMul(p, row[ACTIVE], Eval(p, MulBodies(p, row), beta)),
      Binary(p, row[IS_FIRST_ROW]),
      FMul(p, row[IS_FIRST_ROW], FSub(p, row[BIT_INDEX], NUM_STEPS - 1)),
      FMul(p, row[IS_FIRST_ROW], Eval(p, InitBodies(p, row), beta)) ]
  }

  function SquareBodies(p: int, row: seq<int>): (r: seq<int>)
    requires p > 1 && |row| == COLUMNS
    ensures |r| == 4
  {
    seq(4, k => SquareBody(p, row, k))
  }

  function MulBodies(p: int, row: seq<int>): (r: seq<int>)
    requires p > 1 && |row| == COLUMNS
    ensures |r| == 4
  {
    seq(4, k => MulBody(p, row, k))
  }

  function InitBodies(p: int, row: seq<int>): (r: seq<int>)
    requires p > 1 && |row| == COLUMNS
    ensures |r| == 4
  {
    seq(4, k requires 0 <= k < 4 => InitBody(p, row, k))
  }

  /** Every row-local body vanishes, limb by limb. */
  predicate RowOk(p: int, row: seq<int>)
    requires p > 1 && |row| == COLUMNS
  {
    && FMul(p, row[ACTIVE], Binary(p, row[EXP_BIT])) == 0
    && Binary(p, row[ACTIVE]) == 0
    && Gated(p, row[ACTIVE], SquareBodies(p, row))
    && Gated(p, row[ACTIVE], MulBodies(p, row))
    && Binary(p, row[IS_FIRST_ROW]) == 0
    && FMul(p, row[IS_FIRST_ROW], FSub(p, row[BIT_INDEX], NUM_STEPS - 1)) == 0
    && Gated(p, row[IS_FIRST_ROW], InitBodies(p, row))
  }

  predicate Gated(p: int, gate: int, bodies: seq<int>)
    requires p > 1
  {
    forall k :: 0 <= k < |bodies| ==> FMul(p, gate, bodies[k]) == 0
  }

  // ---------------------------------------------------------------- cross-row bodies

  /** exp_bit * mul + (1 - exp_bit) * squared, limb i. */
  function ChosenLimb(p: int, row: seq<int>, i: nat): (r: int)
    requires p > 1 && |row| == COLUMNS && i < 4
    ensures InField(p, r)
  {
    FAdd(p, FMul(p, row[EXP_BIT], row[MUL + i]), FMul(p, FSub(p, 1, row[EXP_BIT]), row[SQUARED + i]))
  }

  /** 1 exactly when the next row continues the same invocation. */
  function Continues(p: int, sh: seq<int>): int
    requires p > 1 && |sh| == 19
  {
    FMul(p, sh[9], FSub(p, 1, sh[18]))
  }

  /** Nonzero when this active row is the last of its invocation. */
  function LastIndicator(p: int, row: seq<int>, sh: seq<int>): int
    requires p > 1 && |row| == COLUMNS && |sh| == 19
  {
    FMul(p, row[ACTIVE], FAdd(p, sh[18], FSub(p, 1, sh[9])))
  }

  function Differences(p: int, row: seq<int>, sh: seq<int>, shifted: nat, offset: nat): (r: seq<int>)
    requires p > 1 && |row| == COLUMNS && |sh| == 19 && shifted + 4 <= 19 && offset + 4 <= COLUMNS
    ensures |r| == 4
  {
    seq(4, i requires 0 <= i < 4 => FSub(p, sh[shifted + i], row[offset + i]))
  }

  function ResultDifferences(p: int, row: seq<int>, sh: seq<int>): (r: seq<int>)
    requires p > 1 && |row| == COLUMNS && |sh| == 19
    ensures |r| == 4
  {
    seq(4, i requires 0 <= i < 4 => FSub(p, sh[i], ChosenLimb(p, row, i)))
  }

  function OutputDifferences(p: int, row: seq<int>): (r: seq<int>)
    requires p > 1 && |row| == COLUMNS
    ensures |r| == 4
  {
    seq(4, i requires 0 <= i < 4 => FSub(p, row[FINAL_OUTPUT + i], ChosenLimb(p, row, i)))
  }

  function BitStep(p: int, row: seq<int>, sh: seq<int>): int
    requires p > 1 && |row| == COLUMNS && |sh| == 19
  {
    FMul(p, FSub(p, 1, sh[18]), FSub(p, sh[8], FSub(p, row[BIT_INDEX], sh[9])))
  }

  /** Each body multiplied by the gate, as the code gates limb bodies before mixing them. */
  function GateAll(p: int, gate: int, bodies: seq<int>): (r: seq<int>)
    requires p > 1
    ensures |r| == |bodies|
  {
    seq(|bodies|, i requires 0 <= i < |bodies| => FMul(p, gate, bodies[i]))
  }

  /** The six bodies of `evaluate_cross_row_at_point`. */
  function CrossRowBodies(p: int, row: seq<int>, sh: seq<int>, beta: int): (r: seq<int>)
    requires p > 1 && |row| == COLUMNS && |sh| == 19
    ensures |r| == 6
  {
    var c := Continues(p, sh);
    [ Eval(p, GateAll(p, c, ResultDifferences(p, row, sh)), beta),
      Eval(p, GateAll(p, c, Differences(p, row, sh, 4, BASE)), beta),
      BitStep(p, row, sh),
      Eval(p, GateAll(p, c, Differences(p, row, sh, 10, EXPONENT)), beta),
      Eval(p, GateAll(p, c, Differences(p, row, sh, 14, FINAL_OUTPUT)), beta),
      Eval(p, GateAll(p, LastIndicator(p, row, sh), OutputDifferences(p, row)), beta) ]
  }

  /** Every cross-row body vanishes, limb by limb. */
  predicate CrossOk(p: int, row: seq<int>, next: seq<int>)
    requires p > 1 && |row| == COLUMNS && |next| == COLUMNS
  {
    var sh := Shifted(next);
    var c := Continues(p, sh);
    && Gated(p, c, ResultDifferences(p, row, sh))
    && Gated(p, c, Differences(p, row, sh, 4, BASE))
    && BitStep(p, row, sh) == 0
    && Gated(p, c, Differences(p, row, sh, 10, EXPONENT))
    && Gated(p, c, Differences(p, row, sh, 14, FINAL_OUTPUT))
    && Gated(p, LastIndicator(p, row, sh), OutputDifferences(p, row))
  }

  /** Row-local bodies vanish on every row, cross-row bodies on every row but the last. */
  predicate Accepted(p: int, rows: seq<seq<int>>)
    requires p > 1
  {
    && (forall r :: 0 <= r < |rows| ==> ValidRow(p, rows[r]) && RowOk(p, rows[r]))
    && (forall r :: 0 <= r < |rows| - 1 ==> CrossOk(p, rows[r], rows[r + 1]))
  }

  // ---------------------------------------------------------------- mixing and separating

  /** The mixed body of a gated group vanishes for the challenge beta. */
  predicate MixVanishes(p: int, gate: int, bodies: seq<int>, beta: int)
    requires p > 1
  {
    FMul(p, gate, Eval(p, bodies, beta)) == 0
  }

  lemma MixIsScaled(p: int, gate: int, bodies: seq<int>, beta: int)
    requires p > 1
    ensures FMul(p, gate, Eval(p, bodies, beta)) == Eval(p, PolyScalarMul(p, bodies, gate), beta)
  {
    hide FMul, FAdd;
    EvalScalarMul(p, bodies, gate, beta);
    MulComm(p, gate, Eval(p, bodies, beta));
  }

  lemma ScaledZeroIff(p: int, gate: int, bodies: seq<int>)
    requires p > 1
    ensures AllZero(PolyScalarMul(p, bodies, gate)) <==> Gated(p, gate, bodies)
  {
    hide FMul;
    var scaled := PolyScalarMul(p, bodies, gate);
    forall k | 0 <= k < |bodies|
      ensures scaled[k] == FMul(p, gate, bodies[k])
    {
      MulComm(p, gate, bodies[k]);
    }
  }

  /** As many distinct challenges as limbs separate the mix: if it vanishes for all of them, each limb body vanishes. */
  lemma ChallengesSeparate(p: int, gate: int, bodies: seq<int>, bs: seq<int>)
    requires IsPrime(p) && AllInField(p, bs) && Distinct(bs) && |bs| >= |bodies|
    requires forall i :: 0 <= i < |bs| ==> MixVanishes(p, gate, bodies, bs[i])
    ensures Gated(p, gate, bodies)
  {
    hide FMul, FAdd, PolyScalarMul;
    var scaled := PolyScalarMul(p, bodies, gate);
    forall i | 0 <= i < |bs|
      ensures Eval(p, scaled, bs[i]) == 0
    {
      assert MixVanishes(p, gate, bodies, bs[i]);
      MixIsScaled(p, gate, bodies, bs[i]);
    }
    RootBound(p, scaled, bs);
    ScaledZeroIff(p, gate, bodies);
  }

  /** A gated group vanishes limb by limb exactly when its mix vanishes for every challenge. */
  lemma GroupVanishesIff(p: int, gate: int, bodies: seq<int>)
    requires IsPrime(p) && p >= 4 && |bodies| == 4
    ensures Gated(p, gate, bodies) <==> forall beta :: InField(p, beta) ==> MixVanishes(p, gate, bodies, beta)
  {
    hide FMul, FAdd, Eval;
    if Gated(p, gate, bodies) {
      ScaledZeroIff(p, gate, bodies);
      forall beta
        ensures MixVanishes(p, gate, bodies, beta)
      {
        MixIsScaled(p, gate, bodies, beta);
        EvalZeros(p, PolyScalarMul(p, bodies, gate), beta);
      }
    } else if forall beta :: InField(p, beta) ==> MixVanishes(p, gate, bodies, beta) {
      ChallengesSeparate(p, gate, bodies, [0, 1, 2, 3]);
    }
  }

  /** A row passes limb by limb exactly when all seven mixed bodies vanish for every challenge. */
  lemma RowOkIff(p: int, row: seq<int>)
    requires IsPrime(p) && p >= 4 && ValidRow(p, row)
    ensures RowOk(p, row) <==> forall beta :: InField(p, beta) ==> AllZero(RowLocalBodies(p, row, beta))
  {
    hide FMul, FSub, FAdd, Eval, RowOk, RowLocalBodies, RowMixVanishes, MixVanishes, Gated, AllZero;
    hide SquareBodies, MulBodies, InitBodies;
    GroupVanishesIff(p, row[ACTIVE], SquareBodies(p, row));
    GroupVanishesIff(p, row[ACTIVE], MulBodies(p, row));
    GroupVanishesIff(p, row[IS_FIRST_ROW], InitBodies(p, row));
    forall beta
      ensures AllZero(RowLocalBodies(p, row, beta)) <==> RowMixVanishes(p, row, beta)
    {
      RowBodiesZero(p, row, beta);
    }
    RowOkMixes(p, row);
  }

  lemma RowOkMixes(p: int, row: seq<int>)
    requires p > 1 && ValidRow(p, row)
    requires Gated(p, row[ACTIVE], SquareBodies(p, row)) <==>
      forall beta :: InField(p, beta) ==> MixVanishes(p, row[ACTIVE], SquareBodies(p, row), beta)
    requires Gated(p, row[ACTIVE], MulBodies(p, row)) <==>
      forall beta :: InField(p, beta) ==> MixVanishes(p, row[ACTIVE], MulBodies(p, row), beta)
    requires Gated(p, row[IS_FIRST_ROW], InitBodies(p, row)) <==>
      forall beta :: InField(p, beta) ==> MixVanishes(p, row[IS_FIRST_ROW], InitBodies(p, row), beta)
    ensures RowOk(p, row) <==> forall beta :: InField(p, beta) ==> RowMixVanishes(p, row, beta)
  {
    hide FMul, FSub, FAdd, Binary, Gated, SquareBodies, MulBodies, InitBodies, MixVanishes;
    if forall beta :: InField(p, beta) ==> RowMixVanishes(p, row, beta) {
      assert InField(p, 0) && RowMixVanishes(p, row, 0);
    }
  }

  predicate RowMixVanishes(p: int, row: seq<int>, beta: int)
    requires p > 1 && |row| == COLUMNS
  {
    && FMul(p, row[ACTIVE], Binary(p, row[EXP_BIT])) == 0
    && Binary(p, row[ACTIVE]) == 0
    && MixVanishes(p, row[ACTIVE], SquareBodies(p, row), beta)
    && MixVanishes(p, row[ACTIVE], MulBodies(p, row), beta)
    && Binary(p, row[IS_FIRST_ROW]) == 0
    && FMul(p, row[IS_FIRST_ROW], FSub(p, row[BIT_INDEX], NUM_STEPS - 1)) == 0
    && MixVanishes(p, row[IS_FIRST_ROW], InitBodies(p, row), beta)
  }

  lemma RowBodiesZero(p: int, row: seq<int>, beta: int)
    requires p > 1 && |row| == COLUMNS
    ensures AllZero(RowLocalBodies(p, row, beta)) <==> RowMixVanishes(p, row, beta)
  {
    hide FMul, FSub, FAdd, Binary, SquareBodies, MulBodies, InitBodies, Eval;
    var b := RowLocalBodies(p, row, beta);
    if AllZero(b) {
      assert b[0] == 0 && b[1] == 0 && b[2] == 0 && b[3] == 0 && b[4] == 0 && b[5] == 0 && b[6] == 0;
    }
  }

  // ---------------------------------------------------------------- one row

  /** The ranges the gadget leaves to lookups it does not declare: 64-bit limbs, 66-bit carries. */
  predicate InRanges(row: seq<int>)
    requires |row| == COLUMNS
  {
    && LimbsAt(row, RESULT_IN).InRange() && LimbsAt(row, BASE).InRange()
    && LimbsAt(row, SQUARED).InRange() && LimbsAt(row, SQUARED_CARRY).CarriesInRange()
    && LimbsAt(row, MUL).InRange() && LimbsAt(row, MUL_CARRY).CarriesInRange()
  }

  ghost predicate ExpField(p: int) {
    IsPrime(p) && p >= 8 * B * B
  }

  lemma BinaryValues(p: int, x: int)
    requires IsPrime(p) && InField(p, x) && Binary(p, x) == 0
    ensures x == 0 || x == 1
  {
    NoZeroDivisors(p, x, FSub(p, x, 1));
    SubZeroIff(p, x, 1);
  }

  lemma GateOpen(p: int, bodies: seq<int>)
    requires p > 1 && Gated(p, 1, bodies) && AllInField(p, bodies)
    ensures AllZero(bodies)
  {
    forall k | 0 <= k < |bodies| ensures bodies[k] == 0 {
      MulOne(p, bodies[k]);
    }
  }

  /** An accepted active row squares its accumulator and multiplies by the base, modulo 2^256. */
  lemma RowComputes(p: int, row: seq<int>)
    requires ExpField(p) && ValidRow(p, row) && RowOk(p, row) && InRanges(row) && row[ACTIVE] == 1
    ensures row[EXP_BIT] == 0 || row[EXP_BIT] == 1
    ensures LimbsAt(row, SQUARED).Value() ==
      (LimbsAt(row, RESULT_IN).Value() * LimbsAt(row, RESULT_IN).Value()) % M
    ensures LimbsAt(row, MUL).Value() ==
      (LimbsAt(row, SQUARED).Value() * LimbsAt(row, BASE).Value()) % M
  {
    hide FMul, FSub, FAdd, LimbBody;
    MulOne(p, Binary(p, row[EXP_BIT]));
    BinaryValues(p, row[EXP_BIT]);
    GateOpen(p, SquareBodies(p, row));
    GateOpen(p, MulBodies(p, row));
    var a, s, cs := LimbsAt(row, RESULT_IN), LimbsAt(row, SQUARED), LimbsAt(row, SQUARED_CARRY);
    var b, m, cm := LimbsAt(row, BASE), LimbsAt(row, MUL), LimbsAt(row, MUL_CARRY);
    forall k | 0 <= k < 4
      ensures LimbEquation(a, a, s, cs, k) && LimbEquation(s, b, m, cm, k)
    {
      assert SquareBodies(p, row)[k] == 0 && MulBodies(p, row)[k] == 0;
      LimbBodyExact(p, a, a, s, cs, k);
      LimbBodyExact(p, s, b, m, cm, k);
    }
    ChainExact(a, a, s, cs);
    ChainExact(s, b, m, cm);
  }

  /** The value an active row passes on. */
  function Chosen(p: int, row: seq<int>): Limbs
    requires p > 1 && |row| == COLUMNS
  {
    Limbs(ChosenLimb(p, row, 0), ChosenLimb(p, row, 1), ChosenLimb(p, row, 2), ChosenLimb(p, row, 3))
  }

  lemma ChosenSelects(p: int, row: seq<int>)
    requires p > 1 && ValidRow(p, row) && (row[EXP_BIT] == 0 || row[EXP_BIT] == 1)
    ensures Chosen(p, row) == if row[EXP_BIT] == 1 then LimbsAt(row, MUL) else LimbsAt(row, SQUARED)
  {
    forall i | 0 <= i < 4
      ensures ChosenLimb(p, row, i) == if row[EXP_BIT] == 1 then row[MUL + i] else row[SQUARED + i]
    {
      SelectOne(p, row[EXP_BIT], row[MUL + i], row[SQUARED + i]);
    }
  }

  lemma SelectOne(p: int, e: int, m: int, s: int)
    requires p > 1 && (e == 0 || e == 1) && InField(p, m) && InField(p, s)
    ensures FAdd(p, FMul(p, e, m), FMul(p, FSub(p, 1, e), s)) == if e == 1 then m else s
  {
    ModSmall(p, 1);
    ModSmall(p, 0);
    MulOne(p, m);
    MulOne(p, s);
    MulZero(p, m);
    MulZero(p, s);
    AddZero(p, m);
    AddZero(p, s);
  }

  // ---------------------------------------------------------------- whole runs

  function Pow(b: int, e: nat): int {
    if e == 0 then 1 else b * Pow(b, e - 1)
  }

  lemma {:induction false} PowAdd(b: int, e: nat, f: nat)
    ensures Pow(b, e + f) == Pow(b, e) * Pow(b, f)
  {
    if e > 0 {
      PowAdd(b, e - 1, f);
      assert b * (Pow(b, e - 1) * Pow(b, f)) == (b * Pow(b, e - 1)) * Pow(b, f);
    }
  }

  /** The number spelled by the exponent bits of rows s..e, most significant first. */
  function Spelled(rows: seq<seq<int>>, s: nat, e: nat): nat
    requires s <= e <= |rows| && forall r :: s <= r < e ==> |rows[r]| == COLUMNS && 0 <= rows[r][EXP_BIT]
    decreases e
  {
    if s == e then 0 else 2 * Spelled(rows, s, e - 1) + rows[e - 1][EXP_BIT]
  }

  /** Rows s..e form one invocation so far: it starts at s, every row is active, none restarts. */
  predicate Run(p: int, rows: seq<seq<int>>, s: nat, e: nat) {
    && s <= e < |rows|
    && (forall r :: s <= r <= e ==> ValidRow(p, rows[r]) && rows[r][ACTIVE] == 1 && InRanges(rows[r]))
    && rows[s][IS_FIRST_ROW] == 1
    && (forall r :: s < r <= e ==> rows[r][IS_FIRST_ROW] != 1)
  }

  lemma ContinuesIsOne(p: int, next: seq<int>)
    requires p > 1 && |next| == COLUMNS && next[ACTIVE] == 1 && next[IS_FIRST_ROW] == 0
    ensures Continues(p, Shifted(next)) == 1
  {
    ModSmall(p, 1);
    MulOne(p, 1);
  }

  lemma RowLocal(p: int, rows: seq<seq<int>>, r: nat)
    requires p > 1 && Accepted(p, rows) && r < |rows|
    ensures Binary(p, rows[r][IS_FIRST_ROW]) == 0 && Binary(p, rows[r][ACTIVE]) == 0
  {
    assert RowOk(p, rows[r]);
  }

  /** Within a run the next row receives the chosen value, and base, bit index and output columns carry over. */
  lemma RunStep(p: int, rows: seq<seq<int>>, s: nat, e: nat)
    requires ExpField(p) && Accepted(p, rows) && Run(p, rows, s, e) && s < e
    ensures LimbsAt(rows[e], RESULT_IN) == Chosen(p, rows[e - 1])
    ensures LimbsAt(rows[e], BASE) == LimbsAt(rows[e - 1], BASE)
    ensures LimbsAt(rows[e], FINAL_OUTPUT) == LimbsAt(rows[e - 1], FINAL_OUTPUT)
    ensures rows[e][BIT_INDEX] == FSub(p, rows[e - 1][BIT_INDEX], 1)
  {
    hide FMul, FSub, FAdd, ChosenLimb, RowOk;
    var row, next := rows[e - 1], rows[e];
    assert CrossOk(p, row, rows[e - 1 + 1]);
    assert Binary(p, next[IS_FIRST_ROW]) == 0 by { RowLocal(p, rows, e); }
    BinaryValues(p, next[IS_FIRST_ROW]);
    var sh := Shifted(next);
    ContinuesIsOne(p, next);
    GateOpen(p, ResultDifferences(p, row, sh));
    GateOpen(p, Differences(p, row, sh, 4, BASE));
    GateOpen(p, Differences(p, row, sh, 14, FINAL_OUTPUT));
    forall i | 0 <= i < 4
      ensures next[RESULT_IN + i] == ChosenLimb(p, row, i)
      ensures next[BASE + i] == row[BASE + i] && next[FINAL_OUTPUT + i] == row[FINAL_OUTPUT + i]
    {
      assert ResultDifferences(p, row, sh)[i] == 0 && Differences(p, row, sh, 4, BASE)[i] == 0;
      assert Differences(p, row, sh, 14, FINAL_OUTPUT)[i] == 0;
      SubZeroIff(p, next[RESULT_IN + i], ChosenLimb(p, row, i));
      SubZeroIff(p, next[BASE + i], row[BASE + i]);
      SubZeroIff(p, next[FINAL_OUTPUT + i], row[FINAL_OUTPUT + i]);
    }
    AddZero(p, 1);
    var d := FSub(p, row[BIT_INDEX], 1);
    MulOne(p, FSub(p, next[BIT_INDEX], d));
    SubZeroIff(p, next[BIT_INDEX], d);
  }

  /** The first row of a run starts from 1 at bit 255. */
  lemma RunStart(p: int, row: seq<int>)
    requires ExpField(p) && ValidRow(p, row) && RowOk(p, row) && row[IS_FIRST_ROW] == 1
    ensures LimbsAt(row, RESULT_IN) == Limbs(1, 0, 0, 0) && row[BIT_INDEX] == NUM_STEPS - 1
  {
    hide FMul, FSub, FAdd, SquareBodies, MulBodies;
    GateOpen(p, InitBodies(p, row));
    var b := InitBodies(p, row);
    assert b[0] == 0 && b[1] == 0 && b[2] == 0 && b[3] == 0;
    SubZeroIff(p, row[RESULT_IN], 1);
    MulOne(p, FSub(p, row[BIT_INDEX], NUM_STEPS - 1));
    SubZeroIff(p, row[BIT_INDEX], NUM_STEPS - 1);
  }

  /** What one row does to a power: square it, and multiply by the base if the bit is set. */
  lemma PowerStep(m: int, b: int, e: nat, bit: int, r: int, sq: int, mul: int)
    requires m > 0 && (bit == 0 || bit == 1)
    requires r == Pow(b, e) % m && sq == FMul(m, r, r) && mul == FMul(m, sq, b)
    ensures (if bit == 1 then mul else sq) == Pow(b, 2 * e + bit) % m
  {
    var w, v := Pow(b, e), Pow(b, 2 * e);
    PowAdd(b, e, e);
    ModMul(m, w, w);
    assert sq == v % m;
    ModMulLeft(m, v, b);
    MulComm(m, v, b);
  }

  lemma SpelledBits(p: int, rows: seq<seq<int>>, s: nat, e: nat)
    requires p > 1 && Run(p, rows, s, e)
    ensures forall r :: s <= r <= e ==> |rows[r]| == COLUMNS && 0 <= rows[r][EXP_BIT]
  {
    assert forall r :: s <= r <= e ==> ValidRow(p, rows[r]);
  }

  /** The accumulator entering row e is the base raised to the bits read so far. */
  lemma {:induction false} AccumulatorIsPower(p: int, rows: seq<seq<int>>, s: nat, e: nat)
    requires ExpField(p) && Accepted(p, rows) && Run(p, rows, s, e)
    ensures LimbsAt(rows[e], BASE) == LimbsAt(rows[s], BASE)
    ensures forall r :: s <= r <= e ==> |rows[r]| == COLUMNS && 0 <= rows[r][EXP_BIT]
    ensures LimbsAt(rows[e], RESULT_IN).Value() == Pow(LimbsAt(rows[s], BASE).Value(), Spelled(rows, s, e)) % M
    decreases e
  {
    hide RowOk, CrossOk, Chosen, FSub;
    SpelledBits(p, rows, s, e);
    if e == s {
      RunStart(p, rows[s]);
      ModSmall(M, 1);
    } else {
      AccumulatorIsPower(p, rows, s, e - 1);
      RunOutput(p, rows, s, e - 1);
      RunStep(p, rows, s, e);
    }
  }

  lemma RunOutput(p: int, rows: seq<seq<int>>, s: nat, e: nat)
    requires ExpField(p) && Accepted(p, rows) && Run(p, rows, s, e)
    requires forall r :: s <= r <= e ==> |rows[r]| == COLUMNS && 0 <= rows[r][EXP_BIT]
    requires LimbsAt(rows[e], BASE) == LimbsAt(rows[s], BASE)
    requires LimbsAt(rows[e], RESULT_IN).Value() == Pow(LimbsAt(rows[s], BASE).Value(), Spelled(rows, s, e)) % M
    ensures Chosen(p, rows[e]).Value() == Pow(LimbsAt(rows[s], BASE).Value(), Spelled(rows, s, e + 1)) % M
    ensures Chosen(p, rows[e]).InRange()
  {
    hide RowOk, CrossOk, Chosen;
    var row := rows[e];
    RowComputes(p, row);
    ChosenSelects(p, row);
    PowerStep(M, LimbsAt(rows[s], BASE).Value(), Spelled(rows, s, e), row[EXP_BIT],
      LimbsAt(row, RESULT_IN).Value(), LimbsAt(row, SQUARED).Value(), LimbsAt(row, MUL).Value());
  }

  /**
   Soundness: on a trace where every body vanishes, the value chosen in the last row of a run is
   base^E mod 2^256, with E the number its exponent bits spell.
   */
  lemma ExpSound(p: int, rows: seq<seq<int>>, s: nat, e: nat)
    requires ExpField(p) && Accepted(p, rows) && Run(p, rows, s, e)
    ensures forall r :: s <= r <= e ==> |rows[r]| == COLUMNS && 0 <= rows[r][EXP_BIT]
    ensures Chosen(p, rows[e]).Value() == Pow(LimbsAt(rows[s], BASE).Value(), Spelled(rows, s, e + 1)) % M
    ensures Chosen(p, rows[e]).InRange()
  {
    hide RowOk, CrossOk, Chosen;
    AccumulatorIsPower(p, rows, s, e);
    RunOutput(p, rows, s, e);
  }

  lemma {:induction false} FinalOutputConstant(p: int, rows: seq<seq<int>>, s: nat, e: nat, r: nat)
    requires ExpField(p) && Accepted(p, rows) && Run(p, rows, s, e) && s <= r <= e
    ensures LimbsAt(rows[r], FINAL_OUTPUT) == LimbsAt(rows[e], FINAL_OUTPUT)
    decreases e - r
  {
    hide RowOk, CrossOk, Chosen, FSub;
    if r < e {
      FinalOutputConstant(p, rows, s, e, r + 1);
      RunStep(p, rows, s, r + 1);
    }
  }

  /** If the run ends before the last domain row, FINAL_OUTPUT holds the power on each of its rows. */
  lemma FinalOutputSound(p: int, rows: seq<seq<int>>, s: nat, e: nat, r: nat)
    requires ExpField(p) && Accepted(p, rows) && Run(p, rows, s, e) && s <= r <= e
    requires e + 1 < |rows| && (rows[e + 1][ACTIVE] != 1 || rows[e + 1][IS_FIRST_ROW] == 1)
    ensures forall k :: s <= k <= e ==> |rows[k]| == COLUMNS && 0 <= rows[k][EXP_BIT]
    ensures LimbsAt(rows[r], FINAL_OUTPUT).Value() ==
      Pow(LimbsAt(rows[s], BASE).Value(), Spelled(rows, s, e + 1)) % M
  {
    hide FMul, FSub, FAdd, RowOk, ChosenLimb;
    var row, next := rows[e], rows[e + 1];
    ExpSound(p, rows, s, e);
    FinalOutputConstant(p, rows, s, e, r);
    assert CrossOk(p, row, next);
    var sh := Shifted(next);
    var last := LastIndicator(p, row, sh);
    assert InField(p, last) && last != 0 by {
      RowLocal(p, rows, e + 1);
      LastFires(p, row, next);
    }
    forall i | 0 <= i < 4
      ensures row[FINAL_OUTPUT + i] == ChosenLimb(p, row, i)
    {
      var d := OutputDifferences(p, row)[i];
      assert FMul(p, last, d) == 0;
      NoZeroDivisors(p, last, d);
      SubZeroIff(p, row[FINAL_OUTPUT + i], ChosenLimb(p, row, i));
    }
    assert LimbsAt(row, FINAL_OUTPUT) == Chosen(p, row);
  }

  lemma LastFires(p: int, row: seq<int>, next: seq<int>)
    requires ExpField(p) && ValidRow(p, row) && ValidRow(p, next)
    requires row[ACTIVE] == 1 && (next[ACTIVE] != 1 || next[IS_FIRST_ROW] == 1)
    requires Binary(p, next[IS_FIRST_ROW]) == 0 && Binary(p, next[ACTIVE]) == 0
    ensures InField(p, LastIndicator(p, row, Shifted(next))) && LastIndicator(p, row, Shifted(next)) != 0
  {
    BinaryValues(p, next[IS_FIRST_ROW]);
    BinaryValues(p, next[ACTIVE]);
    ModSmall(p, 0);
    ModSmall(p, 1);
    ModSmall(p, 2);
  }

  /** The bit index counts down from 255 modulo the field order. */
  lemma {:induction false} BitIndexCounts(p: int, rows: seq<seq<int>>, s: nat, e: nat)
    requires ExpField(p) && Accepted(p, rows) && Run(p, rows, s, e)
    ensures rows[e][BIT_INDEX] == FSub(p, NUM_STEPS - 1, e - s)
    decreases e
  {
    hide RowOk, CrossOk, Chosen;
    if e == s {
      RunStart(p, rows[s]);
      AddZero(p, NUM_STEPS - 1);
    } else {
      BitIndexCounts(p, rows, s, e - 1);
      RunStep(p, rows, s, e);
      ModSubLeft(p, NUM_STEPS - 1 - (e - 1 - s), 1);
    }
  }

  /** A run that counts down to 0 in a trace shorter than the field has exactly 256 rows. */
  lemma FullRunLength(p: int, rows: seq<seq<int>>, s: nat, e: nat)
    requires ExpField(p) && Accepted(p, rows) && Run(p, rows, s, e) && |rows| <= p - NUM_STEPS
    ensures rows[e][BIT_INDEX] == 0 <==> e == s + NUM_STEPS - 1
  {
    BitIndexCounts(p, rows, s, e);
    var d := NUM_STEPS - 1 - (e - s);
    if d >= 0 {
      ModSmall(p, d);
    } else {
      ModShift(p, d, 1);
      ModSmall(p, d + p);
    }
  }

  predicate LimbsInField(p: int, x: Limbs) {
    InField(p, x.l0) && InField(p, x.l1) && InField(p, x.l2) && InField(p, x.l3)
  }

  /** The next row continues the invocation of the one before it. */
  predicate Continuing(next: seq<int>)
    requires |next| == COLUMNS
  {
    next[ACTIVE] == 1 && next[IS_FIRST_ROW] == 0
  }

  function WithExponent(row: seq<int>, x: Limbs): (r: seq<int>)
    requires |row| == COLUMNS
    ensures |r| == COLUMNS
  {
    row[EXPONENT := x.l0][EXPONENT + 1 := x.l1][EXPONENT + 2 := x.l2][EXPONENT + 3 := x.l3]
  }

  /** The trace with its EXPONENT columns replaced. */
  function WithExponents(rows: seq<seq<int>>, xs: seq<Limbs>): (r: seq<seq<int>>)
    requires |xs| == |rows| && forall r :: 0 <= r < |rows| ==> |rows[r]| == COLUMNS
    ensures |r| == |rows|
  {
    seq(|rows|, r requires 0 <= r < |rows| => WithExponent(rows[r], xs[r]))
  }

  /**
   Nothing ties EXPONENT to the exponent bits: replacing its values in an accepted trace is accepted
   exactly when they are constant across every step that continues an invocation.
   */
  lemma ExponentUnconstrained(p: int, rows: seq<seq<int>>, xs: seq<Limbs>)
    requires IsPrime(p) && Accepted(p, rows) && |xs| == |rows|
    requires forall r :: 0 <= r < |xs| ==> LimbsInField(p, xs[r])
    requires forall r :: 0 <= r < |rows| ==> |rows[r]| == COLUMNS
    ensures Accepted(p, WithExponents(rows, xs)) <==>
            forall r :: 0 <= r < |rows| - 1 && Continuing(rows[r + 1]) ==> xs[r] == xs[r + 1]
  {
    hide RowOk, CrossOk, ValidRow, WithExponent, LimbsInField, Continuing;
    var out := WithExponents(rows, xs);
    forall r | 0 <= r < |rows| ensures ValidRow(p, out[r]) && RowOk(p, out[r]) {
      assert ValidRow(p, rows[r]) && RowOk(p, rows[r]);
      ExponentNotRead(p, rows[r], xs[r]);
    }
    forall r | 0 <= r < |rows| - 1
      ensures CrossOk(p, out[r], out[r + 1]) <==> (Continuing(rows[r + 1]) ==> xs[r] == xs[r + 1])
    {
      assert CrossOk(p, rows[r], rows[r + 1]) && RowOk(p, rows[r + 1]);
      ExponentChained(p, rows[r], rows[r + 1], xs[r], xs[r + 1]);
    }
    if Accepted(p, out) {
      forall r | 0 <= r < |rows| - 1 && Continuing(rows[r + 1]) ensures xs[r] == xs[r + 1] {
        assert CrossOk(p, out[r], out[r + 1]);
      }
    }
  }

  lemma ExponentNotRead(p: int, row: seq<int>, x: Limbs)
    requires p > 1 && ValidRow(p, row) && RowOk(p, row) && LimbsInField(p, x)
    ensures ValidRow(p, WithExponent(row, x)) && RowOk(p, WithExponent(row, x))
  {
    hide FMul, FSub, FAdd, LimbBody, Binary, Gated;
    var out := WithExponent(row, x);
    assert SquareBodies(p, out) == SquareBodies(p, row) && MulBodies(p, out) == MulBodies(p, row);
    assert InitBodies(p, out) == InitBodies(p, row);
  }

  /** The only body that reads EXPONENT is its invariance, which fires on continuing steps alone. */
  lemma ExponentChained(p: int, row: seq<int>, next: seq<int>, x: Limbs, y: Limbs)
    requires IsPrime(p) && ValidRow(p, row) && ValidRow(p, next) && CrossOk(p, row, next) && RowOk(p, next)
    requires LimbsInField(p, x) && LimbsInField(p, y)
    ensures CrossOk(p, WithExponent(row, x), WithExponent(next, y)) <==> (Continuing(next) ==> x == y)
  {
    hide FMul, FSub, FAdd, LimbBody, InitBodies, SquareBodies, MulBodies;
    var row', next' := WithExponent(row, x), WithExponent(next, y);
    var sh, sh' := Shifted(next), Shifted(next');
    assert ResultDifferences(p, row', sh') == ResultDifferences(p, row, sh);
    assert Differences(p, row', sh', 4, BASE) == Differences(p, row, sh, 4, BASE);
    assert Differences(p, row', sh', 14, FINAL_OUTPUT) == Differences(p, row, sh, 14, FINAL_OUTPUT);
    assert OutputDifferences(p, row') == OutputDifferences(p, row);
    var c := Continues(p, sh);
    assert c == if Continuing(next) then 1 else 0 by { ContinuesValue(p, next); }
    LimbDifferences(p, row', sh', x, y, c);
  }

  lemma ContinuesValue(p: int, next: seq<int>)
    requires IsPrime(p) && ValidRow(p, next) && Binary(p, next[ACTIVE]) == 0 && Binary(p, next[IS_FIRST_ROW]) == 0
    ensures Continues(p, Shifted(next)) == if Continuing(next) then 1 else 0
  {
    BinaryValues(p, next[ACTIVE]);
    BinaryValues(p, next[IS_FIRST_ROW]);
    ModSmall(p, 0);
    ModSmall(p, 1);
  }

  lemma LimbDifferences(p: int, row: seq<int>, sh: seq<int>, x: Limbs, y: Limbs, c: int)
    requires p > 1 && |row| == COLUMNS && |sh| == 19 && LimbsInField(p, x) && LimbsInField(p, y) && 0 <= c <= 1
    requires LimbsAt(row, EXPONENT) == x && Limbs(sh[10], sh[11], sh[12], sh[13]) == y
    ensures Gated(p, c, Differences(p, row, sh, 10, EXPONENT)) <==> (c == 1 ==> x == y)
  {
    hide FSub, FMul;
    var d := Differences(p, row, sh, 10, EXPONENT);
    forall i | 0 <= i < 4 ensures FMul(p, c, d[i]) == if c == 1 then d[i] else 0 {
      MulOne(p, d[i]);
      MulZero(p, d[i]);
    }
    SubZeroIff(p, y.l0, x.l0);
    SubZeroIff(p, y.l1, x.l1);
    SubZeroIff(p, y.l2, x.l2);
    SubZeroIff(p, y.l3, x.l3);
    assert d == [FSub(p, y.l0, x.l0), FSub(p, y.l1, x.l1), FSub(p, y.l2, x.l2), FSub(p, y.l3, x.l3)];
    if Gated(p, c, d) && c == 1 {
      assert FMul(p, c, d[0]) == 0 && FMul(p, c, d[1]) == 0 && FMul(p, c, d[2]) == 0 && FMul(p, c, d[3]) == 0;
    }
  }
}
