/**
 How far the single-challenge check of `ExpCheck` falls short: a forged trace that passes it for every
 challenge, and the one congruence it does give for a row.
 */
module ExpForgery {
  import opened Common
  import opened PrimeField
  import opened PolyArith
  import opened LimbChain
  import opened ExpAir
  import opened ExpPolynomials
  import opened ExpWitness
  import opened ExpMultiTrace
  import opened ExpOverflow
  import opened ExpCheck

  // ---------------------------------------------------------------- a forged trace

  const FORGED: Limbs := Limbs(1, 1, 0, 0)

  /** A first row that squares 1 to 1 + 2^64: limb 1 of the squaring is off by -1, limb 0 of the product by +1. */
  const ForgedRow: seq<int> :=
    Populate(ExpRow(ONE, ONE, FORGED, NONE, Limbs(0, 1, 0, 0), NONE, 0, NUM_STEPS - 1), NONE, FORGED, 1)

  lemma ForgedLimbs()
    ensures |ForgedRow| == COLUMNS
    ensures LimbsAt(ForgedRow, RESULT_IN) == ONE && LimbsAt(ForgedRow, BASE) == ONE
    ensures LimbsAt(ForgedRow, SQUARED) == FORGED && LimbsAt(ForgedRow, SQUARED_CARRY) == NONE
    ensures LimbsAt(ForgedRow, MUL) == Limbs(0, 1, 0, 0) && LimbsAt(ForgedRow, MUL_CARRY) == NONE
    ensures LimbsAt(ForgedRow, EXPONENT) == NONE && LimbsAt(ForgedRow, FINAL_OUTPUT) == FORGED
    ensures ForgedRow[EXP_BIT] == 0 && ForgedRow[BIT_INDEX] == NUM_STEPS - 1
    ensures ForgedRow[ACTIVE] == 1 && ForgedRow[IS_FIRST_ROW] == 1
  {
    PopulateLimbs(ExpRow(ONE, ONE, FORGED, NONE, Limbs(0, 1, 0, 0), NONE, 0, NUM_STEPS - 1), NONE, FORGED, 1);
  }

  lemma ForgedValid(p: int)
    requires p > NUM_STEPS
    ensures ValidRow(p, ForgedRow)
  {}

  /** Its squaring bodies are 0, -1, 0, 0 and its product bodies 1, 0, 0, 0. */
  lemma ForgedBodies(p: int)
    requires p > NUM_STEPS
    ensures |ForgedRow| == COLUMNS
    ensures SquareBodies(p, ForgedRow) == [0, p - 1, 0, 0] && MulBodies(p, ForgedRow) == [1, 0, 0, 0]
    ensures InitBodies(p, ForgedRow) == [0, 0, 0, 0]
  {
    hide LimbBody, LimbsAt, Populate;
    ForgedLimbs();
    var m := Limbs(0, 1, 0, 0);
    LimbBodyIsInteger(p, ONE, ONE, FORGED, NONE, 0);
    LimbBodyIsInteger(p, ONE, ONE, FORGED, NONE, 1);
    LimbBodyIsInteger(p, ONE, ONE, FORGED, NONE, 2);
    LimbBodyIsInteger(p, ONE, ONE, FORGED, NONE, 3);
    LimbBodyIsInteger(p, FORGED, ONE, m, NONE, 0);
    LimbBodyIsInteger(p, FORGED, ONE, m, NONE, 1);
    LimbBodyIsInteger(p, FORGED, ONE, m, NONE, 2);
    LimbBodyIsInteger(p, FORGED, ONE, m, NONE, 3);
    ModShift(p, -1, 1);
    ModSmall(p, p - 1);
    ModSmall(p, 0);
    ModSmall(p, 1);
    ForgedInit(p);
  }

  lemma ForgedInit(p: int)
    requires p > NUM_STEPS
    ensures |ForgedRow| == COLUMNS && InitBodies(p, ForgedRow) == [0, 0, 0, 0]
  {
    SubZeroIff(p, 1, 1);
  }

  lemma ScaleByOne(p: int, a: Poly)
    requires p > 1 && AllInField(p, a)
    ensures PolyScalarMul(p, a, 1) == a
  {
    hide FMul;
    forall i | 0 <= i < |a| ensures FMul(p, a[i], 1) == a[i] {
      MulOne(p, a[i]);
    }
  }

  /** The two errors share a power of alpha and cancel. */
  lemma ForgedLocal(p: int)
    requires p > NUM_STEPS
    ensures |ForgedRow| == COLUMNS && AllZero(Collect(p, LocalGroups(p, ForgedRow)))
  {
    ForgedLimbs();
    ForgedBodies(p);
    var g := LocalGroups(p, ForgedRow);
    GroupShapes(p, ForgedRow, Shifted(ForgedRow));
    OverlayLocal(p, g);
    ScaleByOne(p, [0, p - 1, 0, 0]);
    ScaleByOne(p, [1, 0, 0, 0]);
    ScaleByOne(p, [0, 0, 0, 0]);
    assert g[2] == [0, p - 1, 0, 0] && g[3] == [1, 0, 0, 0] && g[6] == [0, 0, 0, 0];
    assert FAdd(p, p - 1, 1) == 0 by {
      ModShift(p, 0, 1);
    }
    hide FMul, FSub, Binary;
    SubZeroIff(p, NUM_STEPS - 1, NUM_STEPS - 1);
    ForgedFlags(p);
    AddZero(p, 0);
  }

  lemma ForgedFlags(p: int)
    requires p > NUM_STEPS
    ensures Binary(p, 0) == 0 && Binary(p, 1) == 0 && FMul(p, 1, 0) == 0
  {
    SubZeroIff(p, 1, 1);
    MulZero(p, 1);
    MulZero(p, FSub(p, 0, 1));
  }

  lemma ForgedCross(p: int)
    requires ExpField(p)
    ensures |ForgedRow| == COLUMNS && CrossOk(p, ForgedRow, ForgedRow)
  {
    hide FMul, FAdd, FSub, CrossOk, Populate;
    ForgedLimbs();
    ForgedValid(p);
    ChosenSelects(p, ForgedRow);
    IntoFirstRow(p, ForgedRow, ForgedRow);
  }

  lemma ForgedCheck(p: int, z: int, last: int, alpha: int)
    requires ExpField(p) && InField(p, alpha)
    ensures |ForgedRow| == COLUMNS && Check(p, ForgedRow, ForgedRow, z, last, alpha, alpha) == 0
  {
    hide FMul, FAdd, FSub, RowLocalBodies, CrossRowBodies, Collect, LocalGroups, CrossOk, Eval, Populate, At;
    ForgedLocal(p);
    CollectEval(p, LocalGroups(p, ForgedRow), alpha);
    LocalAt(p, ForgedRow, alpha);
    EvalZeros(p, Collect(p, LocalGroups(p, ForgedRow)), alpha);
    ForgedCross(p);
    CrossOkIff(p, ForgedRow, ForgedRow);
    var bodies := CrossRowBodies(p, ForgedRow, Shifted(ForgedRow), alpha);
    EvalZeros(p, bodies, alpha);
    ExcludedFactors(p, bodies, FSub(p, z, last), alpha, OFFSET, 6);
    assert bodies[..6] == bodies;
    MulZero(p, FMul(p, FSub(p, z, last), FPow(p, alpha, OFFSET)));
    AddZero(p, 0);
  }

  /**
   A trace of one-row invocations of base 1, all in range, passes the code's check on every domain and
   for every challenge, yet outputs 1 + 2^64, which is no power of 1.
   */
  lemma ForgedTracePasses(p: int, n: nat, omega: int)
    requires ExpField(p)
    ensures var rows := seq(n, _ => ForgedRow);
      && AllValidRows(p, rows) && PassesSingle(p, rows, omega)
      && forall r: nat :: r < n ==> Run(p, rows, r, r) && !RowOk(p, rows[r]) && WrongPower(rows[r])
  {
    var rows: seq<seq<int>> := seq(n, _ => ForgedRow);
    ForgedLimbs();
    ForgedValid(p);
    hide Check, RowOk, Populate, LimbsAt, FPow, LastPoint;
    forall alpha, r: nat | InField(p, alpha) && r < n ensures PassesAt(p, rows, omega, r, alpha, alpha) {
      ForgedCheck(p, FPow(p, omega, r), LastPoint(p, omega, n), alpha);
    }
    forall e: nat ensures Pow(1, e) == 1 {
      PowOfOne(e);
    }
    ForgedNotOk(p);
  }

  lemma ForgedNotOk(p: int)
    requires p > NUM_STEPS
    ensures |ForgedRow| == COLUMNS && !RowOk(p, ForgedRow)
  {
    ForgedLimbs();
    ForgedBodies(p);
    MulOne(p, p - 1);
    assert FMul(p, 1, SquareBodies(p, ForgedRow)[1]) != 0;
  }

  lemma {:induction false} PowOfOne(e: nat)
    ensures Pow(1, e) == 1
  {
    if e > 0 {
      PowOfOne(e - 1);
    }
  }

  /** The output column of the row is no power of its base modulo 2^256. */
  ghost predicate WrongPower(row: seq<int>)
    requires |row| == COLUMNS
  {
    forall e: nat :: LimbsAt(row, FINAL_OUTPUT).Value() != Pow(LimbsAt(row, BASE).Value(), e) % M
  }

  // ---------------------------------------------------------------- what the check does give

  /** Limb equation k, as the difference of its sides. */
  function Defect(a: Limbs, b: Limbs, o: Limbs, c: Limbs, k: int): int {
    Column(a, b, k) + CarryIn(c, k) - c.At(k) * B - o.At(k)
  }

  lemma DefectBound(a: Limbs, b: Limbs, o: Limbs, c: Limbs, k: int)
    requires a.InRange() && b.InRange() && o.InRange() && c.CarriesInRange() && 0 <= k < 4
    ensures -4 * B * B < Defect(a, b, o, c, k) <= (k + 1) * ((B - 1) * (B - 1)) + 4 * B
  {
    ColumnBound(a, b, k);
    hide Column;
  }

  /** The defects add up to the difference between product and output, modulo 2^256. */
  lemma DefectSum(a: Limbs, b: Limbs, o: Limbs, c: Limbs)
    ensures a.Value() * b.Value() - o.Value() == M * (High(a, b) + c.l3) + Defect(a, b, o, c, 0)
      + B * Defect(a, b, o, c, 1) + B * B * Defect(a, b, o, c, 2) + B * B * B * Defect(a, b, o, c, 3)
  {
    ProductColumns(a, b);
    hide Column, High;
  }

  lemma PairVanishes(p: int, s: int, m: int)
    requires p > 0 && -p < s + m < p
    ensures FAdd(p, s % p, m % p) == 0 ==> s + m == 0
  {
    ModAdd(p, s, m);
  }

  /** The first-row flag is 0, or 1 with counter and accumulator pinned. */
  predicate PinsHold(p: int, row: seq<int>)
    requires p > 1 && |row| == COLUMNS
  {
    && Binary(p, row[IS_FIRST_ROW]) == 0
    && FMul(p, row[IS_FIRST_ROW], FSub(p, row[BIT_INDEX], NUM_STEPS - 1)) == 0
    && Gated(p, row[IS_FIRST_ROW], InitBodies(p, row))
  }

  lemma LaterRowPins(p: int, row: seq<int>)
    requires p > 1 && |row| == COLUMNS && row[IS_FIRST_ROW] == 0
    ensures PinsHold(p, row)
  {
    hide FMul, FSub, InitBodies;
    forall y ensures FMul(p, 0, y) == 0 {
      MulZero(p, y);
    }
  }

  lemma PinnedGroups(p: int, row: seq<int>)
    requires p > NUM_STEPS && ValidRow(p, row) && row[ACTIVE] == 1 && PinsHold(p, row)
    ensures var g := LocalGroups(p, row);
      g[2] == SquareBodies(p, row) && g[3] == MulBodies(p, row) && g[4] == [0] && g[5] == [0] && g[6][0] == 0
  {
    var (s, m) := (SquareBodies(p, row), MulBodies(p, row));
    assert AllInField(p, s) && AllInField(p, m);
    hide LimbBody, InitBody, FMul;
    ScaleByOne(p, s);
    ScaleByOne(p, m);
    assert FMul(p, row[IS_FIRST_ROW], InitBodies(p, row)[0]) == 0;
    MulComm(p, row[IS_FIRST_ROW], InitBodies(p, row)[0]);
  }

  /** The equations the check imposes on the limbs of an active row whose pins hold. */
  lemma CheckedEquations(p: int, row: seq<int>, next: seq<int>, x: int)
    requires p > NUM_STEPS && ValidRow(p, row) && |next| == COLUMNS
    requires row[ACTIVE] == 1 && PinsHold(p, row) && AllZero(Coefficients(p, row, next, x))
    ensures var (s, m) := (SquareBodies(p, row), MulBodies(p, row));
      s[0] == 0 && FAdd(p, s[1], m[0]) == 0 && FAdd(p, s[2], m[1]) == 0 && FAdd(p, s[3], m[2]) == 0 && m[3] == 0
  {
    assert |row| == COLUMNS;
    hide FAdd, FMul, FSub, ValidRow, CrossGroups, LocalGroups, SquareBodies, MulBodies, Collect, PolyAdd, PolyScalarMul, PinsHold;
    var g := LocalGroups(p, row);
    GroupShapes(p, row, Shifted(next));
    PinnedGroups(p, row);
    OverlayLocal(p, g);
    var (s, m) := (g[2], g[3]);
    assert InField(p, m[1]) && InField(p, m[2]) && InField(p, m[3]);
    AddZero(p, m[1]);
    AddZero(p, m[2]);
    AddZero(p, m[3]);
    var c := Collect(p, g);
    FirstSeven(p, c, Collect(p, CrossGroups(p, row, Shifted(next))), x);
    assert c[2] == 0 && c[3] == 0 && c[4] == 0 && c[5] == 0 && c[6] == 0;
  }

  lemma FirstSeven(p: int, local: Poly, cross: Poly, x: int)
    requires p > 1 && AllInField(p, local) && |local| == 10
    requires AllZero(PolyAdd(p, local, seq(OFFSET, i => 0) + PolyScalarMul(p, cross, x)))
    ensures forall i :: 0 <= i < OFFSET ==> local[i] == 0
  {
    hide FAdd, FMul;
    var q: Poly := seq(OFFSET, i => 0) + PolyScalarMul(p, cross, x);
    forall i | 0 <= i < OFFSET ensures local[i] == 0 {
      assert PolyAdd(p, local, q)[i] == FAdd(p, local[i], 0);
      AddZero(p, local[i]);
    }
  }

  /** Over the integers: the defects of the squaring and of the product, one limb down, cancel in pairs. */
  lemma CheckedDefects(p: int, a: Limbs, b: Limbs, sq: Limbs, c: Limbs, mul: Limbs, d: Limbs)
    requires p >= 8 * B * B && a.InRange() && b.InRange() && sq.InRange() && mul.InRange()
    requires c.CarriesInRange() && d.CarriesInRange()
    requires LimbBody(p, a, a, sq, c, 0) == 0 && LimbBody(p, sq, b, mul, d, 3) == 0
    requires forall k :: 0 <= k < 3 ==> FAdd(p, LimbBody(p, a, a, sq, c, k + 1), LimbBody(p, sq, b, mul, d, k)) == 0
    ensures Defect(a, a, sq, c, 0) == 0 && Defect(sq, b, mul, d, 3) == 0
    ensures forall k :: 0 <= k < 3 ==> Defect(a, a, sq, c, k + 1) + Defect(sq, b, mul, d, k) == 0
  {
    hide LimbBody, FAdd, Defect;
    BodyIsDefect(p, a, a, sq, c, 0);
    BodyIsDefect(p, sq, b, mul, d, 3);
    DefectBound(a, a, sq, c, 0);
    DefectBound(sq, b, mul, d, 3);
    SmallZero(p, Defect(a, a, sq, c, 0));
    SmallZero(p, Defect(sq, b, mul, d, 3));
    forall k | 0 <= k < 3 ensures Defect(a, a, sq, c, k + 1) + Defect(sq, b, mul, d, k) == 0 {
      BodyIsDefect(p, a, a, sq, c, k + 1);
      BodyIsDefect(p, sq, b, mul, d, k);
      DefectBound(a, a, sq, c, k + 1);
      DefectBound(sq, b, mul, d, k);
      PairVanishes(p, Defect(a, a, sq, c, k + 1), Defect(sq, b, mul, d, k));
    }
  }

  lemma DefectsCongruent(a: Limbs, b: Limbs, sq: Limbs, c: Limbs, mul: Limbs, d: Limbs)
    requires Defect(a, a, sq, c, 0) == 0 && Defect(sq, b, mul, d, 3) == 0
    requires forall k :: 0 <= k < 3 ==> Defect(a, a, sq, c, k + 1) + Defect(sq, b, mul, d, k) == 0
    ensures (a.Value() * a.Value() - sq.Value() + B * (sq.Value() * b.Value() - mul.Value())) % M == 0
  {
    DefectSum(a, a, sq, c);
    DefectSum(sq, b, mul, d);
    hide Defect, High;
    var (s1, s2, s3) := (Defect(a, a, sq, c, 0 + 1), Defect(a, a, sq, c, 1 + 1), Defect(a, a, sq, c, 2 + 1));
    assert s1 + Defect(sq, b, mul, d, 0) == 0 && s2 + Defect(sq, b, mul, d, 1) == 0 && s3 + Defect(sq, b, mul, d, 2) == 0;
    OneCongruence(a.Value() * a.Value() - sq.Value(), sq.Value() * b.Value() - mul.Value(),
      High(a, a) + c.l3, High(sq, b) + d.l3, s1, s2, s3);
  }

  /** The same, limb by limb. */
  lemma CheckedLimbs(p: int, row: seq<int>, next: seq<int>, x: int)
    requires p > NUM_STEPS && ValidRow(p, row) && |next| == COLUMNS
    requires row[ACTIVE] == 1 && PinsHold(p, row) && AllZero(Coefficients(p, row, next, x))
    ensures var (a, b, sq, mul) := (LimbsAt(row, RESULT_IN), LimbsAt(row, BASE), LimbsAt(row, SQUARED), LimbsAt(row, MUL));
      var (c, d) := (LimbsAt(row, SQUARED_CARRY), LimbsAt(row, MUL_CARRY));
      && LimbBody(p, a, a, sq, c, 0) == 0 && LimbBody(p, sq, b, mul, d, 3) == 0
      && forall k :: 0 <= k < 3 ==> FAdd(p, LimbBody(p, a, a, sq, c, k + 1), LimbBody(p, sq, b, mul, d, k)) == 0
  {
    var (a, b, sq, mul) := (LimbsAt(row, RESULT_IN), LimbsAt(row, BASE), LimbsAt(row, SQUARED), LimbsAt(row, MUL));
    var (c, d) := (LimbsAt(row, SQUARED_CARRY), LimbsAt(row, MUL_CARRY));
    var (s, m) := (SquareBodies(p, row), MulBodies(p, row));
    hide LimbBody, LimbsAt, Coefficients, FAdd, ValidRow, PinsHold;
    CheckedEquations(p, row, next, x);
    assert s == seq(4, k => LimbBody(p, a, a, sq, c, k)) && m == seq(4, k => LimbBody(p, sq, b, mul, d, k));
    forall k | 0 <= k < 3 ensures FAdd(p, LimbBody(p, a, a, sq, c, k + 1), LimbBody(p, sq, b, mul, d, k)) == 0 {
      assert s[k + 1] == LimbBody(p, a, a, sq, c, k + 1) && m[k] == LimbBody(p, sq, b, mul, d, k);
    }
    assert s[0] == LimbBody(p, a, a, sq, c, 0) && m[3] == LimbBody(p, sq, b, mul, d, 3);
  }

  /**
   For an active row whose pins hold, as they do on every row that is not first, the check gives one
   congruence instead of two products: squaring errors can be paid for by product errors 64 bits
   further down.
   */
  lemma CheckedCongruence(p: int, row: seq<int>, next: seq<int>, x: int)
    requires ExpField(p) && ValidRow(p, row) && |next| == COLUMNS && InRanges(row)
    requires row[ACTIVE] == 1 && PinsHold(p, row) && AllZero(Coefficients(p, row, next, x))
    ensures var (a, b) := (LimbsAt(row, RESULT_IN).Value(), LimbsAt(row, BASE).Value());
      var (sq, mul) := (LimbsAt(row, SQUARED).Value(), LimbsAt(row, MUL).Value());
      (a * a - sq + B * (sq * b - mul)) % M == 0
  {
    var (a, b, sq, mul) := (LimbsAt(row, RESULT_IN), LimbsAt(row, BASE), LimbsAt(row, SQUARED), LimbsAt(row, MUL));
    var (c, d) := (LimbsAt(row, SQUARED_CARRY), LimbsAt(row, MUL_CARRY));
    CheckedLimbs(p, row, next, x);
    hide LimbBody, LimbsAt, Coefficients, FAdd, ValidRow, Defect, PinsHold;
    CheckedDefects(p, a, b, sq, c, mul, d);
    DefectsCongruent(a, b, sq, c, mul, d);
  }

  lemma BodyIsDefect(p: int, a: Limbs, b: Limbs, o: Limbs, c: Limbs, k: int)
    requires p > 1 && 0 <= k < 4
    ensures LimbBody(p, a, b, o, c, k) == Defect(a, b, o, c, k) % p
  {
    LimbBodyIsInteger(p, a, b, o, c, k);
  }

  lemma SmallZero(p: int, s: int)
    requires p > 0 && -p < s < p
    ensures s % p == 0 ==> s == 0
  {
    if s < 0 {
      ModShift(p, s, 1);
      ModSmall(p, s + p);
    }
  }

  lemma OneCongruence(square: int, product: int, h: int, k: int, s1: int, s2: int, s3: int)
    requires square == M * h + B * s1 + B * B * s2 + B * B * B * s3
    requires product == M * k - s1 - B * s2 - B * B * s3
    ensures (square + B * product) % M == 0
  {
    assert square + B * product == (h + B * k) * M + 0;
    ModUnique(M, square + B * product, h + B * k, 0);
  }

  /** A right product thus implies a right square, and the square is right exactly when the product is modulo 2^192. */
  lemma CheckedProducts(a: int, b: int, sq: int, mul: int)
    requires 0 <= sq < M && 0 <= mul < M && (a * a - sq + B * (sq * b - mul)) % M == 0
    ensures sq == a * a % M <==> (sq * b - mul) % (B * B * B) == 0
    ensures mul == sq * b % M ==> sq == a * a % M
  {
    var (d, e, t) := (a * a - sq, sq * b - mul, (a * a - sq + B * (sq * b - mul)) / M);
    assert d + B * e == M * t;
    if sq == a * a % M {
      var q := a * a / M;
      assert e == (B * B * B) * (t - q) + 0;
      ModUnique(B * B * B, e, t - q, 0);
    }
    if e % (B * B * B) == 0 {
      var q := e / (B * B * B);
      assert a * a == (t - q) * M + sq;
      ModUnique(M, a * a, t - q, sq);
    }
    if mul == sq * b % M {
      var q := sq * b / M;
      assert e == (B * B * B) * (B * q) + 0;
      ModUnique(B * B * B, e, B * q, 0);
    }
  }

  // ---------------------------------------------------------------- honest traces

  /** What a generated product loses is never negative, so nothing can cancel it. */
  lemma LossNotNegative(a: Limbs, b: Limbs, k: int)
    requires a.InRange() && b.InRange() && 0 <= k < 4
    ensures var (o, c) := SchoolbookMul(a, b); Defect(a, b, o, c, k) >= 0
  {
    ColumnBound(a, b, 0);
    ColumnBound(a, b, 1);
    ColumnBound(a, b, 2);
    ColumnBound(a, b, 3);
    hide Column;
    var s0 := Wrapped(a, b, 0, 0);
    var s1 := Wrapped(a, b, s0 / B, 1);
    var s2 := Wrapped(a, b, s1 / B, 2);
    var s3 := Wrapped(a, b, s2 / B, 3);
    Rewrapped(Column(a, b, 0));
    Rewrapped(Column(a, b, 1) + s0 / B);
    Rewrapped(Column(a, b, 2) + s1 / B);
    Rewrapped(Column(a, b, 3) + s2 / B);
  }

  lemma Rewrapped(t: int)
    requires t >= 0
    ensures var s := t % W128; 0 <= s / B && s / B * B + s % B == s <= t
  {}

  lemma DefectsMeanChain(a: Limbs, b: Limbs, o: Limbs, c: Limbs)
    requires forall k :: 0 <= k < 4 ==> Defect(a, b, o, c, k) == 0
    ensures ChainHolds(a, b, o, c)
  {
    hide Column;
    forall k | 0 <= k < 4 ensures LimbEquation(a, b, o, c, k) {
      assert Defect(a, b, o, c, k) == 0;
    }
  }

  /** Losses that cancel in pairs are all zero. */
  lemma NoLosses(a: Limbs, b: Limbs, sq: Limbs, c: Limbs, mul: Limbs, d: Limbs)
    requires a.InRange() && b.InRange() && sq.InRange()
    requires (sq, c) == SchoolbookMul(a, a) && (mul, d) == SchoolbookMul(sq, b)
    requires Defect(a, a, sq, c, 0) == 0 && Defect(sq, b, mul, d, 3) == 0
    requires forall k :: 0 <= k < 3 ==> Defect(a, a, sq, c, k + 1) + Defect(sq, b, mul, d, k) == 0
    ensures NoOverflow(a, a) && NoOverflow(sq, b)
  {
    hide SchoolbookMul, Defect, NoOverflow;
    forall k | 0 <= k < 4 ensures Defect(a, a, sq, c, k) >= 0 && Defect(sq, b, mul, d, k) >= 0 {
      LossNotNegative(a, a, k);
      LossNotNegative(sq, b, k);
    }
    assert Defect(a, a, sq, c, 0 + 1) + Defect(sq, b, mul, d, 0) == 0;
    assert Defect(a, a, sq, c, 1 + 1) + Defect(sq, b, mul, d, 1) == 0;
    assert Defect(a, a, sq, c, 2 + 1) + Defect(sq, b, mul, d, 2) == 0;
    DefectsMeanChain(a, a, sq, c);
    DefectsMeanChain(sq, b, mul, d);
    SchoolbookAcceptedIff(a, a);
    SchoolbookAcceptedIff(sq, b);
  }

  /** A generated row that passes the code's check fits. */
  lemma HonestRowFits(p: int, base: Limbs, exponent: nat, x: Limbs, r: nat, next: seq<int>, z: int)
    requires ExpField(p) && base.InRange() && x.InRange() && r < NUM_STEPS && |next| == COLUMNS
    requires AllZero(Coefficients(p, TraceRow(base, exponent, x, r), next, z))
    ensures RowFits(base, exponent, r)
  {
    hide WitnessRow, TraceRow, LimbsAt, Coefficients, LimbBody, SchoolbookMul, NoOverflow, Defect, FAdd, PinsHold;
    var row, w := TraceRow(base, exponent, x, r), WitnessRow(base, exponent, r);
    TraceRowValid(p, base, exponent, x, r);
    TraceLimbs(base, exponent, x, r);
    WitnessShape(base, exponent, r);
    WitnessRanges(base, exponent, r);
    HonestPins(p, base, exponent, x, r);
    CheckedLimbs(p, row, next, z);
    CheckedDefects(p, w.resultIn, base, w.squared, w.squaredCarry, w.mul, w.mulCarry);
    NoLosses(w.resultIn, base, w.squared, w.squaredCarry, w.mul, w.mulCarry);
  }

  lemma HonestPins(p: int, base: Limbs, exponent: nat, x: Limbs, r: nat)
    requires ExpField(p) && base.InRange() && x.InRange() && r < NUM_STEPS
    ensures PinsHold(p, TraceRow(base, exponent, x, r))
  {
    hide WitnessRow, TraceRow, LimbsAt, FMul, FSub, Binary, InitBodies, Gated;
    TraceRowValid(p, base, exponent, x, r);
    TraceLimbs(base, exponent, x, r);
    WitnessShape(base, exponent, r);
    SimpleBodies(p, TraceRow(base, exponent, x, r), r);
  }

  /**
   So for generated traces the single challenge loses nothing: the code's check passes, for every
   challenge, exactly when the powers the run goes through fit.
   */
  lemma HonestPassesIff(p: int, base: Limbs, exponent: nat, x: Limbs, omega: int)
    requires ExpField(p) && base.InRange() && x.InRange() && exponent < Two(NUM_STEPS) && LastApart(p, omega, NUM_STEPS)
    ensures AllValidRows(p, Trace(base, exponent, x))
    ensures PassesSingle(p, Trace(base, exponent, x), omega) <==>
            forall r :: 0 <= r < NUM_STEPS ==> PowersFit(base, exponent, r)
  {
    hide PassesSingle, PowersFit, Coefficients, TraceRow, AllZero, RowFits, LastApart, Accepted, FPow, LastPoint, FSub;
    var rows := Trace(base, exponent, x);
    forall r | 0 <= r < NUM_STEPS ensures ValidRow(p, rows[r]) {
      TraceRowValid(p, base, exponent, x, r);
    }
    WitnessAcceptedIff(p, base, exponent, x);
    if Accepted(p, rows) {
      AcceptedPasses(p, rows, omega);
    }
    if PassesSingle(p, rows, omega) {
      TracePassesIff(p, rows, omega);
      forall r: nat | r < NUM_STEPS ensures RowFits(base, exponent, r) {
        assert AllZero(CoefficientsAt(p, rows, omega, r));
        HonestRowFits(p, base, exponent, x, r, NextRow(rows, r), FSub(p, FPow(p, omega, r), LastPoint(p, omega, NUM_STEPS)));
      }
      RowsFitIff(base, exponent, NUM_STEPS);
    }
  }
}
