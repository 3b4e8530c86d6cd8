/**
 The constraint polynomials of the EXP gadget, built from column polynomials, and their agreement
 at every point with the pointwise bodies of `ExpAir`.
 */
module ExpPolynomials {
  import opened PrimeField
  import opened PolyArith
  import opened LimbChain
  import opened ExpAir

  /** The values of a list of polynomials at z. */
  function At(p: int, polys: seq<Poly>, z: int): (v: seq<int>)
    requires p > 1
    ensures |v| == |polys| && AllInField(p, v)
  {
    seq(|polys|, i requires 0 <= i < |polys| => Eval(p, polys[i], z))
  }

  function PairsAt(p: int, pairs: seq<(Poly, Poly)>, z: int): (v: seq<(int, int)>)
    requires p > 1
    ensures |v| == |pairs|
  {
    seq(|pairs|, i requires 0 <= i < |pairs| => (Eval(p, pairs[i].0, z), Eval(p, pairs[i].1, z)))
  }

  // ---------------------------------------------------------------- loops shared by the builders

  /** Adds the bodies with weights 1, beta, beta^2, ...: at each point, the mix of their values. */
  method MixPolynomials(p: int, bodies: seq<Poly>, beta: int) returns (acc: Poly)
    requires p > 1 && InField(p, beta)
    ensures forall z :: Eval(p, acc, z) == Eval(p, At(p, bodies, z), beta)
  {
    hide FMul, FAdd, FSub;
    acc := [0];
    var bp := 1;
    forall z ensures Eval(p, acc, z) == Eval(p, At(p, bodies[..0], z), beta) {
      EvalZeros(p, acc, z);
    }
    for i := 0 to |bodies|
      invariant bp == FPow(p, beta, i)
      invariant forall z :: Eval(p, acc, z) == Eval(p, At(p, bodies[..i], z), beta)
    {
      var next := PolyAdd(p, acc, PolyScalarMul(p, bodies[i], bp));
      forall z ensures Eval(p, next, z) == Eval(p, At(p, bodies[..i + 1], z), beta) {
        EvalAdd(p, acc, PolyScalarMul(p, bodies[i], bp), z);
        EvalScalarMul(p, bodies[i], bp, z);
        EvalAppend(p, At(p, bodies[..i], z), Eval(p, bodies[i], z), beta);
        assert At(p, bodies[..i + 1], z) == At(p, bodies[..i], z) + [Eval(p, bodies[i], z)];
      }
      acc := next;
      MulComm(p, bp, beta);
      bp := FMul(p, bp, beta);
    }
    assert bodies[..|bodies|] == bodies;
  }

  /** The scalar loop of the pointwise evaluators. */
  method MixScalars(p: int, bodies: seq<int>, beta: int) returns (acc: int)
    requires p > 1 && InField(p, beta)
    ensures acc == Eval(p, bodies, beta)
  {
    hide FMul, FAdd, FSub;
    acc := 0;
    var bp := 1;
    for i := 0 to |bodies|
      invariant bp == FPow(p, beta, i) && acc == Eval(p, bodies[..i], beta)
    {
      EvalAppend(p, bodies[..i], bodies[i], beta);
      assert bodies[..i + 1] == bodies[..i] + [bodies[i]];
      acc := FAdd(p, acc, FMul(p, bodies[i], bp));
      MulComm(p, bp, beta);
      bp := FMul(p, bp, beta);
    }
    assert bodies[..|bodies|] == bodies;
  }

  function MulLimbAt(p: int, pairs: seq<(Poly, Poly)>, carryIn: Poly, out: Poly, carryOut: Poly, z: int): int
    requires p > 1 && |pairs| > 0
  {
    MulLimbBody(p, PairsAt(p, pairs, z), Eval(p, carryIn, z), Eval(p, out, z), Eval(p, carryOut, z))
  }

  /** `build_mul_limb_poly`: at each point the schoolbook limb body of the values. */
  method BuildMulLimb(p: int, pairs: seq<(Poly, Poly)>, carryIn: Poly, out: Poly, carryOut: Poly)
    returns (r: Poly)
    requires p > 1 && |pairs| > 0
    ensures forall z :: Eval(p, r, z) == MulLimbAt(p, pairs, carryIn, out, carryOut, z)
  {
    hide FMul, FAdd, FSub;
    var sum := [0];
    for i := 0 to |pairs|
      invariant i == 0 ==> sum == [0]
      invariant i > 0 ==> forall z :: Eval(p, sum, z) == PairSum(p, PairsAt(p, pairs[..i], z))
    {
      var (a, b) := pairs[i];
      var next := PolyAdd(p, sum, PolyMul(p, a, b));
      forall z ensures Eval(p, next, z) == PairSum(p, PairsAt(p, pairs[..i + 1], z)) {
        EvalAdd(p, sum, PolyMul(p, a, b), z);
        EvalMul(p, a, b, z);
        EvalZeros(p, [0], z);
        AddZero(p, FMul(p, Eval(p, a, z), Eval(p, b, z)));
        assert PairsAt(p, pairs[..i + 1], z)[..i] == PairsAt(p, pairs[..i], z);
      }
      sum := next;
    }
    assert pairs[..|pairs|] == pairs;
    var withCarry := PolyAdd(p, sum, carryIn);
    var high := PolyScalarMul(p, carryOut, B);
    var rhs := PolyAdd(p, high, out);
    r := PolySub(p, withCarry, rhs);
    forall z ensures Eval(p, r, z) == MulLimbAt(p, pairs, carryIn, out, carryOut, z) {
      EvalSub(p, withCarry, rhs, z);
      EvalAdd(p, sum, carryIn, z);
      EvalAdd(p, high, out, z);
      EvalScalarMul(p, carryOut, B, z);
      SubSub(p, Eval(p, withCarry, z), FMul(p, Eval(p, carryOut, z), B), Eval(p, out, z));
    }
  }

  // ---------------------------------------------------------------- row-local builders

  function BinaryPoly(p: int, x: Poly): Poly
    requires p > 1
  {
    PolyMul(p, x, PolySub(p, x, [1]))
  }

  lemma EvalConstant(p: int, c: int, z: int)
    requires p > 1 && InField(p, c)
    ensures Eval(p, [c], z) == c
  {
    assert [c][1..] == [];
    MulZero(p, z);
    AddZero(p, c);
  }

  lemma BinaryPolyEval(p: int, x: Poly, z: int)
    requires p > 1
    ensures Eval(p, BinaryPoly(p, x), z) == Binary(p, Eval(p, x, z))
  {
    hide FMul, FAdd, FSub;
    EvalMul(p, x, PolySub(p, x, [1]), z);
    EvalSub(p, x, [1], z);
    EvalConstant(p, 1, z);
  }

  /** The four limb bodies of the product of columns a and b into o with carries c. */
  function LimbBodies(p: int, row: seq<int>, a: nat, b: nat, o: nat, c: nat): (r: seq<int>)
    requires p > 1 && |row| == COLUMNS
    requires a + 4 <= COLUMNS && b + 4 <= COLUMNS && o + 4 <= COLUMNS && c + 4 <= COLUMNS
    ensures |r| == 4
  {
    seq(4, k => LimbBody(p, LimbsAt(row, a), LimbsAt(row, b), LimbsAt(row, o), LimbsAt(row, c), k))
  }

  function ChainAt(p: int, row: seq<int>, a: nat, b: nat, o: nat, c: nat, beta: int): int
    requires p > 1 && |row| == COLUMNS
    requires a + 4 <= COLUMNS && b + 4 <= COLUMNS && o + 4 <= COLUMNS && c + 4 <= COLUMNS
  {
    FMul(p, row[ACTIVE], Eval(p, LimbBodies(p, row, a, b, o, c), beta))
  }

  /** The four limb bodies of one multiplication, mixed with powers of beta and gated by `active`. */
  method BuildMulChain(p: int, cols: seq<Poly>, a: nat, b: nat, o: nat, c: nat, beta: int) returns (r: Poly)
    requires p > 1 && InField(p, beta) && |cols| == COLUMNS
    requires a + 4 <= COLUMNS && b + 4 <= COLUMNS && o + 4 <= COLUMNS && c + 4 <= COLUMNS
    ensures forall z :: Eval(p, r, z) == ChainAt(p, At(p, cols, z), a, b, o, c, beta)
  {
    hide FMul, FAdd, FSub, MulLimbBody;
    var b0 := BuildMulLimb(p, [(cols[a], cols[b])], [0], cols[o], cols[c]);
    var b1 := BuildMulLimb(p, [(cols[a], cols[b + 1]), (cols[a + 1], cols[b])], cols[c], cols[o + 1], cols[c + 1]);
    var b2 := BuildMulLimb(p, [(cols[a], cols[b + 2]), (cols[a + 1], cols[b + 1]), (cols[a + 2], cols[b])],
      cols[c + 1], cols[o + 2], cols[c + 2]);
    var b3 := BuildMulLimb(p, [(cols[a], cols[b + 3]), (cols[a + 1], cols[b + 2]), (cols[a + 2], cols[b + 1]), (cols[a + 3], cols[b])],
      cols[c + 2], cols[o + 3], cols[c + 3]);
    var bodies := [b0, b1, b2, b3];
    var acc := MixPolynomials(p, bodies, beta);
    r := PolyMul(p, cols[ACTIVE], acc);
    forall z ensures Eval(p, r, z) == ChainAt(p, At(p, cols, z), a, b, o, c, beta) {
      var row := At(p, cols, z);
      var la, lb, lo, lc := LimbsAt(row, a), LimbsAt(row, b), LimbsAt(row, o), LimbsAt(row, c);
      EvalMul(p, cols[ACTIVE], acc, z);
      EvalConstant(p, 0, z);
      assert Eval(p, b0, z) == LimbBody(p, la, lb, lo, lc, 0) by {
        assert PairsAt(p, [(cols[a], cols[b])], z) == Pairs(la, lb, 0);
      }
      assert Eval(p, b1, z) == LimbBody(p, la, lb, lo, lc, 1) by {
        assert PairsAt(p, [(cols[a], cols[b + 1]), (cols[a + 1], cols[b])], z) == Pairs(la, lb, 1);
      }
      assert Eval(p, b2, z) == LimbBody(p, la, lb, lo, lc, 2) by {
        assert PairsAt(p, [(cols[a], cols[b + 2]), (cols[a + 1], cols[b + 1]), (cols[a + 2], cols[b])], z) == Pairs(la, lb, 2);
      }
      assert Eval(p, b3, z) == LimbBody(p, la, lb, lo, lc, 3) by {
        assert PairsAt(p, [(cols[a], cols[b + 3]), (cols[a + 1], cols[b + 2]), (cols[a + 2], cols[b + 1]), (cols[a + 3], cols[b])], z)
          == Pairs(la, lb, 3);
      }
      assert At(p, bodies, z) == LimbBodies(p, row, a, b, o, c);
    }
  }

  /** `build_is_first_row_pins_result_in_poly`. */
  method BuildInit(p: int, cols: seq<Poly>, beta: int) returns (r: Poly)
    requires p > 1 && InField(p, beta) && |cols| == COLUMNS
    ensures forall z :: var row := At(p, cols, z);
      Eval(p, r, z) == FMul(p, row[IS_FIRST_ROW], Eval(p, InitBodies(p, row), beta))
  {
    hide FMul, FAdd, FSub;
    var bodies := [PolySub(p, cols[0], [1]), cols[1], cols[2], cols[3]];
    var acc := MixPolynomials(p, bodies, beta);
    r := PolyMul(p, cols[IS_FIRST_ROW], acc);
    forall z ensures var row := At(p, cols, z);
      Eval(p, r, z) == FMul(p, row[IS_FIRST_ROW], Eval(p, InitBodies(p, row), beta))
    {
      EvalMul(p, cols[IS_FIRST_ROW], acc, z);
      EvalSub(p, cols[0], [1], z);
      EvalConstant(p, 1, z);
      assert At(p, bodies, z) == InitBodies(p, At(p, cols, z));
    }
  }

  /** At every point the built row-local polynomial is the alpha-mix of the seven pointwise bodies. */
  method BuildConstraintPolynomial(p: int, cols: seq<Poly>, alpha: int) returns (r: Poly)
    requires p > NUM_STEPS && InField(p, alpha) && |cols| == COLUMNS
    ensures forall z :: Eval(p, r, z) == Eval(p, RowLocalBodies(p, At(p, cols, z), alpha), alpha)
  {
    hide FMul, FAdd, FSub, LimbBody, PolyMul, PolySub, Binary, InitBodies;
    var expBit := PolyMul(p, cols[ACTIVE], BinaryPoly(p, cols[EXP_BIT]));
    var active := BinaryPoly(p, cols[ACTIVE]);
    var squared := BuildMulChain(p, cols, RESULT_IN, RESULT_IN, SQUARED, SQUARED_CARRY, alpha);
    var mul := BuildMulChain(p, cols, SQUARED, BASE, MUL, MUL_CARRY, alpha);
    var first := BinaryPoly(p, cols[IS_FIRST_ROW]);
    var diff := PolySub(p, cols[BIT_INDEX], [NUM_STEPS - 1]);
    var pin := PolyMul(p, cols[IS_FIRST_ROW], diff);
    var init := BuildInit(p, cols, alpha);
    var bodies := [expBit, active, squared, mul, first, pin, init];
    r := MixPolynomials(p, bodies, alpha);
    forall z ensures At(p, bodies, z) == RowLocalBodies(p, At(p, cols, z), alpha) {
      var row := At(p, cols, z);
      EvalMul(p, cols[ACTIVE], BinaryPoly(p, cols[EXP_BIT]), z);
      BinaryPolyEval(p, cols[EXP_BIT], z);
      BinaryPolyEval(p, cols[ACTIVE], z);
      BinaryPolyEval(p, cols[IS_FIRST_ROW], z);
      EvalMul(p, cols[IS_FIRST_ROW], diff, z);
      EvalSub(p, cols[BIT_INDEX], [NUM_STEPS - 1], z);
      EvalConstant(p, NUM_STEPS - 1, z);
      assert SquareBodies(p, row) == LimbBodies(p, row, RESULT_IN, RESULT_IN, SQUARED, SQUARED_CARRY);
      assert MulBodies(p, row) == LimbBodies(p, row, SQUARED, BASE, MUL, MUL_CARRY);
    }
  }

  /** `evaluate_at_point`: too few column values give 0. */
  method EvaluateAtPoint(p: int, vals: seq<int>, alpha: int) returns (r: int)
    requires p > 1 && InField(p, alpha)
    ensures r == if |vals| < COLUMNS then 0 else Eval(p, RowLocalBodies(p, vals[..COLUMNS], alpha), alpha)
  {
    if |vals| < COLUMNS {
      return 0;
    }
    r := MixScalars(p, RowLocalBodies(p, vals[..COLUMNS], alpha), alpha);
  }

  /** The prover's polynomial and the verifier's formula agree at every point. */
  method RowLocalAgreement(p: int, cols: seq<Poly>, alpha: int, z: int) returns (built: int, pointwise: int)
    requires p > NUM_STEPS && InField(p, alpha) && |cols| == COLUMNS
    ensures built == pointwise
  {
    var poly := BuildConstraintPolynomial(p, cols, alpha);
    built := Eval(p, poly, z);
    var vals := At(p, cols, z);
    assert vals[..COLUMNS] == vals;
    pointwise := EvaluateAtPoint(p, vals, alpha);
  }

  // ---------------------------------------------------------------- cross-row builders

  /** The square-and-multiply loop for omega^(n-1). */
  method PowerLoop(p: int, omega: int, exponent: nat) returns (acc: int)
    requires p > 1 && InField(p, omega)
    ensures acc == FPow(p, omega, exponent)
  {
    hide FMul;
    acc := 1;
    var e, base := exponent, omega;
    MulOne(p, FPow(p, omega, exponent));
    while e > 0
      invariant InField(p, acc) && InField(p, base)
      invariant FMul(p, acc, FPow(p, base, e)) == FPow(p, omega, exponent)
    {
      PowHalve(p, base, e);
      if e % 2 == 1 {
        MulAssoc(p, acc, base, FPow(p, FMul(p, base, base), e / 2));
        acc := FMul(p, acc, base);
      }
      base := FMul(p, base, base);
      e := e / 2;
    }
    MulOne(p, acc);
  }

  lemma PowHalve(p: int, b: int, e: nat)
    requires p > 1 && e > 0
    ensures FPow(p, b, e) == if e % 2 == 1 then FMul(p, b, FPow(p, FMul(p, b, b), e / 2)) else FPow(p, FMul(p, b, b), e / 2)
  {
    PowSquare(p, b, e / 2);
  }

  /** omega^(n-1) with the saturating decrement of the code. */
  function LastPoint(p: int, omega: int, n: nat): (r: int)
    requires p > 1
    ensures InField(p, r)
  {
    FPow(p, omega, if n == 0 then 0 else n - 1)
  }

  /** The sum of body_i * exclusion * alpha^(offset + i) over the first k bodies. */
  function ExcludedSum(p: int, bodies: seq<int>, exclusion: int, alpha: int, offset: nat, k: nat): (r: int)
    requires p > 1 && k <= |bodies|
    ensures InField(p, r)
  {
    if k == 0 then 0 else
    FAdd(p, ExcludedSum(p, bodies, exclusion, alpha, offset, k - 1),
      FMul(p, FMul(p, bodies[k - 1], exclusion), FPow(p, alpha, offset + k - 1)))
  }

  /** The value the verifier expects of the shifted polynomial at z. */
  function ShiftedValue(p: int, row: seq<int>, sh: seq<int>, z: int, last: int, alpha: int, offset: nat): int
    requires p > 1 && |row| == COLUMNS && |sh| == 19
  {
    ExcludedSum(p, CrossRowBodies(p, row, sh, alpha), FSub(p, z, last), alpha, offset, 6)
  }

  /** The alpha power reached by `offset` multiplications. */
  method OffsetPower(p: int, alpha: int, offset: nat) returns (ap: int)
    requires p > 1 && InField(p, alpha)
    ensures ap == FPow(p, alpha, offset)
  {
    hide FMul;
    ap := 1;
    for i := 0 to offset
      invariant ap == FPow(p, alpha, i)
    {
      MulComm(p, ap, alpha);
      ap := FMul(p, ap, alpha);
    }
  }

  /** `evaluate_shifted_at_point`: a wrong number of shifted values gives 0. */
  method EvaluateShiftedAtPoint(p: int, vals: seq<int>, sh: seq<int>, z: int, last: int, alpha: int, offset: nat)
    returns (acc: int)
    requires p > 1 && InField(p, alpha) && |vals| >= COLUMNS
    ensures acc == if |sh| != 19 then 0 else ShiftedValue(p, vals[..COLUMNS], sh, z, last, alpha, offset)
  {
    hide FMul, FAdd, FSub, CrossRowBodies;
    if |sh| != 19 {
      return 0;
    }
    var bodies := CrossRowBodies(p, vals[..COLUMNS], sh, alpha);
    var exclusion := FSub(p, z, last);
    var ap := OffsetPower(p, alpha, offset);
    acc := 0;
    for i := 0 to 6
      invariant ap == FPow(p, alpha, offset + i)
      invariant acc == ExcludedSum(p, bodies, exclusion, alpha, offset, i)
    {
      acc := FAdd(p, acc, FMul(p, FMul(p, bodies[i], exclusion), ap));
      MulComm(p, ap, alpha);
      ap := FMul(p, ap, alpha);
    }
  }

  /** The value of gate times (next minus current) in one column. */
  function StepAt(p: int, gate: Poly, col: Poly, omega: int, z: int): int
    requires p > 1
  {
    FMul(p, Eval(p, gate, z), FSub(p, Eval(p, col, FMul(p, omega, z)), Eval(p, col, z)))
  }

  /** The mixed invariance body of four columns. */
  function InvariantAt(p: int, row: seq<int>, next: seq<int>, gate: int, offset: nat, beta: int): int
    requires p > 1 && |row| == COLUMNS && |next| == COLUMNS && offset + 4 <= COLUMNS
  {
    Eval(p, GateAll(p, gate, seq(4, i requires 0 <= i < 4 => FSub(p, next[offset + i], row[offset + i]))), beta)
  }

  /** Gate times (next minus current), limb by limb, mixed: the three invariance bodies. */
  method BuildInvariant(p: int, cols: seq<Poly>, offset: nat, gate: Poly, omega: int, beta: int) returns (r: Poly)
    requires p > 1 && InField(p, beta) && |cols| == COLUMNS && offset + 4 <= COLUMNS
    ensures forall z :: Eval(p, r, z) ==
                        InvariantAt(p, At(p, cols, z), At(p, cols, FMul(p, omega, z)), Eval(p, gate, z), offset, beta)
  {
    hide FMul, FAdd, FSub, PolyMul, PolySub, PolyShift;
    var bodies: seq<Poly> := [];
    for i := 0 to 4
      invariant |bodies| == i
      invariant forall k, z :: 0 <= k < i ==> Eval(p, bodies[k], z) == StepAt(p, gate, cols[offset + k], omega, z)
    {
      hide StepAt;
      var gated := PolyMul(p, gate, PolySub(p, PolyShift(p, cols[offset + i], omega), cols[offset + i]));
      forall z ensures Eval(p, gated, z) == StepAt(p, gate, cols[offset + i], omega, z) {
        StepEval(p, gate, cols[offset + i], omega, z);
      }
      bodies := bodies + [gated];
    }
    r := MixPolynomials(p, bodies, beta);
    forall z ensures Eval(p, r, z) ==
                     InvariantAt(p, At(p, cols, z), At(p, cols, FMul(p, omega, z)), Eval(p, gate, z), offset, beta)
    {
      var row, next, g := At(p, cols, z), At(p, cols, FMul(p, omega, z)), Eval(p, gate, z);
      var ds := seq(4, i requires 0 <= i < 4 => FSub(p, next[offset + i], row[offset + i]));
      forall k | 0 <= k < 4 ensures Eval(p, bodies[k], z) == GateAll(p, g, ds)[k] {
        assert Eval(p, bodies[k], z) == StepAt(p, gate, cols[offset + k], omega, z);
      }
      assert At(p, bodies, z) == GateAll(p, g, ds);
    }
  }

  lemma StepEval(p: int, gate: Poly, col: Poly, omega: int, z: int)
    requires p > 1
    ensures Eval(p, PolyMul(p, gate, PolySub(p, PolyShift(p, col, omega), col)), z) == StepAt(p, gate, col, omega, z)
  {
    hide FMul, FAdd, FSub, PolyMul, PolySub, PolyShift;
    EvalMul(p, gate, PolySub(p, PolyShift(p, col, omega), col), z);
    EvalSub(p, PolyShift(p, col, omega), col, z);
    EvalShift(p, col, omega, z);
  }

  function ChosenPoly(p: int, cols: seq<Poly>, i: nat): Poly
    requires p > 1 && |cols| == COLUMNS && i < 4
  {
    PolyAdd(p, PolyMul(p, cols[EXP_BIT], cols[MUL + i]),
      PolyMul(p, PolySub(p, [1], cols[EXP_BIT]), cols[SQUARED + i]))
  }

  lemma ChosenPolyEval(p: int, cols: seq<Poly>, i: nat, z: int)
    requires p > 1 && |cols| == COLUMNS && i < 4
    ensures Eval(p, ChosenPoly(p, cols, i), z) == ChosenLimb(p, At(p, cols, z), i)
  {
    hide FMul, FAdd, FSub, PolyAdd, PolyMul, PolySub;
    var eb := cols[EXP_BIT];
    EvalAdd(p, PolyMul(p, eb, cols[MUL + i]), PolyMul(p, PolySub(p, [1], eb), cols[SQUARED + i]), z);
    EvalMul(p, eb, cols[MUL + i], z);
    EvalMul(p, PolySub(p, [1], eb), cols[SQUARED + i], z);
    EvalSub(p, [1], eb, z);
    EvalConstant(p, 1, z);
  }

  /** The value of gate times (lead minus the chosen limb). */
  function ChoiceAt(p: int, gate: Poly, lead: Poly, cols: seq<Poly>, i: nat, z: int): int
    requires p > 1 && |cols| == COLUMNS && i < 4
  {
    FMul(p, Eval(p, gate, z), FSub(p, Eval(p, lead, z), ChosenLimb(p, At(p, cols, z), i)))
  }

  /** The mixed body comparing four leading values with the chosen limbs. */
  function ChoicesAt(p: int, row: seq<int>, leads: seq<int>, gate: int, beta: int): int
    requires p > 1 && |row| == COLUMNS && |leads| == 4
  {
    Eval(p, GateAll(p, gate, seq(4, i requires 0 <= i < 4 => FSub(p, leads[i], ChosenLimb(p, row, i)))), beta)
  }

  lemma ChoiceEval(p: int, gate: Poly, lead: Poly, cols: seq<Poly>, i: nat, z: int)
    requires p > 1 && |cols| == COLUMNS && i < 4
    ensures Eval(p, PolyMul(p, gate, PolySub(p, lead, ChosenPoly(p, cols, i))), z) == ChoiceAt(p, gate, lead, cols, i, z)
  {
    hide FMul, FAdd, FSub, PolyMul, PolySub, ChosenPoly;
    EvalMul(p, gate, PolySub(p, lead, ChosenPoly(p, cols, i)), z);
    EvalSub(p, lead, ChosenPoly(p, cols, i), z);
    ChosenPolyEval(p, cols, i, z);
  }

  /** Gate times (lead_i minus the chosen limb), mixed: the result chain and the last-row body. */
  method BuildChosenDifference(p: int, cols: seq<Poly>, leads: seq<Poly>, gate: Poly, beta: int) returns (r: Poly)
    requires p > 1 && InField(p, beta) && |cols| == COLUMNS && |leads| == 4
    ensures forall z :: Eval(p, r, z) == ChoicesAt(p, At(p, cols, z), At(p, leads, z), Eval(p, gate, z), beta)
  {
    hide FMul, FAdd, FSub, PolyMul, PolySub, ChosenPoly, ChosenLimb;
    var bodies: seq<Poly> := [];
    for i := 0 to 4
      invariant |bodies| == i
      invariant forall k, z :: 0 <= k < i ==> Eval(p, bodies[k], z) == ChoiceAt(p, gate, leads[k], cols, k, z)
    {
      hide ChoiceAt;
      var gated := PolyMul(p, gate, PolySub(p, leads[i], ChosenPoly(p, cols, i)));
      forall z ensures Eval(p, gated, z) == ChoiceAt(p, gate, leads[i], cols, i, z) {
        ChoiceEval(p, gate, leads[i], cols, i, z);
      }
      bodies := bodies + [gated];
    }
    r := MixPolynomials(p, bodies, beta);
    forall z ensures Eval(p, r, z) == ChoicesAt(p, At(p, cols, z), At(p, leads, z), Eval(p, gate, z), beta) {
      var row, g := At(p, cols, z), Eval(p, gate, z);
      var ds := seq(4, i requires 0 <= i < 4 => FSub(p, At(p, leads, z)[i], ChosenLimb(p, row, i)));
      forall k | 0 <= k < 4 ensures Eval(p, bodies[k], z) == GateAll(p, g, ds)[k] {
        assert Eval(p, bodies[k], z) == ChoiceAt(p, gate, leads[k], cols, k, z);
      }
      assert At(p, bodies, z) == GateAll(p, g, ds);
    }
  }

  /** The six cross-row body polynomials before the exclusion factor. */
  method BuildCrossRowBodies(p: int, cols: seq<Poly>, omega: int, beta: int) returns (bodies: seq<Poly>)
    requires p > 1 && InField(p, beta) && |cols| == COLUMNS
    ensures |bodies| == 6
    ensures forall z :: At(p, bodies, z) ==
                        CrossRowBodies(p, At(p, cols, z), Shifted(At(p, cols, FMul(p, omega, z))), beta)
  {
    hide FMul, FAdd, FSub, PolyMul, PolySub, PolyAdd, PolyShift, ChosenLimb, GateAll;
    var act := PolyShift(p, cols[ACTIVE], omega);
    var first := PolyShift(p, cols[IS_FIRST_ROW], omega);
    var boundary := PolySub(p, [1], first);
    var gate := PolyMul(p, act, boundary);
    var leads := [PolyShift(p, cols[0], omega), PolyShift(p, cols[1], omega), PolyShift(p, cols[2], omega), PolyShift(p, cols[3], omega)];
    var result := BuildChosenDifference(p, cols, leads, gate, beta);
    var base := BuildInvariant(p, cols, BASE, gate, omega, beta);
    var bi := PolySub(p, PolyShift(p, cols[BIT_INDEX], omega), PolySub(p, cols[BIT_INDEX], act));
    var bit := PolyMul(p, boundary, bi);
    var exponent := BuildInvariant(p, cols, EXPONENT, gate, omega, beta);
    var output := BuildInvariant(p, cols, FINAL_OUTPUT, gate, omega, beta);
    var inner := PolyAdd(p, first, PolySub(p, [1], act));
    var indicator := PolyMul(p, cols[ACTIVE], inner);
    var finals := cols[FINAL_OUTPUT..FINAL_OUTPUT + 4];
    var last := BuildChosenDifference(p, cols, finals, indicator, beta);
    bodies := [result, base, bit, exponent, output, last];
    forall z ensures At(p, bodies, z) ==
      CrossRowBodies(p, At(p, cols, z), Shifted(At(p, cols, FMul(p, omega, z))), beta)
    {
      var row, next := At(p, cols, z), At(p, cols, FMul(p, omega, z));
      var sh := Shifted(next);
      EvalShift(p, cols[ACTIVE], omega, z);
      EvalShift(p, cols[IS_FIRST_ROW], omega, z);
      EvalShift(p, cols[BIT_INDEX], omega, z);
      EvalConstant(p, 1, z);
      EvalSub(p, [1], first, z);
      EvalMul(p, act, boundary, z);
      assert Eval(p, gate, z) == Continues(p, sh);
      EvalSub(p, [1], act, z);
      EvalAdd(p, first, PolySub(p, [1], act), z);
      EvalMul(p, cols[ACTIVE], inner, z);
      assert Eval(p, indicator, z) == LastIndicator(p, row, sh);
      EvalMul(p, boundary, bi, z);
      EvalSub(p, PolyShift(p, cols[BIT_INDEX], omega), PolySub(p, cols[BIT_INDEX], act), z);
      EvalSub(p, cols[BIT_INDEX], act, z);
      assert Eval(p, bit, z) == BitStep(p, row, sh);
      forall i | 0 <= i < 4 ensures Eval(p, leads[i], z) == sh[i] {
        EvalShift(p, cols[i], omega, z);
      }
      SameDifferences(p, cols, leads, finals, row, next, z);
    }
  }

  lemma SameDifferences(p: int, cols: seq<Poly>, leads: seq<Poly>, finals: seq<Poly>, row: seq<int>, next: seq<int>, z: int)
    requires p > 1 && |cols| == COLUMNS && |leads| == 4 && finals == cols[FINAL_OUTPUT..FINAL_OUTPUT + 4]
    requires row == At(p, cols, z) && |next| == COLUMNS
    requires forall i :: 0 <= i < 4 ==> Eval(p, leads[i], z) == Shifted(next)[i]
    ensures seq(4, i requires 0 <= i < 4 => FSub(p, At(p, leads, z)[i], ChosenLimb(p, row, i))) == ResultDifferences(p, row, Shifted(next))
    ensures seq(4, i requires 0 <= i < 4 => FSub(p, At(p, finals, z)[i], ChosenLimb(p, row, i))) == OutputDifferences(p, row)
    ensures seq(4, i requires 0 <= i < 4 => FSub(p, next[BASE + i], row[BASE + i])) == Differences(p, row, Shifted(next), 4, BASE)
    ensures seq(4, i requires 0 <= i < 4 => FSub(p, next[EXPONENT + i], row[EXPONENT + i])) == Differences(p, row, Shifted(next), 10, EXPONENT)
    ensures seq(4, i requires 0 <= i < 4 => FSub(p, next[FINAL_OUTPUT + i], row[FINAL_OUTPUT + i])) == Differences(p, row, Shifted(next), 14, FINAL_OUTPUT)
  {
    hide FMul, FAdd, FSub, ChosenLimb;
  }

  /** At every point the built shifted polynomial is what the verifier computes from the values at z and omega*z. */
  method BuildShiftedConstraintPolynomial(p: int, cols: seq<Poly>, alpha: int, n: nat, omega: int, offset: nat)
    returns (r: Poly)
    requires p > 1 && InField(p, alpha) && InField(p, omega) && |cols| == COLUMNS
    ensures forall z :: Eval(p, r, z) ==
                        ShiftedValue(p, At(p, cols, z), Shifted(At(p, cols, FMul(p, omega, z))), z, LastPoint(p, omega, n), alpha, offset)
  {
    hide FMul, FAdd, FSub, PolyMulLinear, PolyScalarMul, PolyAdd, CrossRowBodies;
    var bodies := BuildCrossRowBodies(p, cols, omega, alpha);
    var last := PowerLoop(p, omega, if n == 0 then 0 else n - 1);
    var ap := OffsetPower(p, alpha, offset);
    r := [];
    for i := 0 to 6
      invariant ap == FPow(p, alpha, offset + i)
      invariant i == 0 ==> r == []
      invariant forall z :: Eval(p, r, z) == ExcludedSum(p, At(p, bodies, z), FSub(p, z, last), alpha, offset, i)
    {
      var excluded := PolyMulLinear(p, bodies[i], last);
      var scaled := PolyScalarMul(p, excluded, ap);
      var next := if i == 0 then scaled else PolyAdd(p, r, scaled);
      forall z ensures Eval(p, next, z) == ExcludedSum(p, At(p, bodies, z), FSub(p, z, last), alpha, offset, i + 1) {
        EvalMulLinear(p, bodies[i], last, z);
        EvalScalarMul(p, excluded, ap, z);
        EvalAdd(p, r, scaled, z);
        AddZero(p, Eval(p, scaled, z));
      }
      r := next;
      MulComm(p, ap, alpha);
      ap := FMul(p, ap, alpha);
    }
  }

  /** Prover and verifier agree on the cross-row part at every point. */
  method CrossRowAgreement(p: int, cols: seq<Poly>, alpha: int, n: nat, omega: int, offset: nat, z: int)
    returns (built: int, pointwise: int)
    requires p > 1 && InField(p, alpha) && InField(p, omega) && |cols| == COLUMNS
    ensures built == pointwise
  {
    hide ShiftedValue;
    var poly := BuildShiftedConstraintPolynomial(p, cols, alpha, n, omega, offset);
    built := Eval(p, poly, z);
    var vals := At(p, cols, z);
    assert vals[..COLUMNS] == vals;
    pointwise := EvaluateShiftedAtPoint(p, vals, Shifted(At(p, cols, FMul(p, omega, z))), z, LastPoint(p, omega, n), alpha, offset);
  }

  // ---------------------------------------------------------------- where the shifted polynomial vanishes

  /** The excluded sum is exclusion * alpha^offset times the plain mix. */
  lemma {:induction false} ExcludedFactors(p: int, bodies: seq<int>, x: int, alpha: int, offset: nat, k: nat)
    requires p > 1 && k <= |bodies|
    ensures ExcludedSum(p, bodies, x, alpha, offset, k) ==
      FMul(p, FMul(p, x, FPow(p, alpha, offset)), Eval(p, bodies[..k], alpha))
  {
    hide FMul, FAdd;
    var f := FMul(p, x, FPow(p, alpha, offset));
    if k == 0 {
      MulZero(p, f);
    } else {
      var b, w := bodies[k - 1], FPow(p, alpha, k - 1);
      ExcludedFactors(p, bodies, x, alpha, offset, k - 1);
      EvalAppend(p, bodies[..k - 1], b, alpha);
      assert bodies[..k] == bodies[..k - 1] + [b];
      Distrib(p, f, Eval(p, bodies[..k - 1], alpha), FMul(p, b, w));
      PowSum(p, alpha, offset, k - 1);
      assert FPow(p, alpha, offset + k - 1) == FMul(p, FPow(p, alpha, offset), w);
      RegroupTerm(p, b, x, FPow(p, alpha, offset), w);
    }
  }

  lemma RegroupTerm(p: int, b: int, x: int, y: int, w: int)
    requires p > 1
    ensures FMul(p, FMul(p, b, x), FMul(p, y, w)) == FMul(p, FMul(p, x, y), FMul(p, b, w))
  {
    ModMul(p, b * x, y * w);
    ModMul(p, x * y, b * w);
    assert b * x * (y * w) == x * y * (b * w);
  }

  lemma {:induction false} PowNonzero(p: int, a: int, e: nat)
    requires IsPrime(p) && InField(p, a) && a != 0
    ensures FPow(p, a, e) != 0
  {
    if e > 0 {
      PowNonzero(p, a, e - 1);
      NoZeroDivisors(p, a, FPow(p, a, e - 1));
    }
  }

  /**
   For a nonzero challenge the shifted polynomial vanishes at z exactly when the mixed cross-row
   bodies do or z is the last domain point, where it says nothing.
   */
  lemma ShiftedVanishesIff(p: int, row: seq<int>, sh: seq<int>, z: int, last: int, alpha: int, offset: nat)
    requires IsPrime(p) && |row| == COLUMNS && |sh| == 19
    requires InField(p, z) && InField(p, last) && InField(p, alpha) && alpha != 0
    ensures ShiftedValue(p, row, sh, z, last, alpha, offset) == 0 <==>
      z == last || Eval(p, CrossRowBodies(p, row, sh, alpha), alpha) == 0
  {
    hide FMul, FAdd, FSub, CrossRowBodies;
    var bodies := CrossRowBodies(p, row, sh, alpha);
    ExcludedFactors(p, bodies, FSub(p, z, last), alpha, offset, 6);
    assert bodies[..6] == bodies;
    PowNonzero(p, alpha, offset);
    SubZeroIff(p, z, last);
    NoZeroDivisors(p, FSub(p, z, last), FPow(p, alpha, offset));
    NoZeroDivisors(p, FMul(p, FSub(p, z, last), FPow(p, alpha, offset)), Eval(p, bodies, alpha));
  }

  // ---------------------------------------------------------------- padding

  /** A column with its cells from n up to the padded size set to zero. */
  function ZeroFrom(col: seq<int>, n: nat, padded: nat): (r: seq<int>)
    ensures |r| == |col|
  {
    seq(|col|, i requires 0 <= i < |col| => if n <= i < padded then 0 else col[i])
  }

  /** Row by row, the first k cells of the gadget's columns. */
  function ByRows(columns: seq<seq<int>>, k: nat): (rows: seq<seq<int>>)
    requires |columns| >= COLUMNS && forall c :: 0 <= c < COLUMNS ==> k <= |columns[c]|
    ensures |rows| == k && forall r :: 0 <= r < k ==> |rows[r]| == COLUMNS && forall c :: 0 <= c < COLUMNS ==> rows[r][c] == columns[c][r]
  {
    seq(k, r requires 0 <= r < k => seq(COLUMNS, c requires 0 <= c < COLUMNS => columns[c][r]))
  }

  /** `fix_trace_padding` overwrites the padding cells of the gadget's columns and nothing else. */
  method FixTracePadding(columns: array<seq<int>>, n: nat, padded: nat)
    modifies columns
    ensures forall c :: 0 <= c < columns.Length ==> |columns[c]| == |old(columns[c])|
    ensures forall c, i :: 0 <= c < columns.Length && 0 <= i < |columns[c]| ==>
      columns[c][i] == if columns.Length >= 36 && c < 36 && 0 < n <= i < padded then 0 else old(columns[c])[i]
    ensures Padded(old(columns[..]), columns[..], n, padded)
    ensures forall c :: 0 <= c < columns.Length ==>
      columns[c] == if 0 < n < padded && columns.Length >= COLUMNS && c < COLUMNS
                    then ZeroFrom(old(columns[c]), n, padded) else old(columns[c])
  {
    if n == 0 || n >= padded || columns.Length < COLUMNS {
      return;
    }
    for c := 0 to COLUMNS
      invariant forall k :: 0 <= k < c ==> columns[k] == ZeroFrom(old(columns[k]), n, padded)
      invariant forall k :: c <= k < columns.Length ==> columns[k] == old(columns[k])
    {
      var col := columns[c];
      var i := n;
      while i < padded && i < |col|
        invariant n <= i <= padded && |col| == |old(columns[c])|
        invariant forall k :: 0 <= k < |col| ==> col[k] == if n <= k < i then 0 else old(columns[c])[k]
      {
        col := col[i := 0];
        i := i + 1;
      }
      assert col == ZeroFrom(old(columns[c]), n, padded);
      columns[c] := col;
    }
  }

  /** The columns after, cell by cell, against the columns before. */
  predicate Padded(before: seq<seq<int>>, after: seq<seq<int>>, n: nat, padded: nat) {
    && |after| == |before|
    && forall c :: 0 <= c < |after| ==> |after[c]| == |before[c]| && forall i :: 0 <= i < |after[c]| ==>
         after[c][i] == if |after| >= 36 && c < 36 && 0 < n <= i < padded then 0 else before[c][i]
  }

  const ZeroRow: seq<int> := seq(COLUMNS, i => 0)

  /** What padding asks of the last real row: bit index 0, and FINAL_OUTPUT in place if it is active. */
  predicate PadReady(p: int, row: seq<int>)
    requires p > 1 && |row| == COLUMNS
  {
    row[BIT_INDEX] == 0 && Gated(p, row[ACTIVE], OutputDifferences(p, row))
  }

  lemma ZeroRowOk(p: int)
    requires p > 1
    ensures ValidRow(p, ZeroRow) && RowOk(p, ZeroRow)
  {
    hide FMul, FAdd, FSub, LimbBody, InitBody;
    forall x ensures FMul(p, 0, x) == 0 {
      MulZero(p, x);
    }
  }

  lemma IntoPadding(p: int, row: seq<int>)
    requires p > 1 && ValidRow(p, row)
    ensures CrossOk(p, row, ZeroRow) <==> PadReady(p, row)
  {
    hide FMul, FAdd, FSub, ChosenLimb;
    var sh := Shifted(ZeroRow);
    forall x ensures FMul(p, 0, x) == 0 {
      MulZero(p, x);
    }
    assert FSub(p, 1, 0) == 1 && FAdd(p, 0, 1) == 1 by {
      AddZero(p, 1);
    }
    assert Continues(p, sh) == 0;
    MulOne(p, row[ACTIVE]);
    assert LastIndicator(p, row, sh) == row[ACTIVE];
    AddZero(p, row[BIT_INDEX]);
    MulOne(p, FSub(p, 0, row[BIT_INDEX]));
    SubZeroIff(p, 0, row[BIT_INDEX]);
    assert BitStep(p, row, sh) == 0 <==> row[BIT_INDEX] == 0;
  }

  /** A trace followed by zero rows is accepted exactly when the trace is and its last row is ready for padding. */
  lemma PaddingAcceptedIff(p: int, rows: seq<seq<int>>, k: nat)
    requires p > 1 && |rows| > 0 && k > 0 && forall r :: 0 <= r < |rows| ==> ValidRow(p, rows[r])
    ensures Accepted(p, rows + seq(k, i => ZeroRow)) <==> Accepted(p, rows) && PadReady(p, rows[|rows| - 1])
  {
    hide RowOk, CrossOk, PadReady;
    var n := |rows|;
    var all := rows + seq(k, i => ZeroRow);
    assert forall r :: n <= r < n + k ==> all[r] == ZeroRow;
    ZeroRowOk(p);
    IntoPadding(p, rows[n - 1]);
    IntoPadding(p, ZeroRow);
    assert PadReady(p, ZeroRow) by { ZeroReady(p); }
    if Accepted(p, all) {
      assert forall r :: 0 <= r < n ==> all[r] == rows[r];
      assert CrossOk(p, all[n - 1], all[n - 1 + 1]);
      forall r | 0 <= r < n ensures RowOk(p, rows[r]) {
        assert RowOk(p, all[r]);
      }
      forall r | 0 <= r < n - 1 ensures CrossOk(p, rows[r], rows[r + 1]) {
        assert CrossOk(p, all[r], all[r + 1]);
      }
    }
    if Accepted(p, rows) && PadReady(p, rows[n - 1]) {
      forall r | 0 <= r < |all| - 1 ensures CrossOk(p, all[r], all[r + 1]) {
        if r < n - 1 {
          assert CrossOk(p, rows[r], rows[r + 1]);
        }
      }
    }
  }

  /**
   What padding leaves in columns of the padded size is the real rows and then zero rows, so it is
   accepted exactly when the real rows are and their last one is ready.
   */
  lemma PaddedTrace(p: int, before: seq<seq<int>>, after: seq<seq<int>>, n: nat, padded: nat)
    requires p > 1 && 0 < n < padded && |before| >= COLUMNS && Padded(before, after, n, padded)
    requires forall c :: 0 <= c < COLUMNS ==> |before[c]| == padded
    requires forall r :: 0 <= r < n ==> ValidRow(p, ByRows(before, n)[r])
    ensures ByRows(after, padded)[..n] == ByRows(before, n)
    ensures forall r :: n <= r < padded ==> ByRows(after, padded)[r] == ZeroRow
    ensures Accepted(p, ByRows(after, padded)) <==> Accepted(p, ByRows(before, n)) && PadReady(p, ByRows(before, n)[n - 1])
  {
    hide Accepted, PadReady;
    var rows, all := ByRows(before, n), ByRows(after, padded);
    forall r | 0 <= r < n ensures all[r] == rows[r] {
      assert forall c :: 0 <= c < COLUMNS ==> all[r][c] == rows[r][c];
    }
    assert all[..n] == rows;
    forall r | n <= r < padded ensures all[r] == ZeroRow {
      assert forall c :: 0 <= c < COLUMNS ==> all[r][c] == 0;
    }
    assert all == rows + seq(padded - n, i => ZeroRow);
    PaddingAcceptedIff(p, rows, padded - n);
  }

  lemma ZeroReady(p: int)
    requires p > 1
    ensures PadReady(p, ZeroRow)
  {
    hide FMul, FAdd, FSub, ChosenLimb;
    forall x ensures FMul(p, 0, x) == 0 {
      MulZero(p, x);
    }
  }
}
