/**
 What the prover and verifier actually check of the EXP gadget: one polynomial, the row-local bodies
 mixed with powers of alpha plus the cross-row bodies mixed with further powers, where the limb
 groups inside are themselves mixed with the same alpha. Neighbouring groups then share powers, and
 only the sums of bodies that share a power are checked.
 */
module ExpCheck {
  import opened Common
  import opened PrimeField
  import opened PolyArith
  import opened LimbChain
  import opened ExpAir
  import opened ExpPolynomials

  /** The first power of alpha given to the cross-row bodies: the number of row-local ones. */
  const OFFSET: nat := 7

  // ---------------------------------------------------------------- the checked value

  /**
   The value of the checked polynomial at z, with separate challenges: beta inside the limb groups,
   alpha across the bodies. The code uses one challenge for both.
   */
  function Check(p: int, row: seq<int>, next: seq<int>, z: int, last: int, beta: int, alpha: int): int
    requires p > 1 && |row| == COLUMNS && |next| == COLUMNS
  {
    FAdd(p, Eval(p, RowLocalBodies(p, row, beta), alpha),
      ExcludedSum(p, CrossRowBodies(p, row, Shifted(next), beta), FSub(p, z, last), alpha, OFFSET, 6))
  }

  /** The combined polynomial has, at every point, the checked value with beta = alpha. */
  method BuildCheck(p: int, cols: seq<Poly>, alpha: int, n: nat, omega: int) returns (r: Poly)
    requires p > NUM_STEPS && InField(p, alpha) && InField(p, omega) && |cols| == COLUMNS
    ensures forall z :: Eval(p, r, z) ==
                        Check(p, At(p, cols, z), At(p, cols, FMul(p, omega, z)), z, LastPoint(p, omega, n), alpha, alpha)
  {
    hide FMul, FAdd, FSub, RowLocalBodies, CrossRowBodies, PolyAdd;
    var local := BuildConstraintPolynomial(p, cols, alpha);
    var cross := BuildShiftedConstraintPolynomial(p, cols, alpha, n, omega, OFFSET);
    r := PolyAdd(p, local, cross);
    forall z ensures Eval(p, r, z) ==
                     Check(p, At(p, cols, z), At(p, cols, FMul(p, omega, z)), z, LastPoint(p, omega, n), alpha, alpha)
    {
      EvalAdd(p, local, cross, z);
    }
  }

  // ---------------------------------------------------------------- groups and powers

  /** The groups laid over each other, each one power further along. */
  function Collect(p: int, groups: seq<Poly>): (a: Poly)
    requires p > 1
    ensures AllInField(p, a)
  {
    if groups == [] then [] else PolyAdd(p, groups[0], [0] + Collect(p, groups[1..]))
  }

  lemma EvalTimesX(p: int, a: Poly, z: int)
    requires p > 1
    ensures Eval(p, [0] + a, z) == FMul(p, z, Eval(p, a, z))
  {
    hide FMul, FAdd;
    assert ([0] + a)[1..] == a;
    AddZero(p, FMul(p, z, Eval(p, a, z)));
  }

  /** Mixing the groups with alpha inside and across is evaluating their overlay. */
  lemma {:induction false} CollectEval(p: int, groups: seq<Poly>, alpha: int)
    requires p > 1
    ensures Eval(p, Collect(p, groups), alpha) == Eval(p, At(p, groups, alpha), alpha)
  {
    hide FMul, FAdd, PolyAdd;
    if groups != [] {
      var rest := groups[1..];
      CollectEval(p, rest, alpha);
      EvalAdd(p, groups[0], [0] + Collect(p, rest), alpha);
      EvalTimesX(p, Collect(p, rest), alpha);
      assert At(p, groups, alpha)[1..] == At(p, rest, alpha);
    }
  }

  /** A polynomial vanishes for every challenge exactly when it is zero; as many distinct challenges as coefficients decide. */
  lemma AllChallenges(p: int, a: Poly)
    requires IsPrime(p) && AllInField(p, a) && |a| <= p
    ensures AllZero(a) <==> forall alpha :: InField(p, alpha) ==> Eval(p, a, alpha) == 0
  {
    hide Eval;
    if AllZero(a) {
      forall alpha ensures Eval(p, a, alpha) == 0 {
        EvalZeros(p, a, alpha);
      }
    }
    if forall alpha :: InField(p, alpha) ==> Eval(p, a, alpha) == 0 {
      var xs: seq<int> := seq(|a|, i => i);
      RootBound(p, a, xs);
    }
  }

  // ---------------------------------------------------------------- the groups of a row

  function LocalGroups(p: int, row: seq<int>): (g: seq<Poly>)
    requires p > 1 && |row| == COLUMNS
    ensures |g| == 7
  {
    [ [FMul(p, row[ACTIVE], Binary(p, row[EXP_BIT]))],
      [Binary(p, row[ACTIVE])],
      PolyScalarMul(p, SquareBodies(p, row), row[ACTIVE]),
      PolyScalarMul(p, MulBodies(p, row), row[ACTIVE]),
      [Binary(p, row[IS_FIRST_ROW])],
      [FMul(p, row[IS_FIRST_ROW], FSub(p, row[BIT_INDEX], NUM_STEPS - 1))],
      PolyScalarMul(p, InitBodies(p, row), row[IS_FIRST_ROW]) ]
  }

  function CrossGroups(p: int, row: seq<int>, sh: seq<int>): (g: seq<Poly>)
    requires p > 1 && |row| == COLUMNS && |sh| == 19
    ensures |g| == 6
  {
    var c := Continues(p, sh);
    [ GateAll(p, c, ResultDifferences(p, row, sh)),
      GateAll(p, c, Differences(p, row, sh, 4, BASE)),
      [BitStep(p, row, sh)],
      GateAll(p, c, Differences(p, row, sh, 10, EXPONENT)),
      GateAll(p, c, Differences(p, row, sh, 14, FINAL_OUTPUT)),
      GateAll(p, LastIndicator(p, row, sh), OutputDifferences(p, row)) ]
  }

  lemma LocalAt(p: int, row: seq<int>, beta: int)
    requires p > 1 && |row| == COLUMNS
    ensures At(p, LocalGroups(p, row), beta) == RowLocalBodies(p, row, beta)
  {
    var g := LocalGroups(p, row);
    assert InField(p, g[0][0]) && InField(p, g[1][0]) && InField(p, g[4][0]) && InField(p, g[5][0]);
    hide FMul, FAdd, FSub, Binary, SquareBodies, MulBodies, InitBodies, PolyScalarMul, Eval;
    EvalConstant(p, g[0][0], beta);
    EvalConstant(p, g[1][0], beta);
    EvalConstant(p, g[4][0], beta);
    EvalConstant(p, g[5][0], beta);
    MixIsScaled(p, row[ACTIVE], SquareBodies(p, row), beta);
    MixIsScaled(p, row[ACTIVE], MulBodies(p, row), beta);
    MixIsScaled(p, row[IS_FIRST_ROW], InitBodies(p, row), beta);
  }

  lemma CrossAt(p: int, row: seq<int>, sh: seq<int>, beta: int)
    requires p > 1 && |row| == COLUMNS && |sh| == 19
    ensures At(p, CrossGroups(p, row, sh), beta) == CrossRowBodies(p, row, sh, beta)
  {
    assert InField(p, BitStep(p, row, sh));
    hide FMul, FAdd, FSub, BitStep, Continues, LastIndicator, GateAll, Differences, ResultDifferences, OutputDifferences, Eval;
    EvalConstant(p, BitStep(p, row, sh), beta);
  }

  // ---------------------------------------------------------------- what one challenge checks

  /** The sixteen coefficients, in powers of alpha, of the checked value of a row. */
  function Coefficients(p: int, row: seq<int>, next: seq<int>, x: int): (a: Poly)
    requires p > 1 && |row| == COLUMNS && |next| == COLUMNS
    ensures AllInField(p, a)
  {
    PolyAdd(p, Collect(p, LocalGroups(p, row)),
      seq(OFFSET, i => 0) + PolyScalarMul(p, Collect(p, CrossGroups(p, row, Shifted(next))), x))
  }

  /** With beta = alpha the checked value is the polynomial with those coefficients. */
  lemma CheckIsCoefficients(p: int, row: seq<int>, next: seq<int>, z: int, last: int, alpha: int)
    requires p > 1 && |row| == COLUMNS && |next| == COLUMNS
    ensures Check(p, row, next, z, last, alpha, alpha) ==
            Eval(p, Coefficients(p, row, next, FSub(p, z, last)), alpha)
  {
    hide FMul, FAdd, FSub, PolyAdd, PolyScalarMul, Collect, LocalGroups, CrossGroups, RowLocalBodies, CrossRowBodies, Eval, At;
    var x := FSub(p, z, last);
    var local, cross := Collect(p, LocalGroups(p, row)), Collect(p, CrossGroups(p, row, Shifted(next)));
    var bodies := CrossRowBodies(p, row, Shifted(next), alpha);
    CollectEval(p, LocalGroups(p, row), alpha);
    LocalAt(p, row, alpha);
    CollectEval(p, CrossGroups(p, row, Shifted(next)), alpha);
    CrossAt(p, row, Shifted(next), alpha);
    EvalAdd(p, local, seq(OFFSET, i => 0) + PolyScalarMul(p, cross, x), alpha);
    EvalZeroPrefix(p, OFFSET, PolyScalarMul(p, cross, x), alpha);
    EvalScalarMul(p, cross, x, alpha);
    ExcludedFactors(p, bodies, x, alpha, OFFSET, 6);
    assert bodies[..6] == bodies;
    Reorder(p, x, FPow(p, alpha, OFFSET), Eval(p, bodies, alpha));
  }

  lemma Reorder(p: int, x: int, w: int, v: int)
    requires p > 1
    ensures FMul(p, FMul(p, x, w), v) == FMul(p, w, FMul(p, v, x))
  {
    ModMulLeft(p, x * w, v);
    ModMulLeft(p, w, v * x);
    assert x * w * v == w * (v * x);
  }

  lemma OverlayOne(p: int, e: int, q: Poly)
    requires p > 1 && InField(p, e) && AllInField(p, q)
    ensures PolyAdd(p, [e], [0] + q) == [e] + q
  {
    hide FAdd;
    AddZero(p, e);
    forall i | 0 <= i < |q| ensures FAdd(p, 0, q[i]) == q[i] {
      AddZero(p, q[i]);
    }
  }

  /** A group of four laid over at least three coefficients one power further along. */
  lemma OverlayFour(p: int, a: Poly, q: Poly)
    requires p > 1 && |a| == 4 && AllInField(p, a) && AllInField(p, q) && |q| >= 3
    ensures PolyAdd(p, a, [0] + q) == [a[0], FAdd(p, a[1], q[0]), FAdd(p, a[2], q[1]), FAdd(p, a[3], q[2])] + q[3..]
  {
    hide FAdd;
    AddZero(p, a[0]);
    forall i | 0 <= i < |q| ensures FAdd(p, 0, q[i]) == q[i] {
      AddZero(p, q[i]);
    }
  }

  lemma OverlayLast(p: int, a: Poly)
    requires p > 1 && |a| > 0 && AllInField(p, a)
    ensures Collect(p, [a]) == a
  {
    hide FAdd;
    assert [a][1..] == [];
    forall i | 0 <= i < |a| ensures FAdd(p, a[i], 0) == a[i] {
      AddZero(p, a[i]);
    }
  }

  lemma CollectStep(p: int, groups: seq<Poly>, i: nat)
    requires p > 1 && i < |groups|
    ensures Collect(p, groups[i..]) == PolyAdd(p, groups[i], [0] + Collect(p, groups[i + 1..]))
  {
    assert groups[i..][1..] == groups[i + 1..];
  }

  predicate LocalShape(p: int, g: seq<Poly>) {
    && |g| == 7 && |g[0]| == 1 && |g[1]| == 1 && |g[2]| == 4 && |g[3]| == 4 && |g[4]| == 1 && |g[5]| == 1 && |g[6]| == 4
    && AllInField(p, g[0]) && AllInField(p, g[1]) && AllInField(p, g[2]) && AllInField(p, g[3])
    && AllInField(p, g[4]) && AllInField(p, g[5]) && AllInField(p, g[6])
  }

  predicate CrossShape(p: int, g: seq<Poly>) {
    && |g| == 6 && |g[0]| == 4 && |g[1]| == 4 && |g[2]| == 1 && |g[3]| == 4 && |g[4]| == 4 && |g[5]| == 4
    && AllInField(p, g[0]) && AllInField(p, g[1]) && AllInField(p, g[2])
    && AllInField(p, g[3]) && AllInField(p, g[4]) && AllInField(p, g[5])
  }

  /** The row-local groups overlap from limb 1 of the squaring on. */
  lemma OverlayLocal(p: int, g: seq<Poly>)
    requires p > 1 && LocalShape(p, g)
    ensures Collect(p, g) == [ g[0][0], g[1][0], g[2][0], FAdd(p, g[2][1], g[3][0]),
                               FAdd(p, g[2][2], FAdd(p, g[3][1], g[4][0])), FAdd(p, g[2][3], FAdd(p, g[3][2], g[5][0])),
                               FAdd(p, g[3][3], g[6][0]), g[6][1], g[6][2], g[6][3] ]
  {
    hide FAdd, PolyAdd, Collect;
    assert g[6..] == [g[6]] && g[0..] == g;
    OverlayLast(p, g[6]);
    var c5 := [g[5][0]] + g[6];
    CollectStep(p, g, 5);
    OverlayOne(p, g[5][0], g[6]);
    assert g[5] == [g[5][0]] && g[4] == [g[4][0]] && g[1] == [g[1][0]] && g[0] == [g[0][0]];
    CollectStep(p, g, 4);
    OverlayOne(p, g[4][0], c5);
    CollectStep(p, g, 3);
    var c3 := Collect(p, g[3..]);
    OverlayFour(p, g[3], [g[4][0]] + c5);
    assert c3 == [g[3][0], FAdd(p, g[3][1], g[4][0]), FAdd(p, g[3][2], g[5][0]), FAdd(p, g[3][3], g[6][0]), g[6][1], g[6][2], g[6][3]];
    CollectStep(p, g, 2);
    OverlayFour(p, g[2], c3);
    CollectStep(p, g, 1);
    OverlayOne(p, g[1][0], Collect(p, g[2..]));
    CollectStep(p, g, 0);
    OverlayOne(p, g[0][0], Collect(p, g[1..]));
  }

  /** So do the cross-row groups, each with the next. */
  lemma OverlayCross(p: int, g: seq<Poly>)
    requires p > 1 && CrossShape(p, g)
    ensures Collect(p, g) == [ g[0][0], FAdd(p, g[0][1], g[1][0]), FAdd(p, g[0][2], FAdd(p, g[1][1], g[2][0])),
                               FAdd(p, g[0][3], FAdd(p, g[1][2], g[3][0])), FAdd(p, g[1][3], FAdd(p, g[3][1], g[4][0])),
                               FAdd(p, g[3][2], FAdd(p, g[4][1], g[5][0])), FAdd(p, g[3][3], FAdd(p, g[4][2], g[5][1])),
                               FAdd(p, g[4][3], g[5][2]), g[5][3] ]
  {
    hide FAdd, PolyAdd, Collect;
    assert g[5..] == [g[5]] && g[0..] == g && g[2] == [g[2][0]];
    OverlayLast(p, g[5]);
    CollectStep(p, g, 4);
    OverlayFour(p, g[4], g[5]);
    assert g[5][3..] == [g[5][3]];
    var c4 := Collect(p, g[4..]);
    assert c4 == [g[4][0], FAdd(p, g[4][1], g[5][0]), FAdd(p, g[4][2], g[5][1]), FAdd(p, g[4][3], g[5][2]), g[5][3]];
    CollectStep(p, g, 3);
    OverlayFour(p, g[3], c4);
    var c3 := Collect(p, g[3..]);
    assert c3 == [g[3][0], FAdd(p, g[3][1], c4[0]), FAdd(p, g[3][2], c4[1]), FAdd(p, g[3][3], c4[2]), c4[3], c4[4]];
    CollectStep(p, g, 2);
    OverlayOne(p, g[2][0], c3);
    CollectStep(p, g, 1);
    var c2 := [g[2][0]] + c3;
    assert c2[0] == g[2][0] && c2[1] == c3[0] && c2[2] == c3[1] && c2[3..] == c3[2..];
    OverlayFour(p, g[1], c2);
    var c1 := Collect(p, g[1..]);
    assert c1 == [g[1][0], FAdd(p, g[1][1], c2[0]), FAdd(p, g[1][2], c2[1]), FAdd(p, g[1][3], c2[2]), c3[2], c3[3], c3[4], c3[5]];
    CollectStep(p, g, 0);
    OverlayFour(p, g[0], c1);
    assert c1[3..] == [c1[3], c1[4], c1[5], c1[6], c1[7]];
  }

  lemma GroupShapes(p: int, row: seq<int>, sh: seq<int>)
    requires p > 1 && |row| == COLUMNS && |sh| == 19
    ensures LocalShape(p, LocalGroups(p, row)) && CrossShape(p, CrossGroups(p, row, sh))
  {
    assert InField(p, BitStep(p, row, sh));
    hide FAdd, FSub, LimbBody, Binary, BitStep, Continues, LastIndicator;
  }

  lemma CoefficientCount(p: int, row: seq<int>, next: seq<int>, x: int)
    requires p > 1 && |row| == COLUMNS && |next| == COLUMNS
    ensures |Coefficients(p, row, next, x)| == 16
  {
    hide FAdd, LocalGroups, CrossGroups, LocalShape, CrossShape;
    GroupShapes(p, row, Shifted(next));
    OverlayLocal(p, LocalGroups(p, row));
    OverlayCross(p, CrossGroups(p, row, Shifted(next)));
  }

  /**
   The row-local part alone, as the code mixes it, vanishes for every challenge exactly when its ten
   overlaid coefficients do.
   */
  lemma LocalMixIff(p: int, row: seq<int>)
    requires IsPrime(p) && p >= 16 && |row| == COLUMNS
    ensures (forall alpha :: InField(p, alpha) ==> Eval(p, RowLocalBodies(p, row, alpha), alpha) == 0) <==>
            AllZero(Collect(p, LocalGroups(p, row)))
  {
    hide FAdd, LocalGroups, RowLocalBodies, AllZero, Eval, LocalShape;
    var g := LocalGroups(p, row);
    GroupShapes(p, row, seq(19, i => 0));
    OverlayLocal(p, g);
    forall alpha ensures Eval(p, RowLocalBodies(p, row, alpha), alpha) == Eval(p, Collect(p, g), alpha) {
      LocalAt(p, row, alpha);
      CollectEval(p, g, alpha);
    }
    AllChallenges(p, Collect(p, g));
  }

  /** And the cross-row part exactly when its nine do. */
  lemma CrossMixIff(p: int, row: seq<int>, sh: seq<int>)
    requires IsPrime(p) && p >= 16 && |row| == COLUMNS && |sh| == 19
    ensures (forall alpha :: InField(p, alpha) ==> Eval(p, CrossRowBodies(p, row, sh, alpha), alpha) == 0) <==>
            AllZero(Collect(p, CrossGroups(p, row, sh)))
  {
    hide FAdd, CrossGroups, CrossRowBodies, AllZero, Eval, CrossShape;
    var g := CrossGroups(p, row, sh);
    GroupShapes(p, row, sh);
    OverlayCross(p, g);
    forall alpha ensures Eval(p, CrossRowBodies(p, row, sh, alpha), alpha) == Eval(p, Collect(p, g), alpha) {
      CrossAt(p, row, sh, alpha);
      CollectEval(p, g, alpha);
    }
    AllChallenges(p, Collect(p, g));
  }

  /** The code's check of a row passes for every challenge exactly when all sixteen coefficients vanish. */
  lemma CheckPassesIff(p: int, row: seq<int>, next: seq<int>, z: int, last: int)
    requires IsPrime(p) && p >= 16 && |row| == COLUMNS && |next| == COLUMNS
    ensures (forall alpha :: InField(p, alpha) ==> Check(p, row, next, z, last, alpha, alpha) == 0) <==>
            AllZero(Coefficients(p, row, next, FSub(p, z, last)))
  {
    hide Check, Coefficients, FSub, AllZero, Eval;
    var a := Coefficients(p, row, next, FSub(p, z, last));
    CoefficientCount(p, row, next, FSub(p, z, last));
    forall alpha ensures Check(p, row, next, z, last, alpha, alpha) == Eval(p, a, alpha) {
      CheckIsCoefficients(p, row, next, z, last, alpha);
    }
    AllChallenges(p, a);
  }

  /** A row with a nonzero coefficient passes at most fifteen challenges. */
  lemma SixteenChallengesDecide(p: int, row: seq<int>, next: seq<int>, z: int, last: int, alphas: seq<int>)
    requires IsPrime(p) && |row| == COLUMNS && |next| == COLUMNS
    requires |alphas| >= 16 && AllInField(p, alphas) && Distinct(alphas)
    requires forall i :: 0 <= i < |alphas| ==> Check(p, row, next, z, last, alphas[i], alphas[i]) == 0
    ensures AllZero(Coefficients(p, row, next, FSub(p, z, last)))
  {
    hide Check, Coefficients, FSub, AllZero, Eval;
    CoefficientCount(p, row, next, FSub(p, z, last));
    forall i | 0 <= i < |alphas| ensures Eval(p, Coefficients(p, row, next, FSub(p, z, last)), alphas[i]) == 0 {
      CheckIsCoefficients(p, row, next, z, last, alphas[i]);
    }
    RootBound(p, Coefficients(p, row, next, FSub(p, z, last)), alphas);
  }

  // ---------------------------------------------------------------- two challenges check every limb

  /** The thirteen bodies of the checked value, as coefficients in alpha, for a fixed beta. */
  function Bodies(p: int, row: seq<int>, next: seq<int>, x: int, beta: int): (a: Poly)
    requires p > 1 && |row| == COLUMNS && |next| == COLUMNS
    ensures |a| == 13
  {
    RowLocalBodies(p, row, beta) + PolyScalarMul(p, CrossRowBodies(p, row, Shifted(next), beta), x)
  }

  lemma CheckIsBodies(p: int, row: seq<int>, next: seq<int>, z: int, last: int, beta: int, alpha: int)
    requires p > 1 && |row| == COLUMNS && |next| == COLUMNS
    ensures Check(p, row, next, z, last, beta, alpha) == Eval(p, Bodies(p, row, next, FSub(p, z, last), beta), alpha)
  {
    hide FMul, FAdd, FSub, PolyScalarMul, RowLocalBodies, CrossRowBodies, Eval;
    var x := FSub(p, z, last);
    var bodies := CrossRowBodies(p, row, Shifted(next), beta);
    EvalConcat(p, RowLocalBodies(p, row, beta), PolyScalarMul(p, bodies, x), alpha);
    EvalScalarMul(p, bodies, x, alpha);
    ExcludedFactors(p, bodies, x, alpha, OFFSET, 6);
    assert bodies[..6] == bodies;
    Reorder(p, x, FPow(p, alpha, OFFSET), Eval(p, bodies, alpha));
  }

  lemma BodiesInField(p: int, row: seq<int>, next: seq<int>, x: int, beta: int)
    requires p > 1 && |row| == COLUMNS && |next| == COLUMNS
    ensures AllInField(p, Bodies(p, row, next, x, beta)) && AllInField(p, CrossRowBodies(p, row, Shifted(next), beta))
  {
    var l := RowLocalBodies(p, row, beta);
    assert InField(p, l[0]) && InField(p, l[1]) && InField(p, l[2]) && InField(p, l[3]);
    assert InField(p, l[4]) && InField(p, l[5]) && InField(p, l[6]);
    assert InField(p, BitStep(p, row, Shifted(next)));
    hide FMul, FAdd, FSub, Binary, BitStep, Eval, SquareBodies, MulBodies, InitBodies;
  }

  lemma BodiesZeroIff(p: int, row: seq<int>, next: seq<int>, x: int, beta: int)
    requires IsPrime(p) && InField(p, x) && |row| == COLUMNS && |next| == COLUMNS
    ensures AllZero(Bodies(p, row, next, x, beta)) <==>
            AllZero(RowLocalBodies(p, row, beta)) && (x == 0 || AllZero(CrossRowBodies(p, row, Shifted(next), beta)))
  {
    BodiesInField(p, row, next, x, beta);
    hide FMul, FAdd, FSub, RowLocalBodies, CrossRowBodies;
    var l, c := RowLocalBodies(p, row, beta), CrossRowBodies(p, row, Shifted(next), beta);
    var a := Bodies(p, row, next, x, beta);
    assert forall i :: 0 <= i < 7 ==> a[i] == l[i];
    forall i | 0 <= i < 6 ensures a[7 + i] == 0 <==> x == 0 || c[i] == 0 {
      NoZeroDivisors(p, c[i], x);
    }
    if AllZero(a) {
      forall i | 0 <= i < 7 ensures l[i] == 0 { assert a[i] == 0; }
      forall i | 0 <= i < 6 ensures x == 0 || c[i] == 0 { assert a[7 + i] == 0; }
    }
    if AllZero(l) && (x == 0 || AllZero(c)) {
      forall i | 0 <= i < 13 ensures a[i] == 0 {
        if i >= 7 {
          assert a[7 + (i - 7)] == 0;
        }
      }
    }
  }

  /** Groups all vanish exactly when their values do for every challenge. */
  lemma GroupsVanishIff(p: int, groups: seq<Poly>)
    requires IsPrime(p) && forall i :: 0 <= i < |groups| ==> AllInField(p, groups[i]) && |groups[i]| <= p
    ensures (forall i :: 0 <= i < |groups| ==> AllZero(groups[i])) <==>
            forall beta :: InField(p, beta) ==> AllZero(At(p, groups, beta))
  {
    hide Eval;
    forall i | 0 <= i < |groups|
      ensures AllZero(groups[i]) <==> forall beta :: InField(p, beta) ==> Eval(p, groups[i], beta) == 0
    {
      AllChallenges(p, groups[i]);
    }
    if forall beta :: InField(p, beta) ==> AllZero(At(p, groups, beta)) {
      forall i, beta | 0 <= i < |groups| && InField(p, beta) ensures Eval(p, groups[i], beta) == 0 {
        assert At(p, groups, beta)[i] == 0;
      }
    }
  }

  lemma GateAllZeroIff(p: int, gate: int, bodies: seq<int>)
    requires p > 1
    ensures AllZero(GateAll(p, gate, bodies)) <==> Gated(p, gate, bodies)
  {
    hide FMul;
    var g := GateAll(p, gate, bodies);
    assert forall i :: 0 <= i < |bodies| ==> g[i] == FMul(p, gate, bodies[i]);
    if AllZero(g) {
      forall k | 0 <= k < |bodies| ensures FMul(p, gate, bodies[k]) == 0 {
        assert g[k] == 0;
      }
    }
  }

  lemma CrossGroupsZeroIff(p: int, row: seq<int>, next: seq<int>)
    requires p > 1 && |row| == COLUMNS && |next| == COLUMNS
    ensures var g := CrossGroups(p, row, Shifted(next));
      CrossOk(p, row, next) <==> forall i :: 0 <= i < |g| ==> AllZero(g[i])
  {
    hide FMul, FAdd, FSub, BitStep, Continues, LastIndicator, GateAll, Gated, Differences, ResultDifferences, OutputDifferences, AllZero;
    var sh := Shifted(next);
    var g, c := CrossGroups(p, row, sh), Continues(p, sh);
    GateAllZeroIff(p, c, ResultDifferences(p, row, sh));
    GateAllZeroIff(p, c, Differences(p, row, sh, 4, BASE));
    GateAllZeroIff(p, c, Differences(p, row, sh, 10, EXPONENT));
    GateAllZeroIff(p, c, Differences(p, row, sh, 14, FINAL_OUTPUT));
    GateAllZeroIff(p, LastIndicator(p, row, sh), OutputDifferences(p, row));
    SingleZero(BitStep(p, row, sh));
    assert (forall i :: 0 <= i < |g| ==> AllZero(g[i])) ==>
      AllZero(g[0]) && AllZero(g[1]) && AllZero(g[2]) && AllZero(g[3]) && AllZero(g[4]) && AllZero(g[5]);
  }

  lemma SingleZero(t: int)
    ensures AllZero([t]) <==> t == 0
  {
    assert [t][0] == t;
  }

  /** The cross-row bodies vanish limb by limb exactly when their mixes vanish for every beta. */
  lemma CrossOkIff(p: int, row: seq<int>, next: seq<int>)
    requires IsPrime(p) && p >= 4 && |row| == COLUMNS && |next| == COLUMNS
    ensures CrossOk(p, row, next) <==>
            forall beta :: InField(p, beta) ==> AllZero(CrossRowBodies(p, row, Shifted(next), beta))
  {
    hide CrossOk, CrossGroups, CrossRowBodies, AllZero, At;
    var g := CrossGroups(p, row, Shifted(next));
    CrossGroupsZeroIff(p, row, next);
    GroupShapes(p, row, Shifted(next));
    forall beta ensures At(p, g, beta) == CrossRowBodies(p, row, Shifted(next), beta) {
      CrossAt(p, row, Shifted(next), beta);
    }
    GroupsVanishIff(p, g);
  }

  /** With beta drawn apart from alpha, the check passes for all challenges exactly when every limb body vanishes. */
  lemma SeparatePassesIff(p: int, row: seq<int>, next: seq<int>, z: int, last: int)
    requires IsPrime(p) && p >= 16 && ValidRow(p, row) && |next| == COLUMNS && InField(p, z) && InField(p, last)
    ensures (forall beta, alpha :: InField(p, beta) && InField(p, alpha) ==> Check(p, row, next, z, last, beta, alpha) == 0) <==>
            RowOk(p, row) && (z == last || CrossOk(p, row, next))
  {
    hide Check, FSub, RowOk, CrossOk, RowLocalBodies, CrossRowBodies, Bodies, AllZero, Eval;
    var x := FSub(p, z, last);
    SubZeroIff(p, z, last);
    forall beta
      ensures (forall alpha :: InField(p, alpha) ==> Check(p, row, next, z, last, beta, alpha) == 0) <==>
              AllZero(RowLocalBodies(p, row, beta)) && (x == 0 || AllZero(CrossRowBodies(p, row, Shifted(next), beta)))
    {
      forall alpha ensures Check(p, row, next, z, last, beta, alpha) == Eval(p, Bodies(p, row, next, x, beta), alpha) {
        CheckIsBodies(p, row, next, z, last, beta, alpha);
      }
      BodiesInField(p, row, next, x, beta);
      AllChallenges(p, Bodies(p, row, next, x, beta));
      BodiesZeroIff(p, row, next, x, beta);
    }
    RowOkIff(p, row);
    CrossOkIff(p, row, next);
    assert InField(p, 0);
  }

  /** Limb-by-limb vanishing passes the code's check for every challenge. */
  lemma LimbwisePasses(p: int, row: seq<int>, next: seq<int>, z: int, last: int)
    requires IsPrime(p) && p >= 16 && ValidRow(p, row) && |next| == COLUMNS && InField(p, z) && InField(p, last)
    requires RowOk(p, row) && (z == last || CrossOk(p, row, next))
    ensures AllZero(Coefficients(p, row, next, FSub(p, z, last)))
  {
    hide Check, FSub, RowOk, CrossOk, Coefficients, AllZero;
    SeparatePassesIff(p, row, next, z, last);
    CheckPassesIff(p, row, next, z, last);
  }

  // ---------------------------------------------------------------- whole traces

  function NextRow(rows: seq<seq<int>>, r: nat): seq<int>
    requires r < |rows|
  {
    if r + 1 < |rows| then rows[r + 1] else rows[0]
  }

  ghost predicate AllValidRows(p: int, rows: seq<seq<int>>) {
    forall r :: 0 <= r < |rows| ==> ValidRow(p, rows[r])
  }

  /** The check vanishes at domain point r of the trace. */
  ghost predicate PassesAt(p: int, rows: seq<seq<int>>, omega: int, r: nat, beta: int, alpha: int)
    requires p > 1 && r < |rows| && AllValidRows(p, rows)
  {
    Check(p, rows[r], NextRow(rows, r), FPow(p, omega, r), LastPoint(p, omega, |rows|), beta, alpha) == 0
  }

  /** The check vanishes on the whole domain 1, omega, omega^2, ... */
  ghost predicate Passes(p: int, rows: seq<seq<int>>, omega: int, beta: int, alpha: int)
    requires p > 1 && AllValidRows(p, rows)
  {
    forall r: nat :: r < |rows| ==> PassesAt(p, rows, omega, r, beta, alpha)
  }

  /** No domain point before the last equals it. */
  ghost predicate LastApart(p: int, omega: int, n: nat)
    requires p > 1
  {
    forall r: nat :: r + 1 < n ==> FPow(p, omega, r) != LastPoint(p, omega, n)
  }

  /** On a domain whose generator has order n the last point is the generator's inverse, and no earlier point equals it. */
  lemma LastPointIs(p: int, omega: int, n: nat)
    requires p > 1 && n > 0 && FPow(p, omega, n) == 1
    requires forall k: nat :: 0 < k < n ==> FPow(p, omega, k) != 1
    ensures FMul(p, omega, LastPoint(p, omega, n)) == 1 && LastApart(p, omega, n)
  {
    hide FMul, FPow;
    NextPoint(p, omega, n - 1);
    forall r: nat | r + 1 < n ensures FPow(p, omega, r) != LastPoint(p, omega, n) {
      NextPoint(p, omega, r);
      assert FPow(p, omega, r + 1) != 1;
    }
  }

  /** The rows a set of column polynomials takes on the domain. */
  function DomainRows(p: int, cols: seq<Poly>, omega: int, n: nat): (rows: seq<seq<int>>)
    requires p > 1
    ensures |rows| == n && forall r :: 0 <= r < n ==> rows[r] == At(p, cols, FPow(p, omega, r))
  {
    seq(n, r requires 0 <= r < n => At(p, cols, FPow(p, omega, r)))
  }

  lemma DomainStep(p: int, cols: seq<Poly>, omega: int, n: nat, i: nat)
    requires p > 1 && i < n && FPow(p, omega, n) == 1
    ensures At(p, cols, FMul(p, omega, FPow(p, omega, i))) == NextRow(DomainRows(p, cols, omega, n), i)
  {
    hide FMul, At, FPow;
    NextPoint(p, omega, i);
    if i + 1 == n {
      assert FMul(p, omega, FPow(p, omega, i)) == FPow(p, omega, 0);
    }
  }

  lemma NextPoint(p: int, omega: int, i: nat)
    requires p > 1
    ensures FPow(p, omega, i + 1) == FMul(p, omega, FPow(p, omega, i)) && FPow(p, omega, 0) == 1
  {}

  lemma DomainRowsValid(p: int, cols: seq<Poly>, omega: int, n: nat)
    requires p > 1 && |cols| == COLUMNS
    ensures AllValidRows(p, DomainRows(p, cols, omega, n))
  {}

  /** The combined polynomial vanishes on the domain exactly when the rows there pass. */
  method BuildOnDomain(p: int, cols: seq<Poly>, alpha: int, n: nat, omega: int) returns (r: Poly)
    requires p > NUM_STEPS && InField(p, alpha) && InField(p, omega) && |cols| == COLUMNS
    requires FPow(p, omega, n) == 1
    ensures AllValidRows(p, DomainRows(p, cols, omega, n))
    ensures VanishesOnDomain(p, r, omega, n) <==> Passes(p, DomainRows(p, cols, omega, n), omega, alpha, alpha)
  {
    hide Check, FMul, Eval, At, FPow, LastPoint, NextRow, AllValidRows;
    r := BuildCheck(p, cols, alpha, n, omega);
    DomainRowsValid(p, cols, omega, n);
    ghost var rows := DomainRows(p, cols, omega, n);
    forall i: nat | i < n
      ensures Eval(p, r, FPow(p, omega, i)) == 0 <==> PassesAt(p, rows, omega, i, alpha, alpha)
    {
      DomainStep(p, cols, omega, n, i);
    }
    if VanishesOnDomain(p, r, omega, n) {
      forall i: nat | i < n ensures PassesAt(p, rows, omega, i, alpha, alpha) {
        assert Eval(p, r, FPow(p, omega, i)) == 0;
      }
      assert Passes(p, rows, omega, alpha, alpha);
    }
    if Passes(p, rows, omega, alpha, alpha) {
      forall i: nat | i < n ensures Eval(p, r, FPow(p, omega, i)) == 0 {
        assert PassesAt(p, rows, omega, i, alpha, alpha);
      }
      assert VanishesOnDomain(p, r, omega, n);
    }
  }

  predicate VanishesOnDomain(p: int, a: Poly, omega: int, n: nat)
    requires p > 1
  {
    forall i: nat :: i < n ==> Eval(p, a, FPow(p, omega, i)) == 0
  }

  /** The code's check: the same challenge inside and across, whatever it is. */
  ghost predicate PassesSingle(p: int, rows: seq<seq<int>>, omega: int)
    requires p > 1 && AllValidRows(p, rows)
  {
    forall alpha :: InField(p, alpha) ==> Passes(p, rows, omega, alpha, alpha)
  }

  ghost predicate RowPassesSingle(p: int, rows: seq<seq<int>>, omega: int, r: nat)
    requires p > 1 && r < |rows| && AllValidRows(p, rows)
  {
    forall alpha :: InField(p, alpha) ==> PassesAt(p, rows, omega, r, alpha, alpha)
  }

  /** The check with the two challenges drawn apart. */
  ghost predicate PassesSeparate(p: int, rows: seq<seq<int>>, omega: int)
    requires p > 1 && AllValidRows(p, rows)
  {
    forall beta, alpha :: InField(p, beta) && InField(p, alpha) ==> Passes(p, rows, omega, beta, alpha)
  }

  ghost predicate RowPassesSeparate(p: int, rows: seq<seq<int>>, omega: int, r: nat)
    requires p > 1 && r < |rows| && AllValidRows(p, rows)
  {
    forall beta, alpha :: InField(p, beta) && InField(p, alpha) ==> PassesAt(p, rows, omega, r, beta, alpha)
  }

  lemma RowByRow(p: int, rows: seq<seq<int>>, omega: int)
    requires p > 1 && AllValidRows(p, rows)
    ensures PassesSingle(p, rows, omega) <==> forall r: nat :: r < |rows| ==> RowPassesSingle(p, rows, omega, r)
    ensures PassesSeparate(p, rows, omega) <==> forall r: nat :: r < |rows| ==> RowPassesSeparate(p, rows, omega, r)
  {
    hide PassesAt, AllValidRows;
    if PassesSingle(p, rows, omega) {
      forall r: nat, alpha | r < |rows| && InField(p, alpha) ensures PassesAt(p, rows, omega, r, alpha, alpha) {
        assert Passes(p, rows, omega, alpha, alpha);
      }
    }
    if forall r: nat :: r < |rows| ==> RowPassesSingle(p, rows, omega, r) {
      forall alpha, r: nat | InField(p, alpha) && r < |rows| ensures PassesAt(p, rows, omega, r, alpha, alpha) {
        assert RowPassesSingle(p, rows, omega, r);
      }
    }
    if PassesSeparate(p, rows, omega) {
      forall r: nat, beta, alpha | r < |rows| && InField(p, beta) && InField(p, alpha)
        ensures PassesAt(p, rows, omega, r, beta, alpha)
      {
        assert Passes(p, rows, omega, beta, alpha);
      }
    }
    if forall r: nat :: r < |rows| ==> RowPassesSeparate(p, rows, omega, r) {
      forall beta, alpha, r: nat | InField(p, beta) && InField(p, alpha) && r < |rows|
        ensures PassesAt(p, rows, omega, r, beta, alpha)
      {
        assert RowPassesSeparate(p, rows, omega, r);
      }
    }
  }

  lemma RowCoefficients(p: int, rows: seq<seq<int>>, omega: int, r: nat)
    requires IsPrime(p) && p >= 16 && AllValidRows(p, rows) && r < |rows|
    ensures RowPassesSingle(p, rows, omega, r) <==> AllZero(CoefficientsAt(p, rows, omega, r))
  {
    hide Check, Coefficients, AllZero, FSub, FPow, LastPoint;
    CheckPassesIff(p, rows[r], NextRow(rows, r), FPow(p, omega, r), LastPoint(p, omega, |rows|));
  }

  ghost function CoefficientsAt(p: int, rows: seq<seq<int>>, omega: int, r: nat): Poly
    requires p > 1 && r < |rows| && AllValidRows(p, rows)
  {
    Coefficients(p, rows[r], NextRow(rows, r), FSub(p, FPow(p, omega, r), LastPoint(p, omega, |rows|)))
  }

  /** A trace passes the code's check for every challenge exactly when all coefficients of all rows vanish. */
  lemma TracePassesIff(p: int, rows: seq<seq<int>>, omega: int)
    requires IsPrime(p) && p >= 16 && AllValidRows(p, rows)
    ensures PassesSingle(p, rows, omega) <==>
            forall r: nat :: r < |rows| ==> AllZero(CoefficientsAt(p, rows, omega, r))
  {
    hide RowPassesSingle, CoefficientsAt, AllZero, PassesSingle, AllValidRows;
    RowByRow(p, rows, omega);
    forall r: nat | r < |rows|
      ensures RowPassesSingle(p, rows, omega, r) <==> AllZero(CoefficientsAt(p, rows, omega, r))
    {
      RowCoefficients(p, rows, omega, r);
    }
  }

  lemma RowSeparate(p: int, rows: seq<seq<int>>, omega: int, r: nat)
    requires IsPrime(p) && p >= 16 && AllValidRows(p, rows) && LastApart(p, omega, |rows|) && r < |rows|
    ensures RowPassesSeparate(p, rows, omega, r) <==>
            RowOk(p, rows[r]) && (r + 1 < |rows| ==> CrossOk(p, rows[r], rows[r + 1]))
  {
    hide Check, RowOk, CrossOk;
    SeparatePassesIff(p, rows[r], NextRow(rows, r), FPow(p, omega, r), LastPoint(p, omega, |rows|));
  }

  /** With separate challenges a trace passes for all of them exactly when it is accepted limb by limb. */
  lemma SeparateAcceptsIff(p: int, rows: seq<seq<int>>, omega: int)
    requires IsPrime(p) && p >= 16 && AllValidRows(p, rows) && LastApart(p, omega, |rows|)
    ensures PassesSeparate(p, rows, omega) <==> Accepted(p, rows)
  {
    hide RowPassesSeparate, PassesSeparate, RowOk, CrossOk, LastApart;
    RowByRow(p, rows, omega);
    if PassesSeparate(p, rows, omega) {
      forall r: nat | r < |rows| ensures RowOk(p, rows[r]) && (r + 1 < |rows| ==> CrossOk(p, rows[r], rows[r + 1])) {
        assert RowPassesSeparate(p, rows, omega, r);
        RowSeparate(p, rows, omega, r);
      }
    }
    if Accepted(p, rows) {
      forall r: nat | r < |rows| ensures RowPassesSeparate(p, rows, omega, r) {
        assert r + 1 < |rows| ==> CrossOk(p, rows[r], rows[r + 1]);
        RowSeparate(p, rows, omega, r);
      }
    }
  }

  /** An accepted trace passes the code's check. */
  lemma AcceptedPasses(p: int, rows: seq<seq<int>>, omega: int)
    requires IsPrime(p) && p >= 16 && AllValidRows(p, rows) && LastApart(p, omega, |rows|)
    requires Accepted(p, rows)
    ensures PassesSingle(p, rows, omega)
  {
    hide Accepted, Passes, LastApart;
    SeparateAcceptsIff(p, rows, omega);
  }

  /** So with separate challenges the value chosen in the last row of any run is the power its bits spell. */
  lemma SoundWithSeparateChallenges(p: int, rows: seq<seq<int>>, omega: int, s: nat, e: nat)
    requires ExpField(p) && AllValidRows(p, rows) && LastApart(p, omega, |rows|)
    requires PassesSeparate(p, rows, omega) && Run(p, rows, s, e)
    ensures forall r :: s <= r <= e ==> |rows[r]| == COLUMNS && 0 <= rows[r][EXP_BIT]
    ensures Chosen(p, rows[e]).Value() == Pow(LimbsAt(rows[s], BASE).Value(), Spelled(rows, s, e + 1)) % M
  {
    hide PassesSeparate, LastApart, Accepted, Chosen, Spelled, LimbsAt;
    SeparateAcceptsIff(p, rows, omega);
    ExpSound(p, rows, s, e);
  }
}
