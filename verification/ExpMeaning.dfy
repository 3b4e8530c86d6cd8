/**
 What one accepted row, and one accepted step, of the EXP gadget say in their columns: exact
 conditions on column values, with no polynomial and no gate left in them.
 */
module ExpMeaning {
  import opened PrimeField
  import opened PolyArith
  import opened LimbChain
  import opened ExpAir

  predicate Bit(x: int) {
    x == 0 || x == 1
  }

  /** The limb equations of the row's two products, over the integers. */
  predicate Products(row: seq<int>)
    requires |row| == 36
  {
    var r, b := Limbs(row[0], row[1], row[2], row[3]), Limbs(row[4], row[5], row[6], row[7]);
    var s, m := Limbs(row[8], row[9], row[10], row[11]), Limbs(row[16], row[17], row[18], row[19]);
    && ChainHolds(r, r, s, Limbs(row[12], row[13], row[14], row[15]))
    && ChainHolds(s, b, m, Limbs(row[20], row[21], row[22], row[23]))
  }

  lemma BinaryIff(p: int, x: int)
    requires IsPrime(p) && InField(p, x)
    ensures Binary(p, x) == 0 <==> Bit(x)
  {
    NoZeroDivisors(p, x, FSub(p, x, 1));
    SubZeroIff(p, x, 1);
  }

  lemma GatedIff(p: int, gate: int, bodies: seq<int>)
    requires IsPrime(p) && AllInField(p, bodies) && InField(p, gate)
    ensures Gated(p, gate, bodies) <==> gate == 0 || AllZero(bodies)
  {
    hide FMul;
    forall k | 0 <= k < |bodies| ensures FMul(p, gate, bodies[k]) == 0 <==> gate == 0 || bodies[k] == 0 {
      NoZeroDivisors(p, gate, bodies[k]);
    }
  }

  lemma ProductsIff(p: int, row: seq<int>)
    requires ExpField(p) && ValidRow(p, row) && InRanges(row)
    ensures AllZero(SquareBodies(p, row)) && AllZero(MulBodies(p, row)) <==> Products(row)
  {
    hide LimbBody, LimbEquation;
    var a, s, cs := LimbsAt(row, RESULT_IN), LimbsAt(row, SQUARED), LimbsAt(row, SQUARED_CARRY);
    var b, m, cm := LimbsAt(row, BASE), LimbsAt(row, MUL), LimbsAt(row, MUL_CARRY);
    var sq, mu := SquareBodies(p, row), MulBodies(p, row);
    forall k | 0 <= k < 4
      ensures sq[k] == 0 <==> LimbEquation(a, a, s, cs, k)
      ensures mu[k] == 0 <==> LimbEquation(s, b, m, cm, k)
    {
      LimbBodyExact(p, a, a, s, cs, k);
      LimbBodyExact(p, s, b, m, cm, k);
    }
    assert AllZero(sq) <==> sq[0] == 0 && sq[1] == 0 && sq[2] == 0 && sq[3] == 0;
    assert AllZero(mu) <==> mu[0] == 0 && mu[1] == 0 && mu[2] == 0 && mu[3] == 0;
  }

  lemma InitIff(p: int, row: seq<int>)
    requires p > 1 && ValidRow(p, row)
    ensures AllInField(p, InitBodies(p, row))
    ensures AllZero(InitBodies(p, row)) <==> row[0] == 1 && row[1] == 0 && row[2] == 0 && row[3] == 0
  {
    hide FSub;
    var b := InitBodies(p, row);
    SubZeroIff(p, row[0], 1);
    assert AllZero(b) <==> b[0] == 0 && b[1] == 0 && b[2] == 0 && b[3] == 0;
  }

  /**
   A row with limbs in range passes exactly when its flags are bits, an active row's exponent bit is
   one and its two products hold limb by limb, and a first row starts from 1 with bit index 255.
   Of an inactive row nothing else is asked.
   */
  lemma RowMeaning(p: int, row: seq<int>)
    requires ExpField(p) && ValidRow(p, row) && InRanges(row)
    ensures RowOk(p, row) <==> RowSays(row)
  {
    hide FMul, FSub, Binary, Gated, SquareBodies, MulBodies, InitBodies, AllZero;
    BinaryIff(p, row[24]);
    BinaryIff(p, row[26]);
    BinaryIff(p, row[35]);
    NoZeroDivisors(p, row[26], Binary(p, row[24]));
    NoZeroDivisors(p, row[35], FSub(p, row[25], 255));
    SubZeroIff(p, row[25], 255);
    BodiesInField(p, row);
    GatedIff(p, row[26], SquareBodies(p, row));
    GatedIff(p, row[26], MulBodies(p, row));
    ProductsIff(p, row);
    InitIff(p, row);
    GatedIff(p, row[35], InitBodies(p, row));
  }

  predicate RowSays(row: seq<int>)
    requires |row| == 36
  {
    Bit(row[26]) && Bit(row[35]) && ActiveRow(row) && FirstRow(row)
  }

  predicate ActiveRow(row: seq<int>)
    requires |row| == 36
  {
    row[26] != 0 ==> Bit(row[24]) && Products(row)
  }

  predicate FirstRow(row: seq<int>)
    requires |row| == 36
  {
    row[35] != 0 ==> row[0] == 1 && row[1] == 0 && row[2] == 0 && row[3] == 0 && row[25] == 255
  }

  lemma BodiesInField(p: int, row: seq<int>)
    requires p > 1 && |row| == COLUMNS
    ensures AllInField(p, SquareBodies(p, row)) && AllInField(p, MulBodies(p, row))
  {
    hide SquareBody, MulBody;
  }

  // ---------------------------------------------------------------- one step

  /** The columns a row hands to its successor: limb i of the product if its exponent bit is set, else of the square. */
  function Passed(p: int, row: seq<int>, i: nat): int
    requires p > 1 && |row| == 36 && i < 4
  {
    (row[24] * row[16 + i] + (1 - row[24]) * row[8 + i]) % p
  }

  /** The next row belongs to the same invocation: active, and not the first. */
  predicate Same(next: seq<int>)
    requires |next| == 36
  {
    next[26] == 1 && next[35] == 0
  }

  /** It takes over the passed value, and base, exponent and output unchanged. */
  predicate TakesOver(p: int, row: seq<int>, next: seq<int>)
    requires p > 1 && |row| == |next| == 36
  {
    && (forall i :: 0 <= i < 4 ==> next[i] == Passed(p, row, i))
    && (forall i :: 4 <= i < 8 ==> next[i] == row[i])
    && (forall i :: 27 <= i < 35 ==> next[i] == row[i])
  }

  predicate StepSays(p: int, row: seq<int>, next: seq<int>)
    requires p > 1 && |row| == |next| == 36
  {
    && (Same(next) ==> TakesOver(p, row, next))
    && (next[35] == 0 ==> next[25] == (row[25] - next[26]) % p)
    && (row[26] == 1 && !Same(next) ==> forall i :: 0 <= i < 4 ==> row[31 + i] == Passed(p, row, i))
  }

  lemma PassedIs(p: int, row: seq<int>, i: nat)
    requires p > 1 && |row| == COLUMNS && i < 4
    ensures ChosenLimb(p, row, i) == Passed(p, row, i)
  {
    ModAdd(p, row[24] * row[16 + i], FSub(p, 1, row[24]) * row[8 + i]);
    ModMulLeft(p, 1 - row[24], row[8 + i]);
    ModAdd(p, row[24] * row[16 + i], (1 - row[24]) * row[8 + i]);
  }

  lemma FourZero(b: seq<int>)
    requires |b| == 4
    ensures AllZero(b) <==> b[0] == 0 && b[1] == 0 && b[2] == 0 && b[3] == 0
  {}

  lemma ShiftedAre(next: seq<int>)
    requires |next| == COLUMNS
    ensures var sh := Shifted(next);
      sh[4..8] == next[4..8] && sh[10..14] == next[27..31] && sh[14..18] == next[31..35]
  {}

  lemma DifferencesIff(p: int, row: seq<int>, next: seq<int>, sh: seq<int>, shifted: nat, offset: nat)
    requires p > 1 && ValidRow(p, row) && ValidRow(p, next) && |sh| == 19 && shifted + 4 <= 19 && offset + 4 <= COLUMNS
    requires sh[shifted..shifted + 4] == next[offset..offset + 4]
    ensures var d := Differences(p, row, sh, shifted, offset);
      AllInField(p, d) && (AllZero(d) <==> forall i :: offset <= i < offset + 4 ==> next[i] == row[i])
  {
    hide FSub;
    var d := Differences(p, row, sh, shifted, offset);
    FourZero(d);
    forall i | 0 <= i < 4 ensures InField(p, d[i]) && (d[i] == 0 <==> next[offset + i] == row[offset + i]) {
      assert sh[shifted..shifted + 4][i] == next[offset..offset + 4][i];
      SubZeroIff(p, next[offset + i], row[offset + i]);
    }
    assert next[offset + 0] == next[offset];
  }

  lemma ResultIff(p: int, row: seq<int>, next: seq<int>)
    requires p > 1 && ValidRow(p, row) && ValidRow(p, next)
    ensures var d := ResultDifferences(p, row, Shifted(next));
      AllInField(p, d) && (AllZero(d) <==> forall i :: 0 <= i < 4 ==> next[i] == Passed(p, row, i))
  {
    hide FSub, ChosenLimb, Passed;
    var d := ResultDifferences(p, row, Shifted(next));
    FourZero(d);
    forall i | 0 <= i < 4 ensures d[i] == 0 <==> next[i] == Passed(p, row, i) {
      PassedIs(p, row, i);
      SubZeroIff(p, next[i], ChosenLimb(p, row, i));
    }
  }

  lemma OutputIff(p: int, row: seq<int>)
    requires p > 1 && ValidRow(p, row)
    ensures var d := OutputDifferences(p, row);
      AllInField(p, d) && (AllZero(d) <==> forall i :: 0 <= i < 4 ==> row[31 + i] == Passed(p, row, i))
  {
    hide FSub, ChosenLimb, Passed;
    var d := OutputDifferences(p, row);
    FourZero(d);
    forall i | 0 <= i < 4 ensures d[i] == 0 <==> row[31 + i] == Passed(p, row, i) {
      PassedIs(p, row, i);
      SubZeroIff(p, row[31 + i], ChosenLimb(p, row, i));
    }
  }

  lemma BitStepIff(p: int, row: seq<int>, next: seq<int>)
    requires IsPrime(p) && ValidRow(p, row) && ValidRow(p, next) && Bit(next[26]) && Bit(next[35])
    ensures BitStep(p, row, Shifted(next)) == 0 <==> next[35] == 1 || next[25] == (row[25] - next[26]) % p
  {
    var d := FSub(p, row[25], next[26]);
    SubZeroIff(p, next[25], d);
    NoZeroDivisors(p, FSub(p, 1, next[35]), FSub(p, next[25], d));
    SubZeroIff(p, 1, next[35]);
  }

  lemma GatesAre(p: int, row: seq<int>, next: seq<int>)
    requires IsPrime(p) && p > 2 && ValidRow(p, row) && ValidRow(p, next)
    requires Bit(row[26]) && Bit(next[26]) && Bit(next[35])
    ensures var c, l := Continues(p, Shifted(next)), LastIndicator(p, row, Shifted(next));
      && InField(p, c) && (c != 0 <==> Same(next))
      && InField(p, l) && (l != 0 <==> row[26] == 1 && !Same(next))
  {
    ModSmall(p, 0);
    ModSmall(p, 1);
    ModSmall(p, 2);
  }

  /**
   Between rows with bits for flags a step passes exactly when a row of the same invocation takes
   over, the bit index goes down by the next row's activity except into a first row, and an active row
   not followed by its own invocation holds the passed value in FINAL_OUTPUT.
   */
  lemma StepMeaning(p: int, row: seq<int>, next: seq<int>)
    requires IsPrime(p) && p > 2 && ValidRow(p, row) && ValidRow(p, next)
    requires Bit(row[26]) && Bit(next[26]) && Bit(next[35])
    ensures CrossOk(p, row, next) <==> StepSays(p, row, next)
  {
    hide FMul, FSub, FAdd, ChosenLimb, Passed, Gated, Continues, LastIndicator, BitStep, AllZero;
    hide Differences, ResultDifferences, OutputDifferences;
    var sh := Shifted(next);
    var c := Continues(p, sh);
    GatesAre(p, row, next);
    BitStepIff(p, row, next);
    ResultIff(p, row, next);
    OutputIff(p, row);
    ShiftedAre(next);
    DifferencesIff(p, row, next, sh, 4, BASE);
    DifferencesIff(p, row, next, sh, 10, EXPONENT);
    DifferencesIff(p, row, next, sh, 14, FINAL_OUTPUT);
    GatedIff(p, c, ResultDifferences(p, row, sh));
    GatedIff(p, c, Differences(p, row, sh, 4, BASE));
    GatedIff(p, c, Differences(p, row, sh, 10, EXPONENT));
    GatedIff(p, c, Differences(p, row, sh, 14, FINAL_OUTPUT));
    GatedIff(p, LastIndicator(p, row, sh), OutputDifferences(p, row));
  }

  // ---------------------------------------------------------------- whole traces

  /** Acceptance of a trace with limbs in range, in column values alone. */
  lemma AcceptedMeaning(p: int, rows: seq<seq<int>>)
    requires ExpField(p) && forall r :: 0 <= r < |rows| ==> |rows[r]| == 36 && ValidRow(p, rows[r]) && InRanges(rows[r])
    ensures Accepted(p, rows) <==>
      (forall r :: 0 <= r < |rows| ==> RowSays(rows[r])) &&
      (forall r :: 0 <= r < |rows| - 1 ==> StepSays(p, rows[r], rows[r + 1]))
  {
    hide RowOk, CrossOk, ActiveRow, FirstRow, StepSays, InRanges;
    forall r | 0 <= r < |rows| ensures RowOk(p, rows[r]) <==> RowSays(rows[r]) {
      RowMeaning(p, rows[r]);
    }
    if forall r :: 0 <= r < |rows| ==> RowSays(rows[r]) {
      forall r | 0 <= r < |rows| - 1 ensures CrossOk(p, rows[r], rows[r + 1]) <==> StepSays(p, rows[r], rows[r + 1]) {
        assert RowSays(rows[r]) && RowSays(rows[r + 1]);
        StepMeaning(p, rows[r], rows[r + 1]);
      }
    }
    if Accepted(p, rows) {
      forall r | 0 <= r < |rows| - 1 ensures StepSays(p, rows[r], rows[r + 1]) {
        assert CrossOk(p, rows[r], rows[r + 1]);
      }
    }
  }
}
