/**
 Which bases and exponents overflow: the products of the EXP witness are those of the powers spelled
 by the exponent's upper bits, so what the generator gets right can be read off its inputs.
 */
module ExpOverflow {
  import opened Common
  import opened PrimeField
  import opened LimbChain
  import opened ExpAir
  import opened ExpWitness

  // ---------------------------------------------------------------- upper bits

  function QuotientBy(e: nat, t: nat): nat
    requires t > 0
  {
    e / t
  }

  /** The number spelled by bits k and up. */
  function Upper(e: nat, k: nat): nat {
    QuotientBy(e, Two(k))
  }

  lemma NoLarger(e: nat, t: int)
    requires t > 0
    ensures e / t <= e
  {
    ScaleUp(e / t, t);
  }

  lemma ScaleUp(q: nat, t: int)
    requires t > 0
    ensures q * t >= q
  {
    assert q * t == q + q * (t - 1);
  }

  lemma UpperBits(e: nat, k: nat)
    ensures Upper(e, k) == 2 * Upper(e, k + 1) + Bit(e, k) && Upper(e, k) <= e
    ensures e < Two(k + 1) ==> Upper(e, k + 1) == 0
  {
    HalveQuotient(e, Two(k));
    if e < Two(k + 1) {
      ModUnique(Two(k + 1), e, 0, e);
    }
    NoLarger(e, Two(k));
  }

  // ---------------------------------------------------------------- the powers a run goes through

  /** base^e mod 2^256. */
  function PowerLimbs(base: Limbs, e: nat): Limbs {
    ToLimbs(Pow(base.Value(), e) % M)
  }

  /** The accumulator that should enter row r: the base to the bits above those still to be read. */
  function Entering(base: Limbs, exponent: nat, r: nat): Limbs
    requires r <= NUM_STEPS
  {
    PowerLimbs(base, Upper(exponent, NUM_STEPS - r))
  }

  function Squared(base: Limbs, exponent: nat, r: nat): Limbs
    requires r <= NUM_STEPS
  {
    PowerLimbs(base, 2 * Upper(exponent, NUM_STEPS - r))
  }

  /** Neither product of row r overflows a limb accumulator: a condition on base and exponent alone. */
  predicate PowersFit(base: Limbs, exponent: nat, r: nat)
    requires r < NUM_STEPS
  {
    && NoOverflow(Entering(base, exponent, r), Entering(base, exponent, r))
    && NoOverflow(Squared(base, exponent, r), base)
  }

  /** Limb 1 of the products of row r that are used does not overflow. */
  predicate UsedFit(base: Limbs, exponent: nat, r: nat)
    requires r < NUM_STEPS
  {
    && Limb1Fits(Entering(base, exponent, r), Entering(base, exponent, r))
    && (Bit(exponent, NUM_STEPS - 1 - r) == 1 ==> Limb1Fits(Squared(base, exponent, r), base))
  }

  lemma PowerLimbsValue(base: Limbs, e: nat)
    ensures PowerLimbs(base, e).InRange() && PowerLimbs(base, e).Value() == Pow(base.Value(), e) % M
  {
    hide ToLimbs, Pow;
    ToLimbsValue(Pow(base.Value(), e) % M);
  }

  /** In-range limbs with the value of a power are that power. */
  lemma IsPower(a: Limbs, base: Limbs, e: nat)
    requires a.InRange()
    ensures a.Value() == Pow(base.Value(), e) % M <==> a == PowerLimbs(base, e)
  {
    hide PowerLimbs, Pow;
    PowerLimbsValue(base, e);
    if a.Value() == Pow(base.Value(), e) % M {
      ValueInjective(a, PowerLimbs(base, e));
    }
  }

  lemma PowerProducts(b: int, e: nat)
    ensures (Pow(b, e) % M) * (Pow(b, e) % M) % M == Pow(b, 2 * e) % M
    ensures (Pow(b, 2 * e) % M) * b % M == Pow(b, 2 * e + 1) % M
  {
    var r := Pow(b, e) % M;
    var sq := FMul(M, r, r);
    PowerStep(M, b, e, 0, r, sq, FMul(M, sq, b));
    PowerStep(M, b, e, 1, r, sq, FMul(M, sq, b));
  }

  /** From the right accumulator the square is right exactly when its limb 1 fits, and so is the product. */
  lemma PowerProductsExact(base: Limbs, e: nat)
    requires base.InRange()
    ensures SchoolbookMul(PowerLimbs(base, e), PowerLimbs(base, e)).0 == PowerLimbs(base, 2 * e) <==>
            Limb1Fits(PowerLimbs(base, e), PowerLimbs(base, e))
    ensures SchoolbookMul(PowerLimbs(base, 2 * e), base).0 == PowerLimbs(base, 2 * e + 1) <==>
            Limb1Fits(PowerLimbs(base, 2 * e), base)
  {
    hide PowerLimbs, Pow, SchoolbookMul, Limb1Fits, NoOverflow;
    var a, q := PowerLimbs(base, e), PowerLimbs(base, 2 * e);
    PowerLimbsValue(base, e);
    PowerLimbsValue(base, 2 * e);
    PowerProducts(base.Value(), e);
    SchoolbookExactIff(a, a);
    SchoolbookExactIff(q, base);
    SchoolbookAcceptedIff(a, a);
    SchoolbookAcceptedIff(q, base);
    IsPower(SchoolbookMul(a, a).0, base, 2 * e);
    IsPower(SchoolbookMul(q, base).0, base, 2 * e + 1);
  }

  lemma NextUpper(exponent: nat, r: nat)
    requires r < NUM_STEPS
    ensures Upper(exponent, NUM_STEPS - (r + 1)) ==
      2 * Upper(exponent, NUM_STEPS - r) + Bit(exponent, NUM_STEPS - 1 - r)
  {
    UpperBits(exponent, NUM_STEPS - 1 - r);
  }

  /** Row r done right: the square and the value passed on are the powers they should be. */
  predicate RowRight(base: Limbs, exponent: nat, r: nat)
    requires r < NUM_STEPS
  {
    && WitnessRow(base, exponent, r).squared == Squared(base, exponent, r)
    && WitnessRow(base, exponent, r).Out() == Entering(base, exponent, r + 1)
  }

  /** A row entered with the right accumulator is done right exactly when the products it uses fit. */
  lemma RowRightIff(base: Limbs, exponent: nat, r: nat)
    requires base.InRange() && r < NUM_STEPS
    requires WitnessRow(base, exponent, r).resultIn == Entering(base, exponent, r)
    ensures RowRight(base, exponent, r) <==> UsedFit(base, exponent, r)
  {
    hide PowerLimbs, SchoolbookMul, WitnessRow, Upper, Limb1Fits, Bit;
    var q := Upper(exponent, NUM_STEPS - r);
    WitnessShape(base, exponent, r);
    WitnessRanges(base, exponent, r);
    NextUpper(exponent, r);
    PowerProductsExact(base, q);
  }

  /** The condition on the row's own products is the condition on base and exponent. */
  lemma RowFitsIff(base: Limbs, exponent: nat, r: nat)
    requires base.InRange() && r < NUM_STEPS
    requires WitnessRow(base, exponent, r).resultIn == Entering(base, exponent, r)
    ensures RowFits(base, exponent, r) <==> PowersFit(base, exponent, r)
    ensures PowersFit(base, exponent, r) ==> UsedFit(base, exponent, r)
  {
    hide PowerLimbs, SchoolbookMul, WitnessRow, Upper, Limb1Fits, NoOverflow, Bit;
    var e, q := Entering(base, exponent, r), Squared(base, exponent, r);
    WitnessShape(base, exponent, r);
    WitnessRanges(base, exponent, r);
    PowerLimbsValue(base, Upper(exponent, NUM_STEPS - r));
    PowerLimbsValue(base, 2 * Upper(exponent, NUM_STEPS - r));
    SchoolbookAcceptedIff(e, e);
    SchoolbookAcceptedIff(q, base);
    PowerProductsExact(base, Upper(exponent, NUM_STEPS - r));
  }

  lemma FirstEntering(base: Limbs, exponent: nat)
    requires exponent < Two(NUM_STEPS)
    ensures Entering(base, exponent, 0) == Limbs(1, 0, 0, 0)
  {
    UpperBits(exponent, NUM_STEPS - 1);
    assert Pow(base.Value(), 0) % M == 1;
    assert ToLimbs(1) == Limbs(1, 0, 0, 0);
  }

  /** While the rows so far are right, the next starts from the right power. */
  lemma EntersRight(base: Limbs, exponent: nat, r: nat)
    requires exponent < Two(NUM_STEPS) && r < NUM_STEPS && (r > 0 ==> RowRight(base, exponent, r - 1))
    ensures WitnessRow(base, exponent, r).resultIn == Entering(base, exponent, r)
  {
    hide Entering, WitnessRow, Squared;
    WitnessShape(base, exponent, r);
    FirstEntering(base, exponent);
  }

  /** All squares and accumulators of the run are right exactly when limb 1 of every product used fits. */
  lemma {:induction false} RowsRightIff(base: Limbs, exponent: nat, n: nat)
    requires base.InRange() && exponent < Two(NUM_STEPS) && n <= NUM_STEPS
    ensures (forall r :: 0 <= r < n ==> RowRight(base, exponent, r)) <==>
            (forall r :: 0 <= r < n ==> UsedFit(base, exponent, r))
  {
    hide RowRight, UsedFit, WitnessRow, Entering;
    if n > 0 {
      RowsRightIff(base, exponent, n - 1);
      if forall r :: 0 <= r < n - 1 ==> RowRight(base, exponent, r) {
        EntersRight(base, exponent, n - 1);
        RowRightIff(base, exponent, n - 1);
      }
    }
  }

  /** No accumulator of the first n rows overflows exactly when none does for the powers they should hold. */
  lemma {:induction false} RowsFitIff(base: Limbs, exponent: nat, n: nat)
    requires base.InRange() && exponent < Two(NUM_STEPS) && n <= NUM_STEPS
    ensures (forall r :: 0 <= r < n ==> RowFits(base, exponent, r)) <==>
            (forall r :: 0 <= r < n ==> PowersFit(base, exponent, r))
    ensures (forall r :: 0 <= r < n ==> PowersFit(base, exponent, r)) ==>
            (forall r :: 0 <= r < n ==> RowRight(base, exponent, r))
  {
    hide RowRight, UsedFit, RowFits, PowersFit, WitnessRow, Entering;
    if n > 0 {
      RowsFitIff(base, exponent, n - 1);
      if forall r :: 0 <= r < n - 1 ==> RowRight(base, exponent, r) {
        EntersRight(base, exponent, n - 1);
        RowFitsIff(base, exponent, n - 1);
        RowRightIff(base, exponent, n - 1);
      }
    }
  }

  // ---------------------------------------------------------------- what follows for the trace

  /**
   The generated trace is accepted exactly when, for every prefix of the exponent's bits, neither
   squaring the power it spells nor multiplying that square by the base overflows.
   */
  lemma WitnessAcceptedIff(p: int, base: Limbs, exponent: nat, x: Limbs)
    requires ExpField(p) && base.InRange() && x.InRange() && exponent < Two(NUM_STEPS)
    ensures Accepted(p, Trace(base, exponent, x)) <==> forall r :: 0 <= r < NUM_STEPS ==> PowersFit(base, exponent, r)
  {
    hide Accepted, Trace, RowFits, PowersFit;
    AcceptedIffRowsFit(p, base, exponent, x);
    RowsFitIff(base, exponent, NUM_STEPS);
  }

  lemma LastEntering(base: Limbs, exponent: nat)
    ensures Entering(base, exponent, NUM_STEPS) == PowerLimbs(base, exponent)
  {
    assert Upper(exponent, 0) == exponent;
  }

  /** If limb 1 of every product used fits, the witness ends in base^exponent mod 2^256. */
  lemma WitnessComputesPower(base: Limbs, exponent: nat)
    requires base.InRange() && exponent < Two(NUM_STEPS)
    requires forall r :: 0 <= r < NUM_STEPS ==> UsedFit(base, exponent, r)
    ensures WitnessRow(base, exponent, NUM_STEPS - 1).Out().Value() == Pow(base.Value(), exponent) % M
  {
    hide WitnessRow, UsedFit, PowerLimbs, Entering;
    RowsRightIff(base, exponent, NUM_STEPS);
    assert RowRight(base, exponent, NUM_STEPS - 1);
    LastEntering(base, exponent);
    PowerLimbsValue(base, exponent);
  }

  lemma FittingComputesPower(base: Limbs, exponent: nat)
    requires base.InRange() && exponent < Two(NUM_STEPS)
    requires forall r :: 0 <= r < NUM_STEPS ==> PowersFit(base, exponent, r)
    ensures WitnessRow(base, exponent, NUM_STEPS - 1).Out().Value() == Pow(base.Value(), exponent) % M
  {
    hide WitnessRow, UsedFit, PowersFit, RowRight;
    RowsFitIff(base, exponent, NUM_STEPS);
    RowsRightIff(base, exponent, NUM_STEPS);
    WitnessComputesPower(base, exponent);
  }

  // ---------------------------------------------------------------- large bases are rejected

  /** The position of the highest set bit. */
  lemma {:induction false} TopBit(e: nat, n: nat) returns (k: nat)
    requires 0 < e < Two(n)
    ensures k < n && Upper(e, k) == 1
  {
    if n > 0 {
      UpperBits(e, n - 1);
      if Upper(e, n - 1) == 1 {
        k := n - 1;
      } else {
        BelowTwo(e, n - 1);
        k := TopBit(e, n - 1);
      }
    }
  }

  lemma BelowTwo(e: nat, k: nat)
    requires Upper(e, k) == 0
    ensures e < Two(k)
  {
    assert e == (e / Two(k)) * Two(k) + e % Two(k);
  }

  lemma FirstPower(base: Limbs)
    requires base.InRange()
    ensures PowerLimbs(base, 1) == base
  {
    hide ToLimbs;
    ValueRange(base);
    assert Pow(base.Value(), 1) == base.Value() * Pow(base.Value(), 0);
    IsPower(base, base, 1);
  }

  /** A base whose square overflows is rejected with every exponent above 1. */
  lemma LargeBaseRejected(p: int, base: Limbs, exponent: nat, x: Limbs)
    requires ExpField(p) && base.InRange() && x.InRange() && 2 <= exponent < Two(NUM_STEPS)
    requires !NoOverflow(base, base)
    ensures !Accepted(p, Trace(base, exponent, x))
  {
    hide Accepted, Trace, NoOverflow, PowerLimbs, Upper, Two;
    var k := TopBit(exponent, NUM_STEPS);
    assert k > 0 by { UpperZero(exponent); }
    var r := NUM_STEPS - k;
    FirstPower(base);
    assert Entering(base, exponent, r) == base;
    assert !PowersFit(base, exponent, r);
    WitnessAcceptedIff(p, base, exponent, x);
  }

  lemma UpperZero(e: nat)
    ensures Upper(e, 0) == e
  {}

  /** For one: two limbs of ones, squared. */
  lemma LargeBaseExample(p: int, x: Limbs)
    requires ExpField(p) && x.InRange()
    ensures !Accepted(p, Trace(Limbs(B - 1, B - 1, 0, 0), 2, x))
  {
    hide Accepted, Trace;
    var base := Limbs(B - 1, B - 1, 0, 0);
    assert !NoOverflow(base, base) by {
      assert Column(base, base, 1) == 2 * ((B - 1) * (B - 1));
      assert 2 * ((B - 1) * (B - 1)) >= W128;
    }
    assert Two(2) == 4;
    TwoMonotone(2, NUM_STEPS);
    LargeBaseRejected(p, base, 2, x);
  }

  // ---------------------------------------------------------------- results that fit one limb

  lemma SmallProduct(x: int, y: int)
    requires 0 <= x < B && 0 <= y < B && 0 <= x * y < B
    ensures NoOverflow(Limbs(x, 0, 0, 0), Limbs(y, 0, 0, 0))
    ensures SchoolbookMul(Limbs(x, 0, 0, 0), Limbs(y, 0, 0, 0)) == (Limbs(x * y, 0, 0, 0), Limbs(0, 0, 0, 0))
  {
    var a, b := Limbs(x, 0, 0, 0), Limbs(y, 0, 0, 0);
    assert Column(a, b, 1) == 0 && Column(a, b, 2) == 0 && Column(a, b, 3) == 0;
    var z := x * y;
    assert Column(a, b, 0) == z;
    hide Column;
    assert z / B == 0 && z % B == z && z % W128 == z;
  }

  lemma {:induction false} PowMonotone(b: nat, e: nat, f: nat)
    requires b >= 1 && e <= f
    ensures 1 <= Pow(b, e) <= Pow(b, f)
    decreases f
  {
    if e == f {
      if e > 0 {
        PowMonotone(b, e - 1, e - 1);
        assert b * Pow(b, e - 1) >= 1 * Pow(b, e - 1);
      }
    } else {
      PowMonotone(b, e, f - 1);
      assert b * Pow(b, f - 1) >= 1 * Pow(b, f - 1);
    }
  }

  lemma PowNext(b: nat, e: nat)
    ensures Pow(b, e + 1) == b * Pow(b, e) && Pow(b, 0) == 1
  {}

  lemma WitnessRowIs(base: Limbs, exponent: nat, r: nat)
    requires r < NUM_STEPS
    ensures WitnessRow(base, exponent, r) ==
      MakeRow(if r == 0 then Limbs(1, 0, 0, 0) else WitnessRow(base, exponent, r - 1).Out(), base, exponent, NUM_STEPS - 1 - r)
  {}

  /** One row on single-limb powers: b^q becomes b^(2q + bit), within one limb throughout. */
  lemma SmallRow(b: nat, q: nat, exponent: nat, k: nat)
    requires b >= 1 && 2 * q + Bit(exponent, k) <= exponent && Pow(b, exponent + 1) < B
    ensures var row := MakeRow(Limbs(Pow(b, q), 0, 0, 0), Limbs(b, 0, 0, 0), exponent, k);
      && row.Out() == Limbs(Pow(b, 2 * q + Bit(exponent, k)), 0, 0, 0)
      && NoOverflow(row.resultIn, row.resultIn) && NoOverflow(row.squared, row.base)
  {
    hide SchoolbookMul, NoOverflow, Bit, Pow;
    PowMonotone(b, q, exponent + 1);
    PowMonotone(b, 1, exponent + 1);
    PowMonotone(b, 2 * q, exponent + 1);
    PowMonotone(b, 2 * q + 1, exponent + 1);
    PowAdd(b, q, q);
    PowNext(b, 2 * q);
    PowNext(b, 0);
    SmallProduct(Pow(b, q), Pow(b, q));
    SmallProduct(Pow(b, 2 * q), b);
  }

  lemma {:induction false} SmallPowersFit(b: nat, exponent: nat, r: nat)
    requires b >= 1 && exponent < Two(NUM_STEPS) && Pow(b, exponent + 1) < B && r < NUM_STEPS
    ensures WitnessRow(Limbs(b, 0, 0, 0), exponent, r).Out() == Limbs(Pow(b, Upper(exponent, NUM_STEPS - 1 - r)), 0, 0, 0)
    ensures RowFits(Limbs(b, 0, 0, 0), exponent, r)
  {
    hide MakeRow, NoOverflow, Two, Pow, Bit, WitnessRow, Upper;
    WitnessRowIs(Limbs(b, 0, 0, 0), exponent, r);
    var k := NUM_STEPS - 1 - r;
    UpperBits(exponent, k);
    if r == 0 {
      PowNext(b, 0);
    } else {
      SmallPowersFit(b, exponent, r - 1);
    }
    SmallRow(b, Upper(exponent, k + 1), exponent, k);
  }

  /** Whenever base^(exponent + 1) fits one limb the generated trace is an accepted run whose output is base^exponent itself. */
  lemma SmallPowersAccepted(p: int, b: nat, exponent: nat, x: Limbs)
    requires ExpField(p) && x.InRange() && exponent < Two(NUM_STEPS)
    requires b >= 1 && Pow(b, exponent + 1) < B
    ensures Accepted(p, Trace(Limbs(b, 0, 0, 0), exponent, x)) && Run(p, Trace(Limbs(b, 0, 0, 0), exponent, x), 0, NUM_STEPS - 1)
    ensures WitnessRow(Limbs(b, 0, 0, 0), exponent, NUM_STEPS - 1).Out() == Limbs(Pow(b, exponent), 0, 0, 0)
  {
    hide RowFits, Accepted, Run, WitnessRow, Trace;
    assert b < B by {
      PowMonotone(b, 1, exponent + 1);
      PowNext(b, 0);
    }
    var base := Limbs(b, 0, 0, 0);
    forall r | 0 <= r < NUM_STEPS ensures RowFits(base, exponent, r) {
      SmallPowersFit(b, exponent, r);
    }
    AcceptedIffRowsFit(p, base, exponent, x);
    WitnessIsRun(p, base, exponent, x);
    SmallPowersFit(b, exponent, NUM_STEPS - 1);
    assert Upper(exponent, 0) == exponent;
  }
}
