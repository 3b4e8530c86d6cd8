/**
 Arithmetic in the prime field of `p` elements, the setting of both the share and the constraint code.
 Elements are the integers in [0, p). The proofs elsewhere use the ring laws below by name and
 `hide` the remainder arithmetic behind them.
 */
module PrimeField {

  predicate Divides(d: int, n: int)
    requires d != 0
  {
    n % d == 0
  }

  ghost predicate IsPrime(p: int) {
    2 <= p && forall d :: 2 <= d < p ==> !Divides(d, p)
  }

  predicate InField(p: int, a: int) {
    0 <= a < p
  }

  predicate AllInField(p: int, s: seq<int>) {
    forall i :: 0 <= i < |s| ==> InField(p, s[i])
  }

  function FAdd(p: int, a: int, b: int): (r: int)
    requires p > 0
    ensures InField(p, r)
  {
    (a + b) % p
  }

  function FSub(p: int, a: int, b: int): (r: int)
    requires p > 0
    ensures InField(p, r)
  {
    (a - b) % p
  }

  function FMul(p: int, a: int, b: int): (r: int)
    requires p > 0
    ensures InField(p, r)
  {
    (a * b) % p
  }

  function FPow(p: int, a: int, e: nat): (r: int)
    requires p > 1
    ensures InField(p, r)
  {
    if e == 0 then 1 else FMul(p, a, FPow(p, a, e - 1))
  }

  // ---------------------------------------------------------------- remainders

  /** Quotient and remainder are unique. */
  lemma ModUnique(p: int, x: int, q: int, r: int)
    requires p > 0 && 0 <= r < p && x == q * p + r
    ensures x % p == r && x / p == q
  {
    var q', r' := x / p, x % p;
    var d := q' - q;
    assert d * p == r - r' by {
      assert q' * p + r' == q * p + r;
    }
    if d >= 1 {
      MulAtLeast(d, p);
    } else if d <= -1 {
      MulAtLeast(-d, p);
    }
  }

  lemma MulAtLeast(d: int, p: int)
    requires d >= 1 && p > 0
    ensures d * p >= p
  {}

  lemma ModShift(p: int, x: int, k: int)
    requires p > 0
    ensures (x + k * p) % p == x % p
  {
    ModUnique(p, x + k * p, x / p + k, x % p);
  }

  lemma ModSmall(p: int, x: int)
    requires 0 <= x < p
    ensures x % p == x
  {
    ModUnique(p, x, 0, x);
  }

  /** Reduction modulo p is a ring homomorphism: operands may be reduced first. */
  lemma ModAdd(p: int, a: int, b: int)
    requires p > 0
    ensures FAdd(p, a % p, b % p) == FAdd(p, a, b)
  {
    ModShift(p, a + b, -(a / p) - b / p);
    assert a + b + (-(a / p) - b / p) * p == a % p + b % p;
  }

  lemma ModSub(p: int, a: int, b: int)
    requires p > 0
    ensures FSub(p, a % p, b % p) == FSub(p, a, b)
  {
    ModShift(p, a - b, b / p - a / p);
    assert a - b + (b / p - a / p) * p == a % p - b % p;
  }

  lemma ModMul(p: int, a: int, b: int)
    requires p > 0
    ensures FMul(p, a % p, b % p) == FMul(p, a, b)
  {
    var qa, ra, qb, rb := a / p, a % p, b / p, b % p;
    var k := qa * rb + qb * ra + qa * qb * p;
    calc {
      a * b;
      (qa * p + ra) * (qb * p + rb);
      qa * p * (qb * p) + qa * p * rb + ra * (qb * p) + ra * rb;
      ra * rb + k * p;
    }
    ModShift(p, ra * rb, k);
  }

  /** Reducing either operand of a product alone. */
  lemma ModMulLeft(p: int, a: int, b: int)
    requires p > 0
    ensures FMul(p, a % p, b) == FMul(p, a, b) == FMul(p, a, b % p)
  {
    ModMul(p, a, b);
    ModMul(p, a % p, b);
    ModMul(p, a, b % p);
    ModSmall(p, a % p);
    ModSmall(p, b % p);
  }

  lemma ModAddLeft(p: int, a: int, b: int)
    requires p > 0
    ensures FAdd(p, a % p, b) == FAdd(p, a, b) == FAdd(p, a, b % p)
  {
    ModAdd(p, a, b);
    ModAdd(p, a % p, b);
    ModAdd(p, a, b % p);
    ModSmall(p, a % p);
    ModSmall(p, b % p);
  }

  lemma ModSubLeft(p: int, a: int, b: int)
    requires p > 0
    ensures FSub(p, a % p, b) == FSub(p, a, b) == FSub(p, a, b % p)
  {
    ModSub(p, a, b);
    ModSub(p, a % p, b);
    ModSub(p, a, b % p);
    ModSmall(p, a % p);
    ModSmall(p, b % p);
  }

  // ---------------------------------------------------------------- ring laws

  lemma AddAssoc(p: int, a: int, b: int, c: int)
    requires p > 0
    ensures FAdd(p, FAdd(p, a, b), c) == FAdd(p, a, FAdd(p, b, c))
  {
    ModAddLeft(p, a + b, c);
    ModAddLeft(p, a, b + c);
  }

  lemma AddZero(p: int, a: int)
    requires InField(p, a)
    ensures FAdd(p, 0, a) == a == FAdd(p, a, 0) == FSub(p, a, 0)
  {
    ModSmall(p, a);
  }

  lemma MulComm(p: int, a: int, b: int)
    requires p > 0
    ensures FMul(p, a, b) == FMul(p, b, a)
  {
    assert a * b == b * a;
  }

  lemma MulAssoc(p: int, a: int, b: int, c: int)
    requires p > 0
    ensures FMul(p, FMul(p, a, b), c) == FMul(p, a, FMul(p, b, c))
  {
    ModMulLeft(p, a * b, c);
    ModMulLeft(p, a, b * c);
    assert a * b * c == a * (b * c);
  }

  lemma MulOne(p: int, a: int)
    requires p > 1 && InField(p, a)
    ensures FMul(p, 1, a) == a == FMul(p, a, 1)
  {
    ModSmall(p, a);
  }

  lemma MulZero(p: int, a: int)
    requires p > 0
    ensures FMul(p, 0, a) == 0 == FMul(p, a, 0)
  {
    ModSmall(p, 0);
  }

  lemma Distrib(p: int, a: int, b: int, c: int)
    requires p > 0
    ensures FMul(p, a, FAdd(p, b, c)) == FAdd(p, FMul(p, a, b), FMul(p, a, c))
  {
    ModMulLeft(p, a, b + c);
    ModAdd(p, a * b, a * c);
    assert a * (b + c) == a * b + a * c;
  }

  lemma DistribSub(p: int, a: int, b: int, c: int)
    requires p > 0
    ensures FMul(p, a, FSub(p, b, c)) == FSub(p, FMul(p, a, b), FMul(p, a, c))
  {
    ModMulLeft(p, a, b - c);
    ModSub(p, a * b, a * c);
    assert a * (b - c) == a * b - a * c;
  }

  /** (a - b) - c and a - (b + c) agree. */
  lemma SubSub(p: int, a: int, b: int, c: int)
    requires p > 0
    ensures FSub(p, FSub(p, a, b), c) == FSub(p, a, FAdd(p, b, c))
  {
    ModSubLeft(p, a - b, c);
    ModSubLeft(p, a, b + c);
  }

  lemma SubCancel(p: int, a: int, b: int)
    requires InField(p, a) && p > 0
    ensures FAdd(p, FSub(p, a, b), b) == a
  {
    ModAddLeft(p, a - b, b);
    ModSmall(p, a);
  }

  lemma SubZeroIff(p: int, a: int, b: int)
    requires InField(p, a) && InField(p, b)
    ensures FSub(p, a, b) == 0 <==> a == b
  {
    if FSub(p, a, b) == 0 {
      SubCancel(p, a, b);
      ModSmall(p, b);
    } else if a == b {
      ModSmall(p, 0);
    }
  }

  /** Exchanging the middle terms of a sum of sums. */
  lemma AddSwap(p: int, a: int, b: int, c: int, d: int)
    requires p > 0
    ensures FAdd(p, FAdd(p, a, b), FAdd(p, c, d)) == FAdd(p, FAdd(p, a, c), FAdd(p, b, d))
  {
    ModAdd(p, a + b, c + d);
    ModAdd(p, a + c, b + d);
  }

  lemma SubSwap(p: int, a: int, b: int, c: int, d: int)
    requires p > 0
    ensures FSub(p, FAdd(p, a, b), FAdd(p, c, d)) == FAdd(p, FSub(p, a, c), FSub(p, b, d))
  {
    ModSub(p, a + b, c + d);
    ModAdd(p, a - c, b - d);
  }

  // ---------------------------------------------------------------- powers

  lemma {:induction false} PowSum(p: int, a: int, e: nat, f: nat)
    requires p > 1
    ensures FPow(p, a, e + f) == FMul(p, FPow(p, a, e), FPow(p, a, f))
  {
    hide FMul;
    if e == 0 {
      MulOne(p, FPow(p, a, f));
    } else {
      PowSum(p, a, e - 1, f);
      MulAssoc(p, a, FPow(p, a, e - 1), FPow(p, a, f));
    }
  }

  lemma {:induction false} PowSquare(p: int, b: int, e: nat)
    requires p > 1
    ensures FPow(p, b, 2 * e) == FPow(p, FMul(p, b, b), e)
  {
    hide FMul;
    if e > 0 {
      PowSquare(p, b, e - 1);
      MulAssoc(p, b, b, FPow(p, b, 2 * (e - 1)));
      assert FPow(p, b, 2 * e) == FMul(p, b, FPow(p, b, 2 * e - 1));
    }
  }

  // ---------------------------------------------------------------- inverses

  /**
   The inverse of a nonzero element, by one step of Euclid's algorithm per call:
   with p = q*a + r the remainder r is -q*a, so 1/a is -q/r.
   */
  function Inverse(p: int, a: int): (b: int)
    requires IsPrime(p) && 0 < a < p
    ensures InField(p, b) && FMul(p, a, b) == 1
    decreases a
  {
    if a == 1 then
      ModSmall(p, 1);
      1
    else
      var q, r := p / a, p % a;
      assert !Divides(a, p);
      var c := Inverse(p, r);
      InverseStep(p, a, q, r, c);
      FSub(p, 0, FMul(p, q, c))
  }

  lemma InverseStep(p: int, a: int, q: int, r: int, c: int)
    requires p > 1 && p == q * a + r && FMul(p, r, c) == 1
    ensures FMul(p, a, FSub(p, 0, FMul(p, q, c))) == 1
  {
    calc {
      FMul(p, a, FSub(p, 0, FMul(p, q, c)));
      { ModSubLeft(p, 0, q * c); }
      FMul(p, a, FSub(p, 0, q * c));
      { ModMulLeft(p, a, 0 - q * c); }
      (a * (0 - q * c)) % p;
      { assert a * (0 - q * c) == r * c + (-c) * p by {
          assert (-c) * p == (-c) * (q * a) + (-c) * r;
          assert (-c) * (q * a) == a * (0 - q * c);
        } }
      (r * c + (-c) * p) % p;
      { ModShift(p, r * c, -c); }
      FMul(p, r, c);
    }
  }

  /** `FieldElement::invert`: the inverse, and 0 for 0. */
  function Invert(p: int, a: int): (b: int)
    requires IsPrime(p) && InField(p, a)
    ensures InField(p, b)
    ensures a != 0 ==> FMul(p, a, b) == 1
  {
    if a == 0 then 0 else Inverse(p, a)
  }

  /** A prime field has no zero divisors. */
  lemma NoZeroDivisors(p: int, a: int, b: int)
    requires IsPrime(p) && InField(p, a) && InField(p, b)
    ensures FMul(p, a, b) == 0 <==> a == 0 || b == 0
  {
    MulZero(p, a);
    MulZero(p, b);
    if FMul(p, a, b) == 0 && a != 0 {
      var i := Inverse(p, a);
      calc {
        b;
        { MulOne(p, b); }
        FMul(p, FMul(p, a, i), b);
        { MulComm(p, a, i); MulAssoc(p, i, a, b); }
        FMul(p, i, FMul(p, a, b));
        { MulZero(p, i); }
        0;
      }
    }
  }
}
