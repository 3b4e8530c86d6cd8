/**
 Coefficient-form polynomials over the prime field: `[a0, a1, ..., an]` stands for a0 + a1*x + ... + an*x^n.
 Every operation is characterised by what it does to the value at an arbitrary point.
 */
module PolyArith {
  import opened Common
  import opened PrimeField

  type Poly = seq<int>

  /** The value of a polynomial at `z`. */
  function Eval(p: int, a: Poly, z: int): (v: int)
    requires p > 1
    ensures InField(p, v)
  {
    if a == [] then 0 else FAdd(p, a[0], FMul(p, z, Eval(p, a[1..], z)))
  }

  function Coef(a: Poly, i: int): int {
    if 0 <= i < |a| then a[i] else 0
  }

  function Rest(a: Poly): Poly {
    if a == [] then [] else a[1..]
  }

  // ---------------------------------------------------------------- operations

  function PolyAdd(p: int, a: Poly, b: Poly): (c: Poly)
    requires p > 1
    ensures |c| == Max(|a|, |b|) && AllInField(p, c)
  {
    seq(Max(|a|, |b|), i => FAdd(p, Coef(a, i), Coef(b, i)))
  }

  function PolySub(p: int, a: Poly, b: Poly): (c: Poly)
    requires p > 1
    ensures |c| == Max(|a|, |b|) && AllInField(p, c)
  {
    seq(Max(|a|, |b|), i => FSub(p, Coef(a, i), Coef(b, i)))
  }

  function PolyScalarMul(p: int, a: Poly, s: int): (c: Poly)
    requires p > 1
    ensures |c| == |a| && AllInField(p, c)
  {
    seq(|a|, i requires 0 <= i < |a| => FMul(p, a[i], s))
  }

  /** The coefficients of a(omega * x). */
  function PolyShift(p: int, a: Poly, omega: int): (c: Poly)
    requires p > 1
    ensures |c| == |a| && AllInField(p, c)
  {
    seq(|a|, i requires 0 <= i < |a| => FMul(p, a[i], FPow(p, omega, i)))
  }

  /** The coefficients of a(x) * (x - c). */
  function PolyMulLinear(p: int, a: Poly, c: int): (r: Poly)
    requires p > 1
    ensures |r| == |a| + 1 && AllInField(p, r)
  {
    if a == [] then [0] else seq(|a| + 1, i requires 0 <= i < |a| + 1 => LinearTerm(p, a, c, i))
  }

  function LinearTerm(p: int, a: Poly, c: int, i: int): (r: int)
    requires p > 1
    ensures InField(p, r)
  {
    FAdd(p, Coef(a, i - 1), FMul(p, Coef(a, i), FSub(p, 0, c)))
  }

  /** Coefficient m of the product: the sum of a[i] * b[m - i]. */
  function ConvCoef(p: int, a: Poly, b: Poly, m: int): (r: int)
    requires p > 1
    ensures InField(p, r)
  {
    if a == [] then 0 else FAdd(p, FMul(p, a[0], Coef(b, m)), ConvCoef(p, a[1..], b, m - 1))
  }

  function PolyMul(p: int, a: Poly, b: Poly): (c: Poly)
    requires p > 1
    ensures |c| > 0 && AllInField(p, c)
  {
    if a == [] || b == [] then [0] else
    seq(|a| + |b| - 1, m => ConvCoef(p, a, b, m))
  }

  // ---------------------------------------------------------------- values

  lemma {:induction false} EvalAdd(p: int, a: Poly, b: Poly, z: int)
    requires p > 1
    ensures Eval(p, PolyAdd(p, a, b), z) == FAdd(p, Eval(p, a, z), Eval(p, b, z))
    decreases |a| + |b|
  {
    hide FAdd, FMul;
    if a == [] && b == [] {
      AddZero(p, 0);
    } else {
      var a', b' := Rest(a), Rest(b);
      assert PolyAdd(p, a, b)[1..] == PolyAdd(p, a', b');
      EvalAdd(p, a', b', z);
      EvalSplit(p, a, z);
      EvalSplit(p, b, z);
      var (x, y) := (Eval(p, a', z), Eval(p, b', z));
      Distrib(p, z, x, y);
      AddSwap(p, Coef(a, 0), Coef(b, 0), FMul(p, z, x), FMul(p, z, y));
    }
  }

  lemma EvalSplit(p: int, a: Poly, z: int)
    requires p > 1
    ensures Eval(p, a, z) == FAdd(p, Coef(a, 0), FMul(p, z, Eval(p, Rest(a), z)))
  {
    if a == [] {
      MulZero(p, z);
      AddZero(p, 0);
    }
  }

  lemma {:induction false} EvalSub(p: int, a: Poly, b: Poly, z: int)
    requires p > 1
    ensures Eval(p, PolySub(p, a, b), z) == FSub(p, Eval(p, a, z), Eval(p, b, z))
    decreases |a| + |b|
  {
    hide FAdd, FMul, FSub;
    if a == [] && b == [] {
      AddZero(p, 0);
    } else {
      var a', b' := Rest(a), Rest(b);
      assert PolySub(p, a, b)[1..] == PolySub(p, a', b');
      EvalSub(p, a', b', z);
      EvalSplit(p, a, z);
      EvalSplit(p, b, z);
      var (x, y) := (Eval(p, a', z), Eval(p, b', z));
      DistribSub(p, z, x, y);
      SubSwap(p, Coef(a, 0), FMul(p, z, x), Coef(b, 0), FMul(p, z, y));
    }
  }

  lemma {:induction false} EvalScalarMul(p: int, a: Poly, s: int, z: int)
    requires p > 1
    ensures Eval(p, PolyScalarMul(p, a, s), z) == FMul(p, Eval(p, a, z), s)
  {
    hide FAdd, FMul;
    if a == [] {
      MulZero(p, s);
    } else {
      assert PolyScalarMul(p, a, s)[1..] == PolyScalarMul(p, a[1..], s);
      EvalScalarMul(p, a[1..], s, z);
      var v := Eval(p, a[1..], z);
      MulAssoc(p, z, v, s);
      MulComm(p, a[0], s);
      MulComm(p, FMul(p, z, v), s);
      Distrib(p, s, a[0], FMul(p, z, v));
      MulComm(p, s, FAdd(p, a[0], FMul(p, z, v)));
    }
  }

  lemma {:induction false} EvalShift(p: int, a: Poly, omega: int, z: int)
    requires p > 1
    ensures Eval(p, PolyShift(p, a, omega), z) == Eval(p, a, FMul(p, omega, z))
  {
    hide FAdd, FMul;
    if a != [] {
      var t := PolyShift(p, a[1..], omega);
      assert PolyShift(p, a, omega)[1..] == PolyScalarMul(p, t, omega) by {
        forall i | 0 <= i < |a| - 1
          ensures PolyShift(p, a, omega)[1..][i] == PolyScalarMul(p, t, omega)[i]
        {
          var w := FPow(p, omega, i);
          MulComm(p, omega, w);
          MulAssoc(p, a[i + 1], w, omega);
        }
      }
      EvalShift(p, a[1..], omega, z);
      EvalScalarMul(p, t, omega, z);
      var v := Eval(p, t, z);
      MulComm(p, v, omega);
      MulAssoc(p, z, omega, v);
      MulComm(p, z, omega);
      ShiftHead(p, a[0], FMul(p, FMul(p, omega, z), v));
    }
  }

  lemma ShiftHead(p: int, a: int, x: int)
    requires p > 1
    ensures FAdd(p, FMul(p, a, 1), x) == FAdd(p, a, x)
  {
    ModAddLeft(p, a, x);
  }

  lemma {:induction false} EvalMulLinear(p: int, a: Poly, c: int, z: int)
    requires p > 1
    ensures Eval(p, PolyMulLinear(p, a, c), z) == FMul(p, Eval(p, a, z), FSub(p, z, c))
  {
    hide FAdd, FMul, FSub, PolyMulLinear;
    var d := FSub(p, 0, c);
    MulLinearSplit(p, a, c);
    EvalAdd(p, [0] + a, PolyScalarMul(p, a, d), z);
    EvalScalarMul(p, a, d, z);
    var v := Eval(p, a, z);
    assert ([0] + a)[1..] == a;
    AddZero(p, FMul(p, z, v));
    MulComm(p, z, v);
    Distrib(p, v, z, d);
    AddNegated(p, z, c);
  }

  lemma SumCoef(p: int, a: Poly, b: Poly, i: nat)
    requires p > 1 && i < |PolyAdd(p, a, b)|
    ensures PolyAdd(p, a, b)[i] == FAdd(p, Coef(a, i), Coef(b, i))
  {
    hide FAdd;
  }

  lemma ScaledCoef(p: int, a: Poly, d: int, i: int)
    requires p > 1
    ensures Coef(PolyScalarMul(p, a, d), i) == FMul(p, Coef(a, i), d)
  {
    hide FMul;
    MulZero(p, d);
  }

  lemma EmptyLinear(p: int, c: int)
    requires p > 1
    ensures PolyMulLinear(p, [], c) == PolyAdd(p, [0] + [], PolyScalarMul(p, [], FSub(p, 0, c)))
  {
    AddZero(p, 0);
  }

  lemma LinearCoef(p: int, a: Poly, c: int, i: nat)
    requires p > 1 && i < |a| + 1 && a != []
    ensures PolyMulLinear(p, a, c)[i] == LinearTerm(p, a, c, i)
  {
    hide LinearTerm;
  }

  lemma LinearTermIs(p: int, a: Poly, c: int, i: nat)
    requires p > 1
    ensures LinearTerm(p, a, c, i) == FAdd(p, Coef([0] + a, i), Coef(PolyScalarMul(p, a, FSub(p, 0, c)), i))
  {
    hide FAdd, FMul, FSub;
    ScaledCoef(p, a, FSub(p, 0, c), i);
    assert Coef([0] + a, i) == Coef(a, i - 1);
  }

  /** a * (x - c) is x*a plus -c*a. */
  lemma MulLinearSplit(p: int, a: Poly, c: int)
    requires p > 1
    ensures PolyMulLinear(p, a, c) == PolyAdd(p, [0] + a, PolyScalarMul(p, a, FSub(p, 0, c)))
  {
    if a == [] {
      EmptyLinear(p, c);
    } else {
      hide FAdd, FMul, FSub, PolyAdd, PolyScalarMul, PolyMulLinear, LinearTerm, Coef;
      var s, r := PolyScalarMul(p, a, FSub(p, 0, c)), PolyMulLinear(p, a, c);
      var sum := PolyAdd(p, [0] + a, s);
      forall i | 0 <= i < |r| ensures r[i] == sum[i] {
        LinearCoef(p, a, c, i);
        LinearTermIs(p, a, c, i);
        SumCoef(p, [0] + a, s, i);
      }
    }
  }

  lemma AddNegated(p: int, z: int, c: int)
    requires p > 1
    ensures FAdd(p, z, FSub(p, 0, c)) == FSub(p, z, c)
  {
    ModAddLeft(p, z, 0 - c);
  }

  lemma {:induction false} ConvNegative(p: int, a: Poly, b: Poly, m: int)
    requires p > 1 && (m < 0 || m > |a| + |b| - 2)
    ensures ConvCoef(p, a, b, m) == 0
  {
    if a != [] {
      ConvNegative(p, a[1..], b, m - 1);
      MulZero(p, a[0]);
      AddZero(p, 0);
    }
  }

  lemma {:induction false} EvalMul(p: int, a: Poly, b: Poly, z: int)
    requires p > 1
    ensures Eval(p, PolyMul(p, a, b), z) == FMul(p, Eval(p, a, z), Eval(p, b, z))
    decreases a
  {
    hide FAdd, FMul;
    var (u, v) := (Eval(p, a, z), Eval(p, b, z));
    if a == [] || b == [] {
      MulZero(p, u);
      MulZero(p, v);
      EvalZeros(p, [0], z);
    } else {
      var a' := a[1..];
      var head := PolyScalarMul(p, b, a[0]);
      var tail := if a' == [] then [0] else [0] + PolyMul(p, a', b);
      assert PolyMul(p, a, b) == PolyAdd(p, head, tail) by { MulStep(p, a, b); }
      EvalAdd(p, head, tail, z);
      EvalScalarMul(p, b, a[0], z);
      EvalMul(p, a', b, z);
      var u' := Eval(p, a', z);
      assert Eval(p, tail, z) == FMul(p, z, FMul(p, u', v)) by {
        EvalSplit(p, tail, z);
        AddZero(p, FMul(p, z, Eval(p, Rest(tail), z)));
        if a' == [] {
          MulZero(p, v);
        } else {
          assert tail[1..] == PolyMul(p, a', b);
        }
      }
      MulAssoc(p, z, u', v);
      MulComm(p, FMul(p, z, u'), v);
      MulComm(p, u, v);
      Distrib(p, v, a[0], FMul(p, z, u'));
    }
  }

  lemma MulStep(p: int, a: Poly, b: Poly)
    requires p > 1 && a != [] && b != []
    ensures PolyMul(p, a, b) ==
            PolyAdd(p, PolyScalarMul(p, b, a[0]), if |a| == 1 then [0] else [0] + PolyMul(p, a[1..], b))
  {
    hide FAdd, FMul;
    var a' := a[1..];
    var head := PolyScalarMul(p, b, a[0]);
    var tail := if |a| == 1 then [0] else [0] + PolyMul(p, a', b);
    forall m | 0 <= m < |a| + |b| - 1
      ensures PolyMul(p, a, b)[m] == PolyAdd(p, head, tail)[m]
    {
      MulZero(p, a[0]);
      MulComm(p, a[0], Coef(b, m));
      assert Coef(head, m) == FMul(p, a[0], Coef(b, m));
      assert Coef(tail, m) == ConvCoef(p, a', b, m - 1) by {
        if m == 0 {
          ConvNegative(p, a', b, -1);
        } else if |a| > 1 {
          assert tail[m] == PolyMul(p, a', b)[m - 1];
        }
      }
    }
  }

  lemma {:induction false} EvalZeros(p: int, a: Poly, z: int)
    requires p > 1 && forall i :: 0 <= i < |a| ==> a[i] == 0
    ensures Eval(p, a, z) == 0
  {
    if a != [] {
      EvalZeros(p, a[1..], z);
      MulZero(p, z);
      AddZero(p, 0);
    }
  }

  lemma {:induction false} EvalAppend(p: int, a: Poly, c: int, z: int)
    requires p > 1
    ensures Eval(p, a + [c], z) == FAdd(p, Eval(p, a, z), FMul(p, c, FPow(p, z, |a|)))
  {
    hide FAdd, FMul;
    if a == [] {
      assert [c][1..] == [];
      assert Eval(p, [c], z) == FAdd(p, c, 0) by { MulZero(p, z); }
      AppendBase(p, c);
    } else {
      var w := FPow(p, z, |a| - 1);
      assert (a + [c])[1..] == a[1..] + [c];
      EvalAppend(p, a[1..], c, z);
      var v := Eval(p, a[1..], z);
      calc {
        Eval(p, a + [c], z);
        FAdd(p, a[0], FMul(p, z, FAdd(p, v, FMul(p, c, w))));
        { Distrib(p, z, v, FMul(p, c, w)); }
        FAdd(p, a[0], FAdd(p, FMul(p, z, v), FMul(p, z, FMul(p, c, w))));
        { MulAssoc(p, z, c, w); MulComm(p, z, c); MulAssoc(p, c, z, w); }
        FAdd(p, a[0], FAdd(p, FMul(p, z, v), FMul(p, c, FMul(p, z, w))));
        { AddAssoc(p, a[0], FMul(p, z, v), FMul(p, c, FMul(p, z, w))); }
        FAdd(p, Eval(p, a, z), FMul(p, c, FMul(p, z, w)));
      }
    }
  }

  lemma {:induction false} EvalConcat(p: int, a: Poly, b: Poly, z: int)
    requires p > 1
    ensures Eval(p, a + b, z) == FAdd(p, Eval(p, a, z), FMul(p, FPow(p, z, |a|), Eval(p, b, z)))
  {
    hide FMul, FAdd;
    if a == [] {
      assert a + b == b;
      MulOne(p, Eval(p, b, z));
      AddZero(p, Eval(p, b, z));
    } else {
      assert (a + b)[1..] == a[1..] + b;
      EvalConcat(p, a[1..], b, z);
      var (v, w) := (Eval(p, a[1..], z), Eval(p, b, z));
      var t := FMul(p, FPow(p, z, |a| - 1), w);
      Distrib(p, z, v, t);
      AddAssoc(p, a[0], FMul(p, z, v), FMul(p, z, t));
      MulAssoc(p, z, FPow(p, z, |a| - 1), w);
    }
  }

  lemma {:induction false} EvalZeroPrefix(p: int, k: nat, a: Poly, z: int)
    requires p > 1
    ensures Eval(p, seq(k, i => 0) + a, z) == FMul(p, FPow(p, z, k), Eval(p, a, z))
  {
    hide FMul, FAdd;
    var zeros: Poly := seq(k, i => 0);
    EvalConcat(p, zeros, a, z);
    EvalZeros(p, zeros, z);
    AddZero(p, FMul(p, FPow(p, z, k), Eval(p, a, z)));
  }

  lemma {:induction false} EvalPadded(p: int, a: Poly, n: nat, z: int)
    requires p > 1 && AllInField(p, a)
    ensures Eval(p, a + seq(n, i => 0), z) == Eval(p, a, z)
  {
    var zeros := seq(n, i => 0);
    if a == [] {
      EvalZeros(p, zeros, z);
      assert a + zeros == zeros;
    } else {
      assert (a + zeros)[1..] == a[1..] + zeros;
      EvalPadded(p, a[1..], n, z);
    }
  }

  lemma AppendBase(p: int, c: int)
    requires p > 1
    ensures FAdd(p, c, 0) == FAdd(p, 0, FMul(p, c, 1))
  {
    ModAddLeft(p, c, 0);
  }

  // ---------------------------------------------------------------- roots

  /** Synthetic division by (x - r), remainder dropped. */
  function Quotient(p: int, a: Poly, r: int): (q: Poly)
    requires p > 1
    ensures |q| == (if a == [] then 0 else |a| - 1) && AllInField(p, q)
  {
    if |a| <= 1 then [] else [Eval(p, a[1..], r)] + Quotient(p, a[1..], r)
  }

  /** a(x) - a(r) = (x - r) * q(x). */
  lemma {:induction false} FactorTheorem(p: int, a: Poly, r: int, x: int)
    requires p > 1 && InField(p, x) && InField(p, r)
    ensures FSub(p, Eval(p, a, x), Eval(p, a, r)) == FMul(p, FSub(p, x, r), Eval(p, Quotient(p, a, r), x))
  {
    hide FAdd, FMul, FSub;
    var d := FSub(p, x, r);
    MulZero(p, d);
    if a == [] {
      SubZeroIff(p, 0, 0);
    } else {
      var a' := a[1..];
      var (s, t) := (Eval(p, a', x), Eval(p, a', r));
      if |a| == 1 {
        assert a' == [];
        MulZero(p, x);
        MulZero(p, r);
        SubZeroIff(p, FAdd(p, a[0], 0), FAdd(p, a[0], 0));
      } else {
        FactorTheorem(p, a', r, x);
        var q := Quotient(p, a, r);
        assert q[1..] == Quotient(p, a', r);
        FactorStep(p, a[0], x, r, s, t, Eval(p, q[1..], x));
      }
    }
  }

  lemma FactorStep(p: int, h: int, x: int, r: int, s: int, t: int, q: int)
    requires p > 1 && InField(p, s)
    requires FSub(p, s, t) == FMul(p, FSub(p, x, r), q)
    ensures FSub(p, FAdd(p, h, FMul(p, x, s)), FAdd(p, h, FMul(p, r, t)))
         == FMul(p, FSub(p, x, r), FAdd(p, t, FMul(p, x, q)))
  {
    hide FAdd, FMul, FSub;
    var d := FSub(p, x, r);
    calc {
      FSub(p, FAdd(p, h, FMul(p, x, s)), FAdd(p, h, FMul(p, r, t)));
      { DropCommon(p, h, FMul(p, x, s), FMul(p, r, t)); }
      FSub(p, FMul(p, x, s), FMul(p, r, t));
      { SplitDifference(p, x, r, s, t); }
      FAdd(p, FMul(p, d, t), FMul(p, x, FSub(p, s, t)));
      { MulAssoc(p, x, d, q); MulComm(p, x, d); MulAssoc(p, d, x, q); }
      FAdd(p, FMul(p, d, t), FMul(p, d, FMul(p, x, q)));
      { Distrib(p, d, t, FMul(p, x, q)); }
      FMul(p, d, FAdd(p, t, FMul(p, x, q)));
    }
  }

  lemma DropCommon(p: int, h: int, a: int, b: int)
    requires p > 1
    ensures FSub(p, FAdd(p, h, a), FAdd(p, h, b)) == FSub(p, a, b)
  {
    ModSub(p, h + a, h + b);
  }

  lemma SplitDifference(p: int, x: int, r: int, s: int, t: int)
    requires p > 1
    ensures FSub(p, FMul(p, x, s), FMul(p, r, t))
         == FAdd(p, FMul(p, FSub(p, x, r), t), FMul(p, x, FSub(p, s, t)))
  {
    ModSub(p, x * s, r * t);
    ModMulLeft(p, x - r, t);
    ModMulLeft(p, x, s - t);
    ModAdd(p, (x - r) * t, x * (s - t));
    assert (x - r) * t + x * (s - t) == x * s - r * t;
  }

  predicate Distinct(xs: seq<int>) {
    forall i, j :: 0 <= i < j < |xs| ==> xs[i] != xs[j]
  }

  predicate AllZero(a: Poly) {
    forall i :: 0 <= i < |a| ==> a[i] == 0
  }

  lemma {:induction false} QuotientZero(p: int, a: Poly, r: int)
    requires p > 1 && AllInField(p, a)
    requires Eval(p, a, r) == 0 && AllZero(Quotient(p, a, r))
    ensures AllZero(a)
  {
    if a != [] {
      var a' := a[1..];
      assert Eval(p, a', r) == 0 by {
        if |a| > 1 {
          assert Quotient(p, a, r)[0] == 0;
        }
      }
      assert AllZero(Quotient(p, a', r)) by {
        forall i | 0 <= i < |Quotient(p, a', r)|
          ensures Quotient(p, a', r)[i] == 0
        {
          assert Quotient(p, a, r)[i + 1] == 0;
        }
      }
      QuotientZero(p, a', r);
      MulZero(p, r);
      AddZero(p, a[0]);
      forall i | 0 <= i < |a| ensures a[i] == 0 {
        if i > 0 {
          assert a[i] == a'[i - 1];
        }
      }
    }
  }

  /** A polynomial with n coefficients and n distinct roots is zero. */
  lemma {:induction false} RootBound(p: int, a: Poly, xs: seq<int>)
    requires IsPrime(p) && AllInField(p, a) && AllInField(p, xs)
    requires Distinct(xs) && |xs| >= |a|
    requires forall i :: 0 <= i < |xs| ==> Eval(p, a, xs[i]) == 0
    ensures AllZero(a)
    decreases |a|
  {
    hide FAdd, FMul, FSub;
    if a != [] {
      var r, q, rest := xs[0], Quotient(p, a, xs[0]), xs[1..];
      forall i | 0 <= i < |rest|
        ensures Eval(p, q, rest[i]) == 0
      {
        var x := xs[i + 1];
        FactorTheorem(p, a, r, x);
        SubZeroIff(p, 0, 0);
        SubZeroIff(p, x, r);
        NoZeroDivisors(p, FSub(p, x, r), Eval(p, q, x));
      }
      RootBound(p, q, rest);
      QuotientZero(p, a, r);
    }
  }

  /** Two polynomials of one length that agree at that many distinct points are the same. */
  lemma InterpolationUnique(p: int, a: Poly, b: Poly, xs: seq<int>)
    requires IsPrime(p) && AllInField(p, a) && AllInField(p, b) && AllInField(p, xs)
    requires Distinct(xs) && |a| == |b| <= |xs|
    requires forall i :: 0 <= i < |xs| ==> Eval(p, a, xs[i]) == Eval(p, b, xs[i])
    ensures a == b
  {
    hide FAdd, FMul, FSub;
    var d := PolySub(p, a, b);
    forall i | 0 <= i < |xs|
      ensures Eval(p, d, xs[i]) == 0
    {
      EvalSub(p, a, b, xs[i]);
      SubZeroIff(p, Eval(p, a, xs[i]), Eval(p, b, xs[i]));
    }
    RootBound(p, d, xs);
    forall i | 0 <= i < |a|
      ensures a[i] == b[i]
    {
      assert d[i] == 0;
      SubZeroIff(p, a[i], b[i]);
    }
  }
}
