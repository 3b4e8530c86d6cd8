/**
 The product algorithms of the polynomial code. The naive double loop, Karatsuba's recursion and the
 transform of `Ntt` all compute exactly the coefficient list `PolyMul` that the constraint proofs use.
 */
module PolyMultiply {
  import opened Common
  import opened PrimeField
  import opened PolyArith
  import opened Ntt

  const KARATSUBA_CUTOFF: nat := 32

  // ---------------------------------------------------------------- convolution is bilinear

  lemma ConvHead(p: int, a: Poly, b: Poly, m: int)
    requires p > 1
    ensures ConvCoef(p, a, b, m) == FAdd(p, FMul(p, Coef(a, 0), Coef(b, m)), ConvCoef(p, Rest(a), b, m - 1))
  {
    if a == [] {
      MulZero(p, Coef(b, m));
      AddZero(p, 0);
    }
  }

  lemma {:induction false} ConvAddLeft(p: int, a: Poly, c: Poly, b: Poly, m: int)
    requires p > 1
    ensures ConvCoef(p, PolyAdd(p, a, c), b, m) == FAdd(p, ConvCoef(p, a, b, m), ConvCoef(p, c, b, m))
    decreases |a| + |c|
  {
    hide FAdd, FMul;
    if a == [] && c == [] {
      AddZero(p, 0);
    } else {
      var s, y := PolyAdd(p, a, c), Coef(b, m);
      assert Rest(s) == PolyAdd(p, Rest(a), Rest(c));
      ConvAddLeft(p, Rest(a), Rest(c), b, m - 1);
      ConvHead(p, s, b, m);
      ConvHead(p, a, b, m);
      ConvHead(p, c, b, m);
      MulComm(p, Coef(s, 0), y);
      MulComm(p, Coef(a, 0), y);
      MulComm(p, Coef(c, 0), y);
      Distrib(p, y, Coef(a, 0), Coef(c, 0));
      AddSwap(p, FMul(p, y, Coef(a, 0)), FMul(p, y, Coef(c, 0)), ConvCoef(p, Rest(a), b, m - 1), ConvCoef(p, Rest(c), b, m - 1));
    }
  }

  /** Cutting the left factor at k shifts the upper part by k. */
  lemma {:induction false} ConvSplitLeft(p: int, a: Poly, k: nat, b: Poly, m: int)
    requires p > 1 && k <= |a|
    ensures ConvCoef(p, a, b, m) == FAdd(p, ConvCoef(p, a[..k], b, m), ConvCoef(p, a[k..], b, m - k))
    decreases k
  {
    hide FAdd, FMul;
    if k == 0 {
      assert a[0..] == a && a[..0] == [];
      AddZero(p, ConvCoef(p, a, b, m));
    } else {
      ConvSplitLeft(p, a[1..], k - 1, b, m - 1);
      assert a[..k][1..] == a[1..][..k - 1] && a[1..][k - 1..] == a[k..];
      AddAssoc(p, FMul(p, a[0], Coef(b, m)), ConvCoef(p, a[1..][..k - 1], b, m - 1), ConvCoef(p, a[k..], b, m - k));
    }
  }

  /** b is b1 plus b2 shifted up by s places. */
  ghost predicate SplitsAs(p: int, b: Poly, b1: Poly, b2: Poly, s: int)
    requires p > 1
  {
    forall j :: Coef(b, j) == FAdd(p, Coef(b1, j), Coef(b2, j - s))
  }

  lemma {:induction false} ConvRight(p: int, a: Poly, b: Poly, b1: Poly, b2: Poly, s: int, m: int)
    requires p > 1 && SplitsAs(p, b, b1, b2, s)
    ensures ConvCoef(p, a, b, m) == FAdd(p, ConvCoef(p, a, b1, m), ConvCoef(p, a, b2, m - s))
    decreases a
  {
    hide FAdd, FMul;
    if a == [] {
      AddZero(p, 0);
    } else {
      ConvRight(p, a[1..], b, b1, b2, s, m - 1);
      assert Coef(b, m) == FAdd(p, Coef(b1, m), Coef(b2, m - s));
      Distrib(p, a[0], Coef(b1, m), Coef(b2, m - s));
      AddSwap(p, FMul(p, a[0], Coef(b1, m)), FMul(p, a[0], Coef(b2, m - s)),
        ConvCoef(p, a[1..], b1, m - 1), ConvCoef(p, a[1..], b2, m - 1 - s));
    }
  }

  lemma CutSplits(p: int, b: Poly, k: nat)
    requires p > 1 && AllInField(p, b) && k <= |b|
    ensures SplitsAs(p, b, b[..k], b[k..], k)
  {
    hide FAdd;
    forall j ensures Coef(b, j) == FAdd(p, Coef(b[..k], j), Coef(b[k..], j - k)) {
      AddZero(p, Coef(b, j));
    }
  }

  lemma SumSplits(p: int, b1: Poly, b2: Poly)
    requires p > 1
    ensures SplitsAs(p, PolyAdd(p, b1, b2), b1, b2, 0)
  {
    AddZero(p, 0);
  }

  lemma MulCoef(p: int, a: Poly, b: Poly, m: int)
    requires p > 1 && a != [] && b != []
    ensures Coef(PolyMul(p, a, b), m) == ConvCoef(p, a, b, m)
  {
    if !(0 <= m < |a| + |b| - 1) {
      ConvNegative(p, a, b, m);
    }
  }

  // ---------------------------------------------------------------- the naive product

  method NaiveMul(p: int, a: Poly, b: Poly) returns (r: Poly)
    requires p > 1 && a != [] && b != []
    ensures r == PolyMul(p, a, b)
  {
    hide FAdd, FMul;
    var n := |a| + |b| - 1;
    r := seq(n, i => 0);
    for i := 0 to |a|
      invariant |r| == n && forall m :: 0 <= m < n ==> r[m] == ConvCoef(p, a[..i], b, m)
    {
      ghost var before := r;
      for j := 0 to |b|
        invariant |r| == n
        invariant forall m :: 0 <= m < n ==>
          r[m] == if i <= m < i + j then FAdd(p, before[m], FMul(p, a[i], b[m - i])) else before[m]
      {
        r := r[i + j := FAdd(p, r[i + j], FMul(p, a[i], b[j]))];
      }
      forall m | 0 <= m < n ensures r[m] == ConvCoef(p, a[..i + 1], b, m) {
        RowAdded(p, a, i, b, m);
        AddZero(p, before[m]);
      }
    }
    assert a[..|a|] == a;
  }

  lemma RowAdded(p: int, a: Poly, i: nat, b: Poly, m: int)
    requires p > 1 && i < |a|
    ensures ConvCoef(p, a[..i + 1], b, m) == FAdd(p, ConvCoef(p, a[..i], b, m), FMul(p, a[i], Coef(b, m - i)))
    ensures Coef(b, m - i) == 0 ==> FMul(p, a[i], Coef(b, m - i)) == 0
  {
    hide FAdd, FMul;
    ConvSplitLeft(p, a[..i + 1], i, b, m);
    assert a[..i + 1][..i] == a[..i] && a[..i + 1][i..] == [a[i]];
    ConvHead(p, [a[i]], b, m - i);
    assert Rest([a[i]]) == [];
    AddZero(p, FMul(p, a[i], Coef(b, m - i)));
    MulZero(p, a[i]);
  }

  // ---------------------------------------------------------------- Karatsuba

  /** z1 -= z0, coefficient by coefficient, growing z1 if z0 is longer. */
  method SubtractFrom(p: int, z1: Poly, z0: Poly) returns (r: Poly)
    requires p > 1 && AllInField(p, z1)
    ensures r == PolySub(p, z1, z0)
  {
    hide FSub;
    r := z1;
    for i := 0 to |z0|
      invariant |r| == Max(|z1|, i)
      invariant forall m :: 0 <= m < |r| ==> r[m] == if m < i then FSub(p, Coef(z1, m), z0[m]) else z1[m]
    {
      if i < |r| {
        r := r[i := FSub(p, r[i], z0[i])];
      } else {
        r := r + [FSub(p, 0, z0[i])];
      }
    }
    forall m | 0 <= m < |r| ensures r[m] == PolySub(p, z1, z0)[m] {
      AddZero(p, Coef(z1, m));
    }
  }

  /** Adds z, shifted up by offset, into r; what falls past the end of r is dropped. */
  method AddAt(p: int, r0: Poly, z: Poly, offset: nat) returns (r: Poly)
    requires p > 1 && AllInField(p, r0)
    ensures |r| == |r0| && AllInField(p, r)
    ensures forall m :: 0 <= m < |r| ==> r[m] == FAdd(p, r0[m], Coef(z, m - offset))
  {
    hide FAdd;
    r := r0;
    for i := 0 to |z|
      invariant |r| == |r0|
      invariant forall m :: 0 <= m < |r| ==>
        r[m] == if offset <= m < offset + i then FAdd(p, r0[m], z[m - offset]) else r0[m]
    {
      var idx := i + offset;
      if idx < |r| {
        r := r[idx := FAdd(p, r[idx], z[i])];
      }
    }
    forall m | 0 <= m < |r| ensures r[m] == FAdd(p, r0[m], Coef(z, m - offset)) {
      AddZero(p, r0[m]);
    }
  }

  /** Karatsuba's recursion returns exactly the naive product; in particular the dropped tail is zero. */
  method KaratsubaMul(p: int, a: Poly, b: Poly) returns (r: Poly)
    requires p > 1 && a != [] && b != [] && AllInField(p, a) && AllInField(p, b)
    ensures r == PolyMul(p, a, b)
    decreases Max(|a|, |b|)
  {
    hide FAdd, FMul, FSub, PolyMul, PolyAdd, PolySub;
    var n := Max(|a|, |b|);
    if n < KARATSUBA_CUTOFF || |a| == 1 || |b| == 1 {
      r := NaiveMul(p, a, b);
      return;
    }
    var k := (n + 1) / 2;
    var aLo, aHi := if |a| <= k then a else a[..k], if |a| <= k then [] else a[k..];
    var bLo, bHi := if |b| <= k then b else b[..k], if |b| <= k then [] else b[k..];
    var z0 := KaratsubaMul(p, aLo, bLo);
    var z2: Poly := [];
    if aHi != [] && bHi != [] {
      z2 := KaratsubaMul(p, aHi, bHi);
    }
    var aSum := if aHi == [] then aLo else PolyAdd(p, aLo, aHi);
    var bSum := if bHi == [] then bLo else PolyAdd(p, bLo, bHi);
    var z1 := KaratsubaMul(p, aSum, bSum);
    z1 := SubtractFrom(p, z1, z0);
    z1 := SubtractFrom(p, z1, z2);
    r := Assemble(p, |a| + |b| - 1, z0, z1, z2, k);
    AddEmpty(p, aLo, aHi);
    AddEmpty(p, bLo, bHi);
    Assembled(p, a, b, k, aLo, aHi, bLo, bHi, z2, r);
  }

  /** z0 + z1 x^k + z2 x^2k, cut to n coefficients. */
  method Assemble(p: int, n: nat, z0: Poly, z1: Poly, z2: Poly, k: nat) returns (r: Poly)
    requires p > 1 && AllInField(p, z0)
    ensures |r| == n
    ensures forall m :: 0 <= m < n ==> r[m] == FAdd(p, FAdd(p, Coef(z0, m), Coef(z1, m - k)), Coef(z2, m - 2 * k))
  {
    hide FAdd;
    r := seq(n, i => 0);
    r := AddAt(p, r, z0, 0);
    forall m | 0 <= m < n ensures r[m] == Coef(z0, m) {
      AddZero(p, Coef(z0, m));
    }
    r := AddAt(p, r, z1, k);
    r := AddAt(p, r, z2, 2 * k);
  }

  lemma Assembled(p: int, a: Poly, b: Poly, k: nat, aLo: Poly, aHi: Poly, bLo: Poly, bHi: Poly, z2: Poly, r: Poly)
    requires p > 1 && AllInField(p, a) && AllInField(p, b) && k > 0 && |r| == |a| + |b| - 1
    requires aLo != [] && bLo != [] && a == aLo + aHi && b == bLo + bHi
    requires (|aLo| == k || aHi == []) && (|bLo| == k || bHi == [])
    requires z2 == if aHi == [] || bHi == [] then [] else PolyMul(p, aHi, bHi)
    requires var z0 := PolyMul(p, aLo, bLo);
      var z1 := PolySub(p, PolySub(p, PolyMul(p, PolyAdd(p, aLo, aHi), PolyAdd(p, bLo, bHi)), z0), z2);
      forall m :: 0 <= m < |r| ==> r[m] == FAdd(p, FAdd(p, Coef(z0, m), Coef(z1, m - k)), Coef(z2, m - 2 * k))
    ensures r == PolyMul(p, a, b)
  {
    hide FAdd, FMul, FSub, PolyMul, PolyAdd, PolySub, Coef;
    var z0 := PolyMul(p, aLo, bLo);
    var y := PolyMul(p, PolyAdd(p, aLo, aHi), PolyAdd(p, bLo, bHi));
    forall m | 0 <= m < |r| ensures r[m] == ConvCoef(p, a, b, m) {
      Recombine(p, a, b, k, aLo, aHi, bLo, bHi, z2, m);
      SubCoef(p, y, z0, m - k);
      SubCoef(p, PolySub(p, y, z0), z2, m - k);
    }
    ByCoefficient(p, a, b, r);
  }

  lemma ByCoefficient(p: int, a: Poly, b: Poly, r: Poly)
    requires p > 1 && a != [] && b != [] && |r| == |a| + |b| - 1
    requires forall m :: 0 <= m < |r| ==> r[m] == ConvCoef(p, a, b, m)
    ensures r == PolyMul(p, a, b)
  {}

  lemma AddEmpty(p: int, lo: Poly, hi: Poly)
    requires p > 1 && AllInField(p, lo)
    ensures hi == [] ==> PolyAdd(p, lo, hi) == lo
  {
    hide FAdd;
    forall x | InField(p, x) ensures FAdd(p, x, 0) == x {
      AddZero(p, x);
    }
  }

  lemma SubCoef(p: int, a: Poly, b: Poly, m: int)
    requires p > 1
    ensures Coef(PolySub(p, a, b), m) == FSub(p, Coef(a, m), Coef(b, m))
  {
    AddZero(p, 0);
  }

  /** The identity a*b = z0 + (z1 - z0 - z2) x^k + z2 x^2k, one coefficient at a time. */
  lemma Recombine(p: int, a: Poly, b: Poly, k: nat, aLo: Poly, aHi: Poly, bLo: Poly, bHi: Poly, z2: Poly, m: int)
    requires p > 1 && AllInField(p, a) && AllInField(p, b) && k > 0
    requires aLo != [] && bLo != [] && a == aLo + aHi && b == bLo + bHi
    requires (|aLo| == k || aHi == []) && (|bLo| == k || bHi == [])
    requires z2 == if aHi == [] || bHi == [] then [] else PolyMul(p, aHi, bHi)
    ensures ConvCoef(p, a, b, m) ==
      FAdd(p, FAdd(p, Coef(PolyMul(p, aLo, bLo), m),
        FSub(p, FSub(p, Coef(PolyMul(p, PolyAdd(p, aLo, aHi), PolyAdd(p, bLo, bHi)), m - k),
                        Coef(PolyMul(p, aLo, bLo), m - k)), Coef(z2, m - k))),
        Coef(z2, m - 2 * k))
  {
    hide FAdd, FMul, FSub, PolyMul, PolyAdd;
    var i := m - k;
    MulCoef(p, aLo, bLo, m);
    MulCoef(p, aLo, bLo, i);
    MulCoef(p, PolyAdd(p, aLo, aHi), PolyAdd(p, bLo, bHi), i);
    HighCoef(p, aHi, bHi, i);
    HighCoef(p, aHi, bHi, i - k);
    SplitBoth(p, a, b, k, aLo, aHi, bLo, bHi, m);
    SumBoth(p, aLo, aHi, bLo, bHi, i);
    Cancel(p, ConvCoef(p, aLo, bLo, m), ConvCoef(p, aLo, bLo, i), ConvCoef(p, aLo, bHi, i),
      ConvCoef(p, aHi, bLo, i), ConvCoef(p, aHi, bHi, i), ConvCoef(p, aHi, bHi, i - k));
  }

  lemma HighCoef(p: int, aHi: Poly, bHi: Poly, m: int)
    requires p > 1
    ensures Coef(if aHi == [] || bHi == [] then [] else PolyMul(p, aHi, bHi), m) == ConvCoef(p, aHi, bHi, m)
  {
    if aHi != [] && bHi != [] {
      MulCoef(p, aHi, bHi, m);
    } else if aHi != [] {
      EmptyRight(p, aHi, m);
    }
  }

  lemma {:induction false} EmptyRight(p: int, a: Poly, m: int)
    requires p > 1
    ensures ConvCoef(p, a, [], m) == 0
  {
    if a != [] {
      EmptyRight(p, a[1..], m - 1);
      MulZero(p, a[0]);
      AddZero(p, 0);
    }
  }

  lemma SplitLeftPart(p: int, a: Poly, k: nat, aLo: Poly, aHi: Poly, b: Poly, m: int)
    requires p > 1 && a == aLo + aHi && (|aLo| == k || aHi == [])
    ensures ConvCoef(p, a, b, m) == FAdd(p, ConvCoef(p, aLo, b, m), ConvCoef(p, aHi, b, m - k))
  {
    hide FAdd, FMul;
    if aHi == [] {
      assert a == aLo;
      AddZero(p, ConvCoef(p, a, b, m));
    } else {
      assert a[..k] == aLo && a[k..] == aHi;
      ConvSplitLeft(p, a, k, b, m);
    }
  }

  lemma SplitRightPart(p: int, a: Poly, b: Poly, k: nat, bLo: Poly, bHi: Poly, m: int)
    requires p > 1 && AllInField(p, b) && b == bLo + bHi && (|bLo| == k || bHi == [])
    ensures ConvCoef(p, a, b, m) == FAdd(p, ConvCoef(p, a, bLo, m), ConvCoef(p, a, bHi, m - k))
  {
    hide FAdd, FMul;
    if bHi == [] {
      assert b == bLo;
      EmptyRight(p, a, m - k);
      AddZero(p, ConvCoef(p, a, b, m));
    } else {
      assert b[..k] == bLo && b[k..] == bHi;
      CutSplits(p, b, k);
      ConvRight(p, a, b, bLo, bHi, k, m);
    }
  }

  lemma SplitBoth(p: int, a: Poly, b: Poly, k: nat, aLo: Poly, aHi: Poly, bLo: Poly, bHi: Poly, m: int)
    requires p > 1 && AllInField(p, b) && a == aLo + aHi && b == bLo + bHi
    requires (|aLo| == k || aHi == []) && (|bLo| == k || bHi == [])
    ensures ConvCoef(p, a, b, m) ==
      FAdd(p, FAdd(p, ConvCoef(p, aLo, bLo, m), ConvCoef(p, aLo, bHi, m - k)),
              FAdd(p, ConvCoef(p, aHi, bLo, m - k), ConvCoef(p, aHi, bHi, m - 2 * k)))
  {
    hide FAdd, FMul;
    SplitLeftPart(p, a, k, aLo, aHi, b, m);
    SplitRightPart(p, aLo, b, k, bLo, bHi, m);
    SplitRightPart(p, aHi, b, k, bLo, bHi, m - k);
  }

  lemma SumBoth(p: int, aLo: Poly, aHi: Poly, bLo: Poly, bHi: Poly, m: int)
    requires p > 1
    ensures ConvCoef(p, PolyAdd(p, aLo, aHi), PolyAdd(p, bLo, bHi), m) ==
      FAdd(p, FAdd(p, ConvCoef(p, aLo, bLo, m), ConvCoef(p, aLo, bHi, m)),
              FAdd(p, ConvCoef(p, aHi, bLo, m), ConvCoef(p, aHi, bHi, m)))
  {
    hide FAdd, FMul, PolyAdd;
    var b := PolyAdd(p, bLo, bHi);
    ConvAddLeft(p, aLo, aHi, b, m);
    SumSplits(p, bLo, bHi);
    ConvRight(p, aLo, b, bLo, bHi, 0, m);
    ConvRight(p, aHi, b, bLo, bHi, 0, m);
  }

  /** x, y are the low and cross terms; subtracting the low and high parts leaves the cross terms. */
  lemma Cancel(p: int, x: int, lo: int, c: int, d: int, hi: int, w: int)
    requires p > 1
    ensures FAdd(p, FAdd(p, x, c), FAdd(p, d, w)) ==
      FAdd(p, FAdd(p, x, FSub(p, FSub(p, FAdd(p, FAdd(p, lo, c), FAdd(p, d, hi)), lo), hi)), w)
  {
    ModAdd(p, lo + c, d + hi);
    ModSubLeft(p, lo + c + (d + hi), lo);
    ModSubLeft(p, lo + c + (d + hi) - lo, hi);
    ModAddLeft(p, x, c + d);
    ModAddLeft(p, x + (c + d), w);
    ModAdd(p, x + c, d + w);
  }

  /** The field's curve; the scalar field of BLS12-381 comes with a generator of its 2^32 subgroup. */
  datatype Curve = Bls48581 | Bls12381(generator: int)

  const NTT_THRESHOLD: nat := 64

  predicate UsesNtt(curve: Curve, a: Poly, b: Poly) {
    curve.Bls12381? && a != [] && b != [] && Max(|a|, |b|) >= NTT_THRESHOLD
  }

  /** `poly_mul`: whichever of the three algorithms is chosen, one product. The transform needs a domain of at most 2^32. */
  method Multiply(p: int, curve: Curve, a: Poly, b: Poly) returns (r: Poly)
    requires p > 1 && AllInField(p, a) && AllInField(p, b)
    requires UsesNtt(curve, a, b) ==> Generator(p, curve.generator) && |a| + |b| - 1 <= Two(MAX_LOG_DOMAIN)
    ensures r == PolyMul(p, a, b)
  {
    hide Two;
    if a == [] || b == [] {
      return [0];
    }
    if curve.Bls12381? && Max(|a|, |b|) >= NTT_THRESHOLD {
      r := NttMul(p, curve.generator, a, b);
    } else if Max(|a|, |b|) >= KARATSUBA_CUTOFF {
      r := KaratsubaMul(p, a, b);
    } else {
      r := NaiveMul(p, a, b);
    }
  }
}
