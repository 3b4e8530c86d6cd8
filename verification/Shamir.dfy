/**
 Shamir secret sharing over a prime field with more than 2^64 elements: the sharing loop,
 Lagrange reconstruction at 0, the threshold, and the local operations on share vectors.
 */
module Shamir {
  import opened Common
  import opened PrimeField
  import opened PolyArith

  const U64: int := 0x1_0000_0000_0000_0000

  datatype Share = Share(id: nat, value: int)

  /** A field large enough that distinct 64-bit ids are distinct elements. */
  ghost predicate ShareField(p: int) {
    IsPrime(p) && p > U64
  }

  predicate ValidShare(p: int, s: Share) {
    s.id < U64 && InField(p, s.value)
  }

  predicate ValidShares(p: int, shares: seq<Share>) {
    forall i :: 0 <= i < |shares| ==> ValidShare(p, shares[i])
  }

  function Ids(shares: seq<Share>): seq<int> {
    seq(|shares|, i requires 0 <= i < |shares| => shares[i].id)
  }

  function Values(shares: seq<Share>): seq<int> {
    seq(|shares|, i requires 0 <= i < |shares| => shares[i].value)
  }

  // ---------------------------------------------------------------- sharing

  /** Shares are values at 1..n of the polynomial whose coefficients are the secret and the noise. */
  method MakeShares(p: int, secret: int, n: nat, t: nat, noise: seq<int>) returns (shares: seq<Share>)
    requires ShareField(p) && InField(p, secret) && AllInField(p, noise)
    requires t >= 1 && n >= t && n < U64 && |noise| == t - 1
    ensures |shares| == n && ValidShares(p, shares)
    ensures forall i :: 0 <= i < n ==>
      shares[i].id == i + 1 && shares[i].value == Eval(p, [secret] + noise, i + 1)
  {
    hide FAdd, FMul;
    var coeffs := [secret] + noise;
    shares := [];
    for i := 1 to n + 1
      invariant |shares| == i - 1 && ValidShares(p, shares)
      invariant forall k :: 0 <= k < i - 1 ==>
        shares[k].id == k + 1 && shares[k].value == Eval(p, coeffs, k + 1)
    {
      var x := i % p;
      ModSmall(p, i);
      var result, xPow := coeffs[0], x;
      assert result == Eval(p, coeffs[..1], x) by {
        assert coeffs[..1][1..] == [];
        MulZero(p, x);
        AddZero(p, secret);
      }
      MulOne(p, x);
      assert xPow == FPow(p, x, 1);
      for j := 1 to t
        invariant result == Eval(p, coeffs[..j], x) && xPow == FPow(p, x, j)
      {
        EvalAppend(p, coeffs[..j], coeffs[j], x);
        assert coeffs[..j] + [coeffs[j]] == coeffs[..j + 1];
        result := FAdd(p, result, FMul(p, coeffs[j], xPow));
        MulComm(p, xPow, x);
        xPow := FMul(p, xPow, x);
      }
      assert coeffs[..t] == coeffs;
      shares := shares + [Share(i, result)];
    }
  }

  // ---------------------------------------------------------------- Lagrange basis

  /** The product of (xs[i] - z) over i < k with i != j. */
  function NodeProduct(p: int, xs: seq<int>, j: int, k: nat, z: int): (r: int)
    requires p > 1 && k <= |xs|
    ensures InField(p, r)
  {
    if k == 0 then 1
    else if k - 1 == j then NodeProduct(p, xs, j, k - 1, z)
    else FMul(p, NodeProduct(p, xs, j, k - 1, z), FSub(p, xs[k - 1], z))
  }

  /** The weight reconstruction gives to share j. */
  function Weight(p: int, xs: seq<int>, j: int): (w: int)
    requires IsPrime(p) && 0 <= j < |xs|
    ensures InField(p, w)
  {
    FMul(p, NodeProduct(p, xs, j, |xs|, 0), Invert(p, NodeProduct(p, xs, j, |xs|, xs[j])))
  }

  /** The weighted sum of the first m values. */
  function Combine(p: int, xs: seq<int>, ys: seq<int>, m: nat): (r: int)
    requires IsPrime(p) && |xs| == |ys| && m <= |xs|
    ensures InField(p, r)
  {
    if m == 0 then 0
    else FAdd(p, Combine(p, xs, ys, m - 1), FMul(p, Weight(p, xs, m - 1), ys[m - 1]))
  }

  /** NodeProduct as a polynomial in z. */
  function NodePoly(p: int, xs: seq<int>, j: int, k: nat): (a: Poly)
    requires p > 1 && k <= |xs|
    ensures |a| == (if 0 <= j < k then k else k + 1) && AllInField(p, a)
  {
    if k == 0 then [1]
    else if k - 1 == j then NodePoly(p, xs, j, k - 1)
    else PolyScalarMul(p, PolyMulLinear(p, NodePoly(p, xs, j, k - 1), xs[k - 1]), FSub(p, 0, 1))
  }

  lemma {:induction false} NodePolyEval(p: int, xs: seq<int>, j: int, k: nat, z: int)
    requires p > 1 && k <= |xs|
    ensures Eval(p, NodePoly(p, xs, j, k), z) == NodeProduct(p, xs, j, k, z)
  {
    hide FAdd, FMul, FSub, PolyMulLinear, PolyScalarMul;
    if k == 0 {
      assert [1][1..] == [];
      MulZero(p, z);
      AddZero(p, 1);
    } else {
      NodePolyEval(p, xs, j, k - 1, z);
      if k - 1 != j {
        var a, x := NodePoly(p, xs, j, k - 1), xs[k - 1];
        var v := Eval(p, a, z);
        EvalScalarMul(p, PolyMulLinear(p, a, x), FSub(p, 0, 1), z);
        EvalMulLinear(p, a, x, z);
        MulAssoc(p, v, FSub(p, z, x), FSub(p, 0, 1));
        NegateDifference(p, z, x);
      }
    }
  }

  lemma NegateDifference(p: int, z: int, x: int)
    requires p > 1
    ensures FMul(p, FSub(p, z, x), FSub(p, 0, 1)) == FSub(p, x, z)
  {
    ModMul(p, z - x, -1);
    assert (z - x) * -1 == x - z;
  }

  /** NodeProduct vanishes at every other node and nowhere at its own. */
  lemma {:induction false} NodeProductZero(p: int, xs: seq<int>, j: int, k: nat, z: int)
    requires IsPrime(p) && k <= |xs| && AllInField(p, xs) && InField(p, z)
    ensures NodeProduct(p, xs, j, k, z) == 0 <==> exists i :: 0 <= i < k && i != j && xs[i] == z
  {
    hide FAdd, FMul, FSub;
    if k > 0 {
      NodeProductZero(p, xs, j, k - 1, z);
      if k - 1 != j {
        SubZeroIff(p, xs[k - 1], z);
        NoZeroDivisors(p, NodeProduct(p, xs, j, k - 1, z), FSub(p, xs[k - 1], z));
      }
    }
  }

  /** The polynomial that is 1 at node j and 0 at the others. */
  function BasisPoly(p: int, xs: seq<int>, j: int): (a: Poly)
    requires IsPrime(p) && 0 <= j < |xs|
    ensures |a| == |xs| && AllInField(p, a)
  {
    PolyScalarMul(p, NodePoly(p, xs, j, |xs|), Invert(p, NodeProduct(p, xs, j, |xs|, xs[j])))
  }

  lemma BasisAtZero(p: int, xs: seq<int>, j: int)
    requires IsPrime(p) && 0 <= j < |xs|
    ensures Eval(p, BasisPoly(p, xs, j), 0) == Weight(p, xs, j)
  {
    hide FAdd, FMul, FSub, PolyScalarMul;
    NodePolyEval(p, xs, j, |xs|, 0);
    EvalScalarMul(p, NodePoly(p, xs, j, |xs|), Invert(p, NodeProduct(p, xs, j, |xs|, xs[j])), 0);
  }

  lemma BasisAtNode(p: int, xs: seq<int>, j: int, i: int)
    requires IsPrime(p) && AllInField(p, xs) && Distinct(xs) && 0 <= j < |xs| && 0 <= i < |xs|
    ensures Eval(p, BasisPoly(p, xs, j), xs[i]) == if i == j then 1 else 0
  {
    hide FAdd, FMul, FSub, PolyScalarMul;
    var n := |xs|;
    var inv := Invert(p, NodeProduct(p, xs, j, n, xs[j]));
    NodePolyEval(p, xs, j, n, xs[i]);
    EvalScalarMul(p, NodePoly(p, xs, j, n), inv, xs[i]);
    NodeProductZero(p, xs, j, n, xs[i]);
    MulZero(p, inv);
  }

  /** The interpolating polynomial restricted to its first m terms. */
  function LagrangePoly(p: int, xs: seq<int>, ys: seq<int>, m: nat): (a: Poly)
    requires IsPrime(p) && |xs| == |ys| && m <= |xs|
    ensures |a| == (if m == 0 then 0 else |xs|) && AllInField(p, a)
  {
    if m == 0 then []
    else PolyAdd(p, LagrangePoly(p, xs, ys, m - 1), PolyScalarMul(p, BasisPoly(p, xs, m - 1), ys[m - 1]))
  }

  lemma {:induction false} LagrangeAtNode(p: int, xs: seq<int>, ys: seq<int>, m: nat, i: int)
    requires IsPrime(p) && AllInField(p, xs) && AllInField(p, ys) && Distinct(xs)
    requires |xs| == |ys| && m <= |xs| && 0 <= i < |xs|
    ensures Eval(p, LagrangePoly(p, xs, ys, m), xs[i]) == if i < m then ys[i] else 0
  {
    hide FAdd, FMul, FSub, PolyScalarMul, PolyAdd, BasisPoly;
    if m > 0 {
      LagrangeAtNode(p, xs, ys, m - 1, i);
      var b, y := BasisPoly(p, xs, m - 1), ys[m - 1];
      EvalAdd(p, LagrangePoly(p, xs, ys, m - 1), PolyScalarMul(p, b, y), xs[i]);
      EvalScalarMul(p, b, y, xs[i]);
      BasisAtNode(p, xs, m - 1, i);
      MulOne(p, y);
      MulZero(p, y);
      AddZero(p, y);
      AddZero(p, 0);
      AddZero(p, ys[i]);
    }
  }

  lemma {:induction false} LagrangeAtZero(p: int, xs: seq<int>, ys: seq<int>, m: nat)
    requires IsPrime(p) && |xs| == |ys| && m <= |xs|
    ensures Eval(p, LagrangePoly(p, xs, ys, m), 0) == Combine(p, xs, ys, m)
  {
    hide FAdd, FMul, FSub, PolyScalarMul, PolyAdd, BasisPoly, Weight;
    if m > 0 {
      LagrangeAtZero(p, xs, ys, m - 1);
      var b, y := BasisPoly(p, xs, m - 1), ys[m - 1];
      EvalAdd(p, LagrangePoly(p, xs, ys, m - 1), PolyScalarMul(p, b, y), 0);
      EvalScalarMul(p, b, y, 0);
      BasisAtZero(p, xs, m - 1);
    }
  }

  // ---------------------------------------------------------------- reconstruction

  method Reconstruct(p: int, shares: seq<Share>) returns (result: int)
    requires ShareField(p) && ValidShares(p, shares)
    ensures result == Combine(p, Ids(shares), Values(shares), |shares|)
  {
    hide FAdd, FMul, FSub;
    ghost var xs, ys := Ids(shares), Values(shares);
    var n := |shares|;
    result := 0;
    for j := 0 to n
      invariant result == Combine(p, xs, ys, j)
    {
      var num, den := 1, 1;
      var xj := shares[j].id % p;
      ModSmall(p, shares[j].id);
      for k := 0 to n
        invariant num == NodeProduct(p, xs, j, k, 0) && den == NodeProduct(p, xs, j, k, xj)
      {
        if j != k {
          var xk := shares[k].id % p;
          ModSmall(p, shares[k].id);
          AddZero(p, xk);
          num := FMul(p, num, xk);
          den := FMul(p, den, FSub(p, xk, xj));
        }
      }
      var coeff := FMul(p, num, Invert(p, den));
      result := FAdd(p, result, FMul(p, coeff, shares[j].value));
    }
  }

  /** The value reconstruction computes from a share vector. */
  function Secret(p: int, shares: seq<Share>): int
    requires IsPrime(p)
  {
    Combine(p, Ids(shares), Values(shares), |shares|)
  }

  lemma IdsInField(p: int, shares: seq<Share>)
    requires p > U64 && ValidShares(p, shares)
    ensures AllInField(p, Ids(shares)) && AllInField(p, Values(shares))
  {
    assert forall i :: 0 <= i < |shares| ==> ValidShare(p, shares[i]);
  }

  /**
   Any list of at least t shares with distinct ids, in any order, reconstructs the constant
   coefficient of any polynomial with t coefficients that produced them.
   */
  lemma ReconstructionCorrect(p: int, coeffs: Poly, shares: seq<Share>)
    requires ShareField(p) && AllInField(p, coeffs) && ValidShares(p, shares)
    requires 1 <= |coeffs| <= |shares| && Distinct(Ids(shares))
    requires forall i :: 0 <= i < |shares| ==> shares[i].value == Eval(p, coeffs, shares[i].id)
    ensures Secret(p, shares) == coeffs[0]
  {
    hide FAdd, FMul, FSub, LagrangePoly, Combine;
    var xs, ys, n := Ids(shares), Values(shares), |shares|;
    IdsInField(p, shares);
    var zeros := seq(n - |coeffs|, i => 0);
    var f, g := coeffs + zeros, LagrangePoly(p, xs, ys, n);
    forall i | 0 <= i < n
      ensures Eval(p, f, xs[i]) == Eval(p, g, xs[i])
    {
      EvalPadded(p, coeffs, n - |coeffs|, xs[i]);
      LagrangeAtNode(p, xs, ys, n, i);
    }
    InterpolationUnique(p, f, g, xs);
    LagrangeAtZero(p, xs, ys, n);
    EvalPadded(p, coeffs, n - |coeffs|, 0);
    ConstantTerm(p, coeffs);
  }

  lemma ConstantTerm(p: int, a: Poly)
    requires p > 1 && AllInField(p, a) && a != []
    ensures Eval(p, a, 0) == a[0]
  {
    MulZero(p, Eval(p, a[1..], 0));
    AddZero(p, a[0]);
  }

  /** Sharing then reconstructing from any t or more of the shares gives back the secret. */
  method ShareThenReconstruct(p: int, secret: int, n: nat, t: nat, noise: seq<int>, pick: seq<nat>)
    returns (result: int)
    requires ShareField(p) && InField(p, secret) && AllInField(p, noise)
    requires t >= 1 && n >= t && n < U64 && |noise| == t - 1
    requires |pick| >= t && forall i :: 0 <= i < |pick| ==> pick[i] < n
    requires forall i, j :: 0 <= i < j < |pick| ==> pick[i] != pick[j]
    ensures result == secret
  {
    var shares := MakeShares(p, secret, n, t, noise);
    var chosen := seq(|pick|, i requires 0 <= i < |pick| => shares[pick[i]]);
    result := Reconstruct(p, chosen);
    ReconstructionCorrect(p, [secret] + noise, chosen);
  }

  // ---------------------------------------------------------------- the threshold is tight

  predicate Explains(p: int, coeffs: Poly, secret: int, xs: seq<int>, ys: seq<int>)
    requires p > 1 && |xs| == |ys|
  {
    AllInField(p, coeffs) && |coeffs| == |xs| + 1 && coeffs[0] == secret &&
    forall i :: 0 <= i < |xs| ==> Eval(p, coeffs, xs[i]) == ys[i]
  }

  /**
   t-1 shares say nothing about the secret: whatever the secret, exactly one coefficient
   vector of length t with that constant term produces the shares.
   */
  lemma ThresholdTight(p: int, secret: int, xs: seq<int>, ys: seq<int>) returns (coeffs: Poly)
    requires IsPrime(p) && InField(p, secret) && |xs| == |ys|
    requires AllInField(p, xs) && AllInField(p, ys) && Distinct(xs) && 0 !in xs
    ensures Explains(p, coeffs, secret, xs, ys)
    ensures forall other :: Explains(p, other, secret, xs, ys) ==> other == coeffs
  {
    hide FAdd, FMul, FSub, LagrangePoly;
    var us, vs := [0] + xs, [secret] + ys;
    assert Distinct(us) by {
      assert forall i :: 0 <= i < |xs| ==> xs[i] in xs;
    }
    coeffs := LagrangePoly(p, us, vs, |us|);
    forall i | 0 <= i < |us|
      ensures Eval(p, coeffs, us[i]) == vs[i]
    {
      LagrangeAtNode(p, us, vs, |us|, i);
    }
    ConstantTerm(p, coeffs);
    assert Eval(p, coeffs, us[0]) == vs[0];
    forall i | 0 <= i < |xs|
      ensures Eval(p, coeffs, xs[i]) == ys[i]
    {
      assert us[i + 1] == xs[i];
    }
    forall other | Explains(p, other, secret, xs, ys)
      ensures other == coeffs
    {
      ConstantTerm(p, other);
      forall i | 0 <= i < |us|
        ensures Eval(p, other, us[i]) == Eval(p, coeffs, us[i])
      {
        if i > 0 {
          assert us[i] == xs[i - 1];
        }
      }
      InterpolationUnique(p, other, coeffs, us);
    }
  }

  // ---------------------------------------------------------------- local operations

  /** Matching lengths and ids are asserted by the program; a mismatch is None here. */
  function ShareAdd(p: int, a: seq<Share>, b: seq<Share>): Option<seq<Share>>
    requires p > 1
  {
    if Ids(a) != Ids(b) then None else
    Some(seq(|a|, i requires 0 <= i < |a| =>
      assert |Ids(a)| == |Ids(b)|; Share(a[i].id, FAdd(p, a[i].value, b[i].value))))
  }

  function ShareSub(p: int, a: seq<Share>, b: seq<Share>): Option<seq<Share>>
    requires p > 1
  {
    if Ids(a) != Ids(b) then None else
    Some(seq(|a|, i requires 0 <= i < |a| =>
      assert |Ids(a)| == |Ids(b)|; Share(a[i].id, FSub(p, a[i].value, b[i].value))))
  }

  function ShareMulConst(p: int, shares: seq<Share>, c: int): seq<Share>
    requires p > 1
  {
    seq(|shares|, i requires 0 <= i < |shares| => Share(shares[i].id, FMul(p, shares[i].value, c)))
  }

  function ShareAddConst(p: int, shares: seq<Share>, c: int): seq<Share>
    requires p > 1
  {
    seq(|shares|, i requires 0 <= i < |shares| => Share(shares[i].id, FAdd(p, shares[i].value, c)))
  }

  lemma {:induction false} CombineAdd(p: int, xs: seq<int>, ys: seq<int>, zs: seq<int>, ws: seq<int>, m: nat)
    requires IsPrime(p) && |xs| == |ys| == |zs| == |ws| && m <= |xs|
    requires forall i :: 0 <= i < |xs| ==> ws[i] == FAdd(p, ys[i], zs[i])
    ensures Combine(p, xs, ws, m) == FAdd(p, Combine(p, xs, ys, m), Combine(p, xs, zs, m))
  {
    hide FAdd, FMul, FSub, Weight;
    if m == 0 {
      AddZero(p, 0);
    } else {
      CombineAdd(p, xs, ys, zs, ws, m - 1);
      var w := Weight(p, xs, m - 1);
      Distrib(p, w, ys[m - 1], zs[m - 1]);
      AddSwap(p, Combine(p, xs, ys, m - 1), Combine(p, xs, zs, m - 1), FMul(p, w, ys[m - 1]), FMul(p, w, zs[m - 1]));
    }
  }

  lemma {:induction false} CombineScale(p: int, xs: seq<int>, ys: seq<int>, c: int, ws: seq<int>, m: nat)
    requires IsPrime(p) && |xs| == |ys| == |ws| && m <= |xs|
    requires forall i :: 0 <= i < |xs| ==> ws[i] == FMul(p, ys[i], c)
    ensures Combine(p, xs, ws, m) == FMul(p, Combine(p, xs, ys, m), c)
  {
    hide FAdd, FMul, FSub, Weight;
    if m == 0 {
      MulZero(p, c);
    } else {
      CombineScale(p, xs, ys, c, ws, m - 1);
      var w, r := Weight(p, xs, m - 1), Combine(p, xs, ys, m - 1);
      var t := FMul(p, w, ys[m - 1]);
      MulAssoc(p, w, ys[m - 1], c);
      MulComm(p, r, c);
      MulComm(p, t, c);
      Distrib(p, c, r, t);
      MulComm(p, c, FAdd(p, r, t));
    }
  }

  /** Reconstruction commutes with adding share vectors. */
  lemma ShareAddLinear(p: int, a: seq<Share>, b: seq<Share>)
    requires IsPrime(p)
    ensures ShareAdd(p, a, b).Some? <==> Ids(a) == Ids(b)
    ensures ShareAdd(p, a, b).Some? ==>
      Secret(p, ShareAdd(p, a, b).value) == FAdd(p, Secret(p, a), Secret(p, b))
  {
    hide FAdd, FMul, FSub, Combine;
    if Ids(a) == Ids(b) {
      assert |Ids(a)| == |a| && |Ids(b)| == |b|;
      var c := ShareAdd(p, a, b).value;
      assert Ids(c) == Ids(a);
      CombineAdd(p, Ids(a), Values(a), Values(b), Values(c), |a|);
    }
  }

  /** Reconstruction commutes with subtracting share vectors. */
  lemma ShareSubLinear(p: int, a: seq<Share>, b: seq<Share>)
    requires IsPrime(p) && ValidShares(p, a)
    ensures ShareSub(p, a, b).Some? <==> Ids(a) == Ids(b)
    ensures ShareSub(p, a, b).Some? ==>
      Secret(p, ShareSub(p, a, b).value) == FSub(p, Secret(p, a), Secret(p, b))
  {
    hide FAdd, FMul, FSub, Combine;
    if Ids(a) == Ids(b) {
      assert |Ids(a)| == |a| && |Ids(b)| == |b|;
      var c := ShareSub(p, a, b).value;
      assert Ids(c) == Ids(a);
      forall i | 0 <= i < |a|
        ensures Values(a)[i] == FAdd(p, Values(c)[i], Values(b)[i])
      {
        SubCancel(p, a[i].value, b[i].value);
      }
      CombineAdd(p, Ids(a), Values(c), Values(b), Values(a), |a|);
      AddThenSub(p, Secret(p, c), Secret(p, b));
    }
  }

  lemma AddThenSub(p: int, a: int, b: int)
    requires InField(p, a)
    ensures FSub(p, FAdd(p, a, b), b) == a
  {
    ModSubLeft(p, a + b, b);
    ModSmall(p, a);
  }

  /** Reconstruction commutes with scaling a share vector. */
  lemma ShareMulConstLinear(p: int, shares: seq<Share>, c: int)
    requires IsPrime(p)
    ensures Secret(p, ShareMulConst(p, shares, c)) == FMul(p, Secret(p, shares), c)
  {
    hide FAdd, FMul, FSub, Combine;
    var r := ShareMulConst(p, shares, c);
    assert Ids(r) == Ids(shares);
    CombineScale(p, Ids(shares), Values(shares), c, Values(r), |shares|);
  }

  /** Adding a constant to every share adds it once: the weights at 0 sum to one. */
  lemma ShareAddConstShifts(p: int, shares: seq<Share>, c: int)
    requires ShareField(p) && ValidShares(p, shares) && InField(p, c)
    requires shares != [] && Distinct(Ids(shares))
    ensures Secret(p, ShareAddConst(p, shares, c)) == FAdd(p, Secret(p, shares), c)
  {
    hide FAdd, FMul, FSub, Combine;
    var r := ShareAddConst(p, shares, c);
    assert Ids(r) == Ids(shares);
    var constant := seq(|shares|, i requires 0 <= i < |shares| => Share(shares[i].id, c));
    assert Ids(constant) == Ids(shares);
    CombineAdd(p, Ids(shares), Values(shares), Values(constant), Values(r), |shares|);
    forall i | 0 <= i < |shares|
      ensures constant[i].value == Eval(p, [c], constant[i].id)
    {
      assert [c][1..] == [];
      MulZero(p, constant[i].id);
      AddZero(p, c);
    }
    assert forall i :: 0 <= i < |shares| ==> ValidShare(p, shares[i]);
    ReconstructionCorrect(p, [c], constant);
  }
}
