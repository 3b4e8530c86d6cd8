/**
 What the local operations on share vectors do to the sharing itself: shares of one polynomial become
 shares of another at the same ids, and any selection of the resulting shares reconstructs the
 operation's result on what that selection of the operands reconstructs.
 */
module ShareOperations {
  import opened Common
  import opened PrimeField
  import opened PolyArith
  import opened Shamir

  /** Each share is the value of the polynomial at its id. */
  predicate SharesOf(p: int, f: Poly, shares: seq<Share>)
    requires p > 1
  {
    forall i :: 0 <= i < |shares| ==> shares[i].value == Eval(p, f, shares[i].id)
  }

  predicate Selects(pick: seq<nat>, n: nat) {
    (forall i :: 0 <= i < |pick| ==> pick[i] < n) && forall i, j :: 0 <= i < j < |pick| ==> pick[i] != pick[j]
  }

  function Picked(shares: seq<Share>, pick: seq<nat>): (r: seq<Share>)
    requires Selects(pick, |shares|)
    ensures |r| == |pick| && forall i :: 0 <= i < |r| ==> r[i] == shares[pick[i]]
  {
    seq(|pick|, i requires 0 <= i < |pick| => shares[pick[i]])
  }

  lemma IdsAt(shares: seq<Share>, i: nat)
    requires i < |shares|
    ensures |Ids(shares)| == |shares| && Ids(shares)[i] == shares[i].id
  {}

  // ---------------------------------------------------------------- the polynomial behind the result

  lemma SumShares(p: int, f: Poly, a: seq<Share>, g: Poly, b: seq<Share>)
    requires p > 1 && SharesOf(p, f, a) && SharesOf(p, g, b) && Ids(a) == Ids(b)
    ensures ShareAdd(p, a, b).Some? && ShareSub(p, a, b).Some?
    ensures Ids(ShareAdd(p, a, b).value) == Ids(ShareSub(p, a, b).value) == Ids(a)
    ensures SharesOf(p, PolyAdd(p, f, g), ShareAdd(p, a, b).value)
    ensures SharesOf(p, PolySub(p, f, g), ShareSub(p, a, b).value)
  {
    hide FAdd, FSub, PolyAdd, PolySub, Eval;
    assert |a| == |Ids(a)| == |Ids(b)| == |b|;
    forall i | 0 <= i < |a|
      ensures ShareAdd(p, a, b).value[i].value == Eval(p, PolyAdd(p, f, g), a[i].id)
      ensures ShareSub(p, a, b).value[i].value == Eval(p, PolySub(p, f, g), a[i].id)
    {
      IdsAt(a, i);
      IdsAt(b, i);
      EvalAdd(p, f, g, a[i].id);
      EvalSub(p, f, g, a[i].id);
    }
    assert Ids(ShareAdd(p, a, b).value) == Ids(a);
    assert Ids(ShareSub(p, a, b).value) == Ids(a);
  }

  lemma ScaledShares(p: int, f: Poly, shares: seq<Share>, c: int)
    requires p > 1 && SharesOf(p, f, shares)
    ensures Ids(ShareMulConst(p, shares, c)) == Ids(shares)
    ensures SharesOf(p, PolyScalarMul(p, f, c), ShareMulConst(p, shares, c))
  {
    hide FMul, PolyScalarMul, Eval;
    forall i | 0 <= i < |shares|
      ensures ShareMulConst(p, shares, c)[i].value == Eval(p, PolyScalarMul(p, f, c), shares[i].id)
    {
      EvalScalarMul(p, f, c, shares[i].id);
    }
    assert Ids(ShareMulConst(p, shares, c)) == Ids(shares);
  }

  /** Only the constant term changes. */
  lemma ShiftedShares(p: int, f: Poly, shares: seq<Share>, c: int)
    requires p > 1 && f != [] && SharesOf(p, f, shares)
    ensures Ids(ShareAddConst(p, shares, c)) == Ids(shares)
    ensures SharesOf(p, [FAdd(p, f[0], c)] + f[1..], ShareAddConst(p, shares, c))
  {
    hide FAdd, FMul;
    var g := [FAdd(p, f[0], c)] + f[1..];
    assert g[1..] == f[1..];
    forall i | 0 <= i < |shares|
      ensures ShareAddConst(p, shares, c)[i].value == Eval(p, g, shares[i].id)
    {
      var rest := FMul(p, shares[i].id, Eval(p, f[1..], shares[i].id));
      AddLast(p, f[0], rest, c);
    }
    assert Ids(ShareAddConst(p, shares, c)) == Ids(shares);
  }

  lemma AddLast(p: int, a: int, b: int, c: int)
    requires p > 1
    ensures FAdd(p, FAdd(p, a, b), c) == FAdd(p, FAdd(p, a, c), b)
  {
    ModAddLeft(p, a + b, c);
    ModAddLeft(p, a + c, b);
    assert a + b + c == a + c + b;
  }

  // ---------------------------------------------------------------- any selection of the shares

  /** Adding and subtracting commute with reconstruction from any of the shares. */
  lemma PickedSum(p: int, a: seq<Share>, b: seq<Share>, pick: seq<nat>)
    requires IsPrime(p) && ValidShares(p, a) && Ids(a) == Ids(b) && Selects(pick, |a|)
    ensures |a| == |b| && ShareAdd(p, a, b).Some? && ShareSub(p, a, b).Some?
    ensures |ShareAdd(p, a, b).value| == |ShareSub(p, a, b).value| == |a|
    ensures Secret(p, Picked(ShareAdd(p, a, b).value, pick)) ==
      (Secret(p, Picked(a, pick)) + Secret(p, Picked(b, pick))) % p
    ensures Secret(p, Picked(ShareSub(p, a, b).value, pick)) ==
      (Secret(p, Picked(a, pick)) - Secret(p, Picked(b, pick))) % p
  {
    hide Secret;
    assert |a| == |Ids(a)| == |Ids(b)| == |b|;
    var x, y := Picked(a, pick), Picked(b, pick);
    forall i | 0 <= i < |pick| ensures x[i].id == y[i].id {
      IdsAt(a, pick[i]);
      IdsAt(b, pick[i]);
    }
    assert Ids(x) == Ids(y);
    assert ValidShares(p, x) by {
      assert forall i :: 0 <= i < |x| ==> ValidShare(p, a[pick[i]]);
    }
    ShareAddLinear(p, x, y);
    ShareSubLinear(p, x, y);
    assert Picked(ShareAdd(p, a, b).value, pick) == ShareAdd(p, x, y).value;
    assert Picked(ShareSub(p, a, b).value, pick) == ShareSub(p, x, y).value;
  }

  /** So does scaling by a constant. */
  lemma PickedScale(p: int, shares: seq<Share>, c: int, pick: seq<nat>)
    requires IsPrime(p) && Selects(pick, |shares|)
    ensures |ShareMulConst(p, shares, c)| == |shares|
    ensures Secret(p, Picked(ShareMulConst(p, shares, c), pick)) == Secret(p, Picked(shares, pick)) * c % p
  {
    hide Secret;
    var x := Picked(shares, pick);
    ShareMulConstLinear(p, x, c);
    assert Picked(ShareMulConst(p, shares, c), pick) == ShareMulConst(p, x, c);
  }

  /** Adding a constant to every share adds it once to what any of them reconstruct. */
  lemma PickedShift(p: int, shares: seq<Share>, c: int, pick: seq<nat>)
    requires ShareField(p) && ValidShares(p, shares) && InField(p, c) && Distinct(Ids(shares))
    requires pick != [] && Selects(pick, |shares|)
    ensures |ShareAddConst(p, shares, c)| == |shares|
    ensures Secret(p, Picked(ShareAddConst(p, shares, c), pick)) == (Secret(p, Picked(shares, pick)) + c) % p
  {
    hide Secret;
    var x := Picked(shares, pick);
    forall i, j | 0 <= i < j < |pick| ensures x[i].id != x[j].id {
      IdsAt(shares, pick[i]);
      IdsAt(shares, pick[j]);
      if pick[i] < pick[j] {
        assert Ids(shares)[pick[i]] != Ids(shares)[pick[j]];
      } else {
        assert Ids(shares)[pick[j]] != Ids(shares)[pick[i]];
      }
    }
    assert ValidShares(p, x) by {
      assert forall i :: 0 <= i < |x| ==> ValidShare(p, shares[pick[i]]);
    }
    ShareAddConstShifts(p, x, c);
    assert Picked(ShareAddConst(p, shares, c), pick) == ShareAddConst(p, x, c);
  }

  // ---------------------------------------------------------------- repeated ids

  lemma {:induction false} CombineIgnores(p: int, xs: seq<int>, ys: seq<int>, zs: seq<int>, j: nat, m: nat)
    requires IsPrime(p) && |xs| == |ys| == |zs| && m <= |xs| && j < |xs| && Weight(p, xs, j) == 0
    requires forall i :: 0 <= i < |xs| && i != j ==> ys[i] == zs[i]
    ensures Combine(p, xs, ys, m) == Combine(p, xs, zs, m)
  {
    hide FAdd, FMul, Weight;
    if m > 0 {
      CombineIgnores(p, xs, ys, zs, j, m - 1);
      MulZero(p, ys[m - 1]);
      MulZero(p, zs[m - 1]);
    }
  }

  lemma RepeatedWeight(p: int, xs: seq<int>, j: nat, k: nat)
    requires IsPrime(p) && AllInField(p, xs) && j < |xs| && k < |xs| && j != k && xs[j] == xs[k]
    ensures Weight(p, xs, j) == 0
  {
    hide FMul, NodeProduct;
    NodeProductZero(p, xs, j, |xs|, xs[j]);
    assert NodeProduct(p, xs, j, |xs|, xs[j]) == 0;
    MulZero(p, NodeProduct(p, xs, j, |xs|, 0));
  }

  /** A share whose id another share repeats has no influence on the result, whatever its value. */
  lemma RepeatedIdIgnored(p: int, shares: seq<Share>, j: nat, k: nat, value: int)
    requires ShareField(p) && ValidShares(p, shares) && j < |shares| && k < |shares| && j != k
    requires shares[j].id == shares[k].id
    ensures Secret(p, shares[j := Share(shares[j].id, value)]) == Secret(p, shares)
  {
    hide Combine, Weight;
    var changed := shares[j := Share(shares[j].id, value)];
    IdsInField(p, shares);
    assert Ids(changed) == Ids(shares);
    RepeatedWeight(p, Ids(shares), j, k);
    CombineIgnores(p, Ids(shares), Values(changed), Values(shares), j, |shares|);
  }
}
