/**
 The four-limb schoolbook product modulo 2^256: the carry chain the constraints check,
 why it is exact in a large field, and what the 128-bit witness code really computes.
 */
module LimbChain {
  import opened PrimeField

  const B: int := 0x1_0000_0000_0000_0000
  const M: int := B * B * B * B
  const CARRY: int := 4 * B

  /** Four little-endian 64-bit limbs. */
  datatype Limbs = Limbs(l0: int, l1: int, l2: int, l3: int) {
    predicate InRange() {
      0 <= l0 < B && 0 <= l1 < B && 0 <= l2 < B && 0 <= l3 < B
    }

    /** In range for carries: honest carries reach 66 bits. */
    predicate CarriesInRange() {
      0 <= l0 < CARRY && 0 <= l1 < CARRY && 0 <= l2 < CARRY && 0 <= l3 < CARRY
    }

    function Value(): int {
      l0 + B * (l1 + B * (l2 + B * l3))
    }

    function At(k: int): int {
      if k == 0 then l0 else if k == 1 then l1 else if k == 2 then l2 else l3
    }
  }

  /** The cross products that land in limb k. */
  function Column(a: Limbs, b: Limbs, k: int): int {
    if k == 0 then a.l0 * b.l0
    else if k == 1 then a.l0 * b.l1 + a.l1 * b.l0
    else if k == 2 then a.l0 * b.l2 + a.l1 * b.l1 + a.l2 * b.l0
    else a.l0 * b.l3 + a.l1 * b.l2 + a.l2 * b.l1 + a.l3 * b.l0
  }

  function CarryIn(c: Limbs, k: int): int {
    if k == 0 then 0 else c.At(k - 1)
  }

  /** Limb equation k over the integers. */
  predicate LimbEquation(a: Limbs, b: Limbs, o: Limbs, c: Limbs, k: int) {
    Column(a, b, k) + CarryIn(c, k) == c.At(k) * B + o.At(k)
  }

  predicate ChainHolds(a: Limbs, b: Limbs, o: Limbs, c: Limbs) {
    forall k :: 0 <= k < 4 ==> LimbEquation(a, b, o, c, k)
  }

  // ---------------------------------------------------------------- the chain is exact

  lemma ProductBound(x: int, y: int, n: int)
    requires 0 <= x <= n && 0 <= y <= n
    ensures 0 <= x * y <= n * n
  {
    MulMono(x, n, y);
    MulMono(y, n, n);
  }

  lemma MulMono(x: int, y: int, z: int)
    requires 0 <= x <= y && 0 <= z
    ensures 0 <= x * z <= y * z
  {}

  lemma ColumnBound(a: Limbs, b: Limbs, k: int)
    requires a.InRange() && b.InRange() && 0 <= k < 4
    ensures 0 <= Column(a, b, k) <= (k + 1) * ((B - 1) * (B - 1))
  {
    ProductBound(a.l0, b.l0, B - 1);
    ProductBound(a.l0, b.l1, B - 1);
    ProductBound(a.l0, b.l2, B - 1);
    ProductBound(a.l0, b.l3, B - 1);
    ProductBound(a.l1, b.l0, B - 1);
    ProductBound(a.l1, b.l1, B - 1);
    ProductBound(a.l1, b.l2, B - 1);
    ProductBound(a.l2, b.l0, B - 1);
    ProductBound(a.l2, b.l1, B - 1);
    ProductBound(a.l3, b.l0, B - 1);
  }

  /** The part of a*b that limb columns 0..3 do not see is a multiple of 2^256. */
  function High(a: Limbs, b: Limbs): int {
    a.l1 * b.l3 + a.l2 * b.l2 + a.l3 * b.l1 + B * (a.l2 * b.l3 + a.l3 * b.l2) + B * B * (a.l3 * b.l3)
  }

  lemma ScaleLeft(x: int, b: Limbs)
    ensures x * b.Value() == x * b.l0 + B * (x * b.l1) + B * B * (x * b.l2) + B * B * B * (x * b.l3)
  {
    assert x * (B * b.l1) == B * (x * b.l1);
    assert x * (B * B * b.l2) == B * B * (x * b.l2);
    assert x * (B * B * B * b.l3) == B * B * B * (x * b.l3);
    assert b.Value() == b.l0 + B * b.l1 + B * B * b.l2 + B * B * B * b.l3;
    var s, t, u := B * b.l1, B * B * b.l2, B * B * B * b.l3;
    assert x * (b.l0 + s + t + u) == x * b.l0 + x * s + x * t + x * u;
  }

  lemma ProductColumns(a: Limbs, b: Limbs)
    ensures a.Value() * b.Value() ==
      Column(a, b, 0) + B * Column(a, b, 1) + B * B * Column(a, b, 2) + B * B * B * Column(a, b, 3) + M * High(a, b)
  {
    var v := b.Value();
    assert a.Value() * v == a.l0 * v + B * (a.l1 * v) + B * B * (a.l2 * v) + B * B * B * (a.l3 * v) by {
      ScaleLeft(v, a);
      Commute(a.Value(), v);
      Commute(a.l0, v);
      Commute(a.l1, v);
      Commute(a.l2, v);
      Commute(a.l3, v);
    }
    ScaleLeft(a.l0, b);
    ScaleLeft(a.l1, b);
    ScaleLeft(a.l2, b);
    ScaleLeft(a.l3, b);
    Regroup(a.l0 * b.l0, a.l0 * b.l1, a.l0 * b.l2, a.l0 * b.l3, a.l1 * b.l0, a.l1 * b.l1, a.l1 * b.l2, a.l1 * b.l3,
      a.l2 * b.l0, a.l2 * b.l1, a.l2 * b.l2, a.l2 * b.l3, a.l3 * b.l0, a.l3 * b.l1, a.l3 * b.l2, a.l3 * b.l3,
      a.l0 * v, a.l1 * v, a.l2 * v, a.l3 * v);
  }

  lemma Commute(x: int, y: int)
    ensures x * y == y * x
  {}

  /** Sixteen partial products, summed by rows and by columns. */
  lemma Regroup(p00: int, p01: int, p02: int, p03: int, p10: int, p11: int, p12: int, p13: int,
      p20: int, p21: int, p22: int, p23: int, p30: int, p31: int, p32: int, p33: int,
      r0: int, r1: int, r2: int, r3: int)
    requires r0 == p00 + B * p01 + B * B * p02 + B * B * B * p03
    requires r1 == p10 + B * p11 + B * B * p12 + B * B * B * p13
    requires r2 == p20 + B * p21 + B * B * p22 + B * B * B * p23
    requires r3 == p30 + B * p31 + B * B * p32 + B * B * B * p33
    ensures r0 + B * r1 + B * B * r2 + B * B * B * r3 ==
      p00 + B * (p01 + p10) + B * B * (p02 + p11 + p20) + B * B * B * (p03 + p12 + p21 + p30)
      + M * (p13 + p22 + p31 + B * (p23 + p32) + B * B * p33)
  {}

  lemma ValueRange(a: Limbs)
    requires a.InRange()
    ensures 0 <= a.Value() < M
  {}

  lemma ValueInjective(a: Limbs, b: Limbs)
    requires a.InRange() && b.InRange() && a.Value() == b.Value()
    ensures a == b
  {
    LowLimb(a.l0, a.l1 + B * (a.l2 + B * a.l3), b.l0, b.l1 + B * (b.l2 + B * b.l3));
    LowLimb(a.l1, a.l2 + B * a.l3, b.l1, b.l2 + B * b.l3);
    LowLimb(a.l2, a.l3, b.l2, b.l3);
  }

  lemma LowLimb(l: int, h: int, l': int, h': int)
    requires 0 <= l < B && 0 <= l' < B && l + B * h == l' + B * h'
    ensures l == l' && h == h'
  {}

  /** The limbs of a 256-bit number. */
  function ToLimbs(v: int): Limbs {
    Limbs(v % B, v / B % B, v / (B * B) % B, v / (B * B * B) % B)
  }

  lemma ToLimbsValue(v: int)
    requires 0 <= v < M
    ensures ToLimbs(v).InRange() && ToLimbs(v).Value() == v
  {
    var q1 := v / B;
    var q2 := q1 / B;
    var q3 := q2 / B;
    assert v == B * q1 + v % B && q1 == B * q2 + q1 % B && q2 == B * q3 + q2 % B;
    ModUnique(B * B, v, q2, B * (q1 % B) + v % B);
    ModUnique(B * B * B, v, q3, B * B * (q2 % B) + B * (q1 % B) + v % B);
    assert q3 < B;
  }

  /** The four limb equations force the output to be the product modulo 2^256. */
  lemma ChainExact(a: Limbs, b: Limbs, o: Limbs, c: Limbs)
    requires o.InRange() && ChainHolds(a, b, o, c)
    ensures o.Value() == (a.Value() * b.Value()) % M
  {
    ProductColumns(a, b);
    assert LimbEquation(a, b, o, c, 0) && LimbEquation(a, b, o, c, 1);
    assert LimbEquation(a, b, o, c, 2) && LimbEquation(a, b, o, c, 3);
    ChainSum(Column(a, b, 0), Column(a, b, 1), Column(a, b, 2), Column(a, b, 3), High(a, b), o, c);
    ValueRange(o);
    ModUnique(M, a.Value() * b.Value(), c.l3 + High(a, b), o.Value());
  }

  lemma ChainSum(x0: int, x1: int, x2: int, x3: int, h: int, o: Limbs, c: Limbs)
    requires x0 == c.l0 * B + o.l0 && x1 + c.l0 == c.l1 * B + o.l1
    requires x2 + c.l1 == c.l2 * B + o.l2 && x3 + c.l2 == c.l3 * B + o.l3
    ensures x0 + B * x1 + B * B * x2 + B * B * B * x3 + M * h == (c.l3 + h) * M + o.Value()
  {}

  // ---------------------------------------------------------------- honest carries

  /** The carries of exact long multiplication. */
  function HonestCarries(a: Limbs, b: Limbs): Limbs {
    var c0 := Column(a, b, 0) / B;
    var c1 := (Column(a, b, 1) + c0) / B;
    var c2 := (Column(a, b, 2) + c1) / B;
    Limbs(c0, c1, c2, (Column(a, b, 3) + c2) / B)
  }

  function HonestLimbs(a: Limbs, b: Limbs): Limbs {
    var c := HonestCarries(a, b);
    Limbs(Column(a, b, 0) % B, (Column(a, b, 1) + c.l0) % B, (Column(a, b, 2) + c.l1) % B, (Column(a, b, 3) + c.l2) % B)
  }

  /** Honest carries stay below 2^66 and satisfy the chain. */
  lemma HonestChain(a: Limbs, b: Limbs)
    requires a.InRange() && b.InRange()
    ensures HonestCarries(a, b).CarriesInRange() && HonestLimbs(a, b).InRange()
    ensures ChainHolds(a, b, HonestLimbs(a, b), HonestCarries(a, b))
  {
    ColumnBound(a, b, 0);
    ColumnBound(a, b, 1);
    ColumnBound(a, b, 2);
    ColumnBound(a, b, 3);
  }

  lemma DivUnique(x: int, c: int, o: int)
    requires 0 <= o < B && x == c * B + o
    ensures c == x / B && o == x % B
  {}

  /** Outputs and carries of an accepted chain are unique. */
  lemma ChainUnique(a: Limbs, b: Limbs, o: Limbs, c: Limbs)
    requires o.InRange() && ChainHolds(a, b, o, c)
    ensures c == HonestCarries(a, b) && o == HonestLimbs(a, b)
  {
    assert LimbEquation(a, b, o, c, 0) && LimbEquation(a, b, o, c, 1);
    assert LimbEquation(a, b, o, c, 2) && LimbEquation(a, b, o, c, 3);
    DivUnique(Column(a, b, 0), c.l0, o.l0);
    DivUnique(Column(a, b, 1) + c.l0, c.l1, o.l1);
    DivUnique(Column(a, b, 2) + c.l1, c.l2, o.l2);
    DivUnique(Column(a, b, 3) + c.l2, c.l3, o.l3);
  }

  /** For in-range limbs the chain can be satisfied exactly when the output is the product modulo 2^256. */
  lemma ChainIff(a: Limbs, b: Limbs, o: Limbs)
    requires a.InRange() && b.InRange() && o.InRange()
    ensures (exists c: Limbs :: c.CarriesInRange() && ChainHolds(a, b, o, c)) <==>
            o.Value() == (a.Value() * b.Value()) % M
  {
    HonestChain(a, b);
    var h, hc := HonestLimbs(a, b), HonestCarries(a, b);
    ChainExact(a, b, h, hc);
    if o.Value() == (a.Value() * b.Value()) % M {
      ValueInjective(o, h);
      assert hc.CarriesInRange() && ChainHolds(a, b, o, hc);
    }
    forall c: Limbs | c.CarriesInRange() && ChainHolds(a, b, o, c)
      ensures o.Value() == (a.Value() * b.Value()) % M
    {
      ChainExact(a, b, o, c);
    }
  }

  // ---------------------------------------------------------------- in the field

  /** The pairs of limbs whose products land in limb k, in the order the code adds them. */
  function Pairs(a: Limbs, b: Limbs, k: int): (s: seq<(int, int)>)
    ensures |s| > 0
  {
    if k == 0 then [(a.l0, b.l0)]
    else if k == 1 then [(a.l0, b.l1), (a.l1, b.l0)]
    else if k == 2 then [(a.l0, b.l2), (a.l1, b.l1), (a.l2, b.l0)]
    else [(a.l0, b.l3), (a.l1, b.l2), (a.l2, b.l1), (a.l3, b.l0)]
  }

  function PairSum(p: int, s: seq<(int, int)>): (r: int)
    requires p > 1 && |s| > 0
    ensures InField(p, r)
  {
    var last := s[|s| - 1];
    if |s| == 1 then FMul(p, last.0, last.1)
    else FAdd(p, PairSum(p, s[..|s| - 1]), FMul(p, last.0, last.1))
  }

  /** `mul_limb_body`: products plus carry in, minus 2^64 * carry out, minus the output limb. */
  function MulLimbBody(p: int, s: seq<(int, int)>, carryIn: int, out: int, carryOut: int): (r: int)
    requires p > 1 && |s| > 0
    ensures InField(p, r)
  {
    FSub(p, FSub(p, FAdd(p, PairSum(p, s), carryIn), FMul(p, carryOut, B)), out)
  }

  /** Limb body k of the product of two limb vectors. */
  function LimbBody(p: int, a: Limbs, b: Limbs, o: Limbs, c: Limbs, k: int): (r: int)
    requires p > 1
    ensures InField(p, r)
  {
    MulLimbBody(p, Pairs(a, b, k), CarryIn(c, k), o.At(k), c.At(k))
  }

  function IntegerSum(s: seq<(int, int)>): int {
    if s == [] then 0 else IntegerSum(s[..|s| - 1]) + s[|s| - 1].0 * s[|s| - 1].1
  }

  lemma {:induction false} PairSumReduces(p: int, s: seq<(int, int)>)
    requires p > 1 && |s| > 0
    ensures PairSum(p, s) == IntegerSum(s) % p
  {
    var last := s[|s| - 1];
    if |s| > 1 {
      PairSumReduces(p, s[..|s| - 1]);
      ModAdd(p, IntegerSum(s[..|s| - 1]), last.0 * last.1);
    } else {
      assert s[..0] == [];
    }
  }

  lemma PairSumIsColumn(p: int, a: Limbs, b: Limbs, k: int)
    requires p > 1 && 0 <= k < 4
    ensures PairSum(p, Pairs(a, b, k)) == Column(a, b, k) % p
  {
    PairSumReduces(p, Pairs(a, b, k));
    SumIsColumn(a, b, k);
  }

  lemma SumIsColumn(a: Limbs, b: Limbs, k: int)
    requires 0 <= k < 4
    ensures IntegerSum(Pairs(a, b, k)) == Column(a, b, k)
  {
    if k == 0 {
      SumSnoc([], (a.l0, b.l0));
    } else if k == 1 {
      SumOfTwo((a.l0, b.l1), (a.l1, b.l0));
    } else if k == 2 {
      SumOfTwo((a.l0, b.l2), (a.l1, b.l1));
      SumSnoc([(a.l0, b.l2), (a.l1, b.l1)], (a.l2, b.l0));
      assert Pairs(a, b, k) == [(a.l0, b.l2), (a.l1, b.l1)] + [(a.l2, b.l0)];
    } else {
      SumOfTwo((a.l0, b.l3), (a.l1, b.l2));
      SumSnoc([(a.l0, b.l3), (a.l1, b.l2)], (a.l2, b.l1));
      assert [(a.l0, b.l3), (a.l1, b.l2)] + [(a.l2, b.l1)] == [(a.l0, b.l3), (a.l1, b.l2), (a.l2, b.l1)];
      SumSnoc([(a.l0, b.l3), (a.l1, b.l2), (a.l2, b.l1)], (a.l3, b.l0));
      assert Pairs(a, b, k) == [(a.l0, b.l3), (a.l1, b.l2), (a.l2, b.l1)] + [(a.l3, b.l0)];
    }
  }

  lemma SumOfTwo(x: (int, int), y: (int, int))
    ensures IntegerSum([x, y]) == x.0 * x.1 + y.0 * y.1
  {
    SumSnoc([], x);
    SumSnoc([x], y);
    assert [x] + [y] == [x, y] && [] + [x] == [x];
  }

  lemma SumSnoc(s: seq<(int, int)>, x: (int, int))
    ensures IntegerSum(s + [x]) == IntegerSum(s) + x.0 * x.1
  {
    assert (s + [x])[..|s|] == s;
  }

  lemma LimbBodyIsInteger(p: int, a: Limbs, b: Limbs, o: Limbs, c: Limbs, k: int)
    requires p > 1 && 0 <= k < 4
    ensures LimbBody(p, a, b, o, c, k) == (Column(a, b, k) + CarryIn(c, k) - c.At(k) * B - o.At(k)) % p
  {
    PairSumIsColumn(p, a, b, k);
    var x, ci, co, ok := Column(a, b, k), CarryIn(c, k), c.At(k), o.At(k);
    ModAddLeft(p, x, ci);
    ModSub(p, x + ci, co * B);
    ModSubLeft(p, x + ci - co * B, ok);
  }

  /** In a field of at least 2^131 elements a limb body of in-range columns vanishes exactly when the integers agree. */
  lemma LimbBodyExact(p: int, a: Limbs, b: Limbs, o: Limbs, c: Limbs, k: int)
    requires p >= 8 * B * B && 0 <= k < 4
    requires a.InRange() && b.InRange() && o.InRange() && c.CarriesInRange()
    ensures LimbBody(p, a, b, o, c, k) == 0 <==> LimbEquation(a, b, o, c, k)
  {
    LimbBodyIsInteger(p, a, b, o, c, k);
    ColumnBound(a, b, k);
    var d := Column(a, b, k) + CarryIn(c, k) - c.At(k) * B - o.At(k);
    assert -p < d < p;
    if d >= 0 {
      ModSmall(p, d);
    } else {
      ModShift(p, d, 1);
      ModSmall(p, d + p);
    }
  }

  // ---------------------------------------------------------------- the witness code

  const W128: int := B * B

  /** The 128-bit accumulator of limb k: exact sums that reach 2^128 wrap around. */
  function Wrapped(a: Limbs, b: Limbs, carryIn: int, k: int): int {
    (Column(a, b, k) + carryIn) % W128
  }

  /** `schoolbook_mul_mod_2_256` with wrapping 128-bit accumulators: (output limbs, carries). */
  function SchoolbookMul(a: Limbs, b: Limbs): (Limbs, Limbs) {
    var s0 := Wrapped(a, b, 0, 0);
    var s1 := Wrapped(a, b, s0 / B, 1);
    var s2 := Wrapped(a, b, s1 / B, 2);
    var s3 := Wrapped(a, b, s2 / B, 3);
    (Limbs(s0 % B, s1 % B, s2 % B, s3 % B), Limbs(s0 / B, s1 / B, s2 / B, s3 / B))
  }

  /** No limb accumulator reaches 2^128. */
  predicate NoOverflow(a: Limbs, b: Limbs) {
    var c := HonestCarries(a, b);
    Column(a, b, 1) + c.l0 < W128 && Column(a, b, 2) + c.l1 < W128 && Column(a, b, 3) + c.l2 < W128
  }

  /** A wrapped accumulator splits into carry and limb like the exact one, less the lost 2^128s. */
  lemma WrapSplit(t: int)
    requires 0 <= t < 4 * W128
    ensures (t % W128) % B == t % B && (t % W128) / B == t / B - (t / W128) * B
    ensures 0 <= (t % W128) / B < B
    ensures t == (t % W128) / B * B + (t % W128) % B <==> t < W128
  {}

  /** The carries the code produces satisfy the constraint chain exactly when no accumulator overflows. */
  lemma SchoolbookAcceptedIff(a: Limbs, b: Limbs)
    requires a.InRange() && b.InRange()
    ensures var (o, c) := SchoolbookMul(a, b); o.InRange() && c.InRange()
    ensures var (o, c) := SchoolbookMul(a, b); ChainHolds(a, b, o, c) <==> NoOverflow(a, b)
    ensures NoOverflow(a, b) ==> SchoolbookMul(a, b) == (HonestLimbs(a, b), HonestCarries(a, b)) && Limb1Fits(a, b)
  {
    var (o, c) := SchoolbookMul(a, b);
    ColumnBound(a, b, 0);
    ColumnBound(a, b, 1);
    ColumnBound(a, b, 2);
    ColumnBound(a, b, 3);
    hide Column;
    WrapSplit(Column(a, b, 0));
    WrapSplit(Column(a, b, 1) + c.l0);
    WrapSplit(Column(a, b, 2) + c.l1);
    WrapSplit(Column(a, b, 3) + c.l2);
    assert LimbEquation(a, b, o, c, 0);
    assert LimbEquation(a, b, o, c, 1) <==> Column(a, b, 1) + c.l0 < W128;
    assert LimbEquation(a, b, o, c, 2) <==> Column(a, b, 2) + c.l1 < W128;
    assert LimbEquation(a, b, o, c, 3) <==> Column(a, b, 3) + c.l2 < W128;
    var h := HonestCarries(a, b);
    assert c.l0 == h.l0;
    assert Column(a, b, 1) + c.l0 < W128 ==> c.l1 == h.l1;
    assert Column(a, b, 1) + c.l0 < W128 && Column(a, b, 2) + c.l1 < W128 ==> c.l2 == h.l2;
  }

  /** The accumulator of limb 1 does not reach 2^128. */
  predicate Limb1Fits(a: Limbs, b: Limbs) {
    Column(a, b, 1) + Column(a, b, 0) / B < W128
  }

  /** The product itself is right exactly when limb 1 does not overflow. */
  lemma SchoolbookExactIff(a: Limbs, b: Limbs)
    requires a.InRange() && b.InRange()
    ensures SchoolbookMul(a, b).0.Value() == (a.Value() * b.Value()) % M <==> Limb1Fits(a, b)
  {
    HonestChain(a, b);
    var h := HonestLimbs(a, b);
    ChainExact(a, b, h, HonestCarries(a, b));
    var o := SchoolbookMul(a, b).0;
    assert o.InRange() by { SchoolbookAcceptedIff(a, b); }
    assert o == h <==> Column(a, b, 1) + Column(a, b, 0) / B < W128 by { SchoolbookLimbs(a, b); }
    if o.Value() == h.Value() {
      ValueInjective(o, h);
    }
  }

  /** Only the 2^128 lost in limb 1 reaches an output limb; what limbs 2 and 3 lose is a multiple of 2^256. */
  lemma SchoolbookLimbs(a: Limbs, b: Limbs)
    requires a.InRange() && b.InRange()
    ensures SchoolbookMul(a, b).0 == HonestLimbs(a, b) <==> Column(a, b, 1) + Column(a, b, 0) / B < W128
  {
    var x0 := Column(a, b, 0);
    assert x0 % W128 == x0 && 0 <= x0 / B < B by {
      ColumnBound(a, b, 0);
      ModSmall(W128, x0);
    }
    ColumnBound(a, b, 1);
    ColumnBound(a, b, 2);
    ColumnBound(a, b, 3);
    hide Column;
    LostCarries(Column(a, b, 1) + x0 / B, Column(a, b, 2), Column(a, b, 3));
  }

  lemma LostCarries(t1: int, x2: int, x3: int)
    requires 0 <= t1 < 2 * W128 && 0 <= x2 < 3 * W128 - 4 * B && 0 <= x3 < 4 * W128 - 4 * B
    ensures var (c1, h1) := (t1 % W128 / B, t1 / B);
      var (c2, h2) := ((x2 + c1) % W128 / B, (x2 + h1) / B);
      t1 % W128 % B == t1 % B && (x2 + c1) % W128 % B == (x2 + h1) % B &&
      ((x3 + c2) % W128 % B == (x3 + h2) % B <==> t1 < W128)
  {
    var (c1, h1) := (t1 % W128 / B, t1 / B);
    var (c2, h2) := ((x2 + c1) % W128 / B, (x2 + h1) / B);
    var q1, q2 := t1 / W128, (x2 + c1) / W128;
    assert h1 == c1 + q1 * B && (q1 == 0 <==> t1 < W128) && 0 <= q1 <= 1 by { WrapSplit(t1); }
    MiddleLimb(x2 + c1, q1);
    assert 0 <= c2 < B by { WrapSplit(x2 + c1); }
    TopLimb(x3 + c2, q1, q2);
  }

  lemma MiddleLimb(t: int, q: int)
    requires 0 <= t < 4 * W128
    ensures t % W128 % B == (t + q * B) % B && (t + q * B) / B == t % W128 / B + t / W128 * B + q
  {
    WrapSplit(t);
    ShiftDiv(t, q);
  }

  lemma TopLimb(t: int, q1: int, q2: int)
    requires 0 <= t < 4 * W128 && 0 <= q1 <= 1
    ensures t % W128 % B == (t + q2 * B + q1) % B <==> q1 == 0
  {
    WrapSplit(t);
    ShiftDiv(t + q1, q2);
    NextLimb(t);
  }

  lemma NextLimb(x: int)
    ensures (x + 1) % B != x % B
  {}

  lemma ShiftDiv(x: int, q: int)
    ensures (x + q * B) / B == x / B + q && (x + q * B) % B == x % B
  {}

  /** Two factors for which the code's product is wrong. */
  lemma SchoolbookWrongProduct()
    ensures var a := Limbs(B - 1, B - 1, 0, 0);
      SchoolbookMul(a, a).0.Value() != (a.Value() * a.Value()) % M
  {
    SchoolbookExactIff(Limbs(B - 1, B - 1, 0, 0), Limbs(B - 1, B - 1, 0, 0));
  }
}
