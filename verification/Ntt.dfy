/**
 The in-place radix-2 transform over a field with a root of unity of order a power of two, and
 polynomial products through it.
 */
module Ntt {
  import opened Common
  import opened PrimeField
  import opened PolyArith

  const MAX_LOG_DOMAIN: nat := 32

  /** w has order 2^m exactly: its half-way power is -1. */
  ghost predicate Root(p: int, w: int, m: nat)
    requires p > 1
  {
    InField(p, w) && if m == 0 then w == 1 else FPow(p, w, Two(m - 1)) == p - 1
  }

  lemma MinusOne(p: int, x: int)
    requires p > 1
    ensures FMul(p, p - 1, x) == FSub(p, 0, x)
  {
    ModShift(p, -x, x);
    assert (p - 1) * x == -x + x * p;
  }

  /** The square of a root of order 2^(m+1) has order 2^m. */
  lemma RootSquare(p: int, w: int, m: nat)
    requires p > 2 && Root(p, w, m + 1)
    ensures Root(p, FMul(p, w, w), m)
  {
    hide FMul;
    if m == 0 {
      assert FPow(p, w, 1) == FMul(p, w, 1) == w by { MulOne(p, w); }
      assert w == p - 1;
      MinusOne(p, p - 1);
      ModSmall(p, 1);
      ModShift(p, 1 - p, 1);
    } else {
      TwoNext(m - 1);
      PowSquare(p, w, Two(m - 1));
    }
  }

  // ---------------------------------------------------------------- even and odd coefficients

  function Evens(s: Poly): (r: Poly)
    ensures |r| == (|s| + 1) / 2
  {
    seq((|s| + 1) / 2, i requires 0 <= i < (|s| + 1) / 2 => s[2 * i])
  }

  function Odds(s: Poly): (r: Poly)
    ensures |r| == |s| / 2
  {
    seq(|s| / 2, i requires 0 <= i < |s| / 2 => s[2 * i + 1])
  }

  lemma ConsEvensOdds(a: int, t: Poly)
    ensures Evens([a] + t) == [a] + Odds(t) && Odds([a] + t) == Evens(t)
  {}

  /** a(x) is the even part at x^2 plus x times the odd part at x^2. */
  lemma {:induction false} EvalEvenOdd(p: int, s: Poly, x: int)
    requires p > 1
    ensures Eval(p, s, x) ==
            FAdd(p, Eval(p, Evens(s), FMul(p, x, x)), FMul(p, x, Eval(p, Odds(s), FMul(p, x, x))))
    decreases s
  {
    hide FAdd, FMul;
    var y := FMul(p, x, x);
    if s == [] {
      MulZero(p, x);
      AddZero(p, 0);
    } else {
      var t := s[1..];
      assert s == [s[0]] + t;
      ConsEvensOdds(s[0], t);
      EvalEvenOdd(p, t, x);
      var (e, o) := (Eval(p, Evens(t), y), Eval(p, Odds(t), y));
      assert ([s[0]] + Odds(t))[1..] == Odds(t);
      Distrib(p, x, e, FMul(p, x, o));
      MulAssoc(p, x, x, o);
      AddRotate(p, s[0], FMul(p, x, e), FMul(p, y, o));
    }
  }

  lemma AddRotate(p: int, a: int, b: int, c: int)
    requires p > 1
    ensures FAdd(p, a, FAdd(p, b, c)) == FAdd(p, FAdd(p, a, c), b)
  {
    ModAddLeft(p, a, b + c);
    ModAddLeft(p, a + c, b);
  }

  // ---------------------------------------------------------------- the transform

  /** The values at 1, w, w^2, ... */
  function Dft(p: int, s: Poly, w: int): (v: Poly)
    requires p > 1
    ensures |v| == |s| && AllInField(p, v)
  {
    seq(|s|, j requires 0 <= j < |s| => Eval(p, s, FPow(p, w, j)))
  }

  /** One butterfly level: e_j + w^j o_j, then e_j - w^j o_j. */
  function Merge(p: int, e: Poly, o: Poly, w: int): (v: Poly)
    requires p > 1 && |e| == |o|
    ensures |v| == 2 * |e| && AllInField(p, v)
  {
    seq(|e|, j requires 0 <= j < |e| => FAdd(p, e[j], FMul(p, o[j], FPow(p, w, j)))) +
    seq(|e|, j requires 0 <= j < |e| => FSub(p, e[j], FMul(p, o[j], FPow(p, w, j))))
  }

  /** Half of the transform at the points w^j, the other half at -w^j. */
  lemma DftMerge(p: int, s: Poly, w: int, m: nat)
    requires p > 2 && |s| == Two(m + 1) && Root(p, w, m + 1)
    ensures |Evens(s)| == Two(m) == |Odds(s)|
    ensures Dft(p, s, w) == Merge(p, Dft(p, Evens(s), FMul(p, w, w)), Dft(p, Odds(s), FMul(p, w, w)), w)
  {
    hide FAdd, FMul, FSub, Eval, FPow, Two, Evens, Odds;
    TwoNext(m);
    var h, y := Two(m), FMul(p, w, w);
    var (e, o) := (Dft(p, Evens(s), y), Dft(p, Odds(s), y));
    var (d, v) := (Dft(p, s, w), Merge(p, e, o, w));
    forall j | 0 <= j < 2 * h ensures d[j] == v[j] {
      PointPair(p, s, w, m, if j < h then j else j - h);
    }
  }

  lemma PointPair(p: int, s: Poly, w: int, m: nat, j: nat)
    requires p > 2 && Root(p, w, m + 1)
    ensures var (x, y) := (FPow(p, w, j), FPow(p, FMul(p, w, w), j));
      var (e, o) := (Eval(p, Evens(s), y), Eval(p, Odds(s), y));
      && Eval(p, s, x) == FAdd(p, e, FMul(p, o, x))
      && Eval(p, s, FPow(p, w, Two(m) + j)) == FSub(p, e, FMul(p, o, x))
  {
    hide FAdd, FMul, FSub, Two, Evens, Odds, Eval;
    var x := FPow(p, w, j);
    var x' := FPow(p, w, Two(m) + j);
    var y := FPow(p, FMul(p, w, w), j);
    PowSum(p, w, Two(m), j);
    MinusOne(p, x);
    assert x' == FSub(p, 0, x);
    PowSquare(p, w, j);
    PowSum(p, w, j, j);
    assert FMul(p, x, x) == y;
    NegatedSquare(p, x);
    EvalEvenOdd(p, s, x);
    EvalEvenOdd(p, s, x');
    var (e, o) := (Eval(p, Evens(s), y), Eval(p, Odds(s), y));
    MulComm(p, x, o);
    NegatedTerm(p, e, o, x);
  }

  lemma NegatedSquare(p: int, x: int)
    requires p > 1
    ensures FMul(p, FSub(p, 0, x), FSub(p, 0, x)) == FMul(p, x, x)
  {
    ModMul(p, 0 - x, 0 - x);
    assert (0 - x) * (0 - x) == x * x;
  }

  lemma NegatedTerm(p: int, e: int, o: int, x: int)
    requires p > 1
    ensures FAdd(p, e, FMul(p, FSub(p, 0, x), o)) == FSub(p, e, FMul(p, o, x))
  {
    ModMulLeft(p, 0 - x, o);
    ModAddLeft(p, e, (0 - x) * o);
    ModSubLeft(p, e, o * x);
    assert e + (0 - x) * o == e - o * x;
  }

  // ---------------------------------------------------------------- bit reversal

  /** The m low bits of i in reverse order. */
  function Rev(i: nat, m: nat): (r: nat)
    ensures r < Two(m)
  {
    if m == 0 then 0 else (if i % 2 == 1 then Two(m - 1) else 0) + Rev(i / 2, m - 1)
  }

  lemma RevStep(i: nat, m: nat)
    ensures Rev(i, m + 1) == (if i % 2 == 1 then Two(m) else 0) + Rev(i / 2, m)
  {}

  /** Seen from the top bit down. */
  lemma {:induction false} RevTop(i: nat, m: nat)
    requires m > 0 && i < Two(m)
    ensures Rev(i, m) == 2 * Rev(i % Two(m - 1), m - 1) + i / Two(m - 1)
    decreases m
  {
    if m == 1 {
      assert Rev(i, 1) == i && Two(0) == 1 && Rev(i % 1, 0) == 0;
    } else {
      TwoNext(m - 2);
      TwoNext(m - 1);
      var h, k := Two(m - 2), i % Two(m - 1);
      RevTop(i / 2, m - 1);
      hide Rev, Two;
      HalfMod(i, h);
      RevStep(i, m - 1);
      RevStep(k, m - 2);
    }
  }

  lemma HalfMod(i: nat, h: nat)
    requires h > 0
    ensures i / 2 % h == i % (2 * h) / 2 && i / 2 / h == i / (2 * h) && i % (2 * h) % 2 == i % 2
  {
    var q, r := i / (2 * h), i % (2 * h);
    assert i == 2 * (q * h) + r;
    ModUnique(2, i, q * h + r / 2, r % 2);
    assert i / 2 == q * h + r / 2 && 0 <= r / 2 < h;
    ModUnique(h, i / 2, q, r / 2);
  }

  lemma {:induction false} RevInvolution(i: nat, m: nat)
    requires i < Two(m)
    ensures Rev(Rev(i, m), m) == i
    decreases m
  {
    if m > 0 {
      var h, low := Two(m - 1), Rev(i / 2, m - 1);
      RevInvolution(i / 2, m - 1);
      RevTop(Rev(i, m), m);
      ModUnique(h, Rev(i, m), i % 2, low);
    }
  }

  /** Adding one to the reversed number: carries run downwards from the top bit. */
  function RevInc(j: nat, m: nat): nat {
    if m == 0 then 0
    else if j >= Two(m - 1) then RevInc(j - Two(m - 1), m - 1)
    else j + Two(m - 1)
  }

  lemma RevIncStep(r: nat, m: nat)
    ensures RevInc(Two(m) + r, m + 1) == RevInc(r, m)
    ensures r < Two(m) ==> RevInc(r, m + 1) == r + Two(m)
  {}

  lemma RevPair(i: nat, m: nat)
    ensures i % 2 == 1 ==> Rev(i, m + 1) == Two(m) + Rev(i / 2, m) && Rev(i + 1, m + 1) == Rev(i / 2 + 1, m)
    ensures i % 2 == 0 ==> Rev(i, m + 1) == Rev(i / 2, m) && Rev(i + 1, m + 1) == Two(m) + Rev(i / 2, m)
  {
    RevStep(i, m);
    RevStep(i + 1, m);
    hide Rev, Two;
    if i % 2 == 1 {
      assert (i + 1) % 2 == 0 && (i + 1) / 2 == i / 2 + 1;
    } else {
      assert (i + 1) % 2 == 1 && (i + 1) / 2 == i / 2;
    }
  }

  lemma {:induction false} RevIncIs(i: nat, m: nat)
    requires i + 1 < Two(m)
    ensures RevInc(Rev(i, m), m) == Rev(i + 1, m)
    decreases m
  {
    hide Rev, RevInc, Two;
    TwoZero();
    if m > 0 {
      TwoNext(m - 1);
      RevPair(i, m - 1);
      RevIncStep(Rev(i / 2, m - 1), m - 1);
      if i % 2 == 1 {
        RevIncIs(i / 2, m - 1);
      }
    }
  }

  /** Even-indexed entries first, recursively. */
  function BitReversed(s: Poly, m: nat): (r: Poly)
    requires |s| == Two(m)
    ensures |r| == |s|
    decreases m
  {
    if m == 0 then s else BitReversed(Evens(s), m - 1) + BitReversed(Odds(s), m - 1)
  }

  lemma BaseReversal(s: Poly)
    requires |s| == 1
    ensures Two(0) == 1 && BitReversed(s, 0) == s && Rev(0, 0) == 0
  {}

  lemma BitReversedHalves(s: Poly, m: nat)
    requires |s| == Two(m + 1)
    ensures |Evens(s)| == Two(m) == |Odds(s)|
    ensures BitReversed(s, m + 1) == BitReversed(Evens(s), m) + BitReversed(Odds(s), m)
  {}

  lemma {:induction false} BitReversedAt(s: Poly, m: nat, i: nat)
    requires |s| == Two(m) && i < Two(m)
    ensures BitReversed(s, m)[i] == s[Rev(i, m)]
    decreases m
  {
    hide Rev, BitReversed, Two;
    TwoZero();
    if m == 0 {
      BaseReversal(s);
    } else {
      TwoNext(m - 1);
      BitReversedHalves(s, m - 1);
      RevTop(i, m);
      var (h, e, o) := (Two(m - 1), Evens(s), Odds(s));
      var k := if i < h then i else i - h;
      ModUnique(h, i, if i < h then 0 else 1, k);
      var r := Rev(k, m - 1);
      if i < h {
        BitReversedAt(e, m - 1, k);
        assert e[r] == s[2 * r];
      } else {
        BitReversedAt(o, m - 1, k);
        assert o[r] == s[2 * r + 1];
      }
    }
  }

  // ---------------------------------------------------------------- levels of butterflies

  /** The transform of a list in bit-reversed order, by halves. */
  function Hat(p: int, b: Poly, w: int, m: nat): (v: Poly)
    requires p > 1 && |b| == Two(m)
    ensures |v| == |b|
    decreases m
  {
    if m == 0 then b else
    var h, y := Two(m - 1), FMul(p, w, w);
    Merge(p, Hat(p, b[..h], y, m - 1), Hat(p, b[h..], y, m - 1), w)
  }

  lemma {:induction false} HatIsDft(p: int, s: Poly, w: int, m: nat)
    requires p > 2 && |s| == Two(m) && Root(p, w, m) && AllInField(p, s)
    ensures Hat(p, BitReversed(s, m), w, m) == Dft(p, s, w)
    decreases m
  {
    hide FMul, FAdd, FSub, Merge, Evens, Odds, Root;
    if m == 0 {
      SingleDft(p, s, w);
    } else {
      var y := FMul(p, w, w);
      RootSquare(p, w, m - 1);
      DftMerge(p, s, w, m - 1);
      HalvesInField(p, s);
      HatIsDft(p, Evens(s), y, m - 1);
      HatIsDft(p, Odds(s), y, m - 1);
      var b := BitReversed(s, m);
      assert b[..Two(m - 1)] == BitReversed(Evens(s), m - 1) && b[Two(m - 1)..] == BitReversed(Odds(s), m - 1);
    }
  }

  lemma HalvesInField(p: int, s: Poly)
    requires AllInField(p, s)
    ensures AllInField(p, Evens(s)) && AllInField(p, Odds(s))
  {}

  lemma SingleDft(p: int, s: Poly, w: int)
    requires p > 1 && |s| == 1 && AllInField(p, s)
    ensures Dft(p, s, w) == s
  {
    var x := FPow(p, w, 0);
    assert s[1..] == [];
    assert Eval(p, s, x) == s[0] by {
      MulZero(p, x);
      AddZero(p, s[0]);
    }
  }

  /** The array after t levels: every block of 2^t entries transformed. */
  function Level(p: int, b: Poly, w: int, m: nat, t: nat): (v: Poly)
    requires p > 1 && |b| == Two(m) && t <= m
    ensures |v| == |b|
    decreases m
  {
    if t == m then Hat(p, b, w, m) else
    var h, y := Two(m - 1), FMul(p, w, w);
    Level(p, b[..h], y, m - 1, t) + Level(p, b[h..], y, m - 1, t)
  }

  lemma {:induction false} LevelZero(p: int, b: Poly, w: int, m: nat)
    requires p > 1 && |b| == Two(m)
    ensures Level(p, b, w, m, 0) == b
    decreases m
  {
    if m > 0 {
      LevelZero(p, b[..Two(m - 1)], FMul(p, w, w), m - 1);
      LevelZero(p, b[Two(m - 1)..], FMul(p, w, w), m - 1);
    }
  }

  /** One level over the whole array: butterflies within each block of 2 * half entries. */
  function StageOf(p: int, v: Poly, half: nat, w: int): (r: Poly)
    requires p > 1 && half > 0
    ensures |r| == |v|
    decreases |v|
  {
    if |v| < 2 * half then v
    else Merge(p, v[..half], v[half..2 * half], w) + StageOf(p, v[2 * half..], half, w)
  }

  lemma {:induction false} StageConcat(p: int, a: Poly, b: Poly, half: nat, w: int, k: nat)
    requires p > 1 && half > 0 && |a| == 2 * half * k
    ensures StageOf(p, a + b, half, w) == StageOf(p, a, half, w) + StageOf(p, b, half, w)
    decreases k
  {
    hide Merge;
    if k == 0 {
      assert a + b == b && a == [];
    } else {
      LongEnough(half, k);
      var ab := a + b;
      assert ab[..half] == a[..half] && ab[half..2 * half] == a[half..2 * half];
      assert ab[2 * half..] == a[2 * half..] + b;
      StageConcat(p, a[2 * half..], b, half, w, k - 1);
      var x := Merge(p, a[..half], a[half..2 * half], w);
      var (y, z) := (StageOf(p, a[2 * half..], half, w), StageOf(p, b, half, w));
      assert x + (y + z) == x + y + z;
    }
  }

  lemma LongEnough(half: nat, k: nat)
    requires k > 0
    ensures 2 * half * k >= 2 * half && 2 * half * k - 2 * half == 2 * half * (k - 1)
  {
    TimesNext(2 * half, k - 1);
  }

  lemma TimesNext(d: nat, k: nat)
    ensures d * (k + 1) == d * k + d && d * k >= 0
  {}

  lemma TimesMonotone(d: nat, a: nat, b: nat)
    requires a <= b
    ensures d * a <= d * b
  {
    assert d * b == d * a + d * (b - a);
  }

  lemma TimesLess(d: nat, a: nat, b: nat)
    requires d * a < d * b
    ensures a < b
  {
    if b <= a {
      TimesMonotone(d, b, a);
    }
  }

  lemma LevelHalves(p: int, b: Poly, w: int, m: nat, t: nat)
    requires p > 1 && |b| == Two(m) && t < m
    ensures |b| == 2 * Two(m - 1)
    ensures Level(p, b, w, m, t) ==
            Level(p, b[..Two(m - 1)], FMul(p, w, w), m - 1, t) + Level(p, b[Two(m - 1)..], FMul(p, w, w), m - 1, t)
  {}

  /** The last level merges the two transformed halves. */
  lemma LastLevel(p: int, b: Poly, w: int, m: nat)
    requires p > 1 && |b| == Two(m + 1) && InField(p, w)
    ensures StageOf(p, Level(p, b, w, m + 1, m), Two(m), FPow(p, w, Two(0))) == Level(p, b, w, m + 1, m + 1)
  {
    FirstPower(p, w);
    LevelHalves(p, b, w, m + 1, m);
    var h, y := Two(m), FMul(p, w, w);
    var (x, z) := (Level(p, b[..h], y, m, m), Level(p, b[h..], y, m, m));
    LevelTop(p, b, w, m + 1);
    LevelTop(p, b[..h], y, m);
    LevelTop(p, b[h..], y, m);
    assert Hat(p, b, w, m + 1) == Merge(p, x, z, w);
    hide FMul, Merge, Hat, Level, StageOf, Two;
    StageStep(p, x + z, h, w);
    StageEmpty(p, h, w);
    assert (x + z)[..h] == x && (x + z)[h..2 * h] == z && (x + z)[2 * h..] == [];
    assert Merge(p, x, z, w) + [] == Merge(p, x, z, w);
  }

  lemma TwoSumNext(a: nat, b: nat)
    ensures Two(a + b + 1) == 2 * Two(a) * Two(b)
  {
    TwoSum(a, b);
    TwoNext(a + b);
    assert 2 * (Two(a) * Two(b)) == 2 * Two(a) * Two(b);
  }

  /** A level over the whole is the level over each half. */
  lemma LevelBoth(p: int, lo: Poly, hi: Poly, t: nat, e: nat, w: int)
    requires p > 1 && |lo| == Two(t + e + 1)
    ensures Two(t) > 0
    ensures StageOf(p, lo + hi, Two(t), FPow(p, w, Two(e + 1))) ==
            StageOf(p, lo, Two(t), FPow(p, FMul(p, w, w), Two(e))) + StageOf(p, hi, Two(t), FPow(p, FMul(p, w, w), Two(e)))
  {
    hide FMul, FPow, StageOf, Two;
    TwoNext(t);
    TwoNext(e);
    TwoSumNext(t, e);
    PowSquare(p, w, Two(e));
    StageConcat(p, lo, hi, Two(t), FPow(p, w, Two(e + 1)), Two(e));
  }

  /** A level of butterflies with step w^(n / 2^(t+1)) takes t levels to t + 1. */
  lemma {:induction false} LevelNext(p: int, b: Poly, w: int, t: nat, e: nat)
    requires p > 1 && |b| == Two(t + e + 1) && InField(p, w)
    ensures StageOf(p, Level(p, b, w, t + e + 1, t), Two(t), FPow(p, w, Two(e))) == Level(p, b, w, t + e + 1, t + 1)
    decreases e
  {
    hide FMul, Two, FPow, Level, StageOf, Merge, Hat;
    if e == 0 {
      LastLevel(p, b, w, t);
    } else {
      var m, y := t + e + 1, FMul(p, w, w);
      LevelHalves(p, b, w, m, t);
      LevelHalves(p, b, w, m, t + 1);
      var h := Two(m - 1);
      var (lo, hi) := (b[..h], b[h..]);
      assert |lo| == Two(t + (e - 1) + 1) == |hi|;
      LevelNext(p, lo, y, t, e - 1);
      LevelNext(p, hi, y, t, e - 1);
      LevelBoth(p, Level(p, lo, y, m - 1, t), Level(p, hi, y, m - 1, t), t, e - 1, w);
    }
  }

  lemma FirstPower(p: int, w: int)
    requires p > 1 && InField(p, w)
    ensures FPow(p, w, Two(0)) == w
  {
    MulOne(p, w);
  }

  // ---------------------------------------------------------------- transforming in place

  /** `j & bit != 0` and `j ^= bit` for a power of two. */
  predicate HasBit(j: nat, bit: nat)
    requires bit > 0
  {
    j / bit % 2 == 1
  }

  function Toggle(j: nat, bit: nat): nat
    requires bit > 0
  {
    if HasBit(j, bit) then Lower(j, bit) else j + bit
  }

  function Lower(j: nat, bit: nat): nat {
    if j >= bit then j - bit else 0
  }

  lemma TopBitSet(j: nat, bit: nat)
    requires bit > 0 && j < 2 * bit
    ensures HasBit(j, bit) <==> j >= bit
  {
    if j >= bit {
      ModUnique(bit, j, 1, j - bit);
    } else {
      ModUnique(bit, j, 0, j);
    }
  }

  lemma RevPositive(i: nat, m: nat)
    requires 0 < i < Two(m)
    ensures Rev(i, m) > 0
  {
    RevInvolution(i, m);
    RevZero(m);
  }

  lemma {:induction false} RevZero(m: nat)
    ensures Rev(0, m) == 0
  {
    if m > 0 {
      RevZero(m - 1);
    }
  }

  /** One carry of the reversed increment. */
  lemma Carry(j: nat, t: nat, target: nat)
    requires 0 < t && Two(t - 1) <= j < Two(t) && RevInc(j, t) == target > 0
    ensures t > 1 && Two(t - 1) / 2 == Two(t - 2)
    ensures j - Two(t - 1) < Two(t - 1) && RevInc(j - Two(t - 1), t - 1) == target
  {}

  lemma HalfOfTwo(m: nat)
    requires m > 0
    ensures Two(m) / 2 == Two(m - 1)
  {}

  /** The reversed counter, advanced by one. */
  method AdvanceReversed(j0: nat, m: nat, ghost i: nat) returns (j: nat)
    requires 0 < i < Two(m) && j0 == Rev(i - 1, m)
    ensures j == Rev(i, m)
  {
    hide Rev, HasBit, Two;
    RevIncIs(i - 1, m);
    RevPositive(i, m);
    TwoZero();
    HalfOfTwo(m);
    j := j0;
    var bit := Two(m) / 2;
    ghost var t := m;
    TwoNext(m - 1);
    TopBitSet(j, bit);
    while HasBit(j, bit)
      invariant 0 < t <= m && bit == Two(t - 1) && j < Two(t) == 2 * bit
      invariant RevInc(j, t) == Rev(i, m) && (HasBit(j, bit) <==> j >= bit)
      decreases t
    {
      Carry(j, t, Rev(i, m));
      TwoNext(t - 2);
      j := Toggle(j, bit);
      bit := bit / 2;
      t := t - 1;
      TopBitSet(j, bit);
    }
    j := Toggle(j, bit);
  }

  /** The swaps done up to i have put the entries whose smaller partner is below i in place. */
  ghost predicate Swapped(a: Poly, b: Poly, m: nat, i: nat) {
    && |a| == |b| == Two(m)
    && forall x: nat :: x < |a| ==> b[x] == a[if x < i || Rev(x, m) < i then Rev(x, m) else x]
  }

  lemma SwapStep(a: Poly, b: Poly, c: Poly, m: nat, i: nat)
    requires Swapped(a, b, m, i) && i < Two(m) && |c| == |b|
    requires var j := Rev(i, m); c == if i < j then b[i := b[j]][j := b[i]] else b
    ensures Swapped(a, c, m, i + 1)
  {
    hide Two, Rev;
    var j := Rev(i, m);
    RevInvolution(i, m);
    forall x: nat | x < |a| ensures c[x] == a[if x < i + 1 || Rev(x, m) < i + 1 then Rev(x, m) else x] {
      RevInvolution(x, m);
    }
  }

  lemma SwappedAll(a: Poly, b: Poly, m: nat)
    requires Swapped(a, b, m, Two(m))
    ensures b == BitReversed(a, m)
  {
    hide Two, Rev, BitReversed;
    forall x | 0 <= x < |a| ensures b[x] == BitReversed(a, m)[x] {
      BitReversedAt(a, m, x);
    }
  }

  lemma NothingSwapped(a: Poly, m: nat)
    requires |a| == Two(m)
    ensures Swapped(a, a, m, 1)
  {
    RevZero(m);
    forall x: nat | x < |a| && Rev(x, m) < 1 ensures x == 0 {
      RevInvolution(x, m);
    }
  }

  /** The bit-reversal permutation, by swaps. */
  method BitReverse(vals: array<int>, m: nat)
    requires vals.Length == Two(m)
    modifies vals
    ensures vals[..] == BitReversed(old(vals[..]), m)
  {
    hide Rev, BitReversed, Swapped;
    ghost var a := vals[..];
    var n, j := vals.Length, 0;
    RevZero(m);
    NothingSwapped(a, m);
    for i := 1 to n
      invariant j == Rev(i - 1, m)
      invariant Swapped(a, vals[..], m, i)
    {
      ghost var b := vals[..];
      j := AdvanceReversed(j, m, i);
      if i < j {
        vals[i], vals[j] := vals[j], vals[i];
        assert vals[..] == b[i := b[j]][j := b[i]];
      }
      SwapStep(a, b, vals[..], m, i);
    }
    SwappedAll(a, vals[..], m);
  }

  /** The first j butterflies of the block at k, applied to b, give v. */
  ghost predicate Merged(p: int, b: Poly, v: Poly, k: nat, half: nat, step: int, j: nat)
    requires p > 1
  {
    && |v| == |b| && k + 2 * half <= |b| && j <= half
    && (forall x :: 0 <= x < |b| && !(k <= x < k + j) && !(k + half <= x < k + half + j) ==> v[x] == b[x])
    && (forall x :: k <= x < k + j ==> v[x] == FAdd(p, b[x], FMul(p, b[x + half], FPow(p, step, x - k))))
    && (forall x :: k <= x < k + j ==> v[x + half] == FSub(p, b[x], FMul(p, b[x + half], FPow(p, step, x - k))))
  }

  lemma MergedBlock(p: int, b: Poly, v: Poly, k: nat, half: nat, step: int)
    requires p > 1 && Merged(p, b, v, k, half, step, half)
    ensures v[..k] == b[..k] && v[k + 2 * half..] == b[k + 2 * half..]
    ensures v[k..k + 2 * half] == Merge(p, b[k..k + half], b[k + half..k + 2 * half], step)
  {
    hide FMul, FAdd, FSub, FPow;
    var m := Merge(p, b[k..k + half], b[k + half..k + 2 * half], step);
    forall x | 0 <= x < 2 * half ensures v[k + x] == m[x] {
      if x < half {
        assert v[k + x] == FAdd(p, b[k + x], FMul(p, b[k + x + half], FPow(p, step, x)));
      } else {
        var y := x - half;
        assert v[k + y + half] == FSub(p, b[k + y], FMul(p, b[k + y + half], FPow(p, step, y)));
      }
    }
  }

  /** The butterflies of one block, the twiddle factor growing by one multiplication each. */
  method Butterflies(p: int, vals: array<int>, k: nat, half: nat, step: int)
    requires p > 1 && k + 2 * half <= vals.Length
    modifies vals
    ensures vals[..k] == old(vals[..k]) && vals[k + 2 * half..] == old(vals[k + 2 * half..])
    ensures vals[k..k + 2 * half] == Merge(p, old(vals[k..k + half]), old(vals[k + half..k + 2 * half]), step)
  {
    hide FMul, FAdd, FSub, Merge;
    ghost var b := vals[..];
    var w := 1;
    for j := 0 to half
      invariant w == FPow(p, step, j)
      invariant Merged(p, b, vals[..], k, half, step, j)
    {
      var u, v := vals[k + j], FMul(p, vals[k + j + half], w);
      assert u == b[k + j] && vals[k + j + half] == b[k + j + half];
      vals[k + j] := FAdd(p, u, v);
      vals[k + j + half] := FSub(p, u, v);
      MulComm(p, w, step);
      w := FMul(p, w, step);
    }
    MergedBlock(p, b, vals[..], k, half, step);
  }

  lemma StageStep(p: int, v: Poly, half: nat, w: int)
    requires p > 1 && half > 0 && |v| >= 2 * half
    ensures StageOf(p, v, half, w) == Merge(p, v[..half], v[half..2 * half], w) + StageOf(p, v[2 * half..], half, w)
  {}

  /** The blocks before k are done and the rest of b is untouched. */
  ghost predicate Staged(p: int, b: Poly, v: Poly, half: nat, step: int, k: nat)
    requires p > 1 && half > 0
  {
    k <= |v| == |b| && v[k..] == b[k..] && v[..k] + StageOf(p, b[k..], half, step) == StageOf(p, b, half, step)
  }

  lemma StagedNext(p: int, b: Poly, v: Poly, u: Poly, half: nat, step: int, k: nat)
    requires p > 1 && half > 0 && Staged(p, b, v, half, step, k) && k + 2 * half <= |v| == |u|
    requires u[..k] == v[..k] && u[k + 2 * half..] == v[k + 2 * half..]
    requires u[k..k + 2 * half] == Merge(p, v[k..k + half], v[k + half..k + 2 * half], step)
    ensures Staged(p, b, u, half, step, k + 2 * half)
  {
    hide Merge, StageOf;
    var d, rest := 2 * half, b[k..];
    var (before, block, after) := (v[..k], u[k..k + d], StageOf(p, b[k + d..], half, step));
    StageStep(p, rest, half, step);
    assert rest[..half] == v[k..k][..0] + v[k..k + half] by {
      assert v[k..][..half] == v[k..k + half];
    }
    assert rest[half..d] == v[k + half..k + d] by {
      assert v[k..][half..d] == v[k + half..k + d];
    }
    assert rest[d..] == b[k + d..];
    assert u[k + d..] == b[k + d..] by {
      assert v[k..][d..] == v[k + d..];
    }
    assert u[..k + d] == before + block;
    assert before + (block + after) == before + block + after;
  }

  method Stage(p: int, vals: array<int>, half: nat, step: int, ghost blocks: nat)
    requires p > 1 && half > 0 && vals.Length == 2 * half * blocks
    modifies vals
    ensures vals[..] == StageOf(p, old(vals[..]), half, step)
  {
    hide Merge, StageOf, Staged;
    ghost var b, done := vals[..], 0;
    var k := 0;
    StagedStart(p, b, half, step);
    while k < vals.Length
      invariant k == 2 * half * done && done <= blocks && k <= vals.Length
      invariant Staged(p, b, vals[..], half, step, k)
      decreases vals.Length - k
    {
      RoomForBlock(2 * half, done, blocks);
      ghost var v := vals[..];
      assert v[k..k + half] == vals[k..k + half] && v[k + half..k + 2 * half] == vals[k + half..k + 2 * half];
      Butterflies(p, vals, k, half, step);
      StagedNext(p, b, v, vals[..], half, step, k);
      k := k + 2 * half;
      done := done + 1;
    }
    StagedEnd(p, b, vals[..], half, step);
  }

  lemma StagedStart(p: int, b: Poly, half: nat, step: int)
    requires p > 1 && half > 0
    ensures Staged(p, b, b, half, step, 0)
  {
    assert b[0..] == b;
  }

  lemma StagedEnd(p: int, b: Poly, v: Poly, half: nat, step: int)
    requires p > 1 && half > 0 && Staged(p, b, v, half, step, |v|)
    ensures v == StageOf(p, b, half, step)
  {
    StageEmpty(p, half, step);
    assert b[|v|..] == [] && v[..|v|] == v;
  }

  lemma StageEmpty(p: int, half: nat, w: int)
    requires p > 1 && half > 0
    ensures StageOf(p, [], half, w) == []
  {}

  lemma RoomForBlock(d: nat, done: nat, blocks: nat)
    requires d * done < d * blocks
    ensures done < blocks && d * done + d <= d * blocks && d * (done + 1) == d * done + d
  {
    TimesLess(d, done, blocks);
    TimesNext(d, done);
    TimesMonotone(d, done + 1, blocks);
  }

  /** Bit reversal and all levels leave the transform at the powers of omega. */
  method Transform(p: int, vals: array<int>, m: nat, omega: int)
    requires p > 2 && vals.Length == Two(m) && Root(p, omega, m) && AllInField(p, vals[..])
    modifies vals
    ensures vals[..] == Dft(p, old(vals[..]), omega)
  {
    hide FMul, FPow, StageOf, BitReversed, Level, Root, Two;
    ghost var s := vals[..];
    BitReverse(vals, m);
    ghost var b := vals[..];
    LevelZero(p, b, omega, m);
    var len, t := 2, 0;
    TwoZero();
    while len <= vals.Length
      invariant t <= m && len == 2 * Two(t) && vals.Length == Two(m)
      invariant vals[..] == Level(p, b, omega, m, t)
      decreases m - t
    {
      LevelRoom(m, t);
      var step := FPow(p, omega, vals.Length / len);
      assert vals.Length / len == Two(m - t - 1) && vals.Length == 2 * Two(t) * Two(m - t - 1) by {
        StepCount(m, t);
      }
      RootInField(p, omega, m);
      LevelNext(p, b, omega, t, m - t - 1);
      Stage(p, vals, len / 2, step, Two(m - t - 1));
      TwoNext(t);
      len := 2 * len;
      t := t + 1;
    }
    LevelEnd(m, t);
    LevelTop(p, b, omega, m);
    HatIsDft(p, s, omega, m);
  }

  lemma TwoZero()
    ensures Two(0) == 1
  {}

  lemma RootInField(p: int, w: int, m: nat)
    requires p > 1 && Root(p, w, m)
    ensures InField(p, w)
  {}

  lemma LevelRoom(m: nat, t: nat)
    requires t <= m && 2 * Two(t) <= Two(m)
    ensures t < m
  {}

  lemma LevelEnd(m: nat, t: nat)
    requires t <= m && 2 * Two(t) > Two(m)
    ensures t == m
  {
    if t < m {
      TwoMonotone(t + 1, m);
    }
  }

  lemma LevelTop(p: int, b: Poly, w: int, m: nat)
    requires p > 1 && |b| == Two(m)
    ensures Level(p, b, w, m, m) == Hat(p, b, w, m)
  {}

  lemma StepCount(m: nat, t: nat)
    requires t < m
    ensures Two(m) == 2 * Two(t) * Two(m - t - 1) && Two(m) / (2 * Two(t)) == Two(m - t - 1)
  {
    TwoSum(t + 1, m - t - 1);
    ModUnique(2 * Two(t), Two(m), Two(m - t - 1), 0);
  }

  // ---------------------------------------------------------------- the inverse transform

  lemma {:induction false} PowProduct(p: int, a: int, b: int, e: nat)
    requires p > 1
    ensures FPow(p, FMul(p, a, b), e) == FMul(p, FPow(p, a, e), FPow(p, b, e))
  {
    hide FMul;
    if e == 0 {
      MulOne(p, 1);
    } else {
      PowProduct(p, a, b, e - 1);
      FourFactors(p, a, b, FPow(p, a, e - 1), FPow(p, b, e - 1));
    }
  }

  lemma FourFactors(p: int, a: int, b: int, x: int, y: int)
    requires p > 1
    ensures FMul(p, FMul(p, a, b), FMul(p, x, y)) == FMul(p, FMul(p, a, x), FMul(p, b, y))
  {
    ModMul(p, a * b, x * y);
    ModMul(p, a * x, b * y);
    assert a * b * (x * y) == a * x * (b * y);
  }

  lemma {:induction false} PowOne(p: int, e: nat)
    requires p > 1
    ensures FPow(p, 1, e) == 1
  {
    if e > 0 {
      PowOne(p, e - 1);
      MulOne(p, 1);
    }
  }

  lemma InverseRoot(p: int, w: int, u: int, m: nat)
    requires p > 2 && Root(p, w, m) && InField(p, u) && FMul(p, w, u) == 1
    ensures Root(p, u, m)
  {
    hide FMul, FPow, Two;
    if m == 0 {
      MulOne(p, u);
    } else {
      var x := FPow(p, u, Two(m - 1));
      PowProduct(p, w, u, Two(m - 1));
      PowOne(p, Two(m - 1));
      MinusOne(p, x);
      NegatedOne(p, x);
    }
  }

  lemma NegatedOne(p: int, x: int)
    requires p > 2 && InField(p, x)
    ensures FSub(p, 0, x) == 1 ==> x == p - 1
  {
    if x == 0 {
      ModSmall(p, 0);
    } else {
      ModShift(p, -x, 1);
      ModSmall(p, p - x);
    }
  }

  /** Half-way round from u^i: the sign alternates with i. */
  lemma HalfTurn(p: int, u: int, m: nat, i: nat)
    requires p > 2 && Root(p, u, m + 1)
    ensures FPow(p, FPow(p, u, i), Two(m)) == if i % 2 == 0 then 1 else p - 1
    decreases i
  {
    hide FMul, Two;
    if i == 0 {
      PowOne(p, Two(m));
    } else {
      HalfTurn(p, u, m, i - 1);
      PowProduct(p, u, FPow(p, u, i - 1), Two(m));
      MinusOne(p, 1);
      MinusOne(p, p - 1);
      MulOne(p, p - 1);
      MinusMinus(p);
    }
  }

  lemma MinusMinus(p: int)
    requires p > 2
    ensures FSub(p, 0, p - 1) == 1 && FSub(p, 0, 1) == p - 1
  {
    ModShift(p, 1 - p, 1);
    ModShift(p, -1, 1);
    ModSmall(p, 1);
    ModSmall(p, p - 1);
  }

  /** The value of a list of two halves at u^i is the sum or the difference of their values. */
  lemma HalvesAt(p: int, a: Poly, b: Poly, u: int, m: nat, i: nat)
    requires p > 2 && Root(p, u, m + 1) && |a| == Two(m) == |b|
    ensures var x := FPow(p, u, i);
      Eval(p, a + b, x) ==
        if i % 2 == 0 then Eval(p, PolyAdd(p, a, b), x) else Eval(p, PolySub(p, a, b), x)
  {
    hide FMul, FAdd, FSub, FPow, Eval, PolyAdd, PolySub, Two, Root;
    var x := FPow(p, u, i);
    var (v, w) := (Eval(p, a, x), Eval(p, b, x));
    EvalConcat(p, a, b, x);
    HalfTurn(p, u, m, i);
    if i % 2 == 0 {
      MulOne(p, w);
      EvalAdd(p, a, b, x);
    } else {
      MinusOne(p, w);
      AddMinus(p, v, w);
      EvalSub(p, a, b, x);
    }
  }

  lemma AddMinus(p: int, v: int, w: int)
    requires p > 1
    ensures FAdd(p, v, FSub(p, 0, w)) == FSub(p, v, w)
  {
    ModAddLeft(p, v, 0 - w);
  }

  /** Sums of butterfly outputs double the even part, differences the twisted odd part. */
  lemma MergeHalves(p: int, e: Poly, o: Poly, w: int)
    requires p > 1 && |e| == |o|
    ensures var v := Merge(p, e, o, w);
      && PolyAdd(p, v[..|e|], v[|e|..]) == PolyScalarMul(p, e, 2)
      && PolySub(p, v[..|e|], v[|e|..]) == PolyScalarMul(p, PolyShift(p, o, w), 2)
  {
    hide FMul, FAdd, FSub, FPow;
    var v, h := Merge(p, e, o, w), |e|;
    var (a, b) := (v[..h], v[h..]);
    forall j | 0 <= j < h
      ensures PolyAdd(p, a, b)[j] == FMul(p, e[j], 2)
      ensures PolySub(p, a, b)[j] == FMul(p, PolyShift(p, o, w)[j], 2)
    {
      SumAndDifference(p, e[j], FMul(p, o[j], FPow(p, w, j)));
    }
  }

  lemma SumAndDifference(p: int, e: int, t: int)
    requires p > 1
    ensures FAdd(p, FAdd(p, e, t), FSub(p, e, t)) == FMul(p, e, 2)
    ensures FSub(p, FAdd(p, e, t), FSub(p, e, t)) == FMul(p, t, 2)
  {
    ModAdd(p, e + t, e - t);
    ModSub(p, e + t, e - t);
  }

  /** Entry i of the transform back, from the transforms of the two halves. */
  lemma BackAt(p: int, e: Poly, o: Poly, w: int, u: int, m: nat, i: nat)
    requires p > 2 && |e| == Two(m) == |o| && Root(p, u, m + 1) && FMul(p, w, u) == 1
    ensures var y := FPow(p, FMul(p, u, u), i / 2);
      Eval(p, Merge(p, e, o, w), FPow(p, u, i)) ==
        if i % 2 == 0 then FMul(p, Eval(p, e, y), 2) else FMul(p, Eval(p, o, y), 2)
  {
    hide FMul, FAdd, FSub, FPow, Eval, Two, Root, Merge, PolyAdd, PolySub, PolyScalarMul, PolyShift;
    var (v, x) := (Merge(p, e, o, w), FPow(p, u, i));
    var (a, b) := (v[..|e|], v[|e|..]);
    assert a + b == v;
    HalvesAt(p, a, b, u, m, i);
    MergeHalves(p, e, o, w);
    PowSquare(p, u, i / 2);
    if i % 2 == 0 {
      EvalScalarMul(p, e, 2, x);
    } else {
      EvalScalarMul(p, PolyShift(p, o, w), 2, x);
      EvalShift(p, o, w, x);
      OddPoint(p, w, u, i / 2);
    }
  }

  lemma DftAt(p: int, s: Poly, w: int, i: nat)
    requires p > 1 && i < |s|
    ensures Dft(p, s, w)[i] == Eval(p, s, FPow(p, w, i))
  {}

  lemma OnlyEntry(p: int, s: Poly)
    requires |s| == 1 && AllInField(p, s)
    ensures InField(p, s[0])
  {}

  lemma HalfEntries(s: Poly, i: nat)
    requires i < |s|
    ensures i % 2 == 0 ==> i / 2 < |Evens(s)| && Evens(s)[i / 2] == s[i]
    ensures i % 2 == 1 ==> i / 2 < |Odds(s)| && Odds(s)[i / 2] == s[i]
  {}

  /** Transforming back with the inverse root multiplies every coefficient by the length. */
  lemma {:induction false} DftInverse(p: int, s: Poly, w: int, u: int, m: nat, i: nat)
    requires p > 2 && |s| == Two(m) && i < |s| && AllInField(p, s)
    requires Root(p, w, m) && InField(p, u) && FMul(p, w, u) == 1
    ensures Dft(p, Dft(p, s, w), u)[i] == FMul(p, Two(m) % p, s[i])
    decreases m
  {
    hide FMul, FPow, Eval, Two, Root, Merge, Dft, Evens, Odds, AllInField;
    InverseRoot(p, w, u, m);
    TwoZero();
    if m == 0 {
      OnlyEntry(p, s);
      SingleDft(p, s, w);
      SingleDft(p, s, u);
      ModSmall(p, 1);
      MulOne(p, s[0]);
    } else {
      TwoNext(m - 1);
      DftMerge(p, s, w, m - 1);
      RootSquare(p, w, m - 1);
      HalvesInField(p, s);
      SquaresInverse(p, w, u);
      HalfEntries(s, i);
      var (w2, u2, q) := (FMul(p, w, w), FMul(p, u, u), i / 2);
      var (e, o) := (Dft(p, Evens(s), w2), Dft(p, Odds(s), w2));
      DftAt(p, Dft(p, s, w), u, i);
      BackAt(p, e, o, w, u, m - 1, i);
      TwiceScaled(p, Two(m - 1), s[i]);
      if i % 2 == 0 {
        DftAt(p, e, u2, q);
        DftInverse(p, Evens(s), w2, u2, m - 1, q);
      } else {
        DftAt(p, o, u2, q);
        DftInverse(p, Odds(s), w2, u2, m - 1, q);
      }
    }
  }

  lemma SquaresInverse(p: int, w: int, u: int)
    requires p > 1 && FMul(p, w, u) == 1
    ensures FMul(p, FMul(p, w, w), FMul(p, u, u)) == 1
  {
    hide FMul;
    FourFactors(p, w, w, u, u);
    MulOne(p, 1);
  }

  /** w * u^(2q+1) == u^(2q). */
  lemma OddPoint(p: int, w: int, u: int, q: nat)
    requires p > 1 && FMul(p, w, u) == 1
    ensures FMul(p, w, FPow(p, u, 2 * q + 1)) == FPow(p, u, 2 * q)
  {
    hide FMul;
    MulAssoc(p, w, u, FPow(p, u, 2 * q));
    MulOne(p, FPow(p, u, 2 * q));
  }

  lemma TwiceScaled(p: int, h: int, y: int)
    requires p > 1
    ensures FMul(p, FMul(p, h % p, y), 2) == FMul(p, 2 * h % p, y)
  {
    ModMulLeft(p, h, y);
    ModMulLeft(p, h * y, 2);
    ModMulLeft(p, 2 * h, y);
    assert h * y * 2 == 2 * h * y;
  }

  // ---------------------------------------------------------------- the program's entry points

  /** A generator of the 2^32 subgroup. */
  ghost predicate Generator(p: int, g: int) {
    IsPrime(p) && p > 2 && Root(p, g, MAX_LOG_DOMAIN)
  }

  /** The generator squared k times. */
  function Squarings(p: int, g: int, k: nat): (w: int)
    requires p > 1
  {
    if k == 0 then g else var r := Squarings(p, g, k - 1); FMul(p, r, r)
  }

  function StandardRoot(p: int, g: int, m: nat): int
    requires p > 1 && m <= MAX_LOG_DOMAIN
  {
    Squarings(p, g, MAX_LOG_DOMAIN - m)
  }

  /** Squaring the generator 32 - m times gives a root of order 2^m. */
  method RootOfUnity(p: int, g: int, m: nat) returns (omega: int)
    requires Generator(p, g) && m <= MAX_LOG_DOMAIN
    ensures omega == StandardRoot(p, g, m) && Root(p, omega, m)
  {
    hide Root, FMul;
    omega := g;
    for i := 0 to MAX_LOG_DOMAIN - m
      invariant omega == Squarings(p, g, i) && Root(p, omega, MAX_LOG_DOMAIN - i)
    {
      RootSquare(p, omega, MAX_LOG_DOMAIN - i - 1);
      omega := FMul(p, omega, omega);
    }
  }

  lemma {:induction false} SquaringsRoot(p: int, g: int, k: nat)
    requires Generator(p, g) && k <= MAX_LOG_DOMAIN
    ensures Root(p, Squarings(p, g, k), MAX_LOG_DOMAIN - k)
  {
    hide Root, FMul;
    if k > 0 {
      SquaringsRoot(p, g, k - 1);
      RootSquare(p, Squarings(p, g, k - 1), MAX_LOG_DOMAIN - k);
    }
  }

  lemma RootNonzero(p: int, w: int, m: nat)
    requires IsPrime(p) && p > 2 && Root(p, w, m)
    ensures 0 < w < p
  {
    hide FMul;
    if m > 0 && w == 0 {
      TwoNext(m - 1);
      MulZero(p, FPow(p, 0, Two(m - 1) - 1));
    }
  }

  lemma {:induction false} TwoNonzero(p: int, m: nat)
    requires IsPrime(p) && p > 2
    ensures Two(m) % p != 0
  {
    ModSmall(p, 1);
    if m > 0 {
      TwoNonzero(p, m - 1);
      ModMulLeft(p, 2, Two(m - 1));
      ModSmall(p, 2);
      NoZeroDivisors(p, 2, Two(m - 1) % p);
    }
  }

  /** What the forward and the inverse transform leave in the array. */
  ghost function Forward(p: int, g: int, s: Poly, m: nat): Poly
    requires p > 1 && m <= MAX_LOG_DOMAIN
  {
    Dft(p, s, StandardRoot(p, g, m))
  }

  ghost function Backward(p: int, g: int, v: Poly, m: nat): Poly
    requires Generator(p, g) && m <= MAX_LOG_DOMAIN
  {
    PolyScalarMul(p, Dft(p, v, Invert(p, CheckedRoot(p, g, m))), Invert(p, Two(m) % p))
  }

  ghost function CheckedRoot(p: int, g: int, m: nat): (w: int)
    requires Generator(p, g) && m <= MAX_LOG_DOMAIN
    ensures w == StandardRoot(p, g, m) && 0 < w < p
  {
    SquaringsRoot(p, g, MAX_LOG_DOMAIN - m);
    RootNonzero(p, StandardRoot(p, g, m), m);
    StandardRoot(p, g, m)
  }

  /** The inverse transform undoes the transform. */
  lemma BackwardForward(p: int, g: int, s: Poly, m: nat)
    requires Generator(p, g) && m <= MAX_LOG_DOMAIN && |s| == Two(m) && AllInField(p, s)
    ensures Backward(p, g, Forward(p, g, s, m), m) == s
  {
    var w := CheckedRoot(p, g, m);
    SquaringsRoot(p, g, MAX_LOG_DOMAIN - m);
    TwoNonzero(p, m);
    hide FMul, Root, Dft, StandardRoot, Two, Invert;
    var (u, n, v) := (Invert(p, w), Two(m) % p, Dft(p, s, w));
    var (back, scaled) := (Dft(p, v, u), Backward(p, g, v, m));
    forall i | 0 <= i < |s| ensures scaled[i] == s[i] {
      DftInverse(p, s, w, u, m, i);
      Unscale(p, n, s[i]);
    }
  }

  lemma Unscale(p: int, n: int, y: int)
    requires IsPrime(p) && 0 < n < p && InField(p, y)
    ensures FMul(p, FMul(p, n, y), Invert(p, n)) == y
  {
    var k := Invert(p, n);
    hide FMul, Invert;
    MulComm(p, n, y);
    MulAssoc(p, y, n, k);
    MulOne(p, y);
  }

  lemma ShortTransforms(p: int, g: int, s: Poly)
    requires Generator(p, g) && |s| == 1 && AllInField(p, s)
    ensures Forward(p, g, s, 0) == s && Backward(p, g, s, 0) == s
  {
    TwoZero();
    hide FMul, Squarings, Invert;
    var w := CheckedRoot(p, g, 0);
    SingleDft(p, s, w);
    BackwardForward(p, g, s, 0);
  }

  /** `fft_in_place`, in both directions. */
  method FftInPlace(p: int, g: int, vals: array<int>, m: nat, inverse: bool)
    requires Generator(p, g) && m <= MAX_LOG_DOMAIN && vals.Length == Two(m) && AllInField(p, vals[..])
    modifies vals
    ensures vals[..] == if inverse then Backward(p, g, old(vals[..]), m) else Forward(p, g, old(vals[..]), m)
  {
    ghost var s := vals[..];
    if vals.Length <= 1 {
      LevelEnd(m, 0);
      ShortTransforms(p, g, s);
      return;
    }
    var omega := RootOfUnity(p, g, m);
    RootNonzero(p, omega, m);
    if inverse {
      var w := omega;
      omega := Invert(p, omega);
      InverseRoot(p, w, omega, m);
    }
    Transform(p, vals, m, omega);
    if inverse {
      hide FMul, Invert;
      ghost var v := vals[..];
      var k := Invert(p, vals.Length % p);
      for i := 0 to vals.Length
        invariant forall x :: 0 <= x < i ==> vals[x] == FMul(p, v[x], k)
        invariant forall x :: i <= x < vals.Length ==> vals[x] == v[x]
      {
        vals[i] := FMul(p, vals[i], k);
      }
    }
  }

  // ---------------------------------------------------------------- products

  /** a zero-padded to n coefficients. */
  function Padded(a: Poly, n: nat): (r: Poly)
    requires |a| <= n
    ensures |r| == n
  {
    a + seq(n - |a|, i => 0)
  }

  /** Values of a product are products of values, and padding changes neither. */
  lemma ProductTransform(p: int, g: int, a: Poly, b: Poly, m: nat, v: Poly)
    requires Generator(p, g) && m <= MAX_LOG_DOMAIN && a != [] && b != [] && |a| + |b| - 1 <= Two(m)
    requires AllInField(p, a) && AllInField(p, b) && |v| == Two(m)
    requires forall i :: 0 <= i < |v| ==>
      v[i] == FMul(p, Forward(p, g, Padded(a, Two(m)), m)[i], Forward(p, g, Padded(b, Two(m)), m)[i])
    ensures |PolyMul(p, a, b)| == |a| + |b| - 1
    ensures v == Forward(p, g, Padded(PolyMul(p, a, b), Two(m)), m)
  {
    hide FMul, FPow, Eval, StandardRoot, Two;
    var n, w := Two(m), StandardRoot(p, g, m);
    assert |PolyMul(p, a, b)| == |a| + |b| - 1;
    hide PolyMul;
    forall i | 0 <= i < n ensures v[i] == Forward(p, g, Padded(PolyMul(p, a, b), n), m)[i] {
      var x := FPow(p, w, i);
      EvalPadded(p, a, n - |a|, x);
      EvalPadded(p, b, n - |b|, x);
      EvalPadded(p, PolyMul(p, a, b), n - |PolyMul(p, a, b)|, x);
      EvalMul(p, a, b, x);
    }
  }

  /** The least m with 2^m at least k. */
  method NextPowerOfTwo(k: nat) returns (m: nat)
    requires k <= Two(MAX_LOG_DOMAIN)
    ensures k <= Two(m) && m <= MAX_LOG_DOMAIN && (m > 0 ==> Two(m - 1) < k)
  {
    hide Two;
    m := 0;
    while Two(m) < k
      invariant m <= MAX_LOG_DOMAIN && (m > 0 ==> Two(m - 1) < k)
      decreases MAX_LOG_DOMAIN - m
    {
      m := m + 1;
    }
  }

  /** `ntt_mul_bls12381`: pad, transform both, multiply pointwise, transform back, cut. */
  method NttMul(p: int, g: int, a: Poly, b: Poly) returns (r: Poly)
    requires Generator(p, g) && a != [] && b != [] && |a| + |b| - 1 <= Two(MAX_LOG_DOMAIN)
    requires AllInField(p, a) && AllInField(p, b)
    ensures r == PolyMul(p, a, b)
  {
    hide FMul, Two, PolyMul, Forward, Backward;
    var len := |a| + |b| - 1;
    var m := NextPowerOfTwo(len);
    var n := Two(m);
    var x := new int[n](i requires 0 <= i < n => if i < |a| then a[i] else 0);
    var y := new int[n](i requires 0 <= i < n => if i < |b| then b[i] else 0);
    assert x[..] == Padded(a, n) && y[..] == Padded(b, n);
    FftInPlace(p, g, x, m, false);
    FftInPlace(p, g, y, m, false);
    ghost var (u, v) := (x[..], y[..]);
    for i := 0 to n
      invariant y[..] == v
      invariant forall k :: 0 <= k < i ==> x[k] == FMul(p, u[k], v[k])
      invariant forall k :: i <= k < n ==> x[k] == u[k]
    {
      x[i] := FMul(p, x[i], y[i]);
    }
    ProductTransform(p, g, a, b, m, x[..]);
    ghost var product := PolyMul(p, a, b);
    FftInPlace(p, g, x, m, true);
    BackwardForward(p, g, Padded(product, n), m);
    r := x[..len];
    assert r == product;
  }
}
