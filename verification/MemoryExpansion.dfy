/** Memory expansion gas (Yellow Paper, Appendix H) in 64-bit arithmetic, charged along a sequence of accesses. */
module MemoryExpansion {
  import opened Common

  const TWO64: nat := 0x1_0000_0000_0000_0000
  const WORD_LIMIT: nat := 0x1_0000_0000

  /** The largest byte size whose word count squares within 64 bits: 2^37 - 32. */
  const SIZE_LIMIT: nat := 32 * (WORD_LIMIT - 1)

  type U64 = x: nat | x < TWO64

  // ---------------------------------------------------------------- the source's arithmetic, wrapping

  function MemoryWordCount(byteSize: U64): U64 {
    (byteSize + 31) % TWO64 / 32
  }

  function MemoryGasCost(words: U64): U64 {
    (3 * words % TWO64 + words * words % TWO64 / 512) % TWO64
  }

  function MemoryExpansionCost(oldSize: U64, newSize: U64): U64 {
    if newSize <= oldSize then 0 else
    (MemoryGasCost(MemoryWordCount(newSize)) - MemoryGasCost(MemoryWordCount(oldSize))) % TWO64
  }

  function RequiredMemorySize(offset: U64, size: U64): U64 {
    if size == 0 then 0 else if offset + size < TWO64 then offset + size else TWO64 - 1
  }

  // ---------------------------------------------------------------- the exact cost

  function Words(byteSize: nat): nat {
    (byteSize + 31) / 32
  }

  function Cost(words: nat): nat {
    3 * words + words * words / 512
  }

  lemma SquareMonotone(a: nat, b: nat)
    requires a <= b
    ensures a * a <= b * b
  {
    assert a * a <= a * b <= b * b;
  }

  lemma SquareBound(w: nat)
    ensures w < WORD_LIMIT <==> w * w < TWO64
  {
    if w < WORD_LIMIT {
      SquareMonotone(w, WORD_LIMIT - 1);
      assert (WORD_LIMIT - 1) * (WORD_LIMIT - 1) < TWO64;
    } else {
      SquareMonotone(WORD_LIMIT, w);
      assert WORD_LIMIT * WORD_LIMIT == TWO64;
    }
  }

  /** Wrapping the square loses at least one multiple of 2^64; wrapping nothing loses nothing. */
  lemma WrappedSum(triple: nat, square: nat)
    ensures square >= TWO64 ==> (triple % TWO64 + square % TWO64 / 512) % TWO64 < triple + square / 512
    ensures square < TWO64 && triple + square / 512 < TWO64
      ==> (triple % TWO64 + square % TWO64 / 512) % TWO64 == triple + square / 512
  {
    if square >= TWO64 {
      assert square % TWO64 <= square - TWO64;
    }
  }

  /** The 64-bit cost is the exact one precisely for fewer than 2^32 words. */
  lemma GasCostExactIff(w: U64)
    ensures MemoryGasCost(w) == Cost(w) <==> w < WORD_LIMIT
    ensures w < WORD_LIMIT ==> Cost(w) < TWO64
  {
    SquareBound(w);
    WrappedSum(3 * w, w * w);
    if w < WORD_LIMIT {
      SmallSum(w, w * w);
    }
  }

  lemma SmallSum(w: nat, square: nat)
    requires w < WORD_LIMIT && square < TWO64
    ensures 3 * w + square / 512 < TWO64
  {}

  lemma CostMonotone(a: nat, b: nat)
    requires a <= b
    ensures Cost(a) <= Cost(b)
  {
    SquareMonotone(a, b);
  }

  /** The first expansion is priced exactly for the sizes up to 2^37 - 32 bytes and no others. */
  lemma FirstExpansionExactIff(size: U64)
    ensures MemoryExpansionCost(0, size) == Cost(Words(size)) <==> size <= SIZE_LIMIT
  {
    hide Cost, MemoryGasCost;
    GasCostExactIff(0);
    ZeroCost();
    if size + 31 < TWO64 {
      GasCostExactIff(Words(size));
    } else {
      assert MemoryWordCount(size) == 0;
      CostMonotone(WORD_LIMIT, Words(size));
      LimitCost();
    }
  }

  lemma ZeroCost()
    ensures Cost(0) == 0
  {}

  lemma LimitCost()
    ensures Cost(WORD_LIMIT) > 0
  {}

  /** Within the limit an expansion costs the exact difference: no wrap and no underflow. */
  lemma ExpansionExact(oldSize: U64, newSize: U64)
    requires oldSize <= newSize <= SIZE_LIMIT
    ensures Cost(Words(oldSize)) <= Cost(Words(newSize)) < TWO64
    ensures MemoryExpansionCost(oldSize, newSize) == Cost(Words(newSize)) - Cost(Words(oldSize))
  {
    hide Cost, MemoryGasCost;
    GasCostExactIff(Words(oldSize));
    GasCostExactIff(Words(newSize));
    CostMonotone(Words(oldSize), Words(newSize));
  }

  /** The exact cost is three gas a word plus the square of the words over 512, rounded down; words are rounded up. */
  lemma CostBounds(byteSize: nat)
    ensures var w := Words(byteSize);
      32 * w - 32 < byteSize <= 32 * w && 512 * (Cost(w) - 3 * w) <= w * w < 512 * (Cost(w) - 3 * w) + 512
  {}

  /** The required size is the least 64-bit size that reaches past the access, or the largest if none does. */
  lemma RequiredSizeLeast(offset: U64, size: U64, v: U64)
    ensures size == 0 ==> RequiredMemorySize(offset, size) == 0
    ensures size > 0 ==> (offset + size <= RequiredMemorySize(offset, size) <==> offset + size < 0x1_0000_0000_0000_0000)
    ensures size > 0 && offset + size <= v ==> RequiredMemorySize(offset, size) <= v
    ensures size > 0 && offset + size >= 0x1_0000_0000_0000_0000 ==> RequiredMemorySize(offset, size) == 0xFFFF_FFFF_FFFF_FFFF
  {}

  /**
   An access to empty memory is charged the cost of the words that hold it exactly when it ends within
   the first 2^37 - 32 bytes; one that ends beyond 2^64 is not charged at all.
   */
  lemma AccessPricedIff(offset: U64, size: U64)
    requires size > 0
    ensures MemoryExpansionCost(0, RequiredMemorySize(offset, size)) == Cost(Words(offset + size)) <==>
            offset + size <= 32 * 0xFFFF_FFFF
    ensures offset + size >= 0x1_0000_0000_0000_0000 ==> MemoryExpansionCost(0, RequiredMemorySize(offset, size)) == 0
  {
    hide Cost, MemoryGasCost;
    if offset + size < TWO64 {
      FirstExpansionExactIff(offset + size);
    } else {
      assert MemoryWordCount(TWO64 - 1) == 0;
      CostMonotone(WORD_LIMIT, Words(offset + size));
      LimitCost();
    }
  }

  // ---------------------------------------------------------------- charging a sequence of accesses

  /** The running maximum after the accesses. */
  function Highest(size: U64, sizes: seq<U64>): (h: U64)
    decreases |sizes|
  {
    if sizes == [] then size else Highest(Max(size, sizes[0]), sizes[1..])
  }

  /** The gas charged, access by access, against the running maximum. */
  function Charged(size: U64, sizes: seq<U64>): nat
    decreases |sizes|
  {
    if sizes == [] then 0 else
    MemoryExpansionCost(size, sizes[0]) + Charged(Max(size, sizes[0]), sizes[1..])
  }

  ghost predicate Within(sizes: seq<U64>) {
    forall i :: 0 <= i < |sizes| ==> sizes[i] <= SIZE_LIMIT
  }

  lemma {:induction false} HighestIsMax(size: U64, sizes: seq<U64>)
    ensures size <= Highest(size, sizes) && forall x :: x in sizes ==> x <= Highest(size, sizes)
    ensures Highest(size, sizes) == size || Highest(size, sizes) in sizes
    decreases |sizes|
  {
    if sizes != [] {
      HighestIsMax(Max(size, sizes[0]), sizes[1..]);
      assert forall x :: x in sizes ==> x == sizes[0] || x in sizes[1..];
    }
  }

  /** The total charged telescopes to the cost of the final word count less that of the first. */
  lemma {:induction false} ChargesTelescope(size: U64, sizes: seq<U64>)
    requires size <= SIZE_LIMIT && Within(sizes)
    ensures Highest(size, sizes) <= SIZE_LIMIT
    ensures Charged(size, sizes) == Cost(Words(Highest(size, sizes))) - Cost(Words(size))
    decreases |sizes|
  {
    hide Cost, MemoryExpansionCost, Words;
    if sizes != [] {
      var next := Max(size, sizes[0]);
      ChargesTelescope(next, sizes[1..]);
      if size < sizes[0] {
        ExpansionExact(size, sizes[0]);
      } else {
        NoExpansion(size, sizes[0]);
      }
    }
  }

  lemma NoExpansion(oldSize: U64, newSize: U64)
    requires newSize <= oldSize
    ensures MemoryExpansionCost(oldSize, newSize) == 0
  {}

  lemma SameMember(a: seq<U64>, b: seq<U64>, x: U64)
    requires multiset(a) == multiset(b)
    ensures x in a <==> x in b
  {
    assert x in a <==> x in multiset(a);
    assert x in b <==> x in multiset(b);
  }

  lemma SameHighest(size: U64, a: seq<U64>, b: seq<U64>)
    requires multiset(a) == multiset(b)
    ensures Highest(size, a) == Highest(size, b)
  {
    hide Highest;
    HighestIsMax(size, a);
    HighestIsMax(size, b);
    SameMember(a, b, Highest(size, a));
    SameMember(a, b, Highest(size, b));
  }

  /** The order of the accesses does not change the total. */
  lemma OrderIrrelevant(size: U64, a: seq<U64>, b: seq<U64>)
    requires size <= SIZE_LIMIT && Within(a) && multiset(a) == multiset(b)
    ensures Charged(size, a) == Charged(size, b)
  {
    hide Charged, Highest, Cost, Words;
    SameHighest(size, a, b);
    forall i | 0 <= i < |b| ensures b[i] <= SIZE_LIMIT {
      SameMember(b, a, b[i]);
    }
    ChargesTelescope(size, a);
    ChargesTelescope(size, b);
  }

  // ---------------------------------------------------------------- accesses by offset and size

  function Sizes(accesses: seq<(U64, U64)>): (s: seq<U64>)
    ensures |s| == |accesses|
    ensures forall i :: 0 <= i < |s| ==> s[i] == RequiredMemorySize(accesses[i].0, accesses[i].1)
  {
    seq(|accesses|, i requires 0 <= i < |accesses| => RequiredMemorySize(accesses[i].0, accesses[i].1))
  }

  /** w words hold every byte touched; an access of size 0 touches none. */
  ghost predicate Covers(w: nat, accesses: seq<(U64, U64)>) {
    forall i :: 0 <= i < |accesses| && accesses[i].1 > 0 ==> accesses[i].0 + accesses[i].1 <= 32 * w
  }

  ghost predicate LeastCover(w: nat, accesses: seq<(U64, U64)>) {
    Covers(w, accesses) && forall v: nat :: Covers(v, accesses) ==> w <= v
  }

  /**
   Starting from empty memory, any accesses that fewer than 2^32 words can hold are charged, in all,
   the cost of the least number of words that holds them.
   */
  lemma ChargedForLeastCover(accesses: seq<(U64, U64)>)
    requires Covers(WORD_LIMIT - 1, accesses)
    ensures exists w: nat :: LeastCover(w, accesses) && Charged(0, Sizes(accesses)) == Cost(w)
  {
    hide Charged, Highest, Cost;
    var sizes := Sizes(accesses);
    HighestIsMax(0, sizes);
    ChargesTelescope(0, sizes);
    ZeroCost();
    var h := Highest(0, sizes);
    var w := Words(h);
    forall i | 0 <= i < |accesses| && accesses[i].1 > 0 ensures accesses[i].0 + accesses[i].1 <= 32 * w {
      assert sizes[i] in sizes;
    }
    forall v: nat | Covers(v, accesses) ensures w <= v {
      if h != 0 {
        var i :| 0 <= i < |sizes| && sizes[i] == h;
        assert accesses[i].1 > 0;
      }
    }
    assert LeastCover(w, accesses);
  }
}
