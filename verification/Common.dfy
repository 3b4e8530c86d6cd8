/** Shared by several components. */
module Common {

  datatype Option<+T> = None | Some(value: T)

  function Max(a: int, b: int): int {
    if a >= b then a else b
  }

  /** The k-th power of two. */
  function Two(k: nat): (r: int)
    ensures r > 0
  {
    if k == 0 then 1 else 2 * Two(k - 1)
  }

  lemma TwoNext(m: nat)
    ensures Two(m + 1) == 2 * Two(m) && Two(m) >= 1
  {}

  lemma {:induction false} TwoSum(a: nat, b: nat)
    ensures Two(a + b) == Two(a) * Two(b)
    decreases a
  {
    if a > 0 {
      TwoSum(a - 1, b);
      assert 2 * (Two(a - 1) * Two(b)) == (2 * Two(a - 1)) * Two(b);
    }
  }

  lemma {:induction false} TwoMonotone(a: nat, b: nat)
    requires a <= b
    ensures Two(a) <= Two(b)
    decreases b
  {
    if a < b {
      TwoMonotone(a, b - 1);
    }
  }
}
