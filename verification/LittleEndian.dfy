/** The bytes of a number, least significant first. */
module LittleEndian {
  import opened Common
  import opened PrimeField

  function ByteAt(n: nat, i: nat): nat {
    n / Two(8 * i) % 256
  }

  /** Prepending a byte shifts the others up. */
  lemma BytePrepended(b: nat, n: nat, i: nat)
    requires b < 256
    ensures ByteAt(b + 256 * n, 0) == b && ByteAt(b + 256 * n, i + 1) == ByteAt(n, i)
  {
    assert Two(0) == 1;
    var d := Two(8 * i);
    TwoSum(8, 8 * i);
    assert Two(8) == 256 by {
      assert Two(4) == 16;
    }
    assert 256 * n == n / d * (256 * d) + 256 * (n % d) by {
      assert 256 * (n / d * d) == n / d * (256 * d);
    }
    ModUnique(256 * d, b + 256 * n, n / d, b + 256 * (n % d));
  }
}
