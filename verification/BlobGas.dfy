/** Blob gas header fields (EIP-4844, "Header extension") and their closed form along a chain. */
module BlobGas {
  import opened Common

  const TWO64: nat := 0x1_0000_0000_0000_0000
  const TARGET_BLOB_GAS_PER_BLOCK: nat := 393216
  const MAX_BLOB_GAS_PER_BLOCK: nat := 786432
  const BLOB_GAS_PER_BLOB: nat := 131072

  type U64 = x: nat | x < TWO64

  datatype Fields = Fields(excess: U64, used: U64)

  datatype Verdict = Accept | WrongExcess(expected: U64) | TooMuch | NotWhole

  /** The sum is taken in 64 bits and wraps. */
  function CalcExcess(parentExcess: U64, parentUsed: U64): U64 {
    var total := (parentExcess + parentUsed) % TWO64;
    if total < TARGET_BLOB_GAS_PER_BLOCK then 0 else total - TARGET_BLOB_GAS_PER_BLOCK
  }

  function VerifyFields(parent: Fields, current: Fields): Verdict {
    var expected := CalcExcess(parent.excess, parent.used);
    if current.excess != expected then WrongExcess(expected)
    else if current.used > MAX_BLOB_GAS_PER_BLOCK then TooMuch
    else if current.used % BLOB_GAS_PER_BLOB != 0 then NotWhole
    else Accept
  }

  /** The excess is the untruncated running total, floored at zero, exactly when the sum fits 64 bits. */
  lemma ExcessExactIff(parentExcess: U64, parentUsed: U64)
    ensures CalcExcess(parentExcess, parentUsed) == Max(0, parentExcess + parentUsed - TARGET_BLOB_GAS_PER_BLOCK)
      <==> parentExcess + parentUsed < TWO64
  {}

  /**
   A block is accepted exactly when its excess follows from its parent and it used the gas of zero to
   six blobs; otherwise the first of the three conditions to fail is reported.
   */
  lemma AcceptedBlocks(parent: Fields, current: Fields)
    ensures VerifyFields(parent, current).Accept? <==>
      current.excess == Max(0, (parent.excess + parent.used) % 0x1_0000_0000_0000_0000 - 393216) &&
      current.used in {0, 131072, 262144, 393216, 524288, 655360, 786432}
    ensures VerifyFields(parent, current).WrongExcess? <==>
      current.excess != Max(0, (parent.excess + parent.used) % 0x1_0000_0000_0000_0000 - 393216)
    ensures VerifyFields(parent, current).WrongExcess? ==>
      VerifyFields(parent, current).expected == Max(0, (parent.excess + parent.used) % 0x1_0000_0000_0000_0000 - 393216)
    ensures VerifyFields(parent, current).TooMuch? <==>
      current.excess == Max(0, (parent.excess + parent.used) % 0x1_0000_0000_0000_0000 - 393216) && current.used > 786432
  {}

  // ---------------------------------------------------------------- chains

  /** The header fields of blocks that carry these numbers of blobs. */
  function Headers(excess: U64, blobs: seq<nat>): (blocks: seq<Fields>)
    requires forall i :: 0 <= i < |blobs| ==> blobs[i] <= 6
    ensures |blocks| == |blobs| && (blobs != [] ==> blocks[0] == Fields(excess, blobs[0] * 131072))
    decreases |blobs|
  {
    if blobs == [] then [] else
    var used := blobs[0] * 131072;
    [Fields(excess, used)] + Headers(CalcExcess(excess, used), blobs[1..])
  }

  /** Blocks of up to six blobs each, headers computed one from the other, are an accepted chain. */
  lemma {:induction false} HeadersAccepted(excess: U64, blobs: seq<nat>)
    requires forall i :: 0 <= i < |blobs| ==> blobs[i] <= 6
    ensures AcceptedChain(Headers(excess, blobs))
    ensures forall i :: 0 <= i < |blobs| ==> Headers(excess, blobs)[i].used == blobs[i] * 131072
    decreases |blobs|
  {
    hide CalcExcess;
    if blobs != [] {
      var used := blobs[0] * 131072;
      var all, rest := Headers(excess, blobs), Headers(CalcExcess(excess, used), blobs[1..]);
      HeadersAccepted(CalcExcess(excess, used), blobs[1..]);
      forall i | 0 < i < |all| ensures VerifyFields(all[i - 1], all[i]).Accept? {
        if i > 1 {
          assert VerifyFields(rest[i - 2], rest[i - 1]).Accept?;
        }
      }
    }
  }

  ghost predicate AcceptedChain(blocks: seq<Fields>) {
    forall i :: 0 < i < |blocks| ==> VerifyFields(blocks[i - 1], blocks[i]).Accept?
  }

  ghost predicate NoOverflow(blocks: seq<Fields>) {
    forall i :: 0 <= i < |blocks| - 1 ==> blocks[i].excess + blocks[i].used < TWO64
  }

  /** The gas used beyond the target in blocks k up to but not including n. */
  function Surplus(blocks: seq<Fields>, k: nat, n: nat): int
    requires k <= n <= |blocks|
    decreases n - k
  {
    if k == n then 0 else Surplus(blocks, k, n - 1) + blocks[n - 1].used - TARGET_BLOB_GAS_PER_BLOCK
  }

  /** What the chain would owe had its excess last been zero before block k, or never for k = 0. */
  function Candidate(blocks: seq<Fields>, k: nat, n: nat): int
    requires k <= n < |blocks|
  {
    Surplus(blocks, k, n) + if k == 0 then blocks[0].excess else 0
  }

  /**
   The excess of block n is the largest of the initial excess plus the whole surplus and the
   surpluses of all proper or empty suffixes.
   */
  lemma {:induction false} ExcessClosedForm(blocks: seq<Fields>, n: nat)
    requires n < |blocks| && AcceptedChain(blocks) && NoOverflow(blocks)
    ensures forall k: nat :: k <= n ==> Candidate(blocks, k, n) <= blocks[n].excess
    ensures exists k: nat :: k <= n && Candidate(blocks, k, n) == blocks[n].excess
    decreases n
  {
    if n == 0 {
      assert Candidate(blocks, 0, 0) == blocks[0].excess;
    } else {
      ExcessClosedForm(blocks, n - 1);
      var delta := blocks[n - 1].used - TARGET_BLOB_GAS_PER_BLOCK;
      assert VerifyFields(blocks[n - 1], blocks[n]).Accept?;
      assert blocks[n].excess == Max(0, blocks[n - 1].excess + delta);
      forall k: nat | k < n ensures Candidate(blocks, k, n) == Candidate(blocks, k, n - 1) + delta {}
      assert Candidate(blocks, n, n) == 0;
      var j: nat :| j <= n - 1 && Candidate(blocks, j, n - 1) == blocks[n - 1].excess;
      assert Candidate(blocks, j, n) == blocks[n - 1].excess + delta;
    }
  }

  /** The first block's own usage is not checked by the chain. */
  predicate WholeBlock(b: Fields) {
    b.used <= MAX_BLOB_GAS_PER_BLOCK && b.used % BLOB_GAS_PER_BLOB == 0
  }

  /**
   With a valid first block the excess grows by at most MAX - TARGET a block, so a chain short enough
   for that bound never overflows.
   */
  lemma {:induction false} GrowthBound(blocks: seq<Fields>, n: nat)
    requires n < |blocks| && AcceptedChain(blocks) && blocks[0].used <= MAX_BLOB_GAS_PER_BLOCK
    requires blocks[0].excess + n * (MAX_BLOB_GAS_PER_BLOCK - TARGET_BLOB_GAS_PER_BLOCK) + TARGET_BLOB_GAS_PER_BLOCK < TWO64
    ensures blocks[n].excess <= blocks[0].excess + n * (MAX_BLOB_GAS_PER_BLOCK - TARGET_BLOB_GAS_PER_BLOCK)
    ensures NoOverflow(blocks[..n + 1])
    decreases n
  {
    if n > 0 {
      GrowthBound(blocks, n - 1);
      assert VerifyFields(blocks[n - 1], blocks[n]).Accept?;
      if n > 1 {
        assert VerifyFields(blocks[n - 2], blocks[n - 1]).Accept?;
      }
      assert blocks[..n] == blocks[..n + 1][..n];
      forall i | 0 <= i < n ensures blocks[i].excess + blocks[i].used < TWO64 {
        if i < n - 1 {
          assert blocks[..n][i] == blocks[i];
        }
      }
    }
  }

  /** Whole blobs stay whole, even across a wrap, since 2^64 is a whole number of blobs. */
  lemma {:induction false} WholeBlobsPreserved(blocks: seq<Fields>, n: nat)
    requires n < |blocks| && AcceptedChain(blocks)
    requires blocks[0].excess % BLOB_GAS_PER_BLOB == 0 && WholeBlock(blocks[0])
    ensures blocks[n].excess % BLOB_GAS_PER_BLOB == 0 && WholeBlock(blocks[n])
    decreases n
  {
    if n > 0 {
      WholeBlobsPreserved(blocks, n - 1);
      assert VerifyFields(blocks[n - 1], blocks[n]).Accept?;
    }
  }
}
