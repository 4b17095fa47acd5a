/** Cutting a file into TFTP blocks and putting it back together.
    Both engines cut the same way, so both are proved against this module. */
module Blocks {
  type byte = b: int | 0 <= b < 256

  function Min(a: int, b: int): int {
    if a <= b then a else b
  }

  /** Number of DATA blocks of a transfer: a final short (possibly empty) block always follows. */
  function BlockCount(size: nat, blksize: nat): nat
    requires blksize > 0
  {
    size / blksize + 1
  }

  /** Block n, counted from 1: the half-open byte range clipped to the file. */
  function Slice(data: seq<byte>, blksize: nat, n: nat): seq<byte>
    requires blksize > 0 && n > 0
  {
    var lo := Min((n - 1) * blksize, |data|);
    data[lo..Min(lo + blksize, |data|)]
  }

  /** The first n blocks of the file as one string. */
  function Prefix(data: seq<byte>, blksize: nat, n: nat): seq<byte>
    requires blksize > 0
  {
    data[..Min(n * blksize, |data|)]
  }

  /** Concatenation of blocks 1..n. */
  function Join(data: seq<byte>, blksize: nat, n: nat): seq<byte>
    requires blksize > 0
  {
    if n == 0 then [] else Join(data, blksize, n - 1) + Slice(data, blksize, n)
  }

  lemma MulMonotone(a: nat, b: nat, k: nat)
    requires a <= b
    ensures a * k <= b * k
  {
  }

  /** n blocks fit in the file exactly when n is below the block count. */
  lemma FullBlocks(size: nat, blksize: nat, n: nat)
    requires blksize > 0
    ensures n < BlockCount(size, blksize) <==> n * blksize <= size
  {
    var q := size / blksize;
    assert size == q * blksize + size % blksize;
    if n <= q {
      MulMonotone(n, q, blksize);
    } else {
      MulMonotone(q + 1, n, blksize);
      assert (q + 1) * blksize == q * blksize + blksize;
    }
  }

  /** The first `BlockCount - 1` blocks are full, the last one and only the last one is short. */
  lemma OnlyLastIsShort(data: seq<byte>, blksize: nat, n: nat)
    requires blksize > 0 && 1 <= n <= BlockCount(|data|, blksize)
    ensures |Slice(data, blksize, n)| <= blksize
    ensures |Slice(data, blksize, n)| < blksize <==> n == BlockCount(|data|, blksize)
  {
    FullBlocks(|data|, blksize, n - 1);
    FullBlocks(|data|, blksize, n);
    assert n * blksize == (n - 1) * blksize + blksize;
  }

  lemma PrefixStep(data: seq<byte>, blksize: nat, n: nat)
    requires blksize > 0 && n > 0
    ensures Prefix(data, blksize, n) == Prefix(data, blksize, n - 1) + Slice(data, blksize, n)
    ensures |Prefix(data, blksize, n)| <= |data|
  {
    assert n * blksize == (n - 1) * blksize + blksize;
  }

  lemma PrefixWhole(data: seq<byte>, blksize: nat, n: nat)
    requires blksize > 0
    ensures n >= BlockCount(|data|, blksize) ==> Prefix(data, blksize, n) == data
    ensures n < BlockCount(|data|, blksize) ==> |Prefix(data, blksize, n)| == n * blksize
  {
    FullBlocks(|data|, blksize, n);
  }

  lemma {:induction false} JoinIsPrefix(data: seq<byte>, blksize: nat, n: nat)
    requires blksize > 0
    ensures Join(data, blksize, n) == Prefix(data, blksize, n)
  {
    if n > 0 {
      JoinIsPrefix(data, blksize, n - 1);
      PrefixStep(data, blksize, n);
    }
  }

  /** Blocks 1..BlockCount concatenate to the file; one block fewer never does,
      unless the missing block is the empty terminator. */
  lemma Reassembly(data: seq<byte>, blksize: nat)
    requires blksize > 0
    ensures Join(data, blksize, BlockCount(|data|, blksize)) == data
    ensures Join(data, blksize, BlockCount(|data|, blksize) - 1) == data <==> |data| % blksize == 0
  {
    var n := BlockCount(|data|, blksize);
    JoinIsPrefix(data, blksize, n);
    JoinIsPrefix(data, blksize, n - 1);
    PrefixWhole(data, blksize, n);
    assert Join(data, blksize, n - 1) == data <==> |data| % blksize == 0 by {
      PrefixWhole(data, blksize, n - 1);
      DivMod(|data|, blksize);
    }
  }

  lemma DivMod(a: nat, b: nat)
    requires b > 0
    ensures a == (a / b) * b + a % b
  {
  }
}
