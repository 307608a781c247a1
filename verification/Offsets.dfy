/** The offset arithmetic of MACFileIO.cpp: where a plain offset lies among blocks that carry
    a header, and back. `block` is the raw block size, `header` the part of it not data. */
module Offsets {
  import opened Division

  function RoundUpDivide(numerator: nat, denominator: nat): nat
    requires denominator > 0
  {
    (numerator + denominator - 1) / denominator
  }

  function LocWithHeader(offset: nat, block: nat, header: nat): nat
    requires header < block
  {
    offset + RoundUpDivide(offset, block - header) * header
  }

  /** May be negative, for a size that ends inside a header. */
  function LocWithoutHeader(offset: nat, block: nat, header: nat): int
    requires header < block
  {
    offset - RoundUpDivide(offset, block) * header
  }

  /** The number of the block an offset lies in. */
  function BlockOf(off: nat, bs: nat): nat
    requires bs > 0
  {
    off / bs
  }

  predicate OnBlock(off: nat, bs: nat)
    requires bs > 0
  {
    off % bs == 0
  }

  lemma OnBlockNext(off: nat, bs: nat)
    requires bs > 0 && OnBlock(off, bs)
    ensures OnBlock(off + bs, bs)
  {
    DivPlus(off, bs);
  }

  // ----- The two maps -----------------------------------------------------------------------

  lemma RoundUpStep(n: nat, d: nat)
    requires d > 0
    ensures RoundUpDivide(n + d, d) == RoundUpDivide(n, d) + 1
  {
    DivPlus(n + d - 1, d);
  }

  /** One more block of data is one more raw block. */
  lemma LocStep(n: nat, block: nat, header: nat)
    requires header < block
    ensures LocWithHeader(n + (block - header), block, header) == LocWithHeader(n, block, header) + block
    ensures LocWithoutHeader(n + block, block, header) == LocWithoutHeader(n, block, header) + (block - header)
  {
    RoundUpStep(n, block - header);
    RoundUpStep(n, block);
    var a, b := RoundUpDivide(n, block - header), RoundUpDivide(n, block);
    assert (a + 1) * header == a * header + header && (b + 1) * header == b * header + header;
  }

  /** The first block, whole or partial. */
  lemma LocFirst(n: nat, block: nat, header: nat)
    requires header < block
    ensures n == 0 ==> LocWithHeader(n, block, header) == LocWithoutHeader(n, block, header) == 0
    ensures 0 < n <= block - header ==> LocWithHeader(n, block, header) == n + header
    ensures 0 < n <= block ==> LocWithoutHeader(n, block, header) == n - header
  {
    var d := block - header;
    if n == 0 {
      DivUnique(d - 1, d, 0, d - 1);
      DivUnique(block - 1, block, 0, block - 1);
    }
    if 0 < n <= d { DivUnique(n + d - 1, d, 1, n - 1); }
    if 0 < n <= block { DivUnique(n + block - 1, block, 1, n - 1); }
  }

  /** The size shown for a file that was given the size for `n` plain bytes is `n`. */
  lemma {:induction false} LocRoundTrip(n: nat, block: nat, header: nat)
    requires header < block
    ensures LocWithoutHeader(LocWithHeader(n, block, header), block, header) == n
    decreases n
  {
    hide LocWithHeader, LocWithoutHeader;
    LocFirst(n, block, header);
    var d := block - header;
    if n > d {
      LocRoundTrip(n - d, block, header);
      LocStep(n - d, block, header);
      LocStep(LocWithHeader(n - d, block, header), block, header);
    } else if n > 0 {
      LocFirst(n + header, block, header);
    }
  }

  /** `k` blocks of data before it move an offset by `k` raw blocks. */
  lemma {:induction false} LocShift(k: nat, n: nat, block: nat, header: nat)
    requires header < block
    ensures k * (block - header) >= 0
    ensures LocWithHeader(k * (block - header) + n, block, header) == k * block + LocWithHeader(n, block, header)
    decreases k
  {
    hide LocWithHeader;
    if k > 0 {
      var d := block - header;
      assert k * d == (k - 1) * d + d && k * block == (k - 1) * block + block;
      LocShift(k - 1, n, block, header);
      LocStep((k - 1) * d + n, block, header);
    }
  }

  /** The start of a data block goes to the start of a raw block. */
  lemma LocOfBlock(k: nat, block: nat, header: nat)
    requires header < block
    ensures k * (block - header) >= 0 && LocWithHeader(k * (block - header), block, header) == k * block
  {
    LocShift(k, 0, block, header);
    LocFirst(0, block, header);
  }

  lemma {:induction false} LocMonotone(m: nat, n: nat, block: nat, header: nat)
    requires header < block && m < n
    ensures LocWithHeader(m, block, header) < LocWithHeader(n, block, header)
    decreases n
  {
    hide LocWithHeader, LocWithoutHeader;
    LocFirst(m, block, header);
    LocFirst(n, block, header);
    var d := block - header;
    if n > d {
      LocStep(n - d, block, header);
      if m > d {
        LocStep(m - d, block, header);
        LocMonotone(m - d, n - d, block, header);
      } else {
        LocMonotone(0, n - d, block, header);
        LocFirst(0, block, header);
      }
    }
  }
}
