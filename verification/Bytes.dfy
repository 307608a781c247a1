/** Bytes, and what the flat file calls do to a sequence of them: `pread`, `pwrite` and
    `ftruncate`, plus the bit operations the sources apply to unsigned words. */
module Bytes {

  type byte = bv8

  function Min(a: int, b: int): int {
    if b < a then b else a
  }

  function Max(a: int, b: int): int {
    if a < b then b else a
  }

  function Zeros(n: nat): seq<byte> {
    seq(n, _ => 0)
  }

  predicate AllZero(s: seq<byte>) {
    forall k :: 0 <= k < |s| ==> s[k] == 0
  }

  /** The bytes a read of `len` bytes at `off` yields: fewer at the end of the file, none past it. */
  function Slice(s: seq<byte>, off: nat, len: nat): seq<byte> {
    if off >= |s| then [] else s[off..Min(off + len, |s|)]
  }

  /** A file cut to `n` bytes, or extended to `n` bytes with zeros. */
  function Resize(s: seq<byte>, n: nat): seq<byte> {
    if n <= |s| then s[..n] else s + Zeros(n - |s|)
  }

  /** A file after `data` was written at `off`; a gap before `off` reads as zeros. */
  function Overwrite(s: seq<byte>, off: nat, data: seq<byte>): seq<byte> {
    if data == [] then s
    else Resize(s, off) + data + (if off + |data| <= |s| then s[off + |data|..] else [])
  }

  // ----- Facts about the flat operations --------------------------------------------------

  lemma OverwriteSize(s: seq<byte>, off: nat, data: seq<byte>)
    requires data != []
    ensures |Overwrite(s, off, data)| == Max(|s|, off + |data|)
  {
  }

  /** Byte `j` of a file after a write: new data, the old byte, or a zero of the gap. */
  lemma OverwriteAt(s: seq<byte>, off: nat, data: seq<byte>, j: nat)
    requires data != [] && j < Max(|s|, off + |data|)
    ensures |Overwrite(s, off, data)| == Max(|s|, off + |data|)
    ensures Overwrite(s, off, data)[j] ==
            if off <= j < off + |data| then data[j - off] else if j < |s| then s[j] else 0
  {
  }

  /** Writing two adjacent pieces one after the other is writing them at once. */
  lemma OverwriteTwice(s: seq<byte>, off: nat, a: seq<byte>, b: seq<byte>)
    ensures Overwrite(Overwrite(s, off, a), off + |a|, b) == Overwrite(s, off, a + b)
  {
    if a == [] {
      assert a + b == b;
    } else if b == [] {
      assert a + b == a;
    } else {
      var m := Overwrite(s, off, a);
      var l, r := Overwrite(m, off + |a|, b), Overwrite(s, off, a + b);
      OverwriteSize(s, off, a);
      OverwriteSize(m, off + |a|, b);
      OverwriteSize(s, off, a + b);
      hide Overwrite;
      forall j | 0 <= j < |l| ensures l[j] == r[j] {
        OverwriteAt(m, off + |a|, b, j);
        OverwriteAt(s, off, a + b, j);
        if j < |m| {
          OverwriteAt(s, off, a, j);
        }
      }
    }
  }

  /** Writing a block merged from the old block and a piece is writing the piece. */
  lemma OverwriteMerged(s: seq<byte>, k: nat, bs: nat, po: nat, piece: seq<byte>)
    requires piece != [] && po + |piece| <= bs
    ensures Overwrite(s, k, Overwrite(Slice(s, k, bs), po, piece)) == Overwrite(s, k + po, piece)
  {
    hide *;
    var l, r := Overwrite(s, k, Overwrite(Slice(s, k, bs), po, piece)), Overwrite(s, k + po, piece);
    MergedSize(s, k, bs, po, piece);
    forall j | 0 <= j < |l| ensures l[j] == r[j] {
      MergedAt(s, k, bs, po, piece, j);
    }
  }

  lemma MergedSize(s: seq<byte>, k: nat, bs: nat, po: nat, piece: seq<byte>)
    requires piece != [] && po + |piece| <= bs
    ensures var block := Slice(s, k, bs); var merged := Overwrite(block, po, piece);
      && |merged| == Max(|block|, po + |piece|) && merged != []
      && |Overwrite(s, k, merged)| == |Overwrite(s, k + po, piece)| == Max(|s|, k + po + |piece|)
  {
    var block := Slice(s, k, bs);
    SliceSize(s, k, bs);
    OverwriteSize(block, po, piece);
    OverwriteSize(s, k, Overwrite(block, po, piece));
    OverwriteSize(s, k + po, piece);
  }

  lemma MergedAt(s: seq<byte>, k: nat, bs: nat, po: nat, piece: seq<byte>, j: nat)
    requires piece != [] && po + |piece| <= bs && j < Max(|s|, k + po + |piece|)
    ensures |Overwrite(s, k, Overwrite(Slice(s, k, bs), po, piece))| > j && |Overwrite(s, k + po, piece)| > j
    ensures Overwrite(s, k, Overwrite(Slice(s, k, bs), po, piece))[j] == Overwrite(s, k + po, piece)[j]
  {
    hide Overwrite, Slice;
    var block := Slice(s, k, bs);
    var merged := Overwrite(block, po, piece);
    MergedSize(s, k, bs, po, piece);
    OverwriteAt(s, k + po, piece, j);
    OverwriteAt(s, k, merged, j);
    if k <= j < k + |merged| {
      OverwriteAt(block, po, piece, j - k);
      if !(k + po <= j < k + po + |piece|) {
        SliceSize(s, k, bs);
        if j < k + |block| {
          SliceAt(s, k, bs, j - k);
        }
      }
    } else {
      SliceSize(s, k, bs);
    }
  }

  lemma SliceAt(s: seq<byte>, off: nat, len: nat, j: nat)
    requires j < |Slice(s, off, len)|
    ensures off + j < |s| && Slice(s, off, len)[j] == s[off + j]
  {
  }

  lemma SliceConcat(p: seq<byte>, q: seq<byte>, len: nat)
    ensures Slice(p + q, |p|, len) == q[..Min(len, |q|)]
  {
  }

  lemma SliceSize(s: seq<byte>, off: nat, len: nat)
    ensures |Slice(s, off, len)| == Max(0, Min(len, |s| - off))
  {
  }

  lemma SlicePrefix(s: seq<byte>, off: nat, n: nat, len: nat)
    requires len <= n
    ensures Slice(Slice(s, off, n), 0, len) == Slice(s, off, len)
  {
  }

  lemma SubSlice(s: seq<byte>, a: nat, b: nat, i: nat, j: nat)
    requires a <= b <= |s| && i <= j <= b - a
    ensures s[a..b][i..j] == s[a + i..a + j]
  {
    assert forall k :: 0 <= k < j - i ==> s[a..b][i..j][k] == s[a + i + k];
  }

  lemma SliceNone(s: seq<byte>, off: nat)
    ensures Slice(s, off, 0) == []
  {
  }

  /** What a read of `size` more bytes takes from a block, from its byte `po` on. */
  function Piece(block: seq<byte>, po: nat, size: nat): seq<byte> {
    if |block| <= po then [] else block[po..po + Min(|block| - po, size)]
  }

  /** One step of a read block by block: `done` of `len` bytes from `off` have been read, and
      the block at `at` is next, from its byte `po`. */
  lemma ReadStep(s: seq<byte>, off: nat, at: nat, po: nat, bs: nat, done: nat, len: nat)
    requires done < len && at + po == off + done && po < bs
    requires |Slice(s, off, done)| == done
    ensures var block := Slice(s, at, bs); var piece := Piece(block, po, len - done);
      && |block| <= bs && |piece| <= len - done
      && Slice(s, off, done) + piece == Slice(s, off, done + |piece|)
      && |Slice(s, off, done + |piece|)| == done + |piece|
      && (|block| <= po || |block| < bs ==> Slice(s, off, len) == Slice(s, off, done + |piece|))
      && (|block| > po && done + |piece| < len ==> at + |block| == off + done + |piece|)
      && (|block| > po ==> piece != [])
  {
    var block := Slice(s, at, bs);
    SliceSize(s, at, bs);
    if |block| <= po {
      assert Slice(s, off, done) + [] == Slice(s, off, done);
    } else {
      ReadMore(s, off, at, po, bs, done, len);
    }
  }

  lemma ReadMore(s: seq<byte>, off: nat, at: nat, po: nat, bs: nat, done: nat, len: nat)
    requires done < len && at + po == off + done && po < bs
    requires |Slice(s, off, done)| == done && |Slice(s, at, bs)| > po
    ensures var piece := Piece(Slice(s, at, bs), po, len - done);
      && 0 < |piece| <= len - done
      && Slice(s, off, done) + piece == Slice(s, off, done + |piece|)
      && |Slice(s, off, done + |piece|)| == done + |piece|
      && (|Slice(s, at, bs)| < bs ==> Slice(s, off, len) == Slice(s, off, done + |piece|))
      && (done + |piece| < len ==> at + |Slice(s, at, bs)| == off + done + |piece|)
  {
    hide *;
    var block := Slice(s, at, bs);
    SliceSize(s, at, bs);
    SliceSize(s, off, done);
    SliceSize(s, off, len);
    ReadSizes(|s|, off, at, po, bs, done, len);
    var n := Min(|block| - po, len - done);
    PieceOf(s, at, bs, po, len - done);
    SliceWhole(s, off, done);
    SliceWhole(s, off, done + n);
    SplitSlice(s, off, off + done, off + done + n);
    if |block| < bs { SliceToEnd(s, off, len, done + n); }
  }

  lemma PieceOf(s: seq<byte>, at: nat, bs: nat, po: nat, size: nat)
    requires |Slice(s, at, bs)| > po
    ensures var n := Min(|Slice(s, at, bs)| - po, size);
      0 <= n && at + po + n <= |s| && Piece(Slice(s, at, bs), po, size) == s[at + po..at + po + n]
  {
    SliceIs(s, at, bs);
    hide Slice;
    var block := Slice(s, at, bs);
    SubSlice(s, at, at + |block|, po, po + Min(|block| - po, size));
  }

  lemma SliceWhole(s: seq<byte>, off: nat, n: nat)
    requires off <= |s| && Max(0, Min(n, |s| - off)) == n
    ensures off + n <= |s| && Slice(s, off, n) == s[off..off + n]
  {
  }

  lemma SliceToEnd(s: seq<byte>, off: nat, len: nat, n: nat)
    requires off <= |s| && Max(0, Min(len, |s| - off)) == n
    ensures Slice(s, off, len) == Slice(s, off, n)
  {
  }

  lemma ReadSizes(size: nat, off: nat, at: nat, po: nat, bs: nat, done: nat, len: nat)
    requires done < len && at + po == off + done && po < bs
    requires Max(0, Min(done, size - off)) == done && Max(0, Min(bs, size - at)) > po
    ensures var block := Max(0, Min(bs, size - at)); var n := Min(block - po, len - done);
      && 0 < n <= len - done && at + block <= size && off <= size
      && Max(0, Min(done + n, size - off)) == done + n && Min(off + done + n, size) == off + done + n
      && Min(off + done, size) == off + done && Min(at + bs, size) == at + block
      && (block < bs ==> Max(0, Min(len, size - off)) == done + n && Min(off + len, size) == off + done + n)
      && (done + n < len ==> at + block == off + done + n)
  {
  }

  lemma SliceIs(s: seq<byte>, off: nat, len: nat)
    ensures |Slice(s, off, len)| == Max(0, Min(len, |s| - off))
    ensures off <= |s| ==> Slice(s, off, len) == s[off..Min(off + len, |s|)]
  {
  }

  lemma SplitSlice(s: seq<byte>, a: nat, b: nat, c: nat)
    requires a <= b <= c <= |s|
    ensures s[a..b] + s[b..c] == s[a..c]
  {
  }

  lemma OverwriteEnd(s: seq<byte>, off: nat, data: seq<byte>)
    requires off <= |s| <= off + |data| && data != []
    ensures Overwrite(s, off, data) == s[..off] + data
  {
  }

  lemma OverwriteGap(s: seq<byte>, off: nat, data: seq<byte>)
    requires |s| <= off && data != []
    ensures Overwrite(s, off, data) == Resize(s, off) + data
  {
  }

  lemma OverwriteMiddle(s: seq<byte>, off: nat, data: seq<byte>)
    requires off + |data| <= |s| && data != []
    ensures Overwrite(s, off, data) == s[..off] + data + s[off + |data|..]
  {
  }

  lemma ResizeSize(s: seq<byte>, n: nat)
    ensures |Resize(s, n)| == n && (n == |s| ==> Resize(s, n) == s)
  {
  }

  lemma ResizeTwice(s: seq<byte>, m: nat, n: nat)
    requires |s| <= m || n <= m
    ensures Resize(Resize(s, m), n) == Resize(s, n)
  {
  }

  function Front(data: seq<byte>, n: nat): seq<byte>
    requires n <= |data|
  {
    data[..n]
  }

  function Part(data: seq<byte>, at: nat, n: nat): (r: seq<byte>)
    requires at + n <= |data|
    ensures |r| == n
  {
    data[at..at + n]
  }

  /** Writing the next part behind the first one. */
  lemma WriteMore(s: seq<byte>, off: nat, data: seq<byte>, done: nat, n: nat)
    requires done + n <= |data|
    ensures Overwrite(Overwrite(s, off, Front(data, done)), off + done, Part(data, done, n))
         == Overwrite(s, off, Front(data, done + n))
  {
    OverwriteTwice(s, off, Front(data, done), Part(data, done, n));
    assert Front(data, done) + Part(data, done, n) == Front(data, done + n);
  }
}

/** Bytes and the numbers they stand for. */
module ByteValues {

  function ToNat(b: bv8): nat {
    b as nat
  }

  /** The byte for a number, counted up from zero. */
  function ToByte(n: nat): bv8
    requires n < 256
  {
    if n == 0 then 0 else ToByte(n - 1) + 1
  }

  lemma NextByte(b: bv8)
    requires ToNat(b) != 255
    ensures ToNat(b + 1) == ToNat(b) + 1
  {
  }

  lemma {:induction false} NatBack(n: nat)
    requires n < 256
    ensures ToNat(ToByte(n)) == n
  {
    if n == 0 {
      assert ToByte(0) == 0;
    } else {
      NatBack(n - 1);
      NextByte(ToByte(n - 1));
    }
  }

  lemma ByteBack(b: bv8)
    ensures ToNat(b) < 256 && ToByte(ToNat(b)) == b
  {
    NatBack(ToNat(b));
    SameByte(ToByte(ToNat(b)), b);
  }

  lemma SameByte(a: bv8, b: bv8)
    requires ToNat(a) == ToNat(b)
    ensures a == b
  {
  }
}
