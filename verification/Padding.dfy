/** What BlockFileIO::padFile writes to extend a file from size `m` to size `n`, and what that
    makes of the file. */
module Padding {
  import opened Bytes
  import opened Division
  import opened Offsets

  function AlignDown(n: nat, bs: nat): (r: nat)
    requires bs > 0
    ensures r <= n < r + bs && OnBlock(r, bs)
  {
    DivMod(n, bs);
    n / bs * bs
  }

  function AlignUp(n: nat, bs: nat): (r: nat)
    requires bs > 0
    ensures n <= r < n + bs && OnBlock(r, bs)
  {
    OnBlockNext(AlignDown(n, bs), bs);
    if AlignDown(n, bs) == n then n else AlignDown(n, bs) + bs
  }

  /** The part of the last block that is used. */
  lemma AlignRest(n: nat, bs: nat)
    requires bs > 0
    ensures n % bs == n - AlignDown(n, bs)
    ensures OnBlock(n, bs) <==> AlignDown(n, bs) == n
  {
    DivMod(n, bs);
  }

  /** Two block starts are a whole number of blocks apart. */
  lemma AlignStep(m: nat, n: nat, bs: nat)
    requires bs > 0 && m <= n
    ensures AlignDown(m, bs) <= AlignDown(n, bs)
    ensures AlignDown(m, bs) < AlignDown(n, bs) ==> AlignDown(m, bs) + bs <= AlignDown(n, bs)
    ensures AlignDown(m, bs) < AlignDown(n, bs) ==> AlignUp(m, bs) <= AlignDown(n, bs)
  {
    QuotientMonotone(m, n, bs);
    if AlignDown(m, bs) < AlignDown(n, bs) {
      NextMultiple(m / bs, n / bs, bs);
    }
  }

  /** The two block starts around `m`, and the next one. */
  lemma AlignCases(m: nat, n: nat, bs: nat)
    requires bs > 0 && m <= n
    ensures var i, u, j := AlignDown(m, bs), AlignUp(m, bs), AlignDown(n, bs);
      && i <= m <= u <= i + bs && i <= j <= n
      && (if i < m then u == i + bs else u == i)
      && (i < j ==> u <= j && i + bs <= j)
      && OnBlock(i, bs) && OnBlock(u, bs) && OnBlock(j, bs)
  {
    AlignStep(m, n, bs);
  }

  /** The file after the writes of padFile, where `first` is what was read of the old last block. */
  function Padded(c: seq<byte>, first: seq<byte>, m: nat, n: nat, bs: nat, force: bool, holes: bool): seq<byte>
    requires bs > 0 && m <= n
  {
    AlignStep(m, n, bs);
    var i, u, j := AlignDown(m, bs), AlignUp(m, bs), AlignDown(n, bs);
    if i == j then (if force then Overwrite(c, i, Resize(first, n - i)) else c)
    else PadBlocks(c, first, i, u, j, n, force, holes)
  }

  /** The case of several blocks: fill up the old last block from `i` to `u`, add zero blocks up
      to `j`, and the zeros of the new last block. */
  function PadBlocks(c: seq<byte>, first: seq<byte>, i: nat, u: nat, j: nat, n: nat, force: bool,
                     holes: bool): seq<byte>
    requires i <= u <= j <= n
  {
    PadTail(Overwrite(c, i, Resize(first, u - i)), u, j, n, force, holes)
  }

  function PadTail(c: seq<byte>, u: nat, j: nat, n: nat, force: bool, holes: bool): seq<byte>
    requires u <= j <= n
  {
    var c3 := if holes then c else Overwrite(c, u, Zeros(j - u));
    if force then Overwrite(c3, j, Zeros(n - j)) else c3
  }

  /** How far padFile gets: the caller writes, or cuts, the rest. */
  function PadSize(m: nat, n: nat, bs: nat, force: bool, holes: bool): nat
    requires bs > 0
  {
    if AlignDown(m, bs) == AlignDown(n, bs) then (if force then n else m)
    else if force && AlignDown(n, bs) < n then n
    else if holes then AlignUp(m, bs)
    else AlignDown(n, bs)
  }

  /** Whether padFile writes anything. */
  predicate PadWrites(m: nat, n: nat, bs: nat, force: bool, holes: bool)
    requires bs > 0
  {
    if AlignDown(m, bs) == AlignDown(n, bs) then force
    else AlignDown(m, bs) < m || !holes || (force && AlignDown(n, bs) < n)
  }

  /** What padFile does in terms of the starts of the two last blocks. */
  lemma PadCases(c: seq<byte>, first: seq<byte>, m: nat, n: nat, bs: nat, force: bool, holes: bool)
    requires bs > 0 && m < n
    ensures var i, u, j := AlignDown(m, bs), AlignUp(m, bs), AlignDown(n, bs);
      && i <= j && u == (if i == m then m else i + bs) && (i != j ==> u <= j)
      && Padded(c, first, m, n, bs, force, holes) ==
         (if i != j then PadBlocks(c, first, i, u, j, n, force, holes)
          else if force then Overwrite(c, i, Resize(first, n - i)) else c)
      && (PadWrites(m, n, bs, force, holes) <==>
          if i != j then i < m || (!holes && u < j) || (force && j < n) else force)
      && |Resize(first, n - i)| == n - i
  {
    AlignStep(m, n, bs);
  }

  lemma PadEnd(c: seq<byte>, at: nat, data: seq<byte>)
    requires at <= |c| <= at + |data|
    ensures Overwrite(c, at, data) == c[..at] + data
  {
  }

  /** On a file of the old size padFile keeps all bytes and adds zeros. */
  lemma PadClean(c: seq<byte>, n: nat, bs: nat, force: bool, holes: bool)
    requires bs > 0 && |c| < n
    ensures AlignDown(|c|, bs) <= |c|
    ensures Padded(c, c[AlignDown(|c|, bs)..], |c|, n, bs, force, holes) == Resize(c, PadSize(|c|, n, bs, force, holes))
  {
    AlignStep(|c|, n, bs);
    var i, u, j := AlignDown(|c|, bs), AlignUp(|c|, bs), AlignDown(n, bs);
    hide AlignDown, AlignUp;
    if i == j {
      PadEnd(c, i, Resize(c[i..], n - i));
    } else {
      PadBlocksClean(c, i, u, j, n, force, holes);
    }
  }

  lemma PadBlocksClean(c: seq<byte>, i: nat, u: nat, j: nat, n: nat, force: bool, holes: bool)
    requires i <= |c| <= u <= j <= n
    ensures PadBlocks(c, c[i..], i, u, j, n, force, holes)
         == Resize(c, if force && j < n then n else if holes then u else j)
  {
    hide Overwrite;
    var c2 := Overwrite(c, i, Resize(c[i..], u - i));
    PadEnd(c, i, Resize(c[i..], u - i));
    assert c2 == Resize(c, u);
    var c3 := if holes then c2 else Overwrite(c2, u, Zeros(j - u));
    PadEnd(c2, u, Zeros(j - u));
    if force {
      if j < n {
        PadLast(c3, j, n - j);
        ResizeTwice(c, |c3|, n);
      } else {
        PadNothing(c3, j);
      }
    }
  }

  /** What the two writes of PadTail do, and that the second one fits. */
  lemma PadTailCases(c: seq<byte>, u: nat, j: nat, n: nat, force: bool, holes: bool, bs: nat)
    requires u <= j <= n < j + bs && OnBlock(u, bs) && (u == |c| || |c| == n)
    ensures var c3 := if holes then c else Overwrite(c, u, Zeros(j - u));
      && PadTail(c, u, j, n, force, holes) == (if force && j < n then Overwrite(c3, j, Zeros(n - j)) else c3)
      && (u == j ==> c3 == c)
      && |c3| <= n && (j <= |c3| || (holes && OnBlock(|c3|, bs)))
    ensures |Zeros(n - j)| == n - j
  {
    if u < j { OverwriteSize(c, u, Zeros(j - u)); } else { PadNothing(c, u); }
    PadNothing(if holes then c else Overwrite(c, u, Zeros(j - u)), j);
  }

  lemma PadNothing(c: seq<byte>, at: nat)
    ensures Overwrite(c, at, Zeros(0)) == c
  {
  }

  lemma PadLast(c: seq<byte>, at: nat, n: nat)
    requires |c| <= at && n > 0
    ensures Overwrite(c, at, Zeros(n)) == Resize(c, at + n)
  {
  }

  /** On a file already grown to the new size, with zeros in its whole blocks if they are left
      to holes, padFile puts `first` and zeros behind the blocks before it. */
  lemma PadGrown(c: seq<byte>, first: seq<byte>, m: nat, n: nat, bs: nat, holes: bool)
    requires bs > 0 && m < n && |c| == n && |first| == m - AlignDown(m, bs)
    requires holes && AlignDown(m, bs) < AlignDown(n, bs) ==>
      AlignUp(m, bs) <= AlignDown(n, bs) && AllZero(c[AlignUp(m, bs)..AlignDown(n, bs)])
    ensures Padded(c, first, m, n, bs, true, holes) == Resize(c[..AlignDown(m, bs)] + first, n)
  {
    AlignStep(m, n, bs);
    var i, u, j := AlignDown(m, bs), AlignUp(m, bs), AlignDown(n, bs);
    assert i + |first| == m <= u;
    hide AlignDown, AlignUp;
    if i == j {
      PadEnd(c, i, Resize(first, n - i));
    } else {
      PadBlocksGrown(c, first, i, u, j, n, holes);
    }
  }

  lemma PadBlocksGrown(c: seq<byte>, first: seq<byte>, i: nat, u: nat, j: nat, n: nat, holes: bool)
    requires i + |first| <= u <= j <= n == |c|
    requires holes ==> AllZero(c[u..j])
    ensures PadBlocks(c, first, i, u, j, n, true, holes) == Resize(c[..i] + first, n)
  {
    hide Overwrite;
    var c2 := Overwrite(c, i, Resize(first, u - i));
    PadMiddle(c, i, Resize(first, u - i));
    var c3 := if holes then c2 else Overwrite(c2, u, Zeros(j - u));
    PadMiddle(c2, u, Zeros(j - u));
    PadMiddle(c3, j, Zeros(n - j));
    assert c2[..u] == Resize(c[..i] + first, u) && c2[u..] == c[u..];
    assert c3[..j] == Resize(c[..i] + first, j) by {
      assert c3[u..j] == Zeros(j - u) by {
        if holes { assert c3[u..j] == c[u..j]; }
      }
      assert c3[..j] == c2[..u] + c3[u..j];
    }
  }

  /** The sizes between the writes of PadBlocks, on a file of the old or the new size. */
  lemma PadSizes(c: seq<byte>, first: seq<byte>, i: nat, m: nat, u: nat, j: nat, n: nat, holes: bool)
    requires i <= m <= u <= j <= n && (|c| == m || |c| == n) && (i == m ==> u == m)
    ensures var c2 := Overwrite(c, i, Resize(first, u - i));
      && u <= |c2| <= n && (|c| == m ==> |c2| == u) && (|c| == n ==> |c2| == n)
      && |Overwrite(c2, u, Zeros(j - u))| == Max(|c2|, j)
  {
    var x := Resize(first, u - i);
    if x != [] { OverwriteSize(c, i, x); }
    if j != u { OverwriteSize(Overwrite(c, i, x), u, Zeros(j - u)); }
  }

  lemma PadMiddle(c: seq<byte>, at: nat, data: seq<byte>)
    requires at + |data| <= |c|
    ensures Overwrite(c, at, data) == c[..at] + data + c[at + |data|..]
  {
  }
}
