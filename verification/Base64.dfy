/** base64.cpp and base64.h: re-cutting a stream of bits into values of another width, and the
    file-name alphabet. The unsigned chars of the buffers are naturals here. */
module Base64 {
  import opened Bits

  // ----- The number in a sequence of values -----------------------------------------------------

  /** The values or-ed together, each `p` bits further up than the one before it. */
  function Gathered(s: seq<nat>, p: nat): nat {
    if s == [] then 0 else BitOr(s[0], Shl(Gathered(s[1..], p), p))
  }

  /** The little-endian number with the values as its digits. */
  function Value(s: seq<nat>, p: nat): nat {
    if s == [] then 0 else s[0] + Shl(Value(s[1..], p), p)
  }

  /** The `count` lowest digits of `n`, of `p` bits each, lowest first. */
  function Digits(n: nat, p: nat, count: nat): (s: seq<nat>)
    ensures |s| == count
    decreases count
  {
    hide *;
    if count == 0 then [] else [Mask(n, p)] + Digits(Shr(n, p), p, count - 1)
  }

  predicate Fit(s: seq<nat>, p: nat) {
    forall k :: 0 <= k < |s| ==> s[k] < Pow2(p)
  }

  lemma {:induction false} GatheredIsValue(s: seq<nat>, p: nat)
    requires Fit(s, p)
    ensures Gathered(s, p) == Value(s, p)
  {
    if s != [] {
      GatheredIsValue(s[1..], p);
      OrIsPlus(s[0], Value(s[1..], p), p);
    }
  }

  lemma {:induction false} ValueBound(s: seq<nat>, p: nat)
    requires Fit(s, p)
    ensures Value(s, p) < Pow2(p * |s|)
  {
    if s != [] {
      ValueBound(s[1..], p);
      BoundStep(s[0], Value(s[1..], p), p, |s|);
    }
  }

  lemma BoundStep(d: nat, v: nat, p: nat, n: nat)
    requires d < Pow2(p) && n > 0 && v < Pow2(p * (n - 1))
    ensures d + Shl(v, p) < Pow2(p * n)
  {
    PowStep(p, n);
    MulBound(v, Pow2(p * (n - 1)), Pow2(p));
    hide Pow2;
  }

  lemma PowStep(p: nat, n: nat)
    requires n > 0
    ensures 0 <= p * (n - 1) && Pow2(p * n) == Pow2(p) * Pow2(p * (n - 1))
  {
    hide Pow2;
    MulStep(p, n);
    PowSum(p * n, p, p * (n - 1));
  }

  lemma PowSum(s: nat, j: nat, k: nat)
    requires s == j + k
    ensures Pow2(s) == Pow2(j) * Pow2(k)
  {
    Pow2Plus(j, k);
  }

  lemma MulStep(p: nat, n: nat)
    requires n > 0
    ensures 0 <= p * (n - 1) && p * n == p + p * (n - 1)
  {
  }

  lemma MulBound(v: nat, q: nat, d: nat)
    requires v < q
    ensures v * d + d <= d * q
  {
    assert (v + 1) * d <= q * d;
  }

  lemma {:induction false} DigitsFit(n: nat, p: nat, count: nat)
    ensures Fit(Digits(n, p, count), p)
    decreases count
  {
    hide Shl, Shr, Mask, Pow2;
    if count > 0 {
      SplitIs(n, p);
      DigitsFit(Shr(n, p), p, count - 1);
    }
  }

  /** Each digit is the bits of the number at its place. */
  lemma {:induction false} DigitAt(n: nat, p: nat, count: nat, k: nat)
    requires k < count
    ensures Digits(n, p, count)[k] == Mask(Shr(n, p * k), p)
    decreases k
  {
    hide Mask, Shr;
    if k == 0 {
      NoShr(n, p);
    } else {
      DigitAt(Shr(n, p), p, count - 1, k - 1);
      ShrTwice(n, p, k);
    }
  }

  lemma NoShr(n: nat, p: nat)
    ensures Shr(n, p * 0) == n
  {
    assert Pow2(0) == 1;
  }

  lemma ShrTwice(n: nat, p: nat, k: nat)
    requires k > 0
    ensures 0 <= p * (k - 1) && Shr(Shr(n, p), p * (k - 1)) == Shr(n, p * k)
  {
    hide Shl, Shr, Mask, Pow2;
    MulStep(p, k);
    var j := p * (k - 1);
    var q, r := Shr(Shr(n, p), j), Mask(Shr(n, p), j);
    SplitIs(n, p);
    SplitIs(Shr(n, p), j);
    ShlPlus(Shl(q, j), r, p);
    ShlTwice(q, j, p);
    Pow2Plus(p, j);
    BoundShl(Mask(n, p), r, p, j);
    SplitUnique(q, Mask(n, p) + Shl(r, p), p + j);
  }

  /** The digits of a number hold the number, if there are enough of them. */
  lemma {:induction false} ValueOfDigits(n: nat, p: nat, count: nat)
    requires n < Pow2(p * count)
    ensures Value(Digits(n, p, count), p) == n
    decreases count
  {
    hide Shl, Shr, Mask, Pow2;
    if count == 0 {
      NoBits(p);
    } else {
      SplitIs(n, p);
      ShrBound(n, p, count);
      ValueOfDigits(Shr(n, p), p, count - 1);
      assert Digits(n, p, count)[1..] == Digits(Shr(n, p), p, count - 1);
    }
  }

  lemma NoBits(p: nat)
    ensures p * 0 == 0 && Pow2(0) == 1
  {
  }

  lemma ShrBound(n: nat, p: nat, count: nat)
    requires count > 0 && n < Pow2(p * count)
    ensures Shr(n, p) < Pow2(p * (count - 1))
  {
    SplitIs(n, p);
    PowStep(p, count);
    var q, b, d := Shr(n, p), Pow2(p * (count - 1)), Pow2(p);
    hide Pow2, Shr, Mask;
    if q >= b {
      MulMono(b, q, d);
    }
  }

  lemma MulMono(b: nat, q: nat, d: nat)
    requires b <= q
    ensures d * b <= q * d
  {
  }

  /** The values in a number are its digits. */
  lemma {:induction false} DigitsOfValue(s: seq<nat>, p: nat)
    requires Fit(s, p)
    ensures Digits(Value(s, p), p, |s|) == s
  {
    if s != [] {
      DigitsOfValue(s[1..], p);
      SplitUnique(Value(s[1..], p), s[0], p);
    }
  }

  // ----- changeBase2Inline ----------------------------------------------------------------------

  /** The bits at hand and the values left after reading until there are enough bits for an
      output value, or nothing is left. */
  function Fill(bits: nat, n: nat, srcPow: nat, dstPow: nat): (nat, nat)
    decreases n
  {
    if n > 0 && bits < dstPow then Fill(bits + srcPow, n - 1, srcPow, dstPow) else (bits, n)
  }

  lemma {:induction false} FillStops(bits: nat, n: nat, srcPow: nat, dstPow: nat)
    ensures var f := Fill(bits, n, srcPow, dstPow);
      && f.1 <= n && (f.1 > 0 ==> f.0 >= dstPow)
      && (f.1 == n ==> f.0 == bits)
    decreases n
  {
    if n > 0 && bits < dstPow { FillStops(bits + srcPow, n - 1, srcPow, dstPow); }
  }

  /** How many values the in-place change writes. */
  function OutCount(bits: nat, n: nat, srcPow: nat, dstPow: nat, partial: bool): nat
    requires dstPow > 0
    decreases n, bits
  {
    FillStops(bits, n, srcPow, dstPow);
    var f := Fill(bits, n, srcPow, dstPow);
    if f.1 > 0 then 1 + OutCount(f.0 - dstPow, f.1, srcPow, dstPow, partial)
    else if f.0 != dstPow && partial then 2 else 1
  }

  /** `s` with `data` written at `at`. */
  function Patched(s: seq<nat>, at: nat, data: seq<nat>): (r: seq<nat>)
    requires at + |data| <= |s|
    ensures |r| == |s|
  {
    s[..at] + data + s[at + |data|..]
  }

  /** All bits still to be written: those at hand in `work`, and above them those of the `n`
      values from `src` on. */
  function Pending(s: seq<nat>, src: nat, n: nat, work: nat, bits: nat, p: nat): nat
    requires src + n <= |s|
  {
    BitOr(work, Shl(Gathered(s[src..src + n], p), bits))
  }

  /** Reading a value puts it above the bits at hand. */
  lemma ReadValue(s: seq<nat>, src: nat, n: nat, work: nat, bits: nat, p: nat)
    requires src + n <= |s| && n > 0
    ensures Pending(s, src, n, work, bits, p)
         == Pending(s, src + 1, n - 1, BitOr(work, Shl(s[src], bits)), bits + p, p)
  {
    assert s[src..src + n][1..] == s[src + 1..src + n];
    hide Shl, BitOr;
    var d, rest := s[src], Gathered(s[src + 1..src + n], p);
    OrShift(d, Shl(rest, p), bits);
    ShlTwice(rest, p, bits);
    OrAssoc(work, Shl(d, bits), Shl(rest, bits + p));
  }

  /** The lowest digit of what is pending is the one at hand, if there are enough bits for it. */
  lemma WriteValue(s: seq<nat>, src: nat, n: nat, work: nat, bits: nat, srcPow: nat, p: nat)
    requires src + n <= |s| && (bits >= p || n == 0)
    ensures var all := Pending(s, src, n, work, bits, srcPow);
      && Mask(all, p) == Mask(work, p)
      && (n > 0 ==> Shr(all, p) == Pending(s, src, n, Shr(work, p), bits - p, srcPow))
      && (n == 0 ==> Shr(all, p) == Shr(work, p))
  {
    var rest := Gathered(s[src..src + n], srcPow);
    if n > 0 {
      hide Shl, BitOr, Mask, Shr;
      ShlTwice(rest, bits - p, p);
      OrAbove(work, Shl(rest, bits - p), p);
    } else {
      assert Shl(0, bits) == 0;
      OrZero(work);
    }
  }

  /** The recursion of the source: a value is kept until everything after it has been read and
      written. `work0` holds the bits read and not yet written. */
  method ChangeInlineFrom(buf: array<nat>, start: nat, len: nat, srcPow: nat, dstPow: nat, partial: bool,
                          work0: nat, bits0: nat, outLoc: nat)
    requires srcPow > 0 && dstPow > 0 && start + len <= buf.Length
    requires outLoc + OutCount(bits0, len, srcPow, dstPow, partial) <= buf.Length
    modifies buf
    ensures var all := Pending(old(buf[..]), start, len, work0, bits0, srcPow);
      var count := OutCount(bits0, len, srcPow, dstPow, partial);
      buf[..] == Patched(old(buf[..]), outLoc, Digits(all, dstPow, count))
    decreases len, bits0
  {
    hide BitOr, Shl, Shr, Mask, Digits, Patched, Pending;
    ghost var was := buf[..];
    ghost var all := Pending(was, start, len, work0, bits0, srcPow);
    ghost var count := OutCount(bits0, len, srcPow, dstPow, partial);
    FillStops(bits0, len, srcPow, dstPow);
    var src: nat, srcLen: nat, work: nat, bits: nat := start, len, work0, bits0;
    while srcLen > 0 && bits < dstPow
      invariant src + srcLen == start + len && srcLen <= len && buf[..] == was
      invariant Fill(bits, srcLen, srcPow, dstPow) == Fill(bits0, len, srcPow, dstPow)
      invariant all == Pending(was, src, srcLen, work, bits, srcPow)
      decreases srcLen
    {
      ReadValue(was, src, srcLen, work, bits, srcPow);
      work := BitOr(work, Shl(buf[src], bits));
      bits := bits + srcPow;
      src := src + 1;
      srcLen := srcLen - 1;
    }
    WriteValue(was, src, srcLen, work, bits, srcPow, dstPow);
    var outVal := Mask(work, dstPow);
    work := Shr(work, dstPow);
    if srcLen > 0 {
      OutStep(all, was, outLoc, count, dstPow);
      ChangeInlineFrom(buf, src, srcLen, srcPow, dstPow, partial, work, bits - dstPow, outLoc + 1);
      buf[outLoc] := outVal;
    } else {
      OutLast(all, was, outLoc, count, dstPow);
      buf[outLoc] := outVal;
      if bits != dstPow && partial {
        buf[outLoc + 1] := Mask(work, dstPow);
      }
    }
  }

  /** Writing the later digits first and then this one. */
  lemma OutStep(all: nat, was: seq<nat>, at: nat, count: nat, p: nat)
    requires 0 < count && at + count <= |was|
    ensures Patched(was, at + 1, Digits(Shr(all, p), p, count - 1))[at := Mask(all, p)]
         == Patched(was, at, Digits(all, p, count))
  {
  }

  lemma OutLast(all: nat, was: seq<nat>, at: nat, count: nat, p: nat)
    requires 1 <= count <= 2 && at + count <= |was|
    ensures count == 1 ==> Patched(was, at, Digits(all, p, count)) == was[at := Mask(all, p)]
    ensures count == 2 ==>
      Patched(was, at, Digits(all, p, count)) == was[at := Mask(all, p)][at + 1 := Mask(Shr(all, p), p)]
  {
    assert Digits(all, p, 1) == [Mask(all, p)];
    assert Digits(all, p, 2) == [Mask(all, p)] + Digits(Shr(all, p), p, 1);
  }

  /** The change in place. Everything is read before anything is overwritten: the result depends
      on the old values only. */
  method ChangeBase2Inline(buf: array<nat>, len: nat, srcPow: nat, dstPow: nat, partial: bool)
    requires srcPow > 0 && dstPow > 0 && len <= buf.Length
    requires OutCount(0, len, srcPow, dstPow, partial) <= buf.Length
    modifies buf
    ensures var count := OutCount(0, len, srcPow, dstPow, partial);
      buf[..] == Patched(old(buf[..]), 0, Digits(Gathered(old(buf[..len]), srcPow), dstPow, count))
  {
    assert buf[..][0..len] == buf[..len];
    NoShift(Gathered(buf[..len], srcPow));
    ChangeInlineFrom(buf, 0, len, srcPow, dstPow, partial, 0, 0, 0);
  }

  lemma NoShift(n: nat)
    ensures BitOr(0, Shl(n, 0)) == n
  {
    OrZero(n);
  }

  // ----- changeBase2 ----------------------------------------------------------------------------

  /** What is left of a number without its `k` lowest digits. */
  function Dropped(n: nat, p: nat, k: nat): nat
    decreases k
  {
    if k == 0 then n else Dropped(Shr(n, p), p, k - 1)
  }

  lemma {:induction false} DigitsNext(n: nat, p: nat, k: nat)
    ensures Digits(n, p, k + 1) == Digits(n, p, k) + [Mask(Dropped(n, p, k), p)]
    ensures Dropped(n, p, k + 1) == Shr(Dropped(n, p, k), p)
    decreases k
  {
    hide Shr, Mask;
    if k == 0 {
      assert Digits(n, p, 1) == [Mask(n, p)] + Digits(Shr(n, p), p, 0);
    } else {
      DigitsNext(Shr(n, p), p, k - 1);
      assert Digits(n, p, k + 1) == [Mask(n, p)] + Digits(Shr(n, p), p, k);
    }
  }

  /** The change into another buffer, which takes the whole values of the output, and the bits
      that are left over if it has room for them. */
  method ChangeBase2(src: seq<nat>, srcPow: nat, dst: array<nat>, dstLen: nat, dstPow: nat) returns (count: nat)
    requires srcPow > 0 && dstPow > 0 && dstLen <= dst.Length && |src| * srcPow < (dstLen + 1) * dstPow
    modifies dst
    ensures count <= dstLen && dst[count..] == old(dst[count..])
    ensures dst[..count] == Digits(Gathered(src, srcPow), dstPow, count)
    ensures (count - 1) * dstPow < |src| * srcPow && (|src| * srcPow <= count * dstPow || count == dstLen)
  {
    hide BitOr, Shl, Shr, Mask, Digits, Pending, Gathered;
    ghost var all, was := Gathered(src, srcPow), dst[..];
    AllPending(src, srcPow);
    var work: nat, bits: nat, next: nat := 0, 0, 0;
    count := 0;
    while next < |src|
      invariant next <= |src| && count <= dstLen && bits < dstPow
      invariant count * dstPow + bits == next * srcPow
      invariant dst[count..] == was[count..]
      invariant dst[..count] == Digits(all, dstPow, count)
      invariant Dropped(all, dstPow, count) == Pending(src, next, |src| - next, work, bits, srcPow)
    {
      ReadValue(src, next, |src| - next, work, bits, srcPow);
      work := BitOr(work, Shl(src[next], bits));
      bits := bits + srcPow;
      next := next + 1;
      assert next * srcPow == (next - 1) * srcPow + srcPow;
      Room(next, |src|, srcPow);
      work, bits, count := Emit(src, next, work, bits, srcPow, dst, dstLen, dstPow, count, all, was);
    }
    if bits > 0 && count < dstLen {
      WriteLast(src, work, bits, srcPow, dstPow);
      DigitsNext(all, dstPow, count);
      dst[count] := Mask(work, dstPow);
      count := count + 1;
    }
  }

  lemma AllPending(s: seq<nat>, p: nat)
    ensures Pending(s, 0, |s|, 0, 0, p) == Gathered(s, p)
  {
    assert s[0..|s|] == s;
    NoShift(Gathered(s, p));
  }

  lemma WriteLast(s: seq<nat>, work: nat, bits: nat, srcPow: nat, p: nat)
    ensures Mask(Pending(s, |s|, 0, work, bits, srcPow), p) == Mask(work, p)
  {
    WriteValue(s, |s|, 0, work, bits, srcPow, p);
  }

  lemma Room(next: nat, n: nat, p: nat)
    requires next <= n
    ensures next * p <= n * p
  {
  }

  /** The inner loop: as many values as there are bits for. */
  method Emit(ghost src: seq<nat>, ghost next: nat, work0: nat, bits0: nat, ghost srcPow: nat,
              dst: array<nat>, ghost dstLen: nat, dstPow: nat, count0: nat, ghost all: nat, ghost was: seq<nat>)
    returns (work: nat, bits: nat, count: nat)
    requires dstPow > 0 && dstLen <= dst.Length == |was| && next <= |src| && count0 <= dstLen
    requires count0 * dstPow + bits0 < (dstLen + 1) * dstPow
    requires dst[count0..] == was[count0..] && dst[..count0] == Digits(all, dstPow, count0)
    requires Dropped(all, dstPow, count0) == Pending(src, next, |src| - next, work0, bits0, srcPow)
    modifies dst
    ensures count <= dstLen && bits < dstPow && count * dstPow + bits == count0 * dstPow + bits0
    ensures dst[count..] == was[count..] && dst[..count] == Digits(all, dstPow, count)
    ensures Dropped(all, dstPow, count) == Pending(src, next, |src| - next, work, bits, srcPow)
  {
    hide BitOr, Shl, Shr, Mask, Digits, Dropped;
    work, bits, count := work0, bits0, count0;
    while bits >= dstPow
      invariant count <= dstLen && count * dstPow + bits == count0 * dstPow + bits0
      invariant dst[count..] == was[count..] && dst[..count] == Digits(all, dstPow, count)
      invariant Dropped(all, dstPow, count) == Pending(src, next, |src| - next, work, bits, srcPow)
    {
      OneMore(count, dstLen, bits, dstPow);
      DigitsNext(all, dstPow, count);
      WritePending(src, next, work, bits, srcPow, dstPow);
      dst[count] := Mask(work, dstPow);
      assert dst[..count + 1] == dst[..count] + [dst[count]];
      count := count + 1;
      work := Shr(work, dstPow);
      bits := bits - dstPow;
    }
  }

  lemma OneMore(count: nat, dstLen: nat, bits: nat, p: nat)
    requires count * p + bits < (dstLen + 1) * p && bits >= p
    ensures count < dstLen && (count + 1) * p == count * p + p
  {
    MoreTimes(dstLen, count, p);
  }

  lemma MoreTimes(m: nat, n: nat, p: nat)
    ensures m <= n ==> m * p <= n * p
    ensures (m + 1) * p == m * p + p && (n + 1) * p == n * p + p
  {
  }

  lemma WritePending(s: seq<nat>, next: nat, work: nat, bits: nat, srcPow: nat, p: nat)
    requires next <= |s| && bits >= p
    ensures var all := Pending(s, next, |s| - next, work, bits, srcPow);
      && Mask(all, p) == Mask(work, p)
      && Shr(all, p) == Pending(s, next, |s| - next, Shr(work, p), bits - p, srcPow)
  {
    WriteValue(s, next, |s| - next, work, bits, srcPow, p);
    if next == |s| {
      assert Gathered(s[next..next], srcPow) == 0;
      assert Shl(0, bits) == 0 && Shl(0, bits - p) == 0;
      OrZero(work);
      OrZero(Shr(work, p));
    }
  }

  // ----- Between bytes and base 64 --------------------------------------------------------------

  function B64ToB256Bytes(n: nat): nat {
    n * 6 / 8
  }

  function B256ToB64Bytes(n: nat): nat {
    (n * 8 + 5) / 6
  }

  /** From bytes to base 64, with the left over bits, the count is the size formula's. */
  lemma {:induction false} EncodedCount(bits: nat, n: nat)
    requires n > 0 && bits <= 6 && bits % 2 == 0
    ensures OutCount(bits, n, 8, 6, true) == (bits + 8 * n + 5) / 6
    decreases n, bits
  {
    if bits < 6 {
      assert Fill(bits, n, 8, 6) == (bits + 8, n - 1) by {
        assert Fill(bits + 8, n - 1, 8, 6) == (bits + 8, n - 1);
      }
      if n > 1 { EncodedCount(bits + 2, n - 1); }
    } else {
      EncodedCount(0, n);
    }
  }

  /** From base 64 to bytes the count is the size formula's, and one more if exactly one base 64
      value is left over. */
  lemma {:induction false} DecodedCount(bits: nat, n: nat)
    requires n > 0 && bits <= 6 && bits % 2 == 0
    ensures OutCount(bits, n, 6, 8, false)
         == (bits + 6 * n) / 8 + (if (bits + 6 * n) % 8 == 6 then 1 else 0)
    decreases n
  {
    hide *;
    FillValues(bits, n);
    CountStep(bits, n);
    if bits == 0 && n > 2 {
      DecodedCount(4, n - 2);
      Take8(6 * n);
    } else if bits > 0 && n > 1 {
      DecodedCount(bits - 2, n - 1);
      Take8(bits + 6 * n);
    } else {
      LastByte(bits + 6 * n);
    }
  }

  lemma CountStep(bits: nat, n: nat)
    ensures var f := Fill(bits, n, 6, 8);
      && (f.1 > 0 ==> f.0 >= 8 && OutCount(bits, n, 6, 8, false) == 1 + OutCount(f.0 - 8, f.1, 6, 8, false))
      && (f.1 == 0 ==> OutCount(bits, n, 6, 8, false) == 1)
  {
    FillStops(bits, n, 6, 8);
    hide Fill;
  }

  lemma LastByte(t: nat)
    requires t == 6 || 8 <= t < 14
    ensures t / 8 + (if t % 8 == 6 then 1 else 0) == 1
  {
  }

  /** A byte takes one base 64 value, or two if no bits are at hand. */
  lemma FillValues(bits: nat, n: nat)
    requires n > 0 && bits <= 6 && bits % 2 == 0
    ensures Fill(bits, n, 6, 8) ==
      if bits > 0 then (bits + 6, n - 1) else if n == 1 then (6, 0) else (12, n - 2)
  {
    if bits > 0 {
      assert Fill(bits + 6, n - 1, 6, 8) == (bits + 6, n - 1);
    } else if n > 1 {
      assert Fill(12, n - 2, 6, 8) == (12, n - 2);
      assert Fill(6, n - 1, 6, 8) == (12, n - 2);
    } else {
      assert Fill(6, 0, 6, 8) == (6, 0);
    }
  }

  lemma Take8(t: nat)
    requires t >= 8
    ensures (t - 8) / 8 == t / 8 - 1 && (t - 8) % 8 == t % 8
  {
  }

  /** The base 64 form of some bytes, and the bytes of some base 64 values. */
  function Encoded(bytes: seq<nat>): (values: seq<nat>)
    ensures |values| == B256ToB64Bytes(|bytes|)
  {
    Digits(Gathered(bytes, 8), 6, B256ToB64Bytes(|bytes|))
  }

  function Decoded(values: seq<nat>): (bytes: seq<nat>)
    ensures |bytes| == B64ToB256Bytes(|values|)
  {
    Digits(Gathered(values, 6), 8, B64ToB256Bytes(|values|))
  }

  /** The sizes go there and back, and an encoding never leaves exactly one value over. */
  lemma SizesMatch(n: nat)
    ensures B64ToB256Bytes(B256ToB64Bytes(n)) == n
    ensures B256ToB64Bytes(n) * 6 % 8 != 6 && 8 * n <= 6 * B256ToB64Bytes(n)
  {
  }

  /** The number is kept, and so decoding the encoding of bytes gives them back. */
  lemma EncodedRoundTrip(bytes: seq<nat>)
    requires Fit(bytes, 8)
    ensures Fit(Encoded(bytes), 6) && Value(Encoded(bytes), 6) == Value(bytes, 8)
    ensures Decoded(Encoded(bytes)) == bytes
  {
    var n, m := |bytes|, B256ToB64Bytes(|bytes|);
    hide Pow2, Gathered, Digits, Value, Fit;
    SizesMatch(n);
    GatheredIsValue(bytes, 8);
    ValueBound(bytes, 8);
    Pow2Monotone(8 * n, 6 * m);
    DigitsFit(Value(bytes, 8), 6, m);
    ValueOfDigits(Value(bytes, 8), 6, m);
    GatheredIsValue(Encoded(bytes), 6);
    DigitsOfValue(bytes, 8);
  }

  /** Only whole bytes come out of base 64 values, and they are the low bytes of the number. */
  lemma DecodedValue(values: seq<nat>)
    requires Fit(values, 6)
    ensures Fit(Decoded(values), 8)
    ensures Value(Decoded(values), 8) == Mask(Value(values, 6), 8 * B64ToB256Bytes(|values|))
  {
    GatheredIsValue(values, 6);
    DigitsFit(Value(values, 6), 8, B64ToB256Bytes(|values|));
    LowDigits(Value(values, 6), 8, B64ToB256Bytes(|values|));
  }

  lemma {:induction false} LowDigits(n: nat, p: nat, count: nat)
    ensures Value(Digits(n, p, count), p) == Mask(n, p * count)
    decreases count
  {
    hide Shl, Shr, Mask, Pow2;
    if count == 0 {
      NoMask(n, p);
    } else {
      LowDigits(Shr(n, p), p, count - 1);
      MaskStep(n, p, count);
      assert Digits(n, p, count)[1..] == Digits(Shr(n, p), p, count - 1);
    }
  }

  lemma NoMask(n: nat, p: nat)
    ensures Mask(n, p * 0) == 0
  {
    assert Pow2(0) == 1;
  }

  lemma MaskStep(n: nat, p: nat, count: nat)
    requires count > 0
    ensures 0 <= p * (count - 1) && Mask(n, p * count) == Mask(n, p) + Shl(Mask(Shr(n, p), p * (count - 1)), p)
  {
    hide Shl, Shr, Mask, Pow2;
    MulStep(p, count);
    var k := p * (count - 1);
    var q, r := Shr(Shr(n, p), k), Mask(Shr(n, p), k);
    SplitIs(n, p);
    SplitIs(Shr(n, p), k);
    ShlPlus(Shl(q, k), r, p);
    ShlTwice(q, k, p);
    Pow2Plus(p, k);
    BoundShl(Mask(n, p), r, p, k);
    SplitUnique(q, Mask(n, p) + Shl(r, p), p + k);
  }

  lemma ShlPlus(a: nat, b: nat, p: nat)
    ensures Shl(a + b, p) == Shl(a, p) + Shl(b, p)
  {
    Distribute(a, b, Pow2(p));
  }

  lemma Distribute(a: nat, b: nat, d: nat)
    ensures (a + b) * d == a * d + b * d
  {
  }

  lemma BoundShl(d: nat, r: nat, p: nat, k: nat)
    requires d < Pow2(p) && r < Pow2(k)
    ensures d + Shl(r, p) < Pow2(p + k)
  {
    Pow2Plus(p, k);
    MulBound(r, Pow2(k), Pow2(p));
    hide Pow2;
  }

  /** What the in-place change does to a buffer that holds bytes. */
  method EncodeInline(buf: array<nat>, len: nat)
    requires 0 < len && B256ToB64Bytes(len) <= buf.Length && len <= buf.Length
    modifies buf
    ensures buf[..] == Patched(old(buf[..]), 0, Encoded(old(buf[..len])))
  {
    EncodedCount(0, len);
    ChangeBase2Inline(buf, len, 8, 6, true);
  }

  /** And to one that holds base 64 values. A byte behind the result is overwritten if exactly one
      value is left over. */
  method DecodeInline(buf: array<nat>, len: nat)
    requires 0 < len <= buf.Length
    modifies buf
    ensures buf[..B64ToB256Bytes(len)] == Decoded(old(buf[..len]))
    ensures var extra := if len % 4 == 1 then 1 else 0;
      buf[B64ToB256Bytes(len) + extra..] == old(buf[B64ToB256Bytes(len) + extra..])
  {
    DecodedCount(0, len);
    ghost var n, all := B64ToB256Bytes(len), Gathered(buf[..len], 6);
    DigitsNext(all, 8, n);
    LeftOver(len);
    ghost var was := buf[..];
    hide Digits, Gathered, Dropped, Mask;
    ChangeBase2Inline(buf, len, 6, 8, false);
    PatchedFront(was, Digits(all, 8, OutCount(0, len, 6, 8, false)), n);
  }

  lemma LeftOver(n: nat)
    requires n > 0
    ensures (6 * n % 8 == 6 <==> n % 4 == 1) && 6 * n / 8 == B64ToB256Bytes(n)
    ensures B64ToB256Bytes(n) < n
  {
    var q, r := n / 4, n % 4;
    assert 6 * n == 8 * (3 * q) + 6 * r;
    if r == 0 { assert 6 * n == 8 * (3 * q); }
    else if r == 1 { assert 6 * n == 8 * (3 * q) + 6; }
    else if r == 2 { assert 6 * n == 8 * (3 * q + 1) + 4; }
    else { assert 6 * n == 8 * (3 * q + 2) + 2; }
  }

  lemma PatchedFront(was: seq<nat>, data: seq<nat>, n: nat)
    requires n <= |data| <= |was|
    ensures Patched(was, 0, data)[..n] == data[..n] && Patched(was, 0, data)[|data|..] == was[|data|..]
  {
  }

  // ----- The alphabet ---------------------------------------------------------------------------

  function ToAscii(d: nat): nat {
    if d > 37 then (d + 97 - 38) % 256
    else if d > 11 then d + 65 - 12
    else if d < 2 then 44 + d
    else 48 + d - 2
  }

  /** Any unsigned char has a value, but only those of the alphabet are below 64 and go back. */
  function FromAscii(ch: nat): nat {
    if ch >= 97 then (ch + 38 - 97) % 256
    else if ch >= 65 then ch + 12 - 65
    else if 44 <= ch <= 45 then ch - 44
    else if 48 <= ch <= 57 then ch - 48 + 2
    else 240
  }

  lemma AlphabetRoundTrip(d: nat)
    requires d < 64
    ensures FromAscii(ToAscii(d)) == d && ToAscii(d) < 128
    ensures ToAscii(d) != 47 && ToAscii(d) != 46 && ToAscii(d) != 0
  {
  }

  /** The characters that come back are exactly ',', '-', the digits and the letters. */
  lemma AlphabetIs(ch: nat)
    requires ch < 256
    ensures (FromAscii(ch) < 64 && ToAscii(FromAscii(ch)) == ch)
      <==> ch == 44 || ch == 45 || 48 <= ch <= 57 || 65 <= ch <= 90 || 97 <= ch <= 122
  {
  }

  /** Of the other characters only the six between 'Z' and 'a' get a value, which is that of a letter
      from 'a' on. */
  lemma OtherCharacters(ch: nat)
    requires ch < 256
    ensures FromAscii(ch) < 64 <==>
      ch == 44 || ch == 45 || 48 <= ch <= 57 || 65 <= ch <= 90 || 91 <= ch <= 96 || 97 <= ch <= 122
    ensures 91 <= ch <= 96 ==> FromAscii(ch) == FromAscii(ch + 6)
  {
  }

  /** The values have their characters in the order of the characters. */
  lemma AlphabetRises(c: nat, d: nat)
    requires c < d < 64
    ensures ToAscii(c) < ToAscii(d)
  {
  }

  function AllToAscii(s: seq<nat>): (r: seq<nat>)
    ensures |r| == |s|
  {
    seq(|s|, k requires 0 <= k < |s| => ToAscii(s[k]))
  }

  function AllFromAscii(s: seq<nat>): (r: seq<nat>)
    ensures |r| == |s|
  {
    seq(|s|, k requires 0 <= k < |s| => FromAscii(s[k]))
  }

  lemma AsciiRoundTrip(s: seq<nat>)
    requires Fit(s, 6)
    ensures AllFromAscii(AllToAscii(s)) == s
  {
    assert Pow2(6) == 64;
    forall k | 0 <= k < |s| ensures AllFromAscii(AllToAscii(s))[k] == s[k] { AlphabetRoundTrip(s[k]); }
  }

  method B64ToAscii(buf: array<nat>, length: nat)
    requires length <= buf.Length
    modifies buf
    ensures buf[..] == AllToAscii(old(buf[..length])) + old(buf[length..])
  {
    for offset := 0 to length
      invariant forall k :: 0 <= k < buf.Length ==> buf[k] == if k < offset then ToAscii(old(buf[k])) else old(buf[k])
    {
      buf[offset] := ToAscii(buf[offset]);
    }
  }

  method AsciiToB64(buf: array<nat>, length: nat)
    requires length <= buf.Length
    modifies buf
    ensures buf[..] == AllFromAscii(old(buf[..length])) + old(buf[length..])
  {
    for offset := 0 to length
      invariant forall k :: 0 <= k < buf.Length ==> buf[k] == if k < offset then FromAscii(old(buf[k])) else old(buf[k])
    {
      buf[offset] := FromAscii(buf[offset]);
    }
  }
}
