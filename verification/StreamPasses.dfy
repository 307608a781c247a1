/** The byte passes of SSL_Cipher.cpp around its stream cipher, which make the two ends of a short
    block depend on each other, and the cipher built from them. */
module StreamPasses {
  import opened Bytes
  import opened Options
  import opened CipherModel

  const FLIP_SIZE := 64

  // ----- The passes, on values ------------------------------------------------------------------

  function XorAll(s: seq<byte>): byte {
    if s == [] then 0 else XorAll(s[..|s| - 1]) ^ s[|s| - 1]
  }

  /** Each byte is the xor of all bytes up to it. */
  function Shuffled(s: seq<byte>): (r: seq<byte>)
    ensures |r| == |s|
  {
    seq(|s|, i requires 0 <= i < |s| => XorAll(s[..i + 1]))
  }

  /** Each byte but the first is the xor of it and the byte before it. */
  function Unshuffled(s: seq<byte>): (r: seq<byte>)
    ensures |r| == |s|
  {
    seq(|s|, i requires 0 <= i < |s| => if i == 0 then s[0] else s[i] ^ s[i - 1])
  }

  function Reversed(s: seq<byte>): (r: seq<byte>)
    ensures |r| == |s|
  {
    seq(|s|, i requires 0 <= i < |s| => s[|s| - 1 - i])
  }

  /** Chunks of 64 bytes, and what is left, are reversed each on its own. */
  function Flipped(s: seq<byte>): (r: seq<byte>)
    ensures |r| == |s|
  {
    if |s| <= FLIP_SIZE then Reversed(s)
    else Reversed(s[..FLIP_SIZE]) + Flipped(s[FLIP_SIZE..])
  }

  /** A byte of a full chunk of 64 goes to the mirrored place in it; the last chunk may be shorter. */
  lemma {:induction false} FlippedAt(s: seq<byte>, k: nat)
    requires k < |s|
    ensures var at := k - k % 64; var n := Min(64, |s| - at);
      0 <= at + n - 1 - k % 64 < |s| && Flipped(s)[k] == s[at + n - 1 - k % 64]
    decreases |s|
  {
    if k >= 64 {
      FlippedAt(s[64..], k - 64);
      assert (k - 64) % 64 == k % 64;
    }
  }

  /** The first byte stays, and each further one is xored with what the one before it has become. */
  lemma ShuffledAt(s: seq<byte>, k: nat)
    requires k < |s|
    ensures Shuffled(s)[k] == if k == 0 then s[0] else s[k] ^ Shuffled(s)[k - 1]
  {
    XorNext(s, k);
    if k == 0 {
      assert s[..0] == [];
    }
  }

  lemma XorNext(s: seq<byte>, i: nat)
    requires i < |s|
    ensures XorAll(s[..i + 1]) == XorAll(s[..i]) ^ s[i]
  {
    assert s[..i + 1][..i] == s[..i];
  }

  lemma XorCancels(a: byte, b: byte)
    ensures (a ^ b) ^ a == b && a ^ (b ^ a) == b
  {
  }

  lemma UnshuffledShuffled(s: seq<byte>)
    ensures Unshuffled(Shuffled(s)) == s
  {
    var t := Shuffled(s);
    forall i | 0 <= i < |s| ensures Unshuffled(t)[i] == s[i] {
      XorNext(s, i);
      if i > 0 {
        XorCancels(XorAll(s[..i]), s[i]);
      }
    }
  }

  /** The xor of the unshuffled bytes up to one is that byte. */
  lemma {:induction false} XorUnshuffled(s: seq<byte>, i: nat)
    requires i < |s|
    ensures XorAll(Unshuffled(s)[..i + 1]) == s[i]
    decreases i
  {
    XorNext(Unshuffled(s), i);
    if i > 0 {
      XorUnshuffled(s, i - 1);
      XorCancels(s[i - 1], s[i]);
    }
  }

  lemma ShuffledUnshuffled(s: seq<byte>)
    ensures Shuffled(Unshuffled(s)) == s
  {
    forall i | 0 <= i < |s| ensures Shuffled(Unshuffled(s))[i] == s[i] {
      XorUnshuffled(s, i);
    }
  }

  lemma {:induction false} FlippedTwice(s: seq<byte>)
    ensures Flipped(Flipped(s)) == s
  {
    if |s| <= FLIP_SIZE {
      assert Reversed(Reversed(s)) == s;
    } else {
      var a, b := s[..FLIP_SIZE], s[FLIP_SIZE..];
      FlippedTwice(b);
      assert Flipped(s)[..FLIP_SIZE] == Reversed(a) && Flipped(s)[FLIP_SIZE..] == Flipped(b);
      assert Reversed(Reversed(a)) == a;
      assert s == a + b;
    }
  }

  // ----- The passes, in place -------------------------------------------------------------------

  method FlipBytes(buf: array<byte>)
    modifies buf
    ensures buf[..] == Flipped(old(buf[..]))
  {
    ghost var was := buf[..];
    var done := 0;
    while done < buf.Length
      invariant 0 <= done <= buf.Length
      invariant buf[done..] == was[done..]
      invariant Flipped(was) == buf[..done] + Flipped(was[done..])
    {
      var toFlip := Min(FLIP_SIZE, buf.Length - done);
      ghost var front := buf[..done];
      FlipChunk(was, done, toFlip);
      hide Flipped, Reversed;
      var revBuf := ReverseChunk(buf, done, toFlip, was);
      CopyInto(buf, done, revBuf);
      ChunkCopied(was, buf[..], done, toFlip, front, revBuf);
      done := done + toFlip;
    }
    assert buf[..done] == buf[..] && was[done..] == [];
  }

  method ReverseChunk(buf: array<byte>, at: nat, n: nat, ghost was: seq<byte>) returns (revBuf: seq<byte>)
    requires at + n <= buf.Length == |was| && buf[at..] == was[at..]
    ensures revBuf == Reversed(was[at..at + n])
  {
    revBuf := [];
    for i := 0 to n
      invariant |revBuf| == i && forall k :: 0 <= k < i ==> revBuf[k] == buf[at..][n - (k + 1)]
    {
      revBuf := revBuf + [buf[at + n - (i + 1)]];
    }
  }

  lemma ChunkCopied(was: seq<byte>, now: seq<byte>, done: nat, n: nat, front: seq<byte>, revBuf: seq<byte>)
    requires done + n <= |was| == |now| && |revBuf| == n
    requires now[..done] == front && now[done..done + n] == revBuf && now[done + n..] == was[done..][n..]
    ensures now[done + n..] == was[done + n..]
    ensures forall rest :: (front + revBuf) + rest == now[..done + n] + rest
    ensures forall rest :: front + (revBuf + rest) == now[..done + n] + rest
  {
    assert front + revBuf == now[..done + n];
    forall rest ensures front + (revBuf + rest) == now[..done + n] + rest {
      assert front + (revBuf + rest) == (front + revBuf) + rest;
    }
  }

  /** The next chunk. */
  lemma FlipChunk(was: seq<byte>, done: nat, n: nat)
    requires done < |was| && n == Min(FLIP_SIZE, |was| - done)
    ensures Flipped(was[done..]) == Reversed(was[done..done + n]) + Flipped(was[done + n..])
  {
    var rest := was[done..];
    assert rest[n..] == was[done + n..] && rest[..n] == was[done..done + n];
    if |rest| <= FLIP_SIZE {
      assert rest[..n] == rest;
      assert Flipped(was[done + n..]) == [];
    }
  }

  method CopyInto(buf: array<byte>, at: nat, data: seq<byte>)
    requires at + |data| <= buf.Length
    modifies buf
    ensures buf[..at] == old(buf[..at]) && buf[at + |data|..] == old(buf[at + |data|..])
    ensures buf[at..at + |data|] == data
  {
    for i := 0 to |data|
      invariant forall k :: 0 <= k < buf.Length ==>
        buf[k] == if at <= k < at + i then data[k - at] else old(buf[k])
    {
      buf[at + i] := data[i];
    }
  }

  method ShuffleBytes(buf: array<byte>)
    modifies buf
    ensures buf[..] == Shuffled(old(buf[..]))
  {
    ghost var was := buf[..];
    var i := 0;
    while i < buf.Length - 1
      invariant 0 <= i && (buf.Length > 0 ==> i < buf.Length)
      invariant forall k :: 0 <= k < buf.Length ==>
        buf[k] == if k <= i then XorAll(was[..k + 1]) else was[k]
    {
      XorNext(was, i + 1);
      buf[i + 1] := buf[i + 1] ^ buf[i];
      i := i + 1;
    }
  }

  /** The loop stops at byte 0, and so needs there to be one. */
  method UnshuffleBytes(buf: array<byte>)
    requires buf.Length > 0
    modifies buf
    ensures buf[..] == Unshuffled(old(buf[..]))
  {
    ghost var was := buf[..];
    var i := buf.Length - 1;
    while i != 0
      invariant 0 <= i < buf.Length
      invariant forall k :: 0 <= k <= i ==> buf[k] == was[k]
      invariant forall k :: i < k < buf.Length ==> buf[k] == Unshuffled(was)[k]
    {
      buf[i] := buf[i] ^ buf[i - 1];
      i := i - 1;
    }
  }

  // ----- The cipher -----------------------------------------------------------------------------

  /** What is used of OpenSSL: a stream mode and a block mode, with the IV derived from a seed,
      and a keyed checksum. */
  datatype Evp = Evp(
    blockSize: nat,
    streamEncrypt: (seq<byte>, bv64) -> seq<byte>,
    streamDecrypt: (seq<byte>, bv64) -> seq<byte>,
    blockEncrypt: (seq<byte>, bv64) -> seq<byte>,
    blockDecrypt: (seq<byte>, bv64) -> seq<byte>,
    checksum: (seq<byte>, Option<bv64>) -> bv64)
  {
    ghost predicate StreamLaws() {
      && (forall x, iv :: |streamEncrypt(x, iv)| == |x| && streamDecrypt(streamEncrypt(x, iv), iv) == x)
      && (forall x, iv :: |streamDecrypt(x, iv)| == |x| && streamEncrypt(streamDecrypt(x, iv), iv) == x)
    }

    ghost predicate BlockLaws() {
      && blockSize > 0
      && (forall x, iv :: x != [] && |x| % blockSize == 0 ==>
            |blockEncrypt(x, iv)| == |x| && blockDecrypt(blockEncrypt(x, iv), iv) == x)
      && (forall x, iv :: x != [] && |x| % blockSize == 0 ==>
            |blockDecrypt(x, iv)| == |x| && blockEncrypt(blockDecrypt(x, iv), iv) == x)
    }
  }

  function StreamEncoded(evp: Evp, x: seq<byte>, iv: bv64): seq<byte> {
    evp.streamEncrypt(Shuffled(Flipped(evp.streamEncrypt(Shuffled(x), iv))), iv + 1)
  }

  function StreamDecoded(evp: Evp, x: seq<byte>, iv: bv64): seq<byte> {
    Unshuffled(evp.streamDecrypt(Flipped(Unshuffled(evp.streamDecrypt(x, iv + 1))), iv))
  }

  lemma StreamRoundTrip(evp: Evp, x: seq<byte>, iv: bv64)
    requires evp.StreamLaws()
    ensures |StreamEncoded(evp, x, iv)| == |x| == |StreamDecoded(evp, x, iv)|
    ensures StreamDecoded(evp, StreamEncoded(evp, x, iv), iv) == x
    ensures StreamEncoded(evp, StreamDecoded(evp, x, iv), iv) == x
  {
    var a := evp.streamEncrypt(Shuffled(x), iv);
    UnshuffledShuffled(x);
    FlippedTwice(a);
    UnshuffledShuffled(Flipped(a));
    var b := Unshuffled(evp.streamDecrypt(x, iv + 1));
    ShuffledUnshuffled(evp.streamDecrypt(x, iv + 1));
    FlippedTwice(b);
    ShuffledUnshuffled(evp.streamDecrypt(Flipped(b), iv));
    hide Shuffled, Unshuffled, Flipped;
  }

  method StreamEncode(evp: Evp, buf: array<byte>, iv: bv64)
    requires evp.StreamLaws() && buf.Length > 0
    modifies buf
    ensures buf[..] == StreamEncoded(evp, old(buf[..]), iv)
    ensures buf[..] ==
      var first := evp.streamEncrypt(Shuffled(old(buf[..])), iv);
      evp.streamEncrypt(Shuffled(Flipped(first)), iv + 1)
  {
    hide Shuffled, Flipped;
    ShuffleBytes(buf);
    Update(buf, evp.streamEncrypt(buf[..], iv));
    FlipBytes(buf);
    ShuffleBytes(buf);
    Update(buf, evp.streamEncrypt(buf[..], iv + 1));
  }

  method StreamDecode(evp: Evp, buf: array<byte>, iv: bv64)
    requires evp.StreamLaws() && buf.Length > 0
    modifies buf
    ensures buf[..] == StreamDecoded(evp, old(buf[..]), iv)
    ensures buf[..] ==
      var first := Unshuffled(evp.streamDecrypt(old(buf[..]), iv + 1));
      Unshuffled(evp.streamDecrypt(Flipped(first), iv))
  {
    hide Unshuffled, Flipped;
    Update(buf, evp.streamDecrypt(buf[..], iv + 1));
    UnshuffleBytes(buf);
    FlipBytes(buf);
    Update(buf, evp.streamDecrypt(buf[..], iv));
    UnshuffleBytes(buf);
  }

  method Update(buf: array<byte>, data: seq<byte>)
    requires |data| == buf.Length
    modifies buf
    ensures buf[..] == data
  {
    CopyInto(buf, 0, data);
    assert buf[0..|data|] == buf[..];
  }

  /** The cipher of the file and name layers. */
  function SslCipher(evp: Evp): Cipher {
    Cipher(evp.blockSize, evp.blockEncrypt, evp.blockDecrypt,
           (x, iv) => StreamEncoded(evp, x, iv), (x, iv) => StreamDecoded(evp, x, iv), evp.checksum)
  }

  lemma SslCipherLawful(evp: Evp)
    requires evp.StreamLaws() && evp.BlockLaws()
    ensures SslCipher(evp).Lawful()
  {
    forall x, iv
      ensures |StreamEncoded(evp, x, iv)| == |x| == |StreamDecoded(evp, x, iv)|
      ensures StreamDecoded(evp, StreamEncoded(evp, x, iv), iv) == x
      ensures StreamEncoded(evp, StreamDecoded(evp, x, iv), iv) == x
    {
      StreamRoundTrip(evp, x, iv);
    }
  }
}
