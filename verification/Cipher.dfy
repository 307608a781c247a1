/** What the file and name layers need of a cipher (Cipher.h): two reversible,
    length-keeping codings and a 64 bit MAC, all of them determined by their arguments.
    The key is part of the functions. */
module CipherModel {
  import opened Options
  import opened Bytes
  import opened ByteValues

  datatype Cipher = Cipher(
    blockSize: nat,
    blockEncode: (seq<byte>, bv64) -> seq<byte>,
    blockDecode: (seq<byte>, bv64) -> seq<byte>,
    streamEncode: (seq<byte>, bv64) -> seq<byte>,
    streamDecode: (seq<byte>, bv64) -> seq<byte>,
    mac64: (seq<byte>, Option<bv64>) -> bv64)
  {
    /** Whole blocks only: the block coding refuses any other length. */
    ghost predicate Blocks(x: seq<byte>) {
      blockSize > 0 && x != [] && |x| % blockSize == 0
    }

    ghost predicate Lawful() {
      && blockSize > 0
      && (forall x, iv :: Blocks(x) ==> |blockEncode(x, iv)| == |x| && blockDecode(blockEncode(x, iv), iv) == x)
      && (forall x, iv :: Blocks(x) ==> |blockDecode(x, iv)| == |x| && blockEncode(blockDecode(x, iv), iv) == x)
      && (forall x, iv :: x != [] ==> |streamEncode(x, iv)| == |x| && streamDecode(streamEncode(x, iv), iv) == x)
      && (forall x, iv :: x != [] ==> |streamDecode(x, iv)| == |x| && streamEncode(streamDecode(x, iv), iv) == x)
    }

    /** The MAC folded to 32 and then to 16 bits. */
    function Mac16(x: seq<byte>, iv: Option<bv64>): bv64 {
      var m64 := mac64(x, iv);
      var m32 := ((m64 >> 32) ^ m64) & 0xffff_ffff;
      ((m32 >> 16) ^ m32) & 0xffff
    }
  }

  /** The MAC of 16 bits is the four parts of the one of 64 bits, xored together. */
  lemma Mac16Is(c: Cipher, x: seq<byte>, iv: Option<bv64>)
    ensures var m := c.mac64(x, iv);
      c.Mac16(x, iv) == (m & 0xffff) ^ ((m >> 16) & 0xffff) ^ ((m >> 32) & 0xffff) ^ (m >> 48)
  {
    Folded(c.mac64(x, iv));
  }

  lemma Folded(m: bv64)
    ensures var m32 := ((m >> 32) ^ m) & 0xffff_ffff;
      ((m32 >> 16) ^ m32) & 0xffff == (m & 0xffff) ^ ((m >> 16) & 0xffff) ^ ((m >> 32) & 0xffff) ^ (m >> 48)
  {
  }

  /** The low byte of a word. */
  function LowByte(v: bv64): byte {
    (v & 0xff) as bv8
  }

  /** What is left of a word behind its low byte. */
  function Shifted(v: bv64): bv64 {
    v >> 8
  }

  /** The `n` low bytes of a word, lowest first. */
  function LittleEndian(v: bv64, n: nat): (s: seq<byte>)
    ensures |s| == n
  {
    if n == 0 then [] else [LowByte(v)] + LittleEndian(Shifted(v), n - 1)
  }

  /** The `n` low bytes of a word, highest first. */
  function BigEndian(v: bv64, n: nat): (s: seq<byte>)
    ensures |s| == n
  {
    if n == 0 then [] else BigEndian(Shifted(v), n - 1) + [LowByte(v)]
  }

  /** The eight bytes of a word, lowest first. */
  function WordBytes(v: bv64): (s: seq<byte>)
    ensures |s| == 8
  {
    [LowByte(v), LowByte(v >> 8), LowByte(v >> 16), LowByte(v >> 24),
     LowByte(v >> 32), LowByte(v >> 40), LowByte(v >> 48), LowByte(v >> 56)]
  }

  lemma LittleEndianIs(v: bv64, n: nat)
    requires n <= 8
    ensures LittleEndian(v, n) == WordBytes(v)[..n]
  {
    hide WordBytes;
    forall k | 0 <= k < n ensures LittleEndian(v, n)[k] == WordBytes(v)[k] {
      LittleEndianAt(v, n, k);
      WordByte(v, k);
    }
  }

  lemma {:induction false} LittleEndianAt(v: bv64, n: nat, k: nat)
    requires k < n
    ensures LittleEndian(v, n)[k] == LowByte(ShiftedBy(v, k))
    decreases k
  {
    hide LowByte, Shifted;
    if k == 0 {
      NoneDropped(v);
    } else {
      LittleEndianAt(Shifted(v), n - 1, k - 1);
      ShiftFirst(v, k - 1);
    }
  }

  lemma {:induction false} ShiftFirst(v: bv64, k: nat)
    ensures ShiftedBy(Shifted(v), k) == ShiftedBy(v, k + 1)
  {
    hide Shifted;
    DropOne(v, k);
    if k == 0 {
      NoneDropped(v);
    } else {
      ShiftFirst(v, k - 1);
    }
  }

  lemma WordByte(v: bv64, k: nat)
    requires k < 8
    ensures WordBytes(v)[k] == LowByte(ShiftedBy(v, k))
  {
    hide ShiftedBy, Shifted, LowByte;
    Shifts(v);
  }

  lemma Shifts(v: bv64)
    ensures ShiftedBy(v, 0) == v && ShiftedBy(v, 1) == v >> 8 && ShiftedBy(v, 2) == v >> 16
    ensures ShiftedBy(v, 3) == v >> 24 && ShiftedBy(v, 4) == v >> 32 && ShiftedBy(v, 5) == v >> 40
    ensures ShiftedBy(v, 6) == v >> 48 && ShiftedBy(v, 7) == v >> 56
  {
    hide ShiftedBy, Shifted;
    NoneDropped(v);
    ShiftSteps(v);
    DropOne(v, 0);
    DropOne(v, 1);
    DropOne(v, 2);
    DropOne(v, 3);
    DropOne(v, 4);
    DropOne(v, 5);
    DropOne(v, 6);
  }

  lemma ShiftSteps(v: bv64)
    ensures Shifted(v) == v >> 8 && Shifted(v >> 8) == v >> 16 && Shifted(v >> 16) == v >> 24
    ensures Shifted(v >> 24) == v >> 32 && Shifted(v >> 32) == v >> 40 && Shifted(v >> 40) == v >> 48
    ensures Shifted(v >> 48) == v >> 56
  {
  }

  /** The highest byte first is the lowest byte last. */
  lemma {:induction false} BigEndianAt(v: bv64, n: nat, k: nat)
    requires k < n
    ensures BigEndian(v, n)[n - 1 - k] == LittleEndian(v, n)[k]
    decreases n
  {
    hide LowByte, Shifted;
    if k > 0 { BigEndianAt(Shifted(v), n - 1, k - 1); }
  }

  lemma BigEndianIs(v: bv64, n: nat)
    requires n <= 8
    ensures forall k :: 0 <= k < n ==> BigEndian(v, n)[k] == WordBytes(v)[n - 1 - k]
  {
    hide WordBytes;
    LittleEndianIs(v, n);
    forall k | 0 <= k < n ensures BigEndian(v, n)[k] == WordBytes(v)[n - 1 - k] {
      BigEndianAt(v, n, n - 1 - k);
    }
  }

  function AppendByte(v: bv64, b: byte): bv64 {
    (v << 8) | b as bv64
  }

  function FromBigEndian(s: seq<byte>): bv64 {
    if s == [] then 0 else AppendByte(FromBigEndian(s[..|s| - 1]), s[|s| - 1])
  }

  /** Nothing is left of a word after `n` shifts by a byte. */
  predicate HasBytes(v: bv64, n: nat) {
    if n == 0 then v == 0 else HasBytes(Shifted(v), n - 1)
  }

  lemma {:induction false} BigEndianRoundTrip(v: bv64, n: nat)
    requires HasBytes(v, n)
    ensures FromBigEndian(BigEndian(v, n)) == v
    decreases n
  {
    hide AppendByte, LowByte, Shifted;
    if n > 0 {
      ShiftBack(v);
      BigEndianRoundTrip(Shifted(v), n - 1);
      var s := BigEndian(v, n);
      assert s[..n - 1] == BigEndian(Shifted(v), n - 1);
    }
  }

  lemma ShiftBack(v: bv64)
    ensures AppendByte(Shifted(v), LowByte(v)) == v
  {
  }

  /** And up to eight bytes make a word that has them. */
  lemma {:induction false} BytesRoundTrip(s: seq<byte>)
    requires |s| <= 8
    ensures HasBytes(FromBigEndian(s), |s|) && BigEndian(FromBigEndian(s), |s|) == s
    decreases |s|
  {
    hide AppendByte, LowByte, FromBigEndian, ShiftedBy, Shifted;
    if s == [] {
      NothingRead();
    } else {
      var v, b := FromBigEndian(s[..|s| - 1]), s[|s| - 1];
      BytesRoundTrip(s[..|s| - 1]);
      SevenBytes(v, |s| - 1);
      AppendBack(v, b);
      LastAppended(s);
      assert s == s[..|s| - 1] + [b];
    }
  }

  lemma NothingRead()
    ensures FromBigEndian([]) == 0 && HasBytes(0, 0)
  {
  }

  lemma LastAppended(s: seq<byte>)
    requires s != []
    ensures FromBigEndian(s) == AppendByte(FromBigEndian(s[..|s| - 1]), s[|s| - 1])
  {
  }

  lemma AppendBack(v: bv64, b: byte)
    requires v >> 56 == 0
    ensures Shifted(AppendByte(v, b)) == v && LowByte(AppendByte(v, b)) == b
  {
  }

  /** A word shifted by `k` bytes. */
  function ShiftedBy(v: bv64, k: nat): bv64 {
    if k == 0 then v else Shifted(ShiftedBy(v, k - 1))
  }

  lemma {:induction false} NoneLeft(v: bv64, k: nat, n: nat)
    requires HasBytes(ShiftedBy(v, k), n)
    ensures ShiftedBy(v, k + n) == 0
    decreases n
  {
    hide Shifted;
    if n > 0 {
      assert ShiftedBy(v, k + 1) == Shifted(ShiftedBy(v, k));
      NoneLeft(v, k + 1, n - 1);
    }
  }

  lemma {:induction false} StillNone(v: bv64, k: nat, n: nat)
    requires k <= n && ShiftedBy(v, k) == 0
    ensures ShiftedBy(v, n) == 0
    decreases n
  {
    hide Shifted;
    if k < n {
      StillNone(v, k, n - 1);
      ShiftedZero();
    }
  }

  lemma ShiftedZero()
    ensures Shifted(0) == 0
  {
  }

  lemma SevenBytes(v: bv64, n: nat)
    requires HasBytes(v, n) && n <= 7
    ensures v >> 56 == 0
  {
    hide *;
    NoneDropped(v);
    NoneLeft(v, 0, n);
    StillNone(v, n, 7);
    Shifts(v);
  }

  lemma NoneDropped(v: bv64)
    ensures ShiftedBy(v, 0) == v
  {
  }


  lemma DropOne(v: bv64, k: nat)
    ensures ShiftedBy(v, k + 1) == Shifted(ShiftedBy(v, k))
  {
    hide Shifted;
  }

  function Xored(a: bv64, b: bv64): bv64 {
    a ^ b
  }

  /** A number as a word: its bytes one behind the other, those above 64 bits lost. */
  function Word(n: nat): bv64 {
    if n == 0 then 0 else AppendByte(Word(n / 0x100), LowDigit(n))
  }

  function LowDigit(n: nat): byte {
    ToByte(n % 0x100)
  }

  /** The number that the `k` low bytes of a word make. */
  function Number(v: bv64, k: nat): nat {
    if k == 0 then 0 else ToNat(LowByte(v)) + 0x100 * Number(Shifted(v), k - 1)
  }

  /** How many numbers `k` bytes can hold. */
  function Numbers(k: nat): nat {
    if k == 0 then 1 else 0x100 * Numbers(k - 1)
  }

  /** A number of up to eight bytes is the number that the bytes of its word make. */
  lemma WordBack(n: nat)
    requires n < 0x1_0000_0000_0000_0000
    ensures Number(Word(n), 8) == n
  {
    hide Word, Number;
    assert Numbers(8) == 0x1_0000_0000_0000_0000;
    NumberBack(n, 8);
  }

  lemma {:induction false} NumberBack(n: nat, k: nat)
    requires n < Numbers(k) && k <= 8
    ensures HasBytes(Word(n), k) && Number(Word(n), k) == n
    decreases k
  {
    hide AppendByte, LowDigit, LowByte, Shifted, ToNat;
    if k > 0 {
      var v, b := Word(n / 0x100), LowDigit(n);
      NumberBack(n / 0x100, k - 1);
      LowDigitBack(n);
      if n == 0 {
        ZeroWord();
      } else {
        SevenBytes(v, k - 1);
        AppendBack(v, b);
      }
    }
  }

  lemma LowDigitBack(n: nat)
    ensures ToNat(LowDigit(n)) == n % 0x100
  {
    hide ToByte, ToNat;
    NatBack(n % 0x100);
  }

  lemma ZeroWord()
    ensures ToNat(LowByte(0)) == 0 && Shifted(0) == 0
  {
  }

  lemma WordHasBytes(v: bv64)
    ensures HasBytes(v, 8)
  {
    var v4 := v >> 8 >> 8 >> 8 >> 8;
    assert v4 >> 8 >> 8 >> 8 >> 8 == 0;
    assert HasBytes(v4 >> 8 >> 8, 2);
    assert HasBytes(v4, 4);
    assert HasBytes(v >> 8 >> 8, 6);
  }
}

/** NullCipher.cpp, which shows that the laws can be met. */
module NullCipherModel {
  import opened Bytes
  import opened CipherModel

  /** The cipher that changes nothing. */
  const NULL_CIPHER := Cipher(1, (x, iv) => x, (x, iv) => x, (x, iv) => x, (x, iv) => x, (x, iv) => 0)

  lemma NullCipherLawful()
    ensures NULL_CIPHER.Lawful()
  {
  }
}
