/** BlockNameIO.cpp, StreamNameIO.cpp and NullNameIO.cpp: the coding of one file name, under an IV
    that is handed on from name to name. */
module Names {
  import opened Bytes
  import opened Options
  import opened CipherModel
  import opened Base64
  import opened Bits
  import opened Division
  import opened ByteValues

  const SLASH: byte := 47
  const DOT: byte := 46

  datatype NameError = TooSmall | BadSize | BadPadding | BadChecksum

  datatype Result<+T> = Ok(value: T) | Err(error: NameError)

  /** A coded name, and the IV for the next one. */
  datatype Coded = Coded(name: seq<byte>, iv: Option<bv64>)

  // ----- Between bytes and file name characters -------------------------------------------------

  function Values(s: seq<byte>): (r: seq<nat>)
    ensures |r| == |s|
  {
    seq(|s|, k requires 0 <= k < |s| => ToNat(s[k]))
  }

  function ToBytes(s: seq<nat>): (r: seq<byte>)
    ensures |r| == |s|
  {
    seq(|s|, k requires 0 <= k < |s| => ToByte(s[k] % 256))
  }

  lemma BytesBack(s: seq<byte>)
    ensures ToBytes(Values(s)) == s && Fit(Values(s), 8)
  {
    hide ToByte, ToNat;
    assert Pow2(8) == 256;
    forall k | 0 <= k < |s| ensures Values(s)[k] < 256 && ToBytes(Values(s))[k] == s[k] {
      ByteBack(s[k]);
    }
  }

  lemma ValuesBack(s: seq<nat>)
    requires forall k :: 0 <= k < |s| ==> s[k] < 256
    ensures Values(ToBytes(s)) == s
  {
    hide ToByte, ToNat;
    forall k | 0 <= k < |s| ensures Values(ToBytes(s))[k] == s[k] {
      NatBack(s[k]);
    }
  }

  function ToText(stream: seq<byte>): (text: seq<byte>)
    ensures |text| == B256ToB64Bytes(|stream|)
  {
    hide *;
    ToBytes(AllToAscii(Encoded(Values(stream))))
  }

  function FromText(text: seq<byte>): (stream: seq<byte>)
    ensures |stream| == B64ToB256Bytes(|text|)
  {
    hide *;
    ToBytes(Decoded(AllFromAscii(Values(text))))
  }

  /** A name that can be put between slashes, and is neither "." nor "..". */
  predicate SafeName(name: seq<byte>) {
    forall k :: 0 <= k < |name| ==> name[k] != SLASH && name[k] != DOT && name[k] != 0
  }

  lemma TextRoundTrip(stream: seq<byte>)
    ensures FromText(ToText(stream)) == stream && SafeName(ToText(stream))
  {
    var digits := Encoded(Values(stream));
    BytesBack(stream);
    EncodedRoundTrip(Values(stream));
    AsciiRoundTrip(digits);
    TextChars(digits);
    hide ToByte, ToNat, Encoded, Decoded, Fit, AllToAscii, AllFromAscii;
    ValuesBack(AllToAscii(digits));
  }

  lemma TextChars(digits: seq<nat>)
    requires Fit(digits, 6)
    ensures SafeName(ToBytes(AllToAscii(digits)))
    ensures forall k :: 0 <= k < |digits| ==> AllToAscii(digits)[k] < 256
  {
    assert Pow2(6) == 64;
    hide ToByte, ToNat;
    var t := AllToAscii(digits);
    forall k | 0 <= k < |digits|
      ensures t[k] < 256 && ToBytes(t)[k] != SLASH && ToBytes(t)[k] != DOT && ToBytes(t)[k] != 0
    {
      AlphabetRoundTrip(digits[k]);
      NatBack(t[k]);
    }
  }

  /** The passes over the name's buffer: from 8 to 6 bits, and then to characters. */
  method WriteText(stream: seq<byte>) returns (text: seq<byte>)
    requires stream != []
    ensures text == ToText(stream)
  {
    hide Encoded, AllToAscii, ToByte, Values;
    var encLen64 := B256ToB64Bytes(|stream|);
    SizesMatch(|stream|);
    var buf := new nat[encLen64 + |stream|];
    Load(buf, Values(stream));
    ghost var loaded := buf[..];
    EncodeInline(buf, |stream|);
    PatchedFront(loaded, Encoded(Values(stream)), encLen64);
    assert buf[..encLen64] == Encoded(Values(stream));
    B64ToAscii(buf, encLen64);
    text := ToBytes(buf[..encLen64]);
  }

  method Load(buf: array<nat>, values: seq<nat>)
    requires |values| <= buf.Length
    modifies buf
    ensures buf[..|values|] == values
  {
    for k := 0 to |values|
      invariant buf[..k] == values[..k]
    {
      buf[k] := values[k];
    }
  }

  /** The passes back: to values, and from 6 to 8 bits. */
  method ReadText(text: seq<byte>) returns (stream: seq<byte>)
    requires text != []
    ensures stream == FromText(text)
  {
    hide Decoded, AllFromAscii, ToByte, Values;
    var buf := new nat[|text|];
    Load(buf, Values(text));
    assert buf[..] == Values(text);
    AsciiToB64(buf, |text|);
    assert buf[..|text|] == AllFromAscii(Values(text));
    DecodeInline(buf, |text|);
    LeftOver(|text|);
    stream := ToBytes(buf[..B64ToB256Bytes(|text|)]);
  }

  // ----- The checksum of a name -----------------------------------------------------------------

  lemma MacBytes(c: Cipher, data: seq<byte>, iv: Option<bv64>)
    ensures var mac := c.Mac16(data, iv);
      |BigEndian(mac, 2)| == 2 && FromBigEndian(BigEndian(mac, 2)) == mac
  {
    hide *;
    var mac := c.Mac16(data, iv);
    MacSmall(c, data, iv);
    TwoBytes(mac);
    BigEndianRoundTrip(mac, 2);
  }

  lemma MacSmall(c: Cipher, data: seq<byte>, iv: Option<bv64>)
    ensures c.Mac16(data, iv) & 0xffff == c.Mac16(data, iv)
  {
    var m64 := c.mac64(data, iv);
    var m32 := ((m64 >> 32) ^ m64) & 0xffff_ffff;
    MaskTwice((m32 >> 16) ^ m32);
  }

  lemma MaskTwice(v: bv64)
    ensures v & 0xffff & 0xffff == v & 0xffff
  {
  }

  lemma TwoBytes(v: bv64)
    requires v & 0xffff == v
    ensures HasBytes(v, 2)
  {
    hide Shifted;
    ShiftedOut(v);
    assert HasBytes(Shifted(v), 1) <==> HasBytes(Shifted(Shifted(v)), 0);
  }

  lemma ShiftedOut(v: bv64)
    requires v & 0xffff == v
    ensures Shifted(Shifted(v)) == 0
  {
  }

  /** A 16 bit checksum is stored as its two low bytes, the higher one first. */
  function MacPair(mac: bv64): (r: seq<byte>)
    ensures |r| == 2
  {
    [WordBytes(mac)[1], WordBytes(mac)[0]]
  }

  lemma PairIs(mac: bv64)
    ensures BigEndian(mac, 2) == MacPair(mac)
  {
    hide BigEndian, WordBytes;
    BigEndianIs(mac, 2);
  }

  /** The stored bytes are those of a checksum exactly if the checksum is what they are read as. */
  lemma PairExactly(c: Cipher, data: seq<byte>, iv: Option<bv64>, stored: seq<byte>)
    requires |stored| == 2
    ensures c.Mac16(data, iv) == FromBigEndian(stored) <==> stored == MacPair(c.Mac16(data, iv))
  {
    hide Cipher.Mac16, BigEndian, FromBigEndian, MacPair, HasBytes;
    MacBytes(c, data, iv);
    PairIs(c.Mac16(data, iv));
    BytesRoundTrip(stored);
  }

  /** What two bytes are read as. */
  lemma PairRead(stored: seq<byte>)
    requires |stored| == 2
    ensures FromBigEndian(stored) == (stored[0] as bv64 << 8) | stored[1] as bv64
  {
    hide AppendByte;
    var first := stored[..1];
    assert first[..0] == [] && FromBigEndian(first) == AppendByte(0, stored[0]);
    assert FromBigEndian(stored) == AppendByte(AppendByte(0, stored[0]), stored[1]);
    TwoAppended(stored[0], stored[1]);
  }

  lemma TwoAppended(a: byte, b: byte)
    ensures AppendByte(AppendByte(0, a), b) == (a as bv64 << 8) | b as bv64
  {
  }

  /** What a MAC call leaves in the caller's IV. */
  function Chained(c: Cipher, data: seq<byte>, iv: Option<bv64>): Option<bv64> {
    match iv
    case None => None
    case Some(_) => Some(c.mac64(data, iv))
  }

  lemma NoXor(v: bv64)
    ensures Xored(v, 0) == v
  {
  }

  // ----- Names in blocks ------------------------------------------------------------------------

  /** BlockNameIO. Its block size is the cipher's. */
  datatype BlockNameIO = BlockNameIO(cipher: Cipher, interface: nat)
  {
    ghost predicate Valid() {
      cipher.Lawful() && cipher.blockSize < 128
    }

    function Bs(): (bs: nat)
      requires 0 < cipher.blockSize
      ensures bs > 0
    {
      cipher.blockSize
    }

    function MaxEncodedNameLen(n: nat): nat
      requires 0 < cipher.blockSize
    {
      var numBlocks := (n + Bs()) / Bs();
      B256ToB64Bytes(numBlocks * Bs() + 2)
    }

    function MaxDecodedNameLen(n: nat): int {
      B64ToB256Bytes(n) - 2
    }

    /** A name and as many bytes as are missing to the next whole block, one block if none are,
        each of them that number. */
    function Filled(name: seq<byte>): (r: seq<byte>)
      requires 0 < cipher.blockSize < 128
    {
      var padding := Bs() - |name| % Bs();
      name + seq(padding, _ => ToByte(padding))
    }

    function NameKey(mac: bv64, iv: Option<bv64>): bv64 {
      Xored(mac, if iv.Some? && interface >= 3 then iv.value else 0)
    }

    function Encode(name: seq<byte>, iv: Option<bv64>): Coded
      requires 0 < cipher.blockSize < 128
    {
      var padded := Filled(name);
      var mac := cipher.Mac16(padded, iv);
      Coded(ToText(BigEndian(mac, 2) + cipher.blockEncode(padded, NameKey(mac, iv))), Chained(cipher, padded, iv))
    }

    function Decode(text: seq<byte>, iv: Option<bv64>): Result<Coded>
      requires 0 < cipher.blockSize
    {
      var len := MaxDecodedNameLen(|text|);
      if len < Bs() then Err(TooSmall)
      else if len % Bs() != 0 then Err(BadSize)
      else
        var stream := FromText(text);
        var mac := FromBigEndian(stream[..2]);
        Checked(cipher.blockDecode(stream[2..], NameKey(mac, iv)), mac, iv)
    }

    /** The checks on a decoded stream: that the padding can be one, and that the checksum matches. */
    function Checked(data: seq<byte>, mac: bv64, iv: Option<bv64>): Result<Coded>
      requires 0 < cipher.blockSize
    {
      if data == [] then Err(BadSize)
      else
        var padding := ToNat(data[|data| - 1]);
        if padding > Bs() || padding > |data| then Err(BadPadding)
        else if cipher.Mac16(data, iv) != mac then Err(BadChecksum)
        else Ok(Coded(data[..|data| - padding], Chained(cipher, data, iv)))
    }

    method EncodeName(name: seq<byte>, iv: Option<bv64>) returns (r: Coded)
      requires 0 < cipher.blockSize < 128
      ensures r == Encode(name, iv)
    {
      hide BigEndian, ToText;
      var padding := Bs() - |name| % Bs();
      var buffer := name + seq(padding, _ => ToByte(padding));
      var mac := cipher.Mac16(buffer, iv);
      var next := Chained(cipher, buffer, iv);
      buffer := BigEndian(mac, 2) + cipher.blockEncode(buffer, NameKey(mac, iv));
      var text := WriteText(buffer);
      r := Coded(text, next);
    }

    method DecodeName(text: seq<byte>, iv: Option<bv64>) returns (r: Result<Coded>)
      requires 0 < cipher.blockSize
      ensures r == Decode(text, iv)
    {
      hide FromText, FromBigEndian;
      var len := B64ToB256Bytes(|text|) - 2;
      if len < Bs() {
        return Err(TooSmall);
      }
      var tmpBuf := ReadText(text);
      var mac := FromBigEndian(tmpBuf[..2]);
      if len % Bs() != 0 {
        return Err(BadSize);
      }
      tmpBuf := cipher.blockDecode(tmpBuf[2..], NameKey(mac, iv));
      r := Checked(tmpBuf, mac, iv);
    }

    /** What a name becomes: the two bytes of the checksum of the name and its padding, and both
        coded under the checksum, from the third interface on xor the IV. The IV it leaves is the
        MAC of the same bytes. */
    lemma EncodeExactly(name: seq<byte>, iv: Option<bv64>, padded: seq<byte>)
      requires 0 < cipher.blockSize < 128
      requires |padded| == |name| + (cipher.blockSize - |name| % cipher.blockSize) && padded[..|name|] == name
      requires forall k :: |name| <= k < |padded| ==> ToNat(padded[k]) == |padded| - |name|
      ensures var mac := cipher.Mac16(padded, iv);
        var key := if iv.Some? && interface >= 3 then Xored(mac, iv.value) else mac;
        Encode(name, iv).name == ToText(MacPair(mac) + cipher.blockEncode(padded, key))
      ensures Encode(name, iv).iv == match iv { case None => None case Some(_) => Some(cipher.mac64(padded, iv)) }
    {
      hide Cipher.Mac16, BigEndian, MacPair, Xored, ToText, ToByte, ToNat;
      PaddedOnly(name, padded);
      PairIs(cipher.Mac16(padded, iv));
      NoXor(cipher.Mac16(padded, iv));
    }

    lemma PaddedOnly(name: seq<byte>, padded: seq<byte>)
      requires 0 < cipher.blockSize < 128
      requires |padded| == |name| + (cipher.blockSize - |name| % cipher.blockSize) && padded[..|name|] == name
      requires forall k :: |name| <= k < |padded| ==> ToNat(padded[k]) == |padded| - |name|
      ensures Filled(name) == padded
    {
      hide ToByte, ToNat;
      var padding: nat := |padded| - |name|;
      NatBack(padding);
      forall k | |name| <= k < |padded| ensures padded[k] == ToByte(padding) {
        SameByte(padded[k], ToByte(padding));
      }
      assert Filled(name) == padded;
    }

    /** A text decodes exactly if it has the length of whole blocks and a checksum, its padding can be
        one, and the stored checksum is that of the decoded bytes; otherwise the first of these that
        does not hold decides the error. */
    lemma DecodeExactly(text: seq<byte>, iv: Option<bv64>)
      requires cipher.Lawful()
      ensures var n, bs := |text| * 6 / 8 - 2, cipher.blockSize;
        if n < bs then Decode(text, iv) == Err(TooSmall)
        else if n % bs != 0 then Decode(text, iv) == Err(BadSize)
        else
          var stored := FromText(text);
          var mac := FromBigEndian(stored[..2]);
          var data := cipher.blockDecode(stored[2..], if iv.Some? && interface >= 3 then Xored(mac, iv.value) else mac);
          && |data| == n
          && var padding := ToNat(data[n - 1]);
             if padding > bs then Decode(text, iv) == Err(BadPadding)
             else if stored[..2] != MacPair(cipher.Mac16(data, iv)) then Decode(text, iv) == Err(BadChecksum)
             else Decode(text, iv) == Ok(Coded(data[..n - padding],
                                               if iv.Some? then Some(cipher.mac64(data, iv)) else None))
    {
      hide Cipher.Mac16, BigEndian, FromBigEndian, MacPair, Xored, FromText, ToNat;
      var n, bs := |text| * 6 / 8 - 2, cipher.blockSize;
      if n >= bs && n % bs == 0 {
        var stored := FromText(text);
        var mac := FromBigEndian(stored[..2]);
        NoXor(mac);
        assert cipher.Blocks(stored[2..]);
        PairExactly(cipher, cipher.blockDecode(stored[2..], NameKey(mac, iv)), iv, stored[..2]);
      }
    }

    lemma PaddedSize(name: seq<byte>)
      requires 0 < cipher.blockSize < 128
      ensures var padded := Filled(name); var padding := |padded| - |name|;
        && 0 < padding <= Bs() && padded[..|name|] == name && ToNat(padded[|padded| - 1]) == padding
        && |padded| % Bs() == 0 && Bs() <= |padded|
        && |padded| == (|name| + Bs()) / Bs() * Bs()
    {
      hide *;
      PaddedEnd(name);
      Blocks(|name|, Bs());
      BlocksAtLeast(|name|, Bs());
    }

    lemma BlocksAtLeast(n: nat, bs: nat)
      requires bs > 0
      ensures n + (bs - n % bs) >= bs
    {
      assert n % bs <= n;
    }

    lemma PaddedEnd(name: seq<byte>)
      requires 0 < cipher.blockSize < 128
      ensures var padded := Filled(name); var padding := Bs() - |name| % Bs();
        && |padded| == |name| + padding && 0 < padding <= Bs()
        && padded[..|name|] == name && ToNat(padded[|padded| - 1]) == padding
    {
      var padding: nat := Bs() - |name| % Bs();
      NatBack(padding);
      hide ToByte, ToNat;
      assert Filled(name)[|name| + padding - 1] == ToByte(padding);
    }

    lemma Blocks(n: nat, bs: nat)
      requires bs > 0
      ensures var m := n + (bs - n % bs); m % bs == 0 && m == (n + bs) / bs * bs
    {
      var q, r := n / bs, n % bs;
      assert n + bs == (q + 1) * bs + r by {
        assert (q + 1) * bs == q * bs + bs;
      }
      DivUnique(n + bs, bs, q + 1, r);
      assert n + (bs - r) == (q + 1) * bs + 0;
      DivUnique(n + (bs - r), bs, q + 1, 0);
    }

    /** A decoded name is the name that was encoded, and both ends go on with the same IV. */
    lemma NameRoundTrip(name: seq<byte>, iv: Option<bv64>)
      requires Valid()
      ensures var e := Encode(name, iv);
        && Decode(e.name, iv) == Ok(Coded(name, e.iv))
        && |e.name| == MaxEncodedNameLen(|name|) && SafeName(e.name) && e.name != []
        && |name| <= MaxDecodedNameLen(|e.name|) && MaxDecodedNameLen(|e.name|) > 0
    {
      hide *;
      Sizes();
      PaddedSize(name);
      MacBytes(cipher, Filled(name), iv);
      StreamBack(Filled(name), cipher.Mac16(Filled(name), iv), iv);
      EncodeIs(name, iv);
      var padded, mac := Filled(name), cipher.Mac16(Filled(name), iv);
      var stream := Stream(padded, mac, iv);
      TextRoundTrip(stream);
      SizesMatch(|stream|);
      LengthIs(name, |stream|);
      DecodeIs(ToText(stream), stream, iv);
      CheckedBack(name, iv);
    }

    lemma Sizes()
      requires Valid()
      ensures cipher.Lawful() && 0 < cipher.blockSize < 128
    {
    }

    /** What is put in characters. */
    function Stream(padded: seq<byte>, mac: bv64, iv: Option<bv64>): seq<byte> {
      BigEndian(mac, 2) + cipher.blockEncode(padded, NameKey(mac, iv))
    }

    lemma EncodeIs(name: seq<byte>, iv: Option<bv64>)
      requires 0 < cipher.blockSize < 128
      ensures var padded := Filled(name);
        Encode(name, iv) == Coded(ToText(Stream(padded, cipher.Mac16(padded, iv), iv)), Chained(cipher, padded, iv))
    {
      hide ToText, Filled, Cipher.Mac16, BigEndian, NameKey, Chained;
    }

    lemma LengthIs(name: seq<byte>, n: nat)
      requires 0 < cipher.blockSize < 128 && n == 2 + (|name| + Bs()) / Bs() * Bs()
      ensures MaxEncodedNameLen(|name|) == B256ToB64Bytes(n)
    {
      hide B256ToB64Bytes;
    }

    lemma StreamBack(padded: seq<byte>, mac: bv64, iv: Option<bv64>)
      requires cipher.Lawful() && padded != [] && |padded| % Bs() == 0
      requires FromBigEndian(BigEndian(mac, 2)) == mac
      ensures var stream := Stream(padded, mac, iv);
        && |stream| == 2 + |padded| && FromBigEndian(stream[..2]) == mac
        && cipher.blockDecode(stream[2..], NameKey(mac, iv)) == padded
    {
      hide BigEndian, FromBigEndian, NameKey;
      var key := NameKey(mac, iv);
      assert cipher.Blocks(padded);
      assert Stream(padded, mac, iv)[..2] == BigEndian(mac, 2);
      assert Stream(padded, mac, iv)[2..] == cipher.blockEncode(padded, key);
    }

    lemma DecodeIs(text: seq<byte>, stream: seq<byte>, iv: Option<bv64>)
      requires 0 < cipher.blockSize && FromText(text) == stream
      requires |stream| >= 2 + Bs() && (|stream| - 2) % Bs() == 0
      ensures var mac := FromBigEndian(stream[..2]);
        Decode(text, iv) == Checked(cipher.blockDecode(stream[2..], NameKey(mac, iv)), mac, iv)
      ensures MaxDecodedNameLen(|text|) == |stream| - 2
    {
      hide FromText, FromBigEndian, NameKey, Checked, B64ToB256Bytes;
    }

    lemma CheckedBack(name: seq<byte>, iv: Option<bv64>)
      requires 0 < cipher.blockSize < 128
      requires var padded := Filled(name);
        && |name| < |padded| && padded[..|name|] == name && |padded| - |name| <= Bs()
        && ToNat(padded[|padded| - 1]) == |padded| - |name|
      ensures var padded := Filled(name);
        Checked(padded, cipher.Mac16(padded, iv), iv) == Ok(Coded(name, Chained(cipher, padded, iv)))
    {
      hide Cipher.Mac16, ToNat, Chained, Filled;
    }
  }

  // ----- Names as streams -----------------------------------------------------------------------

  /** StreamNameIO, with the checksum at the end in its first interface, and chaining from its
      third on. */
  datatype StreamNameIO = StreamNameIO(cipher: Cipher, interface: nat)
  {
    function MaxEncodedNameLen(n: nat): nat {
      B256ToB64Bytes(2 + n)
    }

    function MaxDecodedNameLen(n: nat): int {
      B64ToB256Bytes(n) - 2
    }

    function NameKey(mac: bv64, iv: Option<bv64>): bv64 {
      Xored(mac, if iv.Some? && interface >= 2 then iv.value else 0)
    }

    function Joined(mac: bv64, data: seq<byte>): seq<byte> {
      if interface >= 1 then BigEndian(mac, 2) + data else data + BigEndian(mac, 2)
    }

    function Encode(name: seq<byte>, iv: Option<bv64>): Coded {
      var mac := cipher.Mac16(name, iv);
      Coded(ToText(Joined(mac, cipher.streamEncode(name, NameKey(mac, iv)))), Chained(cipher, name, iv))
    }

    function Decode(text: seq<byte>, iv: Option<bv64>): Result<Coded> {
      var len := MaxDecodedNameLen(|text|);
      if len <= 0 then Err(TooSmall)
      else
        var stream := FromText(text);
        var mac := FromBigEndian(if interface >= 1 then stream[..2] else stream[len..]);
        var data := if interface >= 1 then stream[2..] else stream[..len];
        Checked(cipher.streamDecode(data, NameKey(mac, iv)), mac, iv)
    }

    function Checked(name: seq<byte>, mac: bv64, iv: Option<bv64>): Result<Coded> {
      if cipher.Mac16(name, iv) != mac then Err(BadChecksum)
      else Ok(Coded(name, Chained(cipher, name, iv)))
    }

    method EncodeName(name: seq<byte>, iv: Option<bv64>) returns (r: Coded)
      requires cipher.Lawful() && name != []
      ensures r == Encode(name, iv)
    {
      hide BigEndian, ToText;
      var mac := cipher.Mac16(name, iv);
      var next := Chained(cipher, name, iv);
      var coded := cipher.streamEncode(name, NameKey(mac, iv));
      var buffer;
      if interface >= 1 {
        buffer := BigEndian(mac, 2) + coded;
      } else {
        buffer := coded + BigEndian(mac, 2);
      }
      var text := WriteText(buffer);
      r := Coded(text, next);
    }

    method DecodeName(text: seq<byte>, iv: Option<bv64>) returns (r: Result<Coded>)
      ensures r == Decode(text, iv)
    {
      hide FromText, FromBigEndian;
      var len := B64ToB256Bytes(|text|) - 2;
      if len <= 0 {
        return Err(TooSmall);
      }
      var tmpBuf := ReadText(text);
      var mac, name;
      if interface >= 1 {
        mac, name := FromBigEndian(tmpBuf[..2]), tmpBuf[2..];
      } else {
        mac, name := FromBigEndian(tmpBuf[len..]), tmpBuf[..len];
      }
      name := cipher.streamDecode(name, NameKey(mac, iv));
      r := Checked(name, mac, iv);
    }

    /** What a name becomes: the two bytes of its checksum, at the start or in the first interface at
        the end, and the name coded under the checksum, from the third interface on xor the IV. The
        IV it leaves is the MAC of the name. */
    lemma EncodeExactly(name: seq<byte>, iv: Option<bv64>)
      ensures var mac := cipher.Mac16(name, iv);
        var coded := cipher.streamEncode(name, if iv.Some? && interface >= 2 then Xored(mac, iv.value) else mac);
        Encode(name, iv).name == ToText(if interface >= 1 then MacPair(mac) + coded else coded + MacPair(mac))
      ensures Encode(name, iv).iv == match iv { case None => None case Some(_) => Some(cipher.mac64(name, iv)) }
    {
      hide Cipher.Mac16, BigEndian, MacPair, Xored, ToText;
      PairIs(cipher.Mac16(name, iv));
      NoXor(cipher.Mac16(name, iv));
    }

    /** A text decodes exactly if it is long enough and the stored checksum is that of the decoded
        name. */
    lemma DecodeExactly(text: seq<byte>, iv: Option<bv64>)
      ensures var n := |text| * 6 / 8 - 2;
        if n <= 0 then Decode(text, iv) == Err(TooSmall)
        else
          var stored := FromText(text);
          var pair := if interface >= 1 then stored[..2] else stored[n..];
          var mac := FromBigEndian(pair);
          var name := cipher.streamDecode(if interface >= 1 then stored[2..] else stored[..n],
                                          if iv.Some? && interface >= 2 then Xored(mac, iv.value) else mac);
          if pair != MacPair(cipher.Mac16(name, iv)) then Decode(text, iv) == Err(BadChecksum)
          else Decode(text, iv) == Ok(Coded(name, if iv.Some? then Some(cipher.mac64(name, iv)) else None))
    {
      hide Cipher.Mac16, BigEndian, FromBigEndian, MacPair, Xored, FromText;
      var n := |text| * 6 / 8 - 2;
      if n > 0 {
        var stored := FromText(text);
        var pair := if interface >= 1 then stored[..2] else stored[n..];
        var mac := FromBigEndian(pair);
        NoXor(mac);
        PairExactly(cipher, cipher.streamDecode(if interface >= 1 then stored[2..] else stored[..n],
                                                NameKey(mac, iv)), iv, pair);
      }
    }

    lemma NameRoundTrip(name: seq<byte>, iv: Option<bv64>)
      requires cipher.Lawful() && name != []
      ensures var e := Encode(name, iv);
        && Decode(e.name, iv) == Ok(Coded(name, e.iv))
        && |e.name| == MaxEncodedNameLen(|name|) && SafeName(e.name) && e.name != []
        && |name| <= MaxDecodedNameLen(|e.name|) && MaxDecodedNameLen(|e.name|) > 0
    {
      var mac := cipher.Mac16(name, iv);
      var data := cipher.streamEncode(name, NameKey(mac, iv));
      var stream := Joined(mac, data);
      MacBytes(cipher, name, iv);
      TextRoundTrip(stream);
      SizesMatch(|stream|);
      assert |data| == |name| && cipher.streamDecode(data, NameKey(mac, iv)) == name;
      hide Cipher.Mac16, BigEndian, FromBigEndian, ToText, FromText, SafeName, Cipher.Lawful;
      if interface >= 1 {
        assert stream[..2] == BigEndian(mac, 2) && stream[2..] == data;
      } else {
        assert stream[..|name|] == data && stream[|name|..] == BigEndian(mac, 2);
      }
    }
  }
}
