/** RawFileIO.cpp: the file on disk, open for reading and writing. I/O errors are left out. */
module RawFile {
  import opened Bytes

  class RawFileIO {
    var content: seq<byte>

    constructor (content: seq<byte>)
      ensures this.content == content
    {
      this.content := content;
    }

    method GetSize() returns (size: nat)
      ensures size == |content|
    {
      size := |content|;
    }

    method Read(off: nat, len: nat) returns (data: seq<byte>)
      ensures data == Slice(content, off, len)
    {
      data := Slice(content, off, len);
    }

    method Write(off: nat, data: seq<byte>)
      modifies this
      ensures content == Overwrite(old(content), off, data)
    {
      content := Overwrite(content, off, data);
    }

    method Truncate(size: nat)
      modifies this
      ensures content == Resize(old(content), size)
    {
      content := Resize(content, size);
    }
  }
}

/** CipherFileIO.cpp: the file header with the file's IV, and the coding of single blocks. */
module CipherFile {
  import opened Bytes
  import opened CipherModel
  import opened BlockCode
  import opened RawFile
  import opened Offsets

  const HEADER_SIZE: nat := 8

  /** The file IV a header holds, decoded under the external IV. */
  function HeaderIV(cipher: Cipher, header: seq<byte>, externalIV: bv64): bv64 {
    FromBigEndian(cipher.streamDecode(header, externalIV))
  }

  /** The header that holds a file IV, encoded under the external IV. */
  function EncodeHeader(cipher: Cipher, fileIV: bv64, externalIV: bv64): seq<byte> {
    cipher.streamEncode(BigEndian(fileIV, HEADER_SIZE), externalIV)
  }

  /** The header is the word, highest byte first, in stream mode. */
  lemma HeaderIs(cipher: Cipher, fileIV: bv64, externalIV: bv64)
    ensures var b := WordBytes(fileIV);
      EncodeHeader(cipher, fileIV, externalIV)
        == cipher.streamEncode([b[7], b[6], b[5], b[4], b[3], b[2], b[1], b[0]], externalIV)
  {
    hide BigEndian, WordBytes;
    EightBytes(fileIV);
  }

  lemma EightBytes(v: bv64)
    ensures var b := WordBytes(v);
      BigEndian(v, 8) == [b[7], b[6], b[5], b[4], b[3], b[2], b[1], b[0]]
  {
    hide BigEndian, WordBytes;
    BigEndianIs(v, 8);
  }

  lemma HeaderIVIs(cipher: Cipher, header: seq<byte>, externalIV: bv64)
    requires cipher.Lawful() && |header| == 8
    ensures var b := WordBytes(HeaderIV(cipher, header, externalIV));
      cipher.streamDecode(header, externalIV) == [b[7], b[6], b[5], b[4], b[3], b[2], b[1], b[0]]
  {
    hide BigEndian, WordBytes, FromBigEndian, HasBytes;
    BytesRoundTrip(cipher.streamDecode(header, externalIV));
    EightBytes(HeaderIV(cipher, header, externalIV));
  }

  lemma HeaderRoundTrip(cipher: Cipher, fileIV: bv64, externalIV: bv64)
    requires cipher.Lawful()
    ensures |EncodeHeader(cipher, fileIV, externalIV)| == HEADER_SIZE
    ensures HeaderIV(cipher, EncodeHeader(cipher, fileIV, externalIV), externalIV) == fileIV
  {
    WordHasBytes(fileIV);
    hide FromBigEndian, BigEndian;
    BigEndianRoundTrip(fileIV, HEADER_SIZE);
    assert BigEndian(fileIV, HEADER_SIZE) != [];
  }

  /** A file with its header coded for another external IV. */
  function Rekeyed(cipher: Cipher, raw: seq<byte>, from: bv64, to: bv64): seq<byte> {
    if |raw| < HEADER_SIZE then raw
    else EncodeHeader(cipher, HeaderIV(cipher, raw[..HEADER_SIZE], from), to) + raw[HEADER_SIZE..]
  }

  lemma RekeyedSame(cipher: Cipher, raw: seq<byte>, iv: bv64)
    requires cipher.Lawful()
    ensures Rekeyed(cipher, raw, iv, iv) == raw
  {
    hide FromBigEndian, BigEndian;
    if |raw| >= HEADER_SIZE {
      var header := raw[..HEADER_SIZE];
      assert header != [];
      BytesRoundTrip(cipher.streamDecode(header, iv));
      assert EncodeHeader(cipher, HeaderIV(cipher, header, iv), iv) == header;
      assert header + raw[HEADER_SIZE..] == raw;
    }
  }

  /** The way back restores the header byte by byte. */
  lemma RekeyedBack(cipher: Cipher, raw: seq<byte>, from: bv64, to: bv64)
    requires cipher.Lawful()
    ensures Rekeyed(cipher, Rekeyed(cipher, raw, from, to), to, from) == raw
  {
    hide FromBigEndian, BigEndian;
    if |raw| >= HEADER_SIZE {
      var header := raw[..HEADER_SIZE];
      var fileIV := HeaderIV(cipher, header, from);
      HeaderRoundTrip(cipher, fileIV, to);
      var there := Rekeyed(cipher, raw, from, to);
      assert there[..HEADER_SIZE] == EncodeHeader(cipher, fileIV, to) && there[HEADER_SIZE..] == raw[HEADER_SIZE..];
      BytesRoundTrip(cipher.streamDecode(header, from));
      assert header != [];
      assert EncodeHeader(cipher, fileIV, from) == header;
    }
  }

  /** A write behind the header leaves the header alone. */
  lemma WriteBehindHeader(raw: seq<byte>, off: nat, data: seq<byte>)
    requires |raw| >= HEADER_SIZE
    ensures var w := Overwrite(raw, off + HEADER_SIZE, data);
      && |w| >= HEADER_SIZE && w[..HEADER_SIZE] == raw[..HEADER_SIZE]
      && w[HEADER_SIZE..] == Overwrite(raw[HEADER_SIZE..], off, data)
  {
    if data == [] {
      assert Overwrite(raw, off + HEADER_SIZE, data) == raw;
    } else {
      var w, v := Overwrite(raw, off + HEADER_SIZE, data), Overwrite(raw[HEADER_SIZE..], off, data);
      OverwriteSize(raw, off + HEADER_SIZE, data);
      OverwriteSize(raw[HEADER_SIZE..], off, data);
      hide *;
      forall j | 0 <= j < |v| ensures w[HEADER_SIZE..][j] == v[j] {
        ByteBehind(raw, off, data, j);
      }
      forall j | 0 <= j < HEADER_SIZE ensures w[..HEADER_SIZE][j] == raw[..HEADER_SIZE][j] {
        OverwriteAt(raw, off + HEADER_SIZE, data, j);
      }
    }
  }

  lemma ByteBehind(raw: seq<byte>, off: nat, data: seq<byte>, j: nat)
    requires |raw| >= HEADER_SIZE && data != [] && j < Max(|raw| - HEADER_SIZE, off + |data|)
    ensures |Overwrite(raw, off + HEADER_SIZE, data)| > HEADER_SIZE + j
    ensures |Overwrite(raw[HEADER_SIZE..], off, data)| > j
    ensures Overwrite(raw, off + HEADER_SIZE, data)[HEADER_SIZE + j] == Overwrite(raw[HEADER_SIZE..], off, data)[j]
  {
    hide Overwrite;
    OverwriteAt(raw, off + HEADER_SIZE, data, HEADER_SIZE + j);
    OverwriteAt(raw[HEADER_SIZE..], off, data, j);
  }

  lemma ResizeBehindHeader(raw: seq<byte>, size: nat)
    requires |raw| >= HEADER_SIZE
    ensures var w := Resize(raw, size + HEADER_SIZE);
      && |w| >= HEADER_SIZE && w[..HEADER_SIZE] == raw[..HEADER_SIZE]
      && w[HEADER_SIZE..] == Resize(raw[HEADER_SIZE..], size)
  {
  }

  lemma SliceBehindHeader(raw: seq<byte>, off: nat, len: nat)
    ensures Slice(raw, off + HEADER_SIZE, len)
         == Slice(if |raw| >= HEADER_SIZE then raw[HEADER_SIZE..] else [], off, len)
  {
    if off + HEADER_SIZE < |raw| {
      var j := Min(off + len, |raw| - HEADER_SIZE);
      SubSlice(raw, HEADER_SIZE, |raw|, off, j);
      assert Slice(raw, off + HEADER_SIZE, len) == raw[HEADER_SIZE + off..HEADER_SIZE + j];
    }
  }

  /** A random word, drawn until it is not zero. */
  method NonZero() returns (random: bv64)
    ensures random != 0
  {
    random := 1;
    random := *;
    if random == 0 { random := 1; }
  }

  /** The part of CipherFileIO below BlockFileIO. `fileIV == 0` means: not loaded yet. */
  class CipherLayer {
    const raw: RawFileIO
    const cipher: Cipher
    const haveHeader: bool
    const reverse: bool
    const holes: bool
    const bs: nat
    // the IV that an empty file will get with its header
    const random: bv64
    var externalIV: bv64
    var fileIV: bv64
    // the IV of the file: in its header, or to be in it
    ghost const ownIV: bv64

    ghost function Store(): seq<byte>
      reads this, raw
    {
      if !haveHeader then raw.content
      else if |raw.content| >= HEADER_SIZE then raw.content[HEADER_SIZE..]
      else []
    }

    /** The IV of the file, whether or not it is loaded. */
    ghost function IV(): bv64
      reads this, raw
    {
      if haveHeader && |raw.content| >= HEADER_SIZE
      then HeaderIV(cipher, raw.content[..HEADER_SIZE], externalIV)
      else 0
    }

    ghost function Coding(): Code
      reads this, raw
    {
      CipherCode(cipher, reverse, holes, bs, IV())
    }

    ghost predicate Valid()
      reads this, raw
    {
      && Coding().WellFormed()
      && (haveHeader ==> raw.content == [] || |raw.content| >= HEADER_SIZE)
      && (haveHeader && raw.content != [] ==> IV() != 0)
      && (fileIV != 0 ==> haveHeader && raw.content != [] && fileIV == IV())
      && OwnIV()
    }

    ghost predicate OwnIV()
      reads this, raw
    {
      && random != 0
      && ownIV == if haveHeader && raw.content == [] then random else IV()
    }

    constructor (raw: RawFileIO, cipher: Cipher, haveHeader: bool, reverse: bool, holes: bool, bs: nat,
                 random: bv64, externalIV: bv64)
      requires random != 0
      requires CipherCode(cipher, reverse, holes, bs, 0).WellFormed()
      requires haveHeader ==> raw.content == [] || |raw.content| >= HEADER_SIZE
      requires haveHeader && raw.content != [] ==> HeaderIV(cipher, raw.content[..HEADER_SIZE], externalIV) != 0
      ensures Valid()
      ensures this.raw == raw && this.cipher == cipher && this.haveHeader == haveHeader
      ensures this.reverse == reverse && this.holes == holes && this.bs == bs
      ensures this.random == random && this.externalIV == externalIV && fileIV == 0
    {
      this.raw, this.cipher, this.haveHeader, this.reverse := raw, cipher, haveHeader, reverse;
      this.holes, this.bs, this.random := holes, bs, random;
      this.externalIV, this.fileIV := externalIV, 0;
      ownIV := if !haveHeader then 0 else if raw.content == [] then random
               else HeaderIV(cipher, raw.content[..HEADER_SIZE], externalIV);
    }

    method GetSize() returns (size: nat)
      requires Valid()
      ensures size == |Store()|
    {
      size := raw.GetSize();
      if haveHeader && size > 0 {
        size := size - HEADER_SIZE;
      }
    }

    /** Load the IV from the header, or write a header with the random IV to an empty file. */
    method InitHeader()
      requires Valid() && haveHeader
      modifies this`fileIV, raw
      ensures Valid() && fileIV != 0 && fileIV == IV()
      ensures Store() == old(Store())
      ensures old(raw.content) != [] ==> raw.content == old(raw.content)
    {
      var rawSize := raw.GetSize();
      if rawSize >= HEADER_SIZE {
        var buf := raw.Read(0, HEADER_SIZE);
        assert buf == raw.content[..HEADER_SIZE];
        LoadIV(cipher.streamDecode(buf, externalIV));
      } else {
        fileIV := random;
        HeaderRoundTrip(cipher, fileIV, externalIV);
        var buf := EncodeHeader(cipher, fileIV, externalIV);
        raw.Write(0, buf);
        assert raw.content == buf;
        assert raw.content[..HEADER_SIZE] == buf;
      }
    }

    method LoadIV(buf: seq<byte>)
      modifies this`fileIV
      ensures fileIV == FromBigEndian(buf)
    {
      fileIV := 0;
      for i := 0 to |buf|
        invariant fileIV == FromBigEndian(buf[..i])
      {
        fileIV := AppendByte(fileIV, buf[i]);
        assert buf[..i + 1][..i] == buf[..i];
      }
      assert buf[..|buf|] == buf;
    }

    /** Shift the IV out of `fileIV`, the lowest byte first, into the end of a buffer. */
    method UnloadIV() returns (buf: seq<byte>)
      modifies this`fileIV
      ensures buf == BigEndian(old(fileIV), HEADER_SIZE) && fileIV == 0
    {
      ghost var iv := fileIV;
      WordHasBytes(iv);
      buf := [];
      for i := 0 to HEADER_SIZE
        invariant HasBytes(fileIV, HEADER_SIZE - i)
        invariant BigEndian(iv, HEADER_SIZE) == BigEndian(fileIV, HEADER_SIZE - i) + buf
      {
        buf := [LowByte(fileIV)] + buf;
        fileIV := fileIV >> 8;
      }
    }

    /** Write the header for the current external IV. The IV is shifted out of `fileIV` on the
        way, and so is loaded again when it is next needed. */
    method WriteHeader()
      requires haveHeader && fileIV != 0 && |raw.content| >= HEADER_SIZE && Coding().WellFormed()
      requires ownIV == fileIV && random != 0
      modifies this`fileIV, raw
      ensures Valid() && fileIV == 0
      ensures IV() == old(fileIV) && Store() == old(Store())
      ensures raw.content == EncodeHeader(cipher, old(fileIV), externalIV) + old(raw.content[HEADER_SIZE..])
    {
      ghost var iv := fileIV;
      HeaderRoundTrip(cipher, iv, externalIV);
      var buf := UnloadIV();
      buf := cipher.streamEncode(buf, externalIV);
      raw.Write(0, buf);
      assert raw.content[..HEADER_SIZE] == buf;
      assert raw.content[HEADER_SIZE..] == old(raw.content[HEADER_SIZE..]);
    }

    /** A header has been written before there was an external IV, or under the IV zero. */
    ghost predicate Unkeyed()
      reads this, raw
    {
      externalIV == 0 && haveHeader && raw.content != []
    }

    /** The first external IV is only noted: a header that is there already is taken to be coded
        under it. A later one re-keys the header on disk. */
    method SetIV(iv: bv64)
      requires Valid()
      modifies this, raw
      ensures haveHeader || old(externalIV) == 0 ==> externalIV == iv
      ensures old(externalIV) == 0 ==> raw.content == old(raw.content)
      ensures !old(Unkeyed()) ==> Valid() && Store() == old(Store())
      ensures !old(Unkeyed()) && old(raw.content) != [] ==> IV() == old(IV())
      ensures haveHeader && old(externalIV) != 0 && old(raw.content) != [] ==>
        raw.content == Rekeyed(cipher, old(raw.content), old(externalIV), iv)
    {
      if externalIV == 0 {
        externalIV := iv;
      } else if haveHeader {
        if fileIV == 0 {
          InitHeader();
        }
        externalIV := iv;
        WriteHeader();
      }
    }

    method ReadOneBlock(off: nat) returns (data: seq<byte>)
      requires Valid() && OnBlock(off, bs)
      modifies this`fileIV, raw
      ensures Valid() && raw.content == old(raw.content)
      ensures Coding() == old(Coding()) && Store() == old(Store())
      ensures data == Coding().Decode(BlockOf(off, bs), Slice(Store(), off, bs))
      ensures var chunk, iv := Slice(Store(), off, bs), Xored(Word(BlockOf(off, bs)), IV());
        data ==
          if chunk == [] then []
          else if |chunk| != bs then if reverse then cipher.streamEncode(chunk, iv) else cipher.streamDecode(chunk, iv)
          else if reverse then cipher.blockEncode(chunk, iv)
          else if holes && AllZero(chunk) then chunk
          else cipher.blockDecode(chunk, iv)
    {
      hide *;
      LayerCode();
      var at := if haveHeader then off + HEADER_SIZE else off;
      data := raw.Read(at, bs);
      StoreSlice(off);
      ReadPart(BlockOf(off, bs), data);
      if data != [] {
        if haveHeader && fileIV == 0 {
          InitHeader();
        }
        LoadedCode();
        var code := CipherCode(cipher, reverse, holes, bs, fileIV);
        var iv := BlockIV(BlockOf(off, bs), fileIV);
        if |data| != bs {
          data := code.StreamRead(data, iv);
        } else {
          data := code.BlockRead(data, iv);
        }
      }
      SameRaw();
      CodeNow();
      DecodedAs(Coding(), BlockOf(off, bs), Slice(Store(), off, bs));
    }

    /** What lies at an offset of the store lies behind the header in the file. */
    lemma StoreSlice(off: nat)
      requires Valid()
      ensures Slice(raw.content, if haveHeader then off + HEADER_SIZE else off, bs) == Slice(Store(), off, bs)
      ensures Slice(Store(), off, bs) != [] ==> raw.content != []
      ensures |Slice(Store(), off, bs)| <= bs
    {
      if haveHeader {
        SliceBehindHeader(raw.content, off, bs);
      }
    }

    /** The part of a block that is there is decoded in one of the two modes. */
    lemma ReadPart(k: nat, chunk: seq<byte>)
      requires Valid() && |chunk| <= bs
      ensures var code := Coding();
        code.Decode(k, chunk) ==
          if chunk == [] then [] else if |chunk| != bs then code.StreamRead(chunk, BlockIV(k, code.fileIV))
          else code.BlockRead(chunk, BlockIV(k, code.fileIV))
    {
    }

    /** The block reads back under the IV of the file. */
    ghost predicate BlockKept(k: nat, x: seq<byte>) {
      Storable(CipherCode(cipher, reverse, holes, bs, ownIV), k, x)
    }

    /** Returns, for the proofs, the bytes that were written. What is written is the coding of the
        data, and it reads back as the data exactly if the block is storable. */
    method WriteOneBlock(off: nat, data: seq<byte>) returns (ghost chunk: seq<byte>)
      requires Valid() && OnBlock(off, bs) && 0 < |data| <= bs
      modifies this`fileIV, raw
      ensures Valid()
      ensures chunk == Coding().EncodeBlock(BlockOf(off, bs), data) && |chunk| == |data|
      ensures var iv := Xored(Word(BlockOf(off, bs)), IV());
        chunk ==
          if |data| != bs then if reverse then cipher.streamDecode(data, iv) else cipher.streamEncode(data, iv)
          else if reverse then cipher.blockDecode(data, iv)
          else cipher.blockEncode(data, iv)
      ensures Coding().Encodes(BlockOf(off, bs), chunk, data) <==> Storable(Coding(), BlockOf(off, bs), data)
      ensures BlockKept(BlockOf(off, bs), data) ==> Coding().Encodes(BlockOf(off, bs), chunk, data)
      ensures Store() == Overwrite(old(Store()), off, chunk)
      ensures old(Store()) != [] ==> Coding() == old(Coding())
      ensures old(raw.content) != [] ==> Coding() == old(Coding())
    {
      hide *;
      LayerCode();
      StoreInRaw();
      var i := BlockOf(off, bs);
      if haveHeader && fileIV == 0 {
        InitHeader();
      }
      if old(raw.content) != [] { SameRaw(); }
      LoadedCode();
      var code := CipherCode(cipher, reverse, holes, bs, fileIV);
      var coded := code.EncodeBlock(i, data);
      EncodeBlockRoundTrip(code, i, data);
      WriteBehind(off, coded);
      KeptNow(i, data);
      CodeNow();
      EncodedAs(Coding(), i, data);
      chunk := coded;
    }

    lemma CodeNow()
      ensures var code := Coding();
        && code.CipherCode? && code.cipher == cipher && code.reverse == reverse && code.holes == holes
        && code.data == bs && code.fileIV == IV()
    {
      hide IV;
    }

    twostate lemma SameRaw()
      requires raw.content == old(raw.content) && externalIV == old(externalIV)
      ensures Coding() == old(Coding()) && Store() == old(Store())
    {
    }

    lemma StoreInRaw()
      ensures Store() != [] ==> raw.content != []
    {
    }

    lemma LayerCode()
      requires Valid()
      ensures Coding().WellFormed() && Coding().CipherCode? && Coding().data == bs
      ensures bs > 1 && Coding().Header() == 0
    {
    }

    /** What is coded under the IV that is loaded is coded under the file's. */
    lemma LoadedCode()
      requires Valid() && (haveHeader ==> fileIV != 0)
      ensures Coding() == CipherCode(cipher, reverse, holes, bs, fileIV) && Coding().WellFormed()
      ensures bs == Coding().data && Coding().CipherCode?
    {
    }

    lemma KeptNow(k: nat, x: seq<byte>)
      requires Valid() && raw.content != []
      ensures BlockKept(k, x) ==> Storable(Coding(), k, x)
    {
      hide Storable;
    }

    /** Write to the store, behind the header if there is one. */
    method WriteBehind(off: nat, coded: seq<byte>)
      requires Valid() && coded != [] && (haveHeader ==> fileIV != 0)
      modifies raw
      ensures Valid() && Coding() == old(Coding()) && raw.content != []
      ensures Store() == Overwrite(old(Store()), off, coded)
    {
      hide Cipher.Lawful, HeaderIV, Overwrite;
      OverwriteSize(raw.content, off, coded);
      if haveHeader {
        WriteBehindHeader(raw.content, off, coded);
        raw.Write(off + HEADER_SIZE, coded);
      } else {
        raw.Write(off, coded);
      }
    }

    /** The part of `truncate` that cuts or extends the raw file. */
    method TruncateStore(size: nat)
      requires Valid() && (haveHeader ==> raw.content != [])
      modifies raw
      ensures Valid() && Store() == Resize(old(Store()), size) && Coding() == old(Coding())
    {
      if haveHeader {
        ResizeBehindHeader(raw.content, size);
        raw.Truncate(size + HEADER_SIZE);
      } else {
        raw.Truncate(size);
      }
    }
  }
}
