/** The two ways a layer codes a flat file block by block, and what block reads, block writes
    and cuts of the coded file (the "store") mean for the plain file under it.

    CipherFileIO codes a block of `data` bytes in place; MACFileIO puts `macBytes` bytes of MAC
    and `randBytes` random bytes before it. Everything after `Encodes` is common to both. */
module BlockCode {
  import opened Bytes
  import opened Options
  import opened CipherModel
  import opened Division
  import opened Offsets

  /** The IV of block `i`: its number, as a word, xor the IV of the file. */
  function BlockIV(i: nat, fileIV: bv64): bv64 {
    Xored(Word(i), fileIV)
  }

  /** The number of a block can be read off its IV, and so blocks of different numbers have
      different IVs. */
  lemma BlockIVIs(i: nat, fileIV: bv64)
    requires i < 0x1_0000_0000_0000_0000
    ensures Number(BlockIV(i, fileIV) ^ fileIV, 8) == i
  {
    hide Word, Number;
    XorBack(Word(i), fileIV);
    WordBack(i);
  }

  lemma XorBack(a: bv64, b: bv64)
    ensures Xored(a, b) ^ b == a
  {
  }

  lemma OtherBlockIV(i: nat, j: nat, fileIV: bv64)
    requires i < j < 0x1_0000_0000_0000_0000
    ensures BlockIV(i, fileIV) != BlockIV(j, fileIV)
  {
    hide BlockIV, Number;
    BlockIVIs(i, fileIV);
    BlockIVIs(j, fileIV);
  }

  datatype Code =
    | CipherCode(cipher: Cipher, reverse: bool, holes: bool, data: nat, fileIV: bv64)
    | MacCode(cipher: Cipher, macBytes: nat, randBytes: nat, holes: bool, data: nat)
  {
    function Header(): nat {
      if CipherCode? then 0 else macBytes + randBytes
    }

    function Raw(): nat {
      data + Header()
    }

    /** What the configuration must respect: the constructors' assertions, and whole cipher blocks. */
    ghost predicate WellFormed() {
      && data > 1
      && cipher.Lawful()
      && (CipherCode? ==> data % cipher.blockSize == 0)
      && (MacCode? ==> macBytes <= 8)
    }

    /** A block of zeros that was never written reads as zeros. Reverse encryption has no such
        blocks, whatever the configuration says. */
    predicate HolesRead() {
      holes && (CipherCode? ==> !reverse)
    }

    // ----- One block of the cipher layer ----------------------------------------------------

    function BlockWrite(x: seq<byte>, iv: bv64): seq<byte>
      requires CipherCode?
    {
      if !reverse then cipher.blockEncode(x, iv) else cipher.blockDecode(x, iv)
    }

    function StreamWrite(x: seq<byte>, iv: bv64): seq<byte>
      requires CipherCode?
    {
      if !reverse then cipher.streamEncode(x, iv) else cipher.streamDecode(x, iv)
    }

    /** With holes allowed, an all-zero block is left alone. */
    function BlockRead(x: seq<byte>, iv: bv64): seq<byte>
      requires CipherCode?
    {
      if reverse then cipher.blockEncode(x, iv)
      else if holes && AllZero(x) then x
      else cipher.blockDecode(x, iv)
    }

    function StreamRead(x: seq<byte>, iv: bv64): seq<byte>
      requires CipherCode?
    {
      if reverse then cipher.streamEncode(x, iv) else cipher.streamDecode(x, iv)
    }

    /** Full blocks in block mode, a shorter last block in stream mode, under the block's number
        xor the file's IV. */
    function EncodeBlock(i: nat, x: seq<byte>): seq<byte>
      requires CipherCode?
    {
      var iv := BlockIV(i, fileIV);
      if |x| != data then StreamWrite(x, iv) else BlockWrite(x, iv)
    }

    // ----- One block of the MAC layer -------------------------------------------------------

    /** The MAC is over the random bytes and the data, and its low bytes come first. */
    function Frame(rand: seq<byte>, x: seq<byte>): seq<byte>
      requires MacCode?
    {
      FrameHead(rand, x) + x
    }

    function FrameHead(rand: seq<byte>, x: seq<byte>): seq<byte>
      requires MacCode?
    {
      LittleEndian(cipher.mac64(rand + x, None), macBytes) + rand
    }

    /** The comparison a read makes before it gives data out; a block without data is not compared. */
    predicate Verified(chunk: seq<byte>) {
      MacCode? && |chunk| > Header() ==>
        || (if holes then AllZero(chunk) else macBytes == 0)
        || LittleEndian(cipher.mac64(chunk[macBytes..], None), macBytes) == chunk[..macBytes]
    }

    // ----- Both -----------------------------------------------------------------------------

    /** The data in block `i` of the store, given the bytes of the store that are there. */
    function Decode(i: nat, chunk: seq<byte>): seq<byte> {
      if |chunk| <= Header() then []
      else if MacCode? then chunk[Header()..]
      else if |chunk| != data then StreamRead(chunk, BlockIV(i, fileIV))
      else BlockRead(chunk, BlockIV(i, fileIV))
    }

    predicate Encodes(i: nat, chunk: seq<byte>, x: seq<byte>) {
      |chunk| == Header() + |x| && Decode(i, chunk) == x && Verified(chunk)
    }
  }

  /** A full block can be stored where holes are allowed unless it encodes to zeros, which would be
      taken for a hole, without being zero itself. */
  predicate Storable(code: Code, i: nat, x: seq<byte>)
    requires code.CipherCode?
  {
    code.HolesRead() && |x| == code.data && AllZero(code.EncodeBlock(i, x)) ==> AllZero(x)
  }

  /** What the cipher layer stores for block `i`, in terms of the cipher: a full block in block
      mode, a shorter one in stream mode, under the number xor the IV of the file. */
  lemma EncodedAs(code: Code, i: nat, x: seq<byte>)
    requires code.CipherCode?
    ensures var c, iv := code.cipher, Xored(Word(i), code.fileIV);
      code.EncodeBlock(i, x) ==
        if |x| != code.data then if code.reverse then c.streamDecode(x, iv) else c.streamEncode(x, iv)
        else if code.reverse then c.blockDecode(x, iv)
        else c.blockEncode(x, iv)
  {
    hide Word, Cipher.Lawful, Xored;
  }

  /** And what a chunk of block `i` is read as: a full block of zeros may be a hole. */
  lemma DecodedAs(code: Code, i: nat, chunk: seq<byte>)
    requires code.CipherCode?
    ensures var c, iv := code.cipher, Xored(Word(i), code.fileIV);
      code.Decode(i, chunk) ==
        if chunk == [] then []
        else if |chunk| != code.data then if code.reverse then c.streamEncode(chunk, iv) else c.streamDecode(chunk, iv)
        else if code.reverse then c.blockEncode(chunk, iv)
        else if code.holes && AllZero(chunk) then chunk
        else c.blockDecode(chunk, iv)
  {
    hide Word, Cipher.Lawful, Xored, AllZero;
  }

  lemma DecodeSize(code: Code, i: nat, chunk: seq<byte>)
    requires code.WellFormed() && |chunk| <= code.Raw()
    ensures |code.Decode(i, chunk)| == Max(|chunk| - code.Header(), 0)
  {
    hide BlockIV;
  }

  /** What the cipher layer writes for a block, it reads back, exactly if the block is storable. */
  lemma EncodeBlockRoundTrip(code: Code, i: nat, x: seq<byte>)
    requires code.CipherCode? && code.WellFormed() && 0 < |x| <= code.data
    ensures |code.EncodeBlock(i, x)| == |x|
    ensures code.Encodes(i, code.EncodeBlock(i, x), x) <==> Storable(code, i, x)
  {
    hide BlockIV;
    var c := code.EncodeBlock(i, x);
    if code.HolesRead() && |x| == code.data && AllZero(c) && AllZero(x) {
      assert c == x;
    }
  }

  /** For each IV that is at most one block: the one that zeros decode to. */
  lemma UnstorableBlock(code: Code, i: nat, x: seq<byte>)
    requires code.CipherCode? && code.WellFormed()
    ensures var zeros := Zeros(code.data);
      !Storable(code, i, x) <==>
        code.HolesRead() && x == code.cipher.blockDecode(zeros, BlockIV(i, code.fileIV)) && x != zeros
  {
    hide BlockIV;
    var iv, zeros := BlockIV(i, code.fileIV), Zeros(code.data);
    assert code.cipher.Blocks(zeros);
    if !Storable(code, i, x) {
      assert code.EncodeBlock(i, x) == zeros;
    }
    if code.HolesRead() && x == code.cipher.blockDecode(zeros, iv) && x != zeros {
      assert code.EncodeBlock(i, x) == zeros;
      assert |x| == code.data && (AllZero(x) ==> x == zeros);
    }
  }

  /** A block with data matches its MAC exactly if its first bytes are those of the MAC of the rest,
      and with holes allowed a block of zeros always does. */
  lemma VerifiedExactly(code: Code, chunk: seq<byte>)
    requires code.MacCode? && code.macBytes <= 8 && |chunk| > code.macBytes + code.randBytes
    ensures code.Verified(chunk) <==>
      || (code.holes && AllZero(chunk))
      || chunk[..code.macBytes] == WordBytes(code.cipher.mac64(chunk[code.macBytes..], None))[..code.macBytes]
  {
    hide LittleEndian, WordBytes;
    LittleEndianIs(code.cipher.mac64(chunk[code.macBytes..], None), code.macBytes);
  }

  /** The frame has the MAC of the random bytes and the data, then those. */
  lemma FrameExactly(code: Code, rand: seq<byte>, x: seq<byte>)
    requires code.MacCode? && code.macBytes <= 8
    ensures code.Frame(rand, x) == WordBytes(code.cipher.mac64(rand + x, None))[..code.macBytes] + rand + x
  {
    hide LittleEndian, WordBytes;
    LittleEndianIs(code.cipher.mac64(rand + x, None), code.macBytes);
  }

  lemma FrameParts(code: Code, rand: seq<byte>, x: seq<byte>)
    requires code.MacCode? && code.macBytes <= 8 && |rand| == code.randBytes
    ensures var m, frame := code.macBytes, code.Frame(rand, x);
      && |frame| == code.Header() + |x| && frame[code.Header()..] == x
      && frame[..m] == WordBytes(code.cipher.mac64(frame[m..], None))[..m]
  {
    hide LittleEndian, WordBytes;
    FrameExactly(code, rand, x);
    assert code.Frame(rand, x)[code.macBytes..] == rand + x;
  }

  /** What the MAC layer writes for a block, it accepts and reads back. */
  lemma FrameRoundTrip(code: Code, i: nat, rand: seq<byte>, x: seq<byte>)
    requires code.MacCode? && |rand| == code.randBytes && x != []
    ensures code.Encodes(i, code.Frame(rand, x), x)
  {
    var f := code.Frame(rand, x);
    assert f[code.macBytes..] == rand + x;
    assert f[code.Header()..] == x;
  }

  /** A hole is a block of zeros, and passes the MAC comparison. */
  lemma DecodeHole(code: Code, i: nat)
    requires code.WellFormed() && code.HolesRead()
    ensures code.Encodes(i, Zeros(code.Raw()), Zeros(code.data))
  {
    assert code.Decode(i, Zeros(code.Raw())) == Zeros(code.data);
  }

  /** Conversely every raw block is the encoding of what it decodes to, unless it is a hole. */
  lemma DecodeIsEncoding(code: Code, i: nat, chunk: seq<byte>)
    requires code.CipherCode? && code.WellFormed() && 0 < |chunk| <= code.data
    ensures code.EncodeBlock(i, code.Decode(i, chunk)) == chunk
         || (code.HolesRead() && chunk == Zeros(code.data) && code.Decode(i, chunk) == chunk)
  {
    hide BlockIV;
    if code.HolesRead() && |chunk| == code.data && AllZero(chunk) {
      assert chunk == Zeros(code.data);
    }
  }

  /** What is read is storable. */
  lemma DecodedIsStorable(code: Code, i: nat, chunk: seq<byte>)
    requires code.CipherCode? && code.WellFormed() && 0 < |chunk| <= code.data
    ensures Storable(code, i, code.Decode(i, chunk))
  {
    DecodeIsEncoding(code, i, chunk);
    hide BlockIV;
    if AllZero(chunk) && code.HolesRead() && |chunk| == code.data {
      assert AllZero(code.Decode(i, chunk));
    }
  }

  // ----- The plain file under a store -------------------------------------------------------

  function First(code: Code, store: seq<byte>): seq<byte> {
    store[..Min(code.Raw(), |store|)]
  }

  function Rest(code: Code, store: seq<byte>): seq<byte> {
    store[Min(code.Raw(), |store|)..]
  }

  /** The plain bytes of a store whose first block has number `i`. */
  function Plain(code: Code, i: nat, store: seq<byte>): seq<byte>
    requires code.Raw() > 0
    decreases |store|
  {
    if store == [] then []
    else code.Decode(i, First(code, store)) + Plain(code, i + 1, Rest(code, store))
  }

  /** The blocks of a plain file whose first block has number `i` are storable. */
  predicate AllStorable(code: Code, i: nat, c: seq<byte>)
    requires code.CipherCode? && code.data > 0
    decreases |c|
  {
    var n := Min(code.data, |c|);
    c == [] || (Storable(code, i, c[..n]) && AllStorable(code, i + 1, c[n..]))
  }

  /** The store a plain file is written to. */
  function CodedStore(code: Code, i: nat, c: seq<byte>): seq<byte>
    requires code.CipherCode? && code.data > 0
    decreases |c|
  {
    var n := Min(code.data, |c|);
    if c == [] then [] else code.EncodeBlock(i, c[..n]) + CodedStore(code, i + 1, c[n..])
  }

  /** Every plain file that a store can have is storable. */
  lemma {:induction false} PlainIsStorable(code: Code, i: nat, store: seq<byte>)
    requires code.CipherCode? && code.WellFormed()
    ensures AllStorable(code, i, Plain(code, i, store))
    decreases |store|
  {
    hide Cipher.Lawful, BlockIV, Storable;
    if store != [] {
      var first, rest := code.Decode(i, First(code, store)), Plain(code, i + 1, Rest(code, store));
      DecodeSize(code, i, First(code, store));
      DecodedIsStorable(code, i, First(code, store));
      PlainIsStorable(code, i + 1, Rest(code, store));
      if |store| > code.data {
        assert (first + rest)[..code.data] == first && (first + rest)[code.data..] == rest;
      } else {
        assert rest == [] && first + rest == first;
        assert first[..|first|] == first && first[|first|..] == [];
      }
    }
  }

  /** And every storable file has a store. */
  lemma {:induction false} StorableIsPlain(code: Code, i: nat, c: seq<byte>)
    requires code.CipherCode? && code.WellFormed() && AllStorable(code, i, c)
    ensures Plain(code, i, CodedStore(code, i, c)) == c && |CodedStore(code, i, c)| == |c|
    decreases |c|
  {
    hide Cipher.Lawful, BlockIV, Storable, Code.Decode, Code.EncodeBlock;
    if c != [] {
      var n := Min(code.data, |c|);
      var chunk, rest := code.EncodeBlock(i, c[..n]), CodedStore(code, i + 1, c[n..]);
      EncodeBlockRoundTrip(code, i, c[..n]);
      StorableIsPlain(code, i + 1, c[n..]);
      PlainStep(code, i, chunk + rest);
      if |c| > code.data {
        assert First(code, chunk + rest) == chunk && Rest(code, chunk + rest) == rest;
      } else {
        assert rest == [] && chunk + rest == chunk;
        assert First(code, chunk) == chunk && Rest(code, chunk) == [];
      }
      assert c[..n] + c[n..] == c;
    }
  }

  /** Each full block of a storable file is storable. */
  lemma {:induction false} StorableAt(code: Code, i: nat, c: seq<byte>, k: nat)
    requires code.CipherCode? && code.data > 0 && AllStorable(code, i, c) && Span(k + 1, code.data) <= |c|
    ensures Span(k, code.data) + code.data == Span(k + 1, code.data)
    ensures Storable(code, i + k, c[Span(k, code.data)..Span(k + 1, code.data)])
    decreases k
  {
    hide Storable, Code.EncodeBlock, Span;
    SpanNext(k + 1, code.data);
    if k == 0 {
      SpanNone(code.data);
    } else {
      var n := code.data;
      SpanNext(k, n);
      StorableAt(code, i + 1, c[n..], k - 1);
      SliceBehind(c, n, Span(k - 1, n), Span(k, n));
    }
  }

  lemma SliceBehind(c: seq<byte>, n: nat, from: nat, to: nat)
    requires from <= to && n + to <= |c|
    ensures c[n..][from..to] == c[n + from..n + to]
  {
  }

  /** So a plain file can be stored exactly if all its full blocks are storable. */
  lemma StorableExactly(code: Code, c: seq<byte>)
    requires code.CipherCode? && code.WellFormed()
    ensures AllStorable(code, 0, c) <==> exists store :: Plain(code, 0, store) == c
  {
    if AllStorable(code, 0, c) {
      StorableIsPlain(code, 0, c);
    }
    forall store | Plain(code, 0, store) == c ensures AllStorable(code, 0, c) {
      PlainIsStorable(code, 0, store);
    }
  }

  /** Every block of the store passes the MAC comparison. */
  predicate AllVerified(code: Code, store: seq<byte>)
    requires code.Raw() > 0
    decreases |store|
  {
    store == [] || (code.Verified(First(code, store)) && AllVerified(code, Rest(code, store)))
  }

  /** No block of the store stops inside its header. */
  predicate Framed(code: Code, n: nat)
    requires code.Raw() > 0
    decreases n
  {
    n == 0 || (if n <= code.Raw() then n > code.Header() else Framed(code, n - code.Raw()))
  }

  lemma Peel(code: Code, a: seq<byte>, b: seq<byte>)
    requires code.Raw() > 0 && |a| >= code.Raw()
    ensures First(code, a + b) == First(code, a) && |First(code, a)| == code.Raw()
    ensures Rest(code, a + b) == Rest(code, a) + b && |Rest(code, a)| == |a| - code.Raw()
  {
  }

  lemma PlainStep(code: Code, i: nat, store: seq<byte>)
    requires code.Raw() > 0 && store != []
    ensures Plain(code, i, store) == code.Decode(i, First(code, store)) + Plain(code, i + 1, Rest(code, store))
  {
  }

  lemma Assoc(f: seq<byte>, p: seq<byte>, q: seq<byte>)
    ensures (f + p) + q == f + (p + q)
  {
  }

  /** A first whole block. */
  lemma PlainPeel(code: Code, i: nat, a: seq<byte>, b: seq<byte>)
    requires code.WellFormed() && |a| >= code.Raw()
    ensures var f := code.Decode(i, First(code, a));
      && |f| == code.data
      && Plain(code, i, a) == f + Plain(code, i + 1, Rest(code, a))
      && Plain(code, i, a + b) == f + Plain(code, i + 1, Rest(code, a) + b)
  {
    hide Cipher.Lawful, BlockIV;
    Peel(code, a, b);
    DecodeSize(code, i, First(code, a));
    assert code.Raw() == code.data + code.Header() && a != [] && a + b != [];
    hide Code.Decode, First, Rest;
    PlainStep(code, i, a);
    PlainStep(code, i, a + b);
  }

  /** Whole blocks decode independently of what follows them. */
  lemma {:induction false} PlainConcat(code: Code, i: nat, a: seq<byte>, b: seq<byte>, k: nat)
    requires code.WellFormed() && |a| == Span(k, code.Raw())
    ensures Plain(code, i, a + b) == Plain(code, i, a) + Plain(code, i + k, b)
    ensures |Plain(code, i, a)| == Span(k, code.data)
    decreases k
  {
    hide *;
    EmptyStore(code);
    WholeBlocks(code, i, a, k);
    if k == 0 {
      SpanNone(code.Raw());
      NothingBefore(code, i, a, b);
    } else {
      SpanNext(k, code.Raw());
      Peel(code, a, b);
      PlainPeel(code, i, a, b);
      PlainConcat(code, i + 1, Rest(code, a), b, k - 1);
      assert i + 1 + (k - 1) == i + k;
      Assoc(code.Decode(i, First(code, a)), Plain(code, i + 1, Rest(code, a)), Plain(code, i + k, b));
    }
  }

  lemma NothingBefore(code: Code, i: nat, a: seq<byte>, b: seq<byte>)
    requires code.Raw() > 0 && a == []
    ensures Plain(code, i, a + b) == Plain(code, i, a) + Plain(code, i, b)
  {
    assert a + b == b;
  }

  lemma {:induction false} WholeBlocks(code: Code, i: nat, a: seq<byte>, k: nat)
    requires code.WellFormed() && |a| == Span(k, code.Raw())
    ensures |Plain(code, i, a)| == Span(k, code.data)
    decreases k
  {
    hide Cipher.Lawful, BlockIV, Span, Code.Decode;
    if k == 0 {
      SpanNone(code.Raw());
      SpanNone(code.data);
      assert a == [];
    } else {
      SpanNext(k, code.Raw());
      SpanNext(k, code.data);
      DecodeSize(code, i, First(code, a));
      WholeBlocks(code, i + 1, Rest(code, a), k - 1);
    }
  }

  lemma {:induction false} VerifiedConcat(code: Code, a: seq<byte>, b: seq<byte>, k: nat)
    requires code.WellFormed() && |a| == Span(k, code.Raw())
    ensures AllVerified(code, a + b) <==> AllVerified(code, a) && AllVerified(code, b)
    decreases k
  {
    hide Cipher.Lawful, BlockIV, Span;
    if k == 0 {
      SpanNone(code.Raw());
      assert a == [] && a + b == b;
    } else {
      SpanNext(k, code.Raw());
      Peel(code, a, b);
      assert a != [] && a + b != [];
      hide Code.Verified, Code.Raw, First, Rest;
      VerifiedConcat(code, Rest(code, a), b, k - 1);
    }
  }

  lemma {:induction false} FramedConcat(code: Code, k: nat, n: nat)
    requires code.WellFormed()
    ensures Framed(code, Span(k, code.Raw()) + n) == Framed(code, n)
    decreases k
  {
    hide Cipher.Lawful, BlockIV, Span;
    if k == 0 {
      SpanNone(code.Raw());
    } else {
      SpanNext(k, code.Raw());
      FramedConcat(code, k - 1, n);
    }
  }

  /** A store of at most `k` blocks holds at most `k` blocks of data. */
  lemma {:induction false} PlainBound(code: Code, i: nat, store: seq<byte>, k: nat)
    requires code.WellFormed() && |store| <= Span(k, code.Raw())
    ensures |Plain(code, i, store)| <= Span(k, code.data)
    decreases k
  {
    hide Cipher.Lawful, BlockIV, Span, Code.Decode;
    if store != [] {
      if k == 0 { SpanNone(code.Raw()); }
      SpanNext(k, code.Raw());
      SpanNext(k, code.data);
      DecodeSize(code, i, First(code, store));
      PlainBound(code, i + 1, Rest(code, store), k - 1);
    }
  }

  /** A single block, whole or not. */
  lemma PlainOne(code: Code, i: nat, chunk: seq<byte>)
    requires code.WellFormed() && |chunk| <= code.Raw()
    ensures Plain(code, i, chunk) == code.Decode(i, chunk)
    ensures AllVerified(code, chunk) <==> code.Verified(chunk)
    ensures Framed(code, |chunk|) <==> |chunk| == 0 || |chunk| > code.Header()
  {
    hide Cipher.Lawful, BlockIV;
    if chunk != [] {
      assert First(code, chunk) == chunk && Rest(code, chunk) == [];
    }
  }

  /** Block `k` of the plain file is what block `k` of the store decodes to. */
  lemma ReadBlock(code: Code, store: seq<byte>, k: nat, at: nat, pt: nat)
    requires code.WellFormed() && at == Span(k, code.Raw()) && pt == Span(k, code.data)
    ensures Slice(Plain(code, 0, store), pt, code.data) == code.Decode(k, Slice(store, at, code.Raw()))
  {
    hide *;
    EmptyStore(code);
    if at >= |store| {
      PlainBound(code, 0, store, k);
      NoData(code, k);
      NoSlice(Plain(code, 0, store), pt, code.data);
      NoSlice(store, at, code.Raw());
    } else {
      var a, b := store[..at], store[at..];
      assert store == a + b && b != [];
      PlainConcat(code, 0, a, b, k);
      PlainFirst(code, k, b);
      FirstSlice(code, store, at);
      SliceConcat(Plain(code, 0, a), Plain(code, k, b), code.data);
    }
  }

  lemma NoData(code: Code, k: nat)
    ensures code.Decode(k, []) == []
  {
  }

  lemma NoSlice(s: seq<byte>, at: nat, n: nat)
    requires at >= |s|
    ensures Slice(s, at, n) == []
  {
  }

  lemma FirstSlice(code: Code, store: seq<byte>, at: nat)
    requires code.Raw() > 0 && at < |store|
    ensures Slice(store, at, code.Raw()) == First(code, store[at..])
  {
    hide Code.Raw;
  }

  lemma PlainFirst(code: Code, i: nat, store: seq<byte>)
    requires code.WellFormed() && store != []
    ensures var p := Plain(code, i, store); p[..Min(code.data, |p|)] == code.Decode(i, First(code, store))
  {
    hide Cipher.Lawful, BlockIV;
    hide Code.Decode;
    var f := code.Decode(i, First(code, store));
    DecodeSize(code, i, First(code, store));
    assert Plain(code, i, store) == f + Plain(code, i + 1, Rest(code, store));
  }

  /** Cutting a store before block `k` cuts the plain file there. */
  lemma CutStore(code: Code, store: seq<byte>, k: nat, at: nat, pt: nat)
    requires code.WellFormed() && at == Span(k, code.Raw()) && pt == Span(k, code.data) && at <= |store|
    ensures pt <= |Plain(code, 0, store)| && Plain(code, 0, store[..at]) == Plain(code, 0, store)[..pt]
    ensures AllVerified(code, store) ==> AllVerified(code, store[..at])
    ensures Framed(code, at)
  {
    hide *;
    EmptyStore(code);
    var a, b := store[..at], store[at..];
    assert store == a + b;
    PlainConcat(code, 0, a, b, k);
    VerifiedConcat(code, a, b, k);
    FramedConcat(code, k, 0);
  }

  /** Block `k` put behind the first `k` blocks. */
  lemma AppendBlock(code: Code, a: seq<byte>, k: nat, chunk: seq<byte>, x: seq<byte>)
    requires code.WellFormed() && |a| == Span(k, code.Raw())
    requires code.Encodes(k, chunk, x) && 0 < |x| <= code.data
    ensures Plain(code, 0, a + chunk) == Plain(code, 0, a) + x
    ensures AllVerified(code, a) ==> AllVerified(code, a + chunk)
    ensures Framed(code, |a + chunk|)
  {
    hide *;
    EmptyStore(code);
    WholeChunk(code, k, chunk, x);
    HasData(code, x);
    PlainConcat(code, 0, a, chunk, k);
    PlainOne(code, k, chunk);
    VerifiedConcat(code, a, chunk, k);
    FramedConcat(code, k, |chunk|);
    assert |a + chunk| == |a| + |chunk|;
  }

  /** Whole blocks of zeros behind the first `k` blocks, where holes are allowed. */
  lemma AppendHoles(code: Code, a: seq<byte>, k: nat, n: nat, m: nat, d: nat)
    requires code.WellFormed() && code.HolesRead() && |a| == Span(k, code.Raw())
    requires m == Span(n, code.Raw()) && d == Span(n, code.data)
    ensures Plain(code, 0, a + Zeros(m)) == Plain(code, 0, a) + Zeros(d)
    ensures AllVerified(code, a) ==> AllVerified(code, a + Zeros(m))
  {
    hide *;
    EmptyStore(code);
    HolesOnly(code, k, n, m, d);
    PlainConcat(code, 0, a, Zeros(m), k);
    VerifiedConcat(code, a, Zeros(m), k);
  }

  lemma {:induction false} HolesOnly(code: Code, i: nat, n: nat, m: nat, d: nat)
    requires code.WellFormed() && code.HolesRead() && m == Span(n, code.Raw()) && d == Span(n, code.data)
    ensures Plain(code, i, Zeros(m)) == Zeros(d) && AllVerified(code, Zeros(m))
    decreases n
  {
    hide *;
    EmptyStore(code);
    if n == 0 {
      SpanNone(code.Raw());
      SpanNone(code.data);
      NoZeros(code, i);
    } else {
      SpanNext(n, code.Raw());
      SpanNext(n, code.data);
      FirstHole(code, i, m - code.Raw());
      HolesOnly(code, i + 1, n - 1, m - code.Raw(), d - code.data);
      MoreZeros(code.data, d - code.data);
    }
  }

  lemma NoZeros(code: Code, i: nat)
    requires code.WellFormed()
    ensures Plain(code, i, Zeros(0)) == Zeros(0) && AllVerified(code, Zeros(0))
  {
    hide Cipher.Lawful;
    assert Zeros(0) == [];
  }

  lemma FirstHole(code: Code, i: nat, m: nat)
    requires code.WellFormed() && code.HolesRead()
    ensures Plain(code, i, Zeros(code.Raw() + m)) == Zeros(code.data) + Plain(code, i + 1, Zeros(m))
    ensures AllVerified(code, Zeros(code.Raw() + m)) <==> AllVerified(code, Zeros(m))
  {
    hide *;
    var a, b := Zeros(code.Raw()), Zeros(m);
    EmptyStore(code);
    DecodeHole(code, i);
    WholeChunk(code, i, a, Zeros(code.data));
    MoreZeros(code.Raw(), m);
    WholeFirst(code, a, b);
    PlainStep(code, i, a + b);
    VerifiedStep(code, a + b);
  }

  lemma WholeFirst(code: Code, a: seq<byte>, b: seq<byte>)
    requires code.Raw() > 0 && |a| == code.Raw()
    ensures a + b != [] && First(code, a + b) == a && Rest(code, a + b) == b
  {
  }

  lemma VerifiedStep(code: Code, store: seq<byte>)
    requires code.Raw() > 0 && store != []
    ensures AllVerified(code, store) <==> code.Verified(First(code, store)) && AllVerified(code, Rest(code, store))
  {
    hide Code.Verified;
  }

  lemma MoreZeros(m: nat, n: nat)
    ensures Zeros(m + n) == Zeros(m) + Zeros(n) && |Zeros(m)| == m
  {
  }

  /** Where a plain offset is in the store. */
  function StoreOffset(code: Code, n: nat): nat
    requires code.data > 0
  {
    LocWithHeader(n, code.Raw(), code.Header())
  }

  /** The size of a framed store, from the plain size and back. */
  lemma {:induction false} PlainSize(code: Code, i: nat, store: seq<byte>)
    requires code.WellFormed() && Framed(code, |store|)
    ensures |store| == StoreOffset(code, |Plain(code, i, store)|)
    ensures |Plain(code, i, store)| == LocWithoutHeader(|store|, code.Raw(), code.Header())
    decreases |store|
  {
    hide Cipher.Lawful, BlockIV;
    hide Code.Decode, LocWithHeader, LocWithoutHeader;
    var s, h := code.Raw(), code.Header();
    if |store| <= s {
      PlainOne(code, i, store);
      DecodeSize(code, i, store);
      LocFirst(|store|, s, h);
      LocFirst(Max(|store| - h, 0), s, h);
    } else {
      DecodeSize(code, i, First(code, store));
      PlainSize(code, i + 1, Rest(code, store));
      LocStep(|store| - s, s, h);
      LocStep(|Plain(code, i + 1, Rest(code, store))|, s, h);
    }
  }

  lemma StoreMonotone(code: Code, m: nat, n: nat)
    requires code.data > 0
    ensures m <= n <==> StoreOffset(code, m) <= StoreOffset(code, n)
  {
    hide Cipher.Lawful, BlockIV;
    if m < n { LocMonotone(m, n, code.Raw(), code.Header()); }
    if n < m { LocMonotone(n, m, code.Raw(), code.Header()); }
  }

  /** Where a block of the store is, and where it ends if it holds `n` bytes of data. */
  lemma StoreBlock(code: Code, k: nat, n: nat)
    requires code.data > 0 && n <= code.data
    ensures StoreOffset(code, Span(k, code.data)) == Span(k, code.Raw())
    ensures n > 0 ==> StoreOffset(code, Span(k, code.data) + n) == Span(k, code.Raw()) + code.Header() + n
  {
    hide Cipher.Lawful, BlockIV;
    LocShift(k, n, code.Raw(), code.Header());
    LocFirst(n, code.Raw(), code.Header());
    LocOfBlock(k, code.Raw(), code.Header());
  }

  /** A block written where the plain file already reaches: a whole block, or the last one. */
  lemma WriteBlock(code: Code, store: seq<byte>, k: nat, at: nat, pt: nat, chunk: seq<byte>, x: seq<byte>)
    requires code.WellFormed() && Framed(code, |store|)
    requires at == Span(k, code.Raw()) && pt == Span(k, code.data)
    requires code.Encodes(k, chunk, x) && 0 < |x| <= code.data
    requires pt <= |Plain(code, 0, store)|
    requires |x| == code.data || pt + |x| >= |Plain(code, 0, store)|
    ensures Plain(code, 0, Overwrite(store, at, chunk)) == Overwrite(Plain(code, 0, store), pt, x)
    ensures Framed(code, |Overwrite(store, at, chunk)|)
    ensures AllVerified(code, store) ==> AllVerified(code, Overwrite(store, at, chunk))
  {
    hide Cipher.Lawful, BlockIV, Span;
    hide Code.Decode, Code.Verified, Plain, AllVerified, Framed, StoreOffset;
    var p := Plain(code, 0, store);
    assert at <= |store| && (at + |chunk| >= |store| <==> pt + |x| >= |p|) by {
      PlainSize(code, 0, store);
      StoreBlock(code, k, |x|);
      StoreMonotone(code, pt, |p|);
      StoreMonotone(code, |p|, pt + |x|);
    }
    if at + |chunk| >= |store| {
      CutStore(code, store, k, at, pt);
      AppendBlock(code, store[..at], k, chunk, x);
      OverwriteEnd(store, at, chunk);
      OverwriteEnd(p, pt, x);
    } else {
      OverwriteMiddle(store, at, chunk);
      WriteTail(code, store, k, at, pt, chunk, x);
    }
  }

  /** The whole-block case with blocks behind it. */
  lemma WriteTail(code: Code, store: seq<byte>, k: nat, at: nat, pt: nat, chunk: seq<byte>, x: seq<byte>)
    requires code.WellFormed() && Framed(code, |store|)
    requires at == Span(k, code.Raw()) && pt == Span(k, code.data)
    requires code.Encodes(k, chunk, x) && |x| == code.data && at + |chunk| <= |store|
    ensures var r := store[..at] + chunk + store[at + |chunk|..];
      && Plain(code, 0, r) == Overwrite(Plain(code, 0, store), pt, x)
      && Framed(code, |r|)
      && (AllVerified(code, store) ==> AllVerified(code, r))
  {
    hide *;
    EmptyStore(code);
    WholeChunk(code, k, chunk, x);
    SpanNext(k + 1, code.Raw());
    SpanNext(k + 1, code.data);
    var n := at + |chunk|;
    var a, c, p := store[..at], store[n..], Plain(code, 0, store);
    CutStore(code, store, k, at, pt);
    CutStore(code, store, k + 1, n, pt + |x|);
    AppendBlock(code, a, k, chunk, x);
    BehindBlocks(code, store[..n], c, k + 1);
    BehindBlocks(code, a + chunk, c, k + 1);
    assert store == store[..n] + c;
    PutBetween(p, pt, x, Plain(code, k + 1, c));
  }

  lemma HasData(code: Code, x: seq<byte>)
    requires x != []
    ensures code.Header() + |x| > code.Header() && code.Header() + |x| > 0
  {
  }

  lemma WholeChunk(code: Code, k: nat, chunk: seq<byte>, x: seq<byte>)
    requires code.Encodes(k, chunk, x)
    ensures |x| == code.data ==> |chunk| == code.Raw()
    ensures |x| <= code.data ==> |chunk| <= code.Raw()
    ensures |chunk| == code.Header() + |x| && code.Decode(k, chunk) == x && code.Verified(chunk)
  {
    hide Code.Decode, Code.Verified;
  }

  /** What is behind whole blocks does not depend on them. */
  lemma BehindBlocks(code: Code, a: seq<byte>, b: seq<byte>, k: nat)
    requires code.WellFormed() && |a| == Span(k, code.Raw())
    ensures Plain(code, 0, a + b) == Plain(code, 0, a) + Plain(code, k, b)
    ensures |Plain(code, 0, a)| == Span(k, code.data)
    ensures AllVerified(code, a + b) <==> AllVerified(code, a) && AllVerified(code, b)
    ensures Framed(code, |a + b|) <==> Framed(code, |b|)
  {
    hide *;
    EmptyStore(code);
    PlainConcat(code, 0, a, b, k);
    VerifiedConcat(code, a, b, k);
    FramedConcat(code, k, |b|);
    assert |a + b| == Span(k, code.Raw()) + |b|;
  }

  lemma PutBetween(p: seq<byte>, at: nat, x: seq<byte>, rest: seq<byte>)
    requires at + |x| <= |p| && x != [] && p == p[..at + |x|] + rest
    ensures Overwrite(p, at, x) == p[..at] + x + rest
  {
    OverwriteMiddle(p, at, x);
    assert p[at + |x|..] == rest;
  }

  /** Where holes are allowed, extending a store of whole blocks by whole blocks extends the
      plain file with zeros. */
  lemma GrowHoles(code: Code, store: seq<byte>, m: nat, k: nat, at: nat, pt: nat)
    requires code.WellFormed() && code.HolesRead() && m <= k
    requires |store| == Span(m, code.Raw()) && at == Span(k, code.Raw()) && pt == Span(k, code.data)
    ensures |Plain(code, 0, store)| == Span(m, code.data) && |store| <= at && |Plain(code, 0, store)| <= pt
    ensures Plain(code, 0, Resize(store, at)) == Resize(Plain(code, 0, store), pt)
    ensures Framed(code, at)
    ensures AllVerified(code, store) ==> AllVerified(code, Resize(store, at))
  {
    hide *;
    EmptyStore(code);
    WholeBlocks(code, 0, store, m);
    FramedConcat(code, k, 0);
    SpanSplit(k, m, code.Raw());
    SpanSplit(k, m, code.data);
    AppendHoles(code, store, m, k - m, Span(k - m, code.Raw()), Span(k - m, code.data));
    ResizeMore(store, at, Span(k - m, code.Raw()));
    ResizeMore(Plain(code, 0, store), pt, Span(k - m, code.data));
  }

  lemma EmptyStore(code: Code)
    requires code.WellFormed()
    ensures code.Raw() > 0 && code.data > 0 && Framed(code, 0)
  {
    hide Cipher.Lawful;
  }

  lemma ResizeMore(s: seq<byte>, n: nat, more: nat)
    requires n == |s| + more
    ensures Resize(s, n) == s + Zeros(more)
  {
  }

  /** A block written past the end of a store of whole blocks, where holes are allowed. */
  lemma WriteGap(code: Code, store: seq<byte>, m: nat, k: nat, at: nat, pt: nat, chunk: seq<byte>, x: seq<byte>)
    requires code.WellFormed() && code.HolesRead() && m <= k
    requires |store| == Span(m, code.Raw()) && at == Span(k, code.Raw()) && pt == Span(k, code.data)
    requires code.Encodes(k, chunk, x) && 0 < |x| <= code.data
    ensures Plain(code, 0, Overwrite(store, at, chunk)) == Overwrite(Plain(code, 0, store), pt, x)
    ensures Framed(code, |Overwrite(store, at, chunk)|)
    ensures AllVerified(code, store) ==> AllVerified(code, Overwrite(store, at, chunk))
  {
    hide *;
    EmptyStore(code);
    GrowHoles(code, store, m, k, at, pt);
    ResizeSize(store, at);
    AppendBlock(code, Resize(store, at), k, chunk, x);
    WholeChunk(code, k, chunk, x);
    OverwriteGap(store, at, chunk);
    OverwriteGap(Plain(code, 0, store), pt, x);
  }

  lemma CutBehind(s: seq<byte>, off: nat, data: seq<byte>)
    requires off <= |s|
    ensures Resize(Overwrite(s, off, data), off + |data|) == s[..off] + data
  {
  }

  /** A block written over block `k`, and then made the last one by a cut. */
  lemma WriteAndCut(code: Code, store: seq<byte>, k: nat, at: nat, pt: nat, chunk: seq<byte>, x: seq<byte>)
    requires code.WellFormed() && at == Span(k, code.Raw()) && pt == Span(k, code.data)
    requires at <= |store| && code.Encodes(k, chunk, x) && 0 < |x| <= code.data
    ensures var cut := Resize(Overwrite(store, at, chunk), at + |chunk|);
      && pt <= |Plain(code, 0, store)|
      && Plain(code, 0, cut) == Plain(code, 0, store)[..pt] + x
      && Framed(code, |cut|)
      && (AllVerified(code, store) ==> AllVerified(code, cut))
  {
    hide *;
    EmptyStore(code);
    CutStore(code, store, k, at, pt);
    AppendBlock(code, store[..at], k, chunk, x);
    WholeChunk(code, k, chunk, x);
    CutBehind(store, at, chunk);
  }

  // ----- The same in terms of plain offsets -------------------------------------------------

  /** Block-aligned plain offsets are multiples of the block size, here and in the store. */
  lemma Aligned(code: Code, off: nat)
    requires code.data > 0 && OnBlock(off, code.data)
    ensures off == Span(BlockOf(off, code.data), code.data)
    ensures StoreOffset(code, off) == Span(BlockOf(off, code.data), code.Raw())
  {
    hide Cipher.Lawful, BlockIV;
    DivMod(off, code.data);
    LocOfBlock(BlockOf(off, code.data), code.Raw(), code.Header());
  }

  lemma ReadAt(code: Code, store: seq<byte>, off: nat)
    requires code.WellFormed() && OnBlock(off, code.data)
    ensures Slice(Plain(code, 0, store), off, code.data)
         == code.Decode(BlockOf(off, code.data), Slice(store, StoreOffset(code, off), code.Raw()))
  {
    hide Cipher.Lawful, BlockIV;
    hide Code.Decode, Plain, StoreOffset;
    Aligned(code, off);
    ReadBlock(code, store, BlockOf(off, code.data), StoreOffset(code, off), off);
  }

  lemma VerifiedAt(code: Code, store: seq<byte>, off: nat)
    requires code.WellFormed() && OnBlock(off, code.data) && AllVerified(code, store)
    ensures code.Verified(Slice(store, StoreOffset(code, off), code.Raw()))
  {
    hide Cipher.Lawful, BlockIV;
    hide Code.Decode, StoreOffset, Code.Verified;
    var at, k := StoreOffset(code, off), BlockOf(off, code.data);
    Aligned(code, off);
    if at < |store| {
      VerifiedFrom(code, store, k, at);
    } else {
      assert Slice(store, at, code.Raw()) == [];
      NoneVerified(code);
    }
  }

  lemma NoneVerified(code: Code)
    ensures code.Verified([])
  {
  }

  lemma FirstVerified(code: Code, store: seq<byte>)
    requires code.Raw() > 0 && store != [] && AllVerified(code, store)
    ensures code.Verified(First(code, store))
  {
  }

  lemma VerifiedFrom(code: Code, store: seq<byte>, k: nat, at: nat)
    requires code.WellFormed() && AllVerified(code, store) && at == Span(k, code.Raw()) && at < |store|
    ensures code.Verified(Slice(store, at, code.Raw()))
  {
    hide *;
    EmptyStore(code);
    var a, b := store[..at], store[at..];
    assert store == a + b && b != [];
    FirstSlice(code, store, at);
    VerifiedConcat(code, a, b, k);
    FirstVerified(code, b);
  }

  /** Where a block of `n` bytes may be written: at a place the file reaches, or behind whole
      blocks when holes are allowed; and a short block only at the end. */
  predicate Fits(bs: nat, holes: bool, size: nat, off: nat, n: nat)
  {
    && (off <= size || (holes && bs > 0 && OnBlock(size, bs)))
    && (n == bs || off + n >= size)
  }

  lemma WriteAt(code: Code, store: seq<byte>, off: nat, chunk: seq<byte>, x: seq<byte>)
    requires code.WellFormed() && Framed(code, |store|) && OnBlock(off, code.data)
    requires code.Encodes(BlockOf(off, code.data), chunk, x) && 0 < |x| <= code.data
    requires Fits(code.data, code.HolesRead(), |Plain(code, 0, store)|, off, |x|)
    ensures var w := Overwrite(store, StoreOffset(code, off), chunk);
      && Plain(code, 0, w) == Overwrite(Plain(code, 0, store), off, x)
      && Framed(code, |w|)
      && (AllVerified(code, store) ==> AllVerified(code, w))
  {
    hide Cipher.Lawful, BlockIV, Span, OnBlock;
    hide Code.Decode, Code.Verified, Plain, AllVerified, Framed, StoreOffset;
    var p := Plain(code, 0, store);
    Aligned(code, off);
    if off <= |p| {
      WriteBlock(code, store, BlockOf(off, code.data), StoreOffset(code, off), off, chunk, x);
    } else {
      Aligned(code, |p|);
      PlainSize(code, 0, store);
      QuotientMonotone(|p|, off, code.data);
      WriteGap(code, store, BlockOf(|p|, code.data), BlockOf(off, code.data), StoreOffset(code, off), off, chunk, x);
    }
  }

  /** A write and the cut that makes it the last block. */
  lemma WriteAndCutAt(code: Code, store: seq<byte>, off: nat, chunk: seq<byte>, x: seq<byte>)
    requires code.WellFormed() && Framed(code, |store|) && OnBlock(off, code.data)
    requires code.Encodes(BlockOf(off, code.data), chunk, x) && 0 < |x| <= code.data
    requires off <= |Plain(code, 0, store)|
    ensures var cut := Resize(Overwrite(store, StoreOffset(code, off), chunk), StoreOffset(code, off + |x|));
      && Plain(code, 0, cut) == Plain(code, 0, store)[..off] + x
      && Framed(code, |cut|)
      && (AllVerified(code, store) ==> AllVerified(code, cut))
  {
    hide Cipher.Lawful, BlockIV, Span, OnBlock;
    hide Code.Decode, Code.Verified, Plain, AllVerified, Framed, StoreOffset;
    Aligned(code, off);
    PlainSize(code, 0, store);
    StoreMonotone(code, off, |Plain(code, 0, store)|);
    StoreBlock(code, BlockOf(off, code.data), |x|);
    WriteAndCut(code, store, BlockOf(off, code.data), StoreOffset(code, off), off, chunk, x);
  }

  /** A cut between two blocks. */
  lemma CutAt(code: Code, store: seq<byte>, n: nat)
    requires code.WellFormed() && Framed(code, |store|) && OnBlock(n, code.data)
    requires n <= |Plain(code, 0, store)|
    ensures var cut := Resize(store, StoreOffset(code, n));
      && StoreOffset(code, n) <= |store|
      && Plain(code, 0, cut) == Plain(code, 0, store)[..n]
      && Framed(code, |cut|)
      && (AllVerified(code, store) ==> AllVerified(code, cut))
  {
    hide Cipher.Lawful, BlockIV, Span, OnBlock;
    hide Code.Decode, Code.Verified, Plain, AllVerified, Framed, StoreOffset;
    Aligned(code, n);
    PlainSize(code, 0, store);
    StoreMonotone(code, n, |Plain(code, 0, store)|);
    CutStore(code, store, BlockOf(n, code.data), StoreOffset(code, n), n);
  }

  /** Growth from whole blocks to whole blocks, where holes are allowed. */
  lemma GrowAt(code: Code, store: seq<byte>, n: nat)
    requires code.WellFormed() && code.HolesRead() && Framed(code, |store|)
    requires OnBlock(n, code.data) && OnBlock(|Plain(code, 0, store)|, code.data) && |Plain(code, 0, store)| <= n
    ensures var grown := Resize(store, StoreOffset(code, n));
      && Plain(code, 0, grown) == Resize(Plain(code, 0, store), n)
      && Framed(code, |grown|)
      && (AllVerified(code, store) ==> AllVerified(code, grown))
  {
    hide Cipher.Lawful, BlockIV, Span, OnBlock;
    hide Code.Decode, Code.Verified, Plain, AllVerified, Framed, StoreOffset;
    var p := Plain(code, 0, store);
    Aligned(code, n);
    Aligned(code, |p|);
    PlainSize(code, 0, store);
    QuotientMonotone(|p|, n, code.data);
    GrowHoles(code, store, BlockOf(|p|, code.data), BlockOf(n, code.data), StoreOffset(code, n), n);
  }

  /** The plain bytes before a block depend only on the store before it. */
  lemma SamePrefix(code: Code, s: seq<byte>, t: seq<byte>, n: nat)
    requires code.WellFormed() && OnBlock(n, code.data)
    requires StoreOffset(code, n) <= |s| && StoreOffset(code, n) <= |t|
    requires s[..StoreOffset(code, n)] == t[..StoreOffset(code, n)]
    ensures n <= |Plain(code, 0, s)| && n <= |Plain(code, 0, t)|
    ensures Plain(code, 0, s)[..n] == Plain(code, 0, t)[..n]
  {
    hide Cipher.Lawful, BlockIV, Span, OnBlock;
    hide Code.Decode, Code.Verified, Plain, AllVerified, Framed, StoreOffset;
    Aligned(code, n);
    CutStore(code, s, BlockOf(n, code.data), StoreOffset(code, n), n);
    CutStore(code, t, BlockOf(n, code.data), StoreOffset(code, n), n);
  }

  /** Any plain size gives a framed store. */
  lemma {:induction false} FramedOffset(code: Code, n: nat)
    requires code.WellFormed()
    ensures Framed(code, StoreOffset(code, n))
    decreases n
  {
    hide Cipher.Lawful, BlockIV;
    LocFirst(n, code.Raw(), code.Header());
    if n > code.data {
      FramedOffset(code, n - code.data);
      LocStep(n - code.data, code.Raw(), code.Header());
      assert StoreOffset(code, n) == StoreOffset(code, n - code.data) + code.Raw();
    }
  }
}
