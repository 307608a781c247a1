/** BlockFileIO.cpp, with its two subclasses' block operations (MACFileIO.cpp, and
    CipherFileIO.cpp through `CipherLayer`) as the cases of `Layer`. */
module BlockFile {
  import opened Bytes
  import opened Options
  import opened CipherModel
  import opened BlockCode
  import opened Division
  import opened Offsets
  import opened Padding
  import opened RawFile
  import opened CipherFile

  /** Which subclass an object is, and what it sits on. */
  datatype Layer =
    | OverCipher(cipherLayer: CipherLayer)
    | OverMac(base: BlockFileIO, cipher: Cipher, macBytes: nat, randBytes: nat, warnOnly: bool)

  type BlockSize = n: nat | n > 1 witness 2

  class BlockFileIO {
    const blockSize: BlockSize
    const allowHoles: bool
    const layer: Layer
    // the last block read or written; empty data means nothing is cached
    var cacheOffset: nat
    var cacheData: seq<byte>
    // the plain bytes of the file
    ghost var content: seq<byte>
    ghost const height: nat
    // the objects of the layers below
    ghost const Below: set<object>

    // ----- The state -----------------------------------------------------------------------

    function HeaderSize(): nat {
      match layer
      case OverCipher(_) => 0
      case OverMac(_, _, macBytes, randBytes, _) => macBytes + randBytes
    }

    function RawSize(): nat {
      blockSize + HeaderSize()
    }

    /** Whether blocks that were never written read as zeros. Reverse encryption has no such blocks. */
    predicate HolesRead() {
      allowHoles && (layer.OverCipher? ==> !layer.cipherLayer.reverse)
    }

    /** Where a plain offset lies in the file below. */
    function StoreAt(off: nat): nat {
      LocWithHeader(off, RawSize(), HeaderSize())
    }

    /** The file this layer reads and writes, without the file header. */
    ghost function Store(): seq<byte>
      reads Below
    {
      match layer
      case OverCipher(c) => if c in Below && c.raw in Below then c.Store() else []
      case OverMac(base, _, _, _, _) => if base in Below then base.content else []
    }

    ghost function Coding(): (code: Code)
      reads Below
      ensures code.data == blockSize && code.holes == allowHoles
      ensures code.Header() == HeaderSize() && code.Raw() == RawSize()
      ensures code.CipherCode? <==> layer.OverCipher?
      ensures code.HolesRead() == HolesRead()
      ensures forall off: nat :: StoreOffset(code, off) == StoreAt(off)
    {
      match layer
      case OverCipher(c) =>
        CipherCode(c.cipher, c.reverse, allowHoles, blockSize, if c in Below && c.raw in Below then c.IV() else 0)
      case OverMac(_, cipher, macBytes, randBytes, _) => MacCode(cipher, macBytes, randBytes, allowHoles, blockSize)
    }

    /** Every block passes the MAC comparison. */
    ghost predicate Verified()
      reads Below
    {
      AllVerified(Coding(), Store())
    }

    /** The layers fit together. */
    ghost predicate Linked() {
      && this !in Below
      && match layer
         case OverCipher(c) =>
           && Below == {c, c.raw}
           && c.bs == blockSize && c.holes == allowHoles
         case OverMac(base, _, macBytes, randBytes, _) =>
           && Below == {base} + base.Below && base !in base.Below
           && base.height < height
           && base.blockSize == RawSize() && base.allowHoles == allowHoles
           && base.layer.OverCipher? && base.HolesRead() == allowHoles
    }

    /** The layer below is at rest, and `content` is what the store decodes to. */
    ghost predicate Shape()
      reads this`content, Below
      ensures Shape() ==> this !in Below && Chain()
      decreases height
    {
      && Linked()
      && (match layer
          case OverCipher(c) => c.Valid()
          case OverMac(base, _, _, _, _) => base.Shape() && base.Verified())
      && Coding().WellFormed()
      && Framed(Coding(), |Store()|)
      && content == Plain(Coding(), 0, Store())
    }

    /** The layers below are at rest and have good caches. */
    ghost predicate BelowOk()
      requires Shape()
      reads this`content, Below
      decreases height, 0
    {
      layer.OverMac? ==> layer.base.Good()
    }

    /** The layer below has just handled the block that holds plain offset `off`. */
    ghost predicate BelowAt(off: nat)
      requires Shape()
      reads this`content, Below
    {
      layer.OverMac? ==> layer.base.Cached(StoreAt(off))
    }

    /** The cache below holds no stale copy of the block that holds plain offset `off`. */
    ghost predicate BelowFresh(off: nat)
      requires Shape()
      reads this`content, Below
    {
      layer.OverMac? ==> !layer.base.Stale(StoreAt(off))
    }

    /** The caches of two layers are of the same block. */
    ghost predicate Synced()
      requires Shape()
      reads this`content, this`cacheData, this`cacheOffset, Below
    {
      layer.OverMac? && layer.base.cacheData != [] ==>
        cacheData != [] && layer.base.cacheOffset == StoreAt(cacheOffset)
    }

    /** A cached block that lies in the file is what the file holds there. */
    ghost predicate Coherent()
      reads this`content, this`cacheData, this`cacheOffset
    {
      CoherentWith(content)
    }

    ghost predicate CoherentWith(c: seq<byte>)
      reads this`cacheData, this`cacheOffset
    {
      cacheData != [] ==>
        && OnBlock(cacheOffset, blockSize)
        && |cacheData| <= blockSize
        && (cacheOffset < |c| ==> cacheData == Slice(c, cacheOffset, blockSize))
    }

    /** The cached block is the one that a file of `end` bytes would end in. */
    ghost predicate EndCached(end: nat)
      reads this`cacheData, this`cacheOffset
    {
      cacheData != [] && OnBlock(cacheOffset, blockSize) && cacheOffset < end <= cacheOffset + blockSize
    }

    /** The cached block lies in a file of `size` bytes. */
    ghost predicate CachedBelow(size: nat)
      reads this`cacheData, this`cacheOffset
    {
      cacheData != [] ==> cacheOffset < size
    }

    /** At rest, every block also passes the MAC comparison. */
    ghost predicate Ready()
      reads this`content, this`cacheData, this`cacheOffset, Below
      ensures Ready() ==> Shape()
      decreases height, 1
    {
      Shape() && Verified() && Synced() && BelowOk()
    }

    /** At rest, and no cached block contradicts the file. */
    ghost predicate Good()
      reads this`content, this`cacheData, this`cacheOffset, Below
      ensures Good() ==> Shape()
      decreases height, 2
    {
      Ready() && Coherent()
    }

    /** The cache holds the block at `off`, or nothing if there is nothing there. */
    ghost predicate Cached(off: nat)
      reads this`content, this`cacheData, this`cacheOffset
    {
      cacheData == Slice(content, off, blockSize) && (cacheData != [] ==> cacheOffset == off)
    }

    /** The cache holds the block at `off`, but the file has been cut before it. */
    ghost predicate Stale(off: nat)
      reads this`content, this`cacheData, this`cacheOffset
    {
      cacheData != [] && cacheOffset == off && off >= |content|
    }

    /** What a request for the block at `off` is answered with. */
    ghost function CachedBlock(off: nat): seq<byte>
      reads this`content, this`cacheData, this`cacheOffset
    {
      if cacheData != [] && cacheOffset == off then cacheData else Slice(content, off, blockSize)
    }

    /** A block of `n` bytes fits at `off`. */
    ghost predicate FitsAt(off: nat, n: nat)
      reads this`content
    {
      Fits(blockSize, HolesRead(), |content|, off, n)
    }

    /** Extending the file to `n` leaves no blocks to holes where holes do not read as zeros. */
    ghost predicate Growable(n: nat)
      reads this`content
    {
      GrowsWhole(|content|, n)
    }

    predicate GrowsWhole(m: nat, n: nat) {
      m < n && allowHoles && !HolesRead() ==> AlignUp(m, blockSize) >= AlignDown(n, blockSize)
    }

    // ----- Blocks that can be stored -----------------------------------------------------------

    /** A full block of zeros in the file below would be a hole: this one reads back, under MACs
        whatever random bytes it gets. */
    ghost predicate BlockKept(k: nat, x: seq<byte>) {
      match layer
      case OverCipher(c) => c.BlockKept(k, x)
      case OverMac(base, _, _, _, _) => |x| == blockSize ==> HeadsKept(k, x, x)
    }

    /** So does the raw block with `x` behind a header that has been made for `data`. */
    ghost predicate HeadsKept(k: nat, data: seq<byte>, x: seq<byte>)
      requires layer.OverMac?
    {
      forall rand: seq<byte> :: |rand| == layer.randBytes ==>
        layer.base.CipherKept(k, MacCoding().FrameHead(rand, data) + x)
    }

    ghost predicate CipherKept(k: nat, x: seq<byte>) {
      layer.OverCipher? ==> layer.cipherLayer.BlockKept(k, x)
    }

    /** The full blocks of `c` that meet the range from `lo` to `hi` read back. */
    ghost predicate KeptIn(c: seq<byte>, lo: nat, hi: nat) {
      forall at: nat :: OnBlock(at, blockSize) && lo < at + blockSize <= |c| && at < hi ==>
        BlockKept(BlockOf(at, blockSize), Slice(c, at, blockSize))
    }

    /** What has to be stored to turn `c` into `r` with a write from `off` up to `end`: the
        blocks of that range, and the old last block if it is filled up on the way. */
    ghost predicate KeptOn(c: seq<byte>, r: seq<byte>, off: nat, end: nat) {
      && KeptIn(r, off, end)
      && (off > |c| ==> KeptIn(r, |c|, AlignUp(|c|, blockSize)))
    }

    ghost predicate WriteKept(off: nat, data: seq<byte>)
      reads this`content
    {
      KeptOn(content, Overwrite(content, off, data), off, off + |data|)
    }

    /** A cut in a block writes its start back, and under MACs the layer below merges that into the
        whole block. */
    ghost predicate CutKept(c: seq<byte>, size: nat) {
      var last := AlignDown(size, blockSize);
      layer.OverMac? && last < size && last + blockSize <= |c| ==>
        HeadsKept(BlockOf(last, blockSize), Slice(c, last, size - last), Slice(c, last, blockSize))
    }

    /** An extension fills up the old last block. */
    ghost predicate TruncateKept(size: nat)
      requires Shape()
      reads this`content, this`cacheData, this`cacheOffset, Below
    {
      && (size > |content| ==> KeptIn(Truncated(size), |content|, AlignUp(|content|, blockSize)))
      && (size < |content| ==> CutKept(content, size))
    }

    lemma KeptAt(c: seq<byte>, lo: nat, hi: nat, at: nat)
      requires Shape() && KeptIn(c, lo, hi) && OnBlock(at, blockSize) && lo < at + blockSize && at < hi
      ensures BlockKept(BlockOf(at, blockSize), Slice(c, at, blockSize))
    {
      hide BlockKept, Shape;
      SliceSize(c, at, blockSize);
      if at + blockSize > |c| {
        AlwaysKept(BlockOf(at, blockSize), Slice(c, at, blockSize));
      }
    }

    lemma NoneKept(c: seq<byte>, m: nat)
      requires OnBlock(m, blockSize)
      ensures KeptIn(c, m, AlignUp(m, blockSize))
    {
      AlignRest(m, blockSize);
      forall at: nat | OnBlock(at, blockSize) ensures !(m < at + blockSize && at < m) {
        DivMod(at, blockSize);
        DivMod(m, blockSize);
        if at < m { NextMultiple(at / blockSize, m / blockSize, blockSize); }
      }
    }

    /** A short block is always kept, and so is any block where there are no holes. */
    lemma AlwaysKept(k: nat, x: seq<byte>)
      requires Shape() && (!allowHoles || |x| != blockSize)
      ensures BlockKept(k, x)
    {
      hide Code.EncodeBlock;
    }

    // ----- Construction ----------------------------------------------------------------------

    constructor ForCipher(c: CipherLayer)
      requires c.Valid() && c.bs > 1
      ensures Good() && cacheData == []
      ensures layer == OverCipher(c) && blockSize == c.bs && allowHoles == c.holes
      ensures Below == {c, c.raw}
    {
      blockSize, allowHoles, layer := c.bs, c.holes, OverCipher(c);
      cacheOffset, cacheData := 0, [];
      height, Below := 0, {c, c.raw};
      content := Plain(c.Coding(), 0, c.Store());
      new;
      NoHeaderFramed(Coding(), |Store()|);
      NoMacVerified(Coding(), Store());
    }

    /** The blocks under the MACs must have been written by this layer, as in an empty file. */
    constructor ForMac(base: BlockFileIO, cipher: Cipher, macBytes: nat, randBytes: nat, warnOnly: bool)
      requires base.Good() && base.cacheData == []
      requires base.layer.OverCipher? && base.HolesRead() == base.allowHoles
      requires cipher.Lawful() && macBytes <= 8 && base.blockSize - macBytes - randBytes > 1
      requires var code := MacCode(cipher, macBytes, randBytes, base.allowHoles,
                                   base.blockSize - macBytes - randBytes);
        Framed(code, |base.content|) && AllVerified(code, base.content)
      ensures Good() && cacheData == []
      ensures layer == OverMac(base, cipher, macBytes, randBytes, warnOnly)
      ensures blockSize == base.blockSize - macBytes - randBytes && allowHoles == base.allowHoles
      ensures Below == {base} + base.Below
    {
      hide Cipher.Lawful, Plain, Framed, AllVerified;
      blockSize, allowHoles := base.blockSize - macBytes - randBytes, base.allowHoles;
      layer := OverMac(base, cipher, macBytes, randBytes, warnOnly);
      cacheOffset, cacheData := 0, [];
      height, Below := base.height + 1, {base} + base.Below;
      content := Plain(MacCode(cipher, macBytes, randBytes, base.allowHoles,
                               base.blockSize - macBytes - randBytes), 0, base.content);
      new;
      base.GoodParts();
      base.ReadyParts();
      assert MacCoding() == MacCode(cipher, macBytes, randBytes, base.allowHoles,
                                    base.blockSize - macBytes - randBytes);
      assert MacCoding().WellFormed() && Linked();
      hide *;
      MacBuilt();
    }

    lemma MacBuilt()
      requires layer.OverMac? && Linked() && layer.base.Good() && layer.base.cacheData == [] == cacheData
      requires layer.base.Shape() && layer.base.Verified()
      requires MacCoding().WellFormed() && Framed(MacCoding(), |layer.base.content|)
      requires AllVerified(MacCoding(), layer.base.content) && content == Plain(MacCoding(), 0, layer.base.content)
      ensures Good()
    {
      hide Plain, Framed, AllVerified, Cipher.Lawful;
      assert Coding() == MacCoding() && Store() == layer.base.content;
      assert Shape() && Verified() && Synced() && BelowOk();
      assert Coherent();
    }

    // ----- One block, by the layer below -----------------------------------------------------

    method ReadOneBlock(off: nat) returns (failed: bool, data: seq<byte>)
      requires Shape() && BelowOk() && OnBlock(off, blockSize) && BelowFresh(off)
      modifies Below
      ensures Shape() && BelowOk() && BelowAt(off)
      ensures Store() == old(Store()) && Coding() == old(Coding())
      ensures failed <==>
        layer.OverMac? && !layer.warnOnly && !Coding().Verified(Slice(Store(), StoreAt(off), RawSize()))
      ensures !failed ==> data == Slice(content, off, blockSize)
      decreases height, 1
    {
      hide *;
      failed := false;
      match layer {
        case OverCipher(_) => data := CipherReadOneBlock(off);
        case OverMac(_, _, _, _, _) => failed, data := MacReadOneBlock(off);
      }
    }

    method WriteOneBlock(off: nat, data: seq<byte>) returns (ghost chunk: seq<byte>)
      requires Shape() && BelowOk() && OnBlock(off, blockSize) && 0 < |data| <= blockSize
      requires FitsAt(off, |data|) || off + |data| <= |content|
      requires MergeKept(off, data)
      modifies this`content, Below
      ensures Shape() && BelowOk() && BelowAt(off)
      ensures Store() == Overwrite(old(Store()), StoreAt(off), chunk)
      ensures Coding().Encodes(BlockOf(off, blockSize), chunk, data)
      ensures old(Store()) != [] ==> Coding() == old(Coding())
      ensures old(Verified() && FitsAt(off, |data|)) ==>
        Verified() && content == Overwrite(old(content), off, data)
      decreases height, 1
    {
      hide *;
      match layer {
        case OverCipher(_) => KeptAlone(off, data); chunk := CipherWriteOneBlock(off, data);
        case OverMac(_, _, _, _, _) => chunk := MacWriteOneBlock(off, data);
      }
    }

    /** A block can be written: it reads back, under MACs with what is behind it in the old block,
        since the layer below merges the two. */
    ghost predicate MergeKept(off: nat, data: seq<byte>)
      reads this`content
    {
      var k, merged := BlockOf(off, blockSize), Overwrite(Slice(content, off, blockSize), 0, data);
      match layer
      case OverCipher(_) => BlockKept(k, data)
      case OverMac(_, _, _, _, _) => |merged| == blockSize ==> HeadsKept(k, data, merged)
    }

    lemma KeptAlone(off: nat, data: seq<byte>)
      requires MergeKept(off, data) && layer.OverCipher?
      ensures BlockKept(BlockOf(off, blockSize), data)
    {
    }

    /** A block that fits has nothing behind it to be merged with. */
    lemma FitMerge(off: nat, data: seq<byte>)
      requires 0 < |data| <= blockSize && FitsAt(off, |data|) && BlockKept(BlockOf(off, blockSize), data)
      ensures MergeKept(off, data)
    {
      hide HeadsKept;
      assert Overwrite(Slice(content, off, blockSize), 0, data) == data;
    }

    method CipherReadOneBlock(off: nat) returns (data: seq<byte>)
      requires Shape() && layer.OverCipher? && OnBlock(off, blockSize)
      modifies Below
      ensures Shape() && BelowOk() && BelowAt(off)
      ensures Store() == old(Store()) && Coding() == old(Coding())
      ensures data == Slice(content, off, blockSize)
      decreases height, 0
    {
      CipherFacts();
      ReadAt(Coding(), Store(), off);
      LocNoHeader(off, blockSize);
      hide Code.Decode, Code.WellFormed, Plain, Framed, LocWithHeader, StoreOffset, OnBlock, BlockOf, Slice;
      data := layer.cipherLayer.ReadOneBlock(off);
    }

    lemma CipherFacts()
      requires Shape() && layer.OverCipher?
      ensures layer.cipherLayer.Valid() && Linked() && Coding() == layer.cipherLayer.Coding()
      ensures Store() == layer.cipherLayer.Store() && content == Plain(Coding(), 0, Store())
      ensures Coding().WellFormed()
    {
    }

    method CipherWriteOneBlock(off: nat, data: seq<byte>) returns (ghost chunk: seq<byte>)
      requires Shape() && layer.OverCipher? && OnBlock(off, blockSize) && 0 < |data| <= blockSize
      requires FitsAt(off, |data|) || off + |data| <= |content|
      requires BlockKept(BlockOf(off, blockSize), data)
      modifies this`content, Below
      ensures Shape() && BelowOk() && BelowAt(off) && Verified()
      ensures Store() == Overwrite(old(Store()), StoreAt(off), chunk)
      ensures Coding().Encodes(BlockOf(off, blockSize), chunk, data)
      ensures old(Store()) != [] ==> Coding() == old(Coding())
      ensures old(FitsAt(off, |data|)) ==> content == Overwrite(old(content), off, data)
      decreases height, 0
    {
      hide Code.Decode, Code.Encodes, Code.EncodeBlock, Code.WellFormed, Plain, Framed, LocWithHeader, StoreOffset;
      hide OnBlock, BlockOf, Overwrite, Fits, Cipher.Lawful, Storable;
      CipherFacts();
      ghost var c, store, code := content, Store(), Coding();
      LocNoHeader(off, blockSize);
      chunk := layer.cipherLayer.WriteOneBlock(off, data);
      content := Plain(Coding(), 0, Store());
      SamePlain(Coding(), code, store);
      CipherWritten(store, off, chunk, data);
    }

    lemma SamePlain(now: Code, was: Code, store: seq<byte>)
      requires now.Raw() > 0 && was.Raw() > 0 && (store != [] ==> now == was)
      ensures Plain(now, 0, store) == Plain(was, 0, store)
    {
    }

    lemma CipherWritten(store: seq<byte>, off: nat, chunk: seq<byte>, data: seq<byte>)
      requires Linked() && layer.OverCipher? && layer.cipherLayer.Valid()
      requires OnBlock(off, blockSize) && 0 < |data| <= blockSize
      requires Coding().Encodes(BlockOf(off, blockSize), chunk, data)
      requires Store() == Overwrite(store, StoreAt(off), chunk) && content == Plain(Coding(), 0, Store())
      ensures Shape() && Verified()
      ensures Fits(blockSize, HolesRead(), |Plain(Coding(), 0, store)|, off, |data|) ==>
        content == Overwrite(Plain(Coding(), 0, store), off, data)
    {
      NoHeaderFramed(Coding(), |store|);
      NoHeaderFramed(Coding(), |Store()|);
      NoMacVerified(Coding(), Store());
      assert Coding().WellFormed();
      hide Code.Decode, Code.Encodes, Code.WellFormed, Plain, Framed, AllVerified, StoreOffset;
      hide LocWithHeader, Overwrite;
      if Fits(blockSize, HolesRead(), |Plain(Coding(), 0, store)|, off, |data|) {
        WriteAt(Coding(), store, off, chunk, data);
      }
    }

    function MacCoding(): Code
      requires layer.OverMac?
    {
      MacCode(layer.cipher, layer.macBytes, layer.randBytes, allowHoles, blockSize)
    }

    /** The first bytes of a raw block with data are not those of the MAC of the rest, and it is no
        hole. */
    ghost predicate MacDiffers(chunk: seq<byte>)
      requires layer.OverMac?
    {
      var m := layer.macBytes;
      && |chunk| > m + layer.randBytes && m <= 8
      && chunk[..m] != WordBytes(layer.cipher.mac64(chunk[m..], None))[..m]
      && !(allowHoles && AllZero(chunk))
    }

    lemma DiffersExactly(chunk: seq<byte>)
      requires layer.OverMac? && layer.macBytes <= 8
      ensures MacDiffers(chunk) <==> !MacCoding().Verified(chunk)
    {
      hide LittleEndian, WordBytes, AllZero;
      if |chunk| > MacCoding().Header() {
        VerifiedExactly(MacCoding(), chunk);
      }
    }

    /** The block is compared with its MAC before it is given out. */
    method MacReadOneBlock(off: nat) returns (failed: bool, data: seq<byte>)
      requires Shape() && BelowOk() && layer.OverMac? && OnBlock(off, blockSize) && BelowFresh(off)
      modifies Below
      ensures Shape() && BelowOk() && BelowAt(off)
      ensures Store() == old(Store()) && Coding() == old(Coding())
      ensures failed <==>
        !layer.warnOnly && !Coding().Verified(Slice(Store(), StoreAt(off), RawSize()))
      ensures failed <==> !layer.warnOnly && MacDiffers(Slice(Store(), StoreAt(off), RawSize()))
      ensures !failed ==> data == Slice(content, off, blockSize)
      decreases height, 0
    {
      hide *;
      MacFacts();
      MacTarget(off);
      ReadAt(Coding(), Store(), off);
      var code := MacCoding();
      assert code.Raw() == RawSize() && StoreOffset(code, off) == StoreAt(off) && code.data == blockSize;
      var chunk := layer.base.Read(StoreAt(off), RawSize());
      MacDone(off);
      DiffersExactly(chunk);
      failed := !code.Verified(chunk) && !layer.warnOnly;
      data := code.Decode(BlockOf(off, blockSize), chunk);
    }

    /** What the invariant says about the layer below. */
    lemma MacFacts()
      requires Shape() && layer.OverMac?
      ensures layer.macBytes <= 8
      ensures Linked() && Below == {layer.base} + layer.base.Below && this !in Below && layer.base.height < height
      ensures layer.base.blockSize == RawSize()
      ensures BelowOk() ==> layer.base.Good()
      ensures Store() == layer.base.content && Coding() == MacCoding() && MacCoding().WellFormed()
      ensures Framed(MacCoding(), |layer.base.content|) && content == Plain(MacCoding(), 0, layer.base.content)
    {
    }

    lemma MacTarget(off: nat)
      requires Shape() && layer.OverMac? && OnBlock(off, blockSize)
      ensures OnBlock(StoreAt(off), RawSize())
      ensures BelowFresh(off) ==>
        layer.base.View(AlignDown(StoreAt(off), RawSize())) == layer.base.content && !layer.base.Stale(StoreAt(off))
    {
      Aligned(Coding(), off);
      MulDivMod(BlockOf(off, blockSize), RawSize());
      AlignRest(StoreAt(off), RawSize());
    }

    /** The invariant holds again when the layer below is back at rest. */
    lemma MacDone(off: nat)
      requires Linked() && layer.OverMac? && layer.base.Good() && MacCoding().WellFormed()
      requires Framed(MacCoding(), |layer.base.content|) && content == Plain(MacCoding(), 0, layer.base.content)
      ensures Shape() && BelowOk() && Store() == layer.base.content && Coding() == MacCoding()
      ensures layer.base.Cached(StoreAt(off)) ==> BelowAt(off)
    {
    }

    /** Random bytes and data behind the first bytes of the MAC of both. */
    ghost predicate FrameFor(chunk: seq<byte>, data: seq<byte>)
      requires layer.OverMac?
    {
      var m, h := layer.macBytes, layer.macBytes + layer.randBytes;
      && |chunk| == h + |data| && chunk[h..] == data && m <= 8
      && chunk[..m] == WordBytes(layer.cipher.mac64(chunk[m..], None))[..m]
    }

    lemma FrameForBoth(rand: seq<byte>, data: seq<byte>)
      requires layer.OverMac? && layer.macBytes <= 8 && |rand| == layer.randBytes
      ensures FrameFor(MacCoding().Frame(rand, data), data)
    {
      hide LittleEndian, WordBytes, Code.Frame;
      FrameParts(MacCoding(), rand, data);
    }

    method MacWriteOneBlock(off: nat, data: seq<byte>) returns (ghost chunk: seq<byte>)
      requires Shape() && BelowOk() && layer.OverMac? && OnBlock(off, blockSize) && 0 < |data| <= blockSize
      requires FitsAt(off, |data|) || off + |data| <= |content|
      requires MergeKept(off, data)
      modifies this`content, Below
      ensures Shape() && BelowOk() && BelowAt(off)
      ensures Store() == Overwrite(old(Store()), StoreAt(off), chunk)
      ensures Coding().Encodes(BlockOf(off, blockSize), chunk, data)
      ensures FrameFor(chunk, data)
      ensures Coding() == old(Coding())
      ensures old(FitsAt(off, |data|)) ==> content == Overwrite(old(content), off, data)
      ensures old(Verified() && FitsAt(off, |data|)) ==> Verified()
      decreases height, 0
    {
      hide *;
      MacFacts();
      MacTarget(off);
      ghost var store, fits := layer.base.content, FitsAt(off, |data|);
      var code := MacCoding();
      var rand := Randomize(layer.randBytes);
      var frame := code.Frame(rand, data);
      chunk := frame;
      FrameFacts(off, rand, data);
      FrameKept(off, rand, data);
      FrameForBoth(rand, data);
      layer.base.Write(StoreAt(off), frame);
      content := Plain(code, 0, layer.base.content);
      MacWritten(store, off, chunk, data);
    }

    /** The frame fits the raw block, and leaves the layer below framed. */
    lemma FrameFacts(off: nat, rand: seq<byte>, data: seq<byte>)
      requires Shape() && layer.OverMac? && OnBlock(off, blockSize) && 0 < |data| <= blockSize
      requires FitsAt(off, |data|) || off + |data| <= |content|
      requires |rand| == layer.randBytes
      ensures var code := MacCoding(); var frame := code.Frame(rand, data);
        && 0 < |frame| <= RawSize() && code.Encodes(BlockOf(off, blockSize), frame, data)
        && Framed(code, |Overwrite(layer.base.content, StoreAt(off), frame)|)
      ensures Verified() ==> AllVerified(MacCoding(), layer.base.content)
      ensures FitsAt(off, |data|) ==>
        Fits(blockSize, HolesRead(), |Plain(MacCoding(), 0, layer.base.content)|, off, |data|)
    {
      var code := MacCoding();
      FrameRoundTrip(code, BlockOf(off, blockSize), rand, data);
      WriteFramed(code, layer.base.content, off, code.Frame(rand, data), data);
    }

    /** The layer below can store the frame, merged into its old block. */
    lemma FrameKept(off: nat, rand: seq<byte>, data: seq<byte>)
      requires Shape() && layer.OverMac? && OnBlock(off, blockSize) && 0 < |data| <= blockSize
      requires FitsAt(off, |data|) || off + |data| <= |content|
      requires |rand| == layer.randBytes && MergeKept(off, data)
      ensures layer.base.WriteKept(StoreAt(off), MacCoding().Frame(rand, data))
      ensures layer.base.Growable(StoreAt(off))
    {
      var base, raw, at := layer.base, RawSize(), StoreAt(off);
      var frame := MacCoding().Frame(rand, data);
      MacFacts();
      MacTarget(off);
      FrameBlock(off, rand, data);
      FrameEnd(off, data);
      assert base.Growable(at) && |frame| <= raw;
      hide Shape, Overwrite, Slice, LocWithHeader, Code.Frame, BlockKept;
      var r := Overwrite(base.content, at, frame);
      assert base.KeptIn(r, at, at + |frame|) by {
        forall b: nat | OnBlock(b, raw) && at < b + raw && b < at + |frame| ensures b == at {
          SameBlock(at, b, raw);
        }
      }
      if at > |base.content| {
        base.NoneKept(r, |base.content|);
      }
    }

    /** The block the layer below will have. */
    lemma FrameBlock(off: nat, rand: seq<byte>, data: seq<byte>)
      requires Shape() && layer.OverMac? && OnBlock(off, blockSize) && 0 < |data| <= blockSize
      requires |rand| == layer.randBytes && MergeKept(off, data)
      ensures var block := Slice(Overwrite(layer.base.content, StoreAt(off), MacCoding().Frame(rand, data)),
                                 StoreAt(off), RawSize());
        |block| == RawSize() ==> layer.base.BlockKept(BlockOf(StoreAt(off), RawSize()), block)
    {
      hide *;
      MacFacts();
      MacSizes(data);
      var h := FrameMerged(off, rand, data);
      var merged := Overwrite(Slice(content, off, blockSize), 0, data);
      SameNumber(off);
      if |merged| == blockSize {
        MergedToo(off, data);
        HeadKept(BlockOf(off, blockSize), rand, data, merged);
      }
    }

    lemma MergedToo(off: nat, data: seq<byte>)
      requires MergeKept(off, data) && layer.OverMac?
      requires |Overwrite(Slice(content, off, blockSize), 0, data)| == blockSize
      ensures HeadsKept(BlockOf(off, blockSize), data, Overwrite(Slice(content, off, blockSize), 0, data))
    {
      hide HeadsKept;
    }

    lemma FrameMerged(off: nat, rand: seq<byte>, data: seq<byte>)
      returns (h: seq<byte>)
      requires Shape() && layer.OverMac? && OnBlock(off, blockSize) && 0 < |data| <= blockSize
      requires |rand| == layer.randBytes
      ensures |h| == HeaderSize() && h == MacCoding().FrameHead(rand, data)
      ensures Slice(Overwrite(layer.base.content, StoreAt(off), MacCoding().Frame(rand, data)), StoreAt(off), RawSize())
           == h + Overwrite(Slice(content, off, blockSize), 0, data)
    {
      hide *;
      MacFacts();
      MacSizes(data);
      var code, at := MacCoding(), StoreAt(off);
      h := code.FrameHead(rand, data);
      var was, x := Slice(layer.base.content, at, RawSize()), Slice(content, off, blockSize);
      MacBlock(off);
      FrameIs(code, rand, data);
      HeadOver(was, h, x, data);
      assert at + 0 == at;
      SliceMerged(layer.base.content, at, RawSize(), 0, h + data);
    }

    lemma MacSizes(data: seq<byte>)
      requires layer.OverMac?
      ensures MacCoding().MacCode? && MacCoding().randBytes == layer.randBytes
      ensures MacCoding().Header() == HeaderSize() && RawSize() == HeaderSize() + blockSize
    {
    }

    lemma MacBlock(off: nat)
      requires Shape() && layer.OverMac? && OnBlock(off, blockSize)
      ensures var was := Slice(layer.base.content, StoreAt(off), RawSize());
        Slice(content, off, blockSize) == (if |was| <= HeaderSize() then [] else was[HeaderSize()..])
    {
      MacFacts();
      var code := MacCoding();
      assert code.data == blockSize && StoreOffset(code, off) == StoreAt(off);
      assert code.Raw() == RawSize() && code.Header() == HeaderSize();
      hide Shape, Plain, LocWithHeader, StoreOffset, Slice, Cipher.Lawful, StoreAt;
      ReadAt(code, layer.base.content, off);
    }

    lemma SameNumber(off: nat)
      requires OnBlock(off, blockSize)
      ensures BlockOf(StoreAt(off), RawSize()) == BlockOf(off, blockSize)
    {
      DivMod(off, blockSize);
      LocOfBlock(BlockOf(off, blockSize), RawSize(), HeaderSize());
      MulDivMod(BlockOf(off, blockSize), RawSize());
    }

    lemma HeadKept(k: nat, rand: seq<byte>, data: seq<byte>, x: seq<byte>)
      requires Linked() && layer.OverMac? && HeadsKept(k, data, x) && |rand| == layer.randBytes
      ensures layer.base.BlockKept(k, MacCoding().FrameHead(rand, data) + x)
    {
      assert layer.base.CipherKept(k, MacCoding().FrameHead(rand, data) + x);
    }

    /** Where the store ends before the block to be written, it ends between blocks. */
    lemma FrameEnd(off: nat, data: seq<byte>)
      requires Shape() && layer.OverMac? && OnBlock(off, blockSize) && data != []
      requires FitsAt(off, |data|) || off + |data| <= |content|
      ensures StoreAt(off) <= |layer.base.content| || OnBlock(|layer.base.content|, RawSize())
    {
      MacFacts();
      PlainSize(MacCoding(), 0, layer.base.content);
      hide Shape, Plain, Framed, LocWithHeader, LocWithoutHeader, Code.WellFormed;
      StoreMonotone(MacCoding(), off, |content|);
      if off > |content| {
        Aligned(MacCoding(), |content|);
        MulDivMod(BlockOf(|content|, blockSize), RawSize());
      }
    }

    /** What the write of a frame to the layer below means here. */
    lemma MacWritten(store: seq<byte>, off: nat, chunk: seq<byte>, data: seq<byte>)
      requires Linked() && layer.OverMac? && OnBlock(off, blockSize) && 0 < |data| <= blockSize
      requires layer.base.Good() && layer.base.Cached(StoreAt(off))
      requires layer.base.content == Overwrite(store, StoreAt(off), chunk)
      requires MacCoding().WellFormed() && Framed(MacCoding(), |store|) && Framed(MacCoding(), |layer.base.content|)
      requires MacCoding().Encodes(BlockOf(off, blockSize), chunk, data)
      requires content == Plain(MacCoding(), 0, layer.base.content)
      ensures Shape() && BelowOk() && BelowAt(off) && Store() == layer.base.content && Coding() == MacCoding()
      ensures Fits(blockSize, HolesRead(), |Plain(MacCoding(), 0, store)|, off, |data|) ==>
        && content == Overwrite(Plain(MacCoding(), 0, store), off, data)
        && (AllVerified(MacCoding(), store) ==> Verified())
    {
      MacDone(off);
      if Fits(blockSize, HolesRead(), |Plain(MacCoding(), 0, store)|, off, |data|) {
        assert MacCoding().data == blockSize && MacCoding().HolesRead() == HolesRead();
        assert StoreOffset(MacCoding(), off) == StoreAt(off);
        hide Code.Decode, Code.Encodes, Code.WellFormed, Plain, Framed, AllVerified, StoreOffset, Overwrite;
        hide LocWithHeader, StoreAt;
        WriteAt(MacCoding(), store, off, chunk, data);
      }
    }

    // ----- One block, through the cache ------------------------------------------------------

    /** Blocks at rest verify, so a read never fails. */
    method CacheReadOneBlock(off: nat, len: nat) returns (data: seq<byte>)
      requires Ready() && OnBlock(off, blockSize)
      modifies this, Below
      ensures Ready() && Store() == old(Store()) && Coding() == old(Coding()) && content == old(content)
      ensures data == Slice(old(CachedBlock(off)), 0, len)
      ensures Handled(off)
      ensures || cacheData == []
              || (old(cacheData) != [] && cacheOffset == old(cacheOffset))
              || (cacheOffset == off && off < |content|)
      ensures off < |content| ==> CacheAt(off) && cacheData != [] && cacheOffset == off
      ensures old(Coherent()) ==> Coherent() && (!old(Stale(off)) ==> Cached(off))
      decreases height, 3
    {
      if off == cacheOffset && cacheData != [] {
        HitParts(off);
        data := Slice(cacheData, 0, len);
      } else {
        Miss(off);
        hide *;
        data := LoadBlock(off);
        data := Slice(data, 0, len);
      }
    }

    lemma HitParts(off: nat)
      requires cacheData != [] && cacheOffset == off
      ensures CachedBlock(off) == cacheData && Handled(off)
      ensures CacheAt(off)
      ensures Coherent() && !Stale(off) ==> Cached(off)
    {
    }

    /** Read a block past the cache, and cache it. */
    method LoadBlock(off: nat) returns (data: seq<byte>)
      requires Ready() && OnBlock(off, blockSize) && !(off == cacheOffset && cacheData != [])
      modifies this`cacheOffset, this`cacheData, Below
      ensures Ready() && Store() == old(Store()) && Coding() == old(Coding())
      ensures data == Slice(content, off, blockSize) && Cached(off) && Handled(off) && Coherent()
      ensures if cacheData == [] then off >= |content| else cacheOffset == off && off < |content|
      ensures off < |content| ==> CacheAt(off)
      decreases height, 2
    {
      hide *;
      ReadyParts();
      MissBelow(off);
      BlockVerified(off);
      cacheData := [];
      var failed, result := ReadOneBlock(off);
      data := result;
      if data != [] {
        cacheOffset := off;
        cacheData := data;
      }
      ReadDone(off, data);
    }

    /** The block at `off` has been read, from the cache or into it. */
    ghost predicate Handled(off: nat)
      reads this`cacheData, this`cacheOffset
    {
      cacheData != [] ==> cacheOffset == off
    }

    lemma BlockVerified(off: nat)
      requires Ready() && OnBlock(off, blockSize)
      ensures Coding().Verified(Slice(Store(), StoreAt(off), RawSize()))
    {
      VerifiedAt(Coding(), Store(), off);
    }

    lemma Miss(off: nat)
      requires !(off == cacheOffset && cacheData != [])
      ensures CachedBlock(off) == Slice(content, off, blockSize)
    {
    }

    lemma ReadyParts()
      requires Ready()
      ensures Shape() && Verified() && Synced() && BelowOk() && this !in Below
      ensures Coding().WellFormed() && AllVerified(Coding(), Store()) && Framed(Coding(), |Store()|)
      ensures content == Plain(Coding(), 0, Store())
    {
    }

    /** If the cache does not hold a block, the cache below does not hold a stale copy of it. */
    lemma MissBelow(off: nat)
      requires Shape() && Synced() && OnBlock(off, blockSize)
      requires cacheData == [] || cacheOffset != off
      ensures BelowFresh(off)
    {
      if layer.OverMac? && layer.base.cacheData != [] {
        StoreMonotone(Coding(), off, cacheOffset);
        StoreMonotone(Coding(), cacheOffset, off);
      }
    }

    lemma ReadDone(off: nat, data: seq<byte>)
      requires Shape() && BelowOk() && BelowAt(off) && OnBlock(off, blockSize)
      requires data == Slice(content, off, blockSize) && cacheData == data && (data != [] ==> cacheOffset == off)
      requires AllVerified(Coding(), Store())
      ensures Ready() && Cached(off) && Coherent() && Handled(off)
      ensures if cacheData == [] then off >= |content| else cacheOffset == off && off < |content|
      ensures off < |content| ==> CacheAt(off)
    {
      if layer.OverMac? {
        PlainSize(Coding(), 0, Store());
        StoreMonotone(Coding(), |content|, off);
      }
      SliceSize(content, off, blockSize);
    }

    method CacheWriteOneBlock(off: nat, data: seq<byte>) returns (ghost chunk: seq<byte>)
      requires Shape() && BelowOk() && OnBlock(off, blockSize) && 0 < |data| <= blockSize
      requires FitsAt(off, |data|) || off + |data| <= |content|
      requires MergeKept(off, data)
      modifies this, Below
      ensures Shape() && BelowOk() && Synced()
      ensures cacheOffset == off && cacheData == data
      ensures Store() == Overwrite(old(Store()), StoreAt(off), chunk)
      ensures Coding().Encodes(BlockOf(off, blockSize), chunk, data)
      ensures old(Store()) != [] ==> Coding() == old(Coding())
      ensures old(Verified() && FitsAt(off, |data|)) ==>
        Verified() && content == Overwrite(old(content), off, data)
      decreases height, 2
    {
      hide *;
      ShapeParts();
      Remember(off, data);
      chunk := WriteOneBlock(off, data);
      SyncedWritten();
    }

    lemma ShapeParts()
      requires Shape()
      ensures this !in Below && Linked() && Coding().WellFormed() && Framed(Coding(), |Store()|)
      ensures content == Plain(Coding(), 0, Store())
    {
    }

    method Remember(off: nat, data: seq<byte>)
      requires Shape() && BelowOk()
      modifies this`cacheOffset, this`cacheData
      ensures cacheOffset == off && cacheData == data
      ensures Shape() && BelowOk() && Store() == old(Store()) && Coding() == old(Coding())
      ensures Verified() == old(Verified())
      decreases height, 0
    {
      hide *;
      ShapeParts();
      cacheData := data;
      cacheOffset := off;
    }

    lemma SyncedWritten()
      requires Shape() && cacheData != [] && BelowAt(cacheOffset)
      ensures Synced()
    {
    }

    /** The case of a block that fits, which keeps the file at rest. */
    method WriteFitting(off: nat, data: seq<byte>)
      requires Ready() && OnBlock(off, blockSize) && 0 < |data| <= blockSize && FitsAt(off, |data|)
      requires BlockKept(BlockOf(off, blockSize), data)
      modifies this, Below
      ensures Good() && cacheOffset == off && cacheData == data && CachedBelow(|content|)
      ensures content == Overwrite(old(content), off, data)
      decreases height, 3
    {
      ReadyParts();
      ghost var c := content;
      hide *;
      FitMerge(off, data);
      var _ := CacheWriteOneBlock(off, data);
      GoodWritten(c);
    }

    lemma GoodWritten(c: seq<byte>)
      requires Shape() && Verified() && Synced() && BelowOk() && OnBlock(cacheOffset, blockSize)
      requires 0 < |cacheData| <= blockSize && Fits(blockSize, HolesRead(), |c|, cacheOffset, |cacheData|)
      requires content == Overwrite(c, cacheOffset, cacheData)
      ensures Good() && CachedBelow(|content|)
    {
      WrittenBlock(c, cacheOffset, cacheData, blockSize, HolesRead());
    }

    // ----- Byte ranges -----------------------------------------------------------------------

    /** What reads that start in the block at `at` see: the file, or, where the cache holds a
        block that the file no longer has, the file as if it had it. */
    ghost function View(at: nat): seq<byte>
      reads this`content, this`cacheData, this`cacheOffset
    {
      if Stale(at) then Resize(content, at) + cacheData else content
    }

    method Read(off: nat, len: nat) returns (data: seq<byte>)
      requires Good()
      modifies this, Below
      ensures Good() && content == old(content)
      ensures off < |content| && len > 0 ==> CachedBelow(Min(off + len, |content|))
      ensures || cacheData == []
              || (old(cacheData) != [] && cacheOffset == old(cacheOffset))
              || cacheOffset < Min(off + Max(len, 1), |content|)
      ensures off < |content| && len > 0 && off + len > AlignDown(|content|, blockSize) ==> TailCached()
      ensures OnBlock(off, blockSize) && len <= blockSize && !old(Stale(off)) ==> Cached(off)
      ensures data == Slice(old(View(AlignDown(off, blockSize))), off, len)
      decreases height, 6
    {
      hide *;
      var first := AlignDown(off, blockSize);
      var po := off % blockSize;
      AlignRest(off, blockSize);
      GoodParts();
      ViewBlock(first);
      if po == 0 && len <= blockSize {
        SlicePrefix(View(off), off, blockSize, len);
        data := CacheReadOneBlock(off, len);
        TailRead(off, len);
        GoodAgain();
      } else {
        data := ReadBlocks(off, first, po, len);
      }
      LeastOf(off, len, |content|);
    }

    lemma GoodParts()
      requires Good()
      ensures Ready() && Coherent()
    {
    }

    lemma GoodAgain()
      requires Ready() && Coherent()
      ensures Good()
    {
    }

    /** The first block a read asks for comes from the view, and only that one can differ from
        the file. */
    lemma ViewBlock(at: nat)
      requires Coherent() && OnBlock(at, blockSize)
      ensures CachedBlock(at) == Slice(View(at), at, blockSize)
      ensures View(at) == content || (|content| <= at && |View(at)| <= at + blockSize)
      ensures !Stale(at) ==> View(at) == content
    {
    }

    /** So a read gets what the file has, exactly if it does not reach into a block that was cut off. */
    lemma ReadExactly(off: nat, len: nat)
      ensures var first := AlignDown(off, blockSize);
        Slice(View(first), off, len) == Slice(content, off, len) <==>
          !(Stale(first) && len > 0 && off < first + |cacheData|)
    {
      var first := AlignDown(off, blockSize);
      SliceSize(View(first), off, len);
      SliceSize(content, off, len);
      hide Slice, AlignDown;
    }

    /** The loop of `read`: block by block, from the block at `first`. */
    method ReadBlocks(off: nat, first: nat, skip: nat, len: nat) returns (data: seq<byte>)
      requires Good()
      requires OnBlock(first, blockSize) && skip < blockSize && off == first + skip
      modifies this, Below
      ensures Good() && content == old(content)
      ensures off < |content| && len > 0 && off + len > AlignDown(|content|, blockSize) ==> TailCached()
      ensures off < |content| && len > 0 ==> cacheData != [] ==> cacheOffset < off + len && cacheOffset < |content|
      ensures || cacheData == []
              || (old(cacheData) != [] && cacheOffset == old(cacheOffset))
              || (cacheOffset < off + len && cacheOffset < |content|)
      ensures data == Slice(old(View(first)), off, len)
      decreases height, 5
    {
      hide *;
      ghost var c, view := content, View(first);
      ReadingStart(off, first, skip, len);
      data := [];
      var at: nat, po: nat, size: nat, more := first, skip, len, true;
      ghost var tail := AlignDown(|c|, blockSize);
      GoodParts();
      TailStart(off, first);
      while size > 0 && more
        invariant Good()
        invariant Reading(c, view, off, len, data, at, po, size, more)
        invariant content == c
        invariant || cacheData == []
                  || (old(cacheData) != [] && cacheOffset == old(cacheOffset))
                  || (cacheOffset < off + len && cacheOffset < |c|)
        invariant || (at == first && size == len && more)
                  || off >= |c| || cacheData == [] || (cacheOffset < off + len && cacheOffset < |c|)
        invariant |data| + size == len && ((at == first && size == len) || off + |data| <= at)
        invariant OnBlock(at, blockSize)
        invariant off < |c| ==> view == c && if more then at <= tail else TailCached()
        decreases size, more
      {
        var piece;
        piece, more := ReadNext(c, view, off, len, data, at, po, size);
        if off < |c| { TailTurn(at, more); }
        OnBlockNext(at, blockSize);
        data := data + piece;
        size := size - |piece|;
        at := at + blockSize;
        po := 0;
      }
      ReadingDone(c, view, off, len, data, at, po, size, more);
    }

    /** The next block is at `at`, to be read from its byte `po`; `size` bytes are still to come,
        or, if not `more`, are not there. */
    ghost predicate Reading(c: seq<byte>, view: seq<byte>, off: nat, len: nat, data: seq<byte>, at: nat, po: nat,
                            size: nat, more: bool)
      reads this`content, this`cacheData, this`cacheOffset
    {
      && content == c && |data| + size == len && OnBlock(at, blockSize) && po < blockSize
      && data == Slice(view, off, |data|)
      && (more ==>
           && (size > 0 ==> at + po == off + |data|)
           && CachedBlock(at) == Slice(view, at, blockSize)
           && (view == content || (|content| <= at && |view| <= at + blockSize)))
      && (!more ==> data == Slice(view, off, len))
    }

    lemma ReadingStart(off: nat, first: nat, skip: nat, len: nat)
      requires Good() && OnBlock(first, blockSize) && skip < blockSize && off == first + skip
      ensures Reading(content, View(first), off, len, [], first, skip, len, true)
    {
      ViewBlock(first);
      SliceNone(View(first), off);
    }

    lemma ReadingNow(c: seq<byte>, view: seq<byte>, off: nat, len: nat, data: seq<byte>, at: nat, po: nat, size: nat)
      requires Reading(c, view, off, len, data, at, po, size, true) && size > 0
      ensures content == c && |data| + size == len && OnBlock(at, blockSize) && po < blockSize
      ensures data == Slice(view, off, |data|) && at + po == off + |data|
      ensures CachedBlock(at) == Slice(view, at, blockSize)
      ensures view == content || (|content| <= at && |view| <= at + blockSize)
    {
    }

    lemma ReadingDone(c: seq<byte>, view: seq<byte>, off: nat, len: nat, data: seq<byte>, at: nat, po: nat, size: nat,
                      more: bool)
      requires Reading(c, view, off, len, data, at, po, size, more) && !(size > 0 && more)
      ensures data == Slice(view, off, len) && content == c
    {
    }

    /** One turn of the loop. */
    method ReadNext(ghost c: seq<byte>, ghost view: seq<byte>, ghost off: nat, ghost len: nat, ghost data: seq<byte>,
                    at: nat, po: nat, size: nat)
      returns (piece: seq<byte>, more: bool)
      requires Good() && size > 0
      requires Reading(c, view, off, len, data, at, po, size, true)
      modifies this, Below
      ensures Good() && content == old(content)
      ensures || cacheData == []
              || (old(cacheData) != [] && cacheOffset == old(cacheOffset))
              || (cacheOffset == at && at < |content|)
      ensures |piece| <= size && (more ==> piece != [])
      ensures at < |content| ==> CacheAt(at) && cacheData != [] && cacheOffset == at
      ensures view == content && more ==> at + blockSize <= |content|
      ensures view == content && at < |content| && !more ==> |content| < at + blockSize
      ensures po < blockSize && po + |piece| <= blockSize
      ensures size > 0 ==> at + po == off + |data|
      ensures Reading(c, view, off, len, data + piece, at + blockSize, 0, size - |piece|, more)
      decreases height, 4
    {
      hide *;
      SlicePrefix(view, at, blockSize, blockSize);
      ReadingNow(c, view, off, len, data, at, po, size);
      GoodParts();
      var block := CacheReadOneBlock(at, blockSize);
      GoodAgain();
      piece := Piece(block, po, size);
      more := |block| > po && |block| == blockSize;
      TurnEnds(view, at, po, size, block);
      ReadingNext(view, off, len, data, at, po, size, block);
    }

    lemma ReadingNext(view: seq<byte>, off: nat, len: nat, data: seq<byte>, at: nat, po: nat, size: nat,
                      block: seq<byte>)
      requires |data| + size == len && OnBlock(at, blockSize) && po < blockSize && size > 0
      requires data == Slice(view, off, |data|) && at + po == off + |data|
      requires view == content || (|content| <= at && |view| <= at + blockSize)
      requires block == Slice(view, at, blockSize) && Handled(at)
      ensures var piece := Piece(block, po, size); var more := |block| > po && |block| == blockSize;
        && |piece| <= size && (more ==> piece != [])
        && Reading(content, view, off, len, data + piece, at + blockSize, 0, size - |piece|, more)
    {
      hide *;
      ReadStep(view, off, at, po, blockSize, |data|, len);
      OnBlockNext(at, blockSize);
      NextBlock(view, at);
      SliceSize(view, at, blockSize);
      ReadingAll(view, off, len, data, at, po, size, block);
    }

    lemma ReadingAll(view: seq<byte>, off: nat, len: nat, data: seq<byte>, at: nat, po: nat, size: nat,
                     block: seq<byte>)
      requires |data| + size == len && po < blockSize && size > 0 && at + po == off + |data|
      requires OnBlock(at + blockSize, blockSize) && |block| <= blockSize
      requires CachedBlock(at + blockSize) == Slice(view, at + blockSize, blockSize)
      requires view == content || (|content| <= at && |view| <= at + blockSize)
      requires var piece := Piece(block, po, size); var next := Slice(view, off, |data| + |piece|);
        && |piece| <= size && data + piece == next && |next| == |data| + |piece|
        && (|block| <= po || |block| < blockSize ==> Slice(view, off, len) == next)
        && (|block| > po && |data| + |piece| < len ==> at + |block| == off + |data| + |piece|)
        && (|block| > po ==> piece != [])
      ensures var piece := Piece(block, po, size); var more := |block| > po && |block| == blockSize;
        && |piece| <= size && (more ==> piece != [])
        && Reading(content, view, off, len, data + piece, at + blockSize, 0, size - |piece|, more)
    {
      hide Slice, OnBlock, CachedBlock, Piece;
    }

    lemma LeastOf(off: nat, len: nat, size: nat)
      ensures Min(off + len, size) == if size < off + len then size else off + len
      ensures Min(off + Max(len, 1), size) ==
        if size < off + (if len < 1 then 1 else len) then size else off + (if len < 1 then 1 else len)
      ensures CachedBelow(Min(off + len, size)) <==> (cacheData != [] ==> cacheOffset < Min(off + len, size))
    {
    }

    /** Where the turn leaves the reading and the cache. */
    lemma TurnEnds(view: seq<byte>, at: nat, po: nat, size: nat, block: seq<byte>)
      requires po < blockSize && size > 0 && block == Slice(view, at, blockSize)
      requires Handled(at) && (at < |content| ==> CacheAt(at))
      ensures at < |content| ==> CacheAt(at) && cacheData != [] && cacheOffset == at
      ensures |Piece(block, po, size)| <= blockSize - po
      ensures view == content && |block| > po && |block| == blockSize ==> at + blockSize <= |content|
      ensures view == content && at < |content| && !(|block| > po && |block| == blockSize) ==>
        |content| < at + blockSize
    {
      SliceSize(view, at, blockSize);
    }

    lemma TailStart(off: nat, first: nat)
      requires Coherent() && OnBlock(first, blockSize) && first <= off
      ensures off < |content| ==> View(first) == content && first <= AlignDown(|content|, blockSize)
    {
      if off < |content| {
        ViewBlock(first);
        hide View, OnBlock, AlignDown;
        BlockBelow(first, |content|, blockSize);
      }
    }

    lemma TailTurn(at: nat, more: bool)
      requires OnBlock(at, blockSize) && at <= AlignDown(|content|, blockSize)
      requires at < |content| ==> CacheAt(at)
      requires more ==> at + blockSize <= |content|
      requires at < |content| && !more ==> |content| < at + blockSize
      ensures if more then at + blockSize <= AlignDown(|content|, blockSize) else TailCached()
    {
      hide OnBlock, AlignDown;
      OnBlockNext(at, blockSize);
      AlignRest(|content|, blockSize);
      if more {
        BlockBelow(at + blockSize, |content|, blockSize);
      } else if at < |content| {
        SameBlock(at, AlignDown(|content|, blockSize), blockSize);
      }
    }

    /** A read of a block that reaches the end of the file. */
    lemma TailRead(off: nat, len: nat)
      requires OnBlock(off, blockSize) && len <= blockSize && Handled(off)
      requires off < |content| ==> CacheAt(off)
      ensures off < |content| && len > 0 && off + len > AlignDown(|content|, blockSize) ==> TailCached()
    {
      if off < |content| && off + len > AlignDown(|content|, blockSize) {
        hide OnBlock, AlignDown;
        BlockBelow(off, |content|, blockSize);
        SameBlock(off, AlignDown(|content|, blockSize), blockSize);
      }
    }

    lemma NextBlock(view: seq<byte>, at: nat)
      requires Handled(at)
      requires view == content || (|content| <= at && |view| <= at + blockSize)
      ensures CachedBlock(at + blockSize) == Slice(view, at + blockSize, blockSize)
    {
    }

    method GetSize() returns (size: nat)
      requires Shape()
      ensures size == |content|
      decreases height
    {
      ShapeParts();
      PlainSize(Coding(), 0, Store());
      match layer {
        case OverCipher(c) =>
          LocNoHeader(|content|, blockSize);
          size := c.GetSize();
        case OverMac(base, _, macBytes, randBytes, _) =>
          MacFacts();
          size := base.GetSize();
          size := LocWithoutHeader(size, RawSize(), HeaderSize());
      }
    }

    // ----- Padding ---------------------------------------------------------------------------

    /** The first `n` bytes of the block at `at`, as a read through the cache sees them. */
    ghost function BlockStart(at: nat, n: nat): seq<byte>
      reads this`content, this`cacheData, this`cacheOffset
    {
      Slice(CachedBlock(at), 0, n)
    }

    /** Nothing has been written if not `wrote`; a write leaves a good cache, of a block in the file. */
    twostate predicate CacheAfter(wrote: bool)
      reads this`content, this`cacheData, this`cacheOffset
    {
      && (wrote ==> CacheGood())
      && (!wrote ==> StateIs(old(content), old(cacheOffset), old(cacheData)))
    }

    ghost predicate StateIs(c: seq<byte>, co: nat, cd: seq<byte>)
      reads this`content, this`cacheData, this`cacheOffset
    {
      content == c && cacheOffset == co && cacheData == cd
    }

    ghost predicate CacheGood()
      reads this`content, this`cacheData, this`cacheOffset
    {
      Coherent() && CachedBelow(|content|)
    }

    twostate predicate Untouched()
      reads this, Below
    {
      unchanged(this) && unchanged(Below)
    }

    twostate lemma NothingDone()
      requires unchanged(this) && unchanged(Below)
      ensures Untouched()
    {
    }

    /** If padFile has to fill up the old last block, it can be stored. */
    ghost predicate PadKept(m: nat, n: nat)
      reads this`content, this`cacheData, this`cacheOffset
    {
      var i := AlignDown(m, blockSize);
      i < m && i < AlignDown(n, blockSize) ==>
        BlockKept(BlockOf(i, blockSize), Resize(BlockStart(i, m - i), blockSize))
    }

    /** Extend a file of size `m`, which may have been grown to `n` already, to size `n`; the
        new last block only if `force`. */
    method PadFile(m: nat, n: nat, force: bool)
      requires Ready()
      requires m < n && (|content| == m || (|content| == n && force))
      requires GrowsWhole(m, n) && PadKept(m, n)
      modifies this, Below
      ensures Ready()
      ensures content == Padded(old(content), old(BlockStart(AlignDown(m, blockSize), m - AlignDown(m, blockSize))),
                                m, n, blockSize, force, allowHoles)
      ensures CacheAfter(PadWrites(m, n, blockSize, force, allowHoles))
      ensures force && AlignDown(n, blockSize) < n ==> CacheAt(AlignDown(n, blockSize))
      ensures allowHoles && !PadWrites(m, n, blockSize, force, allowHoles) ==> Untouched()
      decreases height, 8
    {
      hide *;
      var i, u, j := AlignDown(m, blockSize), AlignUp(m, blockSize), AlignDown(n, blockSize);
      PadCases(content, BlockStart(i, m - i), m, n, blockSize, force, allowHoles);
      PadNow(m, n);
      if i == j {
        PadSame(i, m, n, force);
      } else {
        PadSeveral(i, m, u, j, n, force);
      }
    }

    lemma PadNow(m: nat, n: nat)
      requires m < n && GrowsWhole(m, n) && PadKept(m, n)
      ensures allowHoles && !HolesRead() ==> AlignUp(m, blockSize) >= AlignDown(n, blockSize)
      ensures var i := AlignDown(m, blockSize); i < m && i < AlignDown(n, blockSize) ==>
        BlockKept(BlockOf(i, blockSize), Resize(BlockStart(i, m - i), blockSize))
    {
    }

    /** The case of a single block, which the caller will pad when it writes, unless `force`. */
    method PadSame(i: nat, m: nat, n: nat, force: bool)
      requires Ready() && OnBlock(i, blockSize) && i <= m < n < i + blockSize
      requires |content| == m || |content| == n
      modifies this, Below
      ensures Ready()
      ensures content ==
        if force then Overwrite(old(content), i, Resize(old(BlockStart(i, m - i)), n - i)) else old(content)
      ensures CacheAfter(force) && (force ==> CacheAt(i))
      ensures allowHoles && !force ==> Untouched()
      decreases height, 6
    {
      hide *;
      NothingDone();
      SameBlockFits(i, m, n);
      if force {
        ResizeSize(BlockStart(i, m - i), n - i);
        ShortKept(i, Resize(BlockStart(i, m - i), n - i));
        PadFirst(i, m - i, n - i);
      }
      CacheNow(force);
    }

    lemma ShortKept(at: nat, x: seq<byte>)
      requires Ready() && (!allowHoles || |x| != blockSize)
      ensures BlockKept(BlockOf(at, blockSize), x)
    {
      hide *;
      ReadyParts();
      AlwaysKept(BlockOf(at, blockSize), x);
    }

    lemma SameBlockFits(i: nat, m: nat, n: nat)
      requires i <= m < n && (|content| == m || |content| == n)
      ensures FitsAt(i, n - i)
    {
    }

    twostate lemma CacheNow(wrote: bool)
      requires wrote ==> Coherent() && CachedBelow(|content|)
      requires !wrote ==> content == old(content) && cacheOffset == old(cacheOffset) && cacheData == old(cacheData)
      ensures CacheAfter(wrote)
    {
    }

    /** Read the old last block and write it back with zeros up to `len` bytes. */
    method PadFirst(at: nat, used: nat, len: nat)
      requires Ready() && OnBlock(at, blockSize) && 0 < len <= blockSize && FitsAt(at, len)
      requires BlockKept(BlockOf(at, blockSize), Resize(BlockStart(at, used), len))
      modifies this, Below
      ensures Ready() && Coherent() && CachedBelow(|content|) && CacheAt(at)
      ensures content == Overwrite(old(content), at, Resize(old(BlockStart(at, used)), len))
      decreases height, 5
    {
      ghost var first := BlockStart(at, used);
      assert first == Slice(CachedBlock(at), 0, used) && |Resize(first, len)| == len;
      ghost var c := content;
      hide *;
      var block := CacheReadOneBlock(at, used);
      FitsStill(c, at, len);
      WriteFitting(at, Resize(block, len));
      GoodParts();
      CacheIsAt(at);
    }

    lemma FitsStill(c: seq<byte>, at: nat, len: nat)
      requires content == c && Fits(blockSize, HolesRead(), |c|, at, len)
      ensures FitsAt(at, len)
    {
    }

    lemma CacheIsAt(at: nat)
      requires cacheData != [] && cacheOffset == at
      ensures CacheAt(at)
    {
    }

    /** The case of several blocks. */
    method PadSeveral(i: nat, m: nat, u: nat, j: nat, n: nat, force: bool)
      requires Ready()
      requires OnBlock(i, blockSize) && OnBlock(u, blockSize) && OnBlock(j, blockSize)
      requires i <= m <= u <= j <= n < j + blockSize && u == (if i == m then m else i + blockSize)
      requires |content| == m || (|content| == n && force)
      requires i < m ==> BlockKept(BlockOf(i, blockSize), Resize(BlockStart(i, m - i), blockSize))
      requires allowHoles && !HolesRead() ==> u >= j
      modifies this, Below
      ensures Ready()
      ensures content == PadBlocks(old(content), old(BlockStart(i, m - i)), i, u, j, n, force, allowHoles)
      ensures CacheAfter(i < m || (!allowHoles && u < j) || (force && j < n))
      ensures force && j < n ==> CacheAt(j)
      ensures allowHoles && i == m && !(force && j < n) ==> Untouched()
      decreases height, 7
    {
      ghost var c, first := content, BlockStart(i, m - i);
      hide *;
      NothingDone();
      SeveralCases(c, first, i, m, u, j, n, force);
      PadOld(i, m);
      label Filled:
      PadRest(u, j, n, force);
      WroteEither@Filled(i < m, (!allowHoles && u < j) || (force && j < n));
    }

    /** Fill up the old last block, if it is not full. */
    method PadOld(i: nat, m: nat)
      requires Ready() && OnBlock(i, blockSize) && i <= m
      requires i < m ==> FitsAt(i, blockSize)
      requires i < m ==> BlockKept(BlockOf(i, blockSize), Resize(BlockStart(i, m - i), blockSize))
      modifies this, Below
      ensures Ready()
      ensures content ==
        if i < m then Overwrite(old(content), i, Resize(old(BlockStart(i, m - i)), blockSize)) else old(content)
      ensures CacheAfter(i < m) && (i == m ==> Untouched())
      decreases height, 6
    {
      hide *;
      NothingDone();
      if i < m {
        PadFirst(i, m - i, blockSize);
      }
      CacheNow(i < m);
    }

    /** A good cache is still good after nothing more has been written. */
    twostate lemma WroteEither(new first: bool, new second: bool)
      requires CacheAfter(second) && (first ==> old(CacheGood()))
      ensures first ==> CacheGood()
    {
    }

    /** What is between the two steps, if there are two. */
    lemma SeveralCases(c: seq<byte>, first: seq<byte>, i: nat, m: nat, u: nat, j: nat, n: nat, force: bool)
      requires i <= m <= u <= j <= n && u == (if i == m then m else i + blockSize)
      requires |c| == m || |c| == n
      ensures var c2 := if i < m then Overwrite(c, i, Resize(first, blockSize)) else c;
        && PadBlocks(c, first, i, u, j, n, force, allowHoles) == PadTail(c2, u, j, n, force, allowHoles)
        && (u == |c2| || |c2| == n)
      ensures i <= |c| && (i < m ==> Fits(blockSize, HolesRead(), |c|, i, blockSize))
    {
      PadSizes(c, first, i, m, u, j, n, allowHoles);
      PadNothing(c, i);
      assert i == m ==> Resize(first, u - i) == Zeros(0);
    }

    /** The zero blocks from `u` to `j`, and the zeros of the new last block. */
    method PadRest(u: nat, j: nat, n: nat, force: bool)
      requires Ready()
      requires OnBlock(u, blockSize) && OnBlock(j, blockSize) && u <= j <= n < j + blockSize
      requires u == |content| || |content| == n
      requires allowHoles && !HolesRead() ==> u >= j
      modifies this, Below
      ensures Ready()
      ensures content == PadTail(old(content), u, j, n, force, allowHoles)
      ensures CacheAfter((!allowHoles && u < j) || (force && j < n))
      ensures force && j < n ==> CacheAt(j)
      ensures allowHoles && !(force && j < n) ==> Untouched()
      decreases height, 6
    {
      ghost var c := content;
      ghost var c3 := if allowHoles then c else Overwrite(c, u, Zeros(j - u));
      ghost var c4 := PadTail(c, u, j, n, force, allowHoles);
      assert Untouched();
      PadTailCases(c, u, j, n, force, allowHoles, blockSize);
      ghost var co, cd := cacheOffset, cacheData;
      hide Untouched, Shape, Ready, Good, Coherent, Store, Coding, Overwrite, PadTail, OnBlock, Fits, Zeros;
      if !allowHoles {
        PadZeros(u, j);
      }
      assert content == c3;
      if force && n != j {
        ShortKept(j, Zeros(n - j));
        WriteFitting(j, Zeros(n - j));
        GoodParts();
      }
    }

    /** Write zero blocks from `first` up to `last`. */
    method PadZeros(first: nat, last: nat)
      requires Ready()
      requires first <= last && OnBlock(first, blockSize) && OnBlock(last, blockSize) && first <= |content|
      requires !allowHoles
      modifies this, Below
      ensures Ready()
      ensures content == Overwrite(old(content), first, Zeros(last - first))
      ensures CacheAfter(first < last)
      decreases height, 5
    {
      hide *;
      var at: nat := first;
      ghost var c, co, cd := content, cacheOffset, cacheData;
      ZeroedNone(first);
      while at < last
        invariant first <= at <= last && OnBlock(at, blockSize)
        invariant Ready()
        invariant Zeroed(c, co, cd, first, at)
        decreases last - at
      {
        ZeroedNext(c, co, cd, first, at, last);
        ShortKept(at, Zeros(blockSize));
        WriteFitting(at, Zeros(blockSize));
        ZeroedWritten(c, co, cd, first, at + blockSize);
        at := at + blockSize;
      }
      ZeroedDone(c, co, cd, first, last);
    }

    /** Zeros have been written over `c` from `first` up to `at`; if that is nothing, the cache
        is as it was. */
    ghost predicate Zeroed(c: seq<byte>, co: nat, cd: seq<byte>, first: nat, at: nat)
      reads this`content, this`cacheData, this`cacheOffset
    {
      && first <= at && content == Overwrite(c, first, Zeros(at - first))
      && (first < at ==> CacheGood())
      && (first == at ==> StateIs(c, co, cd))
    }

    lemma ZeroedNone(first: nat)
      ensures Zeroed(content, cacheOffset, cacheData, first, first)
    {
      PadNothing(content, first);
    }

    lemma ZeroedWritten(c: seq<byte>, co: nat, cd: seq<byte>, first: nat, at: nat)
      requires first < at && content == Overwrite(c, first, Zeros(at - first)) && Good() && CachedBelow(|content|)
      ensures Zeroed(c, co, cd, first, at) && Ready()
    {
    }

    twostate lemma ZeroedDone(new c: seq<byte>, new co: nat, new cd: seq<byte>, new first: nat, new at: nat)
      requires Zeroed(c, co, cd, first, at)
      requires c == old(content) && co == old(cacheOffset) && cd == old(cacheData)
      ensures content == Overwrite(c, first, Zeros(at - first)) && CacheAfter(first < at)
    {
    }

    lemma ZeroedNext(c: seq<byte>, co: nat, cd: seq<byte>, first: nat, at: nat, last: nat)
      requires at < last && first <= |c| && Zeroed(c, co, cd, first, at)
      requires OnBlock(at, blockSize) && OnBlock(last, blockSize)
      ensures at + blockSize <= last && OnBlock(at + blockSize, blockSize)
      ensures 0 < |Zeros(blockSize)| <= blockSize && FitsAt(at, |Zeros(blockSize)|)
      ensures Overwrite(content, at, Zeros(blockSize)) == Overwrite(c, first, Zeros(at + blockSize - first))
    {
      PadStep(c, first, at, last, blockSize);
    }

    // ----- Writing ---------------------------------------------------------------------------

    method Write(off: nat, data: seq<byte>)
      requires Good() && data != []
      requires WriteKept(off, data) && Growable(off)
      modifies this, Below
      ensures Good()
      ensures content == Overwrite(old(content), off, data)
      ensures CachedBelow(|content|) && EndCached(off + |data|)
      ensures OnBlock(off, blockSize) && |data| <= blockSize ==> Cached(off)
      decreases height, 10
    {
      hide *;
      var fileSize := GetSize();
      GoodParts();
      ghost var c := content;
      label Before:
      var at, po, last := AlignDown(off, blockSize), off % blockSize, AlignDown(fileSize, blockSize);
      AlignRest(off, blockSize);
      WriteKeeps(off, data);
      if off > fileSize {
        ReadLast();
        PadKeeps(c, off, Overwrite(c, off, data));
        PadFile(fileSize, off, false);
        StillCoherent@Before(PadWrites(fileSize, off, blockSize, false, allowHoles));
        GoodAgain();
        ExtendedByPad(c, off);
        WriteExtended(c, off, at, po, fileSize, last, data);
      } else {
        ExtendedNot(off);
        WriteExtended(c, off, at, po, fileSize, last, data);
      }
    }

    /** A read through a good cache finds the last block as it is in the file. */
    lemma ReadLast()
      requires Coherent()
      ensures var i := AlignDown(|content|, blockSize); BlockStart(i, |content| - i) == content[i..]
    {
    }

    lemma WriteKeeps(off: nat, data: seq<byte>)
      requires WriteKept(off, data) && data != [] && Growable(off)
      ensures KeptIn(Overwrite(content, off, data), off, off + |data|) && GrowsWhole(|content|, off)
      ensures off > |content| ==>
        && KeptIn(Overwrite(content, off, data), |content|, AlignUp(|content|, blockSize))
        && |Overwrite(content, off, data)| >= off
        && Overwrite(content, off, data)[..off] == Resize(content, off)
    {
      hide KeptIn;
      OverwriteSize(content, off, data);
      if off > |content| {
        assert Overwrite(content, off, data)[..off] == Resize(content, off);
      }
    }

    /** The filled up old last block is one of the new file `r`. */
    lemma PadKeeps(c: seq<byte>, n: nat, r: seq<byte>)
      requires Ready() && |c| < n <= |r| && r[..n] == Resize(c, n)
      requires KeptIn(r, |c|, AlignUp(|c|, blockSize))
      requires var i := AlignDown(|c|, blockSize); BlockStart(i, |c| - i) == c[i..]
      ensures PadKept(|c|, n)
    {
      hide *;
      var i, u := AlignDown(|c|, blockSize), AlignUp(|c|, blockSize);
      ReadyParts();
      AlignCases(|c|, n, blockSize);
      if i < |c| && i < AlignDown(n, blockSize) {
        KeptAt(r, |c|, u, i);
        FilledSlice(c, n, r, i, blockSize);
      }
      PadKeptIf(|c|, n, i);
    }

    lemma PadKeptIf(m: nat, n: nat, i: nat)
      requires i == AlignDown(m, blockSize)
      requires i < m && i < AlignDown(n, blockSize) ==>
        BlockKept(BlockOf(i, blockSize), Resize(BlockStart(i, m - i), blockSize))
      ensures PadKept(m, n)
    {
      hide BlockKept, BlockStart, Resize;
    }

    twostate lemma StillCoherent(wrote: bool)
      requires old(Coherent()) && CacheAfter(wrote)
      ensures Coherent()
    {
    }

    /** The file was `c`, and has been extended with zeros as far as a write at `off` needs it. */
    ghost predicate Extended(c: seq<byte>, off: nat)
      reads this`content
    {
      && |c| <= |content| && content == Resize(c, |content|)
      && |content| <= Max(|c|, AlignDown(off, blockSize))
      && FitsAt(AlignDown(off, blockSize), blockSize)
      && (off <= |c| ==> content == c)
    }

    lemma ExtendedNot(off: nat)
      requires off <= |content|
      ensures Extended(content, off)
    {
    }

    lemma ExtendedByPad(c: seq<byte>, off: nat)
      requires |c| < off && GrowsWhole(|c|, off)
      requires content == Padded(c, c[AlignDown(|c|, blockSize)..], |c|, off, blockSize, false, allowHoles)
      ensures Extended(c, off)
    {
      PadClean(c, off, blockSize, false, allowHoles);
      AlignStep(|c|, off, blockSize);
      hide Padded, OnBlock, AlignDown, AlignUp;
    }

    /** A block that needs no merging is written as it is, anything else block by block. */
    method WriteExtended(ghost c: seq<byte>, off: nat, at: nat, po: nat, fileSize: nat, last: nat, data: seq<byte>)
      requires Good() && data != [] && Extended(c, off) && fileSize == |c|
      requires OnBlock(at, blockSize) && at == AlignDown(off, blockSize) && po < blockSize && off == at + po
      requires last == AlignDown(fileSize, blockSize)
      requires KeptIn(Overwrite(c, off, data), off, off + |data|)
      modifies this, Below
      ensures Good()
      ensures content == Overwrite(c, off, data)
      ensures CachedBelow(|content|) && EndCached(off + |data|)
      ensures po == 0 && |data| <= blockSize ==> Cached(off)
      decreases height, 9
    {
      ghost var p := content;
      WriteOver(c, off, data);
      GoodParts();
      if po == 0 && (|data| == blockSize || (|data| < blockSize && at == last && |data| >= fileSize - last)) {
        FastFits(c, off, last, |data|);
        FastKept(c, off, data);
        hide *;
        WriteFitting(off, data);
        EndIs(off, off + |data|);
      } else {
        hide *;
        WriteBlocks(c, off, at, po, fileSize, data);
      }
      if po == 0 && |data| <= blockSize {
        GoodCached(off);
      }
    }

    lemma EndIs(at: nat, end: nat)
      requires cacheData != [] && cacheOffset == at && OnBlock(at, blockSize) && at < end <= at + blockSize
      ensures EndCached(end)
    {
    }

    lemma FastFits(c: seq<byte>, off: nat, last: nat, n: nat)
      requires Extended(c, off) && OnBlock(off, blockSize) && AlignDown(off, blockSize) == off
      requires last == AlignDown(|c|, blockSize)
      requires n == blockSize || (off == last && n >= |c| - last)
      ensures FitsAt(off, n)
    {
    }

    lemma FastKept(c: seq<byte>, off: nat, data: seq<byte>)
      requires Ready() && OnBlock(off, blockSize) && 0 < |data| <= blockSize
      requires KeptIn(Overwrite(c, off, data), off, off + |data|)
      ensures BlockKept(BlockOf(off, blockSize), data)
    {
      hide *;
      ReadyParts();
      if |data| == blockSize {
        KeptAt(Overwrite(c, off, data), off, off + |data|, off);
        WrittenSlice(c, off, data, blockSize);
      } else {
        ShortKept(off, data);
      }
    }

    lemma WriteOver(c: seq<byte>, off: nat, data: seq<byte>)
      requires Extended(c, off) && data != []
      ensures Overwrite(content, off, data) == Overwrite(c, off, data)
    {
      var p := content;
      OverwriteSize(p, off, data);
      OverwriteSize(c, off, data);
      var l, r := Overwrite(p, off, data), Overwrite(c, off, data);
      if p != c {
        forall k | 0 <= k < |l| ensures l[k] == r[k] {
          OverwriteAt(p, off, data, k);
          OverwriteAt(c, off, data, k);
        }
      }
    }

    lemma GoodCached(off: nat)
      requires Good() && cacheData != [] && cacheOffset == off && off < |content|
      ensures Cached(off)
    {
    }

    /** The loop of `write`. */
    method WriteBlocks(ghost c: seq<byte>, off: nat, first: nat, skip: nat, fileSize: nat, data: seq<byte>)
      requires Good() && data != [] && Extended(c, off) && fileSize == |c|
      requires OnBlock(first, blockSize) && first == AlignDown(off, blockSize)
      requires skip < blockSize && off == first + skip
      requires KeptIn(Overwrite(content, off, data), off, off + |data|)
      modifies this, Below
      ensures Good() && content == Overwrite(old(content), off, data)
      ensures CachedBelow(|content|) && EndCached(off + |data|)
      ensures skip == 0 && |data| <= blockSize ==> cacheData != [] && cacheOffset == off && off < |content|
      decreases height, 8
    {
      hide *;
      ghost var p := content;
      var at: nat, po: nat, done: nat := first, skip, 0;
      WritingStart(c, off, skip, data, first, fileSize);
      while done < |data|
        invariant done <= |data|
        invariant Writing(p, off, skip, data, done, at, po, fileSize)
        decreases |data| - done
      {
        var n := WriteNext(p, off, skip, data, done, at, po, fileSize);
        done := done + n;
        at := at + blockSize;
        po := 0;
      }
      WritingDone(p, off, skip, data, at, po, fileSize);
    }

    /** The first `done` bytes have been written over `p`; the block at `at` is next. */
    ghost predicate Writing(p: seq<byte>, off: nat, skip: nat, data: seq<byte>, done: nat, at: nat, po: nat,
                            fileSize: nat)
      reads this`content, this`cacheData, this`cacheOffset, Below
    {
      && Good()
      && (done > 0 ==> CachedBelow(|content|) && EndCached(off + done))
      && Written(p, off, data, done)
      && WriteAhead(off, |data|, done, at, po, fileSize)
      && WrittenOne(off, skip, |data|, done, at, po)
    }

    ghost predicate Written(p: seq<byte>, off: nat, data: seq<byte>, done: nat)
      reads this`content
    {
      done <= |data| && content == Overwrite(p, off, Front(data, done))
    }

    /** The next block has room for a whole block. */
    ghost predicate WriteAhead(off: nat, len: nat, done: nat, at: nat, po: nat, fileSize: nat)
      reads this`content
    {
      && OnBlock(at, blockSize) && po < blockSize && fileSize <= |content|
      && (done < len ==>
           && at + po == off + done
           && |content| <= Max(fileSize, at)
           && FitsAt(at, blockSize))
    }

    /** A write of at most one block takes one turn, and leaves that block cached. */
    ghost predicate WrittenOne(off: nat, skip: nat, len: nat, done: nat, at: nat, po: nat)
      reads this`content, this`cacheData, this`cacheOffset
    {
      skip == 0 && len <= blockSize ==>
        if done == 0 then at == off && po == 0
        else done == len && cacheData != [] && cacheOffset == off && off < |content|
    }

    lemma WritingStart(c: seq<byte>, off: nat, skip: nat, data: seq<byte>, first: nat, fileSize: nat)
      requires Good() && data != [] && Extended(c, off) && fileSize == |c|
      requires OnBlock(first, blockSize) && first == AlignDown(off, blockSize)
      requires skip < blockSize && off == first + skip
      ensures Writing(content, off, skip, data, 0, first, skip, fileSize)
    {
      assert Front(data, 0) == [];
    }

    lemma WritingDone(p: seq<byte>, off: nat, skip: nat, data: seq<byte>, at: nat, po: nat, fileSize: nat)
      requires Writing(p, off, skip, data, |data|, at, po, fileSize) && data != []
      ensures Good() && content == Overwrite(p, off, data) && CachedBelow(|content|)
      ensures EndCached(off + |data|)
      ensures skip == 0 && |data| <= blockSize ==> cacheData != [] && cacheOffset == off && off < |content|
    {
      assert Front(data, |data|) == data;
    }

    /** One turn of the loop. */
    method WriteNext(ghost p: seq<byte>, ghost off: nat, ghost skip: nat, data: seq<byte>, done: nat,
                     at: nat, po: nat, fileSize: nat)
      returns (n: nat)
      requires done < |data|
      requires Writing(p, off, skip, data, done, at, po, fileSize)
      requires KeptIn(Overwrite(p, off, data), off, off + |data|)
      modifies this, Below
      ensures 0 < n <= |data| - done
      ensures Writing(p, off, skip, data, done + n, at + blockSize, 0, fileSize)
      decreases height, 7
    {
      n := Min(blockSize - po, |data| - done);
      ghost var c := content;
      var piece := Part(data, done, n);
      WritingNow(p, off, skip, data, done, at, po, fileSize);
      assert |piece| == n && po < blockSize;
      hide *;
      var block := MergedBlock(at, po, piece, fileSize);
      MergedFits(c, at, po, piece);
      MergedKept(p, c, off, data, done, at, po, n);
      WriteFitting(at, block);
      WritingNext(p, c, off, skip, data, done, at, po, n, fileSize);
    }

    lemma WritingNow(p: seq<byte>, off: nat, skip: nat, data: seq<byte>, done: nat, at: nat, po: nat, fileSize: nat)
      requires Writing(p, off, skip, data, done, at, po, fileSize) && done < |data|
      ensures Good() && OnBlock(at, blockSize) && po < blockSize && at + po == off + done
      ensures content == Overwrite(p, off, Front(data, done))
      ensures fileSize <= |content| <= Max(fileSize, at) && FitsAt(at, blockSize)
      ensures skip == 0 && |data| <= blockSize ==> done == 0 && at == off && po == 0
    {
    }

    /** The block to write: the piece itself, the piece behind zeros where the file had no block,
        or the old block with the piece merged in. */
    method MergedBlock(at: nat, po: nat, piece: seq<byte>, fileSize: nat) returns (block: seq<byte>)
      requires Good() && OnBlock(at, blockSize) && piece != [] && po + |piece| <= blockSize
      requires fileSize <= |content| <= Max(fileSize, at)
      modifies this, Below
      ensures Good() && content == old(content)
      ensures block == Overwrite(Slice(content, at, blockSize), po, piece)
      decreases height, 6
    {
      GoodParts();
      MergeCases(content, at, po, piece, blockSize, fileSize);
      if |piece| == blockSize || (po == 0 && at + |piece| >= fileSize) {
        block := piece;
      } else if at >= fileSize {
        block := Zeros(po) + piece;
      } else {
        assert CachedBlock(at) == Slice(content, at, blockSize) by { FileBlock(at); }
        SlicePrefix(content, at, blockSize, blockSize);
        hide *;
        block := CacheReadOneBlock(at, blockSize);
        GoodAgain();
        block := Overwrite(block, po, piece);
      }
    }

    lemma FileBlock(at: nat)
      requires Coherent() && at < |content|
      ensures CachedBlock(at) == Slice(content, at, blockSize)
    {
    }

    lemma MergedFits(c: seq<byte>, at: nat, po: nat, piece: seq<byte>)
      requires piece != [] && po + |piece| <= blockSize && content == c && FitsAt(at, blockSize)
      ensures var block := Overwrite(Slice(c, at, blockSize), po, piece);
        0 < |block| <= blockSize && FitsAt(at, |block|) && Overwrite(c, at, block) == Overwrite(c, at + po, piece)
    {
      OverwriteSize(Slice(c, at, blockSize), po, piece);
      OverwriteMerged(c, at, blockSize, po, piece);
    }

    /** A merged block is one of the new file. */
    lemma MergedKept(p: seq<byte>, c: seq<byte>, off: nat, data: seq<byte>, done: nat, at: nat, po: nat, n: nat)
      requires Good() && OnBlock(at, blockSize) && po < blockSize && at + po == off + done && done < |data|
      requires n == Min(blockSize - po, |data| - done) && c == Overwrite(p, off, Front(data, done))
      requires KeptIn(Overwrite(p, off, data), off, off + |data|)
      ensures BlockKept(BlockOf(at, blockSize), Overwrite(Slice(c, at, blockSize), po, Part(data, done, n)))
    {
      hide *;
      GoodParts();
      ReadyParts();
      PartSize(blockSize - po, |data| - done);
      MergedSlice(p, c, off, data, done, at, po, n, blockSize);
      KeptAt(Overwrite(p, off, data), off, off + |data|, at);
    }

    lemma WritingNext(p: seq<byte>, c: seq<byte>, off: nat, skip: nat, data: seq<byte>, done: nat, at: nat, po: nat,
                      n: nat, fileSize: nat)
      requires done < |data| && n == Min(blockSize - po, |data| - done) && po < blockSize
      requires OnBlock(at, blockSize) && at + po == off + done && c == Overwrite(p, off, Front(data, done))
      requires fileSize <= |c| <= Max(fileSize, at)
      requires content == Overwrite(c, at + po, Part(data, done, n))
      requires Good() && cacheData != [] && cacheOffset == at && CachedBelow(|content|)
      requires skip == 0 && |data| <= blockSize ==> done == 0 && at == off && po == 0
      ensures Writing(p, off, skip, data, done + n, at + blockSize, 0, fileSize)
    {
      hide *;
      PartSize(blockSize - po, |data| - done);
      AheadNext(off, |data|, done, at, po, n, fileSize, Part(data, done, n), c);
      EndIs(at, off + done + n);
      WriteMore(p, off, data, done, n);
      WritingAll(p, off, skip, data, done + n, at + blockSize, 0, fileSize);
    }

    lemma PartSize(room: nat, left: nat)
      requires room > 0 && left > 0
      ensures 0 < Min(room, left) <= left
    {
    }

    lemma AheadNext(off: nat, len: nat, done: nat, at: nat, po: nat, n: nat, fileSize: nat, piece: seq<byte>,
                    c: seq<byte>)
      requires done < len && n == Min(blockSize - po, len - done) && po < blockSize && |piece| == n
      requires OnBlock(at, blockSize) && at + po == off + done && content == Overwrite(c, at + po, piece)
      requires fileSize <= |c| <= Max(fileSize, at)
      ensures WriteAhead(off, len, done + n, at + blockSize, 0, fileSize)
      ensures at < off + done + n <= at + blockSize
      ensures done + n <= len && at < |content| && (done == 0 && po == 0 && len <= blockSize ==> n == len) && n > 0
    {
      OnBlockNext(at, blockSize);
      OverwriteSize(c, at + po, piece);
      WritingSizes(|c|, len - done, at, po, n, fileSize, blockSize, HolesRead());
      hide Overwrite, OnBlock, Max, Fits;
    }

    lemma WritingAll(p: seq<byte>, off: nat, skip: nat, data: seq<byte>, done: nat, at: nat, po: nat, fileSize: nat)
      requires EndCached(off + done)
      requires Good() && CachedBelow(|content|) && done <= |data| && content == Overwrite(p, off, Front(data, done))
      requires WriteAhead(off, |data|, done, at, po, fileSize)
      requires skip == 0 && |data| <= blockSize ==>
        done > 0 && done == |data| && cacheData != [] && cacheOffset == off && off < |content|
      ensures Writing(p, off, skip, data, done, at, po, fileSize)
    {
      hide Good, WriteAhead, Overwrite, Front;
    }

    // ----- Truncation ------------------------------------------------------------------------

    /** There is no file header to keep the raw size apart from the plain size. */
    predicate Headerless() {
      layer.OverCipher? && !layer.cipherLayer.haveHeader
    }

    /** A file header, if there is to be one, has been written. */
    ghost predicate HasHeader()
      reads Below
    {
      layer.OverCipher? && layer.cipherLayer.haveHeader ==>
        layer.cipherLayer.raw in Below && layer.cipherLayer.raw.content != []
    }

    /** The last block, if it is not a whole one, is cached. */
    ghost predicate TailCached()
      reads this`content, this`cacheData, this`cacheOffset
    {
      OnBlock(|content|, blockSize) || (cacheData != [] && cacheOffset == AlignDown(|content|, blockSize))
    }

    lemma EndIsTail()
      requires EndCached(|content|)
      ensures TailCached()
    {
      if !OnBlock(|content|, blockSize) {
        hide OnBlock;
        SameBlock(cacheOffset, AlignDown(|content|, blockSize), blockSize);
      }
    }

    /** Whether extending the file is safe: without a header the raw file grows before the old
        partial last block is read, and only the cache still has that block. */
    ghost predicate GrowsCleanly(size: nat)
      reads this`content, this`cacheData, this`cacheOffset
    {
      || size <= |content|
      || !Headerless()
      || TailCached()
    }

    /** The old last block of a file of `m` bytes, read once the raw file has grown to `size`. */
    ghost function GrownStart(m: nat, store: seq<byte>, code: Code, size: nat): seq<byte> {
      var i := AlignDown(m, blockSize);
      Slice(code.Decode(BlockOf(i, blockSize), Slice(Resize(store, size), i, blockSize)), 0, m - i)
    }

    ghost function Truncated(size: nat): seq<byte>
      requires Shape()
      reads this`content, this`cacheData, this`cacheOffset, Below
    {
      if GrowsCleanly(size) then Resize(content, size)
      else Resize(content[..AlignDown(|content|, blockSize)] + GrownStart(|content|, Store(), Coding(), size), size)
    }

    /** So an extension keeps the file, exactly if it is safe or the old last block happens to be
        the same when it is decoded as part of a longer one. */
    lemma GrowthExactly(size: nat)
      requires Shape() && size > |content|
      ensures Truncated(size) == Resize(content, size) <==>
        || GrowsCleanly(size)
        || GrownStart(|content|, Store(), Coding(), size) == content[AlignDown(|content|, blockSize)..]
    {
      if !GrowsCleanly(size) {
        var i, first := AlignDown(|content|, blockSize), GrownStart(|content|, Store(), Coding(), size);
        GrownStartSize(size);
        hide *;
        SameGrowth(content, i, first, size);
        GrownIs(size);
      }
    }

    lemma GrownIs(size: nat)
      requires Shape() && !GrowsCleanly(size)
      ensures Truncated(size) ==
        Resize(content[..AlignDown(|content|, blockSize)] + GrownStart(|content|, Store(), Coding(), size), size)
    {
    }

    lemma GrownStartSize(size: nat)
      requires Shape() && size > |content| && !GrowsCleanly(size)
      ensures |GrownStart(|content|, Store(), Coding(), size)| == |content| - AlignDown(|content|, blockSize)
    {
      var m, i := |content|, AlignDown(|content|, blockSize);
      var chunk := Slice(Resize(Store(), size), i, blockSize);
      CipherFacts();
      SliceSize(Resize(Store(), size), i, blockSize);
      ResizeSize(Store(), size);
      DecodeSize(Coding(), BlockOf(i, blockSize), chunk);
      SliceSize(Coding().Decode(BlockOf(i, blockSize), chunk), 0, m - i);
      hide Shape, GrowsCleanly, Code.Decode, Slice, Resize, AlignDown, Plain, Framed;
    }

    /** The cache holds a block, cut off earlier, that is not zero and that the file would get
        back as a hole: from whole blocks to whole blocks nothing is written. */
    ghost predicate ExposesStale(size: nat)
      requires Shape()
      reads this`content, this`cacheData, this`cacheOffset, Below
      decreases height
    {
      && GrowsByHoles(size)
      && (StaleIn(content, size) || BelowExposes(size))
    }

    /** A block that was cut off, and is not zero, comes back when `c` is extended to `size`. */
    ghost predicate StaleIn(c: seq<byte>, size: nat)
      reads this`cacheData, this`cacheOffset
    {
      cacheData != [] && |c| <= cacheOffset < size && cacheData != Zeros(blockSize)
    }

    ghost predicate BelowExposes(size: nat)
      requires Shape()
      reads this`content, Below
      decreases height, 0
    {
      layer.OverMac? && layer.base.ExposesStale(StoreAt(size))
    }

    /** What a truncation of `c` does to a cache of `cd` at `co`. */
    ghost predicate CacheMoved(size: nat, c: seq<byte>, co: nat, cd: seq<byte>)
      reads this`cacheData, this`cacheOffset
    {
      && (size != |c| && !OnBlock(size, blockSize) ==> CacheAt(AlignDown(size, blockSize)))
      && (size < |c| && OnBlock(size, blockSize) ==> CacheIs(co, cd))
      && (size == |c| ==> CacheIs(co, cd))
      && (size > |c| && !PadWrites(|c|, size, blockSize, true, allowHoles) ==> CacheIs(co, cd))
      && (size > |c| && PadWrites(|c|, size, blockSize, true, allowHoles) ==> CachedBelow(size))
    }

    ghost predicate CacheAt(off: nat)
      reads this`cacheData, this`cacheOffset
    {
      cacheData != [] && cacheOffset == off
    }

    ghost predicate CacheIs(co: nat, cd: seq<byte>)
      reads this`cacheData, this`cacheOffset
    {
      cacheOffset == co && cacheData == cd
    }

    /** Cut or extend the layer below to the size for `n` plain bytes. */
    method TruncateStore(n: nat)
      requires Shape() && BelowOk() && HasHeader() && BelowTakes(n)
      modifies this`content, Below
      ensures Shape() && Store() == Resize(old(Store()), StoreAt(n)) && Coding() == old(Coding())
      ensures BelowOk() <==> !old(BelowExposes(n))
      ensures BelowMoved(n)
      decreases height, 1
    {
      hide *;
      match layer {
        case OverCipher(_) => CipherTruncateStore(n);
        case OverMac(_, _, _, _, _) => MacTruncateStore(n);
      }
    }

    /** The layer below can be cut or extended to the size for `n` plain bytes. */
    ghost predicate BelowTakes(n: nat)
      requires Shape()
      reads this`content, Below
    {
      layer.OverMac? ==>
        && layer.base.GrowsCleanly(StoreAt(n)) && layer.base.Growable(StoreAt(n))
        && layer.base.TruncateKept(StoreAt(n))
    }

    twostate predicate BelowMoved(n: nat)
      reads Below
    {
      layer.OverMac? && layer.base in Below ==>
        layer.base.CacheMoved(StoreAt(n), old(layer.base.content), old(layer.base.cacheOffset),
                              old(layer.base.cacheData))
    }

    method CipherTruncateStore(n: nat)
      requires Shape() && layer.OverCipher? && HasHeader()
      modifies this`content, Below
      ensures Shape() && Store() == Resize(old(Store()), StoreAt(n)) && Coding() == old(Coding())
      ensures BelowOk() && !old(BelowExposes(n)) && BelowMoved(n)
      decreases height, 0
    {
      CipherFacts();
      LocNoHeader(n, blockSize);
      NoHeaderFramed(Coding(), |Resize(Store(), n)|);
      hide Code.WellFormed, Plain, Framed, LocWithHeader, StoreOffset, Resize;
      layer.cipherLayer.TruncateStore(n);
      content := Plain(Coding(), 0, Store());
    }

    method MacTruncateStore(n: nat)
      requires Shape() && BelowOk() && layer.OverMac? && BelowTakes(n)
      modifies this`content, Below
      ensures Shape() && Store() == Resize(old(Store()), StoreAt(n)) && Coding() == old(Coding())
      ensures BelowOk() <==> !old(BelowExposes(n))
      ensures BelowMoved(n)
      decreases height, 0
    {
      hide *;
      MacFacts();
      MacResized(n);
      var code := MacCoding();
      layer.base.Truncate(StoreAt(n));
      content := Plain(code, 0, layer.base.content);
      MacTruncated(n);
    }

    lemma MacResized(n: nat)
      requires Shape() && layer.OverMac? && BelowTakes(n)
      ensures layer.base.Growable(StoreAt(n)) && layer.base.TruncateKept(StoreAt(n))
      ensures layer.base.Shape() && BelowExposes(n) == layer.base.ExposesStale(StoreAt(n))
      ensures layer.base.Truncated(StoreAt(n)) == Resize(layer.base.content, StoreAt(n))
      ensures Framed(MacCoding(), |Resize(layer.base.content, StoreAt(n))|)
    {
      FramedOffset(MacCoding(), n);
      assert StoreOffset(MacCoding(), n) == StoreAt(n) && |Resize(layer.base.content, StoreAt(n))| == StoreAt(n);
    }

    twostate lemma MacTruncated(n: nat)
      requires Linked() && layer.OverMac? && MacCoding().WellFormed()
      requires layer.base.Shape() && layer.base.Verified()
      requires layer.base.CacheMoved(StoreAt(n), old(layer.base.content), old(layer.base.cacheOffset),
                                     old(layer.base.cacheData))
      requires Framed(MacCoding(), |layer.base.content|) && content == Plain(MacCoding(), 0, layer.base.content)
      ensures Shape() && (BelowOk() <==> layer.base.Good()) && BelowMoved(n)
      ensures Store() == layer.base.content && Coding() == MacCoding()
    {
    }

    method Truncate(size: nat)
      requires Good() && Growable(size) && TruncateKept(size)
      modifies this, Below
      ensures Shape() && Verified() && Synced()
      ensures content == old(Truncated(size))
      ensures Good() <==> !old(ExposesStale(size))
      ensures CacheMoved(size, old(content), old(cacheOffset), old(cacheData))
      decreases height, 12
    {
      if layer.OverCipher? && layer.cipherLayer.haveHeader {
        HeaderApart(size);
        hide *;
        LoadHeader();
        HeaderApart(size);
        TruncateLoaded(size);
      } else {
        assert HasHeader();
        hide *;
        TruncateLoaded(size);
      }
    }

    /** With a header, what a truncation does depends on the content and the cache alone. */
    lemma HeaderApart(size: nat)
      requires Shape() && layer.OverCipher? && layer.cipherLayer.haveHeader
      ensures Truncated(size) == Resize(content, size)
      ensures TruncateKept(size) <==>
        size > |content| ==> KeptIn(Resize(content, size), |content|, AlignUp(|content|, blockSize))
      ensures ExposesStale(size) <==>
        && allowHoles && |content| < size && OnBlock(|content|, blockSize) && OnBlock(size, blockSize)
        && StaleIn(content, size)
    {
    }

    /** Read the header, or write one to an empty file. */
    method LoadHeader()
      requires Good() && layer.OverCipher? && layer.cipherLayer.haveHeader
      modifies Below
      ensures Good() && HasHeader()
      decreases height, 0
    {
      GoodParts();
      ReadyParts();
      CipherFacts();
      ghost var store, code := Store(), Coding();
      hide Code.WellFormed, Plain, Framed, LocWithHeader, StoreOffset, AllVerified, Coherent;
      if layer.cipherLayer.fileIV == 0 {
        layer.cipherLayer.InitHeader();
        HeaderLoaded(store, code);
      }
    }

    lemma HeaderLoaded(store: seq<byte>, code: Code)
      requires Linked() && layer.OverCipher? && layer.cipherLayer.Valid() && Coherent()
      requires Store() == store && (store == [] || Coding() == code)
      requires code.Raw() > 0 && content == Plain(code, 0, store)
      ensures Good()
    {
      NoHeaderFramed(Coding(), |store|);
      NoMacVerified(Coding(), store);
    }

    method TruncateLoaded(size: nat)
      requires Good() && HasHeader() && Growable(size) && TruncateKept(size)
      modifies this, Below
      ensures Shape() && Verified() && Synced()
      ensures content == old(Truncated(size))
      ensures Good() <==> !old(ExposesStale(size))
      ensures CacheMoved(size, old(content), old(cacheOffset), old(cacheData))
      decreases height, 11
    {
      hide *;
      var oldSize := GetSize();
      var last := AlignDown(size, blockSize);
      AlignRest(size, blockSize);
      if size > oldSize {
        if Headerless() {
          GrowHeaderless(oldSize, size);
        } else {
          Grow(oldSize, size);
        }
      } else if size == oldSize || last == size {
        Cut(size);
      } else if Headerless() {
        ShrinkHeaderless(size, last);
      } else {
        Shrink(size, last);
      }
    }

    /** Read the block that becomes the last one, write its start back in its new coding, and
        then cut the file below. */
    method Shrink(size: nat, last: nat)
      requires Good() && HasHeader() && !Headerless()
      requires last < size < |content| && last == AlignDown(size, blockSize) && TruncateKept(size)
      modifies this, Below
      ensures Shape() && Verified() && Synced()
      ensures content == old(Truncated(size))
      ensures Good() <==> !old(ExposesStale(size))
      ensures CacheMoved(size, old(content), old(cacheOffset), old(cacheData))
      decreases height, 8
    {
      hide *;
      GoodParts();
      ReadyParts();
      ghost var c, store, code := content, Store(), Coding();
      ShrinkFacts(size);
      ShrinkStart(size, last);
      var n := size - last;
      CutStored(size, last);
      var block := CacheReadOneBlock(last, blockSize);
      var x := Slice(block, 0, n);
      ReadyParts();
      ShrinkKept(last, x);
      ghost var chunk := CacheWriteOneBlock(last, x);
      ShrinkMiddle(code, store, size, last, chunk, x);
      CutStore(size, last);
      ShrinkDone(c, code, store, size, last, chunk, x);
    }

    /** What is read and written back. */
    lemma ShrinkStart(size: nat, last: nat)
      requires Shape() && Coherent() && last < size < |content| && last == AlignDown(size, blockSize)
      ensures var x := Slice(Slice(CachedBlock(last), 0, blockSize), 0, size - last);
        && x == Slice(content, last, size - last) && |x| == size - last && last + |x| <= |content|
      ensures OnBlock(last, blockSize) && Store() != [] && 0 < size - last < blockSize
    {
      FileBlock(last);
      SlicePrefix(content, last, blockSize, blockSize);
      SlicePrefix(content, last, blockSize, size - last);
      SliceSize(content, last, size - last);
    }

    /** Under MACs the block to be cut can be stored again behind a header for its start. */
    ghost predicate StoredAgain(last: nat, x: seq<byte>)
      reads this`content
    {
      var block := Slice(content, last, blockSize);
      layer.OverMac? && |block| == blockSize ==> HeadsKept(BlockOf(last, blockSize), x, block)
    }

    lemma CutStored(size: nat, last: nat)
      requires Shape() && TruncateKept(size) && last < size < |content| && last == AlignDown(size, blockSize)
      ensures StoredAgain(last, Slice(content, last, size - last))
    {
      SliceSize(content, last, blockSize);
      hide Shape, HeadsKept, AlignDown;
    }

    lemma ShrinkKept(last: nat, x: seq<byte>)
      requires Shape() && StoredAgain(last, x) && 0 < |x| < blockSize && x == Slice(content, last, |x|)
      ensures MergeKept(last, x)
    {
      hide *;
      AlwaysKept(BlockOf(last, blockSize), x);
      OverSame(content, last, blockSize, x);
      BothKept(last, x);
    }

    lemma BothKept(last: nat, x: seq<byte>)
      requires StoredAgain(last, x) && BlockKept(BlockOf(last, blockSize), x)
      requires Overwrite(Slice(content, last, blockSize), 0, x) == Slice(content, last, blockSize)
      ensures MergeKept(last, x)
    {
      hide HeadsKept;
    }

    lemma ShrinkMiddle(code: Code, store: seq<byte>, size: nat, last: nat, chunk: seq<byte>, x: seq<byte>)
      requires Shape() && Coding() == code && Store() == Overwrite(store, StoreAt(last), chunk)
      requires code.Encodes(BlockOf(last, blockSize), chunk, x) && |x| == size - last
      requires last < size && last == AlignDown(size, blockSize)
      ensures StoreAt(size) <= |Store()| && StoreAt(size) == StoreAt(last) + |chunk|
    {
      StoreLast(size, last);
      assert chunk != [];
      OverwriteSize(store, StoreAt(last), chunk);
    }

    /** Where the new last block lies in the store. */
    lemma StoreLast(size: nat, last: nat)
      requires last < size && last == AlignDown(size, blockSize)
      ensures StoreAt(size) == StoreAt(last) + HeaderSize() + (size - last)
      ensures AlignDown(StoreAt(size), RawSize()) == StoreAt(last)
      ensures !OnBlock(StoreAt(size), RawSize())
    {
      var k, n := BlockOf(last, blockSize), size - last;
      DivMod(last, blockSize);
      LocShift(k, n, RawSize(), HeaderSize());
      LocFirst(n, RawSize(), HeaderSize());
      LocOfBlock(k, RawSize(), HeaderSize());
      hide LocWithHeader;
      DivUnique(StoreAt(size), RawSize(), k, HeaderSize() + n);
    }

    /** Cut the layer below behind the block that has just been written. */
    method CutStore(size: nat, last: nat)
      requires Shape() && BelowOk() && Synced() && cacheData != [] && cacheOffset == last
      requires last < size && last == AlignDown(size, blockSize) && StoreAt(size) <= |Store()|
      modifies this`content, Below
      ensures Shape() && BelowOk() && Synced()
      ensures Store() == Resize(old(Store()), StoreAt(size)) && Coding() == old(Coding())
      decreases height, 2
    {
      hide *;
      CutTarget(size, last);
      TruncateStore(size);
      SyncedCut(size, last);
    }

    lemma CutTarget(size: nat, last: nat)
      requires Shape() && last < size && last == AlignDown(size, blockSize) && StoreAt(size) <= |Store()|
      ensures HasHeader() && !BelowExposes(size) && BelowTakes(size)
    {
      StoreLast(size, last);
    }

    twostate lemma SyncedCut(new size: nat, new last: nat)
      requires old(Shape()) && old(Synced()) && old(StoreAt(size) <= |Store()|)
      requires last < size && last == AlignDown(size, blockSize)
      requires Shape() && BelowMoved(size) && cacheData != [] && cacheOffset == last
      requires cacheOffset == old(cacheOffset) && cacheData == old(cacheData)
      ensures Synced()
    {
      StoreLast(size, last);
    }

    lemma ShrinkDone(c: seq<byte>, code: Code, store: seq<byte>, size: nat, last: nat, chunk: seq<byte>, x: seq<byte>)
      requires Shape() && BelowOk() && Synced() && Coding() == code
      requires last < size < |c| && last == AlignDown(size, blockSize)
      requires code.WellFormed() && Framed(code, |store|) && AllVerified(code, store) && c == Plain(code, 0, store)
      requires Store() == Resize(Overwrite(store, StoreAt(last), chunk), StoreAt(size))
      requires code.Encodes(BlockOf(last, blockSize), chunk, x) && x == Slice(c, last, size - last)
      requires cacheOffset == last && cacheData == x
      ensures Good() && Verified() && content == c[..size]
      ensures forall co, cd :: CacheMoved(size, c, co, cd)
    {
      WrittenAndCut(c, code, store, size, last, chunk, x);
      AlignRest(size, blockSize);
      hide Shape, Plain, Framed, AllVerified, Cipher.Lawful, Code.WellFormed, Code.Encodes, Slice, Overwrite, Resize;
      ShapeParts();
      AtRest();
    }

    /** What the write and the cut make of the file. */
    lemma WrittenAndCut(c: seq<byte>, code: Code, store: seq<byte>, size: nat, last: nat, chunk: seq<byte>,
                        x: seq<byte>)
      requires last < size < |c| && last == AlignDown(size, blockSize)
      requires code.WellFormed() && Framed(code, |store|) && AllVerified(code, store) && c == Plain(code, 0, store)
      requires code.data == blockSize && (forall off: nat :: StoreOffset(code, off) == StoreAt(off))
      requires code.Encodes(BlockOf(last, blockSize), chunk, x) && x == Slice(c, last, size - last)
      ensures var cut := Resize(Overwrite(store, StoreAt(last), chunk), StoreAt(size));
        Plain(code, 0, cut) == c[..size] && AllVerified(code, cut)
      ensures x == Slice(c[..size], last, blockSize) && 0 < |x| <= blockSize
    {
      LastSlice(c, size, last, blockSize);
      assert StoreOffset(code, last) == StoreAt(last) && StoreOffset(code, last + |x|) == StoreAt(size);
      hide Cipher.Lawful, Plain, Framed, AllVerified, LocWithHeader, StoreAt, Slice, Overwrite, Resize, Code.Encodes;
      WriteAndCutAt(code, store, last, chunk, x);
    }

    lemma AtRest()
      requires Shape() && BelowOk() && Synced() && AllVerified(Coding(), Store())
      requires OnBlock(cacheOffset, blockSize) && |cacheData| <= blockSize
      requires cacheData == Slice(content, cacheOffset, blockSize)
      ensures Good() && Verified()
    {
    }

    /** Without a header the raw file is cut before the block is written back. */
    method ShrinkHeaderless(size: nat, last: nat)
      requires Good() && HasHeader() && Headerless()
      requires last < size < |content| && last == AlignDown(size, blockSize)
      modifies this, Below
      ensures Shape() && Verified() && Synced()
      ensures content == old(Truncated(size))
      ensures Good() <==> !old(ExposesStale(size))
      ensures CacheMoved(size, old(content), old(cacheOffset), old(cacheData))
      decreases height, 8
    {
      hide *;
      GoodParts();
      ReadyParts();
      ghost var c, store, code := content, Store(), Coding();
      ShrinkFacts(size);
      ShrinkStart(size, last);
      HeaderlessIs(size);
      HeaderlessShrunk(c, store, code, size, last);
      var n := size - last;
      var block := CacheReadOneBlock(last, blockSize);
      var x := Slice(block, 0, n);
      ReadyParts();
      HeaderlessIs(size);
      TruncateStore(size);
      HeaderlessReady(code, store, size);
      FitsLast(last, |x|);
      ShortKept(last, x);
      WriteFitting(last, x);
      CacheCut(c, size, last);
      GoodParts();
      ReadyParts();
    }

    lemma HeaderlessIs(n: nat)
      requires Shape() && Headerless()
      ensures HasHeader() && BelowTakes(n)
      ensures Coding().CipherCode? && Coding().data == blockSize && Coding().WellFormed()
    {
    }

    lemma FitsLast(off: nat, n: nat)
      requires |content| == off + n
      ensures FitsAt(off, n)
    {
    }

    /** Without a header the raw file grows first, and only then is the old last block read. */
    method GrowHeaderless(oldSize: nat, size: nat)
      requires Good() && HasHeader() && Headerless() && oldSize == |content| < size
      requires Growable(size) && TruncateKept(size)
      modifies this, Below
      ensures Shape() && Verified() && Synced()
      ensures content == old(Truncated(size))
      ensures Good() <==> !old(ExposesStale(size))
      ensures CacheMoved(size, old(content), old(cacheOffset), old(cacheData))
      decreases height, 9
    {
      hide *;
      HeaderlessFacts(size);
      ghost var c, store, code := content, Store(), Coding();
      ghost var first := StartOf(c, store, code, size);
      GrowRaw(size);
      label Grown:
      HeaderlessKept(c, oldSize, size, first);
      PadFile(oldSize, size, true);
      AlignRest(size, blockSize);
      HeaderlessDone@Grown(c, store, code, size);
      ReadyParts();
    }

    /** The growth of the raw file alone. */
    method GrowRaw(size: nat)
      requires Good() && HasHeader() && Headerless() && size > |content|
      modifies this`content, Below
      ensures Ready() && |content| == size && CoherentWith(old(content))
      ensures content == old(Plain(Coding(), 0, Resize(Store(), size)))
      ensures var m := old(|content|); var i := AlignDown(m, blockSize);
        var first := StartOf(old(content), old(Store()), old(Coding()), size);
        BlockStart(i, m - i) == first && |first| == m - i
      decreases height, 8
    {
      hide *;
      GoodParts();
      ReadyParts();
      ghost var c, store, code := content, Store(), Coding();
      CoherentNow();
      HeaderlessIs(size);
      TruncateStore(size);
      HeaderlessReady(code, store, size);
      HeaderlessStart(c, store, code, size);
    }

    lemma CoherentNow()
      requires Coherent()
      ensures CoherentWith(content)
    {
    }

    /** What is read for the old last block of `c` once the raw file has grown to `size`. */
    ghost function StartOf(c: seq<byte>, store: seq<byte>, code: Code, size: nat): seq<byte>
      reads this`cacheData, this`cacheOffset
    {
      var i := AlignDown(|c|, blockSize);
      if OnBlock(|c|, blockSize) || (cacheData != [] && cacheOffset == i) then c[i..]
      else GrownStart(|c|, store, code, size)
    }

    lemma HeaderlessFacts(size: nat)
      requires Shape() && Headerless() && |content| < size
      ensures var i := AlignDown(|content|, blockSize);
        Truncated(size) == Resize(content[..i] + StartOf(content, Store(), Coding(), size), size)
      ensures ExposesStale(size) <==>
        allowHoles && OnBlock(|content|, blockSize) && OnBlock(size, blockSize) && StaleIn(content, size)
      ensures Coding().CipherCode? && Coding().WellFormed() && Coding().data == blockSize
      ensures Coding().HolesRead() == HolesRead()
      ensures content == Plain(Coding(), 0, Store())
      ensures TruncateKept(size) ==> KeptIn(Truncated(size), |content|, AlignUp(|content|, blockSize))
      ensures Growable(size) <==> GrowsWhole(|content|, size)
    {
      var i := AlignDown(|content|, blockSize);
      assert content[..i] + content[i..] == content;
    }

    /** The old last block can be filled up with what is read for it. */
    lemma HeaderlessKept(c: seq<byte>, m: nat, size: nat, first: seq<byte>)
      requires Ready() && m == |c| < size && |first| == m - AlignDown(m, blockSize)
      requires BlockStart(AlignDown(m, blockSize), m - AlignDown(m, blockSize)) == first
      requires KeptIn(Resize(c[..AlignDown(m, blockSize)] + first, size), m, AlignUp(m, blockSize))
      ensures PadKept(m, size)
    {
      var p := c[..AlignDown(m, blockSize)] + first;
      assert AlignDown(|p|, blockSize) == AlignDown(m, blockSize);
      assert p[AlignDown(m, blockSize)..] == first;
      hide Ready, KeptIn, BlockKept, AlignDown;
      PadKeeps(p, size, Resize(p, size));
    }

    /** Whole blocks by which the raw file has grown decode to zeros where holes are allowed. */
    lemma HeaderlessHoles(store: seq<byte>, code: Code, size: nat, from: nat, to: nat)
      requires code.CipherCode? && code.WellFormed() && code.HolesRead()
      requires |store| <= from <= to <= size && OnBlock(from, code.data) && OnBlock(to, code.data)
      ensures |Plain(code, 0, Resize(store, size))| == size && AllZero(Plain(code, 0, Resize(store, size))[from..to])
    {
      hide Cipher.Lawful, Plain, Framed, AllVerified, LocWithHeader;
      var s := Resize(store, from);
      NoHeaderFramed(code, |s|);
      NoHeaderFramed(code, |Resize(store, size)|);
      PlainSize(code, 0, s);
      PlainSize(code, 0, Resize(store, size));
      LocNoHeader(|Plain(code, 0, s)|, code.data);
      LocNoHeader(|Plain(code, 0, Resize(store, size))|, code.data);
      LocNoHeader(to, code.data);
      GrowAt(code, s, to);
      CutAt(code, Resize(store, size), to);
      assert Resize(Resize(store, size), to) == Resize(s, to);
      assert Plain(code, 0, Resize(store, size))[..to] == Resize(Plain(code, 0, s), to);
      assert Plain(code, 0, Resize(store, size))[from..to] == Plain(code, 0, Resize(store, size))[..to][from..];
    }

    /** What padFile will read for the old last block, in the grown file. */
    lemma HeaderlessStart(c: seq<byte>, store: seq<byte>, code: Code, size: nat)
      requires code.CipherCode? && code.WellFormed() && code.data == blockSize
      requires c == Plain(code, 0, store) && |c| < size && content == Plain(code, 0, Resize(store, size))
      requires CoherentWith(c)
      ensures |content| == size
      ensures var i := AlignDown(|c|, blockSize);
        && BlockStart(i, |c| - i) == StartOf(c, store, code, size)
        && |StartOf(c, store, code, size)| == |c| - i
    {
      hide *;
      EmptyStore(code);
      var i := AlignDown(|c|, blockSize);
      AlignRest(|c|, blockSize);
      HitOrMiss(c, i);
      GrownBlock(code, store, size, i);
      SliceSize(content, i, blockSize);
      StartIs(c, store, code, size, i);
    }

    /** The old last block comes from the cache, or from the grown file. */
    lemma HitOrMiss(c: seq<byte>, at: nat)
      requires CoherentWith(c)
      ensures CachedBlock(at) ==
        if cacheData != [] && cacheOffset == at then cacheData else Slice(content, at, blockSize)
      ensures cacheData != [] && cacheOffset == at && at < |c| ==> cacheData == Slice(c, at, blockSize)
    {
      hide Slice;
    }

    lemma StartIs(c: seq<byte>, store: seq<byte>, code: Code, size: nat, i: nat)
      requires i == AlignDown(|c|, blockSize) && i <= |c| < i + blockSize && |c| < size == |content|
      requires OnBlock(|c|, blockSize) <==> i == |c|
      requires CachedBlock(i) ==
        if cacheData != [] && cacheOffset == i then cacheData else Slice(content, i, blockSize)
      requires cacheData != [] && cacheOffset == i && i < |c| ==> cacheData == Slice(c, i, blockSize)
      requires Slice(content, i, blockSize) ==
        code.Decode(BlockOf(i, blockSize), Slice(Resize(store, size), i, blockSize))
      ensures BlockStart(i, |c| - i) == StartOf(c, store, code, size)
      ensures |StartOf(c, store, code, size)| == |c| - i
    {
      SliceSize(content, i, blockSize);
      SliceSize(CachedBlock(i), 0, |c| - i);
      hide CachedBlock, Code.Decode, AlignDown, OnBlock, BlockOf, Resize;
    }

    lemma GrownBlock(code: Code, store: seq<byte>, size: nat, at: nat)
      requires code.CipherCode? && code.WellFormed() && OnBlock(at, code.data)
      requires at <= size && at <= |Plain(code, 0, store)|
      ensures var grown := Resize(store, size);
        && |Plain(code, 0, grown)| == size
        && Slice(Plain(code, 0, grown), at, code.data)
           == code.Decode(BlockOf(at, code.data), Slice(grown, at, code.data))
    {
      LocNoHeader(at, code.data);
      hide Cipher.Lawful, Plain, Code.Decode, Resize, Slice;
      HeaderlessPrefix(code, store, size, at);
      ReadAt(code, Resize(store, size), at);
    }

    twostate lemma HeaderlessDone(new c: seq<byte>, new store: seq<byte>, new code: Code, new size: nat)
      requires Headerless() && code.CipherCode?
      requires code.WellFormed() && code.data == blockSize && code.HolesRead() == HolesRead()
      requires GrowsWhole(|c|, size)
      requires c == Plain(code, 0, store) && |c| < size && old(content) == Plain(code, 0, Resize(store, size))
      requires old(CoherentWith(c))
      requires old(BlockStart(AlignDown(|c|, blockSize), |c| - AlignDown(|c|, blockSize)))
        == old(StartOf(c, store, code, size))
      requires |old(StartOf(c, store, code, size))| == |c| - AlignDown(|c|, blockSize)
      requires Ready()
      requires content ==
        Padded(old(content), old(StartOf(c, store, code, size)), |c|, size, blockSize, true, allowHoles)
      requires CacheAfter(PadWrites(|c|, size, blockSize, true, allowHoles))
      requires !OnBlock(size, blockSize) ==> CacheAt(AlignDown(size, blockSize))
      ensures content == Resize(c[..AlignDown(|c|, blockSize)] + old(StartOf(c, store, code, size)), size)
      ensures Good() <==>
        !(allowHoles && OnBlock(|c|, blockSize) && OnBlock(size, blockSize) && old(StaleIn(c, size)))
      ensures CacheMoved(size, c, old(cacheOffset), old(cacheData))
    {
      hide *;
      EmptyStore(code);
      GrownRaw(c, store, code, size);
      GrowthCases(c, size);
      var first := old(StartOf(c, store, code, size));
      PadGrown(old(content), first, |c|, size, blockSize, allowHoles);
      SamePart(old(content), c, AlignDown(|c|, blockSize), first, size);
      HeaderlessCache(c, first, size);
    }

    /** What the grown raw file has: the blocks before the old last one, and zeros in its holes. */
    lemma GrownRaw(c: seq<byte>, store: seq<byte>, code: Code, size: nat)
      requires code.CipherCode? && code.WellFormed() && code.data == blockSize && code.HolesRead() == HolesRead()
      requires GrowsWhole(|c|, size) && c == Plain(code, 0, store) && |c| < size
      ensures var p := Plain(code, 0, Resize(store, size));
        var i, u, j := AlignDown(|c|, blockSize), AlignUp(|c|, blockSize), AlignDown(size, blockSize);
        && |p| == size && i <= |c| && p[..i] == c[..i]
        && (allowHoles && i < j ==> u <= j && AllZero(p[u..j]))
    {
      hide *;
      GrowsWholeIs(|c|, size);
      EmptyStore(code);
      var i, u, j := AlignDown(|c|, blockSize), AlignUp(|c|, blockSize), AlignDown(size, blockSize);
      AlignCases(|c|, size, blockSize);
      HeaderlessPrefix(code, store, size, i);
      if allowHoles && u < j {
        HeaderlessHoles(store, code, size, u, j);
      } else if u == j {
        EmptyPart(Plain(code, 0, Resize(store, size)), u);
      }
    }

    lemma GrowsWholeIs(m: nat, n: nat)
      requires GrowsWhole(m, n) && m < n
      ensures allowHoles && !HolesRead() ==> AlignUp(m, blockSize) >= AlignDown(n, blockSize)
    {
    }

    twostate lemma HeaderlessCache(new c: seq<byte>, new first: seq<byte>, new size: nat)
      requires |c| < size && |first| == |c| - AlignDown(|c|, blockSize) && old(CoherentWith(c)) && Ready()
      requires PadWrites(|c|, size, blockSize, true, allowHoles)
        <==> !(allowHoles && OnBlock(|c|, blockSize) && OnBlock(size, blockSize))
      requires content == Resize(c[..AlignDown(|c|, blockSize)] + first, size)
      requires CacheAfter(PadWrites(|c|, size, blockSize, true, allowHoles))
      requires !OnBlock(size, blockSize) ==> CacheAt(AlignDown(size, blockSize))
      ensures Good() <==>
        !(allowHoles && OnBlock(|c|, blockSize) && OnBlock(size, blockSize) && old(StaleIn(c, size)))
      ensures CacheMoved(size, c, old(cacheOffset), old(cacheData))
    {
      hide Ready, Shape, PadWrites;
      if !PadWrites(|c|, size, blockSize, true, allowHoles) {
        AlignRest(|c|, blockSize);
        assert c[..AlignDown(|c|, blockSize)] + first == c;
        hide *;
        GrownCache(c, size);
      }
    }

    /** With a header, or under MACs, the old last block is filled up before the file grows. */
    method Grow(oldSize: nat, size: nat)
      requires Good() && HasHeader() && !Headerless() && oldSize == |content| < size
      requires Growable(size) && TruncateKept(size)
      modifies this, Below
      ensures Shape() && Verified() && Synced()
      ensures content == old(Truncated(size))
      ensures Good() <==> !old(ExposesStale(size))
      ensures CacheMoved(size, old(content), old(cacheOffset), old(cacheData))
      decreases height, 10
    {
      hide *;
      GrowthIs(size);
      WholeOrRead(size);
      ghost var c := content;
      PadForGrowth(oldSize, size);
      ByHoles(size);
      ghost var p, below := content, BelowExposes(size);
      GrowStore(size);
      GrowDone(c, p, size, below);
    }

    lemma GrowthIs(size: nat)
      requires Shape() && !Headerless()
      ensures Truncated(size) == Resize(content, size)
      ensures TruncateKept(size) && size > |content| ==>
        KeptIn(Resize(content, size), |content|, AlignUp(|content|, blockSize))
    {
    }

    /** Where holes do not read as zeros, none are left. */
    lemma WholeOrRead(size: nat)
      requires |content| < size && Growable(size)
      ensures GrowsWhole(|content|, size)
      ensures allowHoles && !HolesRead() ==> PadSize(|content|, size, blockSize, true, allowHoles) == size
    {
      AlignStep(|content|, size, blockSize);
    }

    lemma ByHoles(size: nat)
      ensures GrowsByHoles(size) ==> OnBlock(|content|, blockSize) && OnBlock(size, blockSize)
    {
    }

    /** The padding before the layer below grows. */
    method PadForGrowth(oldSize: nat, size: nat)
      requires Good() && HasHeader() && oldSize == |content| < size && GrowsWhole(|content|, size)
      requires KeptIn(Resize(content, size), |content|, AlignUp(|content|, blockSize))
      requires allowHoles && !HolesRead() ==> PadSize(|content|, size, blockSize, true, allowHoles) == size
      modifies this, Below
      ensures Ready() && HasHeader() && CoherentWith(content)
      ensures content == Resize(old(content), |content|) && oldSize <= |content| <= size
      ensures |content| == size || (GrowsByHoles(size) && HolesRead())
      ensures BelowExposes(size) || StaleIn(content, size) <==> old(ExposesStale(size))
      ensures CacheMoved(size, old(content), old(cacheOffset), old(cacheData))
      decreases height, 9
    {
      hide *;
      GoodParts();
      ReadLast();
      ghost var c := content;
      ResizeSize(c, size);
      assert Resize(c, size)[..size] == Resize(c, size);
      PadKeeps(c, size, Resize(c, size));
      GrowthCases(c, size);
      PadFile(oldSize, size, true);
      AlignRest(size, blockSize);
      PaddedSize(c, size);
      PaddedDone(c, size);
    }

    lemma PaddedSize(c: seq<byte>, size: nat)
      requires content == Resize(c, PadSize(|c|, size, blockSize, true, allowHoles))
      requires allowHoles && !HolesRead() ==> PadSize(|c|, size, blockSize, true, allowHoles) == size
      ensures |content| == size || !allowHoles || HolesRead()
    {
      hide PadSize;
      ResizeSize(c, PadSize(|c|, size, blockSize, true, allowHoles));
    }

    /** What padFile makes of `c`, and when it leaves part of the growth to holes. */
    lemma GrowthCases(c: seq<byte>, size: nat)
      requires |c| < size
      ensures
        var p := PadSize(|c|, size, blockSize, true, allowHoles);
        && |c| <= p <= size
        && (p == size || (allowHoles && OnBlock(p, blockSize) && OnBlock(size, blockSize)))
        && Padded(c, c[AlignDown(|c|, blockSize)..], |c|, size, blockSize, true, allowHoles) == Resize(c, p)
      ensures PadWrites(|c|, size, blockSize, true, allowHoles)
        <==> !(allowHoles && OnBlock(|c|, blockSize) && OnBlock(size, blockSize))
      ensures !PadWrites(|c|, size, blockSize, true, allowHoles) ==>
        PadSize(|c|, size, blockSize, true, allowHoles) == |c|
    {
      PadClean(c, size, blockSize, true, allowHoles);
      AlignStep(|c|, size, blockSize);
      AlignRest(|c|, blockSize);
      AlignRest(size, blockSize);
    }

    /** The state between the padding and the growth of the layer below. */
    twostate lemma PaddedDone(new c: seq<byte>, new size: nat)
      requires old(Good()) && old(HasHeader()) && c == old(content) && |c| < size
      requires Ready()
      requires content == Resize(c, PadSize(|c|, size, blockSize, true, allowHoles))
      requires CacheAfter(PadWrites(|c|, size, blockSize, true, allowHoles))
      requires !OnBlock(size, blockSize) ==> CacheAt(AlignDown(size, blockSize))
      requires allowHoles && !PadWrites(|c|, size, blockSize, true, allowHoles) ==> Untouched()
      ensures HasHeader() && CoherentWith(content)
      ensures content == Resize(c, |content|)
      ensures |c| <= |content| <= size && (|content| == size || GrowsByHoles(size))
      ensures BelowExposes(size) || StaleIn(content, size) <==> old(ExposesStale(size))
      ensures CacheMoved(size, c, old(cacheOffset), old(cacheData))
    {
      hide *;
      GrowthCases(c, size);
      ResizeSize(c, PadSize(|c|, size, blockSize, true, allowHoles));
      if PadWrites(|c|, size, blockSize, true, allowHoles) {
        PaddedWrote(c, size);
      } else {
        PaddedNot(c, size);
      }
    }

    twostate lemma PaddedWrote(new c: seq<byte>, new size: nat)
      requires Ready() && CacheAfter(true) && c == old(content) && old(Shape())
      requires !OnBlock(size, blockSize) ==> CacheAt(AlignDown(size, blockSize))
      requires PadWrites(|c|, size, blockSize, true, allowHoles)
      requires !(allowHoles && OnBlock(|c|, blockSize) && OnBlock(size, blockSize))
      requires |c| < size && |c| <= |content| <= size && content != []
      requires |content| == size || (allowHoles && OnBlock(|content|, blockSize) && OnBlock(size, blockSize))
      ensures HasHeader() && CoherentWith(content)
      ensures |content| == size || GrowsByHoles(size)
      ensures !BelowExposes(size) && !StaleIn(content, size) && !old(ExposesStale(size))
      ensures CacheMoved(size, c, old(cacheOffset), old(cacheData))
    {
      hide Ready, Shape, BelowExposes, CoherentWith, StaleIn, OnBlock, PadWrites, HasHeader;
      WroteDone(size);
    }

    twostate lemma PaddedNot(new c: seq<byte>, new size: nat)
      requires old(Good()) && old(HasHeader()) && c == old(content) == content && |c| < size && Ready()
      requires allowHoles && OnBlock(|c|, blockSize) && OnBlock(size, blockSize)
      requires !PadWrites(|c|, size, blockSize, true, allowHoles) && Untouched()
      ensures HasHeader() && CoherentWith(content)
      ensures GrowsByHoles(size)
      ensures BelowExposes(size) || StaleIn(content, size) <==> old(ExposesStale(size))
      ensures CacheMoved(size, c, old(cacheOffset), old(cacheData))
    {
      hide Ready, Shape, BelowExposes, CoherentWith, OnBlock, PadWrites, HasHeader;
    }

    lemma WroteDone(size: nat)
      requires Ready() && CacheGood() && content != []
      ensures HasHeader() && CoherentWith(content) && !BelowExposes(size) && !StaleIn(content, size)
    {
      GoodAgain();
      ContentHasHeader();
      NotExposed(size);
    }

    /** From whole blocks to whole blocks, with holes: nothing is written. */
    ghost predicate GrowsByHoles(size: nat)
      reads this`content
    {
      allowHoles && |content| < size && OnBlock(|content|, blockSize) && OnBlock(size, blockSize)
    }

    lemma ContentHasHeader()
      requires Shape() && content != []
      ensures HasHeader()
    {
    }

    /** A good cache of a block that is in the file hides nothing, nor do those below it. */
    lemma {:induction false} NotExposed(size: nat)
      requires Good() && CachedBelow(|content|)
      ensures !StaleIn(content, size) && !BelowExposes(size) && !ExposesStale(size)
      decreases height
    {
      if layer.OverMac? {
        BelowCached();
        hide Good, Ready, Shape, CachedBelow, LocWithHeader;
        layer.base.NotExposed(StoreAt(size));
      }
    }

    lemma BelowCached()
      requires Good() && CachedBelow(|content|) && layer.OverMac?
      ensures layer.base.Good() && layer.base.CachedBelow(|layer.base.content|) && layer.base.height < height
    {
      MacFacts();
      PlainSize(Coding(), 0, Store());
      if layer.base.cacheData != [] {
        StoreMonotone(Coding(), |content|, cacheOffset);
      }
      hide Shape, Plain, Framed, LocWithHeader, Code.WellFormed, Cipher.Lawful;
    }

    /** Extend the layer below to the size for `size` bytes: nothing is left to do, or whole
        blocks are left to holes. */
    method GrowStore(size: nat)
      requires Ready() && HasHeader() && !Headerless()
      requires |content| == size || (GrowsByHoles(size) && HolesRead())
      modifies this`content, Below
      ensures Shape() && Verified() && Synced() && content == Resize(old(content), size)
      ensures BelowOk() <==> !old(BelowExposes(size))
      decreases height, 8
    {
      ReadyParts();
      ghost var store, code := Store(), Coding();
      GrowTarget(size);
      GrownStore(code, store, size);
      hide *;
      TruncateStore(size);
      GrownReady(code, store, size);
      SyncedKept(size);
    }

    /** Such a growth touches no cache below. */
    lemma GrowTarget(size: nat)
      requires Shape() && (|content| == size || GrowsByHoles(size))
      ensures BelowTakes(size) && BelowStays(size)
    {
      if layer.OverMac? {
        MacFacts();
        PlainSize(Coding(), 0, Store());
        assert !GrowsByHoles(size) || HolesRead() ==> layer.base.HolesRead() == allowHoles;
        if GrowsByHoles(size) {
          GrowBelow(size);
        } else {
          BelowSame(StoreAt(size));
        }
      }
    }

    lemma BelowSame(n: nat)
      requires Linked() && layer.OverMac? && layer.base.Shape() && n == |layer.base.content|
      ensures layer.base.GrowsCleanly(n) && layer.base.Growable(n) && layer.base.TruncateKept(n)
    {
    }

    lemma GrowBelow(size: nat)
      requires Shape() && layer.OverMac? && GrowsByHoles(size)
      ensures BelowTakes(size) && BelowStays(size)
    {
      hide *;
      MacFacts();
      var base, from, to := layer.base, |layer.base.content|, StoreAt(size);
      BelowAligned(size);
      BelowIs();
      base.NoneKept(base.Truncated(to), from);
      base.GrowthCases(base.content, to);
      base.HolesTaken(to);
      StaysByHoles(size);
    }

    lemma BelowIs()
      requires Shape() && layer.OverMac?
      ensures layer.base.Shape() && layer.base.HolesRead() == layer.base.allowHoles == allowHoles
      ensures layer.base.blockSize == RawSize() && layer.base.layer.OverCipher?
    {
    }

    lemma BelowAligned(size: nat)
      requires Shape() && layer.OverMac? && GrowsByHoles(size)
      ensures var from, to := |layer.base.content|, StoreAt(size);
        allowHoles && from < to && OnBlock(from, RawSize()) && OnBlock(to, RawSize())
    {
      MacFacts();
      var code := MacCoding();
      PlainSize(code, 0, layer.base.content);
      assert StoreOffset(code, size) == StoreAt(size) && code.Raw() == RawSize() && code.data == blockSize;
      hide Shape, Plain, Framed, LocWithHeader, LocWithoutHeader, Code.WellFormed, StoreOffset;
      Aligned(code, size);
      Aligned(code, |content|);
      MulDivMod(BlockOf(size, blockSize), RawSize());
      MulDivMod(BlockOf(|content|, blockSize), RawSize());
      StoreMonotone(code, size, |content|);
    }

    /** An extension by holes needs nothing to be stored. */
    lemma HolesTaken(n: nat)
      requires Shape() && n > |content| && OnBlock(|content|, blockSize) && HolesRead() == allowHoles
      requires KeptIn(Truncated(n), |content|, AlignUp(|content|, blockSize))
      ensures GrowsCleanly(n) && Growable(n) && TruncateKept(n)
    {
    }

    lemma StaysByHoles(size: nat)
      requires Shape() && layer.OverMac?
      requires var base, n := layer.base, StoreAt(size);
        && base.GrowsCleanly(n) && base.Growable(n) && base.TruncateKept(n) && |base.content| < n
        && !PadWrites(|base.content|, n, base.blockSize, true, base.allowHoles)
      ensures BelowTakes(size) && BelowStays(size)
    {
    }

    lemma GrownStore(code: Code, store: seq<byte>, size: nat)
      requires code.WellFormed() && Framed(code, |store|) && code.data == blockSize && code.HolesRead() == HolesRead()
      requires StoreOffset(code, size) == StoreAt(size)
      requires var p := Plain(code, 0, store);
        |p| == size || (HolesRead() && |p| < size && OnBlock(|p|, blockSize) && OnBlock(size, blockSize))
      ensures Plain(code, 0, Resize(store, StoreAt(size))) == Resize(Plain(code, 0, store), size)
      ensures AllVerified(code, store) ==> AllVerified(code, Resize(store, StoreAt(size)))
    {
      hide Cipher.Lawful, Plain, Framed, AllVerified, LocWithHeader;
      if |Plain(code, 0, store)| == size {
        PlainSize(code, 0, store);
        assert Resize(store, StoreAt(size)) == store;
      } else {
        GrowAt(code, store, size);
      }
    }

    lemma GrownReady(code: Code, store: seq<byte>, size: nat)
      requires Shape() && Coding() == code && Store() == Resize(store, StoreAt(size))
      requires AllVerified(code, Resize(store, StoreAt(size)))
      ensures Verified() && content == Plain(code, 0, Resize(store, StoreAt(size)))
    {
    }

    /** What the cache is worth after a growth from `p`. */
    lemma GrownCache(p: seq<byte>, size: nat)
      requires CoherentWith(p) && content == Resize(p, size) && |p| <= size
      requires |p| == size || (OnBlock(|p|, blockSize) && OnBlock(size, blockSize))
      ensures Coherent() <==> !StaleIn(p, size)
    {
      if cacheData != [] && cacheOffset < size {
        if cacheOffset < |p| {
          CutSlice(content, |p|, cacheOffset, blockSize);
          assert content[..|p|] == p;
        } else {
          HoleSlice(p, size, cacheOffset, blockSize);
        }
      }
    }

    lemma GrowDone(c: seq<byte>, p: seq<byte>, size: nat, below: bool)
      requires Shape() && Verified() && Synced() && (BelowOk() <==> !below)
      requires |c| <= |p| <= size && p == Resize(c, |p|)
      requires |p| == size || (OnBlock(|p|, blockSize) && OnBlock(size, blockSize))
      requires content == Resize(p, size) && CoherentWith(p)
      ensures content == Resize(c, size)
      ensures Good() <==> !below && !StaleIn(p, size)
    {
      ResizeTwice(c, |p|, size);
      GrownCache(p, size);
    }

    /** A headerless file at rest whose raw file has just been cut or extended. */
    lemma HeaderlessReady(code: Code, store: seq<byte>, size: nat)
      requires Shape() && BelowOk() && Headerless()
      requires Coding() == code && Store() == Resize(store, StoreAt(size))
      ensures Ready() && content == Plain(code, 0, Resize(store, size))
    {
      LocNoHeader(size, blockSize);
      NoMacVerified(Coding(), Store());
    }

    /** The blocks before the cut stay, and the size is that of the raw file. */
    lemma HeaderlessShrunk(c: seq<byte>, store: seq<byte>, code: Code, size: nat, last: nat)
      requires Headerless() && code.CipherCode? && code.WellFormed() && code.data == blockSize
      requires c == Plain(code, 0, store) && last < size < |c| && last == AlignDown(size, blockSize)
      ensures var cut := Plain(code, 0, Resize(store, size));
        && |cut| == size
        && Overwrite(cut, last, Slice(c, last, size - last)) == c[..size]
    {
      hide *;
      EmptyStore(code);
      HeaderlessPrefix(code, store, size, last);
      WrittenBack(c, Plain(code, 0, Resize(store, size)), size, last);
    }

    /** Without headers, sizes are raw sizes, and blocks before a change of size stay. */
    lemma HeaderlessPrefix(code: Code, store: seq<byte>, size: nat, at: nat)
      requires code.CipherCode? && code.WellFormed() && OnBlock(at, code.data)
      requires at <= size && at <= |Plain(code, 0, store)|
      ensures |store| == |Plain(code, 0, store)| && |Plain(code, 0, Resize(store, size))| == size
      ensures Plain(code, 0, Resize(store, size))[..at] == Plain(code, 0, store)[..at]
    {
      NoHeaderFramed(code, |store|);
      NoHeaderFramed(code, |Resize(store, size)|);
      LocNoHeader(|Plain(code, 0, store)|, code.data);
      LocNoHeader(|Plain(code, 0, Resize(store, size))|, code.data);
      LocNoHeader(at, code.data);
      PlainSize(code, 0, store);
      PlainSize(code, 0, Resize(store, size));
      SamePrefix(code, store, Resize(store, size), at);
    }

    lemma CacheCut(c: seq<byte>, size: nat, last: nat)
      requires last < size < |c| && last == AlignDown(size, blockSize)
      requires cacheData != [] && cacheOffset == last
      ensures forall co, cd :: CacheMoved(size, c, co, cd)
    {
      AlignRest(size, blockSize);
    }

    /** The size stays, or becomes that of whole blocks: nothing is written, and the cache stays. */
    method Cut(size: nat)
      requires Good() && HasHeader()
      requires size == |content| || (size < |content| && OnBlock(size, blockSize))
      modifies this, Below
      ensures Shape() && Verified() && Synced()
      ensures content == old(Truncated(size))
      ensures Good() <==> !old(ExposesStale(size))
      ensures CacheMoved(size, old(content), old(cacheOffset), old(cacheData))
      decreases height, 8
    {
      GoodParts();
      ReadyParts();
      ghost var c, store, code, co, cd := content, Store(), Coding(), cacheOffset, cacheData;
      CutBelow(size);
      ShrinkFacts(size);
      hide *;
      TruncateStore(size);
      ShapeParts();
      CutStoreDone(code, store, size);
      SyncedKept(size);
      CutDone(c, size);
    }

    /** What holds of any truncation that does not extend the file. */
    lemma ShrinkFacts(size: nat)
      requires Shape() && size <= |content|
      ensures Truncated(size) == content[..size] && !ExposesStale(size)
      ensures size == |content| || OnBlock(size, blockSize) ==> CacheMoved(size, content, cacheOffset, cacheData)
    {
    }

    /** Where a cut of the store to the size for `size` bytes falls in the layer below. */
    lemma CutBelow(size: nat)
      requires Shape() && (size == |content| || (size < |content| && OnBlock(size, blockSize)))
      ensures BelowTakes(size) && BelowStays(size) && !BelowExposes(size)
    {
      PlainSize(Coding(), 0, Store());
      StoreMonotone(Coding(), size, |content|);
      if OnBlock(size, blockSize) {
        Aligned(Coding(), size);
        MulDivMod(BlockOf(size, blockSize), RawSize());
      }
      hide LocWithHeader, StoreOffset, StoreAt, Framed, Plain, Code.WellFormed;
    }

    /** The layer below will not touch its cache when it is cut or extended for `n` bytes. */
    ghost predicate BelowStays(n: nat)
      requires Shape()
      reads this`content, Below
    {
      layer.OverMac? ==>
        var size, now := StoreAt(n), |layer.base.content|;
        && !(size < now && !OnBlock(size, layer.base.blockSize))
        && !(size > now && PadWrites(now, size, layer.base.blockSize, true, layer.base.allowHoles))
    }

    twostate lemma SyncedKept(n: nat)
      requires old(Shape()) && old(Synced()) && old(BelowStays(n))
      requires Shape() && BelowMoved(n) && cacheOffset == old(cacheOffset) && cacheData == old(cacheData)
      ensures Synced()
    {
    }

    lemma CutStoreDone(code: Code, store: seq<byte>, size: nat)
      requires code.WellFormed() && Framed(code, |store|) && code.data == blockSize
      requires StoreOffset(code, size) == StoreAt(size)
      requires var p := |Plain(code, 0, store)|; size == p || (size < p && OnBlock(size, blockSize))
      ensures Plain(code, 0, Resize(store, StoreAt(size))) == Plain(code, 0, store)[..size]
      ensures AllVerified(code, store) ==> AllVerified(code, Resize(store, StoreAt(size)))
    {
      PlainSize(code, 0, store);
      if size == |Plain(code, 0, store)| {
        assert Resize(store, StoreAt(size)) == store;
      } else {
        CutAt(code, store, size);
      }
    }

    lemma CutDone(c: seq<byte>, size: nat)
      requires Shape() && Synced() && Verified() && BelowOk()
      requires size == |c| || (size < |c| && OnBlock(size, blockSize))
      requires content == c[..size]
      requires CoherentWith(c)
      ensures Good()
    {
      hide Shape, Verified, Synced, BelowOk, OnBlock, Slice;
      assert Coherent() by {
        if cacheData != [] && cacheOffset < size {
          CutSlice(c, size, cacheOffset, blockSize);
        }
      }
    }

    // ----- The external IV -------------------------------------------------------------------

    /** The layers down to the raw file. */
    ghost predicate Chain()
      decreases height
    {
      match layer
      case OverCipher(c) => c in Below && c.raw in Below
      case OverMac(base, _, _, _, _) =>
        base in Below && base.Below <= Below && base.height < height && base.Chain()
    }

    /** A header on disk has been written under an external IV that is not zero, so that the
        next external IV is a new key for it, and not the first one. */
    ghost predicate Keyed()
      reads Below
      decreases height
    {
      && Chain()
      && match layer
         case OverCipher(c) => c.haveHeader && c.raw.content != [] ==> c.externalIV != 0
         case OverMac(base, _, _, _, _) => base.Keyed()
    }

    /** The IV the header of the file is coded under. */
    ghost function HeaderKey(): bv64
      requires Chain()
      reads Below
      decreases height
    {
      match layer
      case OverCipher(c) => c.externalIV
      case OverMac(base, _, _, _, _) => base.HeaderKey()
    }

    /** The file on disk, with its header. */
    ghost function RawBytes(): seq<byte>
      requires Chain()
      reads Below
      decreases height
    {
      match layer
      case OverCipher(c) => c.raw.content
      case OverMac(base, _, _, _, _) => base.RawBytes()
    }

    /** The cipher that codes the header. */
    ghost function HeaderCipher(): Cipher
      requires Chain()
      reads Below
      decreases height
    {
      match layer
      case OverCipher(c) => c.cipher
      case OverMac(base, _, _, _, _) => base.HeaderCipher()
    }

    /** The file has a header. */
    ghost predicate HeaderKept()
      decreases height
    {
      match layer
      case OverCipher(c) => c.haveHeader
      case OverMac(base, _, _, _, _) => base.height < height && base.HeaderKept()
    }

    /** A new external IV changes the header, and nothing that can be read. If it is the first one
        for a header that is there already, nothing changes on disk. */
    method SetIV(iv: bv64)
      requires Good()
      modifies Below
      ensures !old(Keyed()) ==> RawBytes() == old(RawBytes()) && HeaderKey() == iv
      ensures old(Keyed()) ==> Good() && content == old(content)
      ensures old(Keyed()) && iv != 0 ==> Keyed() && (HeaderKept() ==> HeaderKey() == iv)
      ensures old(Keyed()) && iv != 0 && HeaderKept() && old(RawBytes()) != [] ==>
        RawBytes() == Rekeyed(HeaderCipher(), old(RawBytes()), old(HeaderKey()), iv)
      decreases height
    {
      hide *;
      match layer {
        case OverCipher(_) => CipherSetIV(iv);
        case OverMac(_, _, _, _, _) => MacSetIV(iv);
      }
    }

    method CipherSetIV(iv: bv64)
      requires Good() && layer.OverCipher?
      modifies Below
      ensures !old(Keyed()) ==> RawBytes() == old(RawBytes()) && HeaderKey() == iv
      ensures old(Keyed()) ==> Good() && content == old(content)
      ensures old(Keyed()) && iv != 0 ==> Keyed() && (HeaderKept() ==> HeaderKey() == iv)
      ensures old(Keyed()) && iv != 0 && HeaderKept() && old(RawBytes()) != [] ==>
        RawBytes() == Rekeyed(HeaderCipher(), old(RawBytes()), old(HeaderKey()), iv)
      decreases height, 0
    {
      hide Code.WellFormed, Plain, Framed, LocWithHeader, StoreOffset, AllVerified, CoherentWith, Rekeyed;
      GoodParts();
      ReadyParts();
      CipherFacts();
      ghost var store, code, keyed := Store(), Coding(), Keyed();
      layer.cipherLayer.SetIV(iv);
      if keyed {
        HeaderLoaded(store, code);
      }
    }

    method MacSetIV(iv: bv64)
      requires Good() && layer.OverMac?
      modifies Below
      ensures !old(Keyed()) ==> RawBytes() == old(RawBytes()) && HeaderKey() == iv
      ensures old(Keyed()) ==> Good() && content == old(content)
      ensures old(Keyed()) && iv != 0 ==> Keyed() && (HeaderKept() ==> HeaderKey() == iv)
      ensures old(Keyed()) && iv != 0 && HeaderKept() && old(RawBytes()) != [] ==>
        RawBytes() == Rekeyed(HeaderCipher(), old(RawBytes()), old(HeaderKey()), iv)
      decreases height, 0
    {
      hide *;
      GoodParts();
      ReadyParts();
      MacFacts();
      MacChain();
      ghost var keyed := Keyed();
      layer.base.SetIV(iv);
      MacChain();
      if keyed { MacRekeyed(); }
    }

    lemma MacChain()
      requires Chain() && layer.OverMac?
      ensures layer.base.Chain() && (HeaderKept() <==> layer.base.HeaderKept())
      ensures Keyed() <==> layer.base.Keyed()
      ensures RawBytes() == layer.base.RawBytes() && HeaderCipher() == layer.base.HeaderCipher()
      ensures HeaderKey() == layer.base.HeaderKey()
    {
    }

    twostate lemma MacRekeyed()
      requires old(Good()) && layer.OverMac?
      requires unchanged(this) && unchanged(layer.base) && layer.base.Good()
      ensures Good()
    {
    }

    // ----- What is on disk -------------------------------------------------------------------

    /** Every block of the file below is the coding of the plain block with the same number,
        or a hole: a full block in block mode, a short last one in stream mode, or a frame. */
    lemma StoredBlock(k: nat)
      requires Shape() && Verified() && k * blockSize >= 0 && k * RawSize() >= 0
      ensures var chunk, x := Slice(Store(), k * RawSize(), RawSize()), Slice(content, k * blockSize, blockSize);
        && (chunk == [] <==> x == [])
        && (x != [] ==> Stored(Coding(), k, chunk, x))
    {
      hide Cipher.Lawful, Plain, AllVerified, Framed, LocWithHeader, Code.Decode, Code.Verified, Stored;
      var code, store := Coding(), Store();
      var chunk := Slice(store, k * RawSize(), RawSize());
      MulDivMod(k, blockSize);
      LocOfBlock(k, RawSize(), HeaderSize());
      ReadBlock(code, store, k, k * RawSize(), k * blockSize);
      VerifiedAt(code, store, k * blockSize);
      PlainSize(code, 0, store);
      StoreMonotone(code, |content|, k * blockSize);
      if chunk != [] {
        StoredChunk(code, k, chunk, code.Decode(k, chunk));
      }
    }
  }

  lemma PadStep(c: seq<byte>, first: nat, at: nat, last: nat, bs: nat)
    requires bs > 0 && first <= |c| && first <= at < last && OnBlock(at, bs) && OnBlock(last, bs)
    ensures at + bs <= last && OnBlock(at + bs, bs)
    ensures at <= |Overwrite(c, first, Zeros(at - first))|
    ensures Overwrite(Overwrite(c, first, Zeros(at - first)), at, Zeros(bs))
         == Overwrite(c, first, Zeros(at + bs - first))
  {
    hide *;
    OnBlockNext(at, bs);
    StepFits(at, last, bs);
    PadEnds(c, first, at - first);
    MoreZeros(at - first, bs);
    OverwriteTwice(c, first, Zeros(at - first), Zeros(bs));
  }

  lemma StepFits(at: nat, last: nat, bs: nat)
    requires bs > 0 && at < last && OnBlock(at, bs) && OnBlock(last, bs)
    ensures at + bs <= last
  {
    DivMod(at, bs);
    DivMod(last, bs);
    NextMultiple(at / bs, last / bs, bs);
  }

  lemma PadEnds(c: seq<byte>, first: nat, n: nat)
    requires first <= |c|
    ensures |Zeros(n)| == n && |Overwrite(c, first, Zeros(n))| >= first + n
  {
    if n > 0 { OverwriteSize(c, first, Zeros(n)); }
  }

  /** The two cases in which a write does not need the old block. */
  lemma MergeCases(c: seq<byte>, at: nat, po: nat, piece: seq<byte>, bs: nat, fileSize: nat)
    requires piece != [] && po + |piece| <= bs && |c| <= Max(fileSize, at)
    ensures |piece| == bs || (po == 0 && at + |piece| >= fileSize) ==> Overwrite(Slice(c, at, bs), po, piece) == piece
    ensures at >= fileSize ==> Overwrite(Slice(c, at, bs), po, piece) == Zeros(po) + piece
  {
  }

  /** The sizes after the next `n` of `left` bytes have been written to the block at `at`. */
  lemma WritingSizes(size: nat, left: nat, at: nat, po: nat, n: nat, fileSize: nat, bs: nat, holes: bool)
    requires po < bs && left > 0 && n == Min(bs - po, left) && fileSize <= size <= Max(fileSize, at)
    ensures var next := Max(size, at + po + n);
      && 0 < n <= left && fileSize <= next && at < next
      && (n < left ==> n == bs - po && next <= Max(fileSize, at + bs) && Fits(bs, holes, next, at + bs, bs))
      && (po == 0 && left <= bs ==> n == left)
  {
  }

  lemma SamePart(p: seq<byte>, c: seq<byte>, i: nat, first: seq<byte>, size: nat)
    requires i <= |p| && i <= |c| && p[..i] == c[..i]
    ensures Resize(p[..i] + first, size) == Resize(c[..i] + first, size)
  {
  }

  lemma EmptyPart(c: seq<byte>, n: nat)
    requires n <= |c|
    ensures AllZero(c[n..n])
  {
  }

  /** A block start within one block of another one is that one. */
  lemma SameBlock(at: nat, b: nat, bs: nat)
    requires bs > 0 && OnBlock(at, bs) && OnBlock(b, bs) && at < b + bs && b < at + bs
    ensures b == at
  {
    DivMod(at, bs);
    DivMod(b, bs);
    if at < b { NextMultiple(at / bs, b / bs, bs); }
    if b < at { NextMultiple(b / bs, at / bs, bs); }
  }

  lemma FrameIs(code: Code, rand: seq<byte>, data: seq<byte>)
    requires code.MacCode? && |rand| == code.randBytes
    ensures code.Frame(rand, data) == code.FrameHead(rand, data) + data && |code.FrameHead(rand, data)| == code.Header()
  {
  }

  lemma BlockBelow(at: nat, n: nat, bs: nat)
    requires bs > 0 && OnBlock(at, bs) && at <= n
    ensures at <= AlignDown(n, bs)
  {
    var l := AlignDown(n, bs);
    hide AlignDown;
    DivMod(at, bs);
    DivMod(l, bs);
    if l < at { NextMultiple(l / bs, at / bs, bs); }
  }

  /** What a frame makes of an old raw block with data `x`. */
  lemma HeadOver(was: seq<byte>, h: seq<byte>, x: seq<byte>, data: seq<byte>)
    requires data != [] && x == if |was| <= |h| then [] else was[|h|..]
    ensures Overwrite(was, 0, h + data) == h + Overwrite(x, 0, data)
  {
  }

  lemma SameGrowth(c: seq<byte>, i: nat, first: seq<byte>, size: nat)
    requires i <= |c| < size && |first| == |c| - i
    ensures Resize(c[..i] + first, size) == Resize(c, size) <==> first == c[i..]
  {
    var l, r := Resize(c[..i] + first, size), Resize(c, size);
    assert l[i..|c|] == first && r[i..|c|] == c[i..];
    if first == c[i..] {
      assert c[..i] + first == c;
    }
  }

  lemma WrittenBack(c: seq<byte>, cut: seq<byte>, size: nat, last: nat)
    requires last < size <= |c| && |cut| == size && cut[..last] == c[..last]
    ensures Overwrite(cut, last, Slice(c, last, size - last)) == c[..size]
  {
    var x := Slice(c, last, size - last);
    OverwriteEnd(cut, last, x);
    assert c[..last] + x == c[..size];
  }

  /** A write inside a block, seen from the block. */
  lemma SliceMerged(s: seq<byte>, at: nat, bs: nat, po: nat, piece: seq<byte>)
    requires piece != [] && po + |piece| <= bs
    ensures Slice(Overwrite(s, at + po, piece), at, bs) == Overwrite(Slice(s, at, bs), po, piece)
  {
    var l, r := Slice(Overwrite(s, at + po, piece), at, bs), Overwrite(Slice(s, at, bs), po, piece);
    OverwriteSize(s, at + po, piece);
    SliceSize(s, at, bs);
    SliceSize(Overwrite(s, at + po, piece), at, bs);
    OverwriteSize(Slice(s, at, bs), po, piece);
    hide Overwrite, Slice;
    forall j | 0 <= j < |l| ensures l[j] == r[j] {
      SliceAt(Overwrite(s, at + po, piece), at, bs, j);
      OverwriteAt(s, at + po, piece, at + j);
      OverwriteAt(Slice(s, at, bs), po, piece, j);
      if j < |Slice(s, at, bs)| { SliceAt(s, at, bs, j); }
    }
  }

  lemma TurnSize(room: nat, left: nat)
    requires room > 0 && left > 0
    ensures var n := Min(room, left); 0 < n <= left && n <= room && (n < left ==> n == room)
  {
  }

  lemma MergedSlice(p: seq<byte>, c: seq<byte>, off: nat, data: seq<byte>, done: nat, at: nat, po: nat, n: nat, bs: nat)
    requires po < bs && at + po == off + done && done < |data| && n == Min(bs - po, |data| - done)
    requires c == Overwrite(p, off, Front(data, done))
    ensures n > 0 && done + n <= |data|
    ensures Overwrite(Slice(c, at, bs), po, Part(data, done, n)) == Slice(Overwrite(p, off, data), at, bs)
  {
    hide *;
    TurnSize(bs - po, |data| - done);
    WriteMore(p, off, data, done, n);
    SliceMerged(c, at, bs, po, Part(data, done, n));
    if done + n == |data| {
      FrontAll(data);
    } else {
      SliceWritten(p, off, data, done + n, at, bs);
    }
  }

  lemma FrontAll(data: seq<byte>)
    ensures Front(data, |data|) == data
  {
  }

  lemma OverSame(s: seq<byte>, at: nat, bs: nat, x: seq<byte>)
    requires |x| <= bs && x == Slice(s, at, |x|)
    ensures Overwrite(Slice(s, at, bs), 0, x) == Slice(s, at, bs)
  {
    SlicePrefix(s, at, bs, |x|);
    SliceSize(s, at, |x|);
    SliceSize(s, at, bs);
    hide Slice;
    var b := Slice(s, at, bs);
    assert x == Slice(b, 0, |x|);
    OverFront(b, |x|);
    assert Slice(b, 0, |x|) == b[..|x|] by { SliceFront(b, |x|); }
  }

  lemma SliceFront(b: seq<byte>, n: nat)
    requires n <= |b|
    ensures Slice(b, 0, n) == b[..n]
  {
  }

  lemma OverFront(b: seq<byte>, n: nat)
    requires n <= |b|
    ensures Overwrite(b, 0, b[..n]) == b
  {
  }

  /** A block that a write is through with is as it will be. */
  lemma SliceWritten(p: seq<byte>, off: nat, data: seq<byte>, done: nat, at: nat, bs: nat)
    requires 0 < done <= |data| && at + bs <= off + done
    ensures Slice(Overwrite(p, off, Front(data, done)), at, bs) == Slice(Overwrite(p, off, data), at, bs)
  {
    var f, r := Overwrite(p, off, Front(data, done)), Overwrite(p, off, data);
    OverwriteSize(p, off, Front(data, done));
    OverwriteSize(p, off, data);
    hide Overwrite;
    forall j | at <= j < at + bs ensures f[j] == r[j] {
      OverwriteAt(p, off, Front(data, done), j);
      OverwriteAt(p, off, data, j);
    }
    assert f[at..at + bs] == r[at..at + bs];
  }

  /** The block an extension fills up. */
  lemma FilledSlice(c: seq<byte>, n: nat, r: seq<byte>, at: nat, bs: nat)
    requires at <= |c| <= at + bs <= n <= |r| && r[..n] == Resize(c, n)
    ensures Slice(r, at, bs) == Resize(c[at..], bs)
  {
    assert Slice(r, at, bs) == r[..n][at..at + bs];
    assert Resize(c, n)[at..at + bs] == Resize(c[at..], bs);
  }

  lemma WrittenSlice(store: seq<byte>, off: nat, chunk: seq<byte>, n: nat)
    requires |chunk| == n > 0
    ensures Slice(Overwrite(store, off, chunk), off, n) == chunk
  {
  }

  /** A written block is found where it was written. */
  lemma WrittenBlock(c: seq<byte>, off: nat, x: seq<byte>, bs: nat, holes: bool)
    requires 0 < |x| <= bs && Fits(bs, holes, |c|, off, |x|)
    ensures Slice(Overwrite(c, off, x), off, bs) == x
  {
  }

  /** The start of a block, and what a cut there makes of it. */
  lemma LastSlice(c: seq<byte>, size: nat, last: nat, bs: nat)
    requires last < size < |c| && size < last + bs
    ensures var x := Slice(c, last, size - last);
      |x| == size - last && c[..last] + x == c[..size] && x == Slice(c[..size], last, bs)
  {
    SubSlice(c, 0, size, last, size);
  }

  /** A cut between blocks leaves the blocks before it alone. */
  lemma CutSlice(c: seq<byte>, size: nat, off: nat, bs: nat)
    requires bs > 0 && (size == |c| || (size < |c| && OnBlock(size, bs)))
    requires off < size && OnBlock(off, bs)
    ensures Slice(c[..size], off, bs) == Slice(c, off, bs)
  {
    if size < |c| {
      DivMod(off, bs);
      DivMod(size, bs);
      NextMultiple(off / bs, size / bs, bs);
      SubSlice(c, 0, size, off, off + bs);
    } else {
      assert c[..size] == c;
    }
  }

  /** A block of an extension by whole blocks reads as zeros. */
  lemma HoleSlice(c: seq<byte>, size: nat, off: nat, bs: nat)
    requires bs > 0 && OnBlock(size, bs) && OnBlock(off, bs) && |c| <= off < size
    ensures Slice(Resize(c, size), off, bs) == Zeros(bs)
  {
    DivMod(off, bs);
    DivMod(size, bs);
    NextMultiple(off / bs, size / bs, bs);
  }

  /** `chunk` holds block `k` with data `x`: it is a hole, or a full block in block mode, a shorter
      one in stream mode, under the number of the block xor the IV of the file, or the data behind
      the first bytes of their MAC and random bytes. */
  ghost predicate Stored(code: Code, k: nat, chunk: seq<byte>, x: seq<byte>) {
    || (code.HolesRead() && AllZero(chunk) && AllZero(x) && |chunk| == code.Header() + |x|
        && (code.CipherCode? ==> |x| == code.data))
    || match code
       case CipherCode(cipher, reverse, _, data, fileIV) =>
         var iv := Xored(Word(k), fileIV);
         chunk ==
           if |x| != data then if reverse then cipher.streamDecode(x, iv) else cipher.streamEncode(x, iv)
           else if reverse then cipher.blockDecode(x, iv)
           else cipher.blockEncode(x, iv)
       case MacCode(cipher, m, randBytes, _, _) =>
         && |chunk| == m + randBytes + |x| && chunk[m + randBytes..] == x && m <= 8
         && chunk[..m] == WordBytes(cipher.mac64(chunk[m..], None))[..m]
  }

  lemma StoredChunk(code: Code, k: nat, chunk: seq<byte>, x: seq<byte>)
    requires code.WellFormed() && x == code.Decode(k, chunk) && x != [] && |chunk| <= code.Raw()
    requires code.Verified(chunk)
    ensures Stored(code, k, chunk, x)
  {
    hide Cipher.Lawful, BlockIV, LittleEndian, WordBytes, Xored, Word;
    if code.CipherCode? {
      DecodeSize(code, k, chunk);
      DecodeIsEncoding(code, k, chunk);
      EncodedAs(code, k, x);
    } else {
      VerifiedExactly(code, chunk);
    }
  }

  lemma LocNoHeader(n: nat, block: nat)
    requires block > 0
    ensures LocWithHeader(n, block, 0) == n
  {
  }

  /** A block written where it fits, or inside the file, leaves the store framed. */
  lemma WriteFramed(code: Code, store: seq<byte>, off: nat, chunk: seq<byte>, x: seq<byte>)
    requires code.WellFormed() && Framed(code, |store|) && off % code.data == 0
    requires code.Encodes(off / code.data, chunk, x) && 0 < |x| <= code.data
    requires var size := |Plain(code, 0, store)|;
      Fits(code.data, code.HolesRead(), size, off, |x|) || off + |x| <= size
    ensures Framed(code, |Overwrite(store, StoreOffset(code, off), chunk)|)
  {
    hide Code.Decode, Code.Verified, Plain, Framed, StoreOffset;
    if Fits(code.data, code.HolesRead(), |Plain(code, 0, store)|, off, |x|) {
      WriteAt(code, store, off, chunk, x);
    } else {
      Aligned(code, off);
      StoreBlock(code, off / code.data, |x|);
      PlainSize(code, 0, store);
      StoreMonotone(code, off + |x|, |Plain(code, 0, store)|);
    }
  }

  lemma {:induction false} NoHeaderFramed(code: Code, n: nat)
    requires code.CipherCode? && code.Raw() > 0
    ensures Framed(code, n)
    decreases n
  {
    if n > code.Raw() { NoHeaderFramed(code, n - code.Raw()); }
  }

  lemma {:induction false} NoMacVerified(code: Code, store: seq<byte>)
    requires code.CipherCode? && code.Raw() > 0
    ensures AllVerified(code, store)
    decreases |store|
  {
    if store != [] { NoMacVerified(code, Rest(code, store)); }
  }

  /** Cipher::randomize. */
  method Randomize(n: nat) returns (r: seq<byte>)
    ensures |r| == n
  {
    r := [];
    while |r| < n
      invariant |r| <= n
    {
      var b: byte :| true;
      r := r + [b];
    }
  }
}
