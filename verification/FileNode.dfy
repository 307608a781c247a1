/** FileNode.cpp: the chain of layers over one raw file, and what any run of requests to it means. */
module FileNodeModel {
  import opened Bytes
  import opened CipherModel
  import opened BlockCode
  import opened Division
  import opened Offsets
  import opened Padding
  import opened RawFile
  import opened CipherFile
  import opened BlockFile

  /** The part of the volume configuration that the file layers use. */
  datatype Config = Config(
    cipher: Cipher, blockSize: nat, macBytes: nat, randBytes: nat,
    uniqueIV: bool, reverse: bool, allowHoles: bool, forceDecode: bool)
  {
    predicate HasMac() {
      macBytes > 0 || randBytes > 0
    }

    function CipherCoding(fileIV: bv64): Code {
      CipherCode(cipher, reverse, allowHoles, blockSize, fileIV)
    }

    function MacCoding(): Code
      requires macBytes + randBytes <= blockSize
    {
      MacCode(cipher, macBytes, randBytes, allowHoles, blockSize - macBytes - randBytes)
    }

    /** MACs over a reverse encryption that allows holes are left out: the layer below the MACs
        would not read holes as zeros, though the MACs pass them. */
    ghost predicate Supported() {
      && CipherCoding(0).WellFormed()
      && macBytes <= 8 && blockSize - macBytes - randBytes > 1
      && (HasMac() && allowHoles ==> !reverse)
    }

    /** The bytes of a plain block. */
    function DataSize(): (bs: nat)
      requires Supported()
      ensures bs > 1
    {
      blockSize - macBytes - randBytes
    }
  }

  // ----- A raw file, on its own ---------------------------------------------------------------

  function RawIV(config: Config, raw: seq<byte>, externalIV: bv64): bv64 {
    if config.uniqueIV && |raw| >= HEADER_SIZE then HeaderIV(config.cipher, raw[..HEADER_SIZE], externalIV) else 0
  }

  function RawStore(config: Config, raw: seq<byte>): seq<byte> {
    if !config.uniqueIV then raw else if |raw| >= HEADER_SIZE then raw[HEADER_SIZE..] else []
  }

  function CipherPlain(config: Config, raw: seq<byte>, externalIV: bv64): seq<byte>
    requires config.Supported()
  {
    Plain(config.CipherCoding(RawIV(config, raw, externalIV)), 0, RawStore(config, raw))
  }

  /** What a raw file decodes to under a configuration and an external IV. */
  function PlainFile(config: Config, raw: seq<byte>, externalIV: bv64): seq<byte>
    requires config.Supported()
  {
    if config.HasMac() then Plain(config.MacCoding(), 0, CipherPlain(config, raw, externalIV))
    else CipherPlain(config, raw, externalIV)
  }

  /** A raw file that these layers can have written: empty, or with a header that holds an IV,
      and with blocks that match their MACs. */
  ghost predicate Openable(config: Config, raw: seq<byte>, externalIV: bv64)
    requires config.Supported()
  {
    && (config.uniqueIV && raw != [] ==> |raw| >= HEADER_SIZE && RawIV(config, raw, externalIV) != 0)
    && (config.HasMac() ==>
          && Framed(config.MacCoding(), |CipherPlain(config, raw, externalIV)|)
          && AllVerified(config.MacCoding(), CipherPlain(config, raw, externalIV)))
  }

  /** A file that is coded again for another external IV decodes to the same under that. */
  lemma RekeyedPlain(config: Config, raw: seq<byte>, from: bv64, to: bv64)
    requires config.Supported() && config.uniqueIV
    ensures PlainFile(config, Rekeyed(config.cipher, raw, from, to), to) == PlainFile(config, raw, from)
    ensures Openable(config, raw, from) ==> Openable(config, Rekeyed(config.cipher, raw, from, to), to)
  {
    var there := Rekeyed(config.cipher, raw, from, to);
    hide Plain, Framed, AllVerified;
    if |raw| >= HEADER_SIZE {
      HeaderRoundTrip(config.cipher, HeaderIV(config.cipher, raw[..HEADER_SIZE], from), to);
      assert there[..HEADER_SIZE] == EncodeHeader(config.cipher, RawIV(config, raw, from), to);
      assert there[HEADER_SIZE..] == raw[HEADER_SIZE..];
    }
  }

  /** Block `k` of the plain file in terms of the cipher and of the bytes on disk: behind the file
      header, the raw block is decoded in block mode if it is a whole one and in stream mode
      otherwise, under its number xor the IV of the file, and the data is behind the MAC header. */
  lemma BlockOnDisk(config: Config, raw: seq<byte>, externalIV: bv64, k: nat)
    requires config.Supported() && k * config.blockSize >= 0 && k * config.DataSize() >= 0
    ensures var c, bs, h := config.cipher, config.blockSize, config.macBytes + config.randBytes;
      var chunk := Slice(raw, k * bs + (if config.uniqueIV then 8 else 0), bs);
      var iv := Xored(Word(k), if config.uniqueIV && |raw| >= 8 then HeaderIV(c, raw[..8], externalIV) else 0);
      var block :=
        if chunk == [] then []
        else if |chunk| != bs then if config.reverse then c.streamEncode(chunk, iv) else c.streamDecode(chunk, iv)
        else if config.reverse then c.blockEncode(chunk, iv)
        else if config.allowHoles && AllZero(chunk) then chunk
        else c.blockDecode(chunk, iv);
      Slice(PlainFile(config, raw, externalIV), k * (bs - h), bs - h) == if |block| <= h then [] else block[h..]
  {
    hide Plain, AllZero, Xored, Word, HeaderIV, Slice, Cipher.Lawful;
    var bs, below := config.blockSize, config.CipherCoding(RawIV(config, raw, externalIV));
    var store := RawStore(config, raw);
    ReadBlock(below, store, k, k * bs, k * bs);
    DecodedAs(below, k, Slice(store, k * bs, bs));
    if config.uniqueIV {
      SliceBehindHeader(raw, k * bs, bs);
    }
    if config.HasMac() {
      ReadBlock(config.MacCoding(), CipherPlain(config, raw, externalIV), k, k * bs, k * config.DataSize());
    }
  }

  lemma EmptyOpenable(config: Config, externalIV: bv64)
    requires config.Supported()
    ensures Openable(config, [], externalIV) && PlainFile(config, [], externalIV) == []
  {
  }

  // ----- Requests, on a flat file -------------------------------------------------------------

  datatype Request =
    | Read(off: nat, len: nat)
    | Write(writeAt: nat, data: seq<byte>)
    | Truncate(size: nat)

  function Flat(c: seq<byte>, r: Request): seq<byte> {
    match r
    case Read(_, _) => c
    case Write(off, data) => Overwrite(c, off, data)
    case Truncate(size) => Resize(c, size)
  }

  function FlatRun(c: seq<byte>, run: seq<Request>): seq<byte>
    decreases run
  {
    if run == [] then c else FlatRun(Flat(c, run[0]), run[1..])
  }

  /** What is known of the top cache without looking at it: that the cached block, if any, starts
      before `top`, and that the last block of the file, if it is not a whole one, is cached. */
  datatype Known = Known(top: nat, tail: bool)

  const NOTHING_CACHED := Known(0, false)

  lemma CanOpen(config: Config, raw: seq<byte>, externalIV: bv64)
    requires config.Supported() && Openable(config, raw, externalIV)
    ensures CipherCode(config.cipher, config.reverse, config.allowHoles, config.blockSize, 0).WellFormed()
    ensures config.blockSize > 1 && config.cipher.Lawful() && config.macBytes <= 8
    ensures config.blockSize - config.macBytes - config.randBytes > 1
    ensures config.macBytes > 0 || config.randBytes > 0 ==> (config.allowHoles ==> !config.reverse)
    ensures config.uniqueIV ==> raw == [] || |raw| >= HEADER_SIZE
    ensures config.uniqueIV && raw != [] ==> HeaderIV(config.cipher, raw[..HEADER_SIZE], externalIV) != 0
  {
  }

  lemma CanCheck(config: Config, c: seq<byte>, raw: seq<byte>, externalIV: bv64)
    requires config.Supported() && Openable(config, raw, externalIV) && c == CipherPlain(config, raw, externalIV)
    requires config.macBytes > 0 || config.randBytes > 0
    ensures var code := MacCode(config.cipher, config.macBytes, config.randBytes, config.allowHoles,
                                config.blockSize - config.macBytes - config.randBytes);
      code.Raw() > 0 && Framed(code, |c|) && AllVerified(code, c)
  {
    hide Plain, Framed, AllVerified, CipherPlain, Cipher.Lawful;
  }

  lemma LayerDecodes(config: Config, c: CipherLayer)
    requires config.Supported()
    requires c.cipher == config.cipher && c.haveHeader == config.uniqueIV && c.reverse == config.reverse
    requires c.holes == config.allowHoles && c.bs == config.blockSize
    ensures c.Store() == RawStore(config, c.raw.content)
    ensures c.Coding() == config.CipherCoding(RawIV(config, c.raw.content, c.externalIV))
  {
  }

  lemma OverDecodes(config: Config, c: CipherLayer, over: BlockFileIO)
    requires config.Supported() && over.Shape() && over.layer == OverCipher(c)
    requires c.cipher == config.cipher && c.haveHeader == config.uniqueIV && c.reverse == config.reverse
    requires c.holes == config.allowHoles && c.bs == config.blockSize
    ensures over.content == CipherPlain(config, c.raw.content, c.externalIV)
    ensures c.Valid()
    ensures (config.allowHoles ==> !config.reverse) ==> over.HolesRead() == over.allowHoles
  {
    LayerDecodes(config, c);
    over.CipherFacts();
  }

  lemma MacDecodes(config: Config, base: BlockFileIO, top: BlockFileIO)
    requires config.Supported() && top.Shape() && top.Verified()
    requires top.layer == OverMac(base, config.cipher, config.macBytes, config.randBytes, config.forceDecode)
    requires top.blockSize == config.DataSize() && top.allowHoles == config.allowHoles
    ensures base.Shape() && top.content == Plain(config.MacCoding(), 0, base.content)
    ensures Framed(config.MacCoding(), |base.content|) && AllVerified(config.MacCoding(), base.content)
  {
    top.MacFacts();
    assert top.MacCoding() == config.MacCoding();
  }

  /** The layer with the MACs, if there are any, and otherwise the one without. */
  method TopLayer(config: Config, c: CipherLayer, over: BlockFileIO) returns (top: BlockFileIO)
    requires config.Supported() && Openable(config, c.raw.content, c.externalIV)
    requires over.Good() && over.cacheData == [] && over.layer == OverCipher(c) && over.blockSize == config.blockSize
    requires over.allowHoles == config.allowHoles && over.Below == {c, c.raw}
    requires c.cipher == config.cipher && c.haveHeader == config.uniqueIV && c.reverse == config.reverse
    requires c.holes == config.allowHoles && c.bs == config.blockSize
    ensures over.Good() && top.Good() && top.cacheData == []
    ensures if config.macBytes > 0 || config.randBytes > 0
      then top.layer == OverMac(over, config.cipher, config.macBytes, config.randBytes, config.forceDecode)
           && top.blockSize == config.blockSize - config.macBytes - config.randBytes
           && top.allowHoles == config.allowHoles && top.Below == {over} + over.Below && fresh(top)
      else top == over
  {
    hide *;
    GoodShape(over);
    OverDecodes(config, c, over);
    CanOpen(config, c.raw.content, c.externalIV);
    top := over;
    if config.macBytes > 0 || config.randBytes > 0 {
      CanCheck(config, over.content, c.raw.content, c.externalIV);
      top := new BlockFileIO.ForMac(over, config.cipher, config.macBytes, config.randBytes, config.forceDecode);
    }
  }

  lemma GoodShape(io: BlockFileIO)
    requires io.Good()
    ensures io.Shape()
  {
  }

  class FileNode {
    const config: Config
    const raw: RawFileIO
    const cipherLayer: CipherLayer
    // the layer over the ciphers, and the top layer, which is the same without MACs
    const cipherIO: BlockFileIO
    const io: BlockFileIO

    ghost predicate Built() {
      && config.Supported()
      && cipherLayer.raw == raw && cipherLayer.cipher == config.cipher && cipherLayer.haveHeader == config.uniqueIV
      && cipherLayer.reverse == config.reverse && cipherLayer.holes == config.allowHoles
      && cipherLayer.bs == config.blockSize
      && cipherIO.layer == OverCipher(cipherLayer) && cipherIO.Below == {cipherLayer, raw}
      && io.blockSize == config.DataSize() && io.allowHoles == config.allowHoles
      && if config.HasMac()
         then io.layer == OverMac(cipherIO, config.cipher, config.macBytes, config.randBytes, config.forceDecode)
              && io.Below == {cipherIO, cipherLayer, raw}
         else io == cipherIO
    }

    ghost predicate Valid()
      reads io, io.Below
    {
      Built() && io.Good()
    }

    /** The plain bytes of the file. */
    ghost function Content(): seq<byte>
      reads io
    {
      io.content
    }

    /** A new chain over a file on disk. */
    constructor (config: Config, content: seq<byte>, externalIV: bv64)
      requires config.Supported() && Openable(config, content, externalIV)
      ensures Valid() && this.config == config
      ensures raw.content == content && cipherLayer.externalIV == externalIV
      ensures Content() == PlainFile(config, content, externalIV) && io.cacheData == []
      ensures Holds(NOTHING_CACHED)
      ensures fresh(io) && fresh(io.Below)
    {
      hide *;
      CanOpen(config, content, externalIV);
      var file := new RawFileIO(content);
      var random := NonZero();
      var c := new CipherLayer(file, config.cipher, config.uniqueIV, config.reverse, config.allowHoles,
                               config.blockSize, random, externalIV);
      var over := new BlockFileIO.ForCipher(c);
      var top := TopLayer(config, c, over);
      this.config, this.raw, this.cipherLayer, this.cipherIO, this.io := config, file, c, over, top;
      new;
      Complete();
      NothingCached();
    }

    lemma NothingCached()
      requires io.cacheData == []
      ensures Holds(NOTHING_CACHED)
    {
    }

    lemma Complete()
      requires config.Supported() && io.Good() && cipherIO.Good()
      requires cipherLayer.raw == raw
      requires cipherLayer.cipher == config.cipher && cipherLayer.haveHeader == config.uniqueIV
      requires cipherLayer.reverse == config.reverse && cipherLayer.holes == config.allowHoles
      requires cipherLayer.bs == config.blockSize
      requires cipherIO.layer == OverCipher(cipherLayer) && cipherIO.Below == {cipherLayer, raw}
      requires cipherIO.blockSize == config.blockSize && cipherIO.allowHoles == config.allowHoles
      requires if config.macBytes > 0 || config.randBytes > 0
        then io.layer == OverMac(cipherIO, config.cipher, config.macBytes, config.randBytes, config.forceDecode)
             && io.blockSize == config.blockSize - config.macBytes - config.randBytes
             && io.allowHoles == config.allowHoles && io.Below == {cipherIO} + cipherIO.Below
        else io == cipherIO
      ensures Valid() && Content() == PlainFile(config, raw.content, cipherLayer.externalIV)
    {
      assert Built();
      hide BlockFileIO.Good;
      OnDisk();
    }

    /** Whatever has been done through this chain, the file on disk decodes to the content: a new
        chain over the same file would start with it. */
    lemma OnDisk()
      requires Valid()
      ensures Openable(config, raw.content, cipherLayer.externalIV)
      ensures Content() == PlainFile(config, raw.content, cipherLayer.externalIV)
    {
      io.GoodParts();
      io.ReadyParts();
      hide BlockFileIO.Good, BlockFileIO.Ready, BlockFileIO.Verified, AllVerified, Plain, Framed, Code.WellFormed;
      if config.HasMac() {
        MacDecodes(config, cipherIO, io);
      }
      OverDecodes(config, cipherLayer, cipherIO);
    }

    /** The file moves to another directory, and gets another external IV. If its header was there
        before any external IV, or under the IV zero, the new one is only noted. */
    method SetIV(iv: bv64)
      requires Valid()
      modifies io.Below
      ensures !old(Keyed()) ==> raw.content == old(raw.content) && cipherLayer.externalIV == iv
      ensures old(Keyed()) ==> Valid() && Content() == old(Content())
      ensures old(Keyed()) ==> PlainFile(config, raw.content, cipherLayer.externalIV) == old(Content())
      ensures old(Keyed()) && iv != 0 && config.uniqueIV ==> cipherLayer.externalIV == iv
      ensures old(Keyed()) && iv != 0 && config.uniqueIV && old(raw.content) != [] ==>
        raw.content == Rekeyed(config.cipher, old(raw.content), old(cipherLayer.externalIV), iv)
    {
      hide Rekeyed, PlainFile, BlockFileIO.Good, BlockFileIO.Keyed, BlockFileIO.RawBytes, BlockFileIO.HeaderKey;
      hide BlockFileIO.HeaderCipher, BlockFileIO.HeaderKept, Built;
      ChainHere();
      ChainIs();
      ghost var keyed := Keyed();
      io.SetIV(iv);
      ChainIs();
      if keyed { OnDisk(); }
    }

    /** A header on disk, if there is one, is coded under an external IV other than zero. */
    ghost predicate Keyed()
      reads cipherLayer, raw
    {
      config.uniqueIV && raw.content != [] ==> cipherLayer.externalIV != 0
    }

    lemma ChainHere()
      requires Valid()
      ensures Built() && io.Good() && io.Chain() && raw in io.Below && cipherLayer in io.Below
    {
    }

    lemma ChainIs()
      requires Built() && io.Chain()
      ensures io.Keyed() <==> Keyed()
      ensures io.HeaderKept() <==> config.uniqueIV
      ensures io.HeaderKey() == cipherLayer.externalIV
      ensures io.RawBytes() == raw.content && io.HeaderCipher() == config.cipher
    {
      assert cipherIO.Chain() && cipherIO.HeaderKey() == cipherLayer.externalIV;
      assert cipherIO.Keyed() <==> Keyed();
      if config.HasMac() {
        assert cipherIO.height < io.height;
      }
    }

    // ----- Runs of requests ---------------------------------------------------------------

    ghost predicate Holds(k: Known)
      reads io
    {
      io.CachedBelow(k.top) && (k.tail ==> io.TailCached())
    }

    /** What is known after a request to a file `c`. A cut between blocks leaves the cache as it is,
        and a read may leave the last block without a cache. */
    function After(c: seq<byte>, k: Known, r: Request): Known {
      var bs := io.blockSize;
      match r
      case Read(off, len) =>
        if off < |c| && len > 0
        then Known(Min(off + len, |c|), OnBlock(|c|, bs) || off + len > AlignDown(|c|, bs))
        else Known(Max(k.top, Min(off + 1, |c|)), OnBlock(|c|, bs))
      case Write(off, data) => Known(off + |data|, off + |data| >= |c| || OnBlock(|c|, bs))
      case Truncate(size) =>
        if size == |c| then k
        else Known(if LeavesCache(|c|, size) then k.top else size, true)
    }

    /** A change of size writes nothing: a cut between blocks, or an extension by holes. */
    predicate LeavesCache(m: nat, n: nat) {
      OnBlock(n, io.blockSize) && (n < m || (config.allowHoles && OnBlock(m, io.blockSize)))
    }

    /** What a caller must know before a request to a file `c`: a write has data, and the blocks
        that are written read back, which without holes all do. With holes, an extension is not
        from whole blocks to whole blocks while a block that was cut off is cached. Where
        there is neither header nor MACs, an extension starts from whole blocks, or with the last
        block cached. Reverse encryption has no holes to leave. */
    ghost predicate Clean(c: seq<byte>, k: Known, r: Request) {
      match r
      case Read(_, _) => true
      case Write(off, data) =>
        && data != []
        && io.KeptOn(c, Overwrite(c, off, data), off, off + |data|)
        && io.GrowsWhole(|c|, off)
      case Truncate(size) =>
        && (size > |c| ==> CleanGrowth(c, k, size))
        && (size < |c| ==> io.CutKept(c, size))
    }

    ghost predicate CleanGrowth(c: seq<byte>, k: Known, size: nat) {
      && (k.top <= |c| || !LeavesCache(|c|, size))
      && (config.uniqueIV || config.HasMac() || k.tail || OnBlock(|c|, io.blockSize))
      && io.KeptIn(Resize(c, size), |c|, AlignUp(|c|, io.blockSize))
      && io.GrowsWhole(|c|, size)
    }

    ghost predicate CleanRun(c: seq<byte>, k: Known, run: seq<Request>)
      decreases run
    {
      run != [] ==> Clean(c, k, run[0]) && CleanRun(Flat(c, run[0]), After(c, k, run[0]), run[1..])
    }

    /** Every request gets one answer. Reads get the bytes that are there; while a block that was
        cut off is cached, those that start in the file. */
    predicate Answered(c: seq<byte>, k: Known, run: seq<Request>, answers: seq<seq<byte>>)
      decreases run
    {
      && |answers| == |run|
      && (run != [] ==>
            && (run[0].Read? && (run[0].off < |c| || k.top <= |c|) ==> answers[0] == Slice(c, run[0].off, run[0].len))
            && Answered(Flat(c, run[0]), After(c, k, run[0]), run[1..], answers[1..]))
    }

    /** In a run of reads and writes every read gets what the flat file has then. */
    lemma {:induction false} ReadsAnswered(c: seq<byte>, k: Known, run: seq<Request>, answers: seq<seq<byte>>, j: nat)
      requires Answered(c, k, run, answers) && k.top <= |c| && j < |run| && run[j].Read?
      requires forall i :: 0 <= i < |run| ==> !run[i].Truncate? && (run[i].Write? ==> run[i].data != [])
      ensures answers[j] == Slice(FlatRun(c, run[..j]), run[j].off, run[j].len)
      decreases j
    {
      if j == 0 {
        assert run[..0] == [];
      } else {
        var r := run[0];
        assert forall i :: 0 <= i < |run[1..]| ==> run[1..][i] == run[i + 1];
        assert run[..j][0] == r && run[..j][1..] == run[1..][..j - 1];
        if r.Write? { OverwriteSize(c, r.writeAt, r.data); }
        ReadsAnswered(Flat(c, r), After(c, k, r), run[1..], answers[1..], j - 1);
      }
    }

    lemma NoHolesKept(c: seq<byte>, lo: nat, hi: nat)
      requires Built() && !config.allowHoles
      ensures io.KeptIn(c, lo, hi)
    {
      hide Storable, Cipher.Lawful;
      forall k, x ensures io.BlockKept(k, x) {
        NoHoleKept(k, x);
      }
    }

    lemma NoHoleKept(k: nat, x: seq<byte>)
      requires Built() && !config.allowHoles
      ensures io.BlockKept(k, x)
    {
      hide Cipher.Lawful;
    }

    /** With headers or MACs, and without holes, every run without empty writes is clean. */
    lemma {:induction false} UsuallyClean(c: seq<byte>, k: Known, run: seq<Request>)
      requires Built() && !config.allowHoles && (config.uniqueIV || config.HasMac())
      requires forall j :: 0 <= j < |run| && run[j].Write? ==> run[j].data != []
      ensures CleanRun(c, k, run)
      decreases |run|
    {
      if run != [] {
        assert forall j :: 0 <= j < |run[1..]| ==> run[1..][j] == run[j + 1];
        UsuallyClean(Flat(c, run[0]), After(c, k, run[0]), run[1..]);
        OneClean(c, k, run[0]);
      }
    }

    lemma OneClean(c: seq<byte>, k: Known, r: Request)
      requires Built() && !config.allowHoles && (config.uniqueIV || config.HasMac())
      requires r.Write? ==> r.data != []
      ensures Clean(c, k, r)
    {
      forall c, lo, hi ensures io.KeptIn(c, lo, hi) {
        NoHolesKept(c, lo, hi);
      }
      forall c, size ensures io.CutKept(c, size) {
        NoHolesCut(c, size);
      }
      assert !io.allowHoles;
      hide BlockFileIO.KeptIn, BlockFileIO.CutKept, Built;
    }

    /** With holes, and without MACs: a request is clean if the file it makes can be stored at all. An
        extension must also start from a file whose end is known. */
    lemma StorableIsClean(c: seq<byte>, k: Known, r: Request)
      requires Built() && !config.HasMac() && !config.reverse
      requires AllStorable(config.CipherCoding(cipherLayer.ownIV), 0, Flat(c, r))
      requires r.Write? ==> r.data != []
      requires r.Truncate? && r.size > |c| ==>
        && (k.top <= |c| || !LeavesCache(|c|, r.size))
        && (config.uniqueIV || k.tail || OnBlock(|c|, io.blockSize))
      ensures Clean(c, k, r)
    {
      hide Cipher.Lawful, AllStorable;
      forall lo, hi ensures io.KeptIn(Flat(c, r), lo, hi) {
        StorableKept(Flat(c, r), lo, hi);
      }
      hide BlockFileIO.KeptIn;
    }

    lemma StorableKept(c: seq<byte>, lo: nat, hi: nat)
      requires Built() && !config.HasMac()
      requires AllStorable(config.CipherCoding(cipherLayer.ownIV), 0, c)
      ensures io.KeptIn(c, lo, hi)
    {
      hide Cipher.Lawful, AllStorable, Storable;
      var code, bs := config.CipherCoding(cipherLayer.ownIV), io.blockSize;
      forall at: nat | OnBlock(at, bs) && at + bs <= |c| ensures io.BlockKept(BlockOf(at, bs), Slice(c, at, bs)) {
        Aligned(code, at);
        SpanNext(BlockOf(at, bs) + 1, bs);
        StorableAt(code, 0, c, BlockOf(at, bs));
      }
    }

    lemma NoHolesCut(c: seq<byte>, size: nat)
      requires Built() && !config.allowHoles
      ensures io.CutKept(c, size)
    {
      hide Cipher.Lawful;
    }

    /** What a request needs of the state it is served in. */
    ghost predicate Servable(r: Request)
      requires Valid()
      reads io, io.Below
    {
      match r
      case Read(_, _) => true
      case Write(off, data) => data != [] && io.WriteKept(off, data) && io.Growable(off)
      case Truncate(size) =>
        && io.Growable(size) && io.TruncateKept(size)
        && io.GrowsCleanly(size) && !io.ExposesStale(size)
    }

    lemma CleanIsServable(k: Known, r: Request)
      requires Valid() && Holds(k) && Clean(Content(), k, r)
      ensures Servable(r)
    {
      if r.Truncate? { CleanTruncate(k, r.size); }
    }

    lemma CleanTruncate(k: Known, size: nat)
      requires Valid() && Holds(k) && Clean(Content(), k, Truncate(size))
      ensures io.Growable(size) && io.TruncateKept(size) && io.GrowsCleanly(size) && !io.ExposesStale(size)
    {
      AlignRest(|Content()|, io.blockSize);
      if k.top <= |Content()| { io.NotExposed(size); }
      hide BlockFileIO.KeptIn, BlockFileIO.CutKept;
    }

    /** One request is one on a flat file, in any state it can be served in. */
    method Serve(r: Request) returns (answer: seq<byte>)
      requires Valid() && Servable(r)
      modifies io, io.Below
      ensures Valid() && Content() == Flat(old(Content()), r)
      ensures r.Read? && (r.off < |Content()| || old(io.CachedBelow(|io.content|))) ==>
        answer == Slice(Content(), r.off, r.len)
      ensures forall k: Known :: old(Holds(k)) ==> Holds(After(old(Content()), k, r))
    {
      hide *;
      Parts();
      answer := [];
      match r {
        case Read(off, len) =>
          NotStale(off);
          answer := io.Read(off, len);
          KnownAfterRead(off, len);
        case Write(off, data) =>
          ServableIs(r);
          io.Write(off, data);
          KnownAfterWrite(off, data);
        case Truncate(size) =>
          ServableIs(r);
          io.Truncate(size);
          KnownAfterTruncate(size);
      }
      Whole();
      FlatIs(old(Content()), r);
    }

    lemma Parts()
      requires Valid()
      ensures Built() && io.Good() && Content() == io.content && io.Shape()
    {
    }

    lemma Whole()
      requires Built() && io.Good()
      ensures Valid() && Content() == io.content
    {
    }

    lemma FlatIs(c: seq<byte>, r: Request)
      ensures Flat(c, r) ==
        match r
        case Read(_, _) => c
        case Write(off, data) => Overwrite(c, off, data)
        case Truncate(size) => Resize(c, size)
    {
    }

    lemma ServableIs(r: Request)
      requires Valid() && Servable(r)
      ensures r.Write? ==> r.data != [] && io.WriteKept(r.writeAt, r.data) && io.Growable(r.writeAt)
      ensures r.Truncate? ==>
        && io.Growable(r.size) && io.TruncateKept(r.size) && !io.ExposesStale(r.size)
        && io.Truncated(r.size) == Resize(io.content, r.size)
    {
      hide BlockFileIO.WriteKept, BlockFileIO.TruncateKept, BlockFileIO.ExposesStale, BlockFileIO.Good;
    }

    lemma NotStale(off: nat)
      ensures off < |io.content| || io.CachedBelow(|io.content|) ==> io.View(AlignDown(off, io.blockSize)) == io.content
    {
    }

    twostate lemma KnownAfterRead(new off: nat, new len: nat)
      requires io.content == old(io.content)
      requires off < |io.content| && len > 0 ==> io.CachedBelow(Min(off + len, |io.content|))
      requires || io.cacheData == []
               || (old(io.cacheData) != [] && io.cacheOffset == old(io.cacheOffset))
               || io.cacheOffset < Min(off + Max(len, 1), |io.content|)
      requires off < |io.content| && len > 0 && off + len > AlignDown(|io.content|, io.blockSize) ==> io.TailCached()
      ensures forall k: Known :: old(Holds(k)) ==> Holds(After(old(io.content), k, Read(off, len)))
    {
      hide AlignDown, OnBlock, BlockFileIO.TailCached;
      if OnBlock(|io.content|, io.blockSize) { OnBlockTail(); }
    }

    lemma OnBlockTail()
      requires OnBlock(|io.content|, io.blockSize)
      ensures io.TailCached()
    {
    }

    twostate lemma KnownAfterWrite(new off: nat, new data: seq<byte>)
      requires data != [] && io.content == Overwrite(old(io.content), off, data)
      requires io.EndCached(off + |data|)
      ensures forall k: Known :: old(Holds(k)) ==> Holds(After(old(io.content), k, Write(off, data)))
    {
      hide BlockFileIO.TailCached, OnBlock, Overwrite;
      OverwriteSize(old(io.content), off, data);
      if off + |data| >= |old(io.content)| {
        io.EndIsTail();
      } else if OnBlock(|old(io.content)|, io.blockSize) {
        OnBlockTail();
      }
    }

    twostate lemma KnownAfterTruncate(new size: nat)
      requires io.content == Resize(old(io.content), size) && io.allowHoles == config.allowHoles
      requires io.CacheMoved(size, old(io.content), old(io.cacheOffset), old(io.cacheData))
      ensures forall k: Known :: old(Holds(k)) ==> Holds(After(old(io.content), k, Truncate(size)))
    {
      hide Resize, OnBlock, PadWrites, PadSize, Padded;
      ResizeSize(old(io.content), size);
      if size > |old(io.content)| { io.GrowthCases(old(io.content), size); }
    }

    /** Every clean run of requests is a run on a flat file. */
    method Run(run: seq<Request>, ghost k: Known) returns (answers: seq<seq<byte>>)
      requires Valid() && Holds(k) && CleanRun(Content(), k, run)
      modifies io, io.Below
      ensures Valid() && Content() == FlatRun(old(Content()), run)
      ensures Answered(old(Content()), k, run, answers)
      ensures PlainFile(config, raw.content, cipherLayer.externalIV) == FlatRun(old(Content()), run)
      decreases run
    {
      hide Servable, Holds, After, Clean, Valid, PlainFile;
      if run == [] {
        answers := [];
      } else {
        CleanIsServable(k, run[0]);
        InsideIs(k);
        var answer := Serve(run[0]);
        var rest := Run(run[1..], After(old(Content()), k, run[0]));
        answers := [answer] + rest;
        assert answers[1..] == rest;
      }
      OnDisk();
    }

    lemma InsideIs(k: Known)
      requires Holds(k)
      ensures k.top <= |io.content| ==> io.CachedBelow(|io.content|)
    {
    }
  }

  // ----- Where the code is not a flat file ------------------------------------------------------

  /** A full block that is written and read again comes back exactly if it is storable, and as
      zeros otherwise. */
  method WriteAndReread(layer: CipherLayer, off: nat, x: seq<byte>) returns (y: seq<byte>)
    requires layer.Valid() && OnBlock(off, layer.bs) && |x| == layer.bs
    modifies layer`fileIV, layer.raw
    ensures layer.Valid()
    ensures old(layer.raw.content) != [] ==> layer.Coding() == old(layer.Coding())
    ensures y == x <==> Storable(layer.Coding(), BlockOf(off, layer.bs), x)
    ensures y == x || y == Zeros(layer.bs)
  {
    hide *;
    layer.LayerCode();
    ghost var store := layer.Store();
    ghost var chunk := layer.WriteOneBlock(off, x);
    layer.LayerCode();
    y := layer.ReadOneBlock(off);
    WrittenSlice(store, off, chunk, layer.bs);
    Reread(layer.Coding(), BlockOf(off, layer.bs), x);
  }

  lemma Reread(code: Code, i: nat, x: seq<byte>)
    requires code.CipherCode? && code.WellFormed() && |x| == code.data
    ensures var y := code.Decode(i, code.EncodeBlock(i, x));
      && (y == x <==> Storable(code, i, x))
      && (y == x || y == Zeros(code.data))
  {
    EncodeBlockRoundTrip(code, i, x);
    hide BlockIV;
    if !Storable(code, i, x) {
      assert code.EncodeBlock(i, x) == Zeros(code.data);
    }
  }

  /** Where the block coding flips every byte, a block of ones is such a block. */
  lemma OnesAreLost(k: nat, fileIV: bv64)
    ensures var code := CipherCode(BlockFlipCipher(), false, true, 2, fileIV);
      code.WellFormed() && !Storable(code, k, [1, 1])
  {
    BlockFlipLawful();
    var code := CipherCode(BlockFlipCipher(), false, true, 2, fileIV);
    assert FlipAll([1, 1]) == [0, 0];
    assert code.EncodeBlock(k, [1, 1]) == FlipAll([1, 1]) == [0, 0];
    assert code.HolesRead() && AllZero([0, 0]);
    var ones: seq<byte> := [1, 1];
    assert ones[0] != 0;
    assert !Storable(code, k, ones);
    assert code.data % code.cipher.blockSize == 0;
    assert code.WellFormed();
  }

  lemma BlockFlipLawful()
    ensures BlockFlipCipher().Lawful()
  {
    forall x: seq<byte> ensures FlipAll(FlipAll(x)) == x { FlipTwice(x); }
  }

  function BlockFlipCipher(): Cipher {
    Cipher(1, (x, iv) => FlipAll(x), (x, iv) => FlipAll(x), (x, iv) => x, (x, iv) => x, (x, iv) => 0)
  }

  /** A block that is cut off stays in the cache: a read behind the end of the file still gets it. */
  method ReadBehindEnd(io: BlockFileIO, first: seq<byte>, second: seq<byte>) returns (answer: seq<byte>)
    requires io.Good() && io.content == [] && |first| == |second| == io.blockSize
    requires io.BlockKept(0, first) && io.BlockKept(1, second)
    modifies io, io.Below
    ensures io.content == first
    ensures answer == second
  {
    hide *;
    TwoBlocks(first, second, io.blockSize);
    WriteAndCutOff(io, first, second);
    answer := io.Read(io.blockSize, io.blockSize);
  }

  method WriteAndCutOff(io: BlockFileIO, first: seq<byte>, second: seq<byte>)
    requires io.Good() && io.content == [] && |first| == |second| == io.blockSize
    requires io.BlockKept(0, first) && io.BlockKept(1, second)
    modifies io, io.Below
    ensures io.Good() && io.content == first
    ensures io.cacheOffset == io.blockSize && io.cacheData == second
    ensures io.View(io.blockSize) == first + second
  {
    hide *;
    TwoBlocks(first, second, io.blockSize);
    BlockWriteKept(io, 0, first);
    io.Write(0, first);
    Append(io, first, second);
    CutOffFacts(io, first, second);
    io.Truncate(io.blockSize);
    StillCached(io, first, second);
  }

  method Append(io: BlockFileIO, first: seq<byte>, second: seq<byte>)
    requires io.Good() && io.content == first && |first| == |second| == io.blockSize
    requires io.BlockKept(1, second)
    modifies io, io.Below
    ensures io.Good() && io.content == first + second && io.Cached(io.blockSize)
  {
    hide *;
    TwoBlocks(first, second, io.blockSize);
    BlockWriteKept(io, 1, second);
    io.Write(io.blockSize, second);
  }

  /** A block appended to whole blocks. */
  lemma BlockWriteKept(io: BlockFileIO, k: nat, x: seq<byte>)
    requires k <= 1 && |io.content| == k * io.blockSize && |x| == io.blockSize && io.BlockKept(k, x)
    ensures io.WriteKept(|io.content|, x) && io.Growable(|io.content|) && x != []
  {
    var off, bs := |io.content|, io.blockSize;
    var r := Overwrite(io.content, off, x);
    MulDivMod(k, bs);
    hide BlockFileIO.BlockKept;
    forall at: nat | OnBlock(at, bs) && off < at + bs <= |r| && at < off + |x|
      ensures io.BlockKept(BlockOf(at, bs), Slice(r, at, bs))
    {
      SameBlock(off, at, bs);
      assert Slice(r, off, bs) == x;
    }
  }

  lemma CutOffFacts(io: BlockFileIO, first: seq<byte>, second: seq<byte>)
    requires io.Good() && io.content == first + second && |first| == |second| == io.blockSize
    requires io.Cached(io.blockSize)
    ensures io.Truncated(io.blockSize) == first && !io.ExposesStale(io.blockSize)
    ensures io.Growable(io.blockSize) && io.TruncateKept(io.blockSize)
    ensures io.cacheOffset == io.blockSize && io.cacheData == second
  {
    TwoBlocks(first, second, io.blockSize);
    io.NoneKept(io.content, io.blockSize);
    io.GoodParts();
    hide BlockFileIO.Good, BlockFileIO.Ready, BlockFileIO.Shape;
  }

  lemma StillCached(io: BlockFileIO, first: seq<byte>, second: seq<byte>)
    requires |first| == |second| == io.blockSize
    requires io.CacheMoved(io.blockSize, first + second, io.blockSize, second) && io.content == first
    ensures io.cacheOffset == io.blockSize && io.cacheData == second
    ensures io.View(io.blockSize) == first + second
  {
    TwoBlocks(first, second, io.blockSize);
  }

  lemma TwoBlocks(first: seq<byte>, second: seq<byte>, bs: nat)
    requires |first| == |second| == bs > 1
    ensures OnBlock(0, bs) && OnBlock(bs, bs) && AlignDown(bs, bs) == bs
    ensures Overwrite([], 0, first) == first && Overwrite(first, bs, second) == first + second
    ensures Slice(first + second, bs, bs) == second && (first + second)[..bs] == first
    ensures Resize(first + second, bs) == first && Resize(first, bs) == first
  {
    OnBlockNext(0, bs);
    AlignRest(bs, bs);
  }

  /** Where holes are allowed, extending the file by the cut-off block brings it back for
      readers, while the file itself has zeros there. */
  method HoleBringsBack(io: BlockFileIO, first: seq<byte>, second: seq<byte>)
    requires io.Good() && io.content == [] && |first| == |second| == io.blockSize && io.HolesRead()
    requires io.BlockKept(0, first) && io.BlockKept(1, second)
    modifies io, io.Below
    ensures io.content == Resize(first, 2 * io.blockSize)
    ensures io.CachedBlock(io.blockSize) == second
    ensures io.Good() ==> second == Zeros(io.blockSize)
  {
    hide *;
    WriteAndCutOff(io, first, second);
    ComesBack(io, first, second);
    ghost var exposes := io.ExposesStale(2 * io.blockSize);
    io.Truncate(2 * io.blockSize);
    BackInCache(io, first, second, exposes);
  }

  lemma ComesBack(io: BlockFileIO, first: seq<byte>, second: seq<byte>)
    requires io.Good() && io.content == first && |first| == |second| == io.blockSize && io.HolesRead()
    requires io.cacheOffset == io.blockSize && io.cacheData == second
    ensures io.Truncated(2 * io.blockSize) == Resize(first, 2 * io.blockSize)
    ensures io.ExposesStale(2 * io.blockSize) <== second != Zeros(io.blockSize)
    ensures io.Growable(2 * io.blockSize) && io.TruncateKept(2 * io.blockSize)
  {
    TwoBlocks(first, second, io.blockSize);
    OnBlockNext(io.blockSize, io.blockSize);
    io.NoneKept(io.Truncated(2 * io.blockSize), io.blockSize);
  }

  lemma BackInCache(io: BlockFileIO, first: seq<byte>, second: seq<byte>, exposes: bool)
    requires |first| == |second| == io.blockSize && io.HolesRead()
    requires exposes <== second != Zeros(io.blockSize)
    requires io.Good() <==> !exposes
    requires io.CacheMoved(2 * io.blockSize, first, io.blockSize, second)
    ensures io.CachedBlock(io.blockSize) == second
    ensures io.Good() ==> second == Zeros(io.blockSize)
  {
    var bs := io.blockSize;
    TwoBlocks(first, second, bs);
    OnBlockNext(bs, bs);
    io.GrowthCases(first, 2 * bs);
  }

  /** A cipher whose stream mode flips the low bit of every byte and whose block mode does nothing. */
  function FlipAll(x: seq<byte>): (r: seq<byte>)
    ensures |r| == |x| && forall k :: 0 <= k < |x| ==> r[k] == x[k] ^ 1
  {
    seq(|x|, k requires 0 <= k < |x| => x[k] ^ 1)
  }

  function FlipCipher(): Cipher {
    Cipher(1, (x, iv) => x, (x, iv) => x, (x, iv) => FlipAll(x), (x, iv) => FlipAll(x), (x, iv) => 0)
  }

  function FlipConfig(): Config {
    Config(FlipCipher(), 2, 0, 0, false, false, false, false)
  }

  lemma FlipByte(b: byte)
    ensures b ^ 1 ^ 1 == b
  {
  }

  lemma FlipTwice(x: seq<byte>)
    ensures FlipAll(FlipAll(x)) == x
  {
    var r := FlipAll(FlipAll(x));
    forall k | 0 <= k < |x| ensures r[k] == x[k] { FlipByte(x[k]); }
  }

  lemma FlipSupported()
    ensures FlipConfig().Supported()
  {
    forall x: seq<byte> ensures FlipAll(FlipAll(x)) == x { FlipTwice(x); }
    assert FlipCipher().Lawful();
  }

  /** Without a header, extending a file whose partial last block is not cached decodes that
      block as a whole one: here the one byte of the file is lost. */
  method ExtendUncached() returns (node: FileNode, ghost before: seq<byte>)
    ensures before == [1]
    ensures node.Valid() && node.Content() == [0, 0]
  {
    hide *;
    FlipSupported();
    FlipOpens();
    node := new FileNode(FlipConfig(), [0], 0);
    before := node.Content();
    NodeParts(node);
    FlipState(node);
    FlipGrows(node.io);
    FlipKept(node);
    node.io.Truncate(2);
    NodeWhole(node);
  }

  lemma NodeParts(node: FileNode)
    requires node.Valid()
    ensures node.Built() && node.io.Good() && node.Content() == node.io.content
  {
  }

  lemma NodeWhole(node: FileNode)
    requires node.Built() && node.io.Good()
    ensures node.Valid() && node.Content() == node.io.content
  {
  }

  lemma FlipOpens()
    requires FlipConfig().Supported()
    ensures Openable(FlipConfig(), [0], 0) && PlainFile(FlipConfig(), [0], 0) == [1]
  {
  }

  lemma FlipGrows(io: BlockFileIO)
    requires io.Shape() && io.blockSize == 2 && io.Headerless() && !io.allowHoles
    requires io.content == [1] && io.cacheData == []
    requires io.Coding() == FlipCode() && io.Store() == [0]
    ensures io.Truncated(2) == [0, 0] && !io.ExposesStale(2)
  {
    hide FlipCode, BlockFileIO.Shape, BlockFileIO.GrownStart, BlockFileIO.Store, BlockFileIO.Coding;
    hide BlockFileIO.Headerless, AlignDown, OnBlock, BlockFileIO.StaleIn;
    FlipStart(io);
    AlignRest(1, 2);
    assert Resize([0], 2) == [0, 0];
  }

  function FlipCode(): Code {
    FlipConfig().CipherCoding(0)
  }

  lemma FlipKept(node: FileNode)
    requires node.Valid() && node.config == FlipConfig()
    ensures node.io.Growable(2) && node.io.TruncateKept(2)
  {
    hide BlockFileIO.KeptIn, BlockFileIO.CutKept, BlockFileIO.Truncated, BlockFileIO.Good, FlipCipher, Cipher.Lawful;
    FlipBuilt(node);
    forall c, lo, hi ensures node.io.KeptIn(c, lo, hi) {
      node.NoHolesKept(c, lo, hi);
    }
    node.NoHolesCut(node.io.content, 2);
  }

  lemma FlipBuilt(node: FileNode)
    requires node.Valid() && node.config == FlipConfig()
    ensures node.Built() && !node.config.allowHoles && !node.io.allowHoles && node.io.Shape()
  {
    hide BlockFileIO.Shape, FlipCipher, Cipher.Lawful;
  }

  lemma FlipState(node: FileNode)
    requires node.Valid() && node.config == FlipConfig() && node.raw.content == [0]
    ensures node.io.blockSize == 2 && node.io.Headerless() && !node.io.allowHoles
    ensures node.io.Coding() == FlipCode() && node.io.Store() == [0]
  {
    node.io.CipherFacts();
  }

  lemma FlipStart(io: BlockFileIO)
    requires io.blockSize == 2
    ensures io.GrownStart(1, [0], FlipCode(), 2) == [0] && AlignDown(1, 2) == 0
  {
    AlignRest(1, 2);
    hide AlignDown, BlockOf, BlockIV;
    assert Resize([0], 2) == [0, 0];
    assert Slice([0, 0], 0, 2) == [0, 0];
  }
}
