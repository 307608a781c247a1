/** Renames and files together: DirNode::renameNode has FileNode::setName code the header of each
    file again, and so a renamed file decodes to what it was. */
module RenamedFiles {
  import opened Options
  import opened CipherModel
  import opened CipherFile
  import opened BlockCode
  import opened FileNodeModel
  import opened Names
  import opened NamePath
  import opened DiskTree
  import opened DirNodeModel
  import opened DirNaming
  import opened PlainTree

  /** What setting another external IV makes of a raw file, with `external` IVs or without. */
  function HeaderRekey(config: Config, external: bool): Rekey {
    (raw, from, to) => if config.uniqueIV && external then Rekeyed(config.cipher, raw, from, to) else raw
  }

  /** The IV a file is opened with, if its path leaves `iv`. */
  function ExternalIV(external: bool, iv: bv64): bv64 {
    if external then iv else 0
  }

  lemma HeaderReversible(coder: Coder, config: Config, external: bool)
    requires coder.Usable() && config.cipher.Lawful()
    ensures EntryNaming(coder, HeaderRekey(config, external)).Reversible()
  {
    var rekey := HeaderRekey(config, external);
    hide Rekeyed, Cipher.Lawful, EncodeEntry, DecodeEntry;
    forall raw, a, b ensures rekey(rekey(raw, a, b), b, a) == raw {
      RekeyedBack(config.cipher, raw, a, b);
    }
    forall raw, a ensures rekey(raw, a, a) == raw {
      RekeyedSame(config.cipher, raw, a);
    }
  }

  lemma SamePlainFile(config: Config, external: bool, raw: seq<bv8>, from: bv64, to: bv64)
    requires config.Supported()
    ensures var raw2 := HeaderRekey(config, external)(raw, from, to);
      && PlainFile(config, raw2, ExternalIV(external, to)) == PlainFile(config, raw, ExternalIV(external, from))
      && (Openable(config, raw, ExternalIV(external, from)) ==> Openable(config, raw2, ExternalIV(external, to)))
  {
    hide Rekeyed, Plain, Framed, AllVerified;
    if config.uniqueIV && external {
      RekeyedPlain(config, raw, from, to);
    }
  }

  /** After a rename, the file at a path string below the new name decodes, under that path's IV,
      to what the one at the same path string below the old name decoded to. */
  lemma RenamedContents(io: NameIO, config: Config, external: bool, start: Tree, root: Tree, fromP: Path, toP: Path,
                        after: Tree, p: Path)
    requires io.Valid() && io.chained && Named(fromP) && Named(toP) && Named(p) && config.Supported()
    requires var naming := EntryNaming(io.coder, HeaderRekey(config, external));
      && HasMoved(naming, start, root, fromP, toP, after)
      && var x := Get(start, DiskPath(naming, fromP + p)); x.Some? && x.value.File?
    ensures var naming := EntryNaming(io.coder, HeaderRekey(config, external));
      var x, y := EncodePath(naming, fromP + p, 0), EncodePath(naming, toP + p, 0);
      var was, now := Get(start, x.0), Get(root, y.0);
      && io.PathCode(Encode, Joined(fromP + p), 0) == Ok((Joined(x.0), x.1))
      && io.PathCode(Encode, Joined(toP + p), 0) == Ok((Joined(y.0), y.1))
      && now.Some? && now.value.File?
      && PlainFile(config, now.value.raw, ExternalIV(external, y.1))
         == PlainFile(config, was.value.raw, ExternalIV(external, x.1))
      && (Openable(config, was.value.raw, ExternalIV(external, x.1)) ==>
            Openable(config, now.value.raw, ExternalIV(external, y.1)))
  {
    var naming := EntryNaming(io.coder, HeaderRekey(config, external));
    var x, y := EncodePath(naming, fromP + p, 0), EncodePath(naming, toP + p, 0);
    HeaderReversible(io.coder, config, external);
    RenamedPaths(io, HeaderRekey(config, external), start, root, fromP, toP, after, p);
    SamePlainFile(config, external, Get(start, x.0).value.raw, x.1, y.1);
    hide HeaderRekey, HasMoved, EncodePath, Get, PlainFile, Openable, Rekeyed;
  }

  // ----- The whole volume -----------------------------------------------------------------------

  /** What the user reads in a file whose path leaves `iv`. */
  ghost function FileReader(config: Config, external: bool): Reader
    requires config.Supported()
  {
    (raw: seq<bv8>, iv: bv64) => FileContents(config, raw, ExternalIV(external, iv))
  }

  ghost function FileContents(config: Config, raw: seq<bv8>, externalIV: bv64): seq<bv8> {
    if config.Supported() then PlainFile(config, raw, externalIV) else []
  }

  predicate AllNames(plain: Tree) {
    plain.Dir? ==> forall n :: n in plain.kids ==> IsName(n) && AllNames(plain.kids[n])
  }

  lemma {:induction false} NamesRead(coder: Coder, rekey: Rekey, p: Path, iv: bv64)
    requires coder.Valid() && coder.Usable() && Named(p)
    ensures Readable(EntryNaming(coder, rekey), p, iv)
    decreases |p|
  {
    if p != [] {
      EntryRoundTrip(coder, p[0], iv);
      assert forall k :: 0 <= k < |p[1..]| ==> p[1..][k] == p[k + 1];
      hide EncodeEntry, DecodeEntry, Coder.Valid, IsName;
      NamesRead(coder, rekey, p[1..], Child(EntryNaming(coder, rekey), p[0], iv));
    }
  }

  lemma {:induction false} NamesReturn(coder: Coder, rekey: Rekey, plain: Tree, iv: bv64)
    requires coder.Valid() && coder.Usable() && AllNames(plain)
    ensures AllReturn(EntryNaming(coder, rekey), plain, iv)
    decreases plain
  {
    hide EncodeEntry, DecodeEntry, Coder.Valid, IsName;
    if plain.Dir? {
      var naming := EntryNaming(coder, rekey);
      forall n | n in plain.kids
        ensures NameReturns(naming, n, iv) && AllReturn(naming, plain.kids[n], Child(naming, n, iv))
      {
        EntryRoundTrip(coder, n, iv);
        NamesReturn(coder, rekey, plain.kids[n], Child(naming, n, iv));
      }
    }
  }

  lemma {:induction false} NamesBelow(plain: Tree, p: Path)
    requires AllNames(plain) && Get(plain, p).Some?
    ensures AllNames(Get(plain, p).value)
    decreases |p|
  {
    if p != [] { NamesBelow(plain.kids[p[0]], p[1..]); }
  }

  lemma ReaderKeeps(coder: Coder, config: Config, external: bool)
    requires coder.Usable() && config.Supported()
    ensures KeepsContents(EntryNaming(coder, HeaderRekey(config, external)), FileReader(config, external))
  {
    var naming, read := EntryNaming(coder, HeaderRekey(config, external)), FileReader(config, external);
    hide HeaderRekey, PlainFile, EncodeEntry, DecodeEntry, Openable;
    forall raw, from, to ensures read(naming.rekey(raw, from, to), to) == read(raw, from) {
      SamePlainFile(config, external, raw, from, to);
    }
  }

  /** If the disk codes a plain tree of files and directories, then after a rename on disk it codes
      the plain tree with that rename: with NameIO's names, and the contents that the file layers
      decode under the IVs of the paths. */
  lemma RenamedVolume(io: NameIO, config: Config, external: bool, plain: Tree, start: Tree, root: Tree,
                      fromP: Path, toP: Path, after: Tree)
    requires io.Valid() && io.chained && Named(fromP) && Named(toP) && AllNames(plain) && config.Supported()
    requires var naming := EntryNaming(io.coder, HeaderRekey(config, external));
      && Codes(naming, FileReader(config, external), plain, start, 0)
      && HasMoved(naming, start, root, fromP, toP, after)
    ensures Renamed(plain, fromP, toP).Some?
    ensures Codes(EntryNaming(io.coder, HeaderRekey(config, external)), FileReader(config, external),
                  Renamed(plain, fromP, toP).value, root, 0)
  {
    var rekey := HeaderRekey(config, external);
    var naming := EntryNaming(io.coder, rekey);
    HeaderReversible(io.coder, config, external);
    ReaderKeeps(io.coder, config, external);
    NamesRead(io.coder, rekey, fromP, 0);
    NamesRead(io.coder, rekey, toP, 0);
    if Get(plain, fromP).Some? {
      NamesBelow(plain, fromP);
      NamesReturn(io.coder, rekey, Get(plain, fromP).value, EncodePath(naming, toP, 0).1);
    }
    hide *;
    RenamedTree(naming, FileReader(config, external), plain, start, root, fromP, toP, after);
  }
}
