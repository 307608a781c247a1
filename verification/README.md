# encfs4win: files, names, renames and locks

encfs4win keeps a directory tree encrypted on an ordinary disk and shows it as a Windows drive.
This project models the parts of it that have to get data back exactly as it went in:

- **The file stack.** A raw file, the ciphers over it (`CipherFileIO`: a header with the file's IV,
  full blocks in block mode, a shorter last one in stream mode), optionally MACs over those
  (`MACFileIO`), and over each the block cache, read-merge-write, padding and truncation of
  `BlockFileIO`. The main result says that every run of reads, writes and truncations through this
  stack is a run on a flat sequence of bytes, and that what lies on disk decodes to it at any time.
- **Names.** The in-place base 64 change, the two name codings with their padding, checksum and IV
  chaining, and the coding of whole paths.
- **Renames.** With chained IVs, renaming a directory renames everything in it. The model has the
  list of renames, applying and undoing it, and the faults that may come in between; the results
  say what is where afterwards. The main one says that a rename of coded names on disk is that
  rename in the tree of plain names and decoded files that the disk stands for.
- **Locks.** The table of open handles and their byte ranges.
- **Stream passes and the variable store.** The shuffle and flip passes of the stream cipher, and
  the format configuration variables are saved in.

A cipher is a pair of length-keeping, mutually inverse codings and a MAC (`CipherModel.Cipher`);
nothing else is assumed of it. Objects the program updates in place are classes here, and each of
their methods is proved against a function of the old state. `CipherLayer` and `RawFileIO` are the
lower objects, `BlockFileIO` is the common class of the two block layers with `Layer` for the
subclass, and `FileNode` puts the chain together.

| file | models |
|---|---|
| Bytes, Division, Options, Bits | flat file operations, quotients, words |
| Cipher, BlockCode, Offsets, Padding | what blocks, headers, MACs, offsets and padding mean |
| CipherFileIO, BlockFileIO, FileNode | the file stack |
| StreamPasses | SSL_Cipher.cpp's passes over a buffer |
| Base64, Names, NamePath | base64.cpp, BlockNameIO.cpp, StreamNameIO.cpp, NameIO.cpp |
| DiskTree, DirNode | the disk and DirNode.cpp |
| PlainTree, RenamedFiles | renames as the user sees them: plain names, and files as the file stack decodes them |
| FileLocks | the lock table of fusemain.cpp |
| ConfigVar | ConfigVar.cpp and ConfigReader.cpp |

## Model

| member | source | states |
|---|---|---|
| FileNodeModel.FileNode.Run | encfs/encfs/FileNode.cpp:254-286 | every clean run of requests answers, and leaves, what the same run on a flat file does, and the file on disk decodes to that, whatever the cipher, block size, MACs, header and holes; what clean asks is computed from the requests alone |
| FileNodeModel.FileNode.ReadsAnswered | encfs/encfs/FileNode.cpp:254-286 | in a run of reads and writes the answers are what the flat file has at each read |
| FileNodeModel.FileNode.Serve | encfs/encfs/FileNode.cpp:254-286 | one request is one on a flat file in every state but those in which the code fails (a cut-off block exposed, an old last block decoded at the wrong length, a block that cannot be stored) |
| FileNodeModel.FileNode.CleanIsServable | encfs/encfs/BlockFileIO.cpp:366-429 | a request that is clean by what the requests before it tell meets none of those states |
| FileNodeModel.FileNode.OnDisk | encfs/encfs/FileNode.cpp:66-85 | at rest, a new chain over the same raw file starts with the same content |
| FileNodeModel.FileNode.UsuallyClean | encfs/encfs/BlockFileIO.cpp:366-429 | with headers or MACs and without holes, any run without empty writes is clean |
| FileNodeModel.FileNode.StorableIsClean | encfs/encfs/BlockFileIO.cpp:366-429 | with holes and without MACs, a request is clean if the file it makes can be stored at all and an extension starts from a file whose end is known |
| FileNodeModel.BlockOnDisk | encfs/encfs/CipherFileIO.cpp:274-311 | any block of what a raw file decodes to, from the bytes on disk and the cipher's calls alone: the place behind the file header, the mode, the number xor the file's IV, the hole, the part behind the MAC header |
| FileNodeModel.FileNode.SetIV | encfs/encfs/CipherFileIO.cpp:101-150 | a new external IV changes no content, and the raw file in its header only, which is recoded; if the header was there before any external IV the new one is only noted |
| FileNodeModel.RekeyedPlain | encfs/encfs/CipherFileIO.cpp:179-272 | a raw file with its header recoded decodes to the same under the new IV |
| BlockFile.BlockFileIO.Read | encfs/encfs/BlockFileIO.cpp:102-168 | a read of any range gets that slice of the file, through any mix of cache hits, direct and partial blocks |
| BlockFile.BlockFileIO.ReadExactly | encfs/encfs/BlockFileIO.cpp:54-87 | a read gets what the file has if and only if it does not reach into a cached block that was cut off |
| BlockFile.BlockFileIO.Write | encfs/encfs/BlockFileIO.cpp:170-277 | a write of any range makes the content the flat overwrite, zero-filled up to it, keeps the cache good, and leaves the block of its last byte cached |
| BlockFile.BlockFileIO.PadFile | encfs/encfs/BlockFileIO.cpp:284-364 | what the padding writes, with and without holes, and when it touches nothing |
| BlockFile.BlockFileIO.Truncate | encfs/encfs/BlockFileIO.cpp:366-429 | content after any cut or extension, in each of the three ways the layers do it; the cache stays good if and only if no cut-off block is exposed |
| BlockFile.BlockFileIO.GrowthExactly | encfs/encfs/BlockFileIO.cpp:366-429 | an extension keeps the old bytes if and only if it is safe or the old last block decodes the same either way |
| BlockFile.BlockFileIO.GetSize | encfs/encfs/MACFileIO.cpp:157-168 | the size computed from the raw size is that of the content, at every layer |
| BlockFile.BlockFileIO.CacheReadOneBlock | encfs/encfs/BlockFileIO.cpp:54-87 | a block comes from the cache or from below, and a good cache stays good |
| BlockFile.BlockFileIO.CacheWriteOneBlock | encfs/encfs/BlockFileIO.cpp:89-100 | the store is overwritten at the block with a chunk that decodes to the data |
| BlockFile.BlockFileIO.MacReadOneBlock | encfs/encfs/MACFileIO.cpp:170-242 | fails if and only if the first bytes of a raw block with data are not the low bytes of the MAC of the rest, the block is no hole, and mismatches are not only warned of; otherwise gives the data |
| BlockCode.VerifiedExactly | encfs/encfs/MACFileIO.cpp:186-227 | a raw block with data is accepted if and only if its first bytes are the low bytes of the MAC of the rest, lowest first, or it is all zeros where holes are allowed |
| BlockFile.BlockFileIO.MacWriteOneBlock | encfs/encfs/MACFileIO.cpp:244-285 | what is written below is the low bytes of the MAC, lowest first, of random bytes and the data, then those; it reads back, and blocks that matched their MACs still do |
| BlockCode.FrameExactly | encfs/encfs/MACFileIO.cpp:255-276 | the same of any random bytes and data |
| CipherModel.LittleEndianIs | encfs/encfs/MACFileIO.cpp:269-276 | the bytes a MAC is stored as are, each at its place, the eight of the word |
| CipherModel.Mac16Is | encfs/encfs/Cipher.cpp:177-196 | the 16 bit MAC is the four parts of the 64 bit one xored together |
| BlockFile.BlockFileIO.StoredBlock | encfs/encfs/CipherFileIO.cpp:274-349 | at rest, each raw block is a hole or what the cipher makes of the plain block with its number, in the mode for its length and under the number xor the file's IV, or the plain block behind its MAC |
| BlockFile.BlockFileIO.SetIV | encfs/encfs/MACFileIO.cpp:102-105 | the same through the layers |
| BlockCode.EncodeBlockRoundTrip | encfs/encfs/CipherFileIO.cpp:314-388 | what is written for a block reads back as it if and only if the block is storable |
| BlockCode.EncodedAs | encfs/encfs/CipherFileIO.cpp:314-349 | a full block is coded by the block mode, a shorter one by the stream mode, with the directions exchanged in reverse encryption, under the number xor the file's IV |
| BlockCode.DecodedAs | encfs/encfs/CipherFileIO.cpp:274-311 | and a chunk is decoded so, but for a full chunk of zeros where there may be holes |
| BlockCode.BlockIVIs | encfs/encfs/CipherFileIO.cpp:295-298 | xored with the file's IV, the IV of a block has as its eight bytes the number of the block |
| BlockCode.OtherBlockIV | encfs/encfs/CipherFileIO.cpp:326-330 | and so different blocks of a file have different IVs |
| BlockCode.UnstorableBlock | encfs/encfs/CipherFileIO.cpp:370-388 | for each block number and IV exactly one block is not storable with holes: the one zeros decode to, unless that is zeros |
| BlockCode.StorableExactly | encfs/encfs/CipherFileIO.cpp:370-388 | some raw file decodes to given content if and only if all its full blocks are storable |
| BlockCode.FrameRoundTrip | encfs/encfs/MACFileIO.cpp:170-285 | the frame of a block matches its MAC and gives the block back |
| BlockCode.WriteAt | encfs/encfs/CipherFileIO.cpp:314-349 | overwriting the raw file with an encoded block overwrites the decoded file with the block, inside it, at its end, or behind a hole |
| BlockCode.WriteAndCutAt | encfs/encfs/BlockFileIO.cpp:403-429 | a shortened last block written back and the cut behind it leave the start of the file |
| BlockCode.GrowAt | encfs/encfs/BlockFileIO.cpp:329-359 | raw growth by whole blocks is growth by zeros where holes are read |
| BlockCode.PlainSize | encfs/encfs/MACFileIO.cpp:125-168 | raw and plain size determine each other by the two maps |
| Offsets.LocRoundTrip | encfs/encfs/MACFileIO.cpp:107-140 | locWithoutHeader undoes locWithHeader, for every size and every header shorter than the block |
| Offsets.LocMonotone | encfs/encfs/MACFileIO.cpp:107-134 | locWithHeader is strictly increasing |
| Offsets.LocOfBlock | encfs/encfs/MACFileIO.cpp:107-134 | starts of data blocks go to starts of raw blocks |
| Padding.PadClean | encfs/encfs/BlockFileIO.cpp:284-364 | on a file of the old size the padding writes keep all bytes and add zeros |
| Padding.PadGrown | encfs/encfs/BlockFileIO.cpp:284-364 | on a file already grown they put the old last block and zeros behind the blocks before it |
| CipherFile.CipherLayer.InitHeader | encfs/encfs/CipherFileIO.cpp:179-236 | the IV in the header is loaded, or a file without one gets a header with an IV that is not zero |
| CipherFile.CipherLayer.WriteHeader | encfs/encfs/CipherFileIO.cpp:238-272 | the header holds the IV that was shifted out of the field, coded under the external IV |
| CipherFile.CipherLayer.SetIV | encfs/encfs/CipherFileIO.cpp:101-150 | the first external IV is noted; a later one recodes the header and keeps the file's IV |
| CipherFile.CipherLayer.ReadOneBlock | encfs/encfs/CipherFileIO.cpp:274-311 | the cipher's decoding of the raw block, by its mode and under its number xor the file's IV, or the zeros of a hole; the raw file is not changed |
| CipherFile.CipherLayer.WriteOneBlock | encfs/encfs/CipherFileIO.cpp:314-349 | the raw file is overwritten behind the header with the cipher's coding of the block, by its mode and under its number xor the file's IV, which reads back if and only if the block is storable |
| CipherFile.HeaderRoundTrip | encfs/encfs/CipherFileIO.cpp:179-272 | the IV in a header is the one that was put there |
| CipherFile.HeaderIs | encfs/encfs/CipherFileIO.cpp:238-272 | a header is the eight bytes of the IV, highest first, in stream mode under the external IV |
| CipherFile.HeaderIVIs | encfs/encfs/CipherFileIO.cpp:179-204 | and the IV read from a header has the decoded bytes |
| CipherFile.RekeyedBack | encfs/encfs/CipherFileIO.cpp:101-150 | recoding a header for another external IV and back restores it byte by byte |
| FileNodeModel.WriteAndReread | encfs/encfs/CipherFileIO.cpp:274-388 | a block written and read again is the same if and only if it is storable, and zeros otherwise |
| FileNodeModel.OnesAreLost | encfs/encfs/CipherFileIO.cpp:370-388 | a cipher and a block that is lost |
| FileNodeModel.ReadBehindEnd | encfs/encfs/BlockFileIO.cpp:54-87 | after a cut between blocks a read behind the end gets the block that was cut off |
| FileNodeModel.HoleBringsBack | encfs/encfs/BlockFileIO.cpp:329-359 | with holes, an extension by the same block lets readers see it again, while the file has zeros there |
| FileNodeModel.ExtendUncached | encfs/encfs/BlockFileIO.cpp:379-383 | without a header, the one byte of a file that is extended is lost |
| StreamPasses.StreamRoundTrip | encfs/encfs/SSL_Cipher.cpp:790-864 | streamDecode undoes streamEncode and the other way round, for every data and IV |
| StreamPasses.UnshuffledShuffled | encfs/encfs/SSL_Cipher.cpp:775-785 | unshuffling undoes the running xor |
| StreamPasses.FlippedTwice | encfs/encfs/SSL_Cipher.cpp:756-773 | reversing chunks of 64 bytes, with a short last one, is its own inverse |
| StreamPasses.FlippedAt | encfs/encfs/SSL_Cipher.cpp:756-773 | where each byte goes: to the mirrored place in its chunk of 64, or in the shorter last one |
| StreamPasses.ShuffledAt | encfs/encfs/SSL_Cipher.cpp:775-779 | each byte but the first is xored with what the one before it has become |
| StreamPasses.FlipBytes | encfs/encfs/SSL_Cipher.cpp:756-773 | the loop in place does that |
| StreamPasses.ShuffleBytes | encfs/encfs/SSL_Cipher.cpp:775-779 | the loop in place makes each byte the xor of those up to it |
| StreamPasses.UnshuffleBytes | encfs/encfs/SSL_Cipher.cpp:781-785 | the backward loop in place undoes that |
| StreamPasses.StreamEncode | encfs/encfs/SSL_Cipher.cpp:790-826 | in place: shuffle, the stream mode under the IV, flip, shuffle, and the stream mode under the next IV |
| StreamPasses.StreamDecode | encfs/encfs/SSL_Cipher.cpp:828-864 | and the same backwards, with the next IV first |
| Base64.ChangeBase2Inline | encfs/encfs/base64.cpp:62-110 | the in-place recursion leaves the digits of the number the values make, and the rest of the buffer alone |
| Base64.ChangeBase2 | encfs/encfs/base64.cpp:25-52 | the loop into another buffer leaves the same digits |
| Base64.DigitAt | encfs/encfs/base64.cpp:25-110 | each value of the result is the bits of the number at its place |
| Base64.EncodedRoundTrip | encfs/encfs/base64.cpp:25-110 | from 8 to 6 bits and back restores every string of bytes |
| Base64.EncodeInline | encfs/encfs/base64.cpp:104-110 | as many values as the size formula says are the base 64 form |
| Base64.DecodeInline | encfs/encfs/base64.cpp:104-110 | as many bytes as the size formula says are decoded; one more is overwritten if the length is 1 mod 4 |
| Base64.AsciiRoundTrip | encfs/encfs/base64.cpp:120-163 | file name characters give the values back |
| Base64.AlphabetIs | encfs/encfs/base64.cpp:113-163 | the characters that go back are exactly comma, hyphen, the digits and the letters |
| Base64.OtherCharacters | encfs/encfs/base64.cpp:140-163 | of all other characters only the six between Z and a are taken for letters |
| Base64.AlphabetRises | encfs/encfs/base64.cpp:113-138 | and the values have them in the order of the characters |
| Names.BlockNameIO.NameRoundTrip | encfs/encfs/BlockNameIO.cpp:95-207 | decoding gives back any name under any IV, both ways chain to the same IV, the coded name has the size the formula says and no slash, dot or zero byte |
| Names.StreamNameIO.NameRoundTrip | encfs/encfs/StreamNameIO.cpp:90-200 | the same for every interface of the stream coding |
| Names.BlockNameIO.EncodeName | encfs/encfs/BlockNameIO.cpp:110-148 | the passes over the buffer make the coded name and the next IV that the next row describes |
| Names.BlockNameIO.EncodeExactly | encfs/encfs/BlockNameIO.cpp:110-148 | for the name and its padding: the two bytes of their checksum and, in block mode under the checksum xor the IV, themselves; the next IV is their MAC under the IV, and without an IV there is none |
| Names.BlockNameIO.DecodeName | encfs/encfs/BlockNameIO.cpp:150-207 | and the decoded name, or the error of the check that fails, as the next row describes |
| Names.BlockNameIO.DecodeExactly | encfs/encfs/BlockNameIO.cpp:150-207 | a text decodes if and only if it has the length of whole blocks, its padding can be one, and the stored checksum is that of the decoded bytes; the first that fails decides the error |
| Names.StreamNameIO.EncodeName | encfs/encfs/StreamNameIO.cpp:102-141 | the passes over the buffer make the coded name and the next IV that the next row describes |
| Names.StreamNameIO.EncodeExactly | encfs/encfs/StreamNameIO.cpp:102-141 | the checksum of the name before, in the first interface behind, its coding in stream mode under the checksum xor the IV; the next IV is its MAC under the IV |
| Names.StreamNameIO.DecodeName | encfs/encfs/StreamNameIO.cpp:143-200 | and the decoded name, or the error of the check that fails, as the next row describes |
| Names.StreamNameIO.DecodeExactly | encfs/encfs/StreamNameIO.cpp:143-200 | a text decodes if and only if it is long enough and the stored checksum is that of the decoded name |
| NamePath.RecodePath | encfs/encfs/NameIO.cpp:176-225 | the loop over a path codes it name by name, each under the IV that the one before it leaves |
| NamePath.NameIO.PathRoundTrip | encfs/encfs/NameIO.cpp:227-269 | any path comes back without leading slashes, with dot names and repeated slashes, chained or not: from decoding its encoding, and with reversed coding from encoding its decoding |
| NamePath.NameIO.PathBelow | encfs/encfs/NameIO.cpp:176-225 | the coding of dir/name is that of dir, a slash, and that of name under the IV dir leaves |
| NamePath.ChildIV | encfs/encfs/SSL_Cipher.cpp:574-583 | with chaining, name in dir/name is coded under the IV that dir leaves, and leaves its own MAC under that |
| NamePath.NameLeaves | encfs/encfs/NameIO.cpp:176-225 | one name of a path: its coder's name up to a zero byte, and its MAC as the next IV; only "." and ".." are copied and leave the IV |
| NamePath.StrippedIs | encfs/encfs/NameIO.cpp:183-190 | what comes back of a path is its end from the first character that is no slash |
| DiskTree.Disk.Rename | encfs/encfs/compatwin.cpp:431-437 | a rename succeeds if and only if there is something under the old name, nothing under the new one, and a directory to put it in, which is not inside what is moved; a failure changes nothing |
| DiskTree.RenamedExactly | encfs/encfs/compatwin.cpp:431-437 | the same of the tree after it |
| DiskTree.RenamedSees | encfs/encfs/compatwin.cpp:431-437 | what each path leads to afterwards: what was below the old name is below the new one, nothing is below the old one, and all else is as it was |
| DiskTree.RenameBack | encfs/encfs/DirNode.cpp:268-304 | a rename that succeeded can be taken back |
| DirNodeModel.GenRenameList | encfs/encfs/DirNode.cpp:441-550 | on a directory with coded names the list is made, and applied to any tree with that directory it codes everything below it again and touches nothing else, or fails, and then two names clash |
| DirNodeModel.RenameOp.Apply | encfs/encfs/DirNode.cpp:221-266 | renames until one fails; what has been done is the applied start of the list |
| DirNodeModel.RenameOp.Undo | encfs/encfs/DirNode.cpp:268-304 | tries every rename that was done backwards, whatever comes of each |
| DirNodeModel.UndoneAll | encfs/encfs/DirNode.cpp:268-304 | if no step back is kept from it, undoing restores the tree and every header |
| DirNodeModel.OneUndone | encfs/encfs/DirNode.cpp:268-304 | one rename is undone if and only if the rename back is not kept from it |
| DirNodeModel.DirNode.Rename | encfs/encfs/DirNode.cpp:615-685 | without faults it succeeds if and only if there is something at the old path, nothing at the new one, and a directory for it that is not inside it; a success has moved and recoded everything and nothing else; a failure restores the disk unless a step back fails or an exception comes; an exception after the list has been applied makes it fail with the list applied |
| DirNodeModel.NotTakenBack | encfs/encfs/DirNode.cpp:652-676 | then the disk is as it was if and only if the directory has the same IV at both names or no name in it decodes |
| DirNodeModel.ThrownRename | encfs/encfs/DirNode.cpp:652-676 | a directory with one file, and a rename of it, after which the disk differs though the rename has failed |
| DirNodeModel.Relocated | encfs/encfs/DirNode.cpp:615-685 | what had a plain path below the old name is found on disk where that path below the new name leads |
| DirNodeModel.NothingElse | encfs/encfs/DirNode.cpp:615-685 | and nothing else is found there |
| DirNodeModel.OldPlaceEmpty | encfs/encfs/DirNode.cpp:615-685 | nothing is left below the old name |
| DirNodeModel.ElsewhereSame | encfs/encfs/DirNode.cpp:615-685 | all other paths keep what they had |
| DirNaming.JoinedPath | encfs/encfs/NameIO.cpp:176-225 | coding a path string is coding its names one below the other in the tree |
| DirNaming.RenamedPaths | encfs/encfs/DirNode.cpp:615-685 | the same four facts for path strings coded by NameIO |
| PlainTree.RenamedTree | encfs/encfs/DirNode.cpp:615-685 | if the disk codes a plain tree, then after a rename it codes the plain tree with that rename: every name and every file, and nothing else |
| PlainTree.CanMoveBoth | encfs/encfs/DirNode.cpp:615-685 | a rename is possible on disk if and only if it is in the plain tree |
| PlainTree.CodedNames | encfs/encfs/DirNode.cpp:441-550 | a disk that codes a plain tree has the names that making the list asks for |
| PlainTree.ForeignStays | encfs/encfs/DirNode.cpp:441-550 | an entry whose name does not decode is not asked for anything, and stays in place when the directory is coded again |
| PlainTree.NeverClash | encfs/encfs/DirNode.cpp:441-550 | if names coded under different IVs differ, no two names clash in a rename |
| RenamedFiles.RenamedContents | encfs/encfs/DirNode.cpp:727-753 | each renamed file decodes, under the IV of its new path, to what it decoded to under the old one |
| RenamedFiles.RenamedVolume | encfs/encfs/DirNode.cpp:615-753 | for NameIO's names and the contents that the file layers decode: what the user sees after a rename is the tree before with that rename |
| FileLocksModel.TestNeighbours | fuse4win-070d3a2e43de/src/fusemain.cpp:983-1016 | looking at two neighbours finds an overlap if and only if there is one |
| FileLocksModel.FileLock.LockFile | fuse4win-070d3a2e43de/src/fusemain.cpp:983-1016 | refuses if and only if an offset of the range is in a held range, of any handle when marking and of another one when checking; held ranges stay disjoint |
| FileLocksModel.FileLock.OneHolder | fuse4win-070d3a2e43de/src/fusemain.cpp:983-1016 | no offset is ever locked by two handles |
| FileLocksModel.OverlapIs | fuse4win-070d3a2e43de/src/fusemain.cpp:996-1010 | the test of two ranges says whether they have an offset in common |
| FileLocksModel.FileLock.UnlockFile | fuse4win-070d3a2e43de/src/fusemain.cpp:1018-1038 | drops exactly the range that was locked |
| FileLocksModel.FileLock.Unlink | fuse4win-070d3a2e43de/src/fusemain.cpp:928-951 | takes one handle out of the linked list and keeps the order of the others |
| FileLocksModel.FileLocks.GetFile | fuse4win-070d3a2e43de/src/fusemain.cpp:885-920 | refused if and only if some open handle does not share what is needed; otherwise the handle is in the list of its name |
| FileLocksModel.FileLocks.RemoveFile | fuse4win-070d3a2e43de/src/fusemain.cpp:928-962 | the handle leaves its list, and the last one takes the lock out of the table |
| FileLocksModel.FileLocks.RenamedFile | fuse4win-070d3a2e43de/src/fusemain.cpp:964-981 | the table stays valid if and only if the new name is free |
| ConfigModel.ConfigVar.WriteInt | encfs/encfs/ConfigVar.cpp:121-145 | an integer is put in as few groups of seven bits as it needs, and what is behind it is moved |
| ConfigModel.ConfigVar.ReadInt | encfs/encfs/ConfigVar.cpp:147-171 | the value in 32 bits, refused if nothing is left or if it is negative |
| ConfigModel.IntRoundTrip | encfs/encfs/ConfigVar.cpp:121-171 | an integer is read as it was written, whatever is around it |
| ConfigModel.IntBytesExactly | encfs/encfs/ConfigVar.cpp:121-145 | the bytes of an integer are its digits to the base 128, highest first, as few as can hold it, all but the last with the high bit |
| ConfigModel.ConfigVar.ReadString | encfs/encfs/ConfigVar.cpp:221-248 | a whole string, or an exception if the length or any byte is missing |
| ConfigModel.ConfigReader.ToVar | encfs/encfs/ConfigReader.cpp:131-146 | the buffer lists all variables once, in the order of their keys |
| ConfigModel.AtMostIs | encfs/encfs/ConfigReader.cpp:131-146 | the order of the keys is that of the first byte in which they differ, or of their lengths |
| ConfigModel.ConfigReader.LoadFromVar | encfs/encfs/ConfigReader.cpp:81-103 | for every buffer, the variables and the outcome: entry by entry, the first value of a key stays, an empty key is refused, and a buffer that ends too early ends in an exception |
| ConfigModel.AllCut | encfs/encfs/ConfigReader.cpp:81-103 | no saved buffer that has lost its end, wherever it was cut, is taken for a whole one |
| ConfigModel.LoadedKeeps | encfs/encfs/ConfigReader.cpp:81-103 | loading keeps the value of every variable that is there already |
| ConfigModel.SaveAndLoad | encfs/encfs/ConfigReader.cpp:81-146 | saved variables load again as they were if and only if none of the names is empty |

## Findings

Places where the code does not do what its callers expect. Each has an input, and the exact
condition under which the code does meet the expectation.

| what happens | source | input | exactly when it does not happen |
|---|---|---|---|
| A block cut off by a truncation between two blocks stays in the cache, and a read behind the end gets it | encfs/encfs/BlockFileIO.cpp:54-87, 420-426 | `FileNodeModel.ReadBehindEnd` | `BlockFile.BlockFileIO.ReadExactly`: the read does not reach into such a block |
| With holes allowed, extending the file from whole blocks to whole blocks writes nothing, and the cached block shows where the file has zeros | encfs/encfs/BlockFileIO.cpp:329-359 | `FileNodeModel.HoleBringsBack` | `BlockFile.BlockFileIO.Truncate`: not `ExposesStale` |
| Without a header the raw file grows before the old last block is read, and that is then decoded as a longer one | encfs/encfs/BlockFileIO.cpp:379-383 | `FileNodeModel.ExtendUncached` | `BlockFile.BlockFileIO.GrowthExactly`: the file ended between blocks, or the block is cached, or it decodes the same either way |
| With holes allowed, a full block that encodes to zeros is read as zeros | encfs/encfs/CipherFileIO.cpp:370-388 | `FileNodeModel.OnesAreLost` | `BlockCode.EncodeBlockRoundTrip`, `FileNodeModel.WriteAndReread`: the block is storable |
| A rename that fails in an exception returns with the list applied and not undone | encfs/encfs/DirNode.cpp:652-676 | `DirNodeModel.ThrownRename` | `DirNodeModel.NotTakenBack`: the directory has the same IV at both names, or no name in it decodes |
| A rename back that fails during undo is not noticed | encfs/encfs/DirNode.cpp:290 | `DirNodeModel.OneUndone` | `DirNodeModel.OneUndone`, for a list of one; `DirNodeModel.UndoneAll`, for any list |
| Renaming onto a name that has open handles replaces that name's lock in the table | fuse4win-070d3a2e43de/src/fusemain.cpp:964-981 | any two names with handles | `FileLocksModel.FileLocks.RenamedFile`: the new name is free |
| A variable with an empty name is saved, and the file is then refused | encfs/encfs/ConfigReader.cpp:93-97 | any such variable | `ConfigModel.SaveAndLoad`: no name is empty |

## Left out

- FileNodeModel.Config.Supported: leaves out MACs over reverse encryption with holes, a setup the program never makes; there the MACs would pass blocks that the layer below does not read as zeros.
- FileNodeModel.FileNode.Run: does not cover empty writes, for which the program has no use. It knows the cache by where the last request that touched a block has ended, and so takes a cut-off block of zeros, which does no harm, for any other. FileNodeModel.FileNode.Serve asks for the state itself.
- DirNodeModel.RenameNode: an empty raw file, which has no header to recode, stays empty; the code gives it a header with a new IV, and it still decodes to nothing.
- DirNodeModel.DirNode.Rename: the table of open file nodes and their own names are not part of the tree, nor are time stamps; whether it fails is modelled, but not the error code, which the code reads from errno after the undo or the exception.
- Errors of the disk below a file, open flags and files that are not writable.
- Reading and writing in the caller's buffer: requests carry their data as values, so that encoding in place over the caller's bytes is not visible.
- The virtual calls between BlockFileIO and its subclasses, which are cases of `Layer` here.
- The first setIV of a node, which is part of constructing the chain here.
- The choice of random words, which may be any: the IV an empty file will get is drawn when its layer is made. Keys are part of a cipher's functions.
- Ranges and offsets beyond the machine's integers, and block numbers kept in anything but 64 bits.
- The map from access rights to the sharing they need, which is a parameter of the lock table, and the critical sections of that table: each method is one step.
- Links, extended attributes, directory listing, user contexts and the Dokan callbacks.
- OpenSSL, key derivation, the XML configuration and the command line.
