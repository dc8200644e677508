# Ventoy, verified

A Dafny model of the parts of Ventoy that move bytes between layouts, with proofs that each fast, in-place or
pointer-chasing form does what a plain one does. `dafny verify dfyconfig.toml` checks all of it.

| files | part of the system | main results |
|---|---|---|
| Lz4Format, Lz4Decoder, Lz4Frames | LZ4 decoder of the `smallz4cat` helper, over a 64 KiB ring | refinement of an unbounded decoder on every input; decoding undoes encoding, in both frame formats |
| DirNodes, DirWalk, DirTotals, DirMeaning, DirStat, DirFree, PathTable, PathForest | ISO-9660 directory tree of BabyISO | stackless walk, bottom-up totals, release of every node exactly once, and rebuilding from the path table |
| Bits, Crc32c, Crc32cTable, CrcBursts, Vlnk | CRC-32C and vlnk records | table-driven CRC equals division; burst errors make a record fail |
| ImageMap, FuseIso, DmTable, TableText, Extract | fragmented images: chunk map, FUSE mount, printed tables | both readers and both extractions agree with the flat image; tables are read with any white space |
| JsonText, JsonGrammar, JsonSound, JsonNodes, JsonLookup | JSON parser of the installer | accepts exactly a grammar; terminated strings read back; looking a name up gives what the text says |
| Geometry, Extents, Partitions, Installer | partition check, insertion and geometry | partitions stay disjoint, layouts are recognised again; the whole non-destructive installation |
| AoePacket, AoeMasks, AoeEdits, AoeTarget, AoeBlade, Bpf | AoE target | reservations over runs, mask list, packet filter |
| LinkedList | sentinel-headed doubly linked list | refines a sequence |
| SplitImage | 32 MiB image in memory | 32 chunks refine one flat store |
| Bytes, Decimals | octets and decimal digits | shared by the others |

Code that changes things step by step is a class or a method over arrays and linked nodes, proved against functions on
values; the lemmas are about those functions. A few methods compose several of the program's own into one statement
about all of them (`DmTable.ReadBothWays`, `Extract.ExtractBothWays`, `AoeBlade.Serve`, `SplitImage.RunOn`, `SplitImage.BothLayouts`, `PathForest.ReadTree`,
`Lz4Decoder.Decompress`, `Installer.Install`, `JsonLookup.ReadString`), or walk a structure to say what its links mean (`LinkedList.List.Forwards` and `Backwards`).
Functions that stand for the code's own formulas are pinned by laws that do not use them: formats are written down a
second time as they lie in memory (frames, records, packets, partition entries, texts), and bounds in plain numbers.
Bytes are `Bytes.byte`, or `char` where the code works on text (one char is one byte). Integers are unbounded, and every
width that matters is written out as a remainder.

## What the code does differently from its apparent intent

- Link totals of the directory tree (`biso_9660.c:790`) pass up the own count of a child and not its total; they are
  the subtree's sum exactly when there are no links two levels down (`DirMeaning.LinkTotalWhenRight`).
- A vlnk record made in a buffer whose CRC field is not zero does not pass its own check (`Vlnk.CreatedPasses`).
- The room check of the partition tool subtracts unsigned numbers; it is right when no partition begins before the end
  of the first, and says "room" otherwise, unless they overlap by nearly 2^55 sectors (`Partitions.VerdictWraps`). A
  boot-record insertion from 2 TiB on is truncated (`Partitions.MbrTruncated`). A boot record whose first entry has type
  0xEE without a GPT behind it is changed but not recognised afterwards (`Partitions.MbrAccepted`).
- Comments of the LZ4 decoder say that legacy frames are not implemented; its code decodes them, and so does the model.
- The AoE mask list is searched over as many bytes as there are masks (`aoe.c:379`, `aoe.c:397`), a sixth of it. The
  intended meaning of the edit command, a set of masks, is therefore false: `AoeMasks.ThirdMaskOverwrites` is a run
  that shows it, and `AoeEdits.ThreeAddsLoseOne` a packet. `AoeEdits.StepAsMeant` gives the exact guard under which one
  directive does what it is meant to; `AoeEdits.AllAsMeantIff` says that all directives of a list do if and only if all
  meet their guards, and `AoeEdits.EditAsMeant` what such a list does.
- A deletion moves as many bytes as there are masks, less its place, and not six for each mask (`aoe.c:400`). Among
  fewer than six masks, deleting the first one therefore asks `memmove` for a negative length, always
  (`AoeEdits.RemoveFirstBreaks`); a packet that adds a mask to an empty list and deletes it does so
  (`AoeEdits.AddThenDeleteBreaks`). The model ends there.
- In the JSON parser bytes from 128 on are white space outside strings, because `char` is signed; text after the first
  document is not looked at; an unsigned long has 32 bits (the installer is a Windows program), so larger numbers
  saturate.

## Model

| member | source | states |
|---|---|---|
| Lz4Decoder.Decoder.Unlz4 | LZIP/smallz4cat.c:112-360 | over every input and every initial history, the ring-buffer decoder sends exactly what a decoder over an unbounded output decodes, or stops with the same error after sending the full rings of it |
| Lz4Decoder.Decompress | LZIP/smallz4cat.c:112-360 | a stream that begins with any well-formed frame, version 1 or legacy, is decoded to the meaning of that frame, with or without a dictionary |
| Lz4Decoder.NewHistory | LZIP/smallz4cat.c:164-187 | the history starts with the dictionary, or the last 64 KiB of it, at its end |
| Lz4Decoder.Decoder.FlushIfFull | LZIP/smallz4cat.c:248-254 | a full ring is sent and writing goes on at its start; the output stays the sent bytes followed by the ring's used part |
| Lz4Decoder.Decoder.CopyFast | LZIP/smallz4cat.c:235-240 | the literal loop that needs no flush appends exactly the next n input bytes, or runs out of data with those read so far |
| Lz4Decoder.Decoder.CopySlow | LZIP/smallz4cat.c:241-256 | the literal loop with flushes appends exactly the same bytes |
| Lz4Decoder.Decoder.CopyLiterals | LZIP/smallz4cat.c:234-256 | whichever loop is taken, the stored bytes are appended; the 32-bit test wraps for lengths near 2^32, and the copy then leaves the ring if there is input enough |
| Lz4Decoder.Decoder.CopyForward | LZIP/smallz4cat.c:296-301 | the byte-wise copy inside the ring is the match of the unbounded decoder, overlap included |
| Lz4Decoder.Decoder.CopyAround | LZIP/smallz4cat.c:303-322 | the copy that wraps around, flushes included, is the same match |
| Lz4Decoder.Decoder.MoveBlock | LZIP/smallz4cat.c:290-295 | the block move of a match that does not overlap is the same match |
| Lz4Decoder.Decoder.CopyMatch | LZIP/smallz4cat.c:283-322 | for every distance up to 65535 and every length the three copies are one and the same match and every history index is in range, except when both 32-bit tests wrap |
| Lz4Decoder.Decoder.ReadLength | LZIP/smallz4cat.c:218-230 | an extended length adds bytes up to the first one below 255, in 32 bits, and counts them |
| Lz4Decoder.Decoder.ReadSequence | LZIP/smallz4cat.c:214-322 | a token, its literals and its match do what the unbounded decoder does |
| Lz4Decoder.Decoder.ReadCompressed | LZIP/smallz4cat.c:207-323 | a compressed block does |
| Lz4Decoder.Decoder.ReadBlock | LZIP/smallz4cat.c:192-349 | a block with its size word and checksum does; the zero size ends the frame, and so does a legacy block that is not full |
| Lz4Decoder.Decoder.ReadFrame | LZIP/smallz4cat.c:114-356 | signature, flags, descriptor, blocks and checksum do, and so do legacy frames |
| Lz4Frames.FrameRoundTrip | LZIP/smallz4cat.c:112-360 | decoding the bytes of a well-formed frame, whatever follows it, gives the frame's meaning, for every history that ends with the dictionary; the frame is written with its signature, flags, block size, content size, dictionary id and header checksum in fields of their own |
| Lz4Frames.SignatureRefused | LZIP/smallz4cat.c:114-142 | exactly the streams with neither signature are refused for that, and exactly those of another version than 1 for that, with nothing sent |
| Lz4Frames.BlocksErrors | LZIP/smallz4cat.c:190-350 | blocks stop only for want of data, for a distance of 0, or at a copy that would leave the ring |
| Lz4Frames.LegacyRoundTrip | LZIP/smallz4cat.c:119-331 | so does decoding the encoding of a legacy frame, whose blocks are all full but the last one |
| Lz4Frames.LegacyBlocksRead | LZIP/smallz4cat.c:325-327 | the blocks of a legacy frame are read up to the first one that is not full |
| Lz4Frames.MatchMeaning | LZIP/smallz4cat.c:262-322 | a match copies the periodic continuation of the last `offset` bytes of dictionary and output |
| Lz4Frames.AppendMatchLooksBack | LZIP/smallz4cat.c:283-322 | byte k of a match equals the byte `offset` places before it |
| Lz4Frames.AppendMatchRepeats | LZIP/smallz4cat.c:296-322 | an overlapping match repeats its first `offset` bytes periodically |
| Lz4Frames.SequencesRead | LZIP/smallz4cat.c:212-323 | any list of sequences and the last literals are decoded to what they expand to |
| Lz4Frames.BlocksRead | LZIP/smallz4cat.c:190-350 | any list of blocks up to the end mark is decoded to what it means |
| DirNodes.Determined | VtoyTool/BabyISO/biso_9660.c:71-126 | parent, next and child pointers determine the forest |
| DirNodes.Apart | VtoyTool/BabyISO/biso_9660.c:71-126 | forests under different parents share no directory |
| DirNodes.PreorderOnce | VtoyTool/BabyISO/biso_9660.c:71-126 | the preorder of a linked forest names every directory once |
| DirWalk.Climb | VtoyTool/BabyISO/biso_9660.c:111-124 | the climb ends at the next directory still to visit, or at the top |
| DirWalk.Successor | VtoyTool/BabyISO/biso_9660.c:103-124 | one step of the walk goes to the next directory in preorder, using only the three pointers |
| DirWalk.FillDfsStack | VtoyTool/BabyISO/biso_9660.c:71-126 | on every finite tree the walk ends and has pushed the top and then every directory below it exactly once, in preorder |
| DirStat.UpdateTreeStat | VtoyTool/BabyISO/biso_9660.c:753-799 | from zeroed totals, every counter of every directory ends up as the sum over its subtree, links over itself and its children, in 32 bits and the space in 64 |
| DirStat.Settle | VtoyTool/BabyISO/biso_9660.c:775-793 | settling one directory, popped from the tail, keeps the invariant that everything popped has passed its total up |
| DirStat.NextFromTail | VtoyTool/BabyISO/biso_9660.c:773-793 | the directory popped next has all its children settled and its parent not yet |
| DirStat.OrderFacts | VtoyTool/BabyISO/biso_9660.c:770-773 | the stack is the whole tree, each directory once, children behind their parent |
| DirMeaning.TotalsInFull | VtoyTool/BabyISO/biso_9660.c:775-793 | counter by counter, in their widths of 32 and 64 bits, the totals are those sums |
| DirMeaning.SubtreeTotal | VtoyTool/BabyISO/biso_9660.c:778-793 | directories, files, space and sectors: the total is the sum of the current counts over the whole subtree |
| DirMeaning.LinkTotal | VtoyTool/BabyISO/biso_9660.c:781-790 | links: the total is the own count and the direct children's own counts |
| DirMeaning.LinkTotalWhenRight | VtoyTool/BabyISO/biso_9660.c:790-790 | the link total is the subtree's sum if and only if no directory two or more levels down has links |
| DirMeaning.DeeperParent | VtoyTool/BabyISO/biso_9660.c:790-790 | those directories are the ones below whose parent is another directory |
| DirMeaning.LinkTotalMissesGrandchild | VtoyTool/BabyISO/biso_9660.c:790-790 | a link two levels down is missing from the top's total |
| DirFree.FreeDirTree | VtoyTool/BabyISO/biso_9660.c:1143-1198 | on every tree whose directories have null-ended file lists that name them as parents: releases exactly the directories but the root and all file nodes, each once; a node's fields are read only through functions that require that it has not been released |
| DirFree.ChainOnce | VtoyTool/BabyISO/biso_9660.c:1176-1182 | a null-ended file list meets no node twice |
| DirFree.ReleaseOnce | VtoyTool/BabyISO/biso_9660.c:1172-1190 | popping the directories, each after its files, meets no node twice |
| DirFree.Released | VtoyTool/BabyISO/biso_9660.c:1172-1190 | what is released is exactly the directories below the root and the files |
| DirFree.ChildrenFirst | VtoyTool/BabyISO/biso_9660.c:1172-1183 | a directory is released after everything below it |
| PathTable.BuildPathTree | VtoyTool/BabyISO/biso_9660.c:654-750 | for every table of fewer than 65536 records it ends, and has consumed exactly the longest prefix in order: record n became node n below the node it names, siblings in table order, counters equal to the number of children |
| PathTable.PrefixRead | VtoyTool/BabyISO/biso_9660.c:692-744 | in numbers: the records read name a directory read before them, in ascending order, and the next record does not go on like that |
| PathTable.AddRecord | VtoyTool/BabyISO/biso_9660.c:706-743 | adding one record keeps ids, parent links, child lists, order and counters right |
| PathTable.ReadChildren | VtoyTool/BabyISO/biso_9660.c:703-744 | all records that name the directory become its children |
| PathTable.ChildrenAreLast | VtoyTool/BabyISO/biso_9660.c:703-744 | the children of a directory are consecutive in an ordered table |
| PathForest.BuiltRooted | VtoyTool/BabyISO/biso_9660.c:654-750 | the built nodes are a linked tree the depth-first walk can use |
| PathForest.EveryRecordOnce | VtoyTool/BabyISO/biso_9660.c:654-750 | that tree holds exactly the directories read, each once |
| PathForest.RootTotal | VtoyTool/BabyISO/biso_9660.c:740-793 | the root's directory total is the number of records read after its own |
| PathForest.ReadTree | VtoyTool/BabyISO/biso_9660.c:654-799 | building the tree and running the statistics pass: the root counts every record, and the whole table if it is in order |
| Crc32c.Reflect | Vlnk/src/crc32.c:29-42 | reverses the low `len` bits |
| Crc32c.ReflectedPolynomial | Vlnk/src/crc32.c:46-46 | the polynomial 0x1EDC6F41 in reverse bit order is 0x82F63B78 |
| Crc32c.ReverseTwice | Vlnk/src/crc32.c:29-42 | bit reversal undoes itself |
| Crc32c.StepXor | Vlnk/src/crc32.c:59-76 | a division step is linear |
| Crc32c.StepsInjective | Vlnk/src/crc32.c:59-76 | any number of steps is a bijection of the state |
| Crc32c.CrcJoin | Vlnk/src/crc32.c:59-76 | the CRC of a concatenation is the CRC continued from the first part |
| CrcBursts.ComplementClears | Vlnk/src/crc32.c:59-76 | the four bytes that are the complement of the CRC so far give all ones: both inversions are there |
| CrcBursts.Residue | Vlnk/src/crc32.c:59-76 | every string followed by its own CRC has one and the same CRC |
| Crc32cTable.StepReversed | Vlnk/src/crc32.c:46-55 | between two bit reversals the step with the high bit first is the step with the low bit first by the reversed polynomial |
| Crc32cTable.ByteStep | Vlnk/src/crc32.c:69-73 | a table lookup per byte is eight bit-at-a-time steps |
| Crc32cTable.EntryOne | Vlnk/src/crc32.c:64-65 | table entry 1 is not zero, so the lazy test never fills the table twice for nothing |
| Crc32cTable.Checksum.InitEntry | Vlnk/src/crc32.c:51-55 | fills one entry with the remainder of its index |
| Crc32cTable.Checksum.InitTable | Vlnk/src/crc32.c:44-57 | fills every entry |
| Crc32cTable.Checksum.GetCrc32c | Vlnk/src/crc32.c:59-76 | for every buffer and start value the result is the CRC by bit-at-a-time division |
| CrcBursts.DivideInjective | Vlnk/src/crc32.c:67-75 | equal data keeps different states different |
| CrcBursts.WindowDetected | Vlnk/src/crc32.c:69-73 | four bytes are determined by the state after them |
| CrcBursts.BurstDetected | Vlnk/src/crc32.c:59-76 | strings that differ only within four consecutive bytes have different CRCs |
| Vlnk.CreateVlnk | Vlnk/src/vlnk.c:7-26 | writes exactly the record: GUID, signature, offset, path cut at 383 bytes, CRC over the buffer; the other bytes stay |
| Vlnk.CheckVlnkData | Vlnk/src/vlnk.c:29-49 | accepts exactly the records whose GUID and CRC match, and clears the CRC field in place once the GUID matched |
| Vlnk.ReadsBack | Vlnk/src/vlnk.c:7-26 | GUID, signature, offset and path are read back from a created record at their places, and its CRC is that of its bytes |
| Vlnk.PassesInFull | Vlnk/src/vlnk.c:29-49 | passes exactly with the GUID and the CRC of the record with four zeros in the CRC's place |
| Vlnk.CreatedPasses | Vlnk/src/vlnk.c:7-49 | a created record passes if and only if the buffer's CRC field was zero |
| Vlnk.ZeroedPasses | Vlnk/src/vlnk.c:7-49 | in a zeroed buffer it passes |
| Vlnk.BurstFails | Vlnk/src/vlnk.c:29-49 | any change within four consecutive bytes outside the CRC field makes a good record fail |
| Vlnk.FieldChangeFails | Vlnk/src/vlnk.c:39-46 | so does any change of the CRC field |
| Vlnk.FieldMatters | Vlnk/src/vlnk.c:22-43 | records that differ in the CRC field only have different CRCs |
| ImageMap.FindSector | VtoyTool/vtoydm.c:186-201 | the chunk search is the sector map |
| ImageMap.MapIsImage | VtoyTool/vtoydm.c:186-201 | at the mapped place the disk holds that sector of the flat image |
| ImageMap.IsoFile.ReadIsoSector | VtoyTool/vtoydm.c:203-231 | reads one sector of the flat image |
| ImageMap.IsoFile.ReadFile | VtoyTool/vtoydm.c:233-286 | for every position and size in range, returns that slice of the flat image, advances the position by it, and leaves the rest of the buffer alone |
| FuseIso.EntryRun | FUSEISO/vtoy_fuse_iso.c:126-137 | a run of sectors of one entry is that stretch of the table's bytes |
| FuseIso.Mount.ReadSectors | FUSEISO/vtoy_fuse_iso.c:117-145 | reads any stretch of sectors, over entry boundaries, into its place |
| FuseIso.Mount.IsoRead | FUSEISO/vtoy_fuse_iso.c:147-214 | for every offset and size below 4 GiB returns the slice of the flat image, cut at its end; 0 bytes from there on |
| DmTable.PrintTable | VtoyTool/vtoydm.c:490-532 | prints the table text of the chunks, with each field in its width |
| DmTable.TableIsLinear | VtoyTool/vtoydm.c:508-528 | below 2 TiB the printed table is contiguous and as long as the image |
| DmTable.TableIsImage | VtoyTool/vtoydm.c:508-528 | and stands, on the partition, for the same flat image |
| DmTable.ValueOfDecimal | FUSEISO/vtoy_fuse_iso.c:235-237 | reading the digits of a printed number gives the number |
| DmTable.ScanDecimal | FUSEISO/vtoy_fuse_iso.c:235-237 | the number conversion undoes the printing, for 32 and 64 bits |
| TableText.LineRead | FUSEISO/vtoy_fuse_iso.c:235-237 | a line with any white space between its fields, signs and numbers of any size is read to the values its C types keep |
| TableText.NumberRead | FUSEISO/vtoy_fuse_iso.c:235-237 | so is each number |
| TableText.LineStops | FUSEISO/vtoy_fuse_iso.c:235-237 | a line that stops fitting changes the fields before that place and no others |
| TableText.PiecesInFull | FUSEISO/vtoy_fuse_iso.c:233-233 | the lines make up the text, fit the buffer, have no line feed but at their end, and all but the last are full or end in one |
| TableText.DeviceNames | VtoyTool/vtoydm.c:515-526 | the partition number stands behind the disk name, with a p between exactly for names that contain nvme, mmc or nbd |
| DmTable.LineRoundTrip | FUSEISO/vtoy_fuse_iso.c:235-237 | a printed line is read back to its entry and device name, whatever the memory for the entry held |
| DmTable.LineShape | FUSEISO/vtoy_fuse_iso.c:233-233 | a printed line fits the line buffer and has its only line feed at its end |
| DmTable.TableRoundTrip | FUSEISO/vtoy_fuse_iso.c:224-248 | a printed table is read back line by line as it was, whatever the memory for the entries held |
| DmTable.ParseTable | FUSEISO/vtoy_fuse_iso.c:224-254 | over every text: an entry a line, of which fields that do not scan stay as the memory was, the last device name and the file size; refused exactly from 65536 lines on |
| DmTable.ReadBothWays | FUSEISO/vtoy_fuse_iso.c:117-248 | the chunk reader and the mount through the printed table return the same bytes, that slice of the flat image |
| Extract.PrintExtract | VtoyTool/vtoydm.c:404-488 | the printed runs expand to the four disk sectors of each image sector of the file, in order, and no two neighbours could be merged |
| Extract.Grow | VtoyTool/vtoydm.c:446-450 | a sector behind the open run extends it |
| Extract.Begin | VtoyTool/vtoydm.c:451-466 | another sector begins a new run |
| Extract.ExtractFile | VtoyTool/vtoydm.c:354-402 | writes what those disk sectors hold, cut at the size |
| Extract.ExtractBothWays | VtoyTool/vtoydm.c:354-488 | reading run after run of the printed list and cutting at the size gives what the direct extraction writes, inside the image that slice of it |
| Extract.RunsGather | VtoyTool/vtoydm.c:404-488 | reading runs is reading the sectors they expand to |
| Extract.GatherIsImage | VtoyTool/vtoydm.c:354-402 | the disk sectors of a stretch of image sectors hold that stretch |
| Extract.ExtractIsImage | VtoyTool/vtoydm.c:354-402 | inside the image the written file is that slice of the flat image |
| JsonGrammar.Complete | Ventoy2Disk/Ventoy2Disk/VentoyJson.c:311-424 | every document of the grammar, with any blanks, is parsed to exactly its meaning with the end just past it |
| JsonGrammar.NumberComplete | Ventoy2Disk/Ventoy2Disk/VentoyJson.c:81-101 | a number is read to its last digit |
| JsonGrammar.StringComplete | Ventoy2Disk/Ventoy2Disk/VentoyJson.c:103-138 | a string is read to its closing quote |
| JsonGrammar.CompoundComplete | Ventoy2Disk/Ventoy2Disk/VentoyJson.c:140-309 | an array or object is read to its closing bracket |
| JsonGrammar.ItemsComplete | Ventoy2Disk/Ventoy2Disk/VentoyJson.c:173-207 | the items of one are read in order |
| JsonSound.Sound | Ventoy2Disk/Ventoy2Disk/VentoyJson.c:311-424 | whatever is accepted is a document of the grammar, parsed to its meaning |
| JsonSound.ItemsSound | Ventoy2Disk/Ventoy2Disk/VentoyJson.c:173-207 | so are the items of an array or object |
| JsonSound.ParsesIff | Ventoy2Disk/Ventoy2Disk/VentoyJson.c:311-424 | parsing succeeds exactly on the documents of the grammar, with exactly their meaning and end |
| JsonNodes.Parser.constructor | Ventoy2Disk/Ventoy2Disk/VentoyJson.c:399-416 | the copied buffer is the text with a NUL behind it |
| JsonNodes.Parser.SkipBlanks | Ventoy2Disk/Ventoy2Disk/VentoyJson.c:51-59 | skips exactly the bytes but NUL whose signed value is at most 32, and stops at the first other one |
| JsonNodes.Parser.ParseNumberInto | Ventoy2Disk/Ventoy2Disk/VentoyJson.c:81-101 | puts the number into the node |
| JsonNodes.Parser.ParseStringInto | Ventoy2Disk/Ventoy2Disk/VentoyJson.c:103-138 | puts the place of the string into the node and ends it in the buffer |
| JsonNodes.Parser.ParseItemInto | Ventoy2Disk/Ventoy2Disk/VentoyJson.c:177-182 | one array item or one name, colon and value |
| JsonNodes.Parser.NextItem | Ventoy2Disk/Ventoy2Disk/VentoyJson.c:188-200 | links a new node behind the last child; the earlier children show what they did |
| JsonNodes.Parser.ParseItemsInto | Ventoy2Disk/Ventoy2Disk/VentoyJson.c:173-207 | the linked children show the items parsed; fails exactly when the grammar does |
| JsonNodes.Parser.ParseCompoundInto | Ventoy2Disk/Ventoy2Disk/VentoyJson.c:140-309 | the array and the object parser |
| JsonNodes.Parser.ParseValueInto | Ventoy2Disk/Ventoy2Disk/VentoyJson.c:311-397 | a value: the node and its fresh descendants show it, no earlier NUL of the buffer is lost |
| JsonNodes.Parse | Ventoy2Disk/Ventoy2Disk/VentoyJson.c:399-424 | over every text: succeeds exactly when the text begins with a document, builds a tree that shows it, and every name and string read from the buffer up to its NUL is the raw text between its quotes |
| JsonLookup.FindItem | Ventoy2Disk/Ventoy2Disk/VentoyJson.c:61-79 | goes along the linked children to the first one of that kind whose name in the text is the key |
| JsonLookup.GetInt | Ventoy2Disk/Ventoy2Disk/VentoyJson.c:569-588 | the number of that child, as an int of 32 bits |
| JsonLookup.GetBool | Ventoy2Disk/Ventoy2Disk/VentoyJson.c:632-651 | 1 exactly where the text says true |
| JsonLookup.GetString | Ventoy2Disk/Ventoy2Disk/VentoyJson.c:653-673 | the text between its quotes |
| JsonLookup.ReadString | Ventoy2Disk/Ventoy2Disk/VentoyJson.c:399-675 | over every text: parsed and looked up, the string behind the first name like the key, if the text is an object that has one |
| JsonNodes.EndedKept | Ventoy2Disk/Ventoy2Disk/VentoyJson.c:103-138 | later terminators never take an earlier one away |
| JsonNodes.ReadsBack | Ventoy2Disk/Ventoy2Disk/VentoyJson.c:103-138 | a terminated string reads as the raw text |
| JsonNodes.LinkedGrown | Ventoy2Disk/Ventoy2Disk/VentoyJson.c:190-192 | appending keeps the sibling links right in both directions |
| JsonNodes.MatchGrown | Ventoy2Disk/Ventoy2Disk/VentoyJson.c:188-200 | appending keeps what every child shows |
| Geometry.HeadCount | vtoycli/partresize.c:399-407 | the loop ends, if need be by 8-bit wrap, with 8, 16, 32, 64, 128 or 255 heads, the fewest whose 1024 cylinders hold the disk, in bytes |
| Geometry.HeadsInBytes | vtoycli/partresize.c:399-407 | the same of the number of heads that fills the entries |
| Geometry.LocateCongruent | vtoycli/partresize.c:409-426 | sector is 1 to 63 and head below the number of heads, and the fields stand for the sector number up to multiples of 1024 * heads * 63 |
| Geometry.LocateExact | Ventoy2Disk/Ventoy2Disk/Utility.c:723-740 | the fields stand for exactly the sector number if and only if it is below 1024 * heads * 63 |
| Extents.InsertKeeps | vtoycli/partresize.c:541-552 | a new partition between the start of the first one and the next one, the first one growing or shrinking to it, keeps all partitions disjoint and inside the usable area, and the other ones unchanged and in order |
| Extents.InsertDisjoint | vtoycli/partresize.c:541-552 | the disjointness part |
| Extents.InsertOrder | vtoycli/partresize.c:541-552 | the order part |
| Partitions.ShiftUp | vtoycli/partresize.c:541-545 | entries 1 to f - 1 move up by one place in the array, nothing else changes |
| Partitions.Tables.PartCheck | vtoycli/partresize.c:95-266 | returns the verdict on first partition and next start for both kinds of table |
| Partitions.Tables.UpdatePartTable | vtoycli/partresize.c:476-647 | fails without change exactly when there is no free entry; otherwise the table is the old one with the entry inserted |
| Partitions.VerdictIsRoom | vtoycli/partresize.c:231-262 | when the next partition begins behind the first one, verdict 1 means room for 65536 sectors, and conversely |
| Partitions.VerdictExact | vtoycli/partresize.c:231-262 | for all starts and ends: the verdict in sectors, modulo 2^55 |
| Partitions.VerdictWraps | vtoycli/partresize.c:249-253 | when it begins before the end of the first one, the subtraction wraps, and the verdict is 1 if and only if the overlap is at most 2^55 - 65536 sectors long |
| Partitions.CheckFindsRoom | vtoycli/partresize.c:146-253 | a table has room if and only if it begins at 1 MiB and has the sectors, and qualifies if and only if it begins there |
| Partitions.CheckMissesOverlap | vtoycli/partresize.c:249-253 | an overlapping table that passes without room |
| Partitions.CheckFindsPlace | vtoycli/partresize.c:146-172 | a table that passes has a free entry |
| Partitions.MbrInsertion | vtoycli/partresize.c:524-571 | anywhere before the next partition, below 2 TiB: disjoint, inside, new entry in second place, others unchanged in order |
| Installer.MbrAdded | vtoycli/partresize.c:524-571 | the same for every place: the layout is as it should be if and only if the place is below 2 TiB, and the installer knows the disk if and only if the boot mark is there and the first entry has no protective type |
| Installer.GptAdded | vtoycli/partresize.c:574-613 | the same for a GPT, without those limits |
| Installer.RoomForSecond | INSTALL/tool/VentoyWorker.sh:421-494 | the place the script computes has room for the second partition: behind the first one, or, when there is no room, inside it and behind its shrunk file system |
| Installer.Choose | INSTALL/tool/VentoyWorker.sh:430-495 | check and choice: goes on exactly with room or a shrunk file system, and with that place |
| Installer.Install | INSTALL/tool/VentoyWorker.sh:430-527 | the whole non-destructive installation on both kinds of tables: goes through exactly then; the new layout is disjoint and inside, with the first partition cut, the second one behind it and the others unchanged in order, up to 2 TiB on a boot record; the installer knows the disk; otherwise nothing changes |
| Partitions.MbrCheck | vtoycli/partresize.c:146-262 | by entries: qualifies exactly with the first one in use at 1 MiB and a free one, and has room exactly with 32 MiB before each other one and the end of the disk |
| Partitions.GptCheck | vtoycli/partresize.c:176-262 | the same for a GPT |
| Partitions.GptEnd | vtoycli/partresize.c:191-194 | an entry ends behind its last sector, in 64 bits, and is in use exactly with an identifier |
| Partitions.MbrFields | vtoycli/partresize.c:541-558 | the first entry becomes bootable and ends at the new one, an inactive EFI partition of 32 MiB; the others move up |
| Partitions.GptFields | vtoycli/partresize.c:588-613 | the first entry ends before the new one; the others move up |
| Partitions.EfiFields | vtoycli/partresize.c:594-613 | the new entry's type, identifier, extent, attributes and name |
| Partitions.MbrKnown | Ventoy2Disk/Ventoy2Disk/Ventoy2Disk.c:194-246 | a boot record is known exactly with the boot mark, a first partition at 1 MiB and 65536 sectors right behind it |
| Partitions.GptKnown | Ventoy2Disk/Ventoy2Disk/Ventoy2Disk.c:121-186 | a GPT exactly with those and the name |
| Partitions.BootEntryChs | vtoycli/partresize.c:391-431 | the new boot-record entry is an inactive EFI partition whose cylinder, head and sector fields stand for its first and last sector exactly as far as they reach |
| Partitions.MbrTruncated | vtoycli/partresize.c:549-556 | the new entry begins where it was meant to if and only if that is below 2 TiB |
| Partitions.GptInsertion | vtoycli/partresize.c:574-613 | the same for a GPT |
| Partitions.MbrAccepted | Ventoy2Disk/Ventoy2Disk/Ventoy2Disk.c:194-246 | after an insertion in a boot record the installer knows the disk if and only if the boot mark is there, the first entry begins at 1 MiB and does not have the type of a protective one |
| Partitions.GptAccepted | Ventoy2Disk/Ventoy2Disk/Ventoy2Disk.c:121-186 | after one in a GPT, if and only if the boot mark is there and the first entry begins at 1 MiB |
| Bpf.ProgramReturns | VBLADE/vblade-master/bpf.c:84-111 | every run of the 13 instructions, for every shelf, slot and packet, ends in a return that keeps all or nothing |
| Bpf.ProgramFilters | VBLADE/vblade-master/aoe.c:529-540 | a packet of at least 24 bytes is kept exactly when the tests of the receive loop let it through |
| AoeMasks.AddRight | VBLADE/vblade-master/aoe.c:373-389 | adding a mask not found adds exactly that mask if and only if the search saw the whole list, or the stale slot behind the list makes up for the slot overwritten |
| AoeMasks.RemoveRight | VBLADE/vblade-master/aoe.c:391-404 | removing a mask that is found moves a negative number of bytes, or removes exactly it if and only if the half-moved slot happens to be the last mask |
| AoeMasks.AddBytes | VBLADE/vblade-master/aoe.c:373-389 | by the bytes: a pointer going by six up to as many bytes as there are masks; nothing if it finds the address, refused from 32 masks on, else the address is put where it stopped |
| AoeMasks.RemoveBytes | VBLADE/vblade-master/aoe.c:391-404 | nothing if it does not; else that many bytes, less its place and six, move down by six, or their number is negative |
| AoeEdits.RemoveFirstBreaks | VBLADE/vblade-master/aoe.c:391-404 | among fewer than six masks, deleting the first one always moves a negative number of bytes |
| AoeEdits.AddThenDeleteBreaks | VBLADE/vblade-master/aoe.c:406-434 | a packet that adds a mask to an empty list and deletes it does so |
| AoeEdits.ThreeAddsLoseOne | VBLADE/vblade-master/aoe.c:406-434 | a packet that adds three masks to an empty list: the second is lost and zero is let through |
| AoeMasks.ThirdMaskOverwrites | VBLADE/vblade-master/aoe.c:373-389 | three masks added to an empty list: the second is lost and zero is let through |
| AoeEdits.StepAsMeant | VBLADE/vblade-master/aoe.c:373-404 | one directive on a list without duplicates changes it as a set would, refuses as a set would and keeps it without duplicates if and only if its guard holds: found, or the search saw the whole list, or a stale slot makes up for it |
| AoeEdits.AddAsMeant | VBLADE/vblade-master/aoe.c:373-389 | the same for an addition |
| AoeEdits.RemoveAsMeant | VBLADE/vblade-master/aoe.c:391-404 | the same for a removal |
| AoeEdits.PacketEdits | VBLADE/vblade-master/aoe.c:406-434 | an edit packet whose directives meet their guards leaves the masks that folding them over the set gives |
| AoeEdits.AllAsMeantIff | VBLADE/vblade-master/aoe.c:406-434 | every directive of a list, up to the first one refused, does as meant if and only if every one of them meets its guard |
| AoeEdits.EditAsMeant | VBLADE/vblade-master/aoe.c:406-434 | a list of directives that meet their guards ends as folding them over a set does: the same masks, no duplicates, at most 32, refused at the same directive with the same error |
| AoeTarget.StepInFull | VBLADE/vblade-master/aoe.c:455-544 | one packet, by its bytes: a command reaches the disk if and only if it is addressed, let through, of at least 36 bytes and permitted; the reservation list becomes that of the packet exactly for a permitted set; the masks are edited exactly by an edit packet |
| AoeTarget.RunInFull | VBLADE/vblade-master/aoe.c:521-544 | the same over every run |
| AoeTarget.OpenServes | VBLADE/vblade-master/aoe.c:521-544 | as long as both lists are empty and nothing changes them, every command to the target reaches the disk |
| AoeTarget.ReservationErrors | VBLADE/vblade-master/aoe.c:339-371 | a reservation command is answered without an error exactly if it is a read or sets the list; a set of one who may not with 6 |
| AoeTarget.StepReserves | VBLADE/vblade-master/aoe.c:255-286 | one packet: no command but 0xec of a stranger reaches a reserved disk; the list changes only by a force set or by a set of one who may; at most 255 entries |
| AoeTarget.RunReserves | VBLADE/vblade-master/aoe.c:455-545 | the same over every run of packets |
| AoeTarget.ReservationHolds | VBLADE/vblade-master/aoe.c:339-371 | over every stretch without a force set and without a set of one on the list, the list stays and no command but 0xec of a stranger is issued |
| AoeBlade.Blade.AddMask | VBLADE/vblade-master/aoe.c:373-389 | the byte array changes exactly as specified |
| AoeBlade.Blade.RmMask | VBLADE/vblade-master/aoe.c:391-404 | likewise |
| AoeBlade.Blade.AoeSrr | VBLADE/vblade-master/aoe.c:339-371 | the reservation command: new list and the list in the reply |
| AoeBlade.Blade.AoeMask | VBLADE/vblade-master/aoe.c:406-453 | edits up to the first refused directive, reports where and why, and lists the masks on success |
| AoeBlade.Blade.AoeAta | VBLADE/vblade-master/aoe.c:255-273 | lets a command to the disk or answers that the target is reserved |
| AoeBlade.Blade.DoAoe | VBLADE/vblade-master/aoe.c:455-498 | dispatch and length tests; error 6 for a command not permitted, and 1 for an unknown one |
| AoeBlade.Blade.Receive | VBLADE/vblade-master/aoe.c:521-544 | one turn of the receive loop is one step of the state machine |
| AoeBlade.Serve | VBLADE/vblade-master/aoe.c:500-545 | over every run of packets the byte arrays follow the run of the state machine, and a command is issued exactly when the packet's bytes and the lists before it say so |
| AoeBlade.ServeOpen | VBLADE/vblade-master/aoe.c:500-545 | with nobody on either list, over packets that change neither, every command to this target is issued |
| AoeBlade.ServeReserved | VBLADE/vblade-master/aoe.c:500-545 | over every undisturbed run, the list in the byte array stays, and no command but 0xec of one who is not on it is issued |
| LinkedList.List.Init | VtoyTool/BabyISO/biso_list.c:25-31 | the empty list |
| LinkedList.List.AddTail | VtoyTool/BabyISO/biso_list.c:33-44 | appends the node to the sequence |
| LinkedList.List.DelHead | VtoyTool/BabyISO/biso_list.c:46-63 | drops the first node, or does nothing on the empty list |
| LinkedList.List.DelTail | VtoyTool/BabyISO/biso_list.c:64-81 | drops the last node, or does nothing |
| LinkedList.List.Free | VtoyTool/BabyISO/biso_list.c:83-96 | ends and has released every node exactly once, in order |
| LinkedList.List.Forwards | VtoyTool/BabyISO/biso_list.h:36-42 | following next links gives the sequence |
| LinkedList.List.Backwards | VtoyTool/BabyISO/biso_list.c:33-81 | following previous links from the tail gives its reverse |
| SplitImage.Store.Flush | Ventoy2Disk/Ventoy2Disk/PhyDrive.c:1029-1050 | pieces of any size, across buffer boundaries, are put behind what was written before |
| SplitImage.Store.FlushByte | Ventoy2Disk/Ventoy2Disk/PhyDrive.c:1035-1046 | one byte, and the cursor in the right buffer afterwards |
| SplitImage.Store.MemRead | Ventoy2Disk/Ventoy2Disk/PhyDrive.c:857-880 | sectors read are that slice of the flat store, in either layout |
| SplitImage.Store.MemWrite | Ventoy2Disk/Ventoy2Disk/PhyDrive.c:883-906 | sectors written change exactly that slice |
| SplitImage.RunOn | Ventoy2Disk/Ventoy2Disk/PhyDrive.c:857-906 | every run of reads and writes returns what it would on a flat store |
| SplitImage.BothLayouts | Ventoy2Disk/Ventoy2Disk/PhyDrive.c:852-1050 | flushed into 32 buffers or decompressed into one, every run returns the same bytes |
| SplitImage.SameChunk | Ventoy2Disk/Ventoy2Disk/PhyDrive.c:873-874 | a sector lies in one buffer |

## Left out

- Files, devices, ioctls, sockets, windows and processes; disk reads are total functions of the offset, packets arrive as values.
- Allocation failures everywhere.
- Lz4Decoder.Decoder.Unlz4: where the 32-bit tests of a copy wrap, for lengths from 2^32 - 65535 on, and the copy would fill or leave the ring, the model ends with an error of its own; checksums are skipped as in the code; reading the dictionary's file is not modelled, only its bytes.
- DirWalk.FillDfsStack: the queue (`BISO_QUEUE`) is a sequence value; its blocks are not modelled.
- `DirFree.FreeDirTree`: file lists and directories are separate nodes without sharing, as the reader builds them; statistics and POSIX records freed with a node are part of that node.
- `PathTable.BuildPathTree`: tables of up to 65535 directories, as the 16-bit parent numbers allow; the records' names are not kept.
- `BISO_9660_UpdateNodeStat`, reading of directory records, Rock Ridge, Joliet and El Torito.
- `FuseIso.Mount.IsoRead`: reads below 4 GiB, since the byte count of a run of sectors has 32 bits; negative offsets do not occur.
- `DmTable.ParseTable`: the entries are what the memory for them held before, a parameter; opening the device is left out; device names are shorter than the 128 bytes of the code's buffer.
- `DmTable.TableIsImage`: below 2 TiB, where the 32-bit sector numbers of the table end, and for partitions that begin before the image.
- `Extract.PrintExtract`: disk sector numbers below 2^32, since the pairs have 32 bits, and not both the first and the last four of them in one file, where a run would wrap around; the file header of the pair list is left out.
- JsonNodes.Parser.ParseCompoundInto: the array and the object function are one method with a flag, since they differ in the name and the bracket only; the end pointer after a failure, which is only logged, is not modelled.
- The JSON functions that fill a table of settings or hand out arrays and objects, and `vtoy_json_free`; of the functions that look values up those for int, truth values and strings are modelled.
- `JsonNodes.Parse`: texts below 4 GiB, since the copied buffer's size has 32 bits.
- `Partitions.Tables.UpdatePartTable`: checksums, the backup header and the writes to the disk; the random identifier is a parameter, and `GptInsertion` takes it not to be zero.
- `Partitions.GptInsertion`: sector numbers below 2^55, where bytes are counted in 64 bits.
- `Installer.Install`: the shrinking of the file system by other tools is a parameter, and they refuse to shrink it to nothing; copying boot code and images to the disk is left out.
- AoeBlade.Blade.DoAoe: the reply's header and its sending; of the reply only errors and lists are modelled. Configuration commands change nothing the model keeps.
- AoeBlade.Blade.AoeAta: what `atacmd` does; `getsec`, whose place in the buffer is not advanced between runs.
- Masks given on the AoE target's command line.
- `LinkedList.List.AddTail`: fewer than 2^32 - 1 nodes, so that the counter does not wrap.
- `SplitImage.Store.Flush`: at exactly 32 MiB the code loads a pointer from behind its array and does not use it; the model has no cursor then. The length counter starts at 0; the code never resets it.
- FAT library, xz decompression, keyboard layouts, language tables, GUI and GRUB code.
