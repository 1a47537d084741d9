# Verified models of the GPM image builders, allocator, JSON utilities and uploaders

This project models the self-contained algorithms of the repository in Dafny and proves what they promise.
`dafny verify dfyconfig.toml` covers all of it.

- **LZF compressor and CROMFS image builder** (`gpm/tools/gencromfs.c`). `Lzf` is the compressor with its hash table,
  back-patched literal runs, unrolled match extension and raw fallback, over byte arrays; a decoder is defined from what
  the encoder emits, and every block decodes to its input whatever the hash table holds. `CromfsFormat` holds the
  directory tree as `readdir()` and `stat()` report it, the records, and a strict reader that follows `cv_root`,
  `cn_child`, `cn_peer`, `cn_name` and `cn_blocks`. `CromfsWriter` is the generator, whose offsets are 32-bit and whose
  nodes are written after what lies below them. `CromfsModes` says what the mode words show. `CromfsReadback` proves the
  round trip, and exactly when it holds: the code decides which entry is last before it skips ".", ".." and special files.
- **First-fit pool allocator** (`gpm/mm/rtxmem.c`). `RtxPool` is the address-ordered block list, runs of operations over
  it and the free runs between blocks; `RtxMem` is the allocator over a word array, with addresses as pointers, proved
  to do exactly the list operations and to leave all payloads alone.
- **JSON utilities** (`apps/fmu_gnss_ins_p/cjson/cJSON_Utils.c`). `JsonSort` is the in-place mergesort over linked
  nodes; `JsonValue` relates ordered member lists to maps, and the sort and `compare_json` to both; `MergePatch` is merge
  patch against section 2 of RFC 7396, with the exact conditions for merging to follow it and for the generate-and-apply
  round trip; `JsonPointer` is pointer construction and evaluation (sections 3 and 4 of RFC 6901).
- **Firmware CRC and upload** (`tools/px_uploader.py`). `Crc32` proves the literal table-driven CRC equal to the
  bit-serial one and injective on four-byte windows. `Uploader` and `UploadSession` run the upload against a bootloader
  whose effects and replies are arbitrary.
- **ROMFS writer** (`gpm/tools/mkgromfs.py`). `Romfs`: sorting, round trip, extents, relocation, alignment.
- **YMODEM sender** (`gpm/tools/ym_uploader.py`). `Crc16` proves the register loop to be polynomial division; `Ymodem`:
  framing and the stop-and-wait transfer over a line that loses frames and replies.

`Bytes` and `Chunks` hold shared byte-order and splitting definitions.

Where the properties one would expect are not true of the code, the model keeps the code and states when they hold:
`CromfsReadback.ReadBack` (with `CromfsReadback.DotLast`), `RtxPool.RoundedCovers` (with `RtxPool.RoundedWraps`),
`RtxMem.Pool.Alloc` (with `RtxMem.StuntedIsBroken`), `RtxMem.Pool.Free` (with `RtxMem.SeveredIsBroken`),
`JsonSort.SortedExactly`, `MergePatch.MergeExactly` (with `MergePatch.CaseHit`), `MergePatch.RoundTripExactly` (with
`MergePatch.NullMemberLost`, `MergePatch.CaseOrderLost` and `MergePatch.CaseChangeLost`), `JsonPointer.FindThenGet` (with
`JsonPointer.TwinMissed`), `JsonPointer.IndexExactly` (with `JsonPointer.EmptyIndex` and `JsonPointer.WrappedIndex`),
`Uploader.CoveredExactly` and `Romfs.ImageAligned` (with `Romfs.MisalignedName`).

Where code and comments disagree the code is followed: the format comment in `gpm/include/lzf.h` (lines 130-134) gives
other run and match lengths than the encoder writes.

## Model

| member | source | states |
|---|---|---|
| `Lzf.ExpandAppend` | gpm/tools/gencromfs.c:697-710 | decoding is sequential: what was decoded from a prefix of the payload is the history for the rest |
| `Lzf.CopyBackMatches` | gpm/tools/gencromfs.c:587-710 | copying byte by byte from an earlier position reproduces a matched stretch, overlapping references included |
| `Lzf.MatchLength` | gpm/tools/gencromfs.c:567-695 | the unrolled extension finds a match of 3 to 264 bytes inside the input, all of it equal, and stops early only at a difference |
| `Lzf.TakeLiteral` | gpm/tools/gencromfs.c:741-742 | a literal extends the open run without disturbing what is already encoded |
| `Lzf.StopRun` | gpm/tools/gencromfs.c:744-749 | back-patching the run byte closes the run: the payload so far decodes to the input so far |
| `Lzf.CloseRun` | gpm/tools/gencromfs.c:773-774 | closing a run that may be empty undoes the reserved run byte and leaves a payload that decodes to the input so far |
| `Lzf.EndRun` | gpm/tools/gencromfs.c:584-585 | patches the run byte in place, gives the byte back for an empty run, writes nothing past the payload |
| `Lzf.EmitReference` | gpm/tools/gencromfs.c:697-710 | a two- or three-byte reference appended to a payload for s[..i] gives one for s[..i + n] |
| `Lzf.PutReference` | gpm/tools/gencromfs.c:697-712 | writes the short or the long form in place, keeps the encoding, the size bound and everything past the payload |
| `Lzf.PutLiteral` | gpm/tools/gencromfs.c:741-749 | writes one literal in place and restarts the run at 32 |
| `Lzf.PutMatch` | gpm/tools/gencromfs.c:565-712 | from a three-byte match on, closes the run and emits the longest reference, within the output |
| `Lzf.Finish` | gpm/tools/gencromfs.c:753-776 | emits the last bytes as literals and ends the run |
| `Lzf.CompressedBlock` | gpm/tools/gencromfs.c:779-791 | a type-1 header before a correct payload gives a self-delimiting block that decodes to the input |
| `Lzf.RawBlock` | gpm/tools/gencromfs.c:792-806 | a type-0 block is self-delimiting and decodes to the input |
| `Lzf.Compressor.Lookup` | gpm/tools/gencromfs.c:552-563 | whatever the hash slot held, there is a hit exactly when it is an earlier position, not the first, within the window, whose three bytes agree; the slot then holds the new position and no other slot changes |
| `Lzf.Compressor.Advance` | gpm/tools/gencromfs.c:550-751 | one round of the main loop moves forward and keeps the payload decodable, or the output is within four bytes of its end; in a run of one byte every position but the first two starts a match |
| `Lzf.RunLooksBack` | gpm/tools/gencromfs.c:549-563 | in a run of one byte the hash table leads from every position but the first two to the one before |
| `Lzf.RunCosts` | gpm/tools/gencromfs.c:549-751 | along every way of the main loop through a run of one byte, what is written is two literals and then one reference for up to 264 bytes at a time |
| `Lzf.Compressor.Encode` | gpm/tools/gencromfs.c:539-776 | a nonzero payload decodes to the input and has at most min(512, n + n/32 + 1) bytes; up to 493 bytes of input always fit, and a run of one byte takes at most 12 |
| `Lzf.Compressor.Compress` | gpm/tools/gencromfs.c:525-809 | for every input of up to 512 bytes the block decodes to exactly the input, gives its own length, respects the size bound and writes no payload byte past 512; 1 to 493 bytes always give a compressed block, and a run of one byte at most 12 bytes behind the header |
| `CromfsReadback.ReadBlocksBack` | gpm/tools/gencromfs.c:1025-1067 | walking blocks by their own header lengths until all bytes are produced yields the file |
| `CromfsReadback.ReadEntry` | gpm/tools/gencromfs.c:1080-1104 | a file or directory record is read back, with everything below it, exactly when it is good |
| `CromfsReadback.ReadDirectory` | gpm/tools/gencromfs.c:920-984 | "." leads to the directory itself, ".." to its parent, and the entries follow, exactly when the listing is good |
| `CromfsReadback.ReadPeers` | gpm/tools/gencromfs.c:1184-1236 | following cn_peer gives the real entries in readdir order exactly when the listing is good |
| `CromfsReadback.PeersEnd` | gpm/tools/gencromfs.c:1214-1231 | the peer chain of a directory ends properly exactly when the last listed entry is the last real one |
| `CromfsReadback.VolumeFields` | gpm/tools/gencromfs.c:1309-1314 | the header is "CROM", node and block counts modulo 65536, root offset 20, image length and block size 512, each at its place |
| `CromfsModes.ModeStored` | gpm/tools/gencromfs.c:811-849 | bit by bit, the mode word written for a file or directory has its type bit, the read and execute permissions of the host mode, and no other bit |
| `CromfsModes.OneMode` | gpm/tools/gencromfs.c:811-849 | that description fixes the word |
| `CromfsModes.LinkMode` | gpm/tools/gencromfs.c:867-895 | the mode word of "." and ".." is a link that everyone may read and execute |
| `CromfsReadback.RecordMode` | gpm/tools/gencromfs.c:1080-1104 | the first two bytes of a record are such a mode word |
| `CromfsReadback.ShowsExactly` | gpm/tools/gencromfs.c:1137-1182 | the tree a reader should see is the only one that shows the listing: all entries in order but ".", ".." and special files, with name, type, permissions and contents |
| `CromfsReadback.ReadBack` | gpm/tools/gencromfs.c:1278-1323 | below 4 GiB what a reader recovers shows names, nesting, order, types, permissions and contents if and only if every non-empty directory lists a real entry last and file sizes fit 32 bits; and then the header counts the nodes and blocks that were read |
| `CromfsReadback.DotLast` | gpm/tools/gencromfs.c:1214-1226 | a directory that lists "." last is not read back |
| `CromfsWriter.AddBlock` | gpm/tools/gencromfs.c:1029-1067 | appending a block for the next 512 bytes extends a decodable run of blocks |
| `CromfsWriter.AddEntry` | gpm/tools/gencromfs.c:1205-1232 | appending the record of the next entry extends a chain whose peers are absolute offsets |
| `CromfsWriter.NodeWraps` | gpm/tools/gencromfs.c:1080-1092 | a node written from offsets taken modulo 2^32 has the bytes of the node with the true offsets |
| `CromfsWriter.Generator.GenDirlink` | gpm/tools/gencromfs.c:867-895 | appends a link whose name and peer words are their own positions in the image, and counts one node |
| `CromfsWriter.Generator.GenBlock` | gpm/tools/gencromfs.c:1033-1065 | appends one self-delimiting block that decodes to the chunk, and advances the offset by its length |
| `CromfsWriter.Generator.GenBlocks` | gpm/tools/gencromfs.c:1025-1067 | the blocks of a file decode to it 512 bytes at a time and their lengths sum to the offset's advance |
| `CromfsWriter.Generator.GenFile` | gpm/tools/gencromfs.c:986-1105 | the node goes before the blocks already generated, with name, blocks and peer words equal to their positions and a mode word that shows a file with the host's permissions |
| `CromfsWriter.Generator.GenDirectory` | gpm/tools/gencromfs.c:897-984 | the node goes before the subtree already generated, with name, child, peer, "." and ".." words equal to their positions and a mode word that shows a directory with the host's permissions, and the saved offsets are restored |
| `CromfsWriter.Generator.DirNotEmpty` | gpm/tools/gencromfs.c:1107-1135 | the first pass answers whether any file or directory is listed besides "." and ".." |
| `CromfsWriter.Generator.GenEntry` | gpm/tools/gencromfs.c:1137-1182 | writes files and directories, skips "." and "..", omits special files |
| `CromfsWriter.Generator.Traverse` | gpm/tools/gencromfs.c:1184-1236 | writes the records of a listing as a chain and counts their nodes and blocks |
| `CromfsWriter.Generate` | gpm/tools/gencromfs.c:1242-1331 | the whole image: header with length, node and block counts, root links and tree, and with it the round trip, permissions and counts included |
| `RtxPool.Ordered` | gpm/mm/rtxmem.c:71-108 | elements are in strictly increasing address order and none reaches into a later one |
| `RtxPool.InPool` | gpm/mm/rtxmem.c:41-52 | every element lies between the pool header and the sentinel |
| `RtxPool.TakeKeeps` | gpm/mm/rtxmem.c:96-108 | filling the empty first element or linking a new one keeps the list well formed |
| `RtxPool.DropKeeps` | gpm/mm/rtxmem.c:141-148 | emptying the first element or unlinking another keeps the list well formed |
| `RtxPool.TotalFits` | gpm/mm/rtxmem.c:87-88 | the lengths of all live blocks together fit the pool |
| `RtxPool.RunInHole` | gpm/mm/rtxmem.c:71-85 | every free run lies behind a single element, so adjacent freed blocks form one hole, also around the first block |
| `RtxPool.FirstFitIsLowest` | gpm/mm/rtxmem.c:71-85 | the search fails exactly when no free run of the size exists, and otherwise finds the lowest one |
| `RtxPool.RoundedCovers` | gpm/mm/rtxmem.c:66-69 | the rounded size covers request and header if and only if the request is at most 2^32 - 16; larger requests round to at most 8 |
| `RtxPool.RoundedWraps` | gpm/mm/rtxmem.c:66-69 | two requests whose rounding wraps around |
| `RtxPool.InitialOk` | gpm/mm/rtxmem.c:30-53 | a fresh pool satisfies the invariant, has no block, 16 bytes used and 16 as the mark, and is one free run between header and sentinel |
| `RtxPool.StepKeeps` | gpm/mm/rtxmem.c:55-151 | every allocation and release keeps the invariant, and the high-water mark is raised to `used` exactly when exceeded |
| `RtxPool.Run` | gpm/mm/rtxmem.c:30-151 | the invariant holds after every sequence of operations |
| `RtxPool.GrantedIsLowestRun` | gpm/mm/rtxmem.c:55-111 | NULL exactly when no free run of the rounded size exists; otherwise a block at the start of the lowest one |
| `RtxPool.PeakIsMaximum` | gpm/mm/rtxmem.c:87-94 | from a state whose mark is its `used` on, the sentinel's info is the maximum of `used` over the whole run |
| `RtxPool.PeakFromInit` | gpm/mm/rtxmem.c:30-94 | and hence in every run from a fresh pool on |
| `RtxPool.AllocAdds` | gpm/mm/rtxmem.c:96-110 | an allocation adds exactly the block that is granted to the live ones, and none when it answers NULL |
| `RtxPool.FreeRemoves` | gpm/mm/rtxmem.c:113-151 | a release removes exactly the block with that pointer from the live ones, and none for any other pointer |
| `RtxPool.FreeUndoesAlloc` | gpm/mm/rtxmem.c:113-151 | releasing the block just granted restores list and `used` exactly |
| `RtxPool.LiveBlocksDisjoint` | gpm/mm/rtxmem.c:55-151 | after every run each live block is aligned and inside the pool, any two are disjoint, and `used` is 16 plus all lengths and at most the pool size |
| `RtxMem.Pool.Init` | gpm/mm/rtxmem.c:30-53 | refuses exactly the bad parameters without writing; otherwise memory represents the empty pool, word by word: size, 16, the first element linked to the sentinel with info 0, and the sentinel with info 16 |
| `RtxMem.Pool.Used` | gpm/mm/rtxmem.c:22-28 | reports 16 plus the lengths of the live blocks |
| `RtxMem.Pool.Search` | gpm/mm/rtxmem.c:71-85 | the pointer walk finds the first hole that is large enough |
| `RtxMem.Pool.Alloc` | gpm/mm/rtxmem.c:55-111 | does exactly the list operation and returns what it grants; no request, however large, changes a payload of a live block; memory is still a pool afterwards if and only if the rounding did not wrap, nothing was granted, or a block of no bytes and type 0 went into the empty first element |
| `RtxMem.StuntedIsBroken` | gpm/mm/rtxmem.c:96-108 | once a header of less than 16 bytes was entered, memory represents no state of the pool |
| `RtxMem.Pool.Count` | gpm/mm/rtxmem.c:87-94 | updates `used` and the mark in the sentinel and nothing else |
| `RtxMem.Pool.Insert` | gpm/mm/rtxmem.c:102-107 | links a new header in behind an element, changing three words |
| `RtxMem.Outcome` | gpm/mm/rtxmem.c:87-108 | what the counters' and the list's words written by an allocation represent, for every rounded size |
| `RtxMem.Pool.Locate` | gpm/mm/rtxmem.c:126-136 | finds the element with a header address and its predecessor, or none |
| `RtxMem.Pool.Free` | gpm/mm/rtxmem.c:113-151 | releases a live block or refuses, keeping all other payloads, for every pointer but the one behind the sentinel; memory is still a pool afterwards if and only if it was not that pointer |
| `RtxMem.SeveredIsBroken` | gpm/mm/rtxmem.c:126-148 | after that one call memory represents no state of the pool, whatever its list |
| `RtxMem.ChainFollows` | gpm/mm/rtxmem.c:71-85 | the chain of next words determines the addresses of every state that memory can represent |
| `RtxMem.LinkIn` | gpm/mm/rtxmem.c:102-107 | memory after linking represents the list with the new block |
| `RtxMem.Unlink` | gpm/mm/rtxmem.c:145-148 | memory after unlinking represents the list without the block |
| `RtxMem.Pool.Store` | gpm/mm/rtxmem.c:96-110 | an owner's write to its payload leaves the allocator's state unchanged |
| `JsonSort.CompareStrings` | apps/fmu_gnss_ins_p/cjson/cJSON_Utils.c:82-109 | the answer is negative exactly when the first key comes first in dictionary order and zero exactly when both are the same, by their bytes or, ignoring case, by their lower-case letters; a missing key is never equal |
| `JsonSort.CompareOrders` | apps/fmu_gnss_ins_p/cjson/cJSON_Utils.c:82-109 | the order is the dictionary's: the beginning of the other, or smaller where they first differ |
| `JsonSort.FoldsLetters` | apps/fmu_gnss_ins_p/cjson/cJSON_Utils.c:100-108 | ignoring case folds 'A' to 'Z' and nothing else |
| `JsonSort.CompareFlips` | apps/fmu_gnss_ins_p/cjson/cJSON_Utils.c:82-109 | comparing the other way round flips the sign |
| `JsonSort.CompareTransitive` | apps/fmu_gnss_ins_p/cjson/cJSON_Utils.c:82-109 | the order is transitive |
| `JsonSort.SortPermutes` | apps/fmu_gnss_ins_p/cjson/cJSON_Utils.c:484-593 | the sorted list holds the same nodes |
| `JsonSort.MergeSorts` | apps/fmu_gnss_ins_p/cjson/cJSON_Utils.c:534-592 | merging sorted lists of keyed nodes gives a sorted list |
| `JsonSort.SortSorts` | apps/fmu_gnss_ins_p/cjson/cJSON_Utils.c:484-593 | with keys present the result is nondecreasing under compare_strings |
| `JsonSort.SortsKeys` | apps/fmu_gnss_ins_p/cjson/cJSON_Utils.c:484-593 | with keys present no key of the result precedes an earlier one in dictionary order |
| `JsonSort.SortedExactly` | apps/fmu_gnss_ins_p/cjson/cJSON_Utils.c:484-593 | a list of at least two nodes comes out sorted if and only if no key is missing |
| `JsonSort.TestIncreasing` | apps/fmu_gnss_ins_p/cjson/cJSON_Utils.c:498-507 | the early exit is taken exactly for strictly increasing lists |
| `JsonSort.FindMiddle` | apps/fmu_gnss_ins_p/cjson/cJSON_Utils.c:509-521 | the two-speed walk stops at the middle node |
| `JsonSort.MoveSmaller` | apps/fmu_gnss_ins_p/cjson/cJSON_Utils.c:535-569 | one turn of the merge relinks the smaller node behind the tail and keeps both remaining lists intact |
| `JsonSort.MergeLists` | apps/fmu_gnss_ins_p/cjson/cJSON_Utils.c:534-593 | relinking produces a NULL-terminated chain in merge order with right prev links behind the head |
| `JsonSort.SortList` | apps/fmu_gnss_ins_p/cjson/cJSON_Utils.c:484-593 | terminates with a NULL-terminated chain of the same nodes in dictionary order of their keys, with right prev links behind the head |
| `JsonValue.PlainKeys` | apps/fmu_gnss_ins_p/cjson/cJSON_Utils.c:82-109 | keys without upper-case letters are told apart and lined up when case is ignored: nothing changes for them |
| `JsonValue.ArrangeKeeps` | apps/fmu_gnss_ins_p/cjson/cJSON_Utils.c:595-602 | sorting an object with distinct keys keeps its meaning, in either case mode |
| `JsonValue.ArrangeAscends` | apps/fmu_gnss_ins_p/cjson/cJSON_Utils.c:595-602 | where keys that compare equal are equal, the members come out strictly increasing in the order used |
| `JsonValue.SortListArranges` | apps/fmu_gnss_ins_p/cjson/cJSON_Utils.c:595-602 | where keys that compare equal are equal, the in-place list sort gives that same arrangement |
| `JsonValue.ComparesMeaning` | apps/fmu_gnss_ins_p/cjson/cJSON_Utils.c:604-690 | compare_json holds if and only if the documents mean the same, members in any order, for distinct keys that are equal wherever they compare equal |
| `MergePatch.Merge` | apps/fmu_gnss_ins_p/cjson/cJSON_Utils.c:1321-1379 | the loop over the patch computes the merged document |
| `MergePatch.MergeApplies` | apps/fmu_gnss_ins_p/cjson/cJSON_Utils.c:1321-1379 | where keys that compare equal at a place are equal, merging applies the members of the patch in turn, also when a key occurs twice in it |
| `MergePatch.MergeMeans` | apps/fmu_gnss_ins_p/cjson/cJSON_Utils.c:1321-1379 | for distinct keys, where keys of target and patch that compare equal at a place are equal, the merged document means what section 2 of RFC 7396 says |
| `MergePatch.MergeExactly` | apps/fmu_gnss_ins_p/cjson/cJSON_Utils.c:1321-1379 | for a target with distinct keys and a patch whose siblings compare different: the merged document means what section 2 of RFC 7396 says if and only if, for every patch member at every place, the first target member whose key compares equal has exactly that key |
| `MergePatch.CaseHit` | apps/fmu_gnss_ins_p/cjson/cJSON_Utils.c:1354-1376 | ignoring case, merging {"A": 2} into {"a": 1} gives {"A": 2}, while the standard keeps "a" |
| `MergePatch.PatchIdempotent` | apps/fmu_gnss_ins_p/cjson/cJSON_Utils.c:1321-1379 | patching a value twice is patching it once |
| `MergePatch.MergeIdempotent` | apps/fmu_gnss_ins_p/cjson/cJSON_Utils.c:1321-1389 | merging twice gives a document compare_json-equal to merging once, for distinct keys that are equal wherever they compare equal |
| `MergePatch.Generate` | apps/fmu_gnss_ins_p/cjson/cJSON_Utils.c:1391-1471 | the walk over both sorted lists computes the patch; a NULL target gives null, a NULL source a copy |
| `MergePatch.WalkMeans` | apps/fmu_gnss_ins_p/cjson/cJSON_Utils.c:1416-1463 | over lists sorted in the order used, the walk finds exactly the members to drop, add or change, when a key of one list only that comes before a key of both also does so in byte order |
| `MergePatch.GeneratesDelta` | apps/fmu_gnss_ins_p/cjson/cJSON_Utils.c:1391-1471 | for documents lined up like that at every place of both, the patch means their difference |
| `MergePatch.NullExactly` | apps/fmu_gnss_ins_p/cjson/cJSON_Utils.c:1465-1470 | for distinct keys that are equal wherever they compare equal, the result is NULL exactly for two objects that mean the same |
| `MergePatch.ThereAndBack` | apps/fmu_gnss_ins_p/cjson/cJSON_Utils.c:1391-1471 | patching a value with its difference to another gives the other if and only if no null member of it is new, changed or inside something new |
| `MergePatch.NoNullsRecoverable` | apps/fmu_gnss_ins_p/cjson/cJSON_Utils.c:1391-1471 | a target without null members always meets that condition |
| `MergePatch.RoundTrip` | apps/fmu_gnss_ins_p/cjson/cJSON_Utils.c:1321-1471 | merging the generated patch into the first document is compare_json-equal to the second if and only if that condition holds, for distinct keys that are equal wherever they compare equal, lined up like that at every place of both (below the root always ignoring case) |
| `MergePatch.WalkApplies` | apps/fmu_gnss_ins_p/cjson/cJSON_Utils.c:1416-1463 | for any two lists with distinct keys, what a key holds after the patch of the walk is applied depends on which cursor goes past it first: set anew, lost, or changed |
| `MergePatch.RoundTripExactly` | apps/fmu_gnss_ins_p/cjson/cJSON_Utils.c:1321-1471 | without lining up: the patch is NULL exactly for objects that compare equal; otherwise merging it is compare_json-equal to the second document if and only if no key of both is passed in the second list first, every member that is new or passed in the first list first has nothing null in it, and every other is unchanged or comes back itself |
| `MergePatch.LinedReturns` | apps/fmu_gnss_ins_p/cjson/cJSON_Utils.c:1391-1471 | for documents that are lined up this condition is the one on null members |
| `MergePatch.NullMemberLost` | apps/fmu_gnss_ins_p/cjson/cJSON_Utils.c:1341-1352 | a null member cannot be added by a patch |
| `MergePatch.CaseOrderLost` | apps/fmu_gnss_ins_p/cjson/cJSON_Utils.c:1404-1436 | from {"B": 1, "a": 2} to {"B": 1}, ignoring case, the patch loses the member that should stay |
| `MergePatch.CaseChangeLost` | apps/fmu_gnss_ins_p/cjson/cJSON_Utils.c:1404-1436 | from {"a": 1} to {"A": 1}, ignoring case, the patch leaves nothing |
| `JsonPointer.ComparePointers` | apps/fmu_gnss_ins_p/cjson/cJSON_Utils.c:119-154 | a token is accepted if and only if it is the ~0/~1 encoding of the key, up to case when asked |
| `JsonPointer.EncodedLength` | apps/fmu_gnss_ins_p/cjson/cJSON_Utils.c:156-170 | the computed length is that of the encoding |
| `JsonPointer.EncodeString` | apps/fmu_gnss_ins_p/cjson/cJSON_Utils.c:172-196 | writes the encoding and a terminator into the buffer and nothing else |
| `JsonPointer.EncodeInjective` | apps/fmu_gnss_ins_p/cjson/cJSON_Utils.c:172-196 | different keys have different encodings |
| `JsonPointer.EncodeDecodes` | apps/fmu_gnss_ins_p/cjson/cJSON_Utils.c:172-196 | replacing "~1" by "/" and then "~0" by "~", as section 4 of RFC 6901 says, gives the key back |
| `JsonPointer.NamesEncoded` | apps/fmu_gnss_ins_p/cjson/cJSON_Utils.c:119-196 | the token made from one key names another only if the keys are equal up to case |
| `JsonPointer.DecodeIndex` | apps/fmu_gnss_ins_p/cjson/cJSON_Utils.c:274-299 | the parser accepts exactly digit tokens without leading zero, the empty one too, modulo the size_t range |
| `JsonPointer.IndexExactly` | apps/fmu_gnss_ins_p/cjson/cJSON_Utils.c:274-299 | for every token: accepted as i if and only if it is i printed in decimal, or is misread and i is its value modulo 2^32 |
| `JsonPointer.MisreadExactly` | apps/fmu_gnss_ins_p/cjson/cJSON_Utils.c:274-299 | the accepted tokens that do not print the index they are taken for are exactly the empty one and the numbers of at least 2^32 without leading zero |
| `JsonPointer.EmptyIndex` | apps/fmu_gnss_ins_p/cjson/cJSON_Utils.c:280-296 | the empty token is taken for index 0 |
| `JsonPointer.WrappedIndex` | apps/fmu_gnss_ins_p/cjson/cJSON_Utils.c:286-296 | 4294967296 is taken for index 0 |
| `JsonPointer.IndexFits` | apps/fmu_gnss_ins_p/cjson/cJSON_Utils.c:223-235 | a printed index fits the room reserved for it |
| `JsonPointer.ThroughKey` | apps/fmu_gnss_ins_p/cjson/cJSON_Utils.c:240-250 | the allocated buffer holds slash, encoded key and the rest of the pointer |
| `JsonPointer.Find` | apps/fmu_gnss_ins_p/cjson/cJSON_Utils.c:198-259 | the recursive search computes the pointer of the first node with the identity |
| `JsonPointer.GetItem` | apps/fmu_gnss_ins_p/cjson/cJSON_Utils.c:301-346 | returns the node that the pointer leads to from the root, and NULL when it leads nowhere |
| `JsonPointer.ChildExactly` | apps/fmu_gnss_ins_p/cjson/cJSON_Utils.c:262-330 | a token leads to the one child it stands for: the element of that index, or the first member whose key it encodes; and nowhere when it stands for none |
| `JsonPointer.EvalExactly` | apps/fmu_gnss_ins_p/cjson/cJSON_Utils.c:301-346 | evaluation of every pointer gives a node if and only if each token between one "/" and the next leads on to it, from the tree and the text alone |
| `JsonPointer.PastTheEnd` | apps/fmu_gnss_ins_p/cjson/cJSON_Utils.c:262-272 | an index past the end of an array leads nowhere |
| `JsonPointer.StepLeads` | apps/fmu_gnss_ins_p/cjson/cJSON_Utils.c:301-346 | the token made for a child leads to that child and leaves the rest of the pointer, or leads to an earlier sibling exactly when one has the same key, up to case when case is ignored |
| `JsonPointer.FindThenGet` | apps/fmu_gnss_ins_p/cjson/cJSON_Utils.c:198-346 | a pointer is found exactly for the nodes of the tree; evaluating it returns the node it was made for if and only if no object on the way has an earlier member of the same key, up to case when case is ignored |
| `JsonPointer.EvalInside` | apps/fmu_gnss_ins_p/cjson/cJSON_Utils.c:301-346 | evaluation never leaves the tree |
| `JsonPointer.UniqueClear` | apps/fmu_gnss_ins_p/cjson/cJSON_Utils.c:198-346 | with keys unique among siblings that condition holds for every node |
| `JsonPointer.TwinMissed` | apps/fmu_gnss_ins_p/cjson/cJSON_Utils.c:301-346 | on {"a": 1, "A": 2} the pointer to the second member leads to the first when case is ignored |
| `Crc32.CrcTabIsGood` | tools/px_uploader.py:86-118 | each of the 256 entries is its index shifted eight times through the polynomial |
| `Crc32.ComputeCrc` | tools/px_uploader.py:137-141 | the byte loop computes the table-driven CRC |
| `Crc32.CrcIsSerial` | tools/px_uploader.py:137-141 | with such a table it is the bit-by-bit CRC, for every state and data |
| `Crc32.StepInjective` | tools/px_uploader.py:138-140 | a table step is injective in the state |
| `Crc32.FourSteps` | tools/px_uploader.py:138-140 | four steps are injective in the data |
| `Crc32.BurstDetected` | tools/px_uploader.py:137-147 | data that differ only within four consecutive bytes have different CRCs |
| `Uploader.PadImage` | tools/px_uploader.py:130-132 | pads with 0xff to the next multiple of four |
| `Uploader.FirmwareCrc` | tools/px_uploader.py:143-147 | crc(padlen) is the bit-serial CRC of the image and whole 0xff words |
| `Uploader.CoveredExactly` | tools/px_uploader.py:143-147 | it covers exactly padlen bytes if and only if padlen is a multiple of four not below the image |
| `Uploader.Blocks` | tools/px_uploader.py:482-496 | the blocks join to the image; each has 1 to 252 bytes, a multiple of four, and all but the last have 252 |
| `Uploader.ProgramsAppend` | tools/px_uploader.py:428-440 | blocks carried out on erased flash land one after the other |
| `Uploader.EraseExactly` | tools/px_uploader.py:402-425 | an erase is accepted exactly when an OK comes in time with no refusal of the silicon before it |
| `Uploader.ScriptSays` | tools/px_uploader.py:654-666 | an upload that goes well erases first, programs exactly the image, then verifies by reading all of it back or by the CRC, then sets the boot delay if there is one, and reboots last |
| `Uploader.FlashedExactly` | tools/px_uploader.py:486-515 | erased and programmed by true acknowledgements, flash is the image followed by 0xff |
| `UploadSession.ImagesTold` | tools/px_uploader.py:137-147 | images of one length that differ only within four consecutive bytes get different values from crc(padlen), for every padlen |
| `UploadSession.CorruptionCaught` | tools/px_uploader.py:533-545 | when the CRC verification passes, flash that is right but for four consecutive bytes is right |
| `UploadSession.CorrectPasses` | tools/px_uploader.py:517-545 | correct flash passes the verification of every revision |
| `UploadSession.Uploading.Command` | tools/px_uploader.py:267-281 | a command succeeds exactly when INSYNC, OK comes back |
| `UploadSession.Uploading.Erase` | tools/px_uploader.py:402-425 | polls until OK, refusing silicon errors, within the deadline |
| `UploadSession.Uploading.Program` | tools/px_uploader.py:486-515 | sends the blocks in order, each once the one before was acknowledged |
| `UploadSession.Uploading.Flash` | tools/px_uploader.py:654-655 | erase and program; an empty image fails after the erase, at the progress bar's division |
| `UploadSession.Uploading.VerifyMulti` | tools/px_uploader.py:452-469 | succeeds only if flash holds the expected bytes at the read position |
| `UploadSession.Uploading.VerifyV2` | tools/px_uploader.py:517-531 | success means that flash starts with the image |
| `UploadSession.Uploading.VerifyV3` | tools/px_uploader.py:533-545 | success means that flash has the CRC of the padded image |
| `UploadSession.Uploading.Finish` | tools/px_uploader.py:662-666 | boot delay, which must fit a signed byte, then reboot, acknowledged from revision 3 on |
| `UploadSession.OtpCovered` | tools/px_uploader.py:587-591 | from revision 4 on each of the 192 OTP bytes is asked for once, four at a time; before, none |
| `UploadSession.Uploading.Inquire` | tools/px_uploader.py:587-625 | makes the OTP, serial number and chip queries in order, ignoring failures of the middle group only, and changes nothing |
| `UploadSession.Uploading.Clear` | tools/px_uploader.py:571-653 | lets an upload through only when no guard refuses it and the queries that must be answered were, before anything is erased |
| `UploadSession.Uploading.Install` | tools/px_uploader.py:654-666 | erase, program, verify, delay and reboot, each command once the one ahead was acknowledged |
| `UploadSession.Uploading.Upload` | tools/px_uploader.py:570-668 | over every run queries come first and change nothing; for another board without force, or an image larger than flash, not one command is sent, and nothing is changed on a chip the image is not sized for without force; then the commands are a prefix of the script, none sent before the one ahead was acknowledged; a board told to reboot was erased, fully programmed and verified; with true acknowledgements flash is exact; an obedient board is refused or completes |
| `Romfs.ReadBack` | gpm/tools/mkgromfs.py:232-243 | whenever packing succeeds, a reader subtracting the base recovers names, types, child counts and unpadded contents |
| `Romfs.BinData` | gpm/tools/mkgromfs.py:165-214 | the loop accumulates records and payload, and fails exactly when a word does not fit 32 bits |
| `Romfs.WriteEntry` | gpm/tools/mkgromfs.py:184-212 | one entry's record points to its name and padded data |
| `Romfs.GetBinData` | gpm/tools/mkgromfs.py:232-243 | succeeds exactly when all words fit, and then the image reads back |
| `Romfs.StoresExtents` | gpm/tools/mkgromfs.py:165-214 | the addresses stored in the records, walked from any record down, are those of the record tables, names and contents of the layout |
| `Romfs.ImageExtents` | gpm/tools/mkgromfs.py:232-243 | the record tables, names and contents that the stored addresses point at, at every depth, lie behind the root record and inside the image, in order and without overlap |
| `Romfs.Relocates` | gpm/tools/mkgromfs.py:165-243 | the base enters the image only as a summand of the name and data words |
| `Romfs.NamePadded` | gpm/tools/mkgromfs.py:78-83 | a stored name is followed by one to four NULs, as many as bring its characters to a multiple of four |
| `Romfs.DataPadded` | gpm/tools/mkgromfs.py:196-212 | stored data is followed by zeros up to the next multiple of four |
| `Romfs.WholeExactly` | gpm/tools/mkgromfs.py:31-36 | a padded name fills whole words if and only if its bytes and characters agree modulo four |
| `Romfs.ImageAligned` | gpm/tools/mkgromfs.py:165-243 | at a base that is a multiple of four, every name and data word stored in the image, at every depth, is one if and only if all names fill whole words |
| `Romfs.MisalignedName` | gpm/tools/mkgromfs.py:78-83 | one two-byte character misaligns the data word behind its name |
| `Romfs.LeqPrecedes` | gpm/tools/mkgromfs.py:101-110 | names are ordered as in a dictionary: equal, the beginning of the other, or smaller where they first differ |
| `Romfs.SortSorts` | gpm/tools/mkgromfs.py:101-115 | sorting puts the names in that order at every depth |
| `Romfs.SortPermutes` | gpm/tools/mkgromfs.py:101-115 | the sorted children are the children, each sorted, in another order |
| `Romfs.MakeImage` | gpm/tools/mkgromfs.py:250-258 | sorting and packing: the reader recovers the sorted tree |
| `Crc16.CalculateCrc16` | gpm/tools/ym_uploader.py:74-87 | the nested loops compute the remainder of the message times x^16 by x^16 + x^12 + x^5 + 1 |
| `Crc16.CrcIsRemainder` | gpm/tools/ym_uploader.py:64-87 | the register carries out that long division, bit by bit over the whole message |
| `Crc16.BurstDetected` | gpm/tools/ym_uploader.py:74-87 | data that differ only within two consecutive bytes have different check sums, from every register |
| `Crc16.Residue` | gpm/tools/ym_uploader.py:161-165 | the two appended bytes bring the register to zero |
| `Ymodem.BuildFrame` | gpm/tools/ym_uploader.py:139-165 | the packet is built as the frame |
| `Ymodem.FrameLayout` | gpm/tools/ym_uploader.py:139-165 | byte by byte: 0x01 or 0x02 for 128 or 1024 bytes, number, complement, the data, padding of 0x00 in a header and 0x1A elsewhere, and the remainder, high byte first |
| `Ymodem.DamageRefused` | gpm/tools/ym_uploader.py:139-165 | a frame damaged within two consecutive bytes is refused, unless the damage is another number with its complement |
| `Ymodem.FrameResidue` | gpm/tools/ym_uploader.py:161-165 | every frame has residue zero |
| `Ymodem.FrameParses` | gpm/tools/ym_uploader.py:139-165 | a receiver recovers number and padded data from every frame of up to 1024 bytes |
| `Ymodem.FrameArrives` | gpm/tools/ym_uploader.py:139-165 | the receiver makes of a frame what it would make of the packet, and rejects packets of more than 1024 bytes |
| `Ymodem.NumbersCycle` | gpm/tools/ym_uploader.py:222-245 | data packets are numbered 1 to 255 and then from 1 again |
| `Ymodem.StoredOnce` | gpm/tools/ym_uploader.py:230-242 | the packet next in the cycle is stored once, however often it arrives |
| `Ymodem.Trimmed` | gpm/tools/ym_uploader.py:222-233 | only the last packet is padded, so the packets joined and cut to the file size are the file |
| `Ymodem.Transfer.SendPacket` | gpm/tools/ym_uploader.py:139-187 | True only if the receiver took the frame and acknowledged it |
| `Ymodem.Transfer.SendData` | gpm/tools/ym_uploader.py:230-242 | one to five copies of the packet are written; it is stored at most once, and the loop succeeds if and only if one of five is delivered both ways before a cancellation |
| `Ymodem.Transfer.SendContents` | gpm/tools/ym_uploader.py:222-246 | on every outcome the receiver holds the first packets of the file, all of them on success; what is written is packet k, with its number in the cycle and its 1024 bytes, one to five times, in order |
| `Ymodem.Transfer.SendFile` | gpm/tools/ym_uploader.py:189-291 | over every run the receiver holds the first packets of the file; True means it holds all of them and hence the file; what is written is the header, then each packet in order one to five times, then at most one empty packet; a clean line completes |
| `Ymodem.WireChecked` | gpm/tools/ym_uploader.py:161-168 | every frame written has residue zero |

## Left out

- C text output, temporary files, error exits and `stat`/`opendir` of gencromfs.c: the byte stream is modelled and the
  listing with each entry's mode and contents is the input. The target byte order is little-endian (`HOST_TGTSWAP` off),
  and host permission bits are the octal ones.
- CromfsReadback.ReadBack: images of 4 GiB and more are not covered; their offsets wrap in the source.
- Names longer than NAME_MAX in gencromfs.c, which `strncpy` would leave unterminated.
- NULL pool and a pool that wraps past 2^32: the pool of `RtxMem` is a word array at a base address whose end is at most
  2^32, and base 0 stands for NULL in `RtxMem.Pool.Init`.
- Locales: `tolower` is that of the C locale.
- Allocation failures in cJSON_Utils.c, and `compare_double`: JSON numbers are scalars compared by equality. Raw items,
  which `compare_json` takes for equal, are not values of the model.
- MergePatch.Merge: documents are values; cJSON.c's list functions are taken at what cJSON.h documents, so sharing of
  nodes and the stale `prev` of a sorted list's head are not visible.
- JsonValue.Arrange: members whose keys compare equal may come out in another order than from `sort_list`; for keys that
  are told apart (distinct, and distinct up to case when case is ignored) the orders agree
  (`JsonValue.SortListArranges`). Reordering of the arguments as a side effect of `compare_json` and
  `generate_merge_patch` is not tracked; it does not change their meaning.
- MergePatch.RoundTripExactly: says nothing of documents in which two keys at one place are the same, or the same up to
  case when case is ignored. Members are sorted with the case mode that is asked for but walked in byte order, and
  patches below the root are always generated ignoring case.
- MergePatch.MergeExactly: says nothing of targets with duplicate sibling keys, nor of patches with siblings that compare
  equal; what a patch does that repeats a key exactly is stated by `MergePatch.MergeApplies`.
- JsonPointer.FindThenGet: node identity is an id; object children without a key, on which the source crashes, are
  excluded by well-formedness. size_t is that of a 32-bit target.
- RFC 6902 patches, detach_path and decode_pointer_inplace of cJSON_Utils.c.
- Port handling, baud rates, the contents of OTP, serial number and chip replies, progress output, wall-clock time and the
  never enabled windowed acknowledgement of px_uploader.py. The erase deadline is a number of polls, and whether a
  revision 5 chip description has two parts is a parameter.
- UploadSession.Uploading.VerifyV2: READ_MULTI and GET_CRC are assumed to report what flash holds, and the read-back
  counts only when an acknowledged CHIP_VERIFY really rewound the read position.
- JSON and zlib decoding of the firmware file, and missing properties in its description.
- Directory walking and C output of mkgromfs.py. Base addresses are not negative, and names hold no NUL.
- Serial port, sleeps and the wording of the header packet of ym_uploader.py: the header is any byte string, waits for
  signals succeed or fail arbitrarily, and a reply that comes is never delayed past its wait nor turned into an ACK.
- The receiver of `Ymodem` follows the sender's numbering, 1 after 255; one that counts modulo 256 would reject packet
  256.
- boards/, gpm/include, gpm/fs, apps start-up code, tools/sensor_calibration, gpm/tools/analyze_armmap.py and
  tools/px_mkfw.py: registers, configuration, floating point, regular expressions or plumbing.
