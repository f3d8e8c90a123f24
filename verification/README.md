# A verified model of the ZFS rescue tool

The tool reads data out of damaged ZFS pools: it finds blocks on the disks of a RAID-Z vdev, repairs
what one lost disk held, checks and decompresses blocks, walks the trees of block pointers, and parses
the structures in them. This project models those parts, proves what each is for, and puts them
together. In a pool of any number of blocks written with single parity, do anything to any one disk: every
lookup in a tree of blocks (`LookupSurvives`), every dnode (`DnodeSurvives`), every read of a file
(`ReadsSurvive`) and every extraction (`FileSurvives`) gives what it gave before, exceptions included, if
the copies it tries lie in the pool. Those are the first copies of blocks of data, of indirect blocks the
copies up to the first verified one, and of blocks of dnodes the copies up to the first with data; of copies
that are not tried, such as null addresses, nothing is asked.

Every piece of code that works step by step is modelled step by step: a class or a method with the same
branches, loops, indices and error exits. Its contract ties the result to a function of the input, and
lemmas about that function state what the code promises. What writer and reader, or method and function,
have in common is pinned by lemmas that use neither: writers of their own for pointers, words, chunks and
lists, and formulas in the numbers of the format. Exceptions are values (`None`, `Raises`,
`Raise`, `Fails`). Disks, vdevs, character decoding and the depth of the Python stack are parameters.

Two devices keep the proofs quick: a predicate passed on as `P(...) == true` is handled as a whole, and
one stated under `Unfold(i) ==>` stays folded until `Unfold` is mentioned. Neither changes its meaning.

| files | part |
|---|---|
| `Arithmetic`, `Bytes`, `Copies` | facts of arithmetic; bytes, `^` and `\|` on naturals, big-endian numbers, pieces; overlapping copies |
| `Lz4Format`, `Lz4Encode` | what a parser of LZ4 blocks sees, and an encoder as specification |
| `Lz4Fast`, `Lz4Python`, `Lz4Agreement` | the C decoder with its overshooting copies, the Python decoder, and when they agree |
| `RaidzLayout`, `RaidzShape` | where the sectors of a transfer lie, and the arithmetic both maps share |
| `RaidzRepair`, `RaidzDevice`, `RaidzMapC` | parity, loss and repair; the Python device; the C map |
| `LzjbFormat`, `LzjbDecompress`, `LzjbRoundTrip`, `LzjbCompress`, `LzjbCompressLoop` | LZJB both ways |
| `Fletcher4`, `FletcherBytes` | the checksum, the changes it detects, and what it is in terms of bytes |
| `BlockDevice`, `BlockPointers` | block pointers, and a writer for them |
| `BlockTrees`, `BlockTreeCache`, `TreeBytes`, `ObjectSets` | trees of pointers, what they are in terms of bytes, dnodes by number |
| `Files`, `FileReads`, `FileReader` | file data: what it is, what reads of it do, the reader and extraction |
| `ReadPaths`, `PointerReads`, `Pools`, `VdevsAlike`, `PoolReads` | from a pointer and the disks to the block, and in the numbers of the format; many blocks on the same disks; trees and files after the loss of a disk |
| `NvFormat`, `NvRoundTrip`, `NvTruncated`, `NvParser` | packed name-value lists |
| `ZapLeaf`, `ZapRoundTrip`, `FatZaps` | leaf blocks of fat ZAPs |

Where the code and what is said of it differ, the model follows the code, and a lemma says exactly when
the promise holds:

* `lzjb_compress` reads one byte too far, and raises, when its run stops at the first of the last 66
  bytes with a table that points to where they repeat (`RaisesIff`, whose table is that of the run). A
  caller can look at the source alone: if its last 66 bytes do not repeat at a distance below 1024, there
  is a result and the round trip is the identity (`RoundTripComplete`); runs of 67, 133, 199, ... equal
  bytes raise (`RunOfOneByte`).
* Python's LZ4 decoder stops four bytes before the end of the block. On the blocks C accepts that have no
  zero offset it agrees with C exactly when the block produces nothing, or at least four literals end it
  and two bytes of harmless padding follow (`PythonAgreesIff`); blocks that end in a match, in an empty
  run or in fewer literals come out short (`ShortTail`). C accepts a zero offset and leaves old bytes in
  the output; Python appends nothing (`ZeroOffsetIff`).
* A lookup in a block tree drops the high digits of an id: it gives the leaf whose number is the id
  modulo the number of leaves (`LookupIsLeaf`).
* `BlockTree` takes the third copy of an indirect block even if its checksum is wrong (`LoadTakes`),
  and `ObjectSet` takes the first copy that has data without looking at the checksum (`GetDnode`).
* A reader without `bad_as_zeros` that comes to an unreadable block raises on every later read, and
  one that asks for more than there is sets `corrupted` (`Read`). It stops a read at a hole, but the next
  read goes on behind it, so that two reads can give more than one (`HoleSplitsReads`). Call ready the
  bytes in the buffer and the readable blocks before the next bad block or the end. A read of `a` and one of
  `b` bytes do what one of `a + b` bytes does exactly when `a` bytes are ready, or looking up or reading the
  next bad block raises, or a reader can go on behind it and `b` is 0 or nothing is ready there and the next
  halt does not raise either (`Joins`, `ReadsJoinIff`). With `bad_as_zeros`, or with no bad block, reads
  always join (`ReadsJoinIff`, `ReadsJoin`).

## Model

| member | source | states |
|---|---|---|
| Lz4Fast.Uncompress | de.c:412-539 | for every block, valid or not, every room and every old content of the output: all accesses stay in bounds, the loop ends, nothing at or after the room is written, the result is negative exactly for a block with an error and then minus the error's position, and otherwise the number of bytes produced; if no offset is zero those bytes are what copying one byte at a time gives |
| Lz4Fast.DecompressZfs | de.c:85-104 | the size in front of the block is checked against the buffer; success exactly if the block inside is accepted, and then the output starts with its expansion |
| Lz4Fast.Turn | de.c:431-530 | one turn of the main loop takes the branch and moves the pointers that the format says, and extends the output by the literals and the match |
| Lz4Fast.TurnMatch | de.c:469-530 | offset, match length and match; the error exits are taken for offsets before the output and matches that reach the end of the room |
| Lz4Fast.TurnLast | de.c:449-463 | the last literals are copied exactly if they fit and end the input, and otherwise nothing is written |
| Lz4Fast.CopyMatch | de.c:489-530 | for every offset from 1 up, overlapping or not: after the packets, the tail and the correction the output is what copying byte by byte from `offset` back gives |
| Lz4Fast.SecureCopy | de.c:348-349 | copying in packets from where the tables point keeps the period of the match, overshoots by less than a packet, and stays inside the room |
| Lz4Fast.FirstPacketShort | de.c:490-505 | four single bytes and four more from where dec32table points make eight bytes of the period, and leave `op - ref` as dec64table wants it |
| Lz4Fast.StepsAreMultiples | de.c:425-428 | both steps back that the tables make are whole numbers of periods, at least 4 and 8 long, and land on bytes that already have the period |
| Lz4Fast.PeriodGrows | de.c:489-530 | copying from a whole number of periods back extends the period, whatever the step |
| Copies.PeriodicIsCopyBack | de.c:489-530 | a match whose bytes all equal those `offset` before is what copying one byte at a time writes, overlapping or not; used for both LZ formats |
| Lz4Fast.WildCopyLiterals | de.c:465-467 | literals copied in packets: exactly the literals appear before `cpy`, reads stay in the block, writes below the end of the room |
| Lz4Fast.ReadLength | de.c:435-443 | a length is its nibble and, if that is 15, the bytes that extend it up to the first that is not 255 or the end of the input |
| Lz4Format.NextSequenceIs | de.c:431-530 | one turn in one formula with the numbers of the format: where literals, offset and match length lie, eight bytes of room or the end of the block, offsets at most the output, matches that stay below the room, and the position of each of the three errors |
| Lz4Encode.ParseEncode | de.c:431-531 | the decoder's parser accepts every block that obeys the end-of-block conditions of the LZ4 block format and sees just the sequences that were encoded |
| Lz4Python.Decompress | zfs/lz4zfs.py:6-62 | the loop with its exceptions computes what the plan read from the input alone yields |
| Lz4Python.Turn | zfs/lz4zfs.py:17-57 | one turn: literals by a slice that may fall short, an offset that needs two bytes, a match byte by byte |
| Lz4Python.ReadLength | zfs/lz4zfs.py:22-28 | the same length as in C, but an index past the input raises and the bound is the declared size |
| Lz4Python.PyExtensionIs | zfs/lz4zfs.py:24-28 | length bytes in one formula: up to the first that is not 255 or the declared end; an index error exactly if they run past the input |
| Lz4Python.SliceIs | zfs/lz4zfs.py:33-57 | a slice in one formula, with negative bounds |
| Lz4Python.DecodeFails | zfs/lz4zfs.py:11-62 | an exception exactly for fewer than four bytes, nothing exactly for any other failure |
| Lz4Agreement.PyCopyIsCopyBack | zfs/lz4zfs.py:55-57 | appending one-byte slices is the copy of the format for offsets in range, and appends nothing for offset zero |
| Lz4Agreement.ShortTail | zfs/lz4zfs.py:11-28 | on every accepted block that produces something and does not end in at least four literals, Python's output is too short: its bound drops the token of the last literals, or length bytes of the last match |
| Lz4Agreement.PythonAgreesIff | zfs/lz4zfs.py:11-57 | on every block C accepts that has no zero offset, Python returns the same bytes if and only if there are none, or at least four literals end the block and two bytes of padding follow that spell an offset which copies nothing |
| Lz4Agreement.ZeroOffsetIff | zfs/lz4zfs.py:36-57 | with zero padding, on every block C accepts, Python returns as many bytes as C if and only if no offset is zero and the block produces nothing or ends in at least four literals |
| Lz4Agreement.BothDecode | zfs/lz4zfs.py:6-62 | every framed block that obeys the end-of-block conditions, but for a single run of fewer than four literals, is accepted by C, given any room from its length up, and with zero padding both decoders give its expansion |
| RaidzLayout.LayoutCells | zfs/zio.py:249-315 | the device sectors of all columns, with or without the swap at every megabyte, are exactly the places of a contiguous range of parent sectors |
| RaidzLayout.CellsDistinct | zfs/zio.py:249-315 | and each of them is covered once |
| RaidzLayout.DevicesDistinct | zfs/zio.py:289-313 | the columns of one transfer lie on different devices |
| RaidzLayout.DisjointTransfers | zfs/zio.py:249-315 | transfers with disjoint ranges of parent sectors share no sector of any device |
| RaidzLayout.LayoutStarts | zfs/zio.py:249-315 | column `c` lies on device `(b + c) % dcols` from row `(b + c) / dcols` on, `b` being the first parent sector; with single parity columns 0 and 1 have changed places where bit 20 of the offset is set |
| RaidzLayout.AllRows | extractor/zio.cpp:195-207 | the rows of the columns that get a slice of the I/O buffer add up to the data sectors |
| RaidzMapC.SizesAddUp | extractor/zio.cpp:162-189 | the rows of all columns, parity and skipped ones included, add up to all sectors of the transfer, which is what the code asserts |
| RaidzShape.Shape | zfs/zio.py:252-269 | first column, row offset, quotient and big columns are those of the deal |
| RaidzShape.Extent | zfs/zio.py:277-283 | the columns accessed are those that get a sector; accessed or skipped are as many as the sectors rounded up to a multiple of parity plus one, but at most all devices |
| RaidzDevice.RaidzDevice.DealColumns | zfs/zio.py:287-303 | the loop that wraps around the devices and drops empty columns makes just the columns of a round-robin deal |
| RaidzDevice.RaidzDevice.MapAlloc | zfs/zio.py:249-315 | the map is the layout, for any size and any parity below the number of devices, and its columns start in turn, swapped in every second megabyte with single parity; an index error exactly when the swap meets an empty transfer |
| RaidzDevice.RaidzDevice.FoldInto | zfs/zio.py:244-247 | the buffer becomes its exclusive or with the shorter piece, and stays beyond it |
| RaidzDevice.RaidzDevice.Split | zfs/zio.py:204-210 | cutting the buffer of readv gives back the columns |
| RaidzDevice.RaidzDevice.Rebuild | zfs/zio.py:229-238 | folding in place all columns but the bad one over the parity column |
| RaidzDevice.RaidzDevice.RepairColumns | zfs/zio.py:225-238 | only a column after the first on the first bad device is replaced |
| RaidzDevice.RaidzDevice.ReadPhysical | zfs/zio.py:180-242 | nothing above 8 TB, an exception or nothing for empty transfers, and otherwise the repaired data columns in order |
| RaidzDevice.PhysicalByte | zfs/zio.py:180-315 | which byte of which device each byte of an unrepaired read is, in numbers: device and row of its column, behind four megabytes of labels |
| RaidzDevice.PhysicalFails | zfs/zio.py:180-184 | no data exactly above 8 TiB, and an exception exactly for less than a sector where the swap is due |
| RaidzRepair.FoldRebuilds | zfs/zio.py:229-247 | if column 0 is the parity of columns of different lengths, folding all others rebuilds any one of them |
| RaidzRepair.PiecesMakePayload | zfs/zio.py:239-242 | a payload cut along the data columns is given back by putting the data columns together in order |
| RaidzRepair.SurvivesOneDisk | zfs/zio.py:180-315 | write a payload with single parity, overwrite any one device in any way, read with repair of that device: the payload comes back, whether the device held parity, data or nothing of it |
| RaidzRepair.UnrepairedIff | zfs/zio.py:225-242 | without repair the payload comes back if and only if no data column was changed |
| RaidzMapC.MapAlloc | extractor/zio.cpp:96-245 | for every unit, every parity from 1 to below the number of devices and at least one sector, the map has the layout, its columns start in turn, swapped in every second megabyte with single parity, and its own assertions hold: padding is a whole number of sectors, at most the parity, and rounds up to a multiple of parity plus one; columns 0 and 1 are equal in size |
| RaidzMapC.Fill | extractor/zio.cpp:162-189 | the fields of all columns, and their sizes add up to all sectors of the transfer |
| RaidzMapC.AttachData | extractor/zio.cpp:199-207 | each data column gets the slice of the I/O buffer that starts where the one before ends |
| RaidzRepair.Tiling | extractor/zio.cpp:195-207 | the slices of the data columns start at 0, each where the one before ends, and end with the data |
| RaidzMapC.Pad | extractor/zio.cpp:190-193 | rounding up bytes and rounding up sectors agree |
| RaidzMapC.Swap | extractor/zio.cpp:229-238 | the swap exchanges places but neither sizes nor buffers |
| LzjbDecompress.Decompress | zfs/lzjb.py:129-167 | it ends on every input, with the bytes left and then the flags left as measure, and never holds more than `dlen` bytes |
| LzjbDecompress.CopyLoop | zfs/lzjb.py:159-163 | an overlapping copy that stops at `dlen`, and raises where the source index is past the output |
| LzjbDecompress.TakeFails | zfs/lzjb.py:148-167 | what ends decompression at an item: nothing for a copy that starts before the output, an index error for a cut copy, a missing literal, or a copy from offset zero |
| LzjbRoundTrip.DecodesItems | zfs/lzjb.py:141-167 | every packed run of items that fit their fields is decoded to what the items mean, from any flag position |
| LzjbRoundTrip.ZerosEnd | zfs/lzjb.py:141-167 | once `dlen` bytes are there, any number of zero bytes is taken without effect |
| LzjbFormat.PackBound | zfs/lzjb.py:98-126 | a packed run has at most one byte for each byte it stands for and one for every eight |
| LzjbCompress.ChooseIsTrue | zfs/lzjb.py:111-126 | whatever the table holds, stale or colliding, a literal is the byte at hand and a copy repeats what stands `offset` before, with a length from 3 to 66 and an offset from 1 to 1023; and the match loop fails exactly if the last 66 bytes repeat at that offset |
| LzjbCompress.SlotIs | zfs/lzjb.py:107-110 | the slot of three bytes, in one formula |
| LzjbCompress.UnseenSlot | zfs/lzjb.py:95-113 | a position whose slot has not been set is compared with the last multiple of 1024 |
| LzjbCompress.ItemsMeanSource | zfs/lzjb.py:98-126 | the items emitted from any position and with any table fit, stay in range, and mean the rest of the source |
| LzjbCompress.RoundTrip | zfs/lzjb.py:81-167 | decompressing the compressed bytes, followed by any number of zero bytes, gives the source |
| LzjbCompress.ExpansionBound | zfs/lzjb.py:98-126 | the output has at most one byte more for every eight of the source |
| LzjbCompress.RaisesIff | zfs/lzjb.py:117-119 | compression raises exactly when the run stops at the first of the last 66 bytes and the table there points to where they repeat |
| LzjbCompress.RoundTripComplete | zfs/lzjb.py:81-167 | there is a result, and it decompresses to the source, for every source whose last 66 bytes do not repeat at a distance below 1024 |
| LzjbCompress.RunOfOneByte | zfs/lzjb.py:117-119 | a run of one byte value makes compression raise exactly if it has more than one byte and one byte more than a multiple of 66 |
| LzjbCompressLoop.OpenEmit | zfs/lzjb.py:116-126 | setting a bit of the flag byte in place and appending an item leaves the output that is to come unchanged |
| LzjbCompressLoop.CopyOrLiteral | zfs/lzjb.py:113-126 | the branch of the loop emits the chosen item, or fails in the match loop |
| LzjbCompressLoop.Turn | zfs/lzjb.py:104-126 | one turn hashes, reads and updates the table, and emits the next item |
| LzjbCompressLoop.Compress | zfs/lzjb.py:81-126 | the loop with its table, its mask and its patched flag byte returns the packed items, or raises when the items say so |
| BlockTrees.LoadTakes | zfs/blocktree.py:60-68 | of the copies, read in order, the first that raises or has data and a right checksum decides, and without one the third, right or wrong |
| BlockTrees.DigitsValue | zfs/blocktree.py:70-77 | the digits of an id are those of its remainder by the number of leaves, so below that they are injective |
| BlockTrees.DigitsInjective | zfs/blocktree.py:70-77 | different ids below the number of leaves have different digits |
| BlockTrees.WalkIsLeaf | zfs/blocktree.py:79-112 | a walk down a path of digits ends at the leaf, left to right, that has the number with those digits, also where subtrees are broken |
| BlockTrees.LookupIsLeaf | zfs/blocktree.py:70-112 | looking up any id gives the leaf numbered by the id modulo the number of leaves |
| BlockTreeCache.WalkIs | zfs/blocktree.py:79-112 | what following digits comes to: the pointer at their end exactly if all blocks on the way and the last index are there, missing exactly if an indirect block on the way has no data, and otherwise an exception |
| BlockTreeCache.LookupEdges | zfs/blocktree.py:79-86 | negative ids, trees of one level, trees without levels or pointers |
| TreeBytes.PointersJoin | zfs/blockptr.py:179-190 | the pointers of a block, put together in order, are its bytes without a rest of fewer than 128 |
| TreeBytes.LookupIsSlot | zfs/blocktree.py:70-112 | in a complete tree, looking up any id gives bytes `[128 k, 128 k + 128)` of the lowest indirect blocks put together from left to right, `k` being the id modulo the number of pointers there |
| BlockTreeCache.BlockTree.Open | zfs/blocktree.py:46-58 | a tree has the single pointer or the pointers of its root block; it cannot be made exactly if that block has no data or reading it raises |
| BlockTreeCache.BlockTree.LoadFromBptr | zfs/blocktree.py:60-68 | the loop over three copies |
| BlockTreeCache.BlockTree.LevelIndices | zfs/blocktree.py:70-77 | the loop that appends remainders and then reverses gives the digits, highest first |
| BlockTreeCache.BlockTree.Get | zfs/blocktree.py:79-112 | with the cache as earlier lookups left it, a lookup gives what it would give without one, and the cache stays right |
| ObjectSets.DnodeIsSlice | zfs/objectset.py:86-107 | dnode `id` is the 512 bytes from `512 * id` on of the leaves' blocks put together |
| ObjectSets.FirstDataTakes | zfs/objectset.py:97-100 | of the copies, read in order, the first that raises or has data decides, whatever its checksum, and without one the third |
| ObjectSets.DnodeFails | zfs/objectset.py:86-107 | when a dnode number raises, and when it has no answer |
| ObjectSets.ObjectSet.GetDnode | zfs/objectset.py:86-107 | with both caches as earlier calls left them, for every id, negative ones too: the answer is the one without caches, and the caches stay right |
| FileReader.FileObj.Fetch | zfs/fileobj.py:61-68 | the next block, broken tree, hole, unreadable or readable, and the block number moves on unless the lookup raises |
| FileReader.FileObj.Refill | zfs/fileobj.py:56-81 | when the buffer is used up: the next block, zeros for a bad block or past the end, or the end of the read |
| FileReader.FileObj.Read | zfs/fileobj.py:48-86 | any sequence of reads returns consecutive pieces of the blocks put together, bad ones as zeros if so asked, and zeros after the last; with `bad_as_zeros` exactly as many bytes as asked for; otherwise never a byte that is not in the file, and, when no block is bad, as many as asked for or all that are left |
| FileReads.TrackedIsStream | zfs/fileobj.py:48-89 | all bytes returned so far are the first `tell()` bytes of the stream, and without `bad_as_zeros` they lie within the file |
| FileReads.ReadLength | zfs/fileobj.py:48-86 | how many bytes a read gives, with `bad_as_zeros` and when no block is bad |
| FileReader.FileObj.Tell | zfs/fileobj.py:88-89 | `tell` is the number of bytes returned |
| Files.BlockIsLeaf | zfs/fileobj.py:61-68 | block `k` of a file is what leaf `k` of its tree, from the left, reads |
| FileReads.ReadsCompose | zfs/fileobj.py:48-86 | one read of `a + b` bytes does what a read of `a` bytes does and, if that comes up full, a read of `b` bytes after it: the same bytes, the same state of the reader, the same exception |
| FileReads.ReadGives | zfs/fileobj.py:48-86 | without `bad_as_zeros`: a read gives what it is asked for if that many bytes are ready before the next bad block or the end; otherwise all that are ready, and it leaves the reader behind the bad block or at the end, or raises if the block does |
| FileReads.ReadSucceedsIff | zfs/fileobj.py:48-86 | which reads raise, in terms of the blocks and the buffer |
| FileReads.ReadsJoinIff | zfs/fileobj.py:48-86 | for any file, any state of a reader and any lengths: two reads do what one read of both lengths does, exceptions included, if and only if a condition on the blocks and the buffer holds that can be looked up before the calls |
| FileReads.JoinsByResults | zfs/fileobj.py:48-86 | and in terms of the results: if and only if the first comes up full or the second gives nothing; if the second raises, so does the one, exactly when the first comes up full |
| FileReads.ReadsJoin | zfs/fileobj.py:48-86 | with `bad_as_zeros`, or when no block is bad, two reads always join |
| FileReads.HoleSplitsReads | zfs/fileobj.py:72-77 | an input on which they do not: four bytes, a hole, four bytes |
| FileReader.ReadBothWays | zfs/fileobj.py:48-86 | the same of three calls of `read` on two readers of one file: equal results, exceptions included, if and only if the condition on the blocks and the buffer holds |
| FileReader.WriteBlocks | zfs/dataset.py:387-404 | all blocks in order, bad ones as zeros; `corrupted` exactly if there was a bad one |
| FileReader.ExtractFile | zfs/dataset.py:368-412 | refused exactly for an empty first pointer and a size; otherwise the target holds the blocks put together, cut to the size |
| FileReader.ExtractionIs | zfs/dataset.py:368-412 | refused exactly for an empty first pointer and a size; failing exactly if the root or, for a size, a block raises; otherwise min(total, size) bytes, the total counting bad blocks with the block size, and complete exactly if the size is zero or every block can be read |
| FileReader.OffsetsKept | zfs/dataset.py:386-409 | in what is extracted byte `r` of block `q` lands at `q * blksize + r`, and bad blocks leave zeros of just their length |
| FileReader.ExtractedIsRead | zfs/dataset.py:386-409 | whatever is extracted, a new reader of the file with `bad_as_zeros`, asked for as many bytes, gives just that |
| Fletcher4.WeightClosed | zfs/blockptr.py:203-212 | the weights of a word in the four sums are 1, m, m(m+1)/2 and m(m+1)(m+2)/6 for the m-th word from the end |
| Fletcher4.Compute | zfs/blockptr.py:193-213 | the loop gives the weighted sums modulo 2^64, and raises exactly if the length is no multiple of four |
| FletcherBytes.ChecksumOfWords | zfs/blockptr.py:193-213 | the checksum of the bytes of words written lowest byte first: each word counted 1, m, m(m+1)/2 and m(m+1)(m+2)/6 times, modulo 2^64 |
| FletcherBytes.ChecksumOfBytes | zfs/blockptr.py:193-204 | there is one exactly for whole words, and all bytes are of that form |
| Fletcher4.WrappedIsMasked | zfs/blockptr.py:209-213 | masking once at the end equals wrapping to 64 bits at every step |
| Fletcher4.SumsOfConcatenation | zfs/blockptr.py:199-213 | the sums of two buffers, one after the other, follow from the sums of each and the length of the second |
| Fletcher4.DetectsTwo | zfs/blockptr.py:193-213 | in fewer than 2^31 words any change of one or two words changes the checksum |
| Fletcher4.DetectsThree | zfs/blockptr.py:193-213 | in at most 128 KiB any change of up to three words changes the checksum |
| ReadPaths.ReadBlock | zfs/zio.py:72-142 | for any pointer and any content of the disks: empty, gang and embedded pointers, the smallest read of one sector, the checksum of the stored bytes, the decompressor by its number, cutting or padding to the length, and an exception or nothing in each case where the code gives them |
| BlockPointers.ReadsSizes | zfs/blockptr.py:86-94 | from a pointer written byte by byte: sizes of 512 times the sectors stored less one, compression, kind of checksum, and that it is not embedded |
| BlockPointers.ReadsDva | zfs/blockptr.py:37-43 | the offset of each copy, 512 times its sector, and the gang bit above it; a copy number above 2 means the first |
| BlockPointers.ReadsEmpty | zfs/blockptr.py:55-57 | a pointer is empty exactly if device, size and sector of all three addresses are zero |
| BlockPointers.ReadsSums | zfs/blockptr.py:102 | the four words of the checksum |
| BlockPointers.ReadsEmbedding | zfs/blockptr.py:103-111 | from an embedded pointer: its 112 bytes of data in order, its sizes in bytes, no offset, and that it is not empty |
| PointerReads.ReadHasLength | zfs/zio.py:138-142 | whatever is read at a pointer to n sectors has exactly 512 n bytes |
| PointerReads.PlainBlockReturns | zfs/zio.py:72-142 | a block of n sectors, stored as it is and padded, written with parity at the address of a pointer with these fields, comes back whole after the loss of a disk |
| PointerReads.LzjbBlockReturns | zfs/zio.py:72-142 | the same for LZJB, numbers 1 and 3 |
| PointerReads.Lz4BlockReturns | zfs/zio.py:72-142 | the same for LZ4, number 15 |
| PointerReads.UnpackByNumber | zfs/zio.py:43-62 | which decompressor each number stands for |
| PointerReads.VerdictIs | zfs/zio.py:98-105 | stored bytes are found right exactly if the checksum is of another kind than 7 or the Fletcher-4 sums of the first 512 n bytes are those of the pointer, n being its stored size; an exception exactly if there are no such sums |
| PointerReads.NotRead | zfs/zio.py:72-105 | null pointers, gang blocks, and copies above 8 TiB, with the exception or the missing data of each |
| PointerReads.EmbeddedRead | zfs/zio.py:91-142 | embedded data is decompressed, and cut or padded, without a checksum; a stored size of zero means no data |
| ReadPaths.RepairedRead | zfs/zio.py:94-105 | what was written with parity is what checksum and decompression get, whatever was done to the disk that is repaired |
| ReadPaths.IntactRead | zfs/zio.py:94-105 | and also without repair, if nothing was done to the disks |
| ReadPaths.LzjbBlockSurvives | zfs/zio.py:72-142 | compress a block with LZJB, pad it to sectors, write it with parity, do anything to any one disk, read with repair of it: `read_block` gives the block, with its checksum right |
| ReadPaths.Lz4BlockSurvives | zfs/zio.py:72-142 | the same for an LZ4 frame that obeys the end-of-block conditions and is followed by two zero bytes |
| ReadPaths.PlainBlockSurvives | zfs/zio.py:72-142 | and for a block that is not compressed |
| ReadPaths.DamageIsNoticed | zfs/zio.py:98-105 | bytes that differ from what the pointer's checksum describes in one or two words below the stored size are returned with a wrong checksum, if they are returned |
| Pools.NoCommonByte | zfs/zio.py:249-315 | transfers whose ranges of parent sectors do not meet have no byte of any device in common |
| Pools.Kept | zfs/zio.py:180-315 | after any number of transfers written one after the other, what a transfer wrote is still there, parity included, if none of the later ones meets it |
| PoolReads.BlockSurvives | zfs/zio.py:72-315 | in such a pool, whatever is done to any one disk, a device that repairs it reads every block that was not overwritten as before: the same bytes, the same nothing, the same verdict of the checksum, the same exception |
| VdevsAlike.LookupAlike | zfs/blocktree.py:60-112 | a lookup depends only on the indirect blocks on its path, and of each on the copies up to the first verified one |
| VdevsAlike.DnodeAlike | zfs/objectset.py:86-107 | a dnode depends on those, and on the copies of its block up to the first with data |
| VdevsAlike.ReadingAlike | zfs/fileobj.py:48-86 | a read depends only on the blocks up to the last of the file |
| VdevsAlike.ExtractionAlike | zfs/dataset.py:368-412 | an extraction depends on the indirect blocks that looking up blocks 0 to the last visits, up to their first verified copies, and on the first copies of the blocks of data found; on none of them if it is refused or the size is zero |
| PoolReads.FirstCopySuffices | zfs/blocktree.py:62-68 | of an indirect block whose first copy is verified, and of a block of dnodes whose first copy has data, only that copy has to lie in the pool |
| PoolReads.LookupSurvives | zfs/blocktree.py:79-112 | after the loss of any one disk of the pool a lookup gives what it gave before, if the indirect blocks it visits lie in the pool, each with the copies up to the first that was verified |
| PoolReads.DnodeSurvives | zfs/objectset.py:86-107 | and so does a dnode, if its block does with the copies up to the first that had data |
| PoolReads.ReadsSurvive | zfs/fileobj.py:48-86 | and so does any read from any state of a reader, if the first copies of the file's blocks do |
| PoolReads.FileSurvives | zfs/dataset.py:368-412 | and so does the extraction of a file of any depth, under the same condition on the blocks it visits; exceptions in reads included |
| NvParser.TypedBytesIO.ReadString | zfs/nvpair.py:77-81 | a string as its length says, cut by the end of the data, and an exception for bytes that are not ASCII |
| NvRoundTrip.ReadsStringIff | zfs/nvpair.py:77-81 | an encoded string is read exactly if all its bytes have seven bits |
| NvParser.ParseValue | zfs/nvpair.py:131-142 | one item by its type, nested lists by recursion |
| NvRoundTrip.ReadsRaw | zfs/nvpair.py:141-142 | a value of an unknown type takes what is said to be left of the pair, or all to the end if that is less, or negative |
| NvParser.ParseItems | zfs/nvpair.py:128-143 | the items of a pair, one after the other from the stream |
| NvParser.Parse | zfs/nvpair.py:103-147 | for any bytes: the dictionary and the stream position, or an exception |
| NvRoundTrip.ReadsPayload | zfs/nvpair.py:128-146 | the items of any encoded payload are read back, nested lists and arrays of lists included |
| NvRoundTrip.RoundTrip | zfs/nvpair.py:64-147 | parsing an encoded list, whatever follows it, gives its dictionary and takes exactly its bytes; arrays of one list are unwrapped, and later pairs win |
| NvFormat.MeaningIs | zfs/nvpair.py:144-146 | a list of one item stands for the item, and any other for itself |
| NvTruncated.TruncatedRaises | zfs/nvpair.py:64-147 | parsing any proper prefix of an encoded list raises, wherever it is cut, although strings and raw values by themselves are cut without complaint |
| ZapRoundTrip.FollowsList | zfs/zap.py:209-220 | following a well-typed chain of array chunks joins their data, if the stack is as deep as the chain |
| ZapRoundTrip.FollowedIff | zfs/zap.py:209-220 | in a block of whole chunks, following from a chunk succeeds if and only if a well-typed chain, no longer than the stack is deep, starts there |
| ZapRoundTrip.RingRaises | zfs/zap.py:209-220 | array chunks that lead round in a circle make it raise, however deep the stack |
| ZapRoundTrip.ChainRingRaises | zfs/zap.py:188-207 | and so do entries that lead round in a circle |
| ZapRoundTrip.FollowsChain | zfs/zap.py:188-207 | following the entries of a slot adds them all, in order |
| ZapRoundTrip.ReadsFields | zfs/zap.py:193-195 | each field of an entry is read from where a writer of its twelve bytes put it |
| ZapRoundTrip.ChunkFails | zfs/zap.py:188-198 | when an entry chunk raises, and when it ends the chain |
| ZapRoundTrip.LastChunk | zfs/zap.py:209-220 | array chunks cut short by the end of the block |
| ZapRoundTrip.TakeIs | zfs/zap.py:196-197 | cutting to a length, also one that is too long or negative |
| ZapRoundTrip.ValueIs | zfs/zap.py:201-204 | eight bytes are the number they spell, highest first, and any others are themselves |
| ZapRoundTrip.ParsesLeaf | zfs/zap.py:168-220 | parsing a leaf block adds exactly the entries a writer stored in its chains; of equal names the last wins |
| ZapRoundTrip.ParsesDistinct | zfs/zap.py:168-220 | with distinct names the keys are the names and each has its value, eight bytes as a big-endian number |
| FatZaps.FatZap.FollowCollisionChain | zfs/zap.py:188-207 | the entries of the object after the recursive call, or an exception |
| FatZaps.FatZap.ParseZapBlock | zfs/zap.py:168-186 | the entries of the object after all 512 slots, or an exception |

## Left out

- Lz4Fast.Uncompress: pointers are unbounded, so `cpy < op`, which catches a pointer that wraps around (de.c:447-448), cannot happen; the 64-bit build is modelled, with steps of eight bytes.
- Lz4Fast.Uncompress: with a zero offset the output is left open, because C then keeps old bytes of the output; the result code is still stated.
- extractor/lz4.cpp holds the same decoder as de.c; it is modelled once.
- RaidzDevice.RaidzDevice.ReadPhysical: debugging dumps and the parity check whose result is not used are left out; parity 0, which the device does not support, is excluded, and `bad` is a list.
- RaidzRepair.SurvivesOneDisk: is about payloads of whole sectors, single parity and one lost device, which is all that the code can repair.
- RaidzMapC.MapAlloc: 64-bit wrap-around is not modelled, and the fields that are only set to zero are left out.
- LzjbCompressLoop.Compress: the output starts empty; appending to a given buffer is left out, as it is for decompression.
- `size_encode` and `size_decode` (zfs/lzjb.py:39-78): an easy codec that nothing else here uses.
- ReadPaths.ReadBlock: gzip is a parameter; debugging dumps are left out, and pointers are read as on a little-endian machine.
- PoolReads.BlockSurvives: payloads are written in one transfer each, of whole sectors; which transfers a pool makes is given, as is that the live ones were not overwritten.
- BlockTreeCache.BlockTree.Get: the nested dictionaries of the cache are one map from paths to arrays, and an entry for a block that could not be loaded is not kept, which changes nothing because it is tried again.
- ObjectSets.ObjectSet.GetDnode: gives the bytes of a dnode; what they mean is not modelled.
- FileReader.FileObj.Read: negative lengths are left out, and so is a block size of zero together with `bad_as_zeros`, for which reading past the end does not terminate. After an exception in a lookup or a read the state is not described, because the bytes taken from the buffer are lost.
- FileReader.ExtractFile: the target is its bytes; messages and the list of problem files are left out.
- Fletcher4.DetectsThree: four changed words, which the fourth sum would catch in short buffers, are not claimed.
- NvRoundTrip.RoundTrip: raw payloads have one item; with more, the code reads the whole payload for each (zfs/nvpair.py:142), which `NvParser.ParseValue` models. The limit of the Python stack is not modelled here.
- ZapRoundTrip.ParsesLeaf: the writer is any block in which the chains are right; how free chunks are managed is not modelled. Arrays of values stay raw bytes, as in the code.
- The pointer table of a ZAP, micro ZAPs, system attributes, mirrors, gzip, the block server and its client, FUSE, archives and reports: glue around the parts above.
