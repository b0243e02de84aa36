# GPTL boot loader: verified model

GPTL is a small RISC-V boot loader. It finds a GPT partition that holds a packed image, loads the
parts of the image, edits the device tree and hands over to OpenSBI on all harts at once. This
project models the parts of it in which bytes have to mean the same thing to two pieces of code, or
harts have to agree, and proves that they do.

**Device tree** (`Bytes`, `Endian`, `FdtFormat`, `FdtReference`, `DtNode`, `FdtReader`, `FdtWriter`,
`FdtRoundTrip`, `FdtLayout`, `DtEdit`, `DtPath`, `DtProps`, `DtCells`, `DtPathCells`, `DtReg`, `DtCompat`,
`FdtReserveMap`, `ModifyDt`, `LinkedList`). `FdtFormat` says what the bytes of a flattened device tree
mean (Devicetree Specification v0.3, sections 5.2 to 5.5), as a predicate on byte strings that knows
neither the reader nor the writer and leaves padding unconstrained. `FdtReference` reads the same
format straight from the specification, with its own numbers, tokens and 4-byte boundaries, and the
two are proved to say the same of every byte string. The reader and the writer are imperative: cursors
move, a heap of `Node` objects is built and changed in place, an array is filled. Both are proved
against the predicate, the predicate is proved to be unambiguous, and so they are inverse to each other
for every tree and for any earlier contents of the destination. `ModifyDt.Modify` puts reader, editor
and writer together as `modify_dt` does.

**Barrier** (`SmpBarrier`). `smp_wait` as any number of harts whose atomic steps on the counter
(`Enter`, `Pass`, `Decrement`, `Exit`, `Spin`) interleave in any order over any number of rounds, and
the two statics that `main` publishes through it. Safety is unconditional. Progress is not: the exact
condition under which all harts can still get out is proved, and that every run gets them out once
all have passed the first loop, as long as none starts another round.

**Block reads** (`SdCrc`, `ByteBits`, `SdCard`, `BlockRead`, `GptDisk`, `Gptl`, `DiskCard`). A card is a
function from everything that was sent to it to the next byte it answers; `sd_copy` is proved against
any such card, byte by byte on the wire, `fu540_read` on top of it against a card that holds a disk,
and the partition search on top of that, on disks whose partition table `GptDisk` reads in its own
terms. The checksum is proved to be the remainder of the polynomial division of the SD Physical Layer
Simplified Specification, section 4.5. `DiskCard` gives, for every disk, a card that meets everything
the theorems ask of a card.

**The way through** (`BootChain`). An image packed with a device tree, on a disk behind a card, becomes
the edited device tree in the buffer that is handed on: one theorem over packer, card protocol,
unaligned reads, partition search, reader, editor and writer.

**Images and numbers** (`GptlImage`, `Gptl`, `NumberFormat`). The packer, the unpacker and the loader
of the boot chain, which share nothing but the image format; and number printing, with a reader in
the manner of `strtol` as its partner.

Three statements about the code as written are limits rather than promises, each with the exact
condition:

- a reserve map survives flattening only if the source blob's map follows its header, because the
  header's `reserve_map_offset` is copied while the map always goes behind the header
  (`FdtReserveMap.MapSurvives`, `FdtReserveMap.LoseMap`);
- `strnlen` counts up while its bound counts down, so the scan of a "compatible" property can land
  inside an entry: it finds every entry, and also the ends of entries that are longer than half of
  what is left of the list (`DtCompat.MatchComplete`, `DtCompat.MatchExact`, `DtCompat.MatchUnsound`);
- a `u` conversion with `+` or a space flag counts a sign it never prints and comes out one character
  short when it is padded (`NumberFormat.FormattedLength`).

The comment at `src/device_tree.c:558-559` asks callers for paths without a leading, trailing or double
slash; the code accepts them and treats the empty component as a name, and so does the model.

Preconditions common to the device tree modules: names contain no NUL, a reserve entry has a
non-zero size (a zero size is the terminator), the whole blob is smaller than 4 GiB, and source and
destination do not overlap. The first two hold of everything that was read from a blob
(`FdtRoundTrip.BlobGood`).

## Model

| member | source | states |
|---|---|---|
| FdtFormat.NodeUnique | src/device_tree.c:178-217 | a byte string stores at most one tree at an offset: names, values, order and nesting are all determined by the bytes |
| FdtFormat.BlobUnique | src/device_tree.c:241-273 | a blob has at most one meaning: header size, reserve map and root |
| FdtFormat.NodeFrame | src/device_tree.c:379-408 | a stored node stays stored when bytes outside its structure range and the strings range change and the strings range grows |
| FdtFormat.PropToken | src/device_tree.c:198-207 | the word after k properties is a PROPERTY token exactly when there are more than k, which is what ends the property loops |
| FdtFormat.KidToken | src/device_tree.c:209-214 | the word after k children is BEGIN_NODE when there are more and END_NODE otherwise, which is what ends the child loops |
| FdtFormat.StoredNulFree | src/device_tree.c:62-72 | no name that can be read from a blob contains a NUL |
| Endian.Word32Is | includes/endian.h:31 | a word of the blob is the number its four bytes store, most significant first |
| Endian.Word64Is | src/device_tree.c:219-239 | so is a 64-bit number |
| Endian.Be32Is | includes/endian.h:25 | what is stored of a number below 2^32 are four bytes that say it, most significant first |
| Endian.Be64Is | includes/endian.h:26 | what is stored of a number below 2^64 are eight bytes that say it, most significant first |
| FdtReference.SizesAligned | src/device_tree.c:279-315 | properties, names, nodes and any number of them take multiples of 4 bytes, less than 4 more than their content for each part: every token lies on a 4-byte boundary of the structure block (Devicetree Specification v0.3, section 5.4.1) |
| FdtReference.NodeRead | src/device_tree.c:178-217 | every stored node is what the specification's reading finds at its place, with the same end, on a 4-byte boundary |
| FdtReference.NodeReadBack | src/device_tree.c:178-217 | and everything that reading finds is stored |
| FdtReference.BlobIsReference | src/device_tree.c:241-273 | a byte string is a blob that means m if and only if reading it as sections 5.2 to 5.5 say, in literal offsets, tokens and boundaries, gives m |
| FdtReader.NextProperty | src/device_tree.c:36-60 | returns the stored property and the bytes it takes with padding, or 0 at any other token |
| FdtReader.NodeName | src/device_tree.c:62-72 | returns the stored name and the bytes up to the properties, or 0 at any other token |
| FdtReader.SkipNode | src/device_tree.c:134-152 | terminates and returns exactly the size of the node stored there, inside the blob, or 0 if there is none |
| FdtReader.UnflattenNode | src/device_tree.c:178-217 | builds a fresh node structure that is the stored tree, with everything in order, and returns the same number of bytes as SkipNode |
| FdtReader.UnflattenMapEntry | src/device_tree.c:219-239 | the entry at an offset, 0 exactly when its size field is zero |
| FdtReader.UnflattenMap | src/device_tree.c:262-268 | the whole reserve map, in order, up to its terminator |
| FdtReader.Unflatten | src/device_tree.c:241-273 | every well-formed blob is read as what it means: header size, reserve map, root |
| DtNode.Node.constructor | src/device_tree.c:157-166 | a new node has no properties and no children |
| DtNode.Node.AddChild | src/device_tree.c:209-214 | the child goes behind the existing ones and the node holds one child more of its tree |
| DtNode.Node.Unique | src/device_tree.c:66-83 | a node structure holds at most one tree |
| FdtWriter.FlatPropSize | src/device_tree.c:279-294 | room of a property in the structure block and of its name in the strings block |
| FdtWriter.FlatNodeSize | src/device_tree.c:296-315 | adds exactly the structure size and the strings size of the node; nothing overflows when the sums fit 32 bits |
| FdtWriter.DtFlatSize | src/device_tree.c:317-336 | the size of the blob that flattening produces |
| FdtWriter.FlattenMapEntry | src/device_tree.c:342-349 | stores both numbers big-endian and nothing else; the result is an entry, not a terminator, if and only if the size is not 0 |
| FdtWriter.FlattenMap | src/device_tree.c:418-422 | stores the reserve map and an all-zero terminator, and nothing else |
| FdtWriter.FlattenProp | src/device_tree.c:351-377 | stores the property, whose name offset points at its NUL-terminated name; both cursors move by what the sizer says; padding keeps what the buffer held |
| FdtWriter.FlattenProperties | src/device_tree.c:393-396 | stores all properties in order; the two cursors end where the sizer says |
| FdtWriter.FlattenChildren | src/device_tree.c:398-401 | stores all children in order; the two cursors end where the sizer says |
| FdtWriter.FlattenNode | src/device_tree.c:379-408 | whatever the buffer held, the node is stored; structure and strings cursors end exactly where the sizer says and nothing outside their way is written |
| FdtWriter.FlattenHeader | src/device_tree.c:428-439 | the four header fields and the END token; no other byte changes |
| FdtWriter.DtFlatten | src/device_tree.c:410-445 | header, reserve map, structure block, END token and strings block follow each other without gap or overlap, the header says where, totalsize is the size of the blob, and the buffer behind it is untouched |
| FdtLayout.NamesSize | src/device_tree.c:279-315 | the strings block is as long as all property names of the tree with their NULs |
| FdtLayout.FlattenedReads | src/device_tree.c:410-445 | what dt_flatten leaves, read by the header's literal offsets: totalsize is the length, the structure block lies 16 bytes per reserve entry and for the terminator behind the header, END (9) closes it 4 bytes before the strings block and at a multiple of 4 from its start, the strings block is the rest; map and tree are read back there |
| FdtRoundTrip.BlobGood | src/device_tree.c:178-239 | what was read from a blob meets the writer's conditions |
| FdtRoundTrip.FlattenedIsBlob | src/device_tree.c:410-445 | a flattened tree is a well-formed blob that means this tree, when the header says that the map follows it |
| FdtRoundTrip.FlattenUnflatten | src/device_tree.c:241-445 | reading back what was flattened gives the tree again, for every tree and any earlier contents of the destination |
| FdtReserveMap.MapSurvives | src/device_tree.c:414-422 | for every header size and map offset: every blob with these, flattened, still means the same if and only if the map follows the header |
| FdtReserveMap.LoseMap | src/device_tree.c:241-445 | for every other map offset, a source blob that loses its meaning by being read and flattened again |
| DtEdit.CreatedFound | src/device_tree.c:506-543 | a created path leads to a node |
| DtEdit.CreatedSame | src/device_tree.c:506-543 | creating a path changes the tree if and only if the path did not resolve |
| DtEdit.CreatedElsewhere | src/device_tree.c:506-543 | for every other path: what resolved still does, to a node with the same name and properties, and to the same tree unless it lies on the created path; what did not resolve and now does is an empty node on the created path |
| DtEdit.FindChild | src/device_tree.c:518-525 | finds the first child with the name |
| DtEdit.ChildFor | src/device_tree.c:517-540 | finds the child or appends an empty one, and every path that resolved still leads to the same node |
| DtCells.ReadCellProps | src/device_tree.c:479-490 | the numbers after the loop, through each pointer that is not NULL |
| DtCells.LastCellCounts | src/device_tree.c:479-490 | the last property of the name counts |
| DtCells.CellKept | src/device_tree.c:479-490 | without such a property, and through a NULL pointer, nothing is stored |
| DtCells.CellsSay | src/device_tree.c:479-490 | #address-cells and #size-cells are the big-endian numbers in the first four bytes of the last property of the name |
| DtEdit.FindNode | src/device_tree.c:506-543 | returns the node the path leads to, creating missing nodes if asked, and the #address-cells and #size-cells of the last node on the path that has them; every path that resolved before still leads to the same node |
| DtEdit.CreatedCells | src/device_tree.c:506-543 | creating a path leaves the numbers that it reads |
| DtPathCells.LastOnPath | src/device_tree.c:506-543 | a number that is asked for is what the last node on the path that has it says, as far as the path leads: the big-endian number in the first four bytes of that node's last property of the name |
| DtPathCells.NotOnPath | src/device_tree.c:506-543 | a number that no node on the path has, or that is not asked for, stays what it was |
| DtEdit.LookupFinds | src/device_tree.c:506-543 | looking up on nodes is looking up in the tree they hold |
| DtEdit.CreateThenFind | src/device_tree.c:506-543 | a lookup after a creation returns the created node and reads the same numbers |
| DtPath.JoinSplit | src/device_tree.c:561-596 | no component contains a '/', and joining them gives the path back |
| DtPath.SplitJoin | src/device_tree.c:561-596 | slash-free components joined to a path are its components again |
| DtPath.StrChr | src/string.c:95-104 | the first occurrence before the NUL, or none |
| DtPath.SplitInPlace | src/device_tree.c:578-588 | after the loop the noted starts are exactly the components as C strings, and the loop runs out of room exactly for more than 13 components |
| DtPath.FindNodeByPath | src/device_tree.c:561-596 | a path of at most 13 components is looked up component by component, with its numbers; a longer one gives NULL and leaves tree and numbers unchanged; earlier lookups keep their nodes |
| DtPath.CreateThenFindByPath | src/device_tree.c:561-596 | a path that was created is found again, is the same node, and reads the same numbers |
| DtProps.GetSet | src/device_tree.c:788-808 | setting a property changes what its name says and what no other name says |
| DtProps.SetOrder | src/device_tree.c:788-808 | setting keeps order and all other properties, also later ones of the same name; a new one comes last |
| DtProps.DeleteIs | src/device_tree.c:769-778 | deleting removes exactly the first property of the name; no other name says anything else |
| DtProps.DeleteSet | src/device_tree.c:769-778 | deleting an added property takes the addition back |
| DtProps.AddBinProp | src/device_tree.c:788-808 | replaces the first property of the name, or appends one |
| DtProps.FindBinProp | src/device_tree.c:836-851 | the value of the first property of the name, or none |
| DtProps.DeleteBinProp | src/device_tree.c:769-778 | removes the first property of the name and nothing else |
| DtProps.AddUint64Prop | src/device_tree.c:892-901 | the value becomes the eight big-endian bytes of the number |
| DtProps.AddStringProp | src/device_tree.c:860-865 | the value becomes the string with its NUL |
| DtReg.WriteInt | src/device_tree.c:755-761 | writes the lowest bytes of the number, most significant first, and nothing else |
| DtReg.DigitsValue | src/device_tree.c:755-761 | reading the written bytes back gives the number modulo 256 to their count, and the number itself when it fits |
| DtReg.ValueDigits | src/device_tree.c:755-761 | every byte string is what is written for the number it stores |
| DtReg.AddRegProp | src/device_tree.c:913-933 | the "reg" value is the written pairs, one after the other |
| DtReg.RegEntry | src/device_tree.c:913-933 | entry i of the value, read at its offset, is the i-th address and size when they fit their cells |
| DtCompat.StrNLen | src/string.c:46-57 | stops at the first NUL or at half the bound rounded up, and equals min(strlen, count) if and only if the string is at most that long |
| DtCompat.StrNCmp | src/string.c:70-81 | zero if and only if the strings agree up to their ends or the bound |
| DtCompat.CheckCompatMatch | src/device_tree.c:605-627 | terminates on every value; only the first "compatible" property counts; the byte behind the value never matters |
| DtCompat.ScanIsLandings | src/device_tree.c:612-622 | on a string list the scan accepts exactly the strings it lands on |
| DtCompat.MatchComplete | src/device_tree.c:605-627 | every entry of a string list is found: no step jumps over the start of an entry |
| DtCompat.MatchSuffix | src/device_tree.c:605-627 | what is found is an entry or the end of one |
| DtCompat.LandingsFit | src/device_tree.c:612-622 | the scan lands on the entries alone if and only if each is at most half as long as what is left of the list where it starts |
| DtCompat.MatchExact | src/device_tree.c:605-627 | the match is exact if and only if the scan lands on entries only; that is so when the entries fit, and only then if no entry ends in another one |
| DtCompat.LastEntryFits | src/device_tree.c:605-627 | a list whose last entry has more than two characters never fits |
| DtCompat.MatchUnsound | src/device_tree.c:605-627 | every single-entry list of more than two characters also matches the end of its entry |
| DtCompat.MatchUnsoundExample | src/device_tree.c:605-627 | "u540" matches a node that is compatible with "sifive,fu540" alone |
| ModifyDt.EditChosen | src/main.c:73-81 | the edits change the properties of /chosen and no other node |
| ModifyDt.Modify | src/main.c:65-84 | the buffer receives the flattened edited tree, nothing behind it changes, and it is a well-formed blob that means the edited tree when the source's map follows its header |
| ModifyDt.EditedChosen | src/main.c:71-81 | afterwards /chosen exists; if the initrd's address and size are both not 0 it carries linux,initrd-start and linux,initrd-end as 64-bit big-endian numbers, the end being start plus size modulo 2^64, and otherwise both names say what they said; bootargs is the string with its NUL if it is given, and otherwise says what it said; so does every other name |
| ModifyDt.ChosenOrder | src/main.c:71-81 | the properties of /chosen keep their order, and those that are new come last: start, end, bootargs |
| ModifyDt.EditedKeeps | src/main.c:65-84 | every path other than the root and /chosen leads to the same tree as before |
| ModifyDt.EditedOrder | src/main.c:65-84 | no child of the root moves or vanishes; at most one is added, last |
| LinkedList.RingUnique | src/list.c:5-9 | a list head determines the sequence of its members |
| LinkedList.ListInit | src/list.c:5-9 | an empty list |
| LinkedList.Remove | src/list.c:11-17 | takes exactly the k-th member out, writing only its two neighbours |
| LinkedList.InsertAfter | src/list.c:19-26 | inserts behind position k, writing only the new node and its two neighbours |
| LinkedList.InsertBefor | src/list.c:28-35 | inserts before position k, writing only the new node and its two neighbours |
| LinkedList.Append | src/device_tree.c:204-211 | insertion before the head appends |
| LinkedList.Move | src/list.c:11-35 | a member moved to another list leaves one and joins the other, and both stay well formed |
| LinkedList.ForEach | includes/list.h:17-20 | visits every member once, in order, and terminates |
| SmpBarrier.StepInv | includes/smp.h:23-42 | every atomic step of every hart keeps the invariant: the counter is the number of harts between increment and decrement, and a round is either gathering or draining |
| SmpBarrier.BarrierSafe | includes/smp.h:23-42 | in every reachable state no hart has left a round that some hart has not entered, rounds differ by at most one, and the counter is the number of harts inside |
| SmpBarrier.PublishedSeen | src/main.c:118-127 | a hart that has passed the barrier sees what hart 0 published, in every later state |
| SmpBarrier.StuckForever | includes/smp.h:29-41 | once one hart waits in each loop, no step of any hart ever ends either loop |
| SmpBarrier.StuckStays | includes/smp.h:29-41 | the same over whole runs: nobody returns and nobody gets unstuck |
| SmpBarrier.DrainStep | includes/smp.h:36-41 | once no hart is left in the first loop, every step of a hart inside decreases a measure |
| SmpBarrier.DrainEnabled | includes/smp.h:36-41 | and such a step is possible as long as a hart is inside |
| SmpBarrier.DrainEnds | includes/smp.h:29-41 | hence in every run in which no hart starts another round, the harts take a bounded number of steps, and when none is left all are out and the counter is 0 |
| SmpBarrier.CanFinish | includes/smp.h:23-42 | from a state that is not stuck a run leads every hart out |
| SmpBarrier.ProgressExactly | includes/smp.h:23-42 | from a reachable state some run gets all harts out if and only if it is not stuck |
| SmpBarrier.StuckReachable | includes/smp.h:29-41 | a stuck state is reachable if and only if there are at least two harts |
| SdCrc.CrcIsTimes8 | platform/hifive-unleashed/sd.c:214-223 | one byte step is the addition of the byte followed by multiplication by x^8 modulo the generator |
| SdCrc.CrcIsBits | platform/hifive-unleashed/sd.c:214-223 | folding bytes equals the bit-by-bit division |
| SdCrc.CrcIsRemainder | platform/hifive-unleashed/sd.c:214-223 | the fold from 0 is the one and only remainder of the message times x^16 modulo x^16 + x^12 + x^5 + 1 |
| SdCrc.CodewordZero | platform/hifive-unleashed/sd.c:269-285 | a message followed by its own checksum, high byte first, folds to 0 |
| SdCrc.StateInjective | platform/hifive-unleashed/sd.c:214-223 | the same byte keeps different checksums different |
| SdCrc.PairInjective | platform/hifive-unleashed/sd.c:214-223 | different pairs of bytes lead to different checksums |
| SdCrc.BurstDetected | platform/hifive-unleashed/sd.c:271-285 | messages of any equal length that differ only within two adjacent bytes have different checksums |
| SdCrc.BitBurstDetected | platform/hifive-unleashed/sd.c:271-285 | so have messages that differ only within 16 consecutive bits, anywhere and at any bit |
| SdCrc.AdjacentIsBurst | platform/hifive-unleashed/sd.c:271-285 | a difference within two adjacent bytes is one within 16 consecutive bits |
| SdCard.Spi.SendFrame | platform/hifive-unleashed/sd.c:73-80 | sends the seven bytes of a command frame |
| SdCard.Spi.AwaitResponse | platform/hifive-unleashed/sd.c:82-89 | the first byte below 0x80 among at most 1000 exchanges, or the last of them; nothing but dummies is sent |
| SdCard.WaitIs | platform/hifive-unleashed/sd.c:82-89 | between 1 and n dummies are sent, and all answers before the last have their top bit |
| SdCard.CommandIs | platform/hifive-unleashed/sd.c:66-90 | a command on the wire: 0xff, the command, its argument big-endian, 1, then the dummies up to the answer |
| SdCard.Spi.Cmd | platform/hifive-unleashed/sd.c:66-90 | holds chip select, sends the frame and returns the response |
| SdCard.Spi.CmdEnd | platform/hifive-unleashed/sd.c:92-96 | one more byte, and chip select back to automatic |
| SdCard.AwaitToken | platform/hifive-unleashed/sd.c:271 | reads exactly up to the first token |
| SdCard.ReceiveData | platform/hifive-unleashed/sd.c:272-277 | the next 512 bytes land in the buffer, with their checksum folded, and nothing else changes |
| SdCard.ReceiveBlock | platform/hifive-unleashed/sd.c:266-286 | one block with its checksum compared to the two bytes that follow |
| SdCard.BlockIs | platform/hifive-unleashed/sd.c:266-286 | a block on the wire: dummies up to the first 0xfe, 512 bytes, two checksum bytes, high byte first |
| SdCard.Transfer | platform/hifive-unleashed/sd.c:265-287 | the blocks up to the first mismatch are in the buffer; every one before the last agrees with its checksum |
| SdCard.SdCopy | platform/hifive-unleashed/sd.c:245-292 | for any card that sends tokens, byte by byte: command 0x52 with the block number; if it is refused, one more byte and the result 1; otherwise the blocks that were asked for and at least one, or those up to the first wrong checksum, with the result 0 or 2, then command 0x4c with 0 and one more byte; the blocks that were read are in the buffer, nothing else in it changes, and chip select is automatic on every exit |
| SdCard.CopiesIs | platform/hifive-unleashed/sd.c:245-292 | the transfer in steps is the transfer on the wire, for every card, size and outcome |
| SdCard.CorruptBlockRejected | platform/hifive-unleashed/sd.c:279-285 | a block that arrives with its original checksum and damaged at most within 16 consecutive bits is accepted if and only if it is undamaged |
| SdCard.ReadBlocks | platform/hifive-unleashed/sd.c:245-292 | on a card that holds a disk, success means the disk's blocks; what is sent is the read command for the first block, the bytes of the blocks that are read, and the stop command |
| SdCard.DamageDetected | platform/hifive-unleashed/sd.c:279-285 | a card on whose way every block may suffer one burst of at most 16 bits is faithful, so that the theorems on block reads and partitions hold of it |
| SdCard.ReadCrcIs | platform/hifive-unleashed/sd.c:205-259 | the command checksum starts from 0 and stays 0, so every read command carries 1 |
| DiskCard.CardServes | platform/hifive-unleashed/sd.c:245-292 | for every disk there is a card that accepts every read and delivers it with correct checksums |
| BlockRead.ReadPart | platform/hifive-unleashed/platform.c:26-28 | part of one block through the bounce buffer |
| BlockRead.SpanParts | platform/hifive-unleashed/platform.c:30-45 | head, whole blocks and tail border on each other; there may be no whole block |
| BlockRead.ReadHead | platform/hifive-unleashed/platform.c:34-41 | the bytes up to the first block boundary |
| BlockRead.ReadWhole | platform/hifive-unleashed/platform.c:43-47 | whole blocks directly behind the bytes already read |
| BlockRead.ReadMiddle | platform/hifive-unleashed/platform.c:42-48 | the whole blocks, if there are any, directly into the buffer, with one request for exactly these blocks |
| BlockRead.ReadTail | platform/hifive-unleashed/platform.c:49-56 | the bytes behind the last block boundary |
| BlockRead.TilesCovered | platform/hifive-unleashed/platform.c:22-56 | requests that follow each other from block a to block b are for at least one block each and lie between a and b |
| BlockRead.Read | platform/hifive-unleashed/platform.c:19-59 | a successful read leaves exactly the disk's bytes in the buffer and writes nothing behind them; the bytes sent to the card are exactly those of sd_copy for a list of requests, each for at least one block within the covering blocks, and a successful read requests every covering block once and in order; on a reliable card it succeeds |
| GptlImage.Layout | util/gptl-tool/main.c:107-143 | parts are page-aligned, in order, disjoint, behind header and command line, and within the total size |
| GptlImage.Place | util/gptl-tool/main.c:107-114 | one part's fields go into the header and the offset moves to its end |
| GptlImage.BuildHeader | util/gptl-tool/main.c:98-143 | the header describes every part and the total size |
| GptlImage.LoadPart | util/gptl-tool/main.c:151-162 | a file lands where the header says, and the parts before it stay |
| GptlImage.CreateImage | util/gptl-tool/main.c:93-165 | for every input below 4 GiB, whatever the fresh buffer held, the result is an image of the input |
| GptlImage.ExtractPart | util/gptl-tool/main.c:172-198 | the part's bytes, or nothing for an empty or missing one |
| GptlImage.ExtractImage | util/gptl-tool/main.c:167-206 | recovers every non-empty part and the command line |
| GptlImage.CreateExtract | util/gptl-tool/main.c:93-206 | unpacking what was packed gives it back |
| GptlImage.ImageUnique | util/gptl-tool/main.c:93-165 | an image determines its command line and its non-empty parts |
| GptlImage.ImageIs | util/gptl-tool/main.c:93-165 | for every byte string and input, the format that packer, unpacker and loader agree on is the literal one: magic number, version, sizes and fields big-endian at their offsets, the command line with its NUL at 48, each part on the next 4096-byte boundary |
| Gptl.Loader.ReadPartition | src/gptl.c:22-28 | gptl_read(o, n) is bytes o to o + n of the disk behind the block where the entry says that the partition starts, or NULL; within one block a failure leaves the buffer alone |
| Gptl.PartitionStart | src/gpt.c:27-32 | the partition starts at the first block, little-endian at 32 in the entry, or at the last block, at 40, if that is smaller |
| Gptl.GptHeaderSays | src/gptl.c:40-43 | the loader's count of entries and the place of each entry are those that the disk says: little-endian at 80 and 72 of block 1, 128 bytes an entry; a count of 2^31 or more is negative |
| Gptl.Loader.ReadEntry | src/gptl.c:41-43 | entry i of the partition array; a failure leaves the static as it was |
| Gptl.Loader.ReadHeader | src/gptl.c:46-66 | a header that was not read is never taken for one; without failures the verdict is that on the partition's header, with its command line |
| Gptl.Loader.SearchGptl | src/gptl.c:30-71 | whatever reads fail, what is found is a GPTL entry of the disk with its good header, and its command line or none; without failures it is the first such entry, and no GPT or no such entry gives NULL and leaves header and bootargs alone |
| Gptl.Loader.Load | src/gptl.c:78-121 | returns the size field, and loads exactly the bytes that the header's fields describe unless the read fails |
| Gptl.HeaderFound | src/gptl.c:46-66 | the header of a packed image passes every check of the loader, and its command line comes with its NUL |
| Gptl.PartFound | src/gptl.c:78-121 | every packed part lies where the loader looks for it |
| Gptl.FindImage | src/gptl.c:30-76 | the search finds an installed image or nothing, with the packed command line or, after a failed read, none |
| Gptl.LoadImage | src/gptl.c:22-121 | a packed image on the first GPTL partition of a disk is found, and each part is loaded as it was packed, through partition search, unaligned reads and the card protocol; a failed read costs something but changes nothing |
| Gptl.Loader.Field | src/main.c:110 | the size field of a part, as the partition has it |
| BootChain.BootArgs | src/gptl.c:73-76 | the command line as a C string, or none |
| BootChain.LoadTree | src/main.c:107-125 | the device tree, the size of the initrd and the command line arrive as they were packed |
| BootChain.PrepareTree | src/main.c:104-126 | for every packed image with a device tree, the buffer handed on is a blob that means the packed tree with the packed command line and the initrd's bounds in /chosen, and nothing behind it changes |
| NumberFormat.ReadText | src/console.c:36-53 | the digits of a number are read as that number, whatever follows |
| NumberFormat.NoLeadingZero | src/console.c:36-53 | no leading zero except for 0 itself |
| NumberFormat.TextFits | src/console.c:98 | 64-bit numbers take at most 22 digits, so the 64-byte buffer suffices |
| NumberFormat.BuildDigits | src/console.c:41-45 | the digits, last one first |
| NumberFormat.ReverseDigits | src/console.c:47-51 | reverses in place and touches nothing else |
| NumberFormat.UintmaxToText | src/console.c:36-53 | the canonical digits and a NUL, whatever the buffer held |
| NumberFormat.Convert | src/console.c:99-136 | the sign is that of a signed number; the value is below the modulus of the length and congruent to the magnitude, and sign and value are the number itself when it fits |
| NumberFormat.ValueIs | src/console.c:108-136 | the printed value is the only one below the modulus of the length that is congruent to the magnitude |
| NumberFormat.ValueFits | src/console.c:99-136 | nothing is lost when the magnitude fits the length; a negative unsigned number is printed as what its bits mean unsigned |
| NumberFormat.Sink.Printc | src/console.c:55-64 | one character out, the counter up by one |
| NumberFormat.Sink.Prints | src/console.c:66-70 | the string out, the counter up by its length |
| NumberFormat.PrintNumber | src/console.c:92-211 | prints the formatted text in each alignment and moves the counter by its length |
| NumberFormat.FormattedLength | src/console.c:138-151 | the text is max(width, precision, prefix and digits) long if and only if it is not a padded u conversion with a sign flag; then it is one short |
| NumberFormat.FormattedShape | src/console.c:138-211 | the text is spaces, sign or base prefix, zeros, digits in base 8, 10 or 16 as the letter says, and spaces; how many there are of each follows from flags, width and precision |
| NumberFormat.ReadFormatted | src/console.c:92-211 | whatever the flags, the width and the precision, what is printed reads back as the sign and the value |
| NumberFormat.ReadNumberBack | src/console.c:92-211 | read in base 8 for o, 16 for x and X, 10 for d, i and u, what is printed is negative exactly for a negative number of d and i, its value is the magnitude modulo 2^8, 2^16 or 2^64 as the length says, and it is the number itself when that fits |

## Left out

- FdtReserveMap.MapSurvives: map offsets in the last 64 bytes below 4 GiB.
- FdtReader: malformed blobs and FDT_NOP tokens, which the parser does not handle; a well-formed blob is a precondition. Printing a flattened or unflattened tree: the printing loop is the skipping loop with output.
- FdtReader: names and values are byte strings, not pointers into the blob, so the model does not say that a tree dies with its blob; a C int holds every offset when the blob is below 2 GiB.
- FdtWriter: alignment of the 32-bit and 64-bit stores. Values and names live outside the destination.
- DtNode: the two intrusive lists of a node are sequences; the linked form is verified in LinkedList and not joined to the tree.
- DtEdit: searches by phandle, by compatible string over a whole tree and by value; fixups and reserved memory.
- DtReg: the 32-bit product wrap for more than 2^32 cells.
- SmpBarrier.ProgressExactly: that every run makes progress is false of the code; the statement is about some run, with the exact condition. A fair scheduler is not modelled, and neither are the spin lock, weak memory behind the atomics, and the overflow of the counter.
- SmpBarrier: `platform_init` and `main` each have their own static counter; one counter is modelled.
- SdCard: SPI registers and the FIFO, card initialisation and power-on; that chip select influences what the card answers; a card that never sends a token makes the loop at `platform/hifive-unleashed/sd.c:271` run forever and is excluded by a precondition.
- SdCard: correctness of the command checksum, which the code does not compute; its value is what the code sends.
- BlockRead.Read: a read of no bytes at offset 0, for which the source's block arithmetic wraps around; 64-bit wrap-around of offsets, which no disk reaches.
- Gptl.Loader.SearchGptl: what the source does when the MBR or the GPT header cannot be read. It ignores the failure and goes on with uninitialised memory; the model stops with an outcome of its own. Failures of all later reads are followed. The GPT signature and checksums, which the source does not check.
- BootChain.PrepareTree: the branch of `main` for an image without a device tree, which edits the one the loader was entered with, as ModifyDt.Modify states. A failed gptl_load_fdt, which `main` ignores: the model ends there. `gptl_park`, which loads the initrd to an address it has not set: the address of the initrd is a parameter.
- GptlImage: option parsing and file access; files are byte strings.
- NumberFormat: the format-string interpreter, whose backslash and percent branches do not step past the last character; floating point; negating the smallest 64-bit number, which C leaves undefined; string and character conversions.
- Methods for one loop round or one half of a C function (FlattenNext, FindBelow, ReadSpan, SearchEntries, Emit and the like) exist for the proofs only; the source has them inline.
