# Windows 9x kernel loading, modelled in Dafny

A UEFI loader for the Windows 9x kernel does its work in four steps. This
project models each step and proves what each one computes.

- **W4 container.** `src/w4.rs` unwraps the VxD archive from the kernel
  image. The archive is either a plain "W3" archive or a "W4" archive: a
  table of chunks, each stored verbatim (8192 bytes) or compressed with the
  DoubleSpace LZ bitstream coder. Modules `DoubleSpace` (doublespace.dfy)
  and `W4` (w4.dfy).
- **LE loader.** `src/le.rs` loads a Linear Executable. For each object it
  takes pages from the allocator, copies the object's bytes there and maps
  each page, as the page map lists it, into a run of virtual pages. Module
  `LinearExecutable` (le.dfy), with the allocator and physical memory in
  `Memory` (memory.dfy).
- **Paging.** `src/paging.rs` builds 32-bit x86 page directories and page
  tables with 4 KiB pages. Module `Paging` (paging.dfy).
- **W3 directory.** `src/w3.rs` reads the W3 directory: a tag, a count, and
  16-byte records whose 8-byte names are trimmed of ASCII whitespace and must
  be UTF-8. Modules `W3` and `Utf8` (w3.dfy).

Little-endian and big-endian field reads live in `Bytes` (bytes.dfy), and
`Result`/`Option` in `Results`.

How the original's forms are modelled:
- **The bit cursor.** The decoder's `&mut usize` bit cursor becomes an
  explicit cursor. Each reader method takes `index` and returns `next`, and
  is proved equal to a specification function over the stream of bits: bits
  are read least significant first from each byte.
- **Loops.** The decoder's and loaders' loops are methods with loop
  invariants, proved against specification functions. Those are `Decode`,
  `Unwrap` and `ApplyAll` of the loader's `Mappings`.
- **The page directory.** It is a class with an `entries` array that
  `MapAddress` updates in place.
- **Panics.**
  - The original's explicit panics become `Err` outcomes: a bad signature,
    an encoded count of 0, and running past the compressed input.
  - So does a back-reference before the start of the output.
  - So does an allocator with no room left, where the original's `unwrap`
    panics.
  - Out-of-bounds slicing that the original would panic on is a
    precondition (`Readable`, `Loadable`).
  - The object copy in `load_le` is an unchecked `core::ptr::copy`. Reading
    past the input or writing past the object's pages there is undefined
    behaviour, not a panic, and is a precondition too (`Loadable`,
    `SegmentsFit`).

Behaviour of the original worth noting:
- A decoded chunk is not cut at 8192 bytes. The last token may copy past
  that length, up to 8192 - 1 + 512 bytes (`DecodeLength`).
- The chunk table's final entry is never read. The last chunk is always
  decoded to the end of the input.
- The loader applies no fixups and ignores page types.

## Model

| member | source | states |
|---|---|---|
| Bytes.Le16 | src/w4.rs:192-196 | the u16 read has the first byte as its low byte and the second as its high byte |
| Bytes.Le32 | src/le.rs:10-12 | the u32 read has the first byte lowest and the fourth byte highest |
| Bytes.Be32 | src/le.rs:34 | the big-endian u32 has the first byte highest and the fourth lowest |
| Bytes.Be32High24 | src/le.rs:34 | `>> 8` of the big-endian word is the first three bytes as a 24-bit number |
| DoubleSpace.Stream | src/w4.rs:19-23 | the bit stream has eight bits per input byte |
| DoubleSpace.StreamIndex | src/w4.rs:19-23 | stream bit i is bit i % 8 of byte i / 8, as read_vec_bit tests it |
| DoubleSpace.ByteBit | src/w4.rs:20 | bit i % 8 of byte i / 8 of the input |
| DoubleSpace.BitOf | src/w4.rs:20 | bit k of a number, `x & (1 << k) != 0` |
| DoubleSpace.StreamOfIsStream | src/w4.rs:19-23 | the per-bit description the readers rely on holds for Stream and for nothing else |
| DoubleSpace.StreamOfByte | src/w4.rs:19-23 | the eight stream bits of byte j are its bits, least significant first |
| DoubleSpace.ByteFromBits | src/w4.rs:19-23 | reading the eight bits of byte j back as a number gives byte j |
| DoubleSpace.LsbBits | src/w4.rs:48-54 | the n-bit encoding of a number has n bits |
| DoubleSpace.LsbBitsIndex | src/w4.rs:48-54 | bit k of that encoding is bit k of the number |
| DoubleSpace.LsbValue | src/w4.rs:48-54 | an n-bit field read least significant bit first is below 2^n |
| DoubleSpace.LsbValueSnoc | src/w4.rs:50-52 | one more loop round ORs the next bit in at weight 2^k |
| DoubleSpace.LsbValueOfBits | src/w4.rs:48-54 | reading the n-bit encoding of v gives v back |
| DoubleSpace.LsbBitsOfValue | src/w4.rs:48-54 | encoding the value read gives back exactly the bits read |
| DoubleSpace.BitsAtConcat | src/w4.rs:19-23 | bits found at a cursor split into consecutive pieces |
| DoubleSpace.ReadVecBit | src/w4.rs:19-23 | returns the stream bit under the cursor and advances the cursor by one |
| DoubleSpace.RawByte | src/w4.rs:32-38 | the literal is the first bit at weight 128 plus the next seven bits, least significant first; the cursor advances by 7 |
| DoubleSpace.Depth | src/w4.rs:48-54 | returns the base plus the next len bits as a number, and advances by len |
| DoubleSpace.Count1 | src/w4.rs:64-70 | returns the base plus the next len bits as a number, and advances by len |
| DoubleSpace.BasesArePowers | src/w4.rs:79 | each count base is 2^p + 1 |
| DoubleSpace.CountFrom | src/w4.rs:78-93 | a count read ends inside the stream, after its start |
| DoubleSpace.Count | src/w4.rs:78-93 | ds_count returns what the unary class prefix and its field mean, by CountFrom |
| DoubleSpace.CountStep | src/w4.rs:84-91 | one round of the class loop: a 0 bit moves to the next class; a 1 bit reads p bits on top of base 2^p + 1 |
| DoubleSpace.CountRange | src/w4.rs:78-93 | a count is 0 (the illegal encoding) or between 2^p + 1 and 512, and takes at most 17 bits |
| DoubleSpace.TokenAt | src/w4.rs:101-133 | a token read ends inside the stream at least two bits on, and a back-reference has depth at least 1 |
| DoubleSpace.LiteralAt | src/w4.rs:104-105 | a literal takes exactly seven bits after its two-bit tag |
| DoubleSpace.ShortAt | src/w4.rs:106-115 | a short depth token takes at least its six depth bits |
| DoubleSpace.LongAt | src/w4.rs:116-131 | a long depth token takes at least its selector bit and eight depth bits |
| DoubleSpace.LongAtField | src/w4.rs:117-131 | depth 4415 is a sector break; any other long depth is a back-reference with that depth |
| DoubleSpace.BackReference | src/w4.rs:111-115 | a back-reference token carries exactly the depth given and ends after its count |
| DoubleSpace.TokenGrammar | src/w4.rs:101-133 | a token is a literal exactly when its two tag bits differ. It also fixes the bit length and field values of each of the four token kinds, including count 2..512 |
| DoubleSpace.ReadBackReference | src/w4.rs:111-115 | reads the count after a depth, as BackReference says: a count of 0 is the ZeroCount panic |
| DoubleSpace.ReadBits | src/w4.rs:101-133 | ds_read_bits returns the token TokenAt reads at the cursor, panics included |
| DoubleSpace.ReadShort | src/w4.rs:106-115 | the 00-tag branch returns ShortAt: depth 0 ends the block, otherwise a back-reference |
| DoubleSpace.ReadLong | src/w4.rs:116-131 | the 11-tag branch returns LongAt: 8 bits on base 64 or 12 bits on base 320, depth 4415 a sector break |
| DoubleSpace.CopyBack | src/w4.rs:151-156 | the copy keeps the output as its prefix, adds count bytes, and each new byte equals the byte depth positions before it |
| DoubleSpace.CopyBackRepeats | src/w4.rs:151-156 | an overlapping copy repeats the last depth bytes periodically |
| DoubleSpace.CopyOut | src/w4.rs:152-155 | the inner copy loop produces CopyBack |
| DoubleSpace.DsDecode | src/w4.rs:140-166 | ds_decode returns Decode of its input: the block or the panic the original stops with |
| DoubleSpace.DecodeFrom | src/w4.rs:143-164 | the decode loop from a cursor: stop once 8192 bytes are out, push a literal, copy a back-reference or fail when it reaches before the start, skip a sector break, stop at the end marker |
| DoubleSpace.Decode | src/w4.rs:140-166 | the block decoded from the start of the input's bit stream with nothing output yet |
| DoubleSpace.DecodeFromGrows | src/w4.rs:143-164 | decoding only appends to the output, and stops no later than one token past 8192 bytes |
| DoubleSpace.DecodeLength | src/w4.rs:144-146 | a decoded block is at most 8192 - 1 + 512 bytes long |
| DoubleSpace.CountClass | src/w4.rs:78-93 | every count 2..512 falls into one class p with 2^p + 1 <= count <= 2^(p+1) |
| DoubleSpace.CountFromCode | src/w4.rs:84-91 | zeros up to class p, a 1 and a p-bit field read as 2^p + 1 plus the field |
| DoubleSpace.CountRoundTrip | src/w4.rs:78-93 | ds_count reads back every count 2..512 written by the reference encoder |
| DoubleSpace.LiteralRoundTrip | src/w4.rs:104-105 | every encoded literal byte is read back as that byte |
| DoubleSpace.LiteralOfBits | src/w4.rs:104-105 | a tag of differing bits and seven low bits make the literal token |
| DoubleSpace.LiteralCodeBits | src/w4.rs:104-105 | the encoded literal's tag and field bits are what the reader expects |
| DoubleSpace.MarkerRoundTrip | src/w4.rs:106-126 | the encoded end marker and sector break are read back as End and SectorBreak |
| DoubleSpace.EndFields | src/w4.rs:106-110 | the encoded end marker is the 00 tag and six zero depth bits |
| DoubleSpace.SectorBreakFields | src/w4.rs:116-126 | the encoded sector break is the 111 tag and a 12-bit field of 4095 |
| DoubleSpace.BackReferenceRoundTrip | src/w4.rs:106-131 | every back-reference with depth 1..4414 and count 2..512 is read back as itself |
| DoubleSpace.ShortFields | src/w4.rs:106-107 | a depth below 64 is encoded as the 00 tag and a six-bit field |
| DoubleSpace.LongFields | src/w4.rs:116-122 | a depth of 64 or more is encoded as 11, a selector and an 8- or 12-bit field over base 64 or 320 |
| DoubleSpace.ShortBackReference | src/w4.rs:106-115 | a short depth field followed by a count reads as that back-reference |
| DoubleSpace.LongBackReference | src/w4.rs:116-131 | a long depth field followed by a count reads as that back-reference |
| DoubleSpace.FieldBits | src/w4.rs:48-54 | a field encoded after a prefix is read back as its value |
| DoubleSpace.TokenRoundTrip | src/w4.rs:101-133 | ds_read_bits reads back every encodable token, consuming exactly its encoding |
| DoubleSpace.Step | src/w4.rs:148-159 | one token's effect: a literal appends its byte, a back-reference copies, a sector break changes nothing |
| DoubleSpace.Expand | src/w4.rs:143-164 | the reference expansion of a token sequence, token by token |
| DoubleSpace.EncodeAll | src/w4.rs:101-133 | a token sequence's code is its tokens' codes in order |
| DoubleSpace.DecodeRoundTrip | src/w4.rs:140-166 | decoding the code of a token sequence followed by the end marker gives its expansion, whenever each back-reference reaches only into the output and the output is below 8192 bytes before each token |
| DoubleSpace.FirstToken | src/w4.rs:143-164 | decoding an encoded sequence goes on after the first token's code, with that token's effect on the output |
| DoubleSpace.SplitCode | src/w4.rs:147 | the first token read from an encoded sequence is its first token, and the rest of the code follows it |
| DoubleSpace.DecodeStep | src/w4.rs:143-159 | one loop round on a token other than the end marker continues at the next token with that token's effect |
| DoubleSpace.DecodeEncoded | src/w4.rs:140-166 | ds_decode of an input whose bits start with an encoded sequence and the end marker is the sequence's expansion |
| W4.HeaderOffset | src/w4.rs:182 | the archive header offset is the little-endian u32 at 0x3C |
| W4.ChunkOffset | src/w4.rs:168-174 | chunk i's start is the little-endian u32 at 16 + 4i after the header |
| W4.Chunk | src/w4.rs:199-204 | a non-final chunk exactly 8192 bytes before the next is copied; any other is decoded to the end of the input, a decoder panic becoming the chunk's failure |
| W4.Concat | src/w4.rs:197-205 | the first n chunks appended in order, stopped by the first that fails |
| W4.Unwrap | src/w4.rs:181-207 | a refused signature, the W3 archive from its header on, or the W4 chunks concatenated, with the header offset; a W4 image with no chunks needs only its count field and gives an empty archive |
| W4.Pieces | src/w4.rs:198-205 | one piece per chunk of the table, in table order |
| W4.W4ToW3 | src/w4.rs:181-207 | w4_to_w3 returns Unwrap: a refused signature, the W3 archive as is, or the W4 chunks concatenated; it demands only the bytes the original reads, so a chunk table is needed only when the count is not 0 |
| W4.SignatureOk | src/w4.rs:184-186 | the header starts with "W" followed by "3" or "4" |
| W4.ChunkTable | src/w4.rs:198-205 | a non-empty chunk table lies inside the input, its starts lie inside the input and never decrease |
| W4.Readable | src/w4.rs:182-196 | the header offset, the signature byte, the second byte behind a "W" and, for "W4", the count and its chunk table lie inside the input |
| W4.EmptyArchive | src/w4.rs:192-206 | a "W4" image with chunk count 0 is readable from its first off + 8 bytes and unwraps to an empty archive |
| W4.UnwrapChunked | src/w4.rs:192-205 | a "W4" image unwraps to the concatenation of all its chunks, or the first chunk's failure |
| W4.UnwrapChunk | src/w4.rs:199-204 | a non-final chunk exactly 8192 bytes before the next is copied; any other chunk is decoded to the end of the input |
| W4.ConcatStop | src/w4.rs:197-205 | once a chunk fails, the result is that failure whatever follows |
| W4.ConcatStep | src/w4.rs:198-205 | one more chunk extends a successful concatenation by its bytes, and a failing chunk is the outcome of the whole |
| W4.UnwrapChunks | src/w4.rs:197-206 | the chunk loop gives the archive of all chunks concatenated in table order, or the failure of the first chunk that fails |
| W4.NextChunk | src/w4.rs:198-205 | one round of the chunk loop: a successful chunk follows the chunks before it, and a failing one ends the loop with its failure |
| W4.ConcatFailure | src/w4.rs:197-205 | the concatenation succeeds exactly when every chunk does, and otherwise fails with a failing chunk's error |
| W4.ConcatPrefix | src/w4.rs:197-205 | each chunk's bytes follow the bytes of the chunks before it in the result |
| W4.ConcatLength | src/w4.rs:197-205 | n chunks of at most bound bytes concatenate to at most n * bound bytes |
| W4.UnwrapSignature | src/w4.rs:182-191 | the image is refused exactly when neither "W3" nor "W4" is at the header; "W3" returns the rest of the image from the header on |
| W4.ChunkBounds | src/w4.rs:199-204 | a chunk fails only by a decoder panic and is at most 8192 - 1 + 512 bytes long |
| W4.UnwrapLength | src/w4.rs:192-205 | a "W4" archive is at most count * (8192 - 1 + 512) bytes long |
| W4.StoredChunk | src/w4.rs:200-201 | an 8192-byte gap to the next chunk start means the chunk is those 8192 input bytes |
| W4.StoredChunkVerbatim | src/w4.rs:200-201 | a stored chunk appears verbatim in the archive at the length of the chunks before it |
| W4.ConcatPiece | src/w4.rs:198-205 | every chunk appears in the result right after the chunks before it |
| W4.LastChunkDecoded | src/w4.rs:200-203 | the last chunk is always decoded, never copied, and ends the archive |
| Memory.Placed | src/le.rs:29 | placing bytes at an address writes exactly those bytes there and keeps all others |
| Memory.WriteKeeps | src/le.rs:29 | a copy leaves bytes outside its range where they were |
| Memory.PhysicalMemory.constructor | src/le.rs:28 | free memory starts page aligned above the null page and below 4 GiB, with nothing written, so no grant is at address 0 |
| Memory.PhysicalMemory.AllocatePages | src/le.rs:28 | a grant is page aligned, fresh (at the old frontier), fits below 4 GiB and moves the frontier by its pages; the request is refused exactly when its pages would reach 4 GiB, and a refusal changes nothing |
| Memory.PhysicalMemory.Copy | src/le.rs:29 | the copied bytes lie at the destination and nothing else changes |
| Memory.KeptTrans | src/le.rs:29 | keeping the bytes outside two adjacent ranges in turn keeps those outside their union |
| Memory.KeptWiden | src/le.rs:29 | keeping the bytes outside a range keeps those outside any wider range |
| Paging.PageTableEntry.Present | src/paging.rs:24-26 | an entry is present when bit 0 is set |
| Paging.PageTableEntry.Address | src/paging.rs:61-63 | the address is the entry rounded down to its 4 KiB frame: page aligned and within 4095 below the entry |
| Paging.New | src/paging.rs:70-76 | the entry's address is the frame with its low 12 bits cleared, and each flag bit is set exactly when requested |
| Paging.Flags | src/paging.rs:72-75 | bits 0, 1 and 2 of the low bits are present, read/write and user |
| Paging.NewInjective | src/paging.rs:70-76 | two entries are equal exactly when their frames and all three flags are |
| Paging.DirectoryIndex | src/paging.rs:7 | the top ten bits index the 1024-entry directory |
| Paging.TableIndex | src/paging.rs:16 | bits 12-21 index the 1024-entry page table |
| Paging.Slots | src/paging.rs:7-16 | two addresses share directory and table slots exactly when they lie in the same 4 KiB page |
| Paging.EmptyTable | src/paging.rs:9-10 | a new page table has 1024 clear entries |
| Paging.MapAddress1 | src/paging.rs:15-18 | map_address_1 sets the entry of the virtual page to New(...) and keeps every other entry |
| Paging.MapLeaf | src/paging.rs:6-18 | after map_address the directory slot of the address has a table and no other slot changes |
| Paging.MapLeafLookup | src/paging.rs:6-18 | after map_address the page translates to the new entry (if present) and every other page as before |
| Paging.Lookup | src/paging.rs:6-18 | a page translates to its table entry when both the directory slot and that entry are present, and to nothing otherwise |
| Paging.ApplyAll | src/le.rs:33-38 | the tables after a run of page mappings, each present, writable and supervisor-only, applied in order |
| Paging.ApplyPrefix | src/le.rs:33-38 | the tables after the first k mappings of a run, one at a time, as the page loop applies them |
| Paging.ApplyAllPrefix | src/le.rs:33-38 | the mappings up to k are those before k followed by mapping k |
| Paging.ApplyPrefixAll | src/le.rs:33-38 | mapping the first k requests one by one gives ApplyAll of those k |
| Paging.ApplyAllAppend | src/le.rs:19-40 | mapping two runs of requests in turn equals mapping their concatenation |
| Paging.ApplyAllLookup | src/le.rs:19-40 | after a run of mappings a page translates to the last request for it, or as before when none |
| Paging.LastHit | src/le.rs:33-38 | finds the last request that maps a page, if there is one |
| Paging.PageTable.Empty | src/paging.rs:1-3 | a directory of 1024 clear entries and no page tables |
| Paging.PageTable.MapAddress | src/paging.rs:6-13 | allocates and installs a present, writable, user page table only when the slot is not present. The tables become MapLeaf of the old ones. It fails, changing nothing, only when no page is left; every present directory slot keeps a non-null address, so the table the original follows exists |
| LinearExecutable.ObjectTableOffset | src/le.rs:10 | the object table offset is the little-endian u32 at 0x40 |
| LinearExecutable.ObjectCount | src/le.rs:11 | the object count is the little-endian u32 at 0x44 |
| LinearExecutable.PageMapOffset | src/le.rs:12 | the page map offset is the little-endian u32 at 0x48 |
| LinearExecutable.Object | src/le.rs:20-24 | an object entry is the five little-endian fields at offsets 0-16 of its 24 bytes |
| LinearExecutable.Objects | src/le.rs:19-24 | the object table is every entry of the count, in table order |
| LinearExecutable.PageNumber | src/le.rs:34 | the page number is the top 24 bits of the big-endian page-map word |
| LinearExecutable.Segment | src/le.rs:29-30 | the object's bytes are virtual-size bytes at its packed position |
| LinearExecutable.SegmentStart | src/le.rs:15-30 | object i's bytes start after the header size plus the virtual sizes of the objects before it |
| LinearExecutable.VirtualPage | src/le.rs:17-39 | object i's virtual run starts after the virtual base plus 4096 bytes per page of the objects before it |
| LinearExecutable.Mappings | src/le.rs:19-39 | every mapping the loader issues, object by object and in page-map order within each |
| LinearExecutable.ObjectMappings | src/le.rs:32-38 | page k of an object maps its k-th allocated page to the run start plus 4096 times its page number |
| LinearExecutable.LoadLe | src/le.rs:6-43 | a missing "LE" signature is refused and changes nothing; a first byte other than "L" is refused without a second byte. Otherwise the loader returns the address after all objects' pages, once the granted pages hold every object's bytes and the tables hold every mapping in order; the only other outcome is running out of memory, which cannot happen while two free pages remain per object page. Memory outside the newly granted pages keeps its bytes |
| LinearExecutable.LoadObjects | src/le.rs:15-42 | the object loop, given the object table it reads, loads every object in order, or runs out of memory; it succeeds while two free pages remain per object page, and keeps the bytes outside the newly granted pages. With no objects it demands neither the object table nor the segment area |
| LinearExecutable.SignatureOk | src/le.rs:7 | the image starts with "L" then "E" |
| LinearExecutable.TagReadable | src/le.rs:7 | the first byte, and the second only behind an "L", lie inside the input |
| LinearExecutable.ObjectTableFits | src/le.rs:10-24 | the header fields and, when there are objects, the whole object table lie inside the input |
| LinearExecutable.NoObjectsLoadable | src/le.rs:10-19 | an image with no objects is loadable whatever its object-table offset and header size |
| LinearExecutable.PagesBefore | src/le.rs:39 | the pages of the objects before object i, which `virtual_address_page` advances by |
| LinearExecutable.VirtualOf | src/le.rs:33-35 | page k of object i maps to its object's run plus 4096 times the page number from the page map |
| LinearExecutable.LoadObject | src/le.rs:20-39 | one object: pages granted after the earlier ones, its bytes copied there, its mappings appended to the tables. It takes at most two pages per object page, fails only when those would reach 4 GiB, and writes only inside its own pages |
| LinearExecutable.LoadNext | src/le.rs:19-40 | one object within the whole load: the pages granted since the start stay within two per object page, and a failure means the pages of all objects do not fit below 4 GiB |
| LinearExecutable.SegmentsInside | src/le.rs:29-30 | the packed segments, when there are any, end inside the input |
| LinearExecutable.LoadSegment | src/le.rs:29-30 | the object's bytes lie at its pages, earlier objects' bytes are intact, and no byte outside the object's pages changes |
| LinearExecutable.MapObject | src/le.rs:32-38 | the page loop maps the object's pages in page-map order, without touching memory contents; it takes at most one page-table page per object page and fails only when those would reach 4 GiB |
| LinearExecutable.MapPages | src/le.rs:32-38 | after the loop the tables are the old ones with the object's mappings applied in order; failing means one page per object page would reach 4 GiB |
| LinearExecutable.MapPage | src/le.rs:34-37 | one round of the page loop adds the object's k-th mapping, taking at most one page, and fails only when that page would reach 4 GiB |
| LinearExecutable.NextPage | src/le.rs:37 | the page after page k of a run is page k + 1 and still inside the run |
| LinearExecutable.OutOfPages | src/le.rs:32-37 | a run refused its page k + 1 after taking at most one page per earlier page does not fit below 4 GiB |
| LinearExecutable.BudgetStep | src/le.rs:28-36 | one more object within its two pages per object page keeps the whole loop within budget |
| LinearExecutable.OutOfBudget | src/le.rs:28-36 | an object refused while the loop is within budget means the whole budget reaches 4 GiB |
| LinearExecutable.FrameStep | src/le.rs:29 | an object that writes only inside its own pages keeps the bytes outside everything granted since the loop began |
| LinearExecutable.SegmentsPacked | src/le.rs:29-30 | object segments are laid out in order without overlap |
| LinearExecutable.PagesGrow | src/le.rs:39 | each object's virtual run starts no earlier than the previous one |
| LinearExecutable.LoadedExtend | src/le.rs:29 | copying an object into its own pages keeps the earlier objects' bytes |
| LinearExecutable.GrantedExtend | src/le.rs:28 | a new grant after the earlier ones keeps all grants ordered and disjoint |
| LinearExecutable.GrantedFits | src/le.rs:28 | granted pages end below 4 GiB |
| LinearExecutable.GrantedWiden | src/le.rs:36 | page tables allocated later do not disturb the grants already made |
| LinearExecutable.MappingsStep | src/le.rs:32-39 | the mappings for one more object are the earlier mappings followed by that object's |
| LinearExecutable.MappingsLength | src/le.rs:33 | there is one mapping per page-map entry of the objects loaded |
| LinearExecutable.MappingAt | src/le.rs:33-37 | the mapping for page k of object i maps bases[i] + 4096 k to that page's virtual address |
| Utf8.CharWidth | src/w3.rs:16 | a UTF-8 character takes at most four bytes, one when ASCII, and its trailing bytes are continuation bytes |
| Utf8.AsciiValid | src/w3.rs:16 | ASCII is UTF-8 |
| Utf8.CharWidthExtends | src/w3.rs:16 | a character's width does not depend on what follows it |
| Utf8.ValidConcat | src/w3.rs:16 | two UTF-8 sequences concatenate to UTF-8 |
| Utf8.ValidAfterAscii | src/w3.rs:16 | removing an ASCII prefix keeps UTF-8 valid |
| Utf8.ValidBeforeAscii | src/w3.rs:16 | removing an ASCII suffix keeps UTF-8 valid |
| Utf8.CharWidthShrinks | src/w3.rs:16 | a character that ends inside s has the same width in s |
| W3.TrimAscii | src/w3.rs:16 | trimming never lengthens, and a non-empty result neither starts nor ends with ASCII whitespace |
| W3.TrimAsciiUnique | src/w3.rs:16 | the trimmed name is the unique slice with whitespace before and after it and none at its ends |
| W3.TrimAsciiIdempotent | src/w3.rs:16 | trimming twice is trimming once |
| W3.TrimAsciiSplit | src/w3.rs:16 | the trimmed name is the slice between a whitespace prefix and a whitespace suffix |
| W3.TrimmedFront | src/w3.rs:16 | dropping leading whitespace moves the trimmed slice by one |
| W3.TrimmedBack | src/w3.rs:16 | dropping trailing whitespace leaves the trimmed slice unchanged |
| W3.TrimAsciiBorders | src/w3.rs:16 | a name is an ASCII front, its trimmed part and an ASCII back |
| W3.TrimKeepsValidity | src/w3.rs:16 | the trimmed name is UTF-8 exactly when the whole name field is |
| W3.NameField | src/w3.rs:15-16 | the name field is the first 8 bytes of the entry |
| W3.Record | src/w3.rs:15-18 | entry i is its trimmed 8-byte name, then the file offset and header size as little-endian u32s |
| W3.NameOk | src/w3.rs:16 | an entry is accepted when its trimmed name is UTF-8 |
| W3.NameAccepted | src/w3.rs:16 | an entry's name is accepted exactly when its raw 8-byte field is UTF-8 |
| W3.Entries | src/w3.rs:14-21 | the walk succeeds exactly when every name is UTF-8, giving every record in order; otherwise it fails at the first bad name |
| W3.LoadVxds | src/w3.rs:9-22 | refuses exactly a missing "W3" tag; otherwise returns all count records in order, or the first entry whose name is not UTF-8. It demands one byte for a bad first byte, and six for a directory with no entries |
| W3.SignatureOk | src/w3.rs:10 | the archive starts with "W" then "3" |
| W3.TagReadable | src/w3.rs:10 | the first byte, and the second only behind a "W", lie inside the input |
| W3.Readable | src/w3.rs:10-15 | the tag and, behind a good tag, the count and every entry lie inside the input |
| W3.Count | src/w3.rs:13 | the little-endian u16 at offset 4 |
| W3.EntryStart | src/w3.rs:15 | entry i starts at 16 + 16 i |
| W3.AsciiWhitespace | src/w3.rs:16 | tab, line feed, form feed, carriage return and space |
| Utf8.Valid | src/w3.rs:16 | the bytes split into well-formed UTF-8 characters, as from_utf8 accepts |
| W3.EmptyDirectory | src/w3.rs:10-14 | a "W3" directory with count 0 is readable from its first six bytes and loads as empty |
| W3.AsciiNamesLoad | src/w3.rs:9-22 | a "W3" directory whose name fields are all ASCII always loads |

## Left out

- `src/main.rs` is not part of this model. It calls the loaders, and the
  firmware entry point, file reading and console output around them are I/O.
- `println!` output is not modelled. The segment name (`from_utf8_lossy`,
  `trim_matches`) and the base address and flags of an object are only
  printed, so they are read but unused.
- `uefi::boot::allocate_pages` is a bump allocator below 4 GiB. A failed
  `unwrap` becomes `OutOfMemory` or a `false` result. The firmware's real
  placement of pages is not modelled.
- Paging.EmptyTable: a freshly allocated page table is taken to be all
  clear. The original makes the same assumption, although the firmware does
  not promise to zero the pages it hands out.
- Paging.PageTable.MapAddress: the page table is reached by directory slot
  in an arena of tables, not by following the physical address in the
  directory entry. Aliasing between a page table and other memory is not
  modelled.
- The commented-out setters and getters of `PageTableEntry` are not
  modelled as operations. `ReadWrite` and `User` exist only to state
  contracts.
- `core::ptr::copy` in `load_le` is unchecked: reading past the input or
  writing past the object's pages is undefined behaviour in the original.
  The model requires neither to happen (`Loadable`, `SegmentsFit`) and does
  not describe what such a copy would do.
- A page-map index of 0 makes `page_map_index - 1` underflow in the
  original; the model requires every index to be at least 1
  (`PageMapFits`). An object with no pages places no other demand on the
  page map.
- LinearExecutable.LoadLe: success is promised when two free pages remain
  per object page, which is sufficient but not necessary. The exact need
  depends on which directory slots already hold a page table.
- LinearExecutable.LoadObjects: the same sufficient, not necessary,
  condition for success as LoadLe.
- The allocator grants pages below 4 GiB, so the `as u32` casts of the
  granted pointers (`src/le.rs:32`, `src/paging.rs:9`) are exact. A firmware
  that granted pages above 4 GiB would have them truncated; the model does
  not describe that.
- Panics from out-of-bounds slicing or u32 overflow in `load_le`,
  `w4_to_w3` and `w3_load_vxds` are preconditions (`Loadable`, `Readable`).
  This includes a chunk table whose starts decrease, where the original's
  `usize` subtraction would underflow. The state after such a panic is not
  described.
- `|=` on a clear bit is modelled as `+`, and `<<` of a bit as `+ 2^k`.
  Entries are 32-bit numbers, not bit-vectors.
- DoubleSpace.ReadLong: the two `ds_depth` calls of the original (8 bits on
  base 64, 12 bits on base 320) are one call with the width and base chosen
  by the selector bit.
- Object fixups, page types and the other LE header fields are not read by
  the original and are not modelled.
- W3 names are kept as the trimmed bytes once they are known to be UTF-8,
  not as decoded characters. The file offset and header size are read into
  the record; the VxDs themselves are not loaded, as in the original.
