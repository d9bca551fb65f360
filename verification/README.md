# elfrc and libelfr: a verified model

`elfrc` compiles a list of named resources into one ERF container (ELF Resource
Format, version 1.0) and wraps it in a relocatable ELF object. `libelfr` opens
container bytes it does not trust and answers lookups by name, by id and by
metadata index. `elfresdump` finds the container again inside an ELF file. Writer
and reader are separate programs that share only a byte layout.

This project models both sides and proves that they fit together. The imperative
parts are imperative here too: a growing buffer with in-place patches, the interning
table, the bucket array, the id pass over an array of resources, the reader with its
last-error state. Each is proved against a specification function over bytes, and the
results below are proved about those functions.

| module | what it holds |
|---|---|
| Bytes, ByteBuffers, Packing | little-endian numbers, placement of byte strings, the growable buffer, aligned regions |
| Crc64, Parity, Fnv1a | the checksum against long division over GF(2), what it keeps of the message, the name hash |
| ErfFormat, Layout | on-disk structures, and the whole container as a function of the manifest |
| Manifests, StringTables, HashIndex, MetadataBlocks, ContainerBuild | the writer, phase by phase |
| Reader, ErfReader | what is accepted and answered, and the programs that decide it |
| RoundTrip, Integrity, Theorems | writer, bytes and reader together |
| BuiltBytes, ElfBytes | the written files by byte position and value, for any other program that reads them |
| Foreign | accepted inputs that elfrc would not write, where the readers leave defined ground |
| Ids | identifier assignment and validation |
| ElfFormat, ElfObject, ElfDump | the ELF object and the section walk |

## Preconditions, stated once

`Layout.Fits` says what the fixed-width fields can hold: names, metadata keys and
values are C strings without a NUL; key and value lengths are below 2^32 - 1 and pair
counts below 2^31; the string table ends below 2^32 because `name_offset` has 32 bits;
the container is smaller than 2^62 bytes, so that doubling a buffer cannot wrap. It also
bounds the number of resources, which `Layout.FewResources` derives from the rest.
`Layout.SmallManifestsFit` shows that every manifest below 256 MiB meets all of this.
`libelfr` compares names with `strcmp` but checks only that a name's first byte is in
range. The model reads names byte by byte and says when that leaves the opened bytes
(`Reader.LookupInside`); `ErfReader.Library.FindIn` reports it as a result. A name is safe
against every comparison exactly when a NUL ends it (`Bytes.StaysInsideIffTerminated`), a
container without a table against every lookup exactly when all its names end
(`Reader.ScanInsideIffTerminated`). With a table that is sufficient, and an unterminated
name no bucket leads to does no harm. Built containers are safe
(`RoundTrip.LookupsStayInside`); accepted ones need not be (`Foreign.UnendedNameIsAccepted`,
`Foreign.UnendedNameIsProbed`). For one given name both branches have an exact condition
(`Reader.ScanLeavesIff`, `Reader.ProbeLeavesIff`).

Opened bytes are a sequence and pointers into them are offsets. A file's contents are a
field of the resource, absent when the file cannot be read. A byte is an integer below
256; `Bytes.Word` is its value as a 64-bit word. Flag bits are added rather than or-ed;
each is added once. `qsort` is represented by the sorted arrangement, which is unique,
and `bsearch` by a binary search.

## Where code and documents differ

- Section 6.1 of the ERF specification calls `name_offset` an offset into the string
  table; writer and reader both use an offset from the start of the container
  (src/elfrc/container_build.c:35, src/libelfr/erf_reader.c:144). The model follows the code:
  `RoundTrip.NameOffsetIsAbsolute`.
- The error text for `ERF_ERR_TRUNCATED` speaks of a container smaller than its header
  claims, but that case reports `ERF_ERR_BAD_OFFSET` (src/libelfr/erf_reader.c:83-86);
  `ERF_ERR_TRUNCATED` means fewer than 160 bytes. `Reader.OpenError` follows the code.
- Section 5.1 defines the checksum over the container; `erf_verify_checksum` hashes the
  whole opened size. A container opened with bytes behind it can therefore fail to verify
  although it is intact; it is sure to verify exactly when it is opened at its own size:
  `Integrity.VerifiesWithEveryTrailerIffExact`.
- `erf_metadata_get` counts to `index` with an int that is increased once more after the
  last pair. At index 2147483647 with all pairs readable that addition overflows; the exact
  condition is `Reader.CounterStaysIff`, the input `Foreign.CounterCanOverflow`. Built
  containers never get there.
- Appendix B of the ERF specification has readers validate all offsets. Opening leaves those
  it has no use for unread, and any value of them is accepted
  (`Foreign.AnyUnreadOffsetIsAccepted`, `Reader.UnreadOffsetsDoNotMatter`); which ones they
  are, and that these alone can be out of range, is `Reader.OffsetsInRangeIff`.
- elfresdump checks the section header table with `e_shentsize` but indexes it with the size
  of its own structure, and trusts `e_shstrndx` and the names. When the walk reads outside a
  file that passes the checks is `ElfDump.BeyondIff`; a file that is only an ELF header is one
  (`Foreign.HeaderAlonePasses`). The found section's offset and size are handed to
  `erf_open_memory` unchecked as well (src/elfresdump/main.c:121); `ElfDump.Extracted` is None
  where they leave the file.
- A long symbol prefix is cut by the 256-byte name buffers. The names are as documented
  up to 234 bytes and the two symbols stay distinct up to 238, no further:
  `ElfDump.NamesUncut`, `ElfDump.SymbolsDistinct`.

## Model

| member | source | states |
|---|---|---|
| ByteBuffers.StepKeepsLinear | src/common/byte_buf.c:6-41 | One append, zero-fill or align keeps: length <= capacity <= max(4096, 2 * length), and all reallocations so far moved fewer bytes than the capacity; contents only grow at the end. |
| ByteBuffers.GrowthIsLinear | src/common/byte_buf.c:6-41 | The same over every run of operations: buffer growth is amortised linear and never disturbs earlier bytes. |
| ByteBuffers.GrowthRule | src/common/byte_buf.c:9-13 | A reallocation goes to 4096 or twice the old capacity, doubled as often as the need demands and no more. |
| ByteBuffers.GrownCapacity | src/common/byte_buf.c:10-13 | The doubling loop in size_t arithmetic returns the first doubling that suffices and does not wrap below 2^63. |
| ByteBuffers.ByteBuf.Reserve | src/common/byte_buf.c:6-16 | Room for `extra` more bytes, contents unchanged, capacity exactly the doubling rule's. |
| ByteBuffers.ByteBuf.Append | src/common/byte_buf.c:18-26 | Contents become old contents plus the bytes; the result is the old length; the whole state is one model step. |
| ByteBuffers.ByteBuf.AppendZeros | src/common/byte_buf.c:28-34 | Contents become old contents plus zeros; the result is the old length. |
| ByteBuffers.ByteBuf.Align | src/common/byte_buf.c:36-41 | Contents gain exactly the zeros that reach the next multiple. |
| ByteBuffers.ByteBuf.Patch | src/elfrc/container_build.c:202 | Overwriting in place changes those bytes and no others, and does not move or grow the buffer. |
| Crc64.WordIsCast | src/common/crc64.c:21 | The model's widening of a byte is the conversion to 64 bits. |
| Crc64.ByteStepLinear | src/common/crc64.c:10-13 | The eight-step table function is linear over GF(2). |
| Crc64.StepsAndBacks | src/common/crc64.c:10-13 | Any number of bit steps can be undone and every state is reached: the register forgets nothing. |
| Crc64.ByteStepBijective | src/common/crc64.c:10-13 | The eight-step function is a bijection on 64-bit registers: injective, with a predecessor for every state. |
| Crc64.UpdateIsByteStep | src/common/crc64.c:21 | One table lookup equals eight bit steps of the register with the byte folded in. |
| Crc64.PolyIsGenerator | src/common/crc64.c:3 | The program's constant is the generator polynomial of CRC-64/XZ, given by its exponents, in reflected bit order. |
| Crc64.DivisionIsFeed | src/common/crc64.c:3-13 | Shifting message bits through the register is schoolbook long division by the CRC-64/XZ generator over GF(2). |
| Crc64.ChecksumIsLongDivision | src/common/crc64.c:17-24 | For every byte string the table-driven checksum is the complemented remainder of the message times x^64 with its first 64 bits complemented, divided by the generator as the standard lists its terms: CRC-64/XZ by definition. |
| Crc64.CheckValue | tests/unit/test_hash.c:17 | The published check value comes out. |
| Crc64.ChecksumAffine | src/common/crc64.c:17-24 | The checksum is affine over XOR of messages of equal length. |
| Crc64.BlockInjective | src/common/crc64.c:20-22 | From a clear register, up to 64 message bits lead back to it only if all are clear: injectivity on 64-bit blocks. |
| Crc64.FeedLinear | src/common/crc64.c:20-22 | The register is linear over GF(2) in its start state and in the message bits together. |
| Crc64.BurstChangesChecksum | src/common/crc64.c:17-24 | Any change confined to 64 consecutive bits of a message, starting at any bit, changes its checksum. |
| Crc64.EveryChecksumOccurs | src/common/crc64.c:17-24 | After any message, some eight further bytes give any wanted checksum. |
| Parity.StepKeepsParity | src/common/crc64.c:10-13 | A bit step keeps the parity of the register: the generator has an even number of terms. |
| Parity.ChecksumParity | src/common/crc64.c:17-24 | For every message the checksum has an odd number of set bits exactly when the message has. |
| Crc64.InitTable | src/common/crc64.c:7-15 | The nested loops fill index i with the eight-step value of i. |
| Crc64.ComputeCrc64 | src/common/crc64.c:17-24 | The byte loop over the filled table returns the checksum that the division theorem is about. |
| Fnv1a.ComputeFnv1a64 | src/common/fnv1a.c:3-11 | The writer's loop computes the FNV-1a hash; ErfReader.HashCString states the same of the reader's copy. |
| Fnv1a.HashIsFnv1a | src/common/fnv1a.c:3-11 | The hash in numbers: the offset basis for the empty string, and for one more byte XOR first, then the product with the prime, modulo 2^64. |
| Fnv1a.HashNumberIsHash | src/common/fnv1a.c:10 | The stored number is the 64-bit hash itself. |
| Fnv1a.HashOfLetter | src/common/fnv1a.c:3-11 | The published hash of one letter comes out. |
| ErfFormat.HeaderRoundTrip | include/elfr/erf_format.h:79-106 | Reading an encoded 160-byte header gives back every field, whatever reserved fields, padding and longer tails hold. |
| ErfFormat.EntryRoundTrip | include/elfr/erf_format.h:108-125 | Reading an encoded directory entry gives back every field, whatever its reserved fields and longer tail hold. |
| ErfFormat.BucketRoundTrip | include/elfr/erf_format.h:144-148 | Reading an encoded hash bucket gives back hash and directory index. |
| ErfFormat.HeaderSpelled | include/elfr/erf_format.h:79-106 | Every header field lies at its own byte position, reserved fields and all. |
| ErfFormat.EntrySpelled | include/elfr/erf_format.h:108-125 | Every entry field lies at its own byte position, reserved fields and all. |
| ErfFormat.BucketSpelled | include/elfr/erf_format.h:144-148 | Hash, index and reserved bytes of a bucket lie at their own positions. |
| Bytes.LittleEndian | include/elfr/erf_format.h:79-148 | Fields of two, four and eight bytes are read least significant byte first. |
| ErfFormat.ChecksumFieldOnly | src/elfrc/container_build.c:228-233 | The two header copies differ in bytes 88 to 95 only. |
| StringTables.StringTable.Intern | src/elfrc/container_build.c:28-42 | A known name returns its earlier offset and appends nothing; a new one is appended with its NUL; the entries are always the distinct names with their offsets. |
| StringTables.DistinctNoRepeats | src/elfrc/container_build.c:30-34 | No name is stored twice. |
| StringTables.DistinctInFirstOccurrenceOrder | src/elfrc/container_build.c:82-84 | Names are stored in the order in which they first occur in the manifest. |
| StringTables.NameAtOffset | src/elfrc/container_build.c:35-36 | At each returned offset the name decodes as a NUL-terminated string. |
| StringTables.TableOfOneMore | src/elfrc/container_build.c:36-37 | The region starts empty and grows by a new name and one NUL, nothing else. |
| StringTables.OffsetsEqualIffNamesEqual | src/elfrc/container_build.c:28-42 | Two resources share a name offset exactly when they share their name. |
| StringTables.NameOffsetStable | src/elfrc/container_build.c:82-84 | Interning further names never moves an offset already handed out. |
| HashIndex.BucketCountBounds | src/elfrc/container_build.c:53-59 | The bucket count is a power of two, at least 16, at least 2n and, unless it is 16, below 4n, so 32 bits suffice. |
| HashIndex.ComputeNextPow2 | src/elfrc/container_build.c:53-59 | The doubling loop in uint32_t computes that count without wrapping. |
| HashIndex.FilledIsIndexed | src/elfrc/container_build.c:130-141 | After every insertion: each entry sits in its own bucket, all slots from its home to it are used (cyclically), nothing else is used, entries of one home sit in insertion order, and exactly as many buckets are used as entries were inserted. |
| HashIndex.FreeSlotExists | src/elfrc/container_build.c:135-138 | While a bucket is unused every insertion probe reaches one, so the inner loop ends. |
| HashIndex.HalfStaysEmpty | src/elfrc/container_build.c:120-141 | A finished table uses exactly n buckets, at most half of them. |
| HashIndex.FindFreeSlot | src/elfrc/container_build.c:135-138 | The probing loop in uint32_t stops at the first free slot after the home bucket. |
| HashIndex.FillTable | src/elfrc/container_build.c:126-141 | The insertion loop leaves exactly the table the invariant speaks of, and the name hashes. |
| HashIndex.FilledIsOpenAddressed | src/elfrc/container_build.c:130-141 | The table as any reader may use it: used buckets carry their entry's hash, every entry has exactly one, all buckets from `hash % count` to it are in use, and equal hashes come in entry order on that way. |
| HashIndex.NextSlot | src/libelfr/erf_reader.c:208 | `slot + 1` cannot wrap in 32 bits, and the modulo step is the cyclic successor, even at the largest bucket count. |
| HashIndex.ProbeIsScan | src/libelfr/erf_reader.c:190-222 | Probing the built table gives the lowest index of the name, or nothing exactly when no entry has it, whatever hashes collide. |
| Packing.PieceAt | src/elfrc/container_build.c:92-113 | In a region of aligned appends every piece lies at its recorded offset. |
| Packing.PiecesInOrder | src/elfrc/container_build.c:151-175 | Pieces (metadata blocks, payloads) never overlap and come in manifest order. |
| Packing.PiecesTight | src/elfrc/container_build.c:151-175 | Between pieces there is only the padding their alignment needs; absent pieces take nothing. |
| MetadataBlocks.WriteBlock | src/elfrc/container_build.c:101-112 | The inner loop appends exactly the count and the length-prefixed, NUL-terminated pairs. |
| MetadataBlocks.WriteMetadata | src/elfrc/container_build.c:86-114 | The outer loop appends the aligned blocks, records each offset (0 for none) and whether there was any. |
| Layout.PlanOrdered | src/elfrc/container_build.c:69-147 | Header and directory, strings, metadata, hash table and payloads occupy ordered, disjoint ranges; strings, metadata and table start 8-aligned, payloads 16-aligned. |
| Layout.PlanTight | src/elfrc/container_build.c:69-147 | Between regions there is only the padding their alignment needs, and each has exactly its contents' length. |
| Layout.OffsetsFit | src/elfrc/container_build.c:182-194 | Every name, payload and metadata offset lies in its region and fits its field; a metadata offset is 0 exactly without metadata. |
| Layout.FewResources | src/elfrc/container_build.c:28-42 | A string table that ends below 2^32 implies fewer than 2^25 resources, so the bucket count cannot wrap. |
| Layout.ImageLaid | src/elfrc/container_build.c:69-243 | In the finished bytes, with anything behind them, header, directory and every region lie where the plan says. |
| Layout.SmallManifestsFit | src/elfrc/container_build.c:61-245 | Every manifest of C strings and files of less than 256 MiB in all meets the size preconditions below. |
| Layout.SmallManifestsFitAnyVariant | src/elfrc/container_build.c:61-245 | The same for every variant whose header and directory stay below 2 GiB. |
| Layout.EmptyManifestFits | src/elfrc/container_build.c:119-123 | So does the empty manifest. |
| ContainerBuild.WriteStrings | src/elfrc/container_build.c:77-84 | The interning loop appends exactly the string region and returns each resource's name offset. |
| ContainerBuild.WriteTable | src/elfrc/container_build.c:118-143 | The hash table phase appends exactly the table header and the filled buckets. |
| ContainerBuild.WriteData | src/elfrc/container_build.c:145-175 | The payload loop appends every file 16-aligned with its offset, size and checksum, and stops at the first unreadable file. |
| ContainerBuild.FillDirectory | src/elfrc/container_build.c:177-201 | The directory loop fills every entry and finds out whether some name occurs twice. |
| ContainerBuild.PatchDirectory | src/elfrc/container_build.c:202 | The late directory patch changes the reserved directory bytes and nothing behind them. |
| ContainerBuild.PatchHeader | src/elfrc/container_build.c:205-233 | The two late header patches give the final bytes: header with the CRC-64 of the buffer under a zero field, all else unchanged. |
| ContainerBuild.Build | src/elfrc/container_build.c:61-257 | For every manifest that fits, the program produces exactly the container bytes, or fails at the first unreadable file and only then. |
| Reader.InBoundsIsExact | src/libelfr/erf_reader.c:52-60 | The branchy 64-bit check decides the unbounded range condition. |
| Reader.AcceptedIsSafe | src/libelfr/erf_reader.c:62-149 | In every accepted container all directory reads, bucket reads, payloads and the first byte of every name lie inside total_size, which lies inside the opened bytes. |
| Reader.HeaderAcceptedSpelled | src/libelfr/erf_reader.c:71-101 | The header checks in bytes and numbers: magic, major version 1, sizes, directory and string offset. |
| Reader.TableAcceptedSpelled | src/libelfr/erf_reader.c:105-123 | The hash table checks in numbers. |
| Reader.EntryAcceptedSpelled | src/libelfr/erf_reader.c:125-149 | The entry checks in numbers, and which bytes each field of a resource comes from. |
| Reader.OpenedTableSpelled | src/libelfr/erf_reader.c:105-123 | Whether there is a bucket array, its place and length, in numbers. |
| Reader.OpenErrorSpelled | src/libelfr/erf_reader.c:62-101 | Which error a refusal reports, by size, magic bytes and version bytes. |
| Reader.OffsetsInRangeIff | src/libelfr/erf_reader.c:79-149 | An accepted container has all the offsets of its header and entries in range exactly when those that opening leaves unread are: metadata, signature and data offset of the header, string offset without resources, hash offset without a table, metadata offsets of the entries. |
| Reader.UnreadOffsetsDoNotMatter | src/libelfr/erf_reader.c:79-149 | Acceptance does not depend on the unread offsets: bytes that decode alike apart from them get the same verdict. |
| Foreign.AnyUnreadOffsetIsAccepted | src/libelfr/erf_reader.c:79-149 | The inputs: for any four 64-bit values, an accepted container of 288 bytes with them as metadata, signature, data and entry metadata offsets. |
| Reader.ProbeAnswersByName | src/libelfr/erf_reader.c:198-210 | Whatever the table holds, a lookup that answers names an entry of exactly that name. |
| Reader.ProbeFinds | src/libelfr/erf_reader.c:198-210 | The probe answers with the first bucket it comes to that hits, and with none when it comes to an unused one before. |
| Reader.ProbedSpelled | src/libelfr/erf_reader.c:196-208 | The k-th bucket is the one at (hash % count + k) % count; unused means index 0xFFFFFFFF; a hit has the name's hash and an entry of that name. |
| Reader.ScanFinds | src/libelfr/erf_reader.c:215-222 | The fallback scan gives the lowest entry of that name, or nothing exactly when there is none. |
| Reader.ScanIdFinds | src/libelfr/erf_reader.c:225-238 | The id scan gives the lowest entry with that id, or nothing exactly when there is none. |
| Bytes.CompareDecides | src/libelfr/erf_reader.c:204-205 | strcmp, read byte by byte, answers equal exactly when the NUL-terminated name is there; equal names never lead outside. |
| Bytes.StaysInsideIffTerminated | src/libelfr/erf_reader.c:204-205 | No NUL-free name leads strcmp outside the opened bytes if and only if a NUL ends the stored name. |
| Reader.TerminatedLookupInside | src/libelfr/erf_reader.c:190-222 | Where all names end, no lookup reads outside the opened bytes, whatever the table holds. |
| Reader.ScanInsideIffTerminated | src/libelfr/erf_reader.c:216-221 | Scanning stays inside for every name if and only if every stored name ends inside the opened bytes. |
| Reader.ScanLeavesIff | src/libelfr/erf_reader.c:215-221 | For one name: the scan reads outside exactly when some entry whose bytes up to the end of the container begin that name comes before every entry of that name. |
| Reader.ProbeLeavesIff | src/libelfr/erf_reader.c:198-210 | For one name: the probe reads outside exactly when, before an unused bucket or an entry of that name, it meets a bucket of the same hash pointing to an entry whose bytes up to the end of the container begin that name. |
| Foreign.UnendedNameIsAccepted | src/libelfr/erf_reader.c:133-149 | The input: an accepted container of 288 bytes on which a lookup reads past the end. |
| Foreign.UnendedNameIsProbed | src/libelfr/erf_reader.c:202-204 | The input through a table: for every letter, an accepted container of 313 bytes whose one bucket has that name's hash and leads the comparison past the end. |
| Reader.ReadableUpTo | src/libelfr/erf_reader.c:281-306 | A metadata pair can be read exactly when all before it can. |
| Reader.ReadPairSpelled | src/libelfr/erf_reader.c:282-303 | Where the cursor reads a pair, in numbers, and exactly when it cannot. |
| Reader.CountAtSpelled | src/libelfr/erf_reader.c:254-264 | The count is read from its four bytes, 0 for offset 0 and outside the bytes. |
| Reader.CounterStaysIff | src/libelfr/erf_reader.c:281 | The int counter stays in range exactly when the index is below 2147483647 or some pair up to it is unreadable. |
| Foreign.CounterCanOverflow | src/libelfr/erf_reader.c:281 | The input: an accepted container, opened at a size below 2^64, on which the counter overflows. |
| Foreign.HeaderAlonePasses | src/elfresdump/main.c:97-113 | The input: a file of 64 bytes that passes the header checks and is read outside. |
| Reader.CursorAdvances | src/libelfr/erf_reader.c:266-314 | Over arbitrary bytes the metadata cursor moves forward by at least ten bytes a pair, stays inside, and returns in-range length-prefixed fields. |
| ErfReader.HashCString | src/libelfr/erf_reader.c:191-195 | The reader's inlined loop up to the NUL computes the same hash as the writer. |
| ErfReader.Library.CheckHeader | src/libelfr/erf_reader.c:71-101 | The header checks, in 64-bit arithmetic, hold exactly when the unbounded conditions do; otherwise the first failing one names the error. |
| ErfReader.Library.CheckTable | src/libelfr/erf_reader.c:105-123 | The bucket array checks hold exactly when the unbounded conditions do. |
| ErfReader.Library.ReadDirectory | src/libelfr/erf_reader.c:125-149 | The loop accepts exactly when every entry's name and payload are in range, and materialises every entry. |
| ErfReader.Library.OpenMemory | src/libelfr/erf_reader.c:62-164 | On arbitrary bytes: a handle exactly when the unbounded-integer conditions all hold, with the stated contents; otherwise the stated error. |
| ErfReader.Library.ResourceAt | src/libelfr/erf_reader.c:176-182 | The indexed entry, or an error exactly outside the range. |
| ErfReader.ProbeTable | src/libelfr/erf_reader.c:196-212 | The probing loop in 32-bit arithmetic starts at hash % bucket_count, goes on slot by slot around the end, reads at most bucket_count slots, none twice, and gives the specified answer. |
| ErfReader.Library.FindIn | src/libelfr/erf_reader.c:184-223 | On any opened container: reading stays inside the opened bytes exactly when LookupInside says so, and then both branches give the specified lookup and error code; probing starts at hash % bucket_count and goes on slot by slot, each read at most once. |
| ErfReader.Library.FindIdIn | src/libelfr/erf_reader.c:225-238 | The loop gives the specified id lookup and error code. |
| ErfReader.Library.ResourceDataIn | src/libelfr/erf_reader.c:240-252 | On any opened container: as long as the comparisons stay inside, data and size fields of the entry the lookup finds, or none with size 0. |
| ErfReader.MetadataCount | src/libelfr/erf_reader.c:254-264 | The count field as an int, 0 where there is none to read. |
| ErfReader.NextPair | src/libelfr/erf_reader.c:282-303 | One cursor round in 64-bit arithmetic equals the unbounded one: no sum wraps. |
| ErfReader.MetadataGet | src/libelfr/erf_reader.c:266-314 | With an int loop counter: its increment stays in range exactly when not CounterOverflows, and then the loop returns the index-th pair met by the cursor and fails in every other case. |
| ErfReader.VerifyChecksum | src/libelfr/erf_reader.c:316-328 | True exactly when the CRC of the opened bytes with a cleared field equals the stored checksum. |
| RoundTrip.IsAccepted | src/libelfr/erf_reader.c:62-149 | Bytes laid out for a manifest pass every check of opening. |
| RoundTrip.OpensToResources | src/libelfr/erf_reader.c:125-149 | They open to the manifest's resources in order: id, type, language, flags, terminated name, payload bytes, alignment, metadata offset. |
| RoundTrip.LookupsStayInside | src/libelfr/erf_reader.c:190-222 | No lookup by any name reads past the bytes of a built container, in any variant. |
| RoundTrip.NameOffsetIsAbsolute | src/elfrc/container_build.c:35 | name_offset counts from the start of the container: header string offset plus place in the table, never the place alone. |
| RoundTrip.CounterStaysInRange | src/libelfr/erf_reader.c:281-312 | No metadata query on a built container takes the loop counter out of an int. |
| RoundTrip.NamesAreTerminated | src/libelfr/erf_reader.c:133-144 | Every name of a built container ends inside it, which opening itself does not check. |
| RoundTrip.EntryDescribesResource | src/elfrc/container_build.c:188-194 | Name hash, payload checksum and original size read back match name and payload. |
| RoundTrip.HeaderLocatesRegions | src/elfrc/container_build.c:210-229 | The header's offsets, read back, are where strings, metadata and payloads really are, in order and inside total_size. |
| RoundTrip.LookupIsFirstOfName | src/libelfr/erf_reader.c:184-223 | On built bytes the probing branch equals the scan branch: the lowest directory index of the name, or nothing exactly when no resource has it. |
| RoundTrip.IdLookupIsExact | src/libelfr/erf_reader.c:225-238 | With distinct ids every id leads back to exactly its own entry, and other ids to none. |
| RoundTrip.MetadataRoundTrip | src/libelfr/erf_reader.c:254-314 | For every resource the count is exact, the j-th pair comes back as C strings, and every index outside the range fails. |
| Theorems.FullRoundTrip | src/elfrc/container_build.c:61-245 | Manifest to bytes to resources: what was built opens, and entry i is resource i with its payload bytes, despite the late patches and with anything behind the container. |
| Theorems.BuiltOpens | src/libelfr/erf_reader.c:62-164 | Every container that fits, the empty one included, opens to as many entries as there are resources, with anything behind it. |
| Theorems.ForwardCompatible | src/libelfr/erf_reader.c:79-149 | Section 16 of the ERF specification: the same resources laid out with any longer header, longer entries, reserved bytes, unknown flag bits, minor version, checksum and trailing bytes give the same entries and the same name, id and metadata answers. |
| Theorems.FlagsTell | src/elfrc/container_build.c:211-217 | The LOCALIZED bit is set exactly when some name occurs twice, the METADATA bit exactly when some resource has metadata. |
| Theorems.ValidatedIdsAreFound | src/elfrc/manifest_yaml.c:381-426 | After validation and build each final id finds exactly its own entry, and explicit ids are kept. |
| Theorems.ManifestToElfToResources | src/elfresdump/main.c:86-121 | Manifest to container to ELF object to section walk to resources is the identity on resources. |
| Theorems.BuildOpenFind | tests/integration/test_roundtrip.c:85-92 | The programs composed: build, open, verify and find succeed for every manifest, and find gives the first resource of the name. |
| Theorems.BuildOpenRead | src/libelfr/erf_reader.c:240-252 | The programs composed: for every manifest and name, asking a built container for the data gives the file's bytes of the first resource of that name, and nothing exactly when there is none. |
| Theorems.BuildOpenMetadata | src/libelfr/erf_reader.c:254-314 | The programs composed: the count of every resource's metadata, and its j-th key and value exactly for j below it. |
| BuiltBytes.HeaderOfBuilt | src/elfrc/container_build.c:204-231 | The header of a built container by byte position: every field and every reserved byte. |
| BuiltBytes.ChecksumOfBuilt | src/elfrc/container_build.c:228-233 | Bytes 88 to 95 hold CRC-64/XZ of the container with those bytes zero. |
| BuiltBytes.ChecksumHoldsSpelled | src/libelfr/erf_reader.c:316-328 | What verification compares, by byte position. |
| BuiltBytes.EntryOfBuilt | src/elfrc/container_build.c:177-202 | Every directory entry of a built container by byte position: every field, name hash and payload checksum included, and every reserved byte. |
| BuiltBytes.TableOfBuilt | src/elfrc/container_build.c:117-147 | The hash table of a built container by byte position: smallest sufficient power of two, reserved bytes zero, each resource in exactly one bucket under its hash, all buckets from `hash % count` to it in use. |
| BuiltBytes.BlockSpelled | src/elfrc/container_build.c:92-97 | A metadata block is its count and then the pairs. |
| BuiltBytes.PairSpelled | src/elfrc/container_build.c:98-113 | A pair is key length, key, NUL, value length, value, NUL. |
| Integrity.BuiltVerifies | src/elfrc/container_build.c:228-233 | A built container opened at its exact size verifies. |
| Integrity.BurstIsDetected | src/libelfr/erf_reader.c:316-328 | Any change within 64 consecutive bits, starting at any bit, that leaves the stored checksum alone makes a verifying container fail. |
| Integrity.FieldChangeIsDetected | src/libelfr/erf_reader.c:316-328 | Any change confined to the stored checksum makes a verifying container fail. |
| Integrity.VerifyingIsEven | src/libelfr/erf_reader.c:316-328 | Every container that verifies has an even number of set bits. |
| Integrity.OddChangeIsDetected | src/libelfr/erf_reader.c:316-328 | Any change of an odd number of bits, anywhere, stored checksum included, makes a verifying container fail. |
| Integrity.ResealedVerifies | src/elfrc/container_build.c:228-233 | Storing the checksum of the other bytes makes any container verify and changes nothing else. |
| Integrity.DifferencesCanCancel | src/libelfr/erf_reader.c:316-328 | Where the count is even it can fail to detect: at every byte outside the field some change is hidden by a matching change of the field. |
| Integrity.TrailersNotBothVerify | src/libelfr/erf_reader.c:320-325 | Because the opened size is hashed, of two different endings of equal length up to eight bytes at most one verifies. |
| Integrity.OneEndingVerifies | src/libelfr/erf_reader.c:320-325 | Behind a verifying container, whatever bytes come first, exactly one choice of the last eight bytes verifies. |
| Integrity.VerifiesWithEveryTrailerIffExact | src/libelfr/erf_reader.c:316-328 | A built container opens with every trailer of n bytes, and verifies with every one of them if and only if n is 0, that is, the opened size is total_size. |
| Integrity.IntactButUnverified | src/libelfr/erf_reader.c:316-328 | Every built container has a one-byte trailer with which it still opens and no longer verifies. |
| Ids.SortIsSorted | src/elfrc/manifest_yaml.c:376-392 | The sorted ids are ascending and a permutation of the explicit ones. |
| Ids.SortIsUnique | src/elfrc/manifest_yaml.c:392 | There is only one such arrangement, so the result does not depend on how qsort works. |
| Ids.NeighboursDecideRepeats | src/elfrc/manifest_yaml.c:392-399 | Sorting and comparing neighbours finds a repeat exactly when there is one. |
| Ids.AutomaticIsKthFree | src/elfrc/manifest_yaml.c:401-412 | The k-th resource without an explicit id gets the k-th smallest positive integer that is not explicit. |
| Ids.KthFreeIsUnique | src/elfrc/manifest_yaml.c:401-412 | That description fixes the number. |
| Ids.AutomaticIsSmall | src/elfrc/manifest_yaml.c:408-411 | By pigeonhole every automatic id is at most resource_count, so the 32-bit cursor never wraps and the search ends. |
| Ids.FinalIdsDistinct | src/elfrc/manifest_yaml.c:401-412 | Without a repeated explicit id all final ids are distinct. |
| Ids.Contains | src/elfrc/manifest_yaml.c:408 | Binary search over the sorted ids decides membership. |
| Ids.FindAdjacent | src/elfrc/manifest_yaml.c:393-399 | The adjacent comparison reports an id exactly when one repeats, and then the smallest repeated one. |
| Ids.FindDuplicateName | src/elfrc/manifest_yaml.c:415-425 | The pairwise check reports a pair exactly when two resources share name and language, and then the first in lexicographic order. |
| Ids.AssignAndValidateIds | src/elfrc/manifest_yaml.c:381-426 | An error exactly when two explicit ids are equal, naming the smallest repeated one, or else two resources share name and language, naming the first such pair; unless ids repeat, every resource has its final id. |
| ElfFormat.EhdrRoundTrip | src/elfrc/elf_writer.c:116-139 | The file header reads back: magic, class, data encoding, section table offset, counts. |
| ElfFormat.ShdrRoundTrip | src/elfrc/elf_writer.c:78-112 | A section header reads back field by field. |
| ElfFormat.SymRoundTrip | src/elfrc/elf_writer.c:43-57 | A symbol reads back field by field. |
| ElfFormat.EhdrSpelled | src/elfrc/elf_writer.c:116-139 | Every ELF header field lies at its own byte position. |
| ElfFormat.ShdrSpelled | src/elfrc/elf_writer.c:78-112 | Every section header field lies at its own byte position. |
| ElfFormat.SymSpelled | src/elfrc/elf_writer.c:43-57 | Every symbol field lies at its own byte position. |
| ElfObject.ObjectParts | src/elfrc/elf_writer.c:59-141 | Container, symbols, string tables and section headers lie where the section headers will say. |
| ElfObject.WriteElfObject | src/elfrc/elf_writer.c:16-141 | The program's file buffer is exactly the specified object. |
| ElfBytes.EhdrOfObject | src/elfrc/elf_writer.c:116-141 | The object's ELF header by byte position: a relocatable x86-64 file, every field. |
| ElfBytes.SectionsOfObject | src/elfrc/elf_writer.c:78-112 | All five section headers by byte position, every field. |
| ElfBytes.SymbolsOfObject | src/elfrc/elf_writer.c:43-57 | The null symbol and the two boundary symbols by byte position, every field. |
| ElfBytes.ContentsOfObject | src/elfrc/elf_writer.c:59-76 | The sections hold the container and the two string tables. |
| ElfBytes.PlanSpelled | src/elfrc/elf_writer.c:59-76 | Where the sections lie: only alignment padding between them. |
| ElfBytes.SectionNamesSpelled | src/elfrc/elf_writer.c:29-35 | The section names letter by letter. |
| ElfBytes.SymbolNamesSpelled | src/elfrc/elf_writer.c:20-27 | The symbol names letter by letter, cut after 255 bytes. |
| ElfBytes.HeaderCheckSpelled | src/elfresdump/main.c:86-102 | Which files the header checks refuse and with what answer, by byte position. |
| ElfDump.WalkFindsFirst | src/elfresdump/main.c:107-119 | On any file past the header checks: no resource exactly when every name is read and differs; otherwise the walk stops at the first section that is called .resource or cannot be read, and answers accordingly. |
| ElfDump.BeyondIff | src/elfresdump/main.c:97-113 | A file that passes the header checks is read outside if and only if the header of the section name table is not in it, or some section's header is not in it or all the file holds of that section's name begins .resource, and no earlier section is called .resource. |
| ElfDump.WalkableStaysInside | src/elfresdump/main.c:103-113 | Where the indexed headers lie in the file and the names end, the walk reads nothing outside. |
| ElfDump.LocateResource | src/elfresdump/main.c:86-119 | On any file the checks and the loop give the specified result, including where the walk would read outside the file. |
| ElfDump.SectionRead | src/elfrc/elf_writer.c:78-112 | Every section header of the written file, read back, has its type, link, place and size; .resource is allocated and 16-aligned. |
| ElfDump.SectionNameRead | src/elfrc/elf_writer.c:29-35 | Every section's name offset leads to its own name. |
| ElfDump.ElfRoundTrip | src/elfresdump/main.c:86-121 | The written file passes every check and the walk extracts the container byte for byte. |
| ElfDump.BoundarySymbols | src/elfrc/elf_writer.c:37-57 | Following the section headers, the two boundary symbols are global, lie in .resource, carry their names and differ by exactly the container's size. |
| ElfDump.NamesUncut | src/elfrc/elf_writer.c:20-27 | The symbol names are the documented ones exactly when the prefix has at most 234 bytes. |
| ElfDump.SymbolsDistinct | src/elfrc/elf_writer.c:20-27 | The two symbols have different names exactly when the prefix has at most 238 bytes. |
| ElfDump.LongPrefixCollides | src/elfrc/elf_writer.c:20-27 | A concrete family: 239 equal bytes as prefix give both symbols one name. |

## Left out

- YAML parsing, default inheritance, name-to-number tables and path resolution: the model starts from parsed resource records.
- File input and output, memory mapping, option parsing, listings and message texts: plumbing.
- `erf_find`, `erf_find_id` and `erf_resource_data` (src/libelfr/erf_lookup.c): thin wrappers over linker symbols and a lazily opened handle.
- Allocation failure, `free` and `erf_close`.
- The linker, and several containers merged into one `.resource` section.
- What a program does once it has read outside its input or overflowed an int: the model reports the event and promises nothing about the rest of the run.
- Compression, encryption and signatures: version 1 does not implement them.
- FNV-1a 32-bit: only used to number unknown language tags.
- Integrity.BurstIsDetected: a change of an even number of bits that touches the stored checksum and other bytes at once is not covered, because the two differences can cancel (`Integrity.DifferencesCanCancel`).
- ErfReader.Library.FindIn: no result is promised when a comparison leaves the opened bytes, only that this is detected.
- ErfReader.MetadataGet: no result is promised when the loop counter overflows.
- Reader.TerminatedLookupInside: over all names one direction only in the probing branch, because whether some name's hash leads to a given bucket is a question about FNV-1a preimages.
- ErfReader.MetadataCount: returned strings and counts of foreign containers are as stored; a count of 2^31 or more comes out negative as in C.
