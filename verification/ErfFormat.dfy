/** The on-disk structures of include/elfr/erf_format.h, byte by byte. */
module ErfFormat {
  import opened Bytes

  const MAGIC: seq<byte> := [0x45, 0x4C, 0x46, 0x52]
  const VERSION_MAJOR: u16 := 1
  const VERSION_MINOR: u16 := 0
  const HEADER_SIZE: nat := 160
  const ENTRY_SIZE: nat := 128
  const TABLE_HEADER_SIZE: nat := 8
  const BUCKET_SIZE: nat := 16
  const CHECKSUM_AT: nat := 88

  const HFLAG_LOCALIZED: nat := 1
  const HFLAG_METADATA: nat := 2
  const HFLAG_HASH_TABLE: nat := 4

  const HASH_EMPTY: u32 := 0xFFFF_FFFF

  /** ERFHeader without the magic and the reserved fields. */
  datatype Header = Header(
    versionMajor: u16, versionMinor: u16,
    headerSize: u32, flags: u32, resourceCount: u32, directoryEntrySize: u32,
    directoryOffset: u64, stringOffset: u64, metadataOffset: u64, hashTableOffset: u64,
    signatureOffset: u64, dataOffset: u64, totalSize: u64, checksum: u64)

  /** ERFDirectoryEntry without the reserved fields. */
  datatype Entry = Entry(
    id: u32, typ: u32, language: u32, flags: u32, nameOffset: u32,
    dataOffset: u64, dataSize: u64, originalSize: u64, metadataOffset: u64,
    hash: u64, checksum: u64, timestamp: u64)

  datatype Bucket = Bucket(hash: u64, directoryIndex: u32)

  predicate HasHashTable(h: Header) {
    (h.flags / HFLAG_HASH_TABLE) % 2 == 1 && h.hashTableOffset != 0
  }

  // ---------- header ----------

  /** `reserved0` and the padding after it, then `tail`: reserved[8] and whatever
      a longer header_size adds. */
  function EncodeHeader(h: Header, reserved0: u32, padding: u32, tail: seq<byte>): (r: seq<byte>)
    ensures |r| == 96 + |tail|
  {
    MAGIC
    + Nums([h.versionMajor, h.versionMinor], 2)
    + Nums([h.headerSize, h.flags, h.resourceCount, h.directoryEntrySize, reserved0, padding], 4)
    + Nums([h.directoryOffset, h.stringOffset, h.metadataOffset, h.hashTableOffset,
            h.signatureOffset, h.dataOffset, h.totalSize], 8)
    + LE(h.checksum, 8)
    + tail
  }

  function DecodeHeader(b: seq<byte>): Header
    requires |b| >= HEADER_SIZE
  {
    Header(U16At(b, 4), U16At(b, 6), U32At(b, 8), U32At(b, 12), U32At(b, 16), U32At(b, 20),
           U64At(b, 32), U64At(b, 40), U64At(b, 48), U64At(b, 56), U64At(b, 64), U64At(b, 72),
           U64At(b, 80), U64At(b, 88))
  }

  lemma HeaderParts(b: seq<byte>, h: Header, reserved0: u32, padding: u32, tail: seq<byte>)
    requires Placed(b, 0, EncodeHeader(h, reserved0, padding, tail))
    ensures Placed(b, 0, MAGIC)
    ensures Placed(b, 4, Nums([h.versionMajor, h.versionMinor], 2))
    ensures Placed(b, 8, Nums([h.headerSize, h.flags, h.resourceCount, h.directoryEntrySize, reserved0, padding], 4))
    ensures Placed(b, 32, Nums([h.directoryOffset, h.stringOffset, h.metadataOffset, h.hashTableOffset,
                                h.signatureOffset, h.dataOffset, h.totalSize], 8))
    ensures Placed(b, CHECKSUM_AT, LE(h.checksum, 8))
    ensures Placed(b, CHECKSUM_AT + 8, tail)
  {
    hide Placed, Nums, LE;
    var p0 := MAGIC;
    var p1 := Nums([h.versionMajor, h.versionMinor], 2);
    var p2 := Nums([h.headerSize, h.flags, h.resourceCount, h.directoryEntrySize, reserved0, padding], 4);
    var p3 := Nums([h.directoryOffset, h.stringOffset, h.metadataOffset, h.hashTableOffset,
                    h.signatureOffset, h.dataOffset, h.totalSize], 8);
    PlacedSplit(b, 0, p0 + p1 + p2 + p3 + LE(h.checksum, 8), tail);
    PlacedSplit(b, 0, p0 + p1 + p2 + p3, LE(h.checksum, 8));
    PlacedSplit(b, 0, p0 + p1 + p2, p3);
    PlacedSplit(b, 0, p0 + p1, p2);
    PlacedSplit(b, 0, p0, p1);
  }

  /** Headers that differ in the checksum alone differ in those eight bytes alone. */
  lemma ChecksumFieldOnly(h: Header, reserved0: u32, padding: u32, tail: seq<byte>)
    ensures var e, z := EncodeHeader(h, reserved0, padding, tail), EncodeHeader(h.(checksum := 0), reserved0, padding, tail);
            && e[..CHECKSUM_AT] == z[..CHECKSUM_AT]
            && z[CHECKSUM_AT..CHECKSUM_AT + 8] == LE(0, 8)
            && e[CHECKSUM_AT + 8..] == z[CHECKSUM_AT + 8..]
  {
    hide Nums, LE;
    var p0 := MAGIC;
    var p1 := Nums([h.versionMajor, h.versionMinor], 2);
    var p2 := Nums([h.headerSize, h.flags, h.resourceCount, h.directoryEntrySize, reserved0, padding], 4);
    var p3 := Nums([h.directoryOffset, h.stringOffset, h.metadataOffset, h.hashTableOffset,
                    h.signatureOffset, h.dataOffset, h.totalSize], 8);
    FieldOnly(p0 + p1 + p2 + p3, LE(h.checksum, 8), LE(0, 8), tail);
  }

  lemma FieldOnly(front: seq<byte>, x: seq<byte>, y: seq<byte>, tail: seq<byte>)
    requires |x| == |y|
    ensures var e, z, n := front + x + tail, front + y + tail, |front|;
            e[..n] == z[..n] == front && z[n..n + |x|] == y && e[n + |x|..] == z[n + |x|..] == tail
  {
  }

  /** The header by position, reserved fields and all. */
  lemma HeaderSpelled(b: seq<byte>, h: Header, reserved0: u32, padding: u32, tail: seq<byte>)
    requires Placed(b, 0, EncodeHeader(h, reserved0, padding, tail)) && |tail| >= 64
    ensures |b| >= 160 && b[..4] == [0x45, 0x4C, 0x46, 0x52]
    ensures U16At(b, 4) == h.versionMajor && U16At(b, 6) == h.versionMinor
    ensures U32At(b, 8) == h.headerSize && U32At(b, 12) == h.flags
    ensures U32At(b, 16) == h.resourceCount && U32At(b, 20) == h.directoryEntrySize
    ensures U32At(b, 24) == reserved0 && U32At(b, 28) == padding
    ensures U64At(b, 32) == h.directoryOffset && U64At(b, 40) == h.stringOffset
    ensures U64At(b, 48) == h.metadataOffset && U64At(b, 56) == h.hashTableOffset
    ensures U64At(b, 64) == h.signatureOffset && U64At(b, 72) == h.dataOffset
    ensures U64At(b, 80) == h.totalSize && U64At(b, 88) == h.checksum
    ensures Placed(b, 96, tail)
  {
    hide Placed, Nums, Num, Pow256, EncodeHeader, LE;
    HeaderParts(b, h, reserved0, padding, tail);
    PlacedInside(b, 96, tail);
    Widths();
    PlacedPrefix(b, MAGIC);
    var v1 := [h.versionMajor, h.versionMinor];
    var v2 := [h.headerSize, h.flags, h.resourceCount, h.directoryEntrySize, reserved0, padding];
    var v3 := [h.directoryOffset, h.stringOffset, h.metadataOffset, h.hashTableOffset,
               h.signatureOffset, h.dataOffset, h.totalSize];
    ReadNums(b, 4, v1, 2, 0);
    ReadNums(b, 4, v1, 2, 1);
    ReadNums(b, 8, v2, 4, 0);
    ReadNums(b, 8, v2, 4, 1);
    ReadNums(b, 8, v2, 4, 2);
    ReadNums(b, 8, v2, 4, 3);
    ReadNums(b, 8, v2, 4, 4);
    ReadNums(b, 8, v2, 4, 5);
    ReadNums(b, 32, v3, 8, 0);
    ReadNums(b, 32, v3, 8, 1);
    ReadNums(b, 32, v3, 8, 2);
    ReadNums(b, 32, v3, 8, 3);
    ReadNums(b, 32, v3, 8, 4);
    ReadNums(b, 32, v3, 8, 5);
    ReadNums(b, 32, v3, 8, 6);
    ReadNum(b, CHECKSUM_AT, h.checksum, 8);
  }

  /** Reading a header back gives every field, whatever the reserved fields hold. */
  lemma HeaderRoundTrip(b: seq<byte>, h: Header, reserved0: u32, padding: u32, tail: seq<byte>)
    requires Placed(b, 0, EncodeHeader(h, reserved0, padding, tail)) && |tail| >= 64
    ensures b[..4] == MAGIC && DecodeHeader(b) == h
  {
    hide Placed, EncodeHeader, U16At, U32At, U64At;
    HeaderSpelled(b, h, reserved0, padding, tail);
  }

  lemma PlacedPrefix(b: seq<byte>, s: seq<byte>)
    requires Placed(b, 0, s)
    ensures |s| <= |b| && b[..|s|] == s
  {
  }

  // ---------- directory entry ----------

  /** `tail` is reserved[6] and whatever a longer directory_entry_size adds. */
  function EncodeEntry(e: Entry, reserved0: u32, tail: seq<byte>): (r: seq<byte>)
    ensures |r| == 80 + |tail|
  {
    Nums([e.id, e.typ, e.language, e.flags, e.nameOffset, reserved0], 4)
    + Nums([e.dataOffset, e.dataSize, e.originalSize, e.metadataOffset, e.hash, e.checksum, e.timestamp], 8)
    + tail
  }

  function DecodeEntry(b: seq<byte>, off: nat): Entry
    requires off + ENTRY_SIZE <= |b|
  {
    Entry(U32At(b, off), U32At(b, off + 4), U32At(b, off + 8), U32At(b, off + 12), U32At(b, off + 16),
          U64At(b, off + 24), U64At(b, off + 32), U64At(b, off + 40), U64At(b, off + 48),
          U64At(b, off + 56), U64At(b, off + 64), U64At(b, off + 72))
  }

  /** An entry by position, reserved fields and all. */
  lemma EntrySpelled(b: seq<byte>, off: nat, e: Entry, reserved0: u32, tail: seq<byte>)
    requires Placed(b, off, EncodeEntry(e, reserved0, tail)) && |tail| >= 48
    ensures off + 128 <= |b|
    ensures U32At(b, off) == e.id && U32At(b, off + 4) == e.typ
    ensures U32At(b, off + 8) == e.language && U32At(b, off + 12) == e.flags
    ensures U32At(b, off + 16) == e.nameOffset && U32At(b, off + 20) == reserved0
    ensures U64At(b, off + 24) == e.dataOffset && U64At(b, off + 32) == e.dataSize
    ensures U64At(b, off + 40) == e.originalSize && U64At(b, off + 48) == e.metadataOffset
    ensures U64At(b, off + 56) == e.hash && U64At(b, off + 64) == e.checksum
    ensures U64At(b, off + 72) == e.timestamp && Placed(b, off + 80, tail)
  {
    hide Nums, Num, Pow256, LE, Placed;
    Widths();
    var v1 := [e.id, e.typ, e.language, e.flags, e.nameOffset, reserved0];
    var v2 := [e.dataOffset, e.dataSize, e.originalSize, e.metadataOffset, e.hash, e.checksum, e.timestamp];
    PlacedSplit(b, off, Nums(v1, 4) + Nums(v2, 8), tail);
    PlacedSplit(b, off, Nums(v1, 4), Nums(v2, 8));
    PlacedInside(b, off + 80, tail);
    ReadNums(b, off, v1, 4, 0);
    ReadNums(b, off, v1, 4, 1);
    ReadNums(b, off, v1, 4, 2);
    ReadNums(b, off, v1, 4, 3);
    ReadNums(b, off, v1, 4, 4);
    ReadNums(b, off, v1, 4, 5);
    ReadNums(b, off + 24, v2, 8, 0);
    ReadNums(b, off + 24, v2, 8, 1);
    ReadNums(b, off + 24, v2, 8, 2);
    ReadNums(b, off + 24, v2, 8, 3);
    ReadNums(b, off + 24, v2, 8, 4);
    ReadNums(b, off + 24, v2, 8, 5);
    ReadNums(b, off + 24, v2, 8, 6);
  }

  lemma EntryRoundTrip(b: seq<byte>, off: nat, e: Entry, reserved0: u32, tail: seq<byte>)
    requires Placed(b, off, EncodeEntry(e, reserved0, tail)) && |tail| >= 48
    ensures off + ENTRY_SIZE <= |b| && DecodeEntry(b, off) == e
  {
    hide Placed, EncodeEntry, U32At, U64At;
    EntrySpelled(b, off, e, reserved0, tail);
  }

  // ---------- hash bucket ----------

  function EncodeBucket(k: Bucket): (r: seq<byte>)
    ensures |r| == BUCKET_SIZE
  {
    LE(k.hash, 8) + Nums([k.directoryIndex, 0], 4)
  }

  function DecodeBucket(b: seq<byte>, off: nat): Bucket
    requires off + BUCKET_SIZE <= |b|
  {
    Bucket(U64At(b, off), U32At(b, off + 8))
  }

  /** A bucket by position. */
  lemma BucketSpelled(b: seq<byte>, off: nat, k: Bucket)
    requires Placed(b, off, EncodeBucket(k))
    ensures off + 16 <= |b|
    ensures U64At(b, off) == k.hash && U32At(b, off + 8) == k.directoryIndex && U32At(b, off + 12) == 0
  {
    hide Nums, Num, Pow256, LE, Placed;
    Widths();
    var v := [k.directoryIndex, 0];
    PlacedSplit(b, off, LE(k.hash, 8), Nums(v, 4));
    PlacedInside(b, off + 8, Nums(v, 4));
    ReadNum(b, off, k.hash, 8);
    ReadNums(b, off + 8, v, 4, 0);
    ReadNums(b, off + 8, v, 4, 1);
  }

  lemma BucketRoundTrip(b: seq<byte>, off: nat, k: Bucket)
    requires Placed(b, off, EncodeBucket(k))
    ensures off + BUCKET_SIZE <= |b| && DecodeBucket(b, off) == k
  {
    hide Placed, EncodeBucket, U32At, U64At;
    BucketSpelled(b, off, k);
  }
}
