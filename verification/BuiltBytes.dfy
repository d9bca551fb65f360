/**
  The built container by position and value: what another program that reads the
  bytes finds, in numbers, without the model's own encoders and constants.
 */
module BuiltBytes {
  import opened Bytes
  import opened ErfFormat
  import opened Manifests
  import opened Packing
  import opened MetadataBlocks
  import opened Layout
  import opened Reader
  import opened RoundTrip
  import opened Integrity
  import H = HashIndex
  import StringTables
  import Crc64
  import Fnv1a

  // ---------- header ----------

  function StoredChecksum(rs: seq<Resource>): u64
    requires FitsPlain(rs)
  {
    Crc64.ChecksumNumber(Image(rs, Plain(|rs|), 0))
  }

  lemma BuiltIsLaidOut(rs: seq<Resource>)
    requires FitsPlain(rs)
    ensures LaidOut(ContainerBytes(rs), rs, Plain(|rs|), StoredChecksum(rs))
  {
    hide Fits, Laid, Image, Plain, Crc64.ChecksumNumber;
    PlainIsLaidOut(rs, []);
    assert ContainerBytes(rs) + [] == ContainerBytes(rs);
  }

  lemma HeaderPlaced(rs: seq<Resource>)
    requires FitsPlain(rs)
    ensures Placed(ContainerBytes(rs), 0, EncodeHeader(HeaderOf(rs, Plain(|rs|), StoredChecksum(rs)), 0, 0, Zeros(64)))
    ensures |ContainerBytes(rs)| == PlanOf(rs, Base(Plain(|rs|), |rs|)).total
  {
    hide Fits, Image, Crc64.ChecksumNumber, EncodeHeader, PlanOf, Placed, RegionsPlaced, HeaderOf, Directory, Zeros;
    BuiltIsLaidOut(rs);
    ImageLaid(rs, Plain(|rs|), StoredChecksum(rs), []);
  }

  /** The header of a built container, field by field, its reserved bytes and all. */
  lemma HeaderOfBuilt(rs: seq<Resource>)
    requires FitsPlain(rs)
    ensures var b, p := ContainerBytes(rs), PlanOf(rs, 160 + |rs| * 128);
            && |b| == p.total >= 160
            && b[..4] == [0x45, 0x4C, 0x46, 0x52] && U16At(b, 4) == 1 && U16At(b, 6) == 0
            && U32At(b, 8) == 160
            && U32At(b, 12) == 4 + (if HasMetadata(rs) then 2 else 0) + (if IsLocalized(rs) then 1 else 0)
            && U32At(b, 16) == |rs| && U32At(b, 20) == 128 && U32At(b, 24) == 0 && U32At(b, 28) == 0
            && U64At(b, 32) == 160 && U64At(b, 40) == p.strings
            && U64At(b, 48) == (if HasMetadata(rs) then p.metadata else 0)
            && U64At(b, 56) == p.table && U64At(b, 64) == 0 && U64At(b, 72) == p.data && U64At(b, 80) == p.total
            && U64At(b, 88) == StoredChecksum(rs)
            && b[96..160] == Zeros(64)
  {
    hide *;
    var v, x := Plain(|rs|), StoredChecksum(rs);
    HeaderPlaced(rs);
    FitsOfPlain(rs);
    HeaderValues(rs, x);
    PlainBase(|rs|);
    ZerosLength(64);
    HeaderSpelled(ContainerBytes(rs), HeaderOf(rs, v, x), 0, 0, Zeros(64));
    PlacedIs(ContainerBytes(rs), 96, Zeros(64));
  }

  lemma PlainBase(n: nat)
    ensures Base(Plain(n), n) == 160 + n * 128
  {
  }

  lemma ZerosLength(n: nat)
    ensures |Zeros(n)| == n && forall i :: 0 <= i < n ==> Zeros(n)[i] == 0
  {
  }

  lemma PlacedIs(b: seq<byte>, off: nat, s: seq<byte>)
    requires Placed(b, off, s)
    ensures off + |s| <= |b| && b[off..off + |s|] == s
  {
  }

  lemma HeaderValues(rs: seq<Resource>, checksum: u64)
    requires FitsPlain(rs)
    ensures var h, p := HeaderOf(rs, Plain(|rs|), checksum), PlanOf(rs, Base(Plain(|rs|), |rs|));
            && h.versionMajor == 1 && h.versionMinor == 0 && h.headerSize == 160
            && h.flags == 4 + (if HasMetadata(rs) then 2 else 0) + (if IsLocalized(rs) then 1 else 0)
            && h.resourceCount == |rs| && h.directoryEntrySize == 128 && h.directoryOffset == 160
            && h.stringOffset == p.strings && h.metadataOffset == (if HasMetadata(rs) then p.metadata else 0)
            && h.hashTableOffset == p.table && h.signatureOffset == 0 && h.dataOffset == p.data
            && h.totalSize == p.total && h.checksum == checksum
  {
    hide Fits, HasMetadata, IsLocalized, PlanOf;
  }

  /** The stored checksum is CRC-64/XZ of the container with bytes 88 to 95 zero. */
  lemma ChecksumOfBuilt(rs: seq<Resource>)
    requires FitsPlain(rs)
    ensures var b := ContainerBytes(rs);
            && |b| >= 160
            && U64At(b, 88) == Crc64.Checksum(b[..88] + [0, 0, 0, 0, 0, 0, 0, 0] + b[96..]) as nat
  {
    hide Fits, ContainerBytes, Crc64.Checksum, U64At, ZeroField;
    var b := ContainerBytes(rs);
    BuiltVerifies(rs);
    ChecksumHoldsSpelled(b);
  }

  /** What verifying compares, by position. */
  lemma ChecksumHoldsSpelled(b: seq<byte>)
    requires |b| >= 160
    ensures ChecksumHolds(b) <==>
      Crc64.Checksum(b[..88] + [0, 0, 0, 0, 0, 0, 0, 0] + b[96..]) as nat == U64At(b, 88)
  {
    hide Crc64.Checksum, Num;
    assert Zeros(8) == [0, 0, 0, 0, 0, 0, 0, 0];
  }

  // ---------- directory ----------

  lemma EntryPlaced(rs: seq<Resource>, i: nat)
    requires FitsPlain(rs) && i < |rs|
    ensures Placed(ContainerBytes(rs), 160 + i * 128, EncodeEntry(EntryOf(rs, Base(Plain(|rs|), |rs|), i), 0, Zeros(48)))
  {
    hide Fits, Image, Laid, Crc64.ChecksumNumber, EncodeEntry, EntryOf, ContainerBytes, Placed, PlanOf, Flatten, Zeros;
    var b, v := ContainerBytes(rs), Plain(|rs|);
    BuiltIsLaidOut(rs);
    DirectoryPlaced(b, rs, v, StoredChecksum(rs));
    var blocks := EntryBlocks(rs, v);
    FlattenAt(blocks, Stride(v), i);
    PlacedTrans(b, HeaderSize(v), Directory(rs, v), i * Stride(v), blocks[i]);
  }

  lemma DirectoryPlaced(b: seq<byte>, rs: seq<Resource>, v: Variant, checksum: u64)
    requires LaidOut(b, rs, v, checksum)
    ensures Placed(b, HeaderSize(v), Directory(rs, v))
  {
    hide Fits, RegionsPlaced, Directory, HeaderBytes, Placed;
  }

  /** Entry i of a built container lies 128 * i bytes behind the header. Field by field, its reserved bytes and all. */
  lemma EntryOfBuilt(rs: seq<Resource>, i: nat)
    requires FitsPlain(rs) && i < |rs|
    ensures var b, p, at := ContainerBytes(rs), PlanOf(rs, 160 + |rs| * 128), 160 + i * 128;
            && at + 128 <= |b|
            && U32At(b, at) == rs[i].finalId && U32At(b, at + 4) == rs[i].typ
            && U32At(b, at + 8) == rs[i].language && U32At(b, at + 12) == rs[i].flags
            && U32At(b, at + 16) == StringTables.NameOffset(Names(rs), p.strings, i) && U32At(b, at + 20) == 0
            && U64At(b, at + 24) == PieceOffset(DataPieces(rs), 16, p.data, i)
            && U64At(b, at + 32) == |Payload(rs[i])| && U64At(b, at + 40) == |Payload(rs[i])|
            && U64At(b, at + 48) == PieceOffset(MetaPieces(rs), 8, p.metadata, i)
            && U64At(b, at + 56) == Fnv1a.Hash(rs[i].name) as nat
            && U64At(b, at + 64) == Crc64.Checksum(Payload(rs[i])) as nat
            && U64At(b, at + 72) == 0 && b[at + 80..at + 128] == Zeros(48)
  {
    hide *;
    var b, base := ContainerBytes(rs), Base(Plain(|rs|), |rs|);
    EntryPlaced(rs, i);
    FitsOfPlain(rs);
    EntryValues(rs, base, i);
    PlainBase(|rs|);
    ZerosLength(48);
    EntrySpelled(b, 160 + i * 128, EntryOf(rs, base, i), 0, Zeros(48));
    PlacedIs(b, 160 + i * 128 + 80, Zeros(48));
    Fnv1a.HashNumberIsHash(rs[i].name);
    ChecksumNumberIs(Payload(rs[i]));
  }

  lemma ChecksumNumberIs(data: seq<byte>)
    ensures Crc64.ChecksumNumber(data) == Crc64.Checksum(data) as nat
  {
    hide Crc64.Checksum;
  }

  lemma EntryValues(rs: seq<Resource>, base: nat, i: nat)
    requires Fits(rs, base) && i < |rs|
    ensures var e, p, r := EntryOf(rs, base, i), PlanOf(rs, base), rs[i];
            && e.id == r.finalId && e.typ == r.typ && e.language == r.language && e.flags == r.flags
            && e.nameOffset == StringTables.NameOffset(Names(rs), p.strings, i)
            && e.dataOffset == PieceOffset(DataPieces(rs), 16, p.data, i)
            && e.dataSize == |Payload(r)| && e.originalSize == |Payload(r)|
            && e.metadataOffset == PieceOffset(MetaPieces(rs), 8, p.metadata, i)
            && e.hash == Fnv1a.HashNumber(r.name) && e.checksum == Crc64.ChecksumNumber(Payload(r)) && e.timestamp == 0
  {
    hide Fits, PlanOf, PieceOffset, StringTables.NameOffset, Fnv1a.HashNumber, Crc64.ChecksumNumber, Payload;
  }

  // ---------- hash table ----------

  /** The table that starts at `at`, as its bytes say. */
  function BucketsIn(b: seq<byte>, at: nat, n: nat): (t: seq<Bucket>)
    requires at + 8 + 16 * n <= |b|
    ensures |t| == n
  {
    seq(n, s requires 0 <= s < n => Bucket(U64At(b, at + 8 + 16 * s), U32At(b, at + 8 + 16 * s + 8)))
  }

  lemma BucketPlaced(rs: seq<Resource>, s: nat)
    requires FitsPlain(rs) && |rs| < 0x4000_0000 && s < |TableOf(rs)|
    ensures Placed(ContainerBytes(rs), PlanOf(rs, Base(Plain(|rs|), |rs|)).table + 8 + s * 16, EncodeBucket(TableOf(rs)[s]))
  {
    hide PlanOf, Placed, Flatten, LaidOut, Fits, ContainerBytes, EncodeBucket, H.BucketCount, H.Filled, TableOf, Plain, Image;
    var b, v, t := ContainerBytes(rs), Plain(|rs|), TableOf(rs);
    BuiltIsLaidOut(rs);
    LaidOutFits(b, rs, v, StoredChecksum(rs));
    TableReadsBack(b, rs, v, StoredChecksum(rs));
    FlattenAt(BucketBlocks(t), BUCKET_SIZE, s);
    PlacedTrans(b, PlanOf(rs, Base(v, |rs|)).table + TABLE_HEADER_SIZE, Flatten(BucketBlocks(t)), s * BUCKET_SIZE, BucketBlocks(t)[s]);
  }

  lemma TablePlaced(rs: seq<Resource>)
    requires FitsPlain(rs)
    ensures |rs| < 0x4000_0000
    ensures var b, at := ContainerBytes(rs), PlanOf(rs, Base(Plain(|rs|), |rs|)).table;
            && at + 8 + 16 * |TableOf(rs)| <= |b| && |TableOf(rs)| == H.BucketCount(|rs|)
            && U32At(b, at) == |TableOf(rs)| && U32At(b, at + 4) == 0
  {
    hide *;
    var b, v := ContainerBytes(rs), Plain(|rs|);
    BuiltIsLaidOut(rs);
    FitsOfPlain(rs);
    FewEnough(rs, Base(v, |rs|));
    TableSizes();
    TableReadsBack(b, rs, v, StoredChecksum(rs));
    RegionAt(b, rs, v, StoredChecksum(rs));
    TableParts(rs);
    PlacedSplit(b, PlanOf(rs, Base(v, |rs|)).table, Nums([|TableOf(rs)|, 0], 4), Flatten(BucketBlocks(TableOf(rs))));
    SecondIsZero(b, PlanOf(rs, Base(v, |rs|)).table, |TableOf(rs)|);
  }

  lemma TableSizes()
    ensures TABLE_HEADER_SIZE == 8 && BUCKET_SIZE == 16
  {
  }

  lemma FitsOfPlain(rs: seq<Resource>)
    requires FitsPlain(rs)
    ensures ValidVariant(Plain(|rs|), |rs|) && Fits(rs, Base(Plain(|rs|), |rs|))
  {
    hide Fits;
  }

  lemma SecondIsZero(b: seq<byte>, at: nat, n: nat)
    requires Placed(b, at, Nums([n, 0], 4))
    ensures at + 8 <= |b| && U32At(b, at + 4) == 0
  {
    hide Placed, Nums, Num;
    Widths();
    ReadNums(b, at, [n, 0], 4, 1);
  }

  lemma BucketsAreTable(rs: seq<Resource>)
    requires FitsPlain(rs) && |rs| < 0x4000_0000
    requires PlanOf(rs, Base(Plain(|rs|), |rs|)).table + 8 + 16 * |TableOf(rs)| <= |ContainerBytes(rs)|
    ensures BucketsIn(ContainerBytes(rs), PlanOf(rs, Base(Plain(|rs|), |rs|)).table, |TableOf(rs)|) == TableOf(rs)
    ensures forall s :: 0 <= s < |TableOf(rs)| ==>
      U32At(ContainerBytes(rs), PlanOf(rs, Base(Plain(|rs|), |rs|)).table + 8 + 16 * s + 12) == 0
  {
    hide PlanOf, FitsPlain, ContainerBytes, TableOf, U32At, U64At, Placed, Plain, EncodeBucket;
    var b, at, t := ContainerBytes(rs), PlanOf(rs, Base(Plain(|rs|), |rs|)).table, TableOf(rs);
    forall s | 0 <= s < |t|
      ensures U64At(b, at + 8 + 16 * s) == t[s].hash && U32At(b, at + 8 + 16 * s + 8) == t[s].directoryIndex
      ensures U32At(b, at + 8 + 16 * s + 12) == 0
    {
      BucketPlaced(rs, s);
      BucketSpelled(b, at + 8 + s * 16, t[s]);
    }
  }

  /** The hash table of a built container: a power of two buckets, at least 16 and twice the resources and no more
      than needed for that, each resource in one of them under its name's hash, everything from bucket
      `hash % count` to it in use, equal hashes in manifest order. */
  lemma TableOfBuilt(rs: seq<Resource>)
    requires FitsPlain(rs)
    ensures |ContainerBytes(rs)| >= 160
    ensures var b := ContainerBytes(rs);
            var at := U64At(b, 56);
            && at + 8 <= |b| && U32At(b, at + 4) == 0
            && var n := U32At(b, at);
               && 16 <= n && 2 * |rs| <= n && (n == 16 || n < 4 * |rs|) && (exists j: nat :: n == H.Pow2(j))
               && at + 8 + 16 * n <= |b|
               && (forall s :: 0 <= s < n ==> U32At(b, at + 8 + 16 * s + 12) == 0)
               && var t, hs := BucketsIn(b, at, n), H.Hashes(Names(rs));
                  H.CarriesHashes(t, hs) && H.HoldsAll(t, hs) && H.HoldsOnce(t) && H.ReachableFromHash(t) && H.InEntryOrder(t)
  {
    hide *;
    HeaderOfBuilt(rs);
    PlainBase(|rs|);
    TablePlaced(rs);
    BucketsAreTable(rs);
    TableIsOpenAddressed(rs);
  }

  lemma TableIsOpenAddressed(rs: seq<Resource>)
    requires |rs| < 0x4000_0000
    ensures var t, hs, n := TableOf(rs), H.Hashes(Names(rs)), H.BucketCount(|rs|);
            && H.CarriesHashes(t, hs) && H.HoldsAll(t, hs) && H.HoldsOnce(t) && H.ReachableFromHash(t) && H.InEntryOrder(t)
            && 16 <= n && 2 * |rs| <= n && (n == 16 || n < 4 * |rs|) && (exists j: nat :: n == H.Pow2(j))
  {
    hide H.BucketCount, H.Filled, H.Hashes, H.CarriesHashes, H.HoldsAll, H.HoldsOnce, H.ReachableFromHash, H.InEntryOrder;
    H.BucketCountBounds(|rs|);
    H.FilledIsOpenAddressed(H.Hashes(Names(rs)), H.BucketCount(|rs|));
  }

  // ---------- metadata ----------

  /** A block starts with its count; the pairs follow at once. */
  lemma BlockSpelled(b: seq<byte>, off: nat, kvs: seq<Metadata>)
    requires Placed(b, off, Block(kvs)) && |kvs| < TWO32
    ensures off + 4 <= |b| && U32At(b, off) == |kvs| && Placed(b, off + 4, Pairs(kvs))
  {
    hide Placed, LE, Pairs, U32At;
    PlacedSplit(b, off, LE(|kvs|, 4), Pairs(kvs));
    U32ReadsBack(b, off, |kvs|);
  }

  /** A pair is the key's length, the key and a NUL, the value's length, the value and a NUL. */
  lemma PairSpelled(b: seq<byte>, off: nat, kvs: seq<Metadata>)
    requires kvs != [] && Placed(b, off, Pairs(kvs)) && |kvs[0].key| < TWO32 && |kvs[0].value| < TWO32
    ensures var k, v := kvs[0].key, kvs[0].value;
            && off + |k| + |v| + 10 <= |b|
            && U32At(b, off) == |k| && Placed(b, off + 4, k + [0])
            && U32At(b, off + |k| + 5) == |v| && Placed(b, off + |k| + 9, v + [0])
            && Placed(b, off + |k| + |v| + 10, Pairs(kvs[1..]))
  {
    hide Placed, U32At, Field, Pairs;
    var k, v, rest := Field(kvs[0].key), Field(kvs[0].value), Pairs(kvs[1..]);
    FirstPair(kvs);
    PlacedSplit(b, off, k + v, rest);
    PlacedSplit(b, off, k, v);
    FieldSpelled(b, off, kvs[0].key);
    FieldSpelled(b, off + |k|, kvs[0].value);
    PlacedInside(b, off + |k + v|, rest);
  }

  lemma FieldSpelled(b: seq<byte>, off: nat, s: seq<byte>)
    requires Placed(b, off, Field(s)) && |s| < TWO32
    ensures |Field(s)| == |s| + 5 && off + |s| + 5 <= |b|
    ensures U32At(b, off) == |s| && Placed(b, off + 4, s + [0])
  {
    hide Placed, Num, LE, U32At;
    PlacedInside(b, off, Field(s));
    FieldReadsBack(b, off, s);
  }
}
