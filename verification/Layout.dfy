/**
  The container's bytes as a function of the manifest: header, directory,
  strings, metadata, hash table, payloads (section 4 of the ERF specification).

  A Variant says what a later revision of the format may add without changing
  what readers see: longer headers and entries, reserved fields, unknown flag
  bits, another minor version (section 16). The builder writes the plain variant.
 */
module Layout {
  import opened Bytes
  import opened ErfFormat
  import opened Manifests
  import opened StringTables
  import opened HashIndex
  import opened MetadataBlocks
  import opened Packing
  import Crc64
  import Fnv1a

  // ---------- regions ----------

  function Payload(r: Resource): seq<byte> {
    if r.file.Some? then r.file.value else []
  }

  function DataPieces(rs: seq<Resource>): (r: Pieces)
    ensures |r| == |rs|
  {
    seq(|rs|, i requires 0 <= i < |rs| => Some(Payload(rs[i])))
  }

  function StringBytes(rs: seq<Resource>): seq<byte> {
    TableBytes(Distinct(Names(rs)))
  }

  function BucketBlocks(t: seq<Bucket>): (r: seq<seq<byte>>)
    ensures |r| == |t|
    ensures forall i :: 0 <= i < |r| ==> |r[i]| == BUCKET_SIZE
  {
    seq(|t|, i requires 0 <= i < |t| => EncodeBucket(t[i]))
  }

  /** ERFHashTableHeader and the buckets. */
  function TableImage(t: seq<Bucket>): (r: seq<byte>)
    ensures |r| == TABLE_HEADER_SIZE + |t| * BUCKET_SIZE
  {
    FlattenLength(BucketBlocks(t), BUCKET_SIZE);
    Nums([|t|, 0], 4) + Flatten(BucketBlocks(t))
  }

  function TableOf(rs: seq<Resource>): (t: seq<Bucket>)
    requires |rs| < 0x4000_0000
  {
    BucketCountBounds(|rs|);
    Filled(Hashes(Names(rs)), BucketCount(|rs|))
  }

  /** Where each region starts and ends when header and directory take `base` bytes. */
  datatype Plan = Plan(strings: nat, stringsEnd: nat, metadata: nat, metadataEnd: nat,
                       table: nat, tableEnd: nat, data: nat, total: nat)

  function PlanOf(rs: seq<Resource>, base: nat): Plan {
    var strings := AlignUp(base, 8);
    var stringsEnd := strings + |StringBytes(rs)|;
    var metadata := AlignUp(stringsEnd, 8);
    var metadataEnd := PosAfter(MetaPieces(rs), 8, metadata, |rs|);
    var table := AlignUp(metadataEnd, 8);
    var tableEnd := table + TABLE_HEADER_SIZE + BucketCount(|rs|) * BUCKET_SIZE;
    var data := AlignUp(tableEnd, 16);
    var total := PosAfter(DataPieces(rs), 16, data, |rs|);
    Plan(strings, stringsEnd, metadata, metadataEnd, table, tableEnd, data, total)
  }

  /** What the builder's fixed-width fields and size_t sums can hold. */
  predicate Fits(rs: seq<Resource>, base: nat) {
    && AllWellFormed(rs)
    && |rs| < 0x4000_0000
    && PlanOf(rs, base).stringsEnd < TWO32
    && PlanOf(rs, base).total < 0x4000_0000_0000_0000
  }

  /** Between the regions there is only the padding that their alignment needs. */
  lemma PlanTight(rs: seq<Resource>, base: nat)
    ensures var p := PlanOf(rs, base);
            && p.strings < base + 8 && p.stringsEnd == p.strings + |StringBytes(rs)|
            && p.metadata < p.stringsEnd + 8 && p.metadataEnd == PosAfter(MetaPieces(rs), 8, p.metadata, |rs|)
            && p.table < p.metadataEnd + 8 && p.tableEnd == p.table + 8 + 16 * BucketCount(|rs|)
            && p.data < p.tableEnd + 16 && p.total == PosAfter(DataPieces(rs), 16, p.data, |rs|)
  {
    hide BucketCount, PosAfter, StringBytes, Padding;
  }

  /** Regions are ordered and disjoint; metadata and hash table are 8-aligned, payloads 16-aligned. */
  lemma PlanOrdered(rs: seq<Resource>, base: nat)
    ensures var p := PlanOf(rs, base);
            && base <= p.strings <= p.stringsEnd <= p.metadata <= p.metadataEnd <= p.table
            && p.table < p.tableEnd <= p.data <= p.total
            && p.strings % 8 == 0 && p.metadata % 8 == 0 && p.table % 8 == 0 && p.data % 16 == 0
            && p.tableEnd == p.table + TABLE_HEADER_SIZE + BucketCount(|rs|) * BUCKET_SIZE
  {
    hide BucketCount, PosAfter, StringBytes, AlignUp;
    var p := PlanOf(rs, base);
    Aligned8(base);
    Aligned8(p.stringsEnd);
    Aligned8(p.metadataEnd);
    Aligned16(p.tableEnd);
  }

  /** Everything after header and directory. */
  function Rest(rs: seq<Resource>, base: nat): seq<byte>
    requires |rs| < 0x4000_0000
  {
    var p := PlanOf(rs, base);
    Zeros(Padding(base, 8)) + StringBytes(rs)
    + Zeros(Padding(p.stringsEnd, 8)) + All(MetaPieces(rs), 8, p.metadata)
    + Zeros(Padding(p.metadataEnd, 8)) + TableImage(TableOf(rs))
    + Zeros(Padding(p.tableEnd, 16)) + All(DataPieces(rs), 16, p.data)
  }

  /** The regions of a container that has header and directory in its first `base` bytes. */
  predicate RegionsPlaced(b: seq<byte>, rs: seq<Resource>, base: nat)
    requires |rs| < 0x4000_0000
  {
    var p := PlanOf(rs, base);
    && p.total <= |b|
    && Placed(b, p.strings, StringBytes(rs))
    && Placed(b, p.metadata, All(MetaPieces(rs), 8, p.metadata))
    && Placed(b, p.table, TableImage(TableOf(rs)))
    && Placed(b, p.data, All(DataPieces(rs), 16, p.data))
  }

  /** Eight pieces in a row lie at the sums of the lengths before them. */
  lemma EightPieces(h: seq<byte>, z0: seq<byte>, a: seq<byte>, z1: seq<byte>, b: seq<byte>,
                    z2: seq<byte>, c: seq<byte>, z3: seq<byte>, d: seq<byte>, t: seq<byte>)
    ensures var s := h + (z0 + a + z1 + b + z2 + c + z3 + d) + t;
            && Placed(s, |h| + |z0|, a)
            && Placed(s, |h| + |z0| + |a| + |z1|, b)
            && Placed(s, |h| + |z0| + |a| + |z1| + |b| + |z2|, c)
            && Placed(s, |h| + |z0| + |a| + |z1| + |b| + |z2| + |c| + |z3|, d)
  {
    hide Placed;
    var r3 := z0 + a + z1 + b;
    var r5 := r3 + z2 + c;
    var s := h + (r5 + z3 + d) + t;
    PlacedAfter(h, r5 + z3 + d, t);
    PlacedSplit(s, |h|, r5 + z3, d);
    PlacedSplit(s, |h|, r5, z3);
    PlacedSplit(s, |h|, r3 + z2, c);
    PlacedSplit(s, |h|, r3, z2);
    PlacedSplit(s, |h|, z0 + a + z1, b);
    PlacedSplit(s, |h|, z0 + a, z1);
    PlacedSplit(s, |h|, z0, a);
  }

  lemma RestPlaced(front: seq<byte>, rs: seq<Resource>, trailing: seq<byte>)
    requires |rs| < 0x4000_0000
    ensures |front + Rest(rs, |front|)| == PlanOf(rs, |front|).total
    ensures RegionsPlaced(front + Rest(rs, |front|) + trailing, rs, |front|)
  {
    hide Placed, PosAfter, Packed, TableImage, StringBytes, Zeros, Padding, BucketCount, DoubledTo;
    var p := PlanOf(rs, |front|);
    BucketCountBounds(|rs|);
    EightPieces(front,
      Zeros(Padding(|front|, 8)), StringBytes(rs),
      Zeros(Padding(p.stringsEnd, 8)), All(MetaPieces(rs), 8, p.metadata),
      Zeros(Padding(p.metadataEnd, 8)), TableImage(TableOf(rs)),
      Zeros(Padding(p.tableEnd, 16)), All(DataPieces(rs), 16, p.data), trailing);
  }

  // ---------- directory and header ----------

  datatype EntryExtra = EntryExtra(reserved0: u32, tail: seq<byte>)

  /** What readers must ignore: see section 16 of the ERF specification. */
  datatype Variant = Variant(
    minor: u16, unknownFlags: nat, reserved0: u32, padding: u32, headerTail: seq<byte>,
    signatureOffset: u64, tailLength: nat, extras: seq<EntryExtra>)

  /** A variant for n entries: nothing shorter than version 1.0, unknown flags in bits 3 to 31. */
  predicate ValidVariant(v: Variant, n: nat) {
    && |v.headerTail| >= 64 && HeaderSize(v) < TWO32
    && v.tailLength >= 48 && Stride(v) < TWO32
    && v.unknownFlags < 0x2000_0000
    && |v.extras| == n
    && forall i :: 0 <= i < n ==> |v.extras[i].tail| == v.tailLength
  }

  /** What `elfrc` writes: 160-byte header, 128-byte entries, every reserved byte zero. */
  function Plain(n: nat): (v: Variant)
    ensures ValidVariant(v, n) && HeaderSize(v) == HEADER_SIZE && Stride(v) == ENTRY_SIZE
  {
    Variant(VERSION_MINOR, 0, 0, 0, Zeros(64), 0, 48, seq(n, _ => EntryExtra(0, Zeros(48))))
  }

  function HeaderSize(v: Variant): nat { 96 + |v.headerTail| }

  function Stride(v: Variant): nat { 80 + v.tailLength }

  function Base(v: Variant, n: nat): nat { HeaderSize(v) + n * Stride(v) }

  lemma OffsetsFit(rs: seq<Resource>, base: nat, i: nat)
    requires Fits(rs, base) && i < |rs|
    ensures NameOffset(Names(rs), PlanOf(rs, base).strings, i) < PlanOf(rs, base).stringsEnd
    ensures var o := PieceOffset(DataPieces(rs), 16, PlanOf(rs, base).data, i);
            PlanOf(rs, base).data <= o && o + |Payload(rs[i])| <= PlanOf(rs, base).total < TWO64
    ensures var o := PieceOffset(MetaPieces(rs), 8, PlanOf(rs, base).metadata, i);
            && (o == 0 <==> rs[i].metadata == [])
            && (o != 0 ==> PlanOf(rs, base).metadata <= o && o + |Block(rs[i].metadata)| <= PlanOf(rs, base).metadataEnd)
            && o < TWO64
  {
    hide PosAfter, Packed, BucketCount, Placed, OffsetIn, Distinct, TableBytes, Block, AlignUp;
    var p := PlanOf(rs, base);
    PlanOrdered(rs, base);
    assert Names(rs)[i] in Distinct(Names(rs));
    OffsetInTable(Distinct(Names(rs)), Names(rs)[i]);
    PieceInside(DataPieces(rs), 16, p.data, i);
    if rs[i].metadata != [] {
      PieceInside(MetaPieces(rs), 8, p.metadata, i);
    }
  }

  lemma PieceInside(ps: Pieces, a: nat, pos: nat, i: nat)
    requires a > 0 && i < |ps| && ps[i].Some?
    ensures pos <= PieceOffset(ps, a, pos, i)
    ensures PieceOffset(ps, a, pos, i) + |ps[i].value| <= PosAfter(ps, a, pos, |ps|)
  {
    PackedStep(ps, a, pos, i);
    PosGrows(ps, a, pos, i + 1, |ps|);
  }

  /** The directory entry of resource i. */
  function EntryOf(rs: seq<Resource>, base: nat, i: nat): Entry
    requires Fits(rs, base) && i < |rs|
  {
    OffsetsFit(rs, base, i);
    var r, p := rs[i], PlanOf(rs, base);
    Entry(r.finalId, r.typ, r.language, r.flags,
          NameOffset(Names(rs), p.strings, i),
          PieceOffset(DataPieces(rs), 16, p.data, i), |Payload(r)|, |Payload(r)|,
          PieceOffset(MetaPieces(rs), 8, p.metadata, i),
          Fnv1a.HashNumber(r.name), Crc64.ChecksumNumber(Payload(r)), 0)
  }

  function EntryBlocks(rs: seq<Resource>, v: Variant): (r: seq<seq<byte>>)
    requires ValidVariant(v, |rs|) && Fits(rs, Base(v, |rs|))
    ensures |r| == |rs|
    ensures forall i :: 0 <= i < |r| ==> |r[i]| == Stride(v)
  {
    seq(|rs|, i requires 0 <= i < |rs| =>
      EncodeEntry(EntryOf(rs, Base(v, |rs|), i), v.extras[i].reserved0, v.extras[i].tail))
  }

  function Directory(rs: seq<Resource>, v: Variant): (r: seq<byte>)
    requires ValidVariant(v, |rs|) && Fits(rs, Base(v, |rs|))
    ensures |r| == |rs| * Stride(v)
  {
    FlattenLength(EntryBlocks(rs, v), Stride(v));
    Flatten(EntryBlocks(rs, v))
  }

  /** The header flags: localized, metadata, hash table, and bits no reader knows. */
  function FlagsOf(rs: seq<Resource>, unknown: nat): (r: u32)
    requires unknown < 0x2000_0000
  {
    HFLAG_HASH_TABLE + (if HasMetadata(rs) then HFLAG_METADATA else 0)
    + (if IsLocalized(rs) then HFLAG_LOCALIZED else 0) + 8 * unknown
  }

  lemma HeaderFits(rs: seq<Resource>, base: nat)
    requires Fits(rs, base)
    ensures var p := PlanOf(rs, base);
            p.strings < TWO64 && p.metadata < TWO64 && p.table < TWO64 && p.data < TWO64 && p.total < TWO64
  {
    hide PlanOf;
    PlanOrdered(rs, base);
  }

  function HeaderOf(rs: seq<Resource>, v: Variant, checksum: u64): Header
    requires ValidVariant(v, |rs|) && Fits(rs, Base(v, |rs|))
  {
    var p := PlanOf(rs, Base(v, |rs|));
    HeaderFits(rs, Base(v, |rs|));
    Header(VERSION_MAJOR, v.minor, HeaderSize(v), FlagsOf(rs, v.unknownFlags), |rs|, Stride(v),
           HeaderSize(v), p.strings, if HasMetadata(rs) then p.metadata else 0, p.table,
           v.signatureOffset, p.data, p.total, checksum)
  }

  function HeaderBytes(rs: seq<Resource>, v: Variant, checksum: u64): (r: seq<byte>)
    requires ValidVariant(v, |rs|) && Fits(rs, Base(v, |rs|))
    ensures |r| == HeaderSize(v)
  {
    EncodeHeader(HeaderOf(rs, v, checksum), v.reserved0, v.padding, v.headerTail)
  }

  /** A whole container. */
  function Image(rs: seq<Resource>, v: Variant, checksum: u64): seq<byte>
    requires ValidVariant(v, |rs|) && Fits(rs, Base(v, |rs|))
  {
    HeaderBytes(rs, v, checksum) + Directory(rs, v) + Rest(rs, Base(v, |rs|))
  }

  /** That the string table ends below 2^32 already bounds the number of resources by 2^25;
      Fits repeats a weaker bound so that the regions are defined for any base. */
  lemma FewResources(rs: seq<Resource>, v: Variant)
    requires ValidVariant(v, |rs|) && PlanOf(rs, Base(v, |rs|)).stringsEnd < TWO32
    ensures |rs| < 0x200_0000
  {
    hide StringBytes, PosAfter, BucketCount;
    AtLeastEntries(|rs|, Stride(v));
  }

  lemma AtLeastEntries(n: nat, k: nat)
    requires k >= ENTRY_SIZE
    ensures n * ENTRY_SIZE <= n * k
  {
    assert n * k == n * ENTRY_SIZE + n * (k - ENTRY_SIZE);
  }

  predicate FitsPlain(rs: seq<Resource>) {
    Fits(rs, Base(Plain(|rs|), |rs|))
  }

  // ---------- the preconditions are met ----------

  /** What resource i adds to the container at most: entry, buckets, padding, strings, metadata, payload. */
  function Weight(r: Resource): nat {
    256 + |r.name| + |Block(r.metadata)| + |Payload(r)|
  }

  function WeightUpTo(rs: seq<Resource>, i: nat): nat
    requires i <= |rs|
  {
    if i == 0 then 0 else WeightUpTo(rs, i - 1) + Weight(rs[i - 1])
  }

  lemma {:induction false} WeightsBound(rs: seq<Resource>, i: nat, pos: nat)
    requires i <= |rs|
    ensures 256 * i <= WeightUpTo(rs, i)
    ensures |TableBytes(Distinct(Names(rs)[..i]))| <= WeightUpTo(rs, i)
    ensures PosAfter(MetaPieces(rs), 8, pos, i) <= pos + WeightUpTo(rs, i)
    ensures PosAfter(DataPieces(rs), 16, pos, i) <= pos + WeightUpTo(rs, i)
  {
    hide Block, Distinct, TableBytes;
    if i == 0 {
      NoNames(rs);
    } else {
      WeightsBound(rs, i - 1, pos);
      StringsGrowBy(Names(rs), i - 1);
    }
  }

  lemma NoNames(rs: seq<Resource>)
    ensures |TableBytes(Distinct(Names(rs)[..0]))| == 0
  {
  }

  lemma StringsGrowBy(names: seq<seq<byte>>, i: nat)
    requires i < |names|
    ensures |TableBytes(Distinct(names[..i + 1]))| <= |TableBytes(Distinct(names[..i]))| + |names[i]| + 1
  {
    assert names[..i] + [names[i]] == names[..i + 1];
    Interned(names[..i], names[i]);
  }

  /** Every well-formed manifest of less than 256 MiB in all fits behind any header and directory below 2 GiB. */
  lemma SmallManifestsFitAnyVariant(rs: seq<Resource>, base: nat)
    requires AllWellFormed(rs) && WeightUpTo(rs, |rs|) < 0x1000_0000 && base < 0x8000_0000
    ensures Fits(rs, base)
  {
    hide AllWellFormed, PosAfter, WeightUpTo, BucketCount, AlignUp, Distinct, TableBytes;
    assert Names(rs)[..|rs|] == Names(rs);
    var p := PlanOf(rs, base);
    WeightsBound(rs, |rs|, p.metadata);
    WeightsBound(rs, |rs|, p.data);
    BucketCountBounds(|rs|);
  }

  /** Every well-formed manifest of less than 256 MiB in all meets the builder's preconditions. */
  lemma SmallManifestsFit(rs: seq<Resource>)
    requires AllWellFormed(rs) && WeightUpTo(rs, |rs|) < 0x1000_0000
    ensures FitsPlain(rs)
  {
    hide AllWellFormed, PosAfter, WeightUpTo, Fits, Distinct, TableBytes;
    WeightsBound(rs, |rs|, 0);
    SmallManifestsFitAnyVariant(rs, Base(Plain(|rs|), |rs|));
  }

  lemma EmptyManifestFits()
    ensures FitsPlain([]) && Readable([])
  {
    SmallManifestsFit([]);
  }

  // ---------- the bytes of a build ----------

  /** What `elfrc_container_build` must produce: the plain image, with the CRC-64 of
      itself under a zero checksum field. */
  function ContainerBytes(rs: seq<Resource>): seq<byte>
    requires FitsPlain(rs)
  {
    Image(rs, Plain(|rs|), Crc64.ChecksumNumber(Image(rs, Plain(|rs|), 0)))
  }

  /** Header, directory and regions lie where the layout says. */
  predicate Laid(b: seq<byte>, rs: seq<Resource>, v: Variant, checksum: u64)
    requires ValidVariant(v, |rs|) && Fits(rs, Base(v, |rs|))
  {
    && Placed(b, 0, HeaderBytes(rs, v, checksum))
    && Placed(b, HeaderSize(v), Directory(rs, v))
    && RegionsPlaced(b, rs, Base(v, |rs|))
  }

  /** An image is laid out as planned, also with anything behind it. */
  lemma ImageLaid(rs: seq<Resource>, v: Variant, checksum: u64, trailing: seq<byte>)
    requires ValidVariant(v, |rs|) && Fits(rs, Base(v, |rs|))
    ensures |Image(rs, v, checksum)| == PlanOf(rs, Base(v, |rs|)).total
    ensures Laid(Image(rs, v, checksum) + trailing, rs, v, checksum)
  {
    hide Placed, RegionsPlaced, Rest, HeaderBytes, Directory, PlanOf;
    var h, d := HeaderBytes(rs, v, checksum), Directory(rs, v);
    var rest := Rest(rs, Base(v, |rs|));
    assert |h + d| == Base(v, |rs|);
    RestPlaced(h + d, rs, trailing);
    ConcatAssoc(h + d, rest, trailing);
    PlacedFront(h + d, rest + trailing);
    PlacedSplit(h + d + (rest + trailing), 0, h, d);
  }
}
