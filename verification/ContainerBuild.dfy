/**
  The container builder as the program runs it (src/elfrc/container_build.c):
  one growing buffer, phase after phase, then two late patches at its start.
 */
module ContainerBuild {
  import opened Bytes
  import opened ByteBuffers
  import opened ErfFormat
  import opened Manifests
  import opened StringTables
  import opened MetadataBlocks
  import opened Packing
  import opened Layout
  import H = HashIndex
  import Crc64
  import Fnv1a

  /** Success, or the index of the resource whose file could not be read. */
  datatype BuildResult = Built(buf: ByteBuf) | Unreadable(index: nat)

  // ---------- strings ----------

  lemma InternRoom(names: seq<seq<byte>>, i: nat)
    requires i < |names|
    ensures names[..i] + [names[i]] == names[..i + 1]
    ensures |TableBytes(Distinct(names[..i]))| <= |TableBytes(Distinct(names))|
    ensures TableBytes(Distinct(names[..i + 1]))
         == TableBytes(Distinct(names[..i])) + if names[i] in Distinct(names[..i]) then [] else names[i] + [0]
    ensures |TableBytes(Distinct(names[..i + 1]))| <= |TableBytes(Distinct(names))|
  {
    assert names[..i] + [names[i]] == names[..i + 1];
    TableGrows(names, i);
    TableGrows(names, i + 1);
    Interned(names[..i], names[i]);
    assert TableBytes(Distinct(names[..i])) + [] == TableBytes(Distinct(names[..i]));
  }

  /** The interning loop: `name_offsets` and the string region. */
  method WriteStrings(buf: ByteBuf, rs: seq<Resource>) returns (nameOffsets: array<u32>)
    requires buf.Valid() && buf.len + |StringBytes(rs)| < TWO32
    modifies buf.Repr
    ensures buf.Valid() && fresh(buf.Repr - old(buf.Repr)) && fresh(nameOffsets) && nameOffsets !in buf.Repr
    ensures buf.Contents() == old(buf.Contents()) + StringBytes(rs)
    ensures nameOffsets.Length == |rs|
    ensures forall i :: 0 <= i < |rs| ==> nameOffsets[i] == NameOffset(Names(rs), old(buf.len), i)
  {
    hide Step, Linear, TableBytes, Distinct, NameOffset, OffsetIn, ByteBuf.View;
    ghost var names := Names(rs);
    ghost var before := buf.Contents();
    var stringOffset: u32 := buf.len % TWO32;
    var st := new StringTable();
    nameOffsets := new u32[|rs|];
    NoStrings(names);
    assert st.Holds([], stringOffset) by { NothingHeld(st, stringOffset); }
    for i := 0 to |rs|
      invariant buf.Valid() && fresh(buf.Repr - old(buf.Repr)) && st !in buf.Repr && nameOffsets !in buf.Repr
      invariant st.Holds(names[..i], stringOffset)
      invariant buf.Contents() == before + TableBytes(Distinct(names[..i]))
      invariant forall k :: 0 <= k < i ==> nameOffsets[k] == NameOffset(names[..i], stringOffset, k)
    {
      InternRoom(names, i);
      var offset := st.Intern(buf, stringOffset, rs[i].name, names[..i]);
      nameOffsets[i] := offset;
      OffsetsKept(names, stringOffset, i);
      ConcatAssoc(before, TableBytes(Distinct(names[..i])),
                  if names[i] in Distinct(names[..i]) then [] else names[i] + [0]);
    }
    assert names[..|rs|] == names;
  }

  lemma OffsetsKept(names: seq<seq<byte>>, base: nat, i: nat)
    requires i < |names|
    ensures forall k :: 0 <= k < i ==> NameOffset(names[..i], base, k) == NameOffset(names[..i + 1], base, k)
  {
    forall k | 0 <= k < i {
      NameOffsetStable(names, base, k, i);
    }
  }

  lemma NoStrings(names: seq<seq<byte>>)
    ensures names[..0] == [] && TableBytes(Distinct(names[..0])) == []
  {
  }

  lemma NothingHeld(st: StringTable, base: nat)
    requires st.entries == []
    ensures st.Holds([], base)
  {
  }

  // ---------- payloads ----------

  /** `data_offsets`, `data_sizes` and `data_checksums`, one record per resource. */
  datatype DataRecord = DataRecord(offset: nat, size: nat, checksum: u64)

  ghost function RecordOf(rs: seq<Resource>, start: nat, i: nat): DataRecord
    requires i < |rs|
  {
    DataRecord(PieceOffset(DataPieces(rs), 16, start, i), |Payload(rs[i])|, Crc64.ChecksumNumber(Payload(rs[i])))
  }

  method WritePayload(buf: ByteBuf, content: seq<byte>, table: array<bv64>) returns (d: DataRecord)
    requires buf.Valid() && AlignUp(buf.len, 16) + |content| + 16 < MAX_LEN
    requires Crc64.TableReady(table) && table !in buf.Repr
    modifies buf.Repr
    ensures buf.Valid() && fresh(buf.Repr - old(buf.Repr)) && table !in buf.Repr
    ensures d == DataRecord(AlignUp(old(buf.len), 16), |content|, Crc64.ChecksumNumber(content))
    ensures buf.Contents() == old(buf.Contents()) + (Zeros(Padding(old(buf.len), 16)) + content)
  {
    hide Step, Linear, Zeros, Crc64.State, Crc64.AsNumber, Crc64.TableReady;
    ghost var before := buf.Contents();
    ghost var padding := Zeros(Padding(buf.len, 16));
    buf.Align(16);
    var offset := buf.len;
    var crc := Crc64.ComputeCrc64(table, content);
    d := DataRecord(offset, |content|, Crc64.AsNumber(crc));
    var _ := buf.Append(content);
    ConcatAssoc(before, padding, content);
  }

  /** The payload loop: it stops at the first file that cannot be read. */
  method WriteData(buf: ByteBuf, rs: seq<Resource>, table: array<bv64>) returns (ok: bool, failed: nat, data: array<DataRecord>)
    requires buf.Valid() && PosAfter(DataPieces(rs), 16, buf.len, |rs|) + 16 < MAX_LEN
    requires Crc64.TableReady(table) && table !in buf.Repr
    modifies buf.Repr
    ensures buf.Valid() && fresh(buf.Repr - old(buf.Repr)) && fresh(data) && data !in buf.Repr && table !in buf.Repr
    ensures ok <==> Readable(rs)
    ensures !ok ==> failed < |rs| && rs[failed].file.None? && forall k :: 0 <= k < failed ==> rs[k].file.Some?
    ensures ok ==> buf.Contents() == old(buf.Contents()) + All(DataPieces(rs), 16, old(buf.len))
    ensures ok ==> buf.len == PosAfter(DataPieces(rs), 16, old(buf.len), |rs|)
    ensures ok ==> data.Length == |rs| && forall i :: 0 <= i < |rs| ==> data[i] == RecordOf(rs, old(buf.len), i)
  {
    hide Step, Linear, PosAfter, Packed, Crc64.ChecksumNumber, Crc64.TableReady, ByteBuf.View;
    ghost var start := buf.len;
    ghost var before := buf.Contents();
    ghost var ps := DataPieces(rs);
    data := new DataRecord[|rs|](_ => DataRecord(0, 0, 0));
    failed := 0;
    NoPieces(ps, 16, start);
    for i := 0 to |rs|
      invariant buf.Valid() && fresh(buf.Repr - old(buf.Repr)) && data !in buf.Repr && table !in buf.Repr
      invariant Crc64.TableReady(table)
      invariant forall k :: 0 <= k < i ==> rs[k].file.Some?
      invariant buf.Contents() == before + Packed(ps, 16, start, i)
      invariant buf.len == PosAfter(ps, 16, start, i)
      invariant forall k :: 0 <= k < i ==> data[k] == RecordOf(rs, start, k)
    {
      if rs[i].file.None? {
        return false, i, data;
      }
      PackedStep(ps, 16, start, i);
      PosGrows(ps, 16, start, i + 1, |rs|);
      data[i] := WritePayload(buf, rs[i].file.value, table);
    }
    ok := true;
  }

  // ---------- hash table ----------

  method WriteTable(buf: ByteBuf, rs: seq<Resource>) returns (nameHashes: array<u64>)
    requires buf.Valid() && |rs| < 0x4000_0000
    requires buf.len + TABLE_HEADER_SIZE + H.BucketCount(|rs|) * BUCKET_SIZE < MAX_LEN
    modifies buf.Repr
    ensures buf.Valid() && fresh(buf.Repr - old(buf.Repr)) && fresh(nameHashes) && nameHashes !in buf.Repr
    ensures buf.Contents() == old(buf.Contents()) + TableImage(TableOf(rs))
    ensures nameHashes[..] == H.Hashes(Names(rs))
  {
    hide Step, Linear, H.Filled, H.Hashes, Nums, Flatten, BucketBlocks, H.NextPow2;
    H.BucketCountBounds(|rs|);
    ghost var before := buf.Contents();
    var bucketCount := H.ComputeNextPow2(|rs| * 2 % TWO32);
    if |rs| == 0 {
      SixteenForNone();
      bucketCount := 16;
    }
    var buckets;
    buckets, nameHashes := H.FillTable(Names(rs), bucketCount);
    FlattenLength(BucketBlocks(buckets[..]), BUCKET_SIZE);
    var _ := buf.Append(Nums([bucketCount, 0], 4));
    var _ := buf.Append(Flatten(BucketBlocks(buckets[..])));
    ConcatAssoc(before, Nums([bucketCount, 0], 4), Flatten(BucketBlocks(buckets[..])));
  }

  lemma SixteenForNone()
    ensures H.NextPow2(0) == 16
  {
  }

  // ---------- directory and header ----------

  /** Where the regions were found to start while appending them. */
  datatype Starts = Starts(strings: nat, metadata: nat, table: nat, data: nat)

  /** Everything the directory entries and the header are filled from. */
  datatype Tables = Tables(nameOffsets: array<u32>, metadataOffsets: array<nat>, nameHashes: array<u64>,
                           data: array<DataRecord>, anyMetadata: bool, starts: Starts)

  ghost predicate TablesReady(t: Tables, rs: seq<Resource>, base: nat)
    reads t.nameOffsets, t.metadataOffsets, t.nameHashes, t.data
  {
    var p := PlanOf(rs, base);
    && t.nameOffsets.Length == t.metadataOffsets.Length == t.nameHashes.Length == t.data.Length == |rs|
    && (forall i :: 0 <= i < |rs| ==> t.nameOffsets[i] == NameOffset(Names(rs), p.strings, i))
    && (forall i :: 0 <= i < |rs| ==> t.metadataOffsets[i] == PieceOffset(MetaPieces(rs), 8, p.metadata, i))
    && (forall i :: 0 <= i < |rs| ==> t.nameHashes[i] == Fnv1a.HashNumber(rs[i].name))
    && (forall i :: 0 <= i < |rs| ==> t.data[i] == RecordOf(rs, p.data, i))
    && (t.anyMetadata <==> HasMetadata(rs))
    && t.starts == Starts(p.strings, p.metadata, p.table, p.data)
  }

  /** The inner loop that looks for an earlier resource of the same name. */
  method OccursBefore(rs: seq<Resource>, i: nat) returns (found: bool)
    requires i < |rs|
    ensures found <==> exists j :: 0 <= j < i && rs[j].name == rs[i].name
  {
    found := false;
    for j := 0 to i
      invariant found <==> exists m :: 0 <= m < j && rs[m].name == rs[i].name
    {
      if rs[j].name == rs[i].name {
        found := true;
      }
    }
  }

  /** The directory loop: one entry per resource, and whether some name occurs twice. */
  method FillDirectory(rs: seq<Resource>, t: Tables, ghost base: nat) returns (entries: array<Entry>, localized: bool)
    requires Fits(rs, base) && TablesReady(t, rs, base)
    ensures fresh(entries) && entries.Length == |rs|
    ensures forall i :: 0 <= i < |rs| ==> entries[i] == EntryOf(rs, base, i)
    ensures localized <==> IsLocalized(rs)
  {
    hide Fits, PlanOf, NameOffset, PieceOffset, Crc64.ChecksumNumber, Fnv1a.HashNumber;
    entries := new Entry[|rs|](_ => Entry(0, 0, 0, 0, 0, 0, 0, 0, 0, 0, 0, 0));
    localized := false;
    for i := 0 to |rs|
      invariant forall k :: 0 <= k < i ==> entries[k] == EntryOf(rs, base, k)
      invariant localized <==> exists k, j :: 0 <= j < k < i && rs[j].name == rs[k].name
    {
      OffsetsFit(rs, base, i);
      var r := rs[i];
      entries[i] := Entry(r.finalId, r.typ, r.language, r.flags, t.nameOffsets[i],
                          t.data[i].offset, t.data[i].size, t.data[i].size, t.metadataOffsets[i],
                          t.nameHashes[i], t.data[i].checksum, 0);
      var again := OccursBefore(rs, i);
      localized := localized || again;
    }
  }

  // ---------- the whole container ----------

  lemma AppendedPieces(front: seq<byte>, rs: seq<Resource>)
    requires |rs| < 0x4000_0000
    ensures var p := PlanOf(rs, |front|);
            front + Zeros(Padding(|front|, 8)) + StringBytes(rs)
            + Zeros(Padding(p.stringsEnd, 8)) + All(MetaPieces(rs), 8, p.metadata)
            + Zeros(Padding(p.metadataEnd, 8)) + TableImage(TableOf(rs))
            + Zeros(Padding(p.tableEnd, 16)) + All(DataPieces(rs), 16, p.data)
            == front + Rest(rs, |front|)
  {
    hide PlanOf, StringBytes, Packed, TableImage, TableOf, Zeros;
    var p := PlanOf(rs, |front|);
    EightAppended(front, Zeros(Padding(|front|, 8)), StringBytes(rs),
      Zeros(Padding(p.stringsEnd, 8)), All(MetaPieces(rs), 8, p.metadata),
      Zeros(Padding(p.metadataEnd, 8)), TableImage(TableOf(rs)),
      Zeros(Padding(p.tableEnd, 16)), All(DataPieces(rs), 16, p.data));
  }

  lemma EightAppended(f: seq<byte>, a: seq<byte>, b: seq<byte>, c: seq<byte>, d: seq<byte>,
                      e: seq<byte>, g: seq<byte>, h: seq<byte>, k: seq<byte>)
    ensures f + a + b + c + d + e + g + h + k == f + (a + b + c + d + e + g + h + k)
  {
    ConcatAssoc(f, a, b);
    ConcatAssoc(f, a + b, c);
    ConcatAssoc(f, a + b + c, d);
    ConcatAssoc(f, a + b + c + d, e);
    ConcatAssoc(f, a + b + c + d + e, g);
    ConcatAssoc(f, a + b + c + d + e + g, h);
    ConcatAssoc(f, a + b + c + d + e + g + h, k);
  }

  lemma PlanParts(rs: seq<Resource>, base: nat)
    ensures var p := PlanOf(rs, base);
            && p.strings == AlignUp(base, 8) && p.stringsEnd == p.strings + |StringBytes(rs)|
            && p.metadata == AlignUp(p.stringsEnd, 8)
            && p.metadataEnd == PosAfter(MetaPieces(rs), 8, p.metadata, |rs|)
            && p.table == AlignUp(p.metadataEnd, 8)
            && p.tableEnd == p.table + TABLE_HEADER_SIZE + H.BucketCount(|rs|) * BUCKET_SIZE
            && p.data == AlignUp(p.tableEnd, 16)
            && p.total == PosAfter(DataPieces(rs), 16, p.data, |rs|)
  {
    hide StringBytes, PosAfter, H.BucketCount, AlignUp, MetaPieces, DataPieces;
  }

  lemma FitsParts(rs: seq<Resource>, base: nat)
    requires Fits(rs, base)
    ensures |rs| < 0x4000_0000 && AllWellFormed(rs)
    ensures PlanOf(rs, base).stringsEnd < TWO32 && PlanOf(rs, base).total < 0x4000_0000_0000_0000
  {
    hide PlanOf, AllWellFormed;
  }

  lemma RegionsFit(rs: seq<Resource>, base: nat)
    requires Fits(rs, base)
    ensures var p := PlanOf(rs, base);
            && |rs| < 0x4000_0000 && AllWellFormed(rs)
            && base <= p.strings == AlignUp(base, 8) && p.strings + |StringBytes(rs)| == p.stringsEnd < TWO32
            && p.metadata == AlignUp(p.stringsEnd, 8)
            && p.metadataEnd == PosAfter(MetaPieces(rs), 8, p.metadata, |rs|)
            && p.table == AlignUp(p.metadataEnd, 8)
            && p.tableEnd == p.table + TABLE_HEADER_SIZE + H.BucketCount(|rs|) * BUCKET_SIZE
            && p.data == AlignUp(p.tableEnd, 16)
            && p.total == PosAfter(DataPieces(rs), 16, p.data, |rs|)
            && p.stringsEnd <= p.metadataEnd <= p.tableEnd <= p.total < 0x4000_0000_0000_0000
  {
    hide *;
    FitsParts(rs, base);
    PlanParts(rs, base);
    PlanOrdered(rs, base);
  }

  /** Strings, then metadata, each from an 8-byte boundary. */
  method WriteStringsAndMetadata(buf: ByteBuf, rs: seq<Resource>)
    returns (nameOffsets: array<u32>, metadataOffsets: array<nat>, any: bool, strings: nat, metadata: nat)
    requires buf.Valid() && Fits(rs, buf.len)
    modifies buf.Repr
    ensures buf.Valid() && fresh(buf.Repr - old(buf.Repr))
    ensures fresh(nameOffsets) && nameOffsets !in buf.Repr && fresh(metadataOffsets) && metadataOffsets !in buf.Repr
    ensures var p := PlanOf(rs, old(buf.len));
            && buf.Contents() == old(buf.Contents()) + Zeros(Padding(old(buf.len), 8)) + StringBytes(rs)
                 + Zeros(Padding(p.stringsEnd, 8)) + All(MetaPieces(rs), 8, p.metadata)
            && buf.len == p.metadataEnd && strings == p.strings && metadata == p.metadata
            && nameOffsets.Length == |rs| && metadataOffsets.Length == |rs|
            && (forall i :: 0 <= i < |rs| ==> nameOffsets[i] == NameOffset(Names(rs), p.strings, i))
            && (forall i :: 0 <= i < |rs| ==> metadataOffsets[i] == PieceOffset(MetaPieces(rs), 8, p.metadata, i))
    ensures any <==> HasMetadata(rs)
  {
    hide Step, Linear, PlanOf, Fits, StringBytes, PosAfter, Packed, Zeros, Padding,
         H.BucketCount, NameOffset, PieceOffset, HasMetadata;
    RegionsFit(rs, buf.len);
    buf.Align(8);
    strings := buf.len;
    nameOffsets := WriteStrings(buf, rs);
    buf.Align(8);
    metadata := buf.len;
    metadataOffsets, any := WriteMetadata(buf, rs);
  }

  /** The hash table from an 8-byte boundary, then the payloads from a 16-byte boundary. */
  method WriteTableAndData(buf: ByteBuf, rs: seq<Resource>, table: array<bv64>, ghost base: nat)
    returns (ok: bool, failed: nat, nameHashes: array<u64>, data: array<DataRecord>, tableStart: nat, dataStart: nat)
    requires buf.Valid() && Fits(rs, base) && buf.len == PlanOf(rs, base).metadataEnd
    requires Crc64.TableReady(table) && table !in buf.Repr
    modifies buf.Repr
    ensures buf.Valid() && fresh(buf.Repr - old(buf.Repr)) && table !in buf.Repr
    ensures fresh(nameHashes) && nameHashes !in buf.Repr && fresh(data) && data !in buf.Repr
    ensures ok <==> Readable(rs)
    ensures !ok ==> failed < |rs| && rs[failed].file.None? && forall k :: 0 <= k < failed ==> rs[k].file.Some?
    ensures |rs| < 0x4000_0000
    ensures var p := PlanOf(rs, base);
            ok ==>
              && buf.Contents() == old(buf.Contents()) + Zeros(Padding(p.metadataEnd, 8)) + TableImage(TableOf(rs))
                   + Zeros(Padding(p.tableEnd, 16)) + All(DataPieces(rs), 16, p.data)
              && data.Length == |rs| && (forall i :: 0 <= i < |rs| ==> data[i] == RecordOf(rs, p.data, i))
    ensures nameHashes[..] == H.Hashes(Names(rs))
    ensures tableStart == PlanOf(rs, base).table && dataStart == PlanOf(rs, base).data
  {
    hide Step, Linear, PlanOf, Fits, StringBytes, PosAfter, Packed, TableImage, TableOf, Zeros, Padding,
         H.BucketCount, H.Hashes, Crc64.TableReady, RecordOf, Readable, ByteBuf.View, MetaPieces, DataPieces;
    RegionsFit(rs, base);
    TableSize(rs);
    buf.Align(8);
    tableStart := buf.len;
    nameHashes := WriteTable(buf, rs);
    buf.Align(16);
    dataStart := buf.len;
    ok, failed, data := WriteData(buf, rs, table);
  }

  lemma TableSize(rs: seq<Resource>)
    requires |rs| < 0x4000_0000
    ensures |TableImage(TableOf(rs))| == TABLE_HEADER_SIZE + H.BucketCount(|rs|) * BUCKET_SIZE
  {
    hide TableImage, H.Filled, H.BucketCount;
    H.BucketCountBounds(|rs|);
  }

  /** Every phase after header and directory, in order. */
  method WriteRegions(buf: ByteBuf, rs: seq<Resource>, table: array<bv64>) returns (ok: bool, failed: nat, t: Tables)
    requires buf.Valid() && Fits(rs, buf.len)
    requires Crc64.TableReady(table) && table !in buf.Repr
    modifies buf.Repr
    ensures buf.Valid() && fresh(buf.Repr - old(buf.Repr)) && table !in buf.Repr
    ensures ok <==> Readable(rs)
    ensures !ok ==> failed < |rs| && rs[failed].file.None? && forall k :: 0 <= k < failed ==> rs[k].file.Some?
    ensures |rs| < 0x4000_0000
    ensures ok ==> buf.Contents() == old(buf.Contents()) + Rest(rs, old(buf.len))
    ensures ok ==> TablesReady(t, rs, old(buf.len))
  {
    hide Step, Linear, PlanOf, Fits, StringBytes, Packed, TableImage, TableOf, Zeros, Padding, Rest,
         Crc64.TableReady, RecordOf, NameOffset, PieceOffset, Readable, HasMetadata;
    ghost var front := buf.Contents();
    ghost var base := buf.len;
    var nameOffsets, metadataOffsets, any, strings, metadata := WriteStringsAndMetadata(buf, rs);
    var nameHashes, data, tableStart, dataStart;
    ok, failed, nameHashes, data, tableStart, dataStart := WriteTableAndData(buf, rs, table, base);
    t := Tables(nameOffsets, metadataOffsets, nameHashes, data, any, Starts(strings, metadata, tableStart, dataStart));
    AppendedPieces(front, rs);
  }

  /** memcpy of the entries over the reserved directory. */
  method PatchDirectory(buf: ByteBuf, rs: seq<Resource>, entries: array<Entry>)
    requires FitsPlain(rs) && |rs| < 0x4000_0000 && buf.Valid() && entries as object != buf.data
    requires buf.Contents() == Zeros(HEADER_SIZE) + Zeros(|rs| * ENTRY_SIZE) + Rest(rs, HEADER_SIZE + |rs| * ENTRY_SIZE)
    requires entries.Length == |rs|
    requires forall i :: 0 <= i < |rs| ==> entries[i] == EntryOf(rs, Base(Plain(|rs|), |rs|), i)
    modifies buf.data
    ensures buf.Valid()
    ensures buf.Contents() == Zeros(HEADER_SIZE) + Directory(rs, Plain(|rs|)) + Rest(rs, HEADER_SIZE + |rs| * ENTRY_SIZE)
  {
    hide Linear, EntryOf, EncodeEntry, Fits, Rest, Flatten, Zeros;
    FitsMeans(rs);
    ghost var h, d, r := Zeros(HEADER_SIZE), Zeros(|rs| * ENTRY_SIZE), Rest(rs, HEADER_SIZE + |rs| * ENTRY_SIZE);
    var blocks := seq(|rs|, i requires 0 <= i < |rs| reads entries => EncodeEntry(entries[i], 0, Zeros(48)));
    assert blocks == EntryBlocks(rs, Plain(|rs|));
    assert Flatten(blocks) == Directory(rs, Plain(|rs|));
    buf.Patch(HEADER_SIZE, Flatten(blocks));
    Replaced(h, d, r, Directory(rs, Plain(|rs|)));
  }

  lemma Replaced(h: seq<byte>, d: seq<byte>, r: seq<byte>, d': seq<byte>)
    requires |d| == |d'|
    ensures (h + d + r)[..|h|] + d' + (h + d + r)[|h| + |d'|..] == h + d' + r
  {
    assert (h + d + r)[..|h|] == h;
    assert (h + d + r)[|h| + |d'|..] == r;
  }

  lemma ImageLength(rs: seq<Resource>)
    requires FitsPlain(rs) && |rs| < 0x4000_0000
    ensures HEADER_SIZE + |Directory(rs, Plain(|rs|))| + |Rest(rs, HEADER_SIZE + |rs| * ENTRY_SIZE)|
         == PlanOf(rs, HEADER_SIZE + |rs| * ENTRY_SIZE).total
  {
    hide *;
    FitsMeans(rs);
    var front := Zeros(HEADER_SIZE) + Directory(rs, Plain(|rs|));
    assert |front| == HEADER_SIZE + |rs| * ENTRY_SIZE;
    RestPlaced(front, rs, []);
  }

  /** Both header copies: with a zero checksum field, then with the CRC of the buffer. */
  method PatchHeader(buf: ByteBuf, rs: seq<Resource>, table: array<bv64>, starts: Starts, anyMetadata: bool, localized: bool)
    requires FitsPlain(rs) && |rs| < 0x4000_0000 && buf.Valid() && table as object != buf.data && Crc64.TableReady(table)
    requires buf.Contents() == Zeros(HEADER_SIZE) + Directory(rs, Plain(|rs|)) + Rest(rs, HEADER_SIZE + |rs| * ENTRY_SIZE)
    requires var p := PlanOf(rs, HEADER_SIZE + |rs| * ENTRY_SIZE);
             starts == Starts(p.strings, p.metadata, p.table, p.data)
    requires anyMetadata <==> HasMetadata(rs)
    requires localized <==> IsLocalized(rs)
    modifies buf.data
    ensures buf.Valid() && buf.Contents() == ContainerBytes(rs)
  {
    hide Linear, EncodeHeader, Fits, Rest, Directory, Zeros, HasMetadata, IsLocalized, PlanOf,
         Crc64.TableReady, Crc64.Checksum, Crc64.AsNumber;
    ghost var dir, rest := Directory(rs, Plain(|rs|)), Rest(rs, HEADER_SIZE + |rs| * ENTRY_SIZE);
    FitsMeans(rs);
    ImageLength(rs);
    var header := MakeHeader(rs, buf.len, starts, anyMetadata, localized);
    buf.Patch(0, EncodeHeader(header, 0, 0, Zeros(64)));
    HeaderReplaced(Zeros(HEADER_SIZE), dir, rest, EncodeHeader(header, 0, 0, Zeros(64)));
    assert buf.Contents() == Image(rs, Plain(|rs|), 0);
    var crc := Crc64.ComputeCrc64(table, buf.data[..buf.len]);
    header := header.(checksum := Crc64.AsNumber(crc));
    buf.Patch(0, EncodeHeader(header, 0, 0, Zeros(64)));
    HeaderReplaced(HeaderBytes(rs, Plain(|rs|), 0), dir, rest, EncodeHeader(header, 0, 0, Zeros(64)));
  }

  lemma HeaderReplaced(h: seq<byte>, d: seq<byte>, r: seq<byte>, h': seq<byte>)
    requires |h| == |h'|
    ensures (h + d + r)[..0] + h' + (h + d + r)[|h'|..] == h' + d + r
  {
    assert (h + d + r)[|h'|..] == d + r;
  }

  lemma FitsMeans(rs: seq<Resource>)
    requires FitsPlain(rs)
    ensures |rs| < 0x4000_0000 && Fits(rs, HEADER_SIZE + |rs| * ENTRY_SIZE)
    ensures Base(Plain(|rs|), |rs|) == HEADER_SIZE + |rs| * ENTRY_SIZE
  {
    hide PlanOf, AllWellFormed;
  }

  /** The header fields; `flags` is built up from bits not yet set. */
  method MakeHeader(rs: seq<Resource>, size: nat, starts: Starts, anyMetadata: bool, localized: bool) returns (header: Header)
    requires FitsPlain(rs)
    requires var p := PlanOf(rs, HEADER_SIZE + |rs| * ENTRY_SIZE);
             size == p.total && starts == Starts(p.strings, p.metadata, p.table, p.data)
    requires anyMetadata <==> HasMetadata(rs)
    requires localized <==> IsLocalized(rs)
    ensures header == HeaderOf(rs, Plain(|rs|), 0)
  {
    hide Fits, PlanOf, HasMetadata, IsLocalized;
    FitsMeans(rs);
    HeaderFits(rs, HEADER_SIZE + |rs| * ENTRY_SIZE);
    var flags: u32 := HFLAG_HASH_TABLE;
    if anyMetadata {
      flags := flags + HFLAG_METADATA;
    }
    if localized {
      flags := flags + HFLAG_LOCALIZED;
    }
    header := Header(VERSION_MAJOR, VERSION_MINOR, HEADER_SIZE, flags, |rs| % TWO32, ENTRY_SIZE,
                     HEADER_SIZE, starts.strings, if anyMetadata then starts.metadata else 0, starts.table,
                     0, starts.data, size, 0);
  }

  /** `elfrc_container_build`: exactly the container bytes, or the first file that cannot be read. */
  method Build(rs: seq<Resource>, table: array<bv64>) returns (r: BuildResult)
    requires FitsPlain(rs) && Crc64.TableReady(table)
    ensures r.Built? <==> Readable(rs)
    ensures r.Built? ==> fresh(r.buf.Repr) && r.buf.Valid() && r.buf.Contents() == ContainerBytes(rs)
    ensures r.Unreadable? ==>
      r.index < |rs| && rs[r.index].file.None? && forall k :: 0 <= k < r.index ==> rs[k].file.Some?
  {
    hide FitsPlain, Step, Linear, Fits, PlanOf, Rest, Directory, Zeros, HasMetadata, IsLocalized, Readable, EntryOf,
         Crc64.TableReady, TablesReady, ContainerBytes, ByteBuf.View;
    FitsMeans(rs);
    var buf := new ByteBuf();
    var _ := buf.AppendZeros(HEADER_SIZE);
    BaseFits(rs);
    var _ := buf.AppendZeros(|rs| * ENTRY_SIZE);
    assert buf.Contents() == Zeros(HEADER_SIZE) + Zeros(|rs| * ENTRY_SIZE);
    var ok, failed, t := WriteRegions(buf, rs, table);
    if !ok {
      return Unreadable(failed);
    }
    TablesMean(t, rs, HEADER_SIZE + |rs| * ENTRY_SIZE);
    var entries, localized := FillDirectory(rs, t, HEADER_SIZE + |rs| * ENTRY_SIZE);
    PatchDirectory(buf, rs, entries);
    PatchHeader(buf, rs, table, t.starts, t.anyMetadata, localized);
    return Built(buf);
  }

  lemma BaseFits(rs: seq<Resource>)
    requires FitsPlain(rs)
    ensures HEADER_SIZE + |rs| * ENTRY_SIZE < TWO32
  {
    hide FitsPlain, PlanOf, AllWellFormed;
    PlanOrdered(rs, HEADER_SIZE + |rs| * ENTRY_SIZE);
    FitsMeans(rs);
  }

  lemma TablesMean(t: Tables, rs: seq<Resource>, base: nat)
    requires TablesReady(t, rs, base)
    ensures t.anyMetadata <==> HasMetadata(rs)
    ensures var p := PlanOf(rs, base); t.starts == Starts(p.strings, p.metadata, p.table, p.data)
  {
    hide PlanOf, HasMetadata;
  }
}
