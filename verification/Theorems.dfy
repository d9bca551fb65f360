/** The headline results: writer, bytes and reader together. */
module Theorems {
  import opened Bytes
  import opened ErfFormat
  import opened Manifests
  import opened MetadataBlocks
  import opened Layout
  import opened Reader
  import opened RoundTrip
  import opened Integrity
  import opened ContainerBuild
  import opened ErfReader
  import H = HashIndex
  import Crc64
  import Ids
  import Elf = ElfObject
  import ElfDump

  /** Manifest to bytes to resources: opening what was built, with anything behind it, yields
      resource i's id, type, language, flags, NUL-terminated name and payload as entry i. */
  lemma FullRoundTrip(rs: seq<Resource>, trailing: seq<byte>, i: nat)
    requires FitsPlain(rs) && Readable(rs) && i < |rs|
    ensures Accepts(ContainerBytes(rs) + trailing)
    ensures var c := Opened(ContainerBytes(rs) + trailing);
            && |c.resources| == |rs|
            && Delivers(c, c.resources[i], rs[i])
            && c.base[c.resources[i].data..c.resources[i].data + c.resources[i].size] == rs[i].file.value
  {
    hide Fits, LaidOut, ContainerBytes, Accepts, Opened, Plain, Image, CStringIs, Block;
    PlainIsLaidOut(rs, trailing);
    OpensToResources(ContainerBytes(rs) + trailing, rs, Plain(|rs|), Crc64.ChecksumNumber(Image(rs, Plain(|rs|), 0)), i);
  }

  /** The same, also for an empty manifest. */
  lemma BuiltOpens(rs: seq<Resource>, trailing: seq<byte>)
    requires FitsPlain(rs)
    ensures Accepts(ContainerBytes(rs) + trailing) && |Opened(ContainerBytes(rs) + trailing).resources| == |rs|
  {
    hide Fits, LaidOut, ContainerBytes, Accepts, Opened, Plain, Image;
    PlainIsLaidOut(rs, trailing);
    CountReadsBack(ContainerBytes(rs) + trailing, rs, Plain(|rs|), Crc64.ChecksumNumber(Image(rs, Plain(|rs|), 0)));
  }

  // ---------- forward compatibility ----------

  /** Two entries a program cannot tell apart through the reader. */
  ghost predicate SameResource(c: ERFContainer, r: ERFResource, c': ERFContainer, r': ERFResource) {
    && r.id == r'.id && r.typ == r'.typ && r.language == r'.language && r.flags == r'.flags
    && r.timestamp == r'.timestamp && r.size == r'.size
    && (forall name: seq<byte> :: 0 !in name ==> (CStringIs(c.base, r.name, name) <==> CStringIs(c'.base, r'.name, name)))
    && (forall s: seq<byte> :: |s| == r.size ==> (Placed(c.base, r.data, s) <==> Placed(c'.base, r'.data, s)))
    && CountAt(c.base, r.metadataOffset) == CountAt(c'.base, r'.metadataOffset)
    && (forall j: int :: SamePair(c.base, MetadataAt(c.base, r.metadataOffset, j), c'.base, MetadataAt(c'.base, r'.metadataOffset, j)))
  }

  /** Both absent, or both the same key and value strings. */
  ghost predicate SamePair(b: seq<byte>, p: Option<PairView>, b': seq<byte>, p': Option<PairView>) {
    && (p.Some? <==> p'.Some?)
    && (p.Some? ==> exists k, v ::
          && 0 !in k && 0 !in v
          && CStringIs(b, p.value.key, k) && CStringIs(b', p'.value.key, k)
          && CStringIs(b, p.value.value, v) && CStringIs(b', p'.value.value, v))
  }

  lemma SameName(b: seq<byte>, off: nat, b': seq<byte>, off': nat, name: seq<byte>, other: seq<byte>)
    requires 0 !in name && CStringIs(b, off, name) && CStringIs(b', off', name)
    requires 0 !in other
    ensures CStringIs(b, off, other) <==> CStringIs(b', off', other)
  {
    hide CStringIs;
    if CStringIs(b, off, other) {
      CStringUnique(b, off, name, other);
    }
    if CStringIs(b', off', other) {
      CStringUnique(b', off', name, other);
    }
  }

  lemma SameSlice(b: seq<byte>, off: nat, b': seq<byte>, off': nat, want: seq<byte>, other: seq<byte>)
    requires Placed(b, off, want) && Placed(b', off', want) && |other| == |want|
    ensures Placed(b, off, other) <==> Placed(b', off', other)
  {
  }

  lemma SamePairs(b: seq<byte>, b': seq<byte>, rs: seq<Resource>, v: Variant, v': Variant, x: u64, x': u64, i: nat, j: int)
    requires LaidOut(b, rs, v, x) && LaidOut(b', rs, v', x') && i < |rs|
    requires Accepts(b) && Accepts(b') && |Opened(b).resources| == |rs| == |Opened(b').resources|
    ensures SamePair(b, MetadataAt(b, Opened(b).resources[i].metadataOffset, j),
                     b', MetadataAt(b', Opened(b').resources[i].metadataOffset, j))
  {
    hide LaidOut, Accepts, Opened, CStringIs, MetadataAt, CountAt;
    MetadataRoundTrip(b, rs, v, x, i);
    MetadataRoundTrip(b', rs, v', x', i);
    MetadataIsWellFormed(b, rs, v, x, i);
    var kvs := rs[i].metadata;
    if 0 <= j < |kvs| {
      assert kvs[j] in kvs;
      var k, w := kvs[j].key, kvs[j].value;
      assert CStringIs(b, MetadataAt(b, Opened(b).resources[i].metadataOffset, j).value.key, k);
    }
  }

  lemma SameEntry(b: seq<byte>, b': seq<byte>, rs: seq<Resource>, v: Variant, v': Variant, x: u64, x': u64, i: nat)
    requires LaidOut(b, rs, v, x) && LaidOut(b', rs, v', x') && i < |rs|
    ensures Accepts(b) && Accepts(b') && |Opened(b).resources| == |rs| == |Opened(b').resources|
    ensures SameResource(Opened(b), Opened(b).resources[i], Opened(b'), Opened(b').resources[i])
  {
    hide LaidOut, Accepts, Opened, CStringIs, MetadataAt, CountAt, Placed, Payload, Block, SamePair;
    OpensToResources(b, rs, v, x, i);
    OpensToResources(b', rs, v', x', i);
    OpenedBase(b);
    OpenedBase(b');
    NameIsCString(b, rs, v, x, i);
    MetadataRoundTrip(b, rs, v, x, i);
    MetadataRoundTrip(b', rs, v', x', i);
    var r, r' := Opened(b).resources[i], Opened(b').resources[i];
    forall name: seq<byte> | 0 !in name
      ensures CStringIs(b, r.name, name) <==> CStringIs(b', r'.name, name)
    {
      SameName(b, r.name, b', r'.name, rs[i].name, name);
    }
    forall s: seq<byte> | |s| == r.size
      ensures Placed(b, r.data, s) <==> Placed(b', r'.data, s)
    {
      SameSlice(b, r.data, b', r'.data, Payload(rs[i]), s);
    }
    forall j: int
      ensures SamePair(b, MetadataAt(b, r.metadataOffset, j), b', MetadataAt(b', r'.metadataOffset, j))
    {
      SamePairs(b, b', rs, v, v', x, x', i, j);
    }
  }

  /** Section 16 of the ERF specification: the same resources laid out with a longer header,
      longer entries, any reserved bytes, any unknown flag bits, any minor version, any checksum
      and anything behind them open to the same entries and give the same answers. */
  lemma ForwardCompatible(rs: seq<Resource>, v: Variant, checksum: u64, trailing: seq<byte>)
    requires FitsPlain(rs) && ValidVariant(v, |rs|) && Fits(rs, Base(v, |rs|))
    ensures Accepts(ContainerBytes(rs)) && Accepts(Image(rs, v, checksum) + trailing)
    ensures var c, c' := Opened(ContainerBytes(rs)), Opened(Image(rs, v, checksum) + trailing);
            && |c.resources| == |c'.resources| == |rs|
            && TableInside(c) && TableInside(c')
            && (forall i :: 0 <= i < |rs| ==> SameResource(c, c.resources[i], c', c'.resources[i]))
            && (forall name: seq<byte> :: 0 !in name ==> Lookup(c, name) == Lookup(c', name))
            && (forall id: u32 :: ScanId(c, id, 0) == ScanId(c', id, 0))
  {
    hide Fits, LaidOut, Laid, ContainerBytes, Accepts, Opened, Image, SameResource, TableInside, Lookup, ValidVariant, Plain;
    var b, b' := ContainerBytes(rs), Image(rs, v, checksum) + trailing;
    var x := Crc64.ChecksumNumber(Image(rs, Plain(|rs|), 0));
    PlainIsLaidOut(rs, []);
    assert b + [] == b;
    VariantIsLaidOut(rs, v, checksum, trailing);
    CountReadsBack(b, rs, Plain(|rs|), x);
    CountReadsBack(b', rs, v, checksum);
    TableIsBuilt(b, rs, Plain(|rs|), x);
    TableIsBuilt(b', rs, v, checksum);
    forall i | 0 <= i < |rs|
      ensures SameResource(Opened(b), Opened(b).resources[i], Opened(b'), Opened(b').resources[i])
    {
      SameEntry(b, b', rs, Plain(|rs|), v, x, checksum, i);
    }
    forall name: seq<byte> | 0 !in name
      ensures Lookup(Opened(b), name) == Lookup(Opened(b'), name)
    {
      LookupIsFirstOfName(b, rs, Plain(|rs|), x, name);
      LookupIsFirstOfName(b', rs, v, checksum, name);
    }
    forall id: u32
      ensures ScanId(Opened(b), id, 0) == ScanId(Opened(b'), id, 0)
    {
      SameIds(Opened(b), Opened(b'), id, 0);
    }
  }

  lemma VariantIsLaidOut(rs: seq<Resource>, v: Variant, checksum: u64, trailing: seq<byte>)
    requires ValidVariant(v, |rs|) && Fits(rs, Base(v, |rs|))
    ensures LaidOut(Image(rs, v, checksum) + trailing, rs, v, checksum)
  {
    hide Fits, Laid, Image;
    ImageLaid(rs, v, checksum, trailing);
  }

  lemma {:induction false} SameIds(c: ERFContainer, c': ERFContainer, id: u32, i: nat)
    requires i <= |c.resources| == |c'.resources|
    requires forall k :: 0 <= k < |c.resources| ==> SameResource(c, c.resources[k], c', c'.resources[k])
    ensures ScanId(c, id, i) == ScanId(c', id, i)
    decreases |c.resources| - i
  {
    hide CStringIs, Placed, MetadataAt, CountAt, SamePair;
    if i == |c.resources| {
    } else {
      SameIds(c, c', id, i + 1);
    }
  }

  // ---------- identifiers and flags ----------

  lemma AssignedIdsDistinct(rs: seq<Resource>)
    requires |rs| < TWO32 && !Ids.HasDuplicateIds(rs)
    ensures forall i, j :: 0 <= i < j < |rs| ==> Ids.Assigned(rs)[i].finalId != Ids.Assigned(rs)[j].finalId
  {
    forall i, j | 0 <= i < j < |rs|
      ensures Ids.Assigned(rs)[i].finalId != Ids.Assigned(rs)[j].finalId
    {
      Ids.FinalIdsDistinct(rs, i, j);
    }
  }

  /** After validation and build, looking up any final id gives exactly the entry that has it. */
  lemma ValidatedIdsAreFound(rs: seq<Resource>, i: nat)
    requires |rs| < TWO32 && !Ids.HasDuplicateIds(rs) && i < |rs|
    requires FitsPlain(Ids.Assigned(rs))
    ensures var built := Ids.Assigned(rs);
            && Accepts(ContainerBytes(built))
            && ScanId(Opened(ContainerBytes(built)), built[i].finalId, 0) == Some(i)
            && (rs[i].idExplicit ==> built[i].finalId == rs[i].id)
  {
    hide Fits, LaidOut, ContainerBytes, Accepts, Opened, Plain, Image, ScanId;
    var built := Ids.Assigned(rs);
    PlainIsLaidOut(built, []);
    assert ContainerBytes(built) + [] == ContainerBytes(built);
    AssignedIdsDistinct(rs);
    IdLookupIsExact(ContainerBytes(built), built, Plain(|built|), Crc64.ChecksumNumber(Image(built, Plain(|built|), 0)), built[i].finalId);
  }

  /** The header says whether some name occurs twice and whether there is metadata. */
  lemma FlagsTell(rs: seq<Resource>)
    requires FitsPlain(rs)
    ensures |ContainerBytes(rs)| >= HEADER_SIZE
    ensures DecodeHeader(ContainerBytes(rs)).flags % 2 == 1 <==> IsLocalized(rs)
    ensures (DecodeHeader(ContainerBytes(rs)).flags / HFLAG_METADATA) % 2 == 1 <==> HasMetadata(rs)
  {
    hide LaidOut, ContainerBytes, Plain, Image, IsLocalized, HasMetadata, PlanOf, DecodeHeader, Fits;
    var x := Crc64.ChecksumNumber(Image(rs, Plain(|rs|), 0));
    PlainIsLaidOut(rs, []);
    assert ContainerBytes(rs) + [] == ContainerBytes(rs);
    HeaderReadsBack(ContainerBytes(rs), rs, Plain(|rs|), x);
    PlainFlags(rs, x);
  }

  lemma PlainFlags(rs: seq<Resource>, checksum: u64)
    requires FitsPlain(rs)
    ensures var flags := HeaderOf(rs, Plain(|rs|), checksum).flags;
            (flags % 2 == 1 <==> IsLocalized(rs)) && ((flags / HFLAG_METADATA) % 2 == 1 <==> HasMetadata(rs))
  {
    hide IsLocalized, HasMetadata, PlanOf, AllWellFormed;
  }

  // ---------- through the ELF object ----------

  lemma ContainerSize(rs: seq<Resource>)
    requires FitsPlain(rs)
    ensures |ContainerBytes(rs)| < Elf.MAX_CONTAINER
  {
    hide Laid, Image, Crc64.ChecksumNumber, AllWellFormed;
    ImageLaid(rs, Plain(|rs|), Crc64.ChecksumNumber(Image(rs, Plain(|rs|), 0)), []);
  }

  /** Manifest to container to ELF object to section to resources. */
  lemma ManifestToElfToResources(rs: seq<Resource>, prefix: Option<CString>, i: nat)
    requires FitsPlain(rs) && Readable(rs) && i < |rs|
    ensures |ContainerBytes(rs)| < Elf.MAX_CONTAINER
    ensures ElfDump.Extracted(Elf.ObjectBytes(ContainerBytes(rs), prefix)) == Some(ContainerBytes(rs))
    ensures Accepts(ContainerBytes(rs))
    ensures var c := Opened(ContainerBytes(rs)); |c.resources| == |rs| && Delivers(c, c.resources[i], rs[i])
  {
    hide FitsPlain, LaidOut, ContainerBytes, Accepts, Opened, Delivers, Elf.ObjectBytes, ElfDump.Extracted, ElfDump.Locate, ElfDump.Walkable, ElfDump.HeaderCheck;
    ContainerSize(rs);
    ElfDump.ElfRoundTrip(ContainerBytes(rs), prefix);
    FullRoundTrip(rs, [], i);
    assert ContainerBytes(rs) + [] == ContainerBytes(rs);
  }

  // ---------- the programs together ----------

  lemma BuiltReads(rs: seq<Resource>, name: seq<byte>)
    requires FitsPlain(rs) && 0 !in name
    ensures var b := ContainerBytes(rs);
            && |b| < TWO64 && Accepts(b) && TableInside(Opened(b))
            && LookupInside(Opened(b), name)
            && Lookup(Opened(b), name) == H.Scan(Names(rs), name)
  {
    hide Fits, LaidOut, ContainerBytes, Accepts, Opened, Image, Lookup, LookupInside, Plain, TableInside;
    var x := Crc64.ChecksumNumber(Image(rs, Plain(|rs|), 0));
    PlainIsLaidOut(rs, []);
    assert ContainerBytes(rs) + [] == ContainerBytes(rs);
    ContainerSize(rs);
    LookupIsFirstOfName(ContainerBytes(rs), rs, Plain(|rs|), x, name);
    LookupsStayInside(ContainerBytes(rs), rs, Plain(|rs|), x, name);
  }

  /** What tests/integration/test_roundtrip.c exercises, for every manifest and every name: build, open,
      verify, find. The answer is the first resource of that name. */
  method BuildOpenFind(rs: seq<Resource>, table: array<bv64>, name: seq<byte>) returns (verified: bool, found: Option<nat>)
    requires FitsPlain(rs) && Readable(rs) && 0 !in name
    requires Crc64.TableReady(table)
    ensures verified
    ensures found == H.Scan(Names(rs), name)
  {
    hide Fits, ContainerBytes, Accepts, Lookup, LookupInside, Opened, Crc64.TableReady, TableInside, ChecksumHolds, Readable;
    var built := Build(rs, table);
    var bytes := built.buf.data[..built.buf.len];
    BuiltReads(rs, name);
    BuiltVerifies(rs);
    var library := new Library();
    var c := library.OpenMemory(Some(bytes));
    OpenedBase(bytes);
    verified := VerifyChecksum(c, table);
    var answer, inside, _ := library.FindIn(c, Some(name));
    found := answer;
  }

  lemma BuiltPayload(rs: seq<Resource>, i: nat)
    requires FitsPlain(rs) && Readable(rs) && i < |rs|
    ensures var b := ContainerBytes(rs);
            && Accepts(b) && |Opened(b).resources| == |rs|
            && var r := Opened(b).resources[i];
               r.data + r.size <= |b| && Some(b[r.data..r.data + r.size]) == rs[i].file
  {
    hide FitsPlain, ContainerBytes, Accepts, Opened, CStringIs, Block, MetadataAt;
    FullRoundTrip(rs, [], i);
    assert ContainerBytes(rs) + [] == ContainerBytes(rs);
    OpenedBase(ContainerBytes(rs));
  }

  /** Build, open, ask for the data: the bytes of the file of the first resource of that name, or nothing
      exactly when no resource has it. */
  method BuildOpenRead(rs: seq<Resource>, table: array<bv64>, name: seq<byte>) returns (payload: Option<seq<byte>>)
    requires FitsPlain(rs) && Readable(rs) && 0 !in name
    requires Crc64.TableReady(table)
    ensures payload.None? <==> forall i :: 0 <= i < |rs| ==> rs[i].name != name
    ensures forall i :: 0 <= i < |rs| && rs[i].name == name && (forall j :: 0 <= j < i ==> rs[j].name != name) ==>
      payload == rs[i].file
  {
    hide FitsPlain, ContainerBytes, Accepts, Lookup, LookupInside, Opened, Crc64.TableReady, TableInside, Readable;
    var built := Build(rs, table);
    var bytes := built.buf.data[..built.buf.len];
    BuiltReads(rs, name);
    FirstNamed(rs, name);
    var library := new Library();
    var c := library.OpenMemory(Some(bytes));
    OpenedBase(bytes);
    var data, size, _ := library.ResourceDataIn(c, Some(name));
    if data.Some? {
      BuiltPayload(rs, H.Scan(Names(rs), name).value);
      return Some(bytes[data.value..data.value + size]);
    }
    return None;
  }

  lemma FirstNamed(rs: seq<Resource>, name: seq<byte>)
    ensures H.Scan(Names(rs), name).None? <==> forall i :: 0 <= i < |rs| ==> rs[i].name != name
    ensures forall i :: 0 <= i < |rs| && rs[i].name == name && (forall j :: 0 <= j < i ==> rs[j].name != name) ==>
      H.Scan(Names(rs), name) == Some(i)
    ensures H.Scan(Names(rs), name).Some? ==> H.Scan(Names(rs), name).value < |rs|
  {
    var names := Names(rs);
    var f := FirstIndex(names, name);
    hide FirstIndex;
    assert forall i :: 0 <= i < |rs| ==> names[i] == rs[i].name;
    assert f < |names| ==> rs[f].name == name;
  }

  lemma BuiltMetadata(rs: seq<Resource>, i: nat, j: int32)
    requires FitsPlain(rs) && i < |rs|
    ensures var b := ContainerBytes(rs);
            && |b| < TWO64 && Accepts(b) && |Opened(b).resources| == |rs|
            && var off, kvs := Opened(b).resources[i].metadataOffset, rs[i].metadata;
               && CountAt(b, off) == |kvs| < 0x8000_0000 && !CounterOverflows(b, off, j)
               && (MetadataAt(b, off, j).Some? <==> 0 <= j < |kvs|)
               && (0 <= j < |kvs| ==>
                     && CStringIs(b, MetadataAt(b, off, j).value.key, kvs[j].key)
                     && CStringIs(b, MetadataAt(b, off, j).value.value, kvs[j].value))
  {
    hide Fits, LaidOut, ContainerBytes, Accepts, Opened, Image, Plain, CStringIs, MetadataAt, CountAt;
    var x := Crc64.ChecksumNumber(Image(rs, Plain(|rs|), 0));
    PlainIsLaidOut(rs, []);
    assert ContainerBytes(rs) + [] == ContainerBytes(rs);
    ContainerSize(rs);
    MetadataRoundTrip(ContainerBytes(rs), rs, Plain(|rs|), x, i);
  }

  /** Build, open, ask for resource i's metadata: its count, and its j-th key and value for every j below it. */
  method BuildOpenMetadata(rs: seq<Resource>, table: array<bv64>, i: u32, j: int32) returns (count: int, pair: Option<KeyValue>)
    requires FitsPlain(rs) && Readable(rs) && i < |rs|
    requires Crc64.TableReady(table)
    ensures count == |rs[i].metadata|
    ensures pair.Some? <==> 0 <= j < |rs[i].metadata|
    ensures pair.Some? ==>
      && CStringIs(ContainerBytes(rs), pair.value.key, rs[i].metadata[j].key)
      && CStringIs(ContainerBytes(rs), pair.value.value, rs[i].metadata[j].value)
  {
    hide FitsPlain, ContainerBytes, Accepts, Opened, Crc64.TableReady, Readable, CStringIs, MetadataAt, CountAt, CounterOverflows;
    var built := Build(rs, table);
    var bytes := built.buf.data[..built.buf.len];
    BuiltMetadata(rs, i, j);
    var library := new Library();
    var c := library.OpenMemory(Some(bytes));
    OpenedBase(bytes);
    var r := library.ResourceAt(c, i);
    count := MetadataCount(c, r);
    var got, _ := MetadataGet(c, r, j);
    pair := got;
  }
}
