/**
  The runtime reader (src/libelfr/erf_reader.c). It is given bytes it does not
  trust. Pointers into those bytes are offsets from their start.
 */
module Reader {
  import opened Bytes
  import opened ErfFormat
  import H = HashIndex
  import Crc64
  import Fnv1a

  datatype ERFError =
    | Ok | BadMagic | UnsupportedVersion | Truncated | BadOffset | NotFound | InvalidArgument

  datatype ERFResource = ERFResource(
    id: u32, typ: u32, language: u32, flags: u32,
    name: nat, data: nat, size: u64, timestamp: u64, metadataOffset: u64)

  datatype ERFContainer = ERFContainer(
    base: seq<byte>, header: Header, resources: seq<ERFResource>,
    hasHashTable: bool, bucketCount: u32, buckets: nat)

  const INT_MAX: int := 0x7FFF_FFFF

  type int32 = x: int | -0x8000_0000 <= x < 0x8000_0000

  // ---------- size_t arithmetic ----------

  function Add64(a: nat, b: nat): u64 { (a + b) % TWO64 }

  function Mul64(a: nat, b: nat): u64 { (a * b) % TWO64 }

  /** `in_bounds`, branch by branch. */
  predicate InBounds(size: u64, offset: u64, len: u64) {
    if offset > size then false
    else if len > size - offset then false
    else true
  }

  /** It decides the range condition over unbounded integers: nothing in it can wrap. */
  lemma InBoundsIsExact(size: u64, offset: u64, len: u64)
    ensures InBounds(size, offset, len) <==> offset + len <= size
  {
  }

  // ---------- what is accepted ----------

  predicate HeaderAccepted(b: seq<byte>) {
    && |b| >= HEADER_SIZE
    && b[..4] == MAGIC
    && var h := DecodeHeader(b);
       && h.versionMajor == VERSION_MAJOR
       && HEADER_SIZE <= h.headerSize <= h.totalSize <= |b|
       && h.directoryEntrySize >= ENTRY_SIZE
       && h.directoryOffset + h.resourceCount * h.directoryEntrySize <= h.totalSize
       && (h.resourceCount > 0 ==> h.stringOffset <= h.totalSize)
  }

  predicate TableAccepted(b: seq<byte>)
    requires HeaderAccepted(b)
  {
    var h := DecodeHeader(b);
    HasHashTable(h) ==>
      && h.hashTableOffset + TABLE_HEADER_SIZE <= h.totalSize
      && h.hashTableOffset + TABLE_HEADER_SIZE + U32At(b, h.hashTableOffset) * BUCKET_SIZE <= h.totalSize
  }

  /** Entries lie one stride apart, each with at least 128 bytes before the directory ends. */
  lemma EntryInside(h: Header, i: nat)
    requires i < h.resourceCount && h.directoryEntrySize >= ENTRY_SIZE
    ensures 0 <= i * h.directoryEntrySize
    ensures i * h.directoryEntrySize + ENTRY_SIZE <= h.resourceCount * h.directoryEntrySize
  {
    MulStep(i, h.resourceCount, h.directoryEntrySize);
  }

  lemma MulStep(i: nat, n: nat, k: nat)
    requires i < n
    ensures 0 <= i * k && i * k + k <= n * k
  {
    MulNext(i, k);
    MulMono(i + 1, n, k);
  }

  function EntryAt(b: seq<byte>, i: nat): Entry
    requires HeaderAccepted(b) && i < DecodeHeader(b).resourceCount
  {
    var h := DecodeHeader(b);
    EntryInside(h, i);
    DecodeEntry(b, h.directoryOffset + i * h.directoryEntrySize)
  }

  predicate EntryAccepted(b: seq<byte>, i: nat)
    requires HeaderAccepted(b) && i < DecodeHeader(b).resourceCount
  {
    var h, e := DecodeHeader(b), EntryAt(b, i);
    e.nameOffset + 1 <= h.totalSize && e.dataOffset + e.dataSize <= h.totalSize
  }

  /** Every range that opening reads or hands out lies in the container, over unbounded integers. Offsets
      that nothing has used by then are not looked at: UnreadInRange says which. */
  predicate Accepts(b: seq<byte>) {
    && HeaderAccepted(b)
    && TableAccepted(b)
    && forall i :: 0 <= i < DecodeHeader(b).resourceCount ==> EntryAccepted(b, i)
  }

  /** What Appendix B of the ERF specification asks for: the offsets in the header and in all entries
      lie in the container. */
  predicate AllOffsetsInRange(b: seq<byte>)
    requires HeaderAccepted(b)
  {
    var h := DecodeHeader(b);
    && h.directoryOffset <= h.totalSize && h.stringOffset <= h.totalSize && h.metadataOffset <= h.totalSize
    && h.hashTableOffset <= h.totalSize && h.signatureOffset <= h.totalSize && h.dataOffset <= h.totalSize
    && forall i :: 0 <= i < h.resourceCount ==>
         var e := EntryAt(b, i);
         e.nameOffset <= h.totalSize && e.dataOffset <= h.totalSize && e.metadataOffset <= h.totalSize
  }

  /** The part of it that opening leaves unread. */
  predicate UnreadInRange(b: seq<byte>)
    requires HeaderAccepted(b)
  {
    var h := DecodeHeader(b);
    && h.metadataOffset <= h.totalSize && h.signatureOffset <= h.totalSize && h.dataOffset <= h.totalSize
    && (h.resourceCount == 0 ==> h.stringOffset <= h.totalSize)
    && (!HasHashTable(h) ==> h.hashTableOffset <= h.totalSize)
    && forall i :: 0 <= i < h.resourceCount ==> EntryAt(b, i).metadataOffset <= h.totalSize
  }

  /** An accepted container has all its offsets in range exactly when the unread ones are. */
  lemma OffsetsInRangeIff(b: seq<byte>)
    requires Accepts(b)
    ensures AllOffsetsInRange(b) <==> UnreadInRange(b)
  {
    hide DecodeHeader, DecodeEntry, U32At, HasHashTable;
    var h := DecodeHeader(b);
    forall i | 0 <= i < h.resourceCount
      ensures EntryAt(b, i).nameOffset <= h.totalSize && EntryAt(b, i).dataOffset <= h.totalSize
    {
      assert EntryAccepted(b, i);
    }
    if h.resourceCount > 0 {
      assert h.stringOffset <= h.totalSize;
    }
    assert 0 <= h.resourceCount * h.directoryEntrySize;
  }

  /** A header without the offsets that opening leaves unread. */
  function ReadPart(h: Header): Header {
    h.(metadataOffset := 0, signatureOffset := 0, dataOffset := 0,
       stringOffset := if h.resourceCount == 0 then 0 else h.stringOffset,
       hashTableOffset := if HasHashTable(h) then h.hashTableOffset else 0)
  }

  /** Two byte strings that differ, as far as opening is concerned, at most in unread offsets. */
  predicate SameButUnread(b: seq<byte>, b': seq<byte>) {
    && |b| == |b'|
    && (|b| >= HEADER_SIZE ==>
          && b[..4] == b'[..4]
          && ReadPart(DecodeHeader(b)) == ReadPart(DecodeHeader(b'))
          && (DecodeHeader(b).hashTableOffset + TABLE_HEADER_SIZE <= |b| && HasHashTable(DecodeHeader(b)) ==>
                U32At(b, DecodeHeader(b).hashTableOffset) == U32At(b', DecodeHeader(b).hashTableOffset)))
    && (HeaderAccepted(b) && HeaderAccepted(b') ==>
          forall i :: 0 <= i < DecodeHeader(b).resourceCount ==>
            EntryAt(b, i).(metadataOffset := 0) == EntryAt(b', i).(metadataOffset := 0))
  }

  lemma SameHeaderVerdict(b: seq<byte>, b': seq<byte>)
    requires SameButUnread(b, b')
    ensures HeaderAccepted(b) <==> HeaderAccepted(b')
  {
    hide DecodeHeader, DecodeEntry, U32At, HasHashTable;
    if |b| >= HEADER_SIZE {
      var h, h' := DecodeHeader(b), DecodeHeader(b');
      assert ReadPart(h).versionMajor == ReadPart(h').versionMajor;
    }
  }

  /** They do not matter: whatever they hold, opening gives the same verdict. */
  lemma UnreadOffsetsDoNotMatter(b: seq<byte>, b': seq<byte>)
    requires SameButUnread(b, b')
    ensures Accepts(b) <==> Accepts(b')
  {
    SameHeaderVerdict(b, b');
    hide DecodeHeader, EntryAt, U32At, HeaderAccepted;
    if HeaderAccepted(b) {
      HeaderIsRead(b);
      HeaderIsRead(b');
      var h, h' := DecodeHeader(b), DecodeHeader(b');
      SameReadPart(h, h');
      forall i | 0 <= i < h.resourceCount
        ensures EntryAccepted(b, i) <==> EntryAccepted(b', i)
      {
        SameEntryVerdict(EntryAt(b, i), EntryAt(b', i));
      }
    }
  }

  lemma HeaderIsRead(b: seq<byte>)
    requires HeaderAccepted(b)
    ensures HEADER_SIZE <= DecodeHeader(b).totalSize <= |b|
  {
    hide DecodeHeader;
  }

  lemma SameReadPart(h: Header, h': Header)
    requires ReadPart(h) == ReadPart(h')
    ensures h.resourceCount == h'.resourceCount && h.totalSize == h'.totalSize
    ensures HasHashTable(h) <==> HasHashTable(h')
    ensures HasHashTable(h) ==> h.hashTableOffset == h'.hashTableOffset
  {
    assert h.flags == ReadPart(h).flags == ReadPart(h').flags == h'.flags;
    assert h.resourceCount == ReadPart(h).resourceCount == ReadPart(h').resourceCount == h'.resourceCount;
    assert h.totalSize == ReadPart(h).totalSize == ReadPart(h').totalSize == h'.totalSize;
    assert ReadPart(h).hashTableOffset == ReadPart(h').hashTableOffset;
  }

  lemma SameEntryVerdict(e: Entry, e': Entry)
    requires e.(metadataOffset := 0) == e'.(metadataOffset := 0)
    ensures e.nameOffset == e'.nameOffset && e.dataOffset == e'.dataOffset && e.dataSize == e'.dataSize
  {
    var x, x' := e.(metadataOffset := 0), e'.(metadataOffset := 0);
    assert x.nameOffset == x'.nameOffset && x.dataOffset == x'.dataOffset && x.dataSize == x'.dataSize;
  }

  function ResourceOf(e: Entry): ERFResource {
    ERFResource(e.id, e.typ, e.language, e.flags, e.nameOffset, e.dataOffset, e.dataSize, e.timestamp, e.metadataOffset)
  }

  function ResourcesUpTo(b: seq<byte>, n: nat): (r: seq<ERFResource>)
    requires HeaderAccepted(b) && n <= DecodeHeader(b).resourceCount
    ensures |r| == n
  {
    seq(n, i requires 0 <= i < n => ResourceOf(EntryAt(b, i)))
  }

  /** The handle an accepted container gets. */
  function Opened(b: seq<byte>): ERFContainer
    requires Accepts(b)
  {
    var h := DecodeHeader(b);
    ERFContainer(b, h, ResourcesUpTo(b, h.resourceCount), HasHashTable(h),
                 if HasHashTable(h) then U32At(b, h.hashTableOffset) else 0,
                 if HasHashTable(h) then h.hashTableOffset + TABLE_HEADER_SIZE else 0)
  }

  /** The first check that fails names the error. */
  function OpenError(base: Option<seq<byte>>): ERFError {
    if base.None? || |base.value| == 0 then InvalidArgument
    else if |base.value| < HEADER_SIZE then Truncated
    else if base.value[..4] != MAGIC then BadMagic
    else if DecodeHeader(base.value).versionMajor != VERSION_MAJOR then UnsupportedVersion
    else BadOffset
  }

  // ---------- the same by position ----------

  /** The header checks in numbers. */
  lemma HeaderAcceptedSpelled(b: seq<byte>)
    ensures HeaderAccepted(b) <==>
      && |b| >= 160
      && b[..4] == [0x45, 0x4C, 0x46, 0x52] && U16At(b, 4) == 1
      && 160 <= U32At(b, 8) <= U64At(b, 80) <= |b|
      && U32At(b, 20) >= 128
      && U64At(b, 32) + U32At(b, 16) * U32At(b, 20) <= U64At(b, 80)
      && (U32At(b, 16) > 0 ==> U64At(b, 40) <= U64At(b, 80))
  {
    hide U16At, U32At, U64At;
  }

  /** Where entry i is read from. */
  lemma EntryStart(b: seq<byte>, i: nat)
    requires HeaderAccepted(b) && i < U32At(b, 16)
    ensures i < DecodeHeader(b).resourceCount
    ensures 0 <= i * U32At(b, 20) && U64At(b, 32) + i * U32At(b, 20) + 128 <= |b|
  {
    hide U16At, U32At, U64At;
    EntryInside(DecodeHeader(b), i);
  }

  /** What opening hands out for entry i, in numbers: the read checks and the fields. */
  lemma EntryAcceptedSpelled(b: seq<byte>, i: nat)
    requires HeaderAccepted(b) && i < U32At(b, 16)
    ensures i < DecodeHeader(b).resourceCount
    ensures 0 <= i * U32At(b, 20)
    ensures var at := U64At(b, 32) + i * U32At(b, 20);
            && at + 128 <= |b|
            && (EntryAccepted(b, i) <==>
                  U32At(b, at + 16) + 1 <= U64At(b, 80) && U64At(b, at + 24) + U64At(b, at + 32) <= U64At(b, 80))
            && var r := ResourceOf(EntryAt(b, i));
               && r.id == U32At(b, at) && r.typ == U32At(b, at + 4)
               && r.language == U32At(b, at + 8) && r.flags == U32At(b, at + 12)
               && r.name == U32At(b, at + 16) && r.data == U64At(b, at + 24) && r.size == U64At(b, at + 32)
               && r.timestamp == U64At(b, at + 72) && r.metadataOffset == U64At(b, at + 48)
  {
    hide U16At, U32At, U64At, HeaderAccepted;
    EntryStart(b, i);
  }

  /** The hash table checks in numbers. */
  lemma TableAcceptedSpelled(b: seq<byte>)
    requires HeaderAccepted(b)
    ensures |b| >= 160
    ensures TableAccepted(b) <==>
      ((U32At(b, 12) / 4) % 2 == 1 && U64At(b, 56) != 0 ==>
         && U64At(b, 56) + 8 <= U64At(b, 80) <= |b|
         && U64At(b, 56) + 8 + U32At(b, U64At(b, 56)) * 16 <= U64At(b, 80))
  {
    hide U16At, U32At, U64At;
  }

  /** The bucket array of an opened container, in numbers. */
  lemma OpenedTableSpelled(b: seq<byte>)
    requires Accepts(b)
    ensures |b| >= 160
    ensures var c, at := Opened(b), U64At(b, 56);
            && c.base == b && |c.resources| == U32At(b, 16)
            && (c.hasHashTable <==> (U32At(b, 12) / 4) % 2 == 1 && at != 0)
            && (c.hasHashTable ==> at + 8 <= |b| && c.bucketCount == U32At(b, at) && c.buckets == at + 8)
            && (!c.hasHashTable ==> c.bucketCount == 0)
  {
    hide U16At, U32At, U64At, EntryAccepted, ResourcesUpTo;
  }

  /** Which error a refusal reports, in bytes and numbers. */
  lemma OpenErrorSpelled(base: Option<seq<byte>>)
    ensures base.None? || base.value == [] ==> OpenError(base) == InvalidArgument
    ensures base.Some? && 0 < |base.value| < 160 ==> OpenError(base) == Truncated
    ensures base.Some? && |base.value| >= 160 ==>
      OpenError(base) == if base.value[..4] != [0x45, 0x4C, 0x46, 0x52] then BadMagic
                         else if U16At(base.value, 4) != 1 then UnsupportedVersion
                         else BadOffset
  {
    hide U16At, U32At, U64At;
  }

  /** A handle that came from opening. */
  predicate IsOpen(c: ERFContainer) {
    Accepts(c.base) && c == Opened(c.base)
  }

  /** All directory reads, bucket reads and payloads of an accepted container lie inside total_size. */
  lemma AcceptedIsSafe(b: seq<byte>)
    requires Accepts(b)
    ensures var h, c := DecodeHeader(b), Opened(b);
            && h.totalSize <= |b|
            && (forall i :: 0 <= i < h.resourceCount ==>
                  && 0 <= i * h.directoryEntrySize
                  && h.directoryOffset + i * h.directoryEntrySize + ENTRY_SIZE <= h.totalSize)
            && (forall s :: 0 <= s < c.bucketCount ==> c.buckets + s * BUCKET_SIZE + BUCKET_SIZE <= h.totalSize)
            && (forall r :: r in c.resources ==> r.name < h.totalSize && r.data + r.size <= h.totalSize)
  {
    hide DecodeHeader, DecodeEntry, U32At, HasHashTable;
    var h := DecodeHeader(b);
    forall i | 0 <= i < h.resourceCount
      ensures 0 <= i * h.directoryEntrySize
      ensures h.directoryOffset + i * h.directoryEntrySize + ENTRY_SIZE <= h.totalSize
    {
      EntryInside(h, i);
    }
    forall i | 0 <= i < h.resourceCount
      ensures var r := Opened(b).resources[i]; r.name < h.totalSize && r.data + r.size <= h.totalSize
    {
      assert EntryAccepted(b, i);
    }
  }

  // ---------- lookups ----------

  function BucketAt(c: ERFContainer, s: nat): Bucket
    requires s < c.bucketCount && c.buckets + c.bucketCount * BUCKET_SIZE <= |c.base|
  {
    DecodeBucket(c.base, c.buckets + s * BUCKET_SIZE)
  }

  /** strcmp(resources[i].name, name) == 0 */
  predicate Named(c: ERFContainer, i: nat, name: seq<byte>)
    requires i < |c.resources|
  {
    CStringIs(c.base, c.resources[i].name, name)
  }

  predicate TableInside(c: ERFContainer) {
    c.buckets + c.bucketCount * BUCKET_SIZE <= |c.base|
  }

  predicate Hit(c: ERFContainer, name: seq<byte>, k: Bucket) {
    k.hash == Fnv1a.HashNumber(name) && k.directoryIndex < |c.resources| && Named(c, k.directoryIndex, name)
  }

  /** The probing branch from its k-th probe on. */
  function Probe(c: ERFContainer, name: seq<byte>, k: nat): Option<nat>
    requires 0 < c.bucketCount && k <= c.bucketCount && TableInside(c)
    decreases c.bucketCount - k
  {
    if k == c.bucketCount then None
    else
      var bucket := BucketAt(c, H.Slot(H.Home(Fnv1a.HashNumber(name), c.bucketCount), k, c.bucketCount));
      if H.IsEmpty(bucket) then None
      else if Hit(c, name, bucket) then Some(bucket.directoryIndex)
      else Probe(c, name, k + 1)
  }

  /** The scanning branch from entry i on: the first entry of that name. */
  function Scan(c: ERFContainer, name: seq<byte>, i: nat): Option<nat>
    requires i <= |c.resources|
    decreases |c.resources| - i
  {
    if i == |c.resources| then None
    else if Named(c, i, name) then Some(i)
    else Scan(c, name, i + 1)
  }

  function Lookup(c: ERFContainer, name: seq<byte>): Option<nat>
    requires TableInside(c)
  {
    if c.hasHashTable && c.bucketCount > 0 then Probe(c, name, 0) else Scan(c, name, 0)
  }

  // The comparisons read up to a NUL that nothing has checked for: do they stay in the opened bytes?

  function Compared(c: ERFContainer, i: nat, name: seq<byte>): Option<bool>
    requires i < |c.resources|
  {
    Compare(c.base, c.resources[i].name, name)
  }

  predicate ScanInside(c: ERFContainer, name: seq<byte>, i: nat)
    requires i <= |c.resources|
    decreases |c.resources| - i
  {
    i == |c.resources|
    || (Compared(c, i, name).Some? && (Named(c, i, name) || ScanInside(c, name, i + 1)))
  }

  /** Bucket `k` sends the probe on to compare names. */
  predicate Points(c: ERFContainer, name: seq<byte>, k: Bucket) {
    k.hash == Fnv1a.HashNumber(name) && k.directoryIndex < |c.resources|
  }

  predicate ProbeInside(c: ERFContainer, name: seq<byte>, k: nat)
    requires 0 < c.bucketCount && k <= c.bucketCount && TableInside(c)
    decreases c.bucketCount - k
  {
    if k == c.bucketCount then true
    else
      var bucket := BucketAt(c, H.Slot(H.Home(Fnv1a.HashNumber(name), c.bucketCount), k, c.bucketCount));
      if H.IsEmpty(bucket) then true
      else if !Points(c, name, bucket) then ProbeInside(c, name, k + 1)
      else Compared(c, bucket.directoryIndex, name).Some? && (Hit(c, name, bucket) || ProbeInside(c, name, k + 1))
  }

  predicate LookupInside(c: ERFContainer, name: seq<byte>)
    requires TableInside(c)
  {
    if c.hasHashTable && c.bucketCount > 0 then ProbeInside(c, name, 0) else ScanInside(c, name, 0)
  }

  /** Comparing the name of entry i with `name` leaves the opened bytes. */
  predicate LeavesAt(c: ERFContainer, i: nat, name: seq<byte>)
    requires i < |c.resources|
  {
    Overruns(c.base, c.resources[i].name, name)
  }

  /** The scan from entry i on gets to entry m and leaves the opened bytes there. */
  predicate ScanLeavesAt(c: ERFContainer, name: seq<byte>, i: nat, m: nat)
    requires m < |c.resources|
  {
    i <= m && LeavesAt(c, m, name) && forall j :: i <= j < m ==> !Named(c, j, name)
  }

  /** For one name: the scan leaves the opened bytes exactly when some entry whose bytes up to their
      end begin that name comes before every entry of that name. */
  lemma {:induction false} ScanLeavesIff(c: ERFContainer, name: seq<byte>, i: nat)
    requires i <= |c.resources|
    ensures !ScanInside(c, name, i) <==> exists m: nat :: m < |c.resources| && ScanLeavesAt(c, name, i, m)
    decreases |c.resources| - i
  {
    hide Named, Compared, LeavesAt;
    if i == |c.resources| {
    } else {
      ScanLeavesIff(c, name, i + 1);
      ComparedLeaves(c, i, name);
      if !ScanInside(c, name, i) {
        if Compared(c, i, name).None? {
          assert ScanLeavesAt(c, name, i, i);
        } else {
          var m: nat :| m < |c.resources| && ScanLeavesAt(c, name, i + 1, m);
          assert ScanLeavesAt(c, name, i, m);
        }
      }
      if m: nat :| m < |c.resources| && ScanLeavesAt(c, name, i, m) {
        assert m == i || (!Named(c, i, name) && ScanLeavesAt(c, name, i + 1, m));
      }
    }
  }

  lemma ComparedLeaves(c: ERFContainer, i: nat, name: seq<byte>)
    requires i < |c.resources|
    ensures Compared(c, i, name).None? <==> LeavesAt(c, i, name)
    ensures Named(c, i, name) ==> !LeavesAt(c, i, name)
  {
    CompareOverruns(c.base, c.resources[i].name, name);
    CompareDecides(c.base, c.resources[i].name, name);
  }

  /** The k-th bucket a probe for `name` comes to. */
  function Probed(c: ERFContainer, name: seq<byte>, k: nat): Bucket
    requires k < c.bucketCount && TableInside(c)
  {
    BucketAt(c, H.Slot(H.Home(Fnv1a.HashNumber(name), c.bucketCount), k, c.bucketCount))
  }

  /** The probe goes on behind its k-th bucket: in use, and not an entry of that name. */
  predicate Passes(c: ERFContainer, name: seq<byte>, k: nat)
    requires k < c.bucketCount && TableInside(c)
  {
    !H.IsEmpty(Probed(c, name, k)) && !Hit(c, name, Probed(c, name, k))
  }

  /** The probe from its k-th bucket on gets to its m-th, which has the name's hash and points to an
      entry whose comparison leaves the opened bytes. */
  predicate ProbeLeavesAt(c: ERFContainer, name: seq<byte>, k: nat, m: nat)
    requires m < c.bucketCount && TableInside(c)
  {
    && k <= m
    && !H.IsEmpty(Probed(c, name, m)) && Points(c, name, Probed(c, name, m))
    && LeavesAt(c, Probed(c, name, m).directoryIndex, name)
    && forall j :: k <= j < m ==> Passes(c, name, j)
  }

  lemma LeavesHere(c: ERFContainer, name: seq<byte>, k: nat)
    requires k < c.bucketCount && TableInside(c)
    ensures ProbeLeavesAt(c, name, k, k) ==> !ProbeInside(c, name, k)
    ensures !ProbeLeavesAt(c, name, k, k) ==>
      (ProbeInside(c, name, k) <==> !Passes(c, name, k) || ProbeInside(c, name, k + 1))
  {
    hide H.Home, H.Slot, BucketAt, Fnv1a.HashNumber, Compared, Named, LeavesAt;
    var bucket := Probed(c, name, k);
    if Points(c, name, bucket) {
      ComparedLeaves(c, bucket.directoryIndex, name);
    }
  }

  lemma LeavesLater(c: ERFContainer, name: seq<byte>, k: nat, m: nat)
    requires k < m < c.bucketCount && TableInside(c)
    ensures ProbeLeavesAt(c, name, k, m) <==> Passes(c, name, k) && ProbeLeavesAt(c, name, k + 1, m)
  {
    hide Passes, Probed, Points, LeavesAt, H.IsEmpty;
  }

  lemma LeavesForward(c: ERFContainer, name: seq<byte>, k: nat, m: nat)
    requires m < c.bucketCount && TableInside(c) && ProbeLeavesAt(c, name, k, m)
    ensures k <= m
  {
    hide Passes, Probed, Points, LeavesAt, H.IsEmpty;
  }

  /** For one name: the probe leaves the opened bytes exactly when, before it meets an unused bucket
      or an entry of that name, it meets a bucket of the same hash that points to an entry whose bytes
      up to their end begin that name. */
  lemma {:induction false} ProbeLeavesIff(c: ERFContainer, name: seq<byte>, k: nat)
    requires 0 < c.bucketCount && k <= c.bucketCount && TableInside(c)
    ensures !ProbeInside(c, name, k) <==> exists m: nat :: m < c.bucketCount && ProbeLeavesAt(c, name, k, m)
    decreases c.bucketCount - k
  {
    hide Passes, ProbeLeavesAt, TableInside;
    if k == c.bucketCount {
      forall m: nat | m < c.bucketCount
        ensures !ProbeLeavesAt(c, name, k, m)
      {
        if ProbeLeavesAt(c, name, k, m) {
          LeavesForward(c, name, k, m);
        }
      }
    } else {
      hide ProbeInside;
      ProbeLeavesIff(c, name, k + 1);
      LeavesHere(c, name, k);
      if !ProbeInside(c, name, k) && !ProbeLeavesAt(c, name, k, k) {
        var m: nat :| m < c.bucketCount && ProbeLeavesAt(c, name, k + 1, m);
        LeavesForward(c, name, k + 1, m);
        LeavesLater(c, name, k, m);
      }
      if m: nat :| m < c.bucketCount && ProbeLeavesAt(c, name, k, m) {
        LeavesForward(c, name, k, m);
        if m > k {
          LeavesLater(c, name, k, m);
        }
      }
    }
  }

  predicate AllTerminated(c: ERFContainer) {
    forall i :: 0 <= i < |c.resources| ==> Terminated(c.base, c.resources[i].name)
  }

  lemma {:induction false} TerminatedScanInside(c: ERFContainer, name: seq<byte>, i: nat)
    requires AllTerminated(c) && 0 !in name && i <= |c.resources|
    ensures ScanInside(c, name, i)
    decreases |c.resources| - i
  {
    hide Terminated, Named;
    if i == |c.resources| {
    } else {
      StaysInsideIffTerminated(c.base, c.resources[i].name);
      TerminatedScanInside(c, name, i + 1);
    }
  }

  lemma {:induction false} TerminatedProbeInside(c: ERFContainer, name: seq<byte>, k: nat)
    requires AllTerminated(c) && 0 !in name
    requires 0 < c.bucketCount && k <= c.bucketCount && TableInside(c)
    ensures ProbeInside(c, name, k)
    decreases c.bucketCount - k
  {
    hide Terminated, Hit, BucketAt, H.Home, H.Slot, Fnv1a.HashNumber;
    if k == c.bucketCount {
    } else {
      var bucket := BucketAt(c, H.Slot(H.Home(Fnv1a.HashNumber(name), c.bucketCount), k, c.bucketCount));
      if Points(c, name, bucket) {
        StaysInsideIffTerminated(c.base, c.resources[bucket.directoryIndex].name);
      }
      TerminatedProbeInside(c, name, k + 1);
    }
  }

  /** Where all names end, no lookup leaves the opened bytes, whatever the table holds. */
  lemma TerminatedLookupInside(c: ERFContainer, name: seq<byte>)
    requires TableInside(c) && AllTerminated(c) && 0 !in name
    ensures LookupInside(c, name)
  {
    hide AllTerminated, ProbeInside, ScanInside;
    if c.hasHashTable && c.bucketCount > 0 {
      TerminatedProbeInside(c, name, 0);
    } else {
      TerminatedScanInside(c, name, 0);
    }
  }

  lemma {:induction false} ScanInsideMeets(c: ERFContainer, name: seq<byte>, i: nat, j: nat)
    requires i <= j < |c.resources| && ScanInside(c, name, i)
    requires forall k :: 0 <= k < |c.resources| ==> !Named(c, k, name)
    ensures Compared(c, j, name).Some?
    decreases j - i
  {
    if i == j {
    } else {
      ScanInsideMeets(c, name, i + 1, j);
    }
  }

  /** A name that leads past the end behind entry j, and is too long to be any entry's name. */
  lemma OverlongName(c: ERFContainer, j: nat) returns (name: seq<byte>)
    requires j < |c.resources| && c.resources[j].name <= |c.base| && !Terminated(c.base, c.resources[j].name)
    ensures 0 !in name && Compared(c, j, name).None?
    ensures forall k :: 0 <= k < |c.resources| ==> !Named(c, k, name)
  {
    var off, pad := c.resources[j].name, seq(|c.base|, _ => 1 as byte);
    name := c.base[off..] + pad;
    CompareLeaves(c.base, off, name);
    assert name[..|c.base| - off] == c.base[off..];
    assert 0 !in c.base[off..];
    assert 0 !in pad;
  }

  /** Without a table every entry can be met, so the condition is exact: no lookup leaves
      the opened bytes if, and only if, every name ends inside them. */
  lemma ScanInsideIffTerminated(c: ERFContainer)
    requires IsOpen(c)
    ensures (forall name: seq<byte> :: 0 !in name ==> ScanInside(c, name, 0)) <==> AllTerminated(c)
  {
    hide ScanInside, Compared, Named, Terminated, Accepts, Opened;
    if AllTerminated(c) {
      forall name: seq<byte> | 0 !in name
        ensures ScanInside(c, name, 0)
      {
        TerminatedScanInside(c, name, 0);
      }
    } else {
      var j :| 0 <= j < |c.resources| && !Terminated(c.base, c.resources[j].name);
      OpenNameStarts(c, j);
      var name := OverlongName(c, j);
      if ScanInside(c, name, 0) {
        ScanInsideMeets(c, name, 0, j);
      }
    }
  }

  lemma OpenNameStarts(c: ERFContainer, j: nat)
    requires IsOpen(c) && j < |c.resources|
    ensures c.resources[j].name < |c.base|
  {
    hide Terminated;
    AcceptedIsSafe(c.base);
    assert c.resources[j] in c.resources;
  }

  function ScanId(c: ERFContainer, id: u32, i: nat): Option<nat>
    requires i <= |c.resources|
    decreases |c.resources| - i
  {
    if i == |c.resources| then None
    else if c.resources[i].id == id then Some(i)
    else ScanId(c, id, i + 1)
  }

  /** Whatever the table holds, a probe that answers answers with an entry of that name. */
  lemma {:induction false} ProbeAnswersByName(c: ERFContainer, name: seq<byte>, k: nat)
    requires 0 < c.bucketCount && k <= c.bucketCount && TableInside(c)
    ensures Probe(c, name, k).Some? ==>
      Probe(c, name, k).value < |c.resources| && Named(c, Probe(c, name, k).value, name)
    decreases c.bucketCount - k
  {
    hide H.Home, H.Slot, Named, BucketAt;
    if k == c.bucketCount {
    } else {
      ProbeAnswersByName(c, name, k + 1);
    }
  }

  /** Where the probe looks and what it looks for, in numbers. */
  lemma ProbedSpelled(c: ERFContainer, name: seq<byte>, k: nat)
    requires k < c.bucketCount && TableInside(c)
    ensures var s := (Fnv1a.HashNumber(name) % c.bucketCount + k) % c.bucketCount;
            && c.buckets + 16 * s + 16 <= |c.base|
            && Probed(c, name, k) == Bucket(U64At(c.base, c.buckets + 16 * s), U32At(c.base, c.buckets + 16 * s + 8))
    ensures var bucket := Probed(c, name, k);
            && (H.IsEmpty(bucket) <==> bucket.directoryIndex == 0xFFFF_FFFF)
            && (Hit(c, name, bucket) <==>
                  && bucket.hash == Fnv1a.HashNumber(name) && bucket.directoryIndex < |c.resources|
                  && CStringIs(c.base, c.resources[bucket.directoryIndex].name, name))
  {
    hide U32At, U64At, Fnv1a.HashNumber, CStringIs;
    SlotIsMod(Fnv1a.HashNumber(name) % c.bucketCount, k, c.bucketCount);
  }

  lemma SlotIsMod(home: nat, k: nat, b: nat)
    requires home < b && k < b
    ensures H.Slot(home, k, b) == (home + k) % b
  {
    if home + k < b {
      H.ModBelow(home + k, b);
    } else {
      ModOnce(home + k - b, b);
    }
  }

  lemma ModOnce(y: nat, b: nat)
    requires y < b
    ensures (y + b) % b == y
  {
    var q, r := (y + b) / b, (y + b) % b;
    assert y + b == q * b + r;
    if q < 1 {
      MulMono(q, 0, b);
    } else if q > 1 {
      MulMono(2, q, b);
    }
  }

  /** The probe answers with the first bucket it comes to that has the name's hash and an entry of
      that name, unless it meets an unused bucket before. */
  lemma {:induction false} ProbeFinds(c: ERFContainer, name: seq<byte>, k: nat, m: nat)
    requires k <= m < c.bucketCount && TableInside(c)
    requires forall j :: k <= j < m ==> Passes(c, name, j)
    ensures Probe(c, name, k) == Probe(c, name, m)
    ensures H.IsEmpty(Probed(c, name, m)) ==> Probe(c, name, k) == None
    ensures !H.IsEmpty(Probed(c, name, m)) && Hit(c, name, Probed(c, name, m)) ==>
      Probe(c, name, k) == Some(Probed(c, name, m).directoryIndex)
    decreases m - k
  {
    hide H.Home, H.Slot, BucketAt, Hit, Fnv1a.HashNumber, H.IsEmpty;
    if k == m {
    } else {
      assert Passes(c, name, k);
      ProbeFinds(c, name, k + 1, m);
    }
  }

  lemma {:induction false} ScanFinds(c: ERFContainer, name: seq<byte>, i: nat)
    requires i <= |c.resources|
    ensures var r := Scan(c, name, i);
            && (r.None? ==> forall j :: i <= j < |c.resources| ==> !Named(c, j, name))
            && (r.Some? ==> i <= r.value < |c.resources| && Named(c, r.value, name)
                            && forall j :: i <= j < r.value ==> !Named(c, j, name))
    decreases |c.resources| - i
  {
    hide Named;
    if i == |c.resources| {
    } else {
      ScanFinds(c, name, i + 1);
    }
  }

  lemma {:induction false} ScanIdFinds(c: ERFContainer, id: u32, i: nat)
    requires i <= |c.resources|
    ensures var r := ScanId(c, id, i);
            && (r.None? ==> forall j :: i <= j < |c.resources| ==> c.resources[j].id != id)
            && (r.Some? ==> i <= r.value < |c.resources| && c.resources[r.value].id == id
                            && forall j :: i <= j < r.value ==> c.resources[j].id != id)
    decreases |c.resources| - i
  {
    if i == |c.resources| {
    } else {
      ScanIdFinds(c, id, i + 1);
    }
  }

  lemma LookupInRange(c: ERFContainer, name: seq<byte>)
    requires TableInside(c)
    ensures Lookup(c, name).Some? ==> Lookup(c, name).value < |c.resources| && Named(c, Lookup(c, name).value, name)
  {
    if c.hasHashTable && c.bucketCount > 0 {
      ProbeAnswersByName(c, name, 0);
    } else {
      ScanFinds(c, name, 0);
    }
  }

  // ---------- metadata ----------

  /** One key and value as the cursor meets them: both length-prefixed, both with a byte for the NUL. */
  datatype PairView = PairView(key: nat, keyLength: nat, value: nat, valueLength: nat, next: nat)

  function ReadPair(b: seq<byte>, off: nat): Option<PairView> {
    if off + 4 > |b| then None
    else
      var klen := U32At(b, off);
      var value := off + 4 + klen + 1;
      if value + 4 > |b| then None
      else
        var vlen := U32At(b, value);
        var next := value + 4 + vlen + 1;
        if next > |b| then None else Some(PairView(off + 4, klen, value + 4, vlen, next))
  }

  function NthPair(b: seq<byte>, off: nat, k: nat): Option<PairView>
    decreases k
  {
    var p := ReadPair(b, off);
    if p.None? || k == 0 then p else NthPair(b, p.value.next, k - 1)
  }

  /** The count field of a metadata block, 0 where none can be read. */
  function CountAt(b: seq<byte>, off: nat): u32 {
    if off == 0 || off + 4 > |b| then 0 else U32At(b, off)
  }

  lemma CountAtSpelled(b: seq<byte>, off: nat)
    ensures CountAt(b, off) == if off == 0 || off + 4 > |b| then 0
                               else b[off] as nat + 0x100 * b[off + 1] as nat + 0x1_0000 * b[off + 2] as nat + 0x100_0000 * b[off + 3] as nat
  {
    hide U32At;
    LittleEndian(b, off);
  }

  function MetadataAt(b: seq<byte>, off: nat, index: int): Option<PairView> {
    if 0 <= index < CountAt(b, off) then NthPair(b, off + 4, index) else None
  }

  /** A pair in numbers: length, string, length, string, each string with one byte more. */
  lemma ReadPairSpelled(b: seq<byte>, off: nat)
    ensures ReadPair(b, off).Some? ==> var p := ReadPair(b, off).value;
      && p.key == off + 4 && p.keyLength == U32At(b, off)
      && p.value == off + U32At(b, off) + 9 && p.valueLength == U32At(b, off + U32At(b, off) + 5)
      && p.next == p.value + p.valueLength + 1 <= |b|
    ensures ReadPair(b, off).None? <==>
      || off + 4 > |b|
      || off + U32At(b, off) + 9 > |b|
      || off + U32At(b, off) + U32At(b, off + U32At(b, off) + 5) + 10 > |b|
  {
    hide U32At;
  }

  /** A pair can be read exactly when all before it can. */
  lemma {:induction false} ReadableUpTo(b: seq<byte>, off: nat, k: nat)
    ensures NthPair(b, off, k).Some? <==> forall j :: 0 <= j <= k ==> NthPair(b, off, j).Some?
    decreases k
  {
    var p := ReadPair(b, off);
    if NthPair(b, off, k).Some? && k > 0 {
      assert p.Some?;
      ReadableUpTo(b, p.value.next, k - 1);
      forall j | 0 <= j <= k
        ensures NthPair(b, off, j).Some?
      {
        if j == 0 {
          assert NthPair(b, off, 0) == p;
        } else {
          assert NthPair(b, p.value.next, j - 1).Some?;
        }
      }
    }
  }

  /** `for (int i = 0; i <= index; i++)` adds one to INT_MAX: the last pair is wanted and can be read. */
  predicate CounterOverflows(b: seq<byte>, off: nat, index: int) {
    index == INT_MAX && MetadataAt(b, off, index).Some?
  }

  predicate PairReadable(b: seq<byte>, off: nat, k: nat) {
    NthPair(b, off + 4, k).Some?
  }

  /** Past the count check, the counter stays an int exactly when the index is not the largest int
      or some pair up to it cannot be read. */
  lemma CounterStaysIff(b: seq<byte>, off: nat, index: int32)
    requires 0 <= index < CountAt(b, off)
    ensures !CounterOverflows(b, off, index) <==>
      index < 0x7FFF_FFFF || exists k :: 0 <= k <= index && !PairReadable(b, off, k)
  {
    hide NthPair, CountAt;
    var start: nat := off + 4;
    ReadableUpTo(b, start, index);
    assert PairReadable(b, off, index) == NthPair(b, start, index).Some?;
    if PairReadable(b, off, index) {
      forall k | 0 <= k <= index
        ensures PairReadable(b, off, k)
      {
        assert NthPair(b, start, k).Some?;
      }
    }
  }

  /** Over arbitrary bytes the cursor only moves forward, at least ten bytes per pair,
      and stays inside; what is returned is in range with its length prefix before it. */
  lemma {:induction false} CursorAdvances(b: seq<byte>, off: nat, k: nat)
    ensures NthPair(b, off, k).Some? ==>
      var p := NthPair(b, off, k).value;
      && off + 10 * k + 4 <= p.key && p.key + p.keyLength + 5 == p.value
      && p.value + p.valueLength + 1 == p.next <= |b|
      && U32At(b, p.key - 4) == p.keyLength && U32At(b, p.value - 4) == p.valueLength
    decreases k
  {
    hide U32At;
    var p := ReadPair(b, off);
    if p.Some? && k > 0 {
      CursorAdvances(b, p.value.next, k - 1);
    }
  }

  // ---------- checksum ----------

  function ZeroField(b: seq<byte>): (r: seq<byte>)
    requires |b| >= HEADER_SIZE
    ensures |r| == |b|
  {
    b[..CHECKSUM_AT] + Zeros(8) + b[CHECKSUM_AT + 8..]
  }

  predicate ChecksumHolds(b: seq<byte>)
    requires |b| >= HEADER_SIZE
  {
    Crc64.ChecksumNumber(ZeroField(b)) == DecodeHeader(b).checksum
  }
}
