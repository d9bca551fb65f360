/** The reader's functions as the program runs them (src/libelfr/erf_reader.c), against Reader. */
module ErfReader {
  import opened Bytes
  import opened ErfFormat
  import opened Reader
  import H = HashIndex
  import Crc64
  import Fnv1a

  datatype KeyValue = KeyValue(key: nat, value: nat)

  /** `for (p = name; *p; p++)` folds in every byte before the NUL. */
  method HashCString(name: seq<byte>) returns (h: u64)
    requires 0 !in name
    ensures h == Fnv1a.HashNumber(name)
  {
    hide Fnv1a.Mix, Fnv1a.AsNumber;
    var cstring := name + [0];
    var hash := Fnv1a.BASIS;
    var p := 0;
    assert forall q :: 0 <= q < |name| ==> cstring[q] == name[q] && name[q] in name;
    while cstring[p] != 0
      invariant 0 <= p <= |name|
      invariant Fnv1a.Fold(hash, name[p..]) == Fnv1a.Hash(name)
      decreases |name| - p
    {
      hash := Fnv1a.Mix(hash, name[p]);
      p := p + 1;
    }
    h := Fnv1a.AsNumber(hash);
  }

  /** The thread-local `g_last_error` and the functions that set it. */
  class Library {
    var lastError: ERFError

    constructor ()
      ensures lastError == Ok
    {
      lastError := Ok;
    }

    /** The first half of `erf_open_memory`: everything up to the bucket array. */
    method CheckHeader(b: seq<byte>) returns (ok: bool)
      requires HEADER_SIZE <= |b| < TWO64
      modifies this
      ensures ok <==> HeaderAccepted(b)
      ensures !ok ==> lastError == OpenError(Some(b))
      ensures ok ==> lastError == old(lastError)
    {
      hide DecodeHeader, U16At, U32At, U64At, Num;
      var size: u64 := |b|;
      var header := DecodeHeader(b);
      if b[..4] != MAGIC {
        lastError := BadMagic;
        return false;
      }
      if header.versionMajor != VERSION_MAJOR {
        lastError := UnsupportedVersion;
        return false;
      }
      if header.headerSize < HEADER_SIZE {
        lastError := BadOffset;
        return false;
      }
      if header.totalSize < header.headerSize || header.totalSize > size {
        lastError := BadOffset;
        return false;
      }
      if header.directoryEntrySize < ENTRY_SIZE {
        lastError := BadOffset;
        return false;
      }
      Product32(header.resourceCount, header.directoryEntrySize);
      var span := Mul64(header.resourceCount, header.directoryEntrySize);
      var overflow := header.resourceCount * header.directoryEntrySize >= TWO64;
      if overflow || !InBounds(header.totalSize, header.directoryOffset, span) {
        lastError := BadOffset;
        return false;
      }
      if header.resourceCount > 0 && !InBounds(header.totalSize, header.stringOffset, 0) {
        lastError := BadOffset;
        return false;
      }
      return true;
    }

    /** The hash table checks of `erf_open_memory`. */
    method CheckTable(b: seq<byte>) returns (ok: bool, hasHash: bool, bucketCount: u32, buckets: nat)
      requires HeaderAccepted(b) && |b| < TWO64
      modifies this
      ensures ok <==> TableAccepted(b)
      ensures !ok ==> lastError == BadOffset
      ensures ok ==> lastError == old(lastError)
      ensures ok ==>
        && hasHash == HasHashTable(DecodeHeader(b))
        && bucketCount == (if hasHash then U32At(b, DecodeHeader(b).hashTableOffset) else 0)
        && buckets == (if hasHash then DecodeHeader(b).hashTableOffset + TABLE_HEADER_SIZE else 0)
    {
      hide DecodeHeader, U32At;
      var header := DecodeHeader(b);
      hasHash, bucketCount, buckets := HasHashTable(header), 0, 0;
      if hasHash {
        if !InBounds(header.totalSize, header.hashTableOffset, TABLE_HEADER_SIZE) {
          lastError := BadOffset;
          return false, false, 0, 0;
        }
        var count := U32At(b, header.hashTableOffset);
        var span := Mul64(count, BUCKET_SIZE);
        var overflow := count * BUCKET_SIZE >= TWO64;
        if overflow || !InBounds(header.totalSize, Add64(header.hashTableOffset, TABLE_HEADER_SIZE), span) {
          lastError := BadOffset;
          return false, false, 0, 0;
        }
        bucketCount := count;
        buckets := Add64(header.hashTableOffset, TABLE_HEADER_SIZE);
      }
      return true, hasHash, bucketCount, buckets;
    }

    /** The loop of `erf_open_memory` that fills the resource array. */
    method ReadDirectory(b: seq<byte>) returns (ok: bool, resources: seq<ERFResource>)
      requires HeaderAccepted(b) && |b| < TWO64
      modifies this
      ensures ok <==> forall i :: 0 <= i < DecodeHeader(b).resourceCount ==> EntryAccepted(b, i)
      ensures !ok ==> lastError == BadOffset
      ensures ok ==> lastError == old(lastError)
      ensures ok ==> resources == ResourcesUpTo(b, DecodeHeader(b).resourceCount)
    {
      hide DecodeHeader, DecodeEntry, HeaderAccepted, Add64, Mul64;
      HeaderFitsBytes(b);
      var header := DecodeHeader(b);
      var filled := new ERFResource[header.resourceCount];
      for i := 0 to header.resourceCount
        invariant forall k :: 0 <= k < i ==> EntryAccepted(b, k)
        invariant forall k :: 0 <= k < i ==> filled[k] == ResourceOf(EntryAt(b, k))
        invariant lastError == old(lastError)
      {
        EntryAddress(b, i);
        var at := Add64(header.directoryOffset, Mul64(i, header.directoryEntrySize));
        var entry := DecodeEntry(b, at);
        assert entry == EntryAt(b, i);
        if !InBounds(header.totalSize, entry.nameOffset, 1)
           || !InBounds(header.totalSize, entry.dataOffset, entry.dataSize) {
          lastError := BadOffset;
          assert !EntryAccepted(b, i);
          return false, [];
        }
        filled[i] := ResourceOf(entry);
      }
      return true, filled[..];
    }

    /** `erf_open_memory`: on any bytes, a handle exactly when they are accepted, else the error. */
    method OpenMemory(base: Option<seq<byte>>) returns (c: Option<ERFContainer>)
      requires base.Some? ==> |base.value| < TWO64
      modifies this
      ensures c.Some? <==> base.Some? && Accepts(base.value)
      ensures c.Some? ==> c.value == Opened(base.value) && lastError == Ok
      ensures c.None? ==> lastError == OpenError(base)
    {
      hide DecodeHeader, EntryAccepted, HasHashTable, U32At, ResourcesUpTo;
      if base.None? || |base.value| < HEADER_SIZE {
        lastError := if base.None? || |base.value| == 0 then InvalidArgument else Truncated;
        return None;
      }
      var b := base.value;
      var ok := CheckHeader(b);
      if !ok {
        return None;
      }
      var hasHash, bucketCount, buckets;
      ok, hasHash, bucketCount, buckets := CheckTable(b);
      if !ok {
        return None;
      }
      var resources;
      ok, resources := ReadDirectory(b);
      if !ok {
        return None;
      }
      lastError := Ok;
      return Some(ERFContainer(b, DecodeHeader(b), resources, hasHash, bucketCount, buckets));
    }

    /** `erf_resource_at` */
    method ResourceAt(c: Option<ERFContainer>, index: u32) returns (r: Option<ERFResource>)
      modifies this
      ensures c.Some? && index < |c.value.resources| ==> r == Some(c.value.resources[index]) && lastError == old(lastError)
      ensures !(c.Some? && index < |c.value.resources|) ==> r == None && lastError == InvalidArgument
    {
      if c.None? || index >= |c.value.resources| {
        lastError := InvalidArgument;
        return None;
      }
      return Some(c.value.resources[index]);
    }

    /** `erf_find_in`; the result is the index of the entry it points to. `probes` lists the slots
        read. Names are compared up to a NUL nobody checked for: when that reading leaves the opened
        bytes, `inside` is false, the run ends there and nothing else is promised. */
    method FindIn(c: Option<ERFContainer>, name: Option<seq<byte>>) returns (r: Option<nat>, inside: bool, ghost probes: seq<nat>)
      requires c.Some? ==> IsOpen(c.value) && |c.value.base| < TWO64
      requires name.Some? ==> 0 !in name.value
      modifies this
      ensures c.None? || name.None? ==> inside && r == None && lastError == InvalidArgument
      ensures c.Some? && name.Some? ==>
        && TableInside(c.value)
        && inside == LookupInside(c.value, name.value)
        && |probes| <= c.value.bucketCount
        && (forall i, j :: 0 <= i < j < |probes| ==> probes[i] != probes[j])
      ensures c.Some? && name.Some? && probes != [] ==>
        && c.value.hasHashTable && c.value.bucketCount > 0
        && InProbeOrder(probes, Fnv1a.HashNumber(name.value), c.value.bucketCount)
      ensures c.Some? && name.Some? && c.value.hasHashTable && c.value.bucketCount > 0 ==> probes != []
      ensures c.Some? && name.Some? && inside ==>
        r == Lookup(c.value, name.value) && lastError == (if r.Some? then Ok else NotFound)
    {
      hide Lookup, LookupInside;
      probes := [];
      if c.None? || name.None? {
        lastError := InvalidArgument;
        return None, true, [];
      }
      TableOfOpenIsInside(c.value);
      LookupBranches(c.value, name.value);
      if c.value.hasHashTable && c.value.bucketCount > 0 {
        var h := HashCString(name.value);
        r, inside, probes := ProbeTable(c.value, name.value, h);
      } else {
        r, inside := ScanNames(c.value, name.value);
      }
      if inside {
        lastError := if r.Some? then Ok else NotFound;
      }
    }

    /** `erf_find_id_in` */
    method FindIdIn(c: Option<ERFContainer>, id: u32) returns (r: Option<nat>)
      modifies this
      ensures c.None? ==> r == None && lastError == InvalidArgument
      ensures c.Some? ==> r == ScanId(c.value, id, 0) && lastError == (if r.Some? then Ok else NotFound)
    {
      if c.None? {
        lastError := InvalidArgument;
        return None;
      }
      for i := 0 to |c.value.resources|
        invariant ScanId(c.value, id, 0) == ScanId(c.value, id, i)
      {
        if c.value.resources[i].id == id {
          lastError := Ok;
          return Some(i);
        }
      }
      lastError := NotFound;
      return None;
    }

    /** `erf_resource_data_in`: the payload's offset and size, as long as the comparisons stay inside. */
    method ResourceDataIn(c: Option<ERFContainer>, name: Option<seq<byte>>) returns (data: Option<nat>, size: u64, inside: bool)
      requires c.Some? ==> IsOpen(c.value) && |c.value.base| < TWO64
      requires name.Some? ==> 0 !in name.value
      modifies this
      ensures c.None? || name.None? ==> inside && data == None && size == 0
      ensures c.Some? && name.Some? ==> TableInside(c.value) && inside == LookupInside(c.value, name.value)
      ensures c.Some? && name.Some? && inside ==>
        var found := Lookup(c.value, name.value);
        && (found.None? ==> data == None && size == 0)
        && (found.Some? ==>
              && found.value < |c.value.resources|
              && data == Some(c.value.resources[found.value].data)
              && size == c.value.resources[found.value].size)
    {
      hide IsOpen, Lookup, LookupInside;
      var r, stayed, _ := FindIn(c, name);
      if !stayed || r.None? {
        return None, 0, stayed;
      }
      LookupInRange(c.value, name.value);
      return Some(c.value.resources[r.value].data), c.value.resources[r.value].size, true;
    }
  }

  lemma HeaderFitsBytes(b: seq<byte>)
    requires HeaderAccepted(b)
    ensures |b| >= HEADER_SIZE
  {
    hide DecodeHeader;
  }

  /** The address computed for entry i, over size_t, is the unbounded one and lies inside. */
  lemma EntryAddress(b: seq<byte>, i: nat)
    requires HeaderAccepted(b) && |b| < TWO64 && i < DecodeHeader(b).resourceCount
    ensures var h := DecodeHeader(b);
            && 0 <= i * h.directoryEntrySize
            && Add64(h.directoryOffset, Mul64(i, h.directoryEntrySize)) == h.directoryOffset + i * h.directoryEntrySize
            && h.directoryOffset + i * h.directoryEntrySize + ENTRY_SIZE <= |b|
  {
    hide DecodeHeader, Add64, Mul64;
    var h := DecodeHeader(b);
    EntryInside(h, i);
    AddressIsExact(h.directoryOffset, i, h.directoryEntrySize);
  }

  lemma AddressIsExact(start: nat, i: nat, stride: nat)
    requires 0 <= i * stride && start + i * stride < TWO64
    ensures Add64(start, Mul64(i, stride)) == start + i * stride
  {
  }

  lemma Product32(a: u32, b: u32)
    ensures 0 <= a * b < TWO64
  {
    MulMono(a, 0xFFFF_FFFF, b);
  }

  lemma TableOfOpenIsInside(c: ERFContainer)
    requires IsOpen(c)
    ensures TableInside(c)
  {
    hide DecodeHeader, U32At, ResourcesUpTo, EntryAccepted, HasHashTable;
  }

  lemma LookupBranches(c: ERFContainer, name: seq<byte>)
    requires TableInside(c)
    ensures c.hasHashTable && c.bucketCount > 0 ==>
      Lookup(c, name) == Probe(c, name, 0) && LookupInside(c, name) == ProbeInside(c, name, 0)
    ensures !(c.hasHashTable && c.bucketCount > 0) ==>
      Lookup(c, name) == Scan(c, name, 0) && LookupInside(c, name) == ScanInside(c, name, 0)
  {
    hide Probe, ProbeInside, Scan, ScanInside;
  }

  /** Probing starts at `hash % bucket_count` and goes on by one slot, around the end. */
  ghost predicate InProbeOrder(probes: seq<nat>, hash: u64, b: nat)
    requires b > 0
  {
    && (probes != [] ==> probes[0] == hash % b)
    && forall i :: 0 <= i < |probes| - 1 ==> probes[i + 1] == (probes[i] + 1) % b
  }

  lemma SlotsInProbeOrder(probes: seq<nat>, hash: u64, b: nat)
    requires 0 < b < TWO32 && |probes| <= b
    requires forall i :: 0 <= i < |probes| ==> probes[i] == H.Slot(H.Home(hash, b), i, b)
    ensures InProbeOrder(probes, hash, b)
    ensures forall i, j :: 0 <= i < j < |probes| ==> probes[i] != probes[j]
  {
    var home := H.Home(hash, b);
    forall i | 0 <= i < |probes| - 1
      ensures probes[i + 1] == (probes[i] + 1) % b
    {
      SlotAfter(home, i, b);
    }
    hide H.Home;
    assert hash % b == home by { HomeIs(hash, b); }
  }

  lemma HomeIs(hash: u64, b: nat)
    requires b > 0
    ensures H.Home(hash, b) == hash % b
  {
  }

  lemma SlotAfter(home: nat, i: nat, b: nat)
    requires home < b < TWO32 && i < b
    ensures H.Slot(home, i + 1, b) == (H.Slot(home, i, b) + 1) % b
  {
    var s := H.Slot(home, i, b) + 1;
    if s < b {
      H.ModBelow(s, b);
    } else {
      H.ModSelf(b);
    }
  }

  lemma FirstSlot(home: nat, b: nat)
    requires home < b
    ensures H.Slot(home, 0, b) == home
  {
  }

  lemma ProbeStep(c: ERFContainer, name: seq<byte>, k: nat)
    requires k < c.bucketCount && TableInside(c)
    ensures Probe(c, name, c.bucketCount) == None
    ensures var bucket := BucketAt(c, H.Slot(H.Home(Fnv1a.HashNumber(name), c.bucketCount), k, c.bucketCount));
            && (H.IsEmpty(bucket) ==> Probe(c, name, k) == None)
            && (!H.IsEmpty(bucket) && Hit(c, name, bucket) ==> Probe(c, name, k) == Some(bucket.directoryIndex))
            && (!H.IsEmpty(bucket) && !Hit(c, name, bucket) ==> Probe(c, name, k) == Probe(c, name, k + 1))
    ensures ProbeInside(c, name, c.bucketCount)
    ensures var bucket := BucketAt(c, H.Slot(H.Home(Fnv1a.HashNumber(name), c.bucketCount), k, c.bucketCount));
            && (H.IsEmpty(bucket) ==> ProbeInside(c, name, k))
            && (!H.IsEmpty(bucket) && Points(c, name, bucket) ==>
                  && (Compared(c, bucket.directoryIndex, name).None? ==> !ProbeInside(c, name, k))
                  && (Compared(c, bucket.directoryIndex, name).Some? && Hit(c, name, bucket) ==> ProbeInside(c, name, k)))
            && (!H.IsEmpty(bucket) && !Hit(c, name, bucket)
                && (Points(c, name, bucket) ==> Compared(c, bucket.directoryIndex, name).Some?) ==>
                  ProbeInside(c, name, k) == ProbeInside(c, name, k + 1))
  {
    hide Hit, Compared, BucketAt, H.Home, H.Slot, Fnv1a.HashNumber;
  }

  /** The probing loop: in 32-bit arithmetic, over at most bucket_count different slots. */
  method ProbeTable(c: ERFContainer, name: seq<byte>, h: u64) returns (r: Option<nat>, inside: bool, ghost probes: seq<nat>)
    requires c.bucketCount > 0 && TableInside(c)
    requires h == Fnv1a.HashNumber(name)
    ensures inside == ProbeInside(c, name, 0)
    ensures inside ==> r == Probe(c, name, 0)
    ensures 0 < |probes| <= c.bucketCount && InProbeOrder(probes, Fnv1a.HashNumber(name), c.bucketCount)
    ensures forall i, j :: 0 <= i < j < |probes| ==> probes[i] != probes[j]
  {
    hide Fnv1a.HashNumber, BucketAt, Named, H.Home, H.Slot, H.Advance, Probe, ProbeInside, Compare, InProbeOrder;
    ghost var home := H.Home(h, c.bucketCount);
    var slot: u32 := H.Home(h, c.bucketCount);
    var probed: u32 := 0;
    probes := [];
    FirstSlot(home, c.bucketCount);
    ProbeStep(c, name, 0);
    while probed < c.bucketCount
      invariant probed <= c.bucketCount
      invariant slot == H.Slot(home, probed, c.bucketCount)
      invariant Probe(c, name, 0) == Probe(c, name, probed)
      invariant ProbeInside(c, name, 0) == ProbeInside(c, name, probed)
      invariant |probes| == probed
      invariant forall i :: 0 <= i < |probes| ==> probes[i] == H.Slot(home, i, c.bucketCount)
      invariant probed > 0 ==> InProbeOrder(probes, h, c.bucketCount)
      invariant forall i, j :: 0 <= i < j < |probes| ==> probes[i] != probes[j]
      decreases c.bucketCount - probed
    {
      ProbeStep(c, name, probed);
      probes := probes + [slot];
      SlotsInProbeOrder(probes, h, c.bucketCount);
      var bucket := BucketAt(c, slot);
      if bucket.directoryIndex == HASH_EMPTY {
        return None, true, probes;
      }
      if bucket.hash == h && bucket.directoryIndex < |c.resources| {
        var equal := Compared(c, bucket.directoryIndex, name);
        ComparedDecides(c, bucket.directoryIndex, name);
        if equal.None? {
          return None, false, probes;
        }
        if equal.value {
          return Some(bucket.directoryIndex), true, probes;
        }
      }
      H.NextSlot(home, probed, c.bucketCount);
      slot := H.Advance(slot, c.bucketCount);
      probed := (probed + 1) % TWO32;
    }
    return None, true, probes;
  }

  lemma ComparedDecides(c: ERFContainer, i: nat, name: seq<byte>)
    requires i < |c.resources|
    ensures Compared(c, i, name) == Some(true) <==> Named(c, i, name)
  {
    CompareDecides(c.base, c.resources[i].name, name);
  }

  method ScanNames(c: ERFContainer, name: seq<byte>) returns (r: Option<nat>, inside: bool)
    ensures inside == ScanInside(c, name, 0)
    ensures inside ==> r == Scan(c, name, 0)
  {
    hide Named, Compared;
    for i := 0 to |c.resources|
      invariant Scan(c, name, 0) == Scan(c, name, i)
      invariant ScanInside(c, name, 0) == ScanInside(c, name, i)
    {
      var equal := Compared(c, i, name);
      ComparedDecides(c, i, name);
      if equal.None? {
        return None, false;
      }
      if equal.value {
        return Some(i), true;
      }
    }
    return None, true;
  }

  /** A uint32_t read as an int. */
  function AsInt(n: u32): int { if n < 0x8000_0000 then n else n - TWO32 }

  /** `erf_metadata_count` */
  method MetadataCount(c: Option<ERFContainer>, res: Option<ERFResource>) returns (count: int)
    requires c.Some? ==> |c.value.base| < TWO64
    ensures c.None? || res.None? ==> count == 0
    ensures c.Some? && res.Some? ==> count == AsInt(CountAt(c.value.base, res.value.metadataOffset))
  {
    hide U32At;
    if c.None? || res.None? || res.value.metadataOffset == 0 {
      return 0;
    }
    if !InBounds(|c.value.base|, res.value.metadataOffset, 4) {
      return 0;
    }
    return AsInt(U32At(c.value.base, res.value.metadataOffset));
  }

  lemma Add64IsExact(a: nat, b: nat)
    ensures a + b < TWO64 ==> Add64(a, b) == a + b
  {
  }

  /** One round of the cursor of `erf_metadata_get`, in 64-bit arithmetic: each sum is
      taken only after the range check that keeps it from wrapping. */
  method NextPair(b: seq<byte>, start: u64) returns (p: Option<PairView>)
    requires start <= |b| < TWO64
    ensures p == ReadPair(b, start)
  {
    hide U32At, Add64;
    var off := start;
    if !InBounds(|b|, off, 4) {
      return None;
    }
    var klen := U32At(b, off);
    Add64IsExact(off, 4);
    off := Add64(off, 4);
    Add64IsExact(klen, 1);
    if !InBounds(|b|, off, Add64(klen, 1)) {
      return None;
    }
    var k := off;
    Add64IsExact(off, klen as int + 1);
    off := Add64(off, Add64(klen, 1));
    if !InBounds(|b|, off, 4) {
      return None;
    }
    var vlen := U32At(b, off);
    Add64IsExact(off, 4);
    off := Add64(off, 4);
    Add64IsExact(vlen, 1);
    if !InBounds(|b|, off, Add64(vlen, 1)) {
      return None;
    }
    var v := off;
    Add64IsExact(off, vlen as int + 1);
    off := Add64(off, Add64(vlen, 1));
    return Some(PairView(k, klen, v, vlen, off));
  }

  lemma NthPairStep(b: seq<byte>, off: nat, k: nat)
    ensures var p := ReadPair(b, off);
            && NthPair(b, off, k) == (if p.None? || k == 0 then p else NthPair(b, p.value.next, k - 1))
            && (p.Some? ==> p.value.next <= |b|)
  {
    hide U32At;
  }

  /** `erf_metadata_get`: None stands for -1. `off` is kept in 64-bit arithmetic, `i` in an int.
      When i++ would leave the int's range, `defined` is false and nothing is promised. */
  method MetadataGet(c: Option<ERFContainer>, res: Option<ERFResource>, index: int32) returns (r: Option<KeyValue>, defined: bool)
    requires c.Some? ==> |c.value.base| < TWO64
    ensures c.None? || res.None? ==> defined && r == None
    ensures c.Some? && res.Some? ==> (defined <==> !CounterOverflows(c.value.base, res.value.metadataOffset, index))
    ensures c.Some? && res.Some? && defined ==>
      var p := MetadataAt(c.value.base, res.value.metadataOffset, index);
      r == if p.None? then None else Some(KeyValue(p.value.key, p.value.value))
  {
    hide U32At, ReadPair, NthPair, Add64;
    if c.None? || res.None? || res.value.metadataOffset == 0 || index < 0 {
      return None, true;
    }
    var b := c.value.base;
    var off: u64 := res.value.metadataOffset;
    if !InBounds(|b|, off, 4) {
      return None, true;
    }
    var count := U32At(b, off);
    if index >= count {
      return None, true;
    }
    Add64IsExact(off, 4);
    off := Add64(off, 4);
    r := None;
    ghost var start := off;
    var i: int32 := 0;
    while i <= index
      invariant off <= |b| && 0 <= i <= index as int + 1
      invariant i <= index ==> NthPair(b, start, index) == NthPair(b, off, index - i)
      invariant i > index ==>
        var p := NthPair(b, start, index);
        p.Some? && r == Some(KeyValue(p.value.key, p.value.value))
      decreases index as int + 1 - i
    {
      var p := NextPair(b, off);
      NthPairStep(b, off, index - i);
      if p.None? {
        return None, true;
      }
      off := p.value.next;
      if i == index {
        r := Some(KeyValue(p.value.key, p.value.value));
      }
      if i == INT_MAX {
        return r, false;
      }
      i := i + 1;
    }
    defined := true;
  }

  /** `erf_verify_checksum`: the CRC of a copy with the checksum field cleared. */
  method VerifyChecksum(c: Option<ERFContainer>, table: array<bv64>) returns (ok: bool)
    requires c.Some? ==> IsOpen(c.value)
    requires Crc64.TableReady(table)
    ensures c.None? ==> !ok
    ensures c.Some? ==> |c.value.base| >= HEADER_SIZE && (ok <==> ChecksumHolds(c.value.base))
  {
    hide Crc64.Checksum, DecodeHeader, Crc64.TableReady, TableAccepted, EntryAccepted, ResourcesUpTo, U32At;
    if c.None? {
      return false;
    }
    var b := c.value.base;
    assert HeaderAccepted(b) && c.value.header == DecodeHeader(b);
    var tmp := b;
    for i := CHECKSUM_AT to CHECKSUM_AT + 8
      invariant |tmp| == |b|
      invariant forall k :: 0 <= k < |b| ==> tmp[k] == if CHECKSUM_AT <= k < i then 0 else b[k]
    {
      tmp := tmp[i := 0];
    }
    assert tmp == ZeroField(b);
    var computed := Crc64.ComputeCrc64(table, tmp);
    return Crc64.AsNumber(computed) == c.value.header.checksum;
  }
}
