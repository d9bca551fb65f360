/** Accepted bytes that elfrc would not write, on which the readers leave defined ground. */
module Foreign {
  import opened Bytes
  import opened ErfFormat
  import opened Reader
  import E = ElfFormat
  import ElfDump
  import Fnv1a

  // ---------- containers of one entry ----------

  const SIZE: nat := HEADER_SIZE + ENTRY_SIZE

  /** A header, one entry whose last reserved byte is `last`, and what follows. */
  function Assemble(h: Header, e: Entry, last: byte, trailing: seq<byte>): (r: seq<byte>)
    ensures |r| == SIZE + |trailing|
    ensures r[SIZE - 1] == last && r[SIZE..] == trailing
  {
    var front, entry := EncodeHeader(h, 0, 0, Zeros(64)), EncodeEntry(e, 0, Zeros(47) + [last]);
    LastOf(e, last);
    front + entry + trailing
  }

  lemma LastOf(e: Entry, last: byte)
    ensures var entry := EncodeEntry(e, 0, Zeros(47) + [last]); |entry| == ENTRY_SIZE && entry[ENTRY_SIZE - 1] == last
  {
    hide Nums;
  }

  lemma AssembledReadsBack(h: Header, e: Entry, last: byte, trailing: seq<byte>)
    ensures var b := Assemble(h, e, last, trailing);
            b[..4] == MAGIC && DecodeHeader(b) == h && DecodeEntry(b, HEADER_SIZE) == e
  {
    hide EncodeHeader, EncodeEntry, DecodeHeader, DecodeEntry, Zeros, Placed;
    var b := Assemble(h, e, last, trailing);
    var front, entry := EncodeHeader(h, 0, 0, Zeros(64)), EncodeEntry(e, 0, Zeros(47) + [last]);
    ConcatAssoc(front, entry, trailing);
    PlacedFront(front, entry + trailing);
    PlacedAfter(front, entry, trailing);
    HeaderRoundTrip(b, h, 0, 0, Zeros(64));
    EntryRoundTrip(b, HEADER_SIZE, e, 0, Zeros(47) + [last]);
  }

  /** The offsets that opening leaves unread. */
  datatype Unread = Unread(metadata: u64, signature: u64, data: u64, entryMetadata: u64)

  function OneHeader(u: Unread): Header {
    Header(VERSION_MAJOR, VERSION_MINOR, HEADER_SIZE, 0, 1, ENTRY_SIZE, HEADER_SIZE, HEADER_SIZE,
           u.metadata, 0, u.signature, u.data, SIZE, 0)
  }

  /** A name that starts at the last byte of the directory, and metadata anywhere. */
  function OneEntry(u: Unread): Entry {
    Entry(0, 0, 0, 0, SIZE - 1, 0, 0, 0, u.entryMetadata, 0, 0, 0)
  }

  function OneContainer(u: Unread, last: byte, trailing: seq<byte>): (r: seq<byte>)
    ensures |r| == SIZE + |trailing|
    ensures r[SIZE - 1] == last && r[SIZE..] == trailing
  {
    Assemble(OneHeader(u), OneEntry(u), last, trailing)
  }

  lemma OneIsAccepted(u: Unread, last: byte, trailing: seq<byte>)
    ensures var b := OneContainer(u, last, trailing);
            && HeaderAccepted(b) && Accepts(b) && DecodeHeader(b) == OneHeader(u)
            && !Opened(b).hasHashTable
            && Opened(b).resources == [ResourceOf(OneEntry(u))]
  {
    hide DecodeHeader, DecodeEntry, Assemble;
    var b := OneContainer(u, last, trailing);
    AssembledReadsBack(OneHeader(u), OneEntry(u), last, trailing);
    assert HeaderAccepted(b);
    assert EntryAt(b, 0) == OneEntry(u);
  }

  /** Whatever the unread offsets hold, some container of 288 bytes with them is accepted; with a value
      above 288 among them it does not have all its offsets in range. */
  lemma AnyUnreadOffsetIsAccepted(u: Unread)
    ensures exists b: seq<byte> ::
      && |b| == SIZE && Accepts(b) && DecodeHeader(b) == OneHeader(u)
      && Opened(b).resources == [ResourceOf(OneEntry(u))]
      && (AllOffsetsInRange(b) <==>
            u.metadata <= SIZE && u.signature <= SIZE && u.data <= SIZE && u.entryMetadata <= SIZE)
  {
    hide OneContainer, Accepts, Opened, DecodeHeader, AllOffsetsInRange;
    var b := OneContainer(u, 0, []);
    OneIsAccepted(u, 0, []);
    OffsetsInRangeIff(b);
    OneUnread(b, u);
    assert |b| == SIZE && (AllOffsetsInRange(b) <==> UnreadInRange(b));
  }

  lemma OneUnread(b: seq<byte>, u: Unread)
    requires Accepts(b) && DecodeHeader(b) == OneHeader(u) && Opened(b).resources == [ResourceOf(OneEntry(u))]
    ensures UnreadInRange(b) <==>
      u.metadata <= SIZE && u.signature <= SIZE && u.data <= SIZE && u.entryMetadata <= SIZE
  {
    hide DecodeHeader, DecodeEntry;
    assert Opened(b).resources[0] == ResourceOf(EntryAt(b, 0));
    assert EntryAt(b, 0).metadataOffset == u.entryMetadata;
  }

  const NOWHERE := Unread(0, 0, 0, 0)

  /** An accepted container of 288 bytes whose one name has no end: a lookup reads past it. */
  lemma UnendedNameIsAccepted()
    ensures exists b: seq<byte>, name: seq<byte> ::
      && |b| == SIZE && Accepts(b) && 0 !in name
      && TableInside(Opened(b)) && !AllTerminated(Opened(b)) && !LookupInside(Opened(b), name)
  {
    hide OneContainer, Accepts, Opened, Terminated, Compare, Named;
    var b, name := OneContainer(NOWHERE, 65, []), [65 as byte];
    OneIsAccepted(NOWHERE, 65, []);
    OpenedIs(b);
    assert Opened(b).resources[0].name == SIZE - 1;
    assert !Terminated(b, SIZE - 1) by { LastIsNotNul(b); }
    CompareLeaves(b, SIZE - 1, name);
    assert b[SIZE - 1..] == [65];
    assert Compared(Opened(b), 0, name).None?;
    assert !ScanInside(Opened(b), name, 0);
    assert !AllTerminated(Opened(b));
    assert 0 !in name;
    assert TableInside(Opened(b));
    assert |b| == SIZE && !LookupInside(Opened(b), name);
  }

  lemma LastIsNotNul(b: seq<byte>)
    requires |b| == SIZE && b[SIZE - 1] != 0
    ensures !Terminated(b, SIZE - 1)
  {
  }

  lemma OpenedIs(b: seq<byte>)
    requires Accepts(b) && !Opened(b).hasHashTable
    ensures Opened(b).base == b && Opened(b).bucketCount == 0 && TableInside(Opened(b))
  {
    hide DecodeHeader, ResourcesUpTo, U32At;
    AcceptedIsSafe(b);
  }

  // ---------- one entry and a table of one bucket ----------

  /** The name is the last byte of the file, behind the table. */
  function TabledHeader(): Header {
    Header(VERSION_MAJOR, VERSION_MINOR, HEADER_SIZE, HFLAG_HASH_TABLE, 1, ENTRY_SIZE, HEADER_SIZE, SIZE + 24,
           0, SIZE, 0, 0, SIZE + 25, 0)
  }

  function TabledEntry(): Entry {
    Entry(0, 0, 0, 0, SIZE + 24, 0, 0, 0, 0, 0, 0, 0)
  }

  function Table(name: seq<byte>): (r: seq<byte>)
    ensures |r| == TABLE_HEADER_SIZE + BUCKET_SIZE
  {
    Nums([1, 0], 4) + EncodeBucket(Bucket(Fnv1a.HashNumber(name), 0))
  }

  lemma TableReadsBack(b: seq<byte>, name: seq<byte>)
    requires Placed(b, SIZE, Table(name))
    ensures SIZE + 24 <= |b|
    ensures U32At(b, SIZE) == 1 && DecodeBucket(b, SIZE + TABLE_HEADER_SIZE) == Bucket(Fnv1a.HashNumber(name), 0)
  {
    hide Placed, Nums, Num, EncodeBucket, DecodeBucket, Fnv1a.HashNumber;
    var k := Bucket(Fnv1a.HashNumber(name), 0);
    Widths();
    PlacedSplit(b, SIZE, Nums([1, 0], 4), EncodeBucket(k));
    ReadNums(b, SIZE, [1, 0], 4, 0);
    BucketRoundTrip(b, SIZE + TABLE_HEADER_SIZE, k);
  }

  lemma TabledIsAccepted(b: seq<byte>, name: seq<byte>)
    requires |b| == SIZE + 25 && b[..4] == MAGIC && DecodeHeader(b) == TabledHeader()
    requires DecodeEntry(b, HEADER_SIZE) == TabledEntry()
    requires U32At(b, SIZE) == 1 && DecodeBucket(b, SIZE + TABLE_HEADER_SIZE) == Bucket(Fnv1a.HashNumber(name), 0)
    ensures Accepts(b)
    ensures var c := Opened(b);
            && c.base == b && c.hasHashTable && c.bucketCount == 1 && TableInside(c)
            && c.resources == [ResourceOf(TabledEntry())]
            && Probed(c, name, 0) == Bucket(Fnv1a.HashNumber(name), 0)
  {
    hide DecodeHeader, DecodeEntry, DecodeBucket, U32At, Fnv1a.HashNumber;
    assert HeaderAccepted(b);
    assert EntryAt(b, 0) == TabledEntry();
  }

  /** The same through a hash table: its one bucket has the name's hash and points to the unended name. */
  lemma UnendedNameIsProbed(letter: byte)
    requires letter != 0
    ensures exists b: seq<byte> ::
      && |b| == SIZE + 25 && Accepts(b) && TableInside(Opened(b))
      && Opened(b).hasHashTable && Opened(b).bucketCount == 1
      && ProbeLeavesAt(Opened(b), [letter], 0, 0) && !LookupInside(Opened(b), [letter])
  {
    hide Assemble, Accepts, Opened, TableInside, DecodeHeader, DecodeEntry, DecodeBucket, U32At, Table, Placed,
         Probed, ProbeInside, Fnv1a.HashNumber;
    var name := [letter];
    var b := Assemble(TabledHeader(), TabledEntry(), 0, Table(name) + name);
    AssembledReadsBack(TabledHeader(), TabledEntry(), 0, Table(name) + name);
    TrailingPlaced(b, SIZE, Table(name), name);
    TableReadsBack(b, name);
    TabledIsAccepted(b, name);
    var c := Opened(b);
    assert b[SIZE + 24..] == name;
    assert Overruns(b, SIZE + 24, name);
    assert ProbeLeavesAt(c, name, 0, 0);
    ProbeLeavesIff(c, name, 0);
    assert !LookupInside(c, name);
  }

  lemma TrailingPlaced(b: seq<byte>, off: nat, s: seq<byte>, t: seq<byte>)
    requires off <= |b| && b[off..] == s + t
    ensures Placed(b, off, s) && off + |s| <= |b| && b[off + |s|..] == t
  {
    assert b[off..][..|s|] == s && b[off..][|s|..] == t;
  }

  // ---------- two billion metadata pairs ----------

  const PAIRS: nat := 0x8000_0000

  lemma ZeroField32(b: seq<byte>, off: nat)
    requires off + 4 <= |b| && forall k :: off <= k < off + 4 ==> b[k] == 0
    ensures U32At(b, off) == 0
  {
    var s := b[off..off + 4];
    assert s == [0, 0, 0, 0];
    assert Num([0]) == 0 && Num([0, 0]) == 0 && Num([0, 0, 0]) == 0 by {
      assert [0 as byte][1..] == [] && [0 as byte, 0][1..] == [0] && [0 as byte, 0, 0][1..] == [0, 0];
    }
    assert [0 as byte, 0, 0, 0][1..] == [0, 0, 0];
  }

  /** Ten zero bytes are a pair of empty strings. */
  lemma {:induction false} ZeroPairs(b: seq<byte>, off: nat, k: nat)
    requires off + 10 * (k + 1) <= |b|
    requires forall i :: off <= i < |b| ==> b[i] == 0
    ensures NthPair(b, off, k).Some?
    decreases k
  {
    hide U32At;
    ZeroField32(b, off);
    ZeroField32(b, off + 5);
    if k == 0 {
    } else {
      ZeroPairs(b, off + 10, k - 1);
    }
  }

  /** The counter's overflow is real: an accepted container, opened at a size that fits in 64 bits. */
  lemma CounterCanOverflow()
    ensures exists b: seq<byte> ::
      && |b| < TWO64 && Accepts(b) && |Opened(b).resources| == 1
      && CounterOverflows(b, Opened(b).resources[0].metadataOffset, INT_MAX)
  {
    hide OneContainer, Accepts, Opened, LE, Zeros, U32At, NthPair, Num;
    var count, pairs := LE(PAIRS, 4), Zeros(10 * PAIRS);
    var b := OneContainer(NOWHERE.(entryMetadata := SIZE), 0, count + pairs);
    OneIsAccepted(NOWHERE.(entryMetadata := SIZE), 0, count + pairs);
    assert b[SIZE..SIZE + 4] == count;
    Widths();
    ReadNum(b, SIZE, PAIRS, 4);
    assert CountAt(b, SIZE) == PAIRS by { CountIsField(b); }
    forall i | SIZE + 4 <= i < |b|
      ensures b[i] == 0
    {
      assert b[i] == b[SIZE..][i - SIZE] == pairs[i - SIZE - 4];
      ZerosAt(10 * PAIRS, i - SIZE - 4);
    }
    ZeroPairs(b, SIZE + 4, PAIRS - 1);
    assert CounterOverflows(b, Opened(b).resources[0].metadataOffset, INT_MAX);
  }

  lemma ZerosAt(n: nat, i: nat)
    requires i < n
    ensures Zeros(n)[i] == 0
  {
  }

  lemma CountIsField(b: seq<byte>)
    requires SIZE + 4 <= |b|
    ensures CountAt(b, SIZE) == Num(b[SIZE..SIZE + 4])
  {
    hide Num;
  }

  // ---------- an ELF header alone ----------

  /** e_shentsize 0 makes every section table pass: a file that is only a header is walked past its end. */
  lemma HeaderAlonePasses()
    ensures exists f: seq<byte> :: |f| == E.EHDR_SIZE && ElfDump.HeaderCheck(f).None? && ElfDump.Locate(f) == ElfDump.Beyond
  {
    hide E.EncodeEhdr, E.DecodeEhdr, ElfDump.WalkFrom;
    var h := E.Ehdr(E.EHDR_SIZE, 0, 1, 0);
    var f := E.EncodeEhdr(h);
    assert Placed(f, 0, f);
    E.EhdrRoundTrip(f, h);
    assert ElfDump.HeaderCheck(f).None?;
    assert ElfDump.Locate(f) == ElfDump.Beyond;
  }
}
