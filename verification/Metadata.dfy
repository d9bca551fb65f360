/** The metadata blocks (src/elfrc/container_build.c lines 86-114). */
module MetadataBlocks {
  import opened Bytes
  import opened ByteBuffers
  import opened Manifests
  import opened Packing

  /** A length-prefixed string with the NUL its length leaves out. */
  function Field(s: seq<byte>): (r: seq<byte>)
    ensures |r| == |s| + 5
  {
    LE(|s|, 4) + s + [0]
  }

  function Pairs(kvs: seq<Metadata>): seq<byte> {
    if kvs == [] then [] else Field(kvs[0].key) + Field(kvs[0].value) + Pairs(kvs[1..])
  }

  function Block(kvs: seq<Metadata>): seq<byte> {
    LE(|kvs|, 4) + Pairs(kvs)
  }

  /** The blocks of `rs`, absent where a resource has no metadata. */
  function MetaPieces(rs: seq<Resource>): (r: Pieces)
    ensures |r| == |rs|
  {
    seq(|rs|, i requires 0 <= i < |rs| => if rs[i].metadata == [] then None else Some(Block(rs[i].metadata)))
  }

  // ---------- the program ----------

  lemma FieldOfPairs(kvs: seq<Metadata>, j: nat)
    requires j < |kvs|
    ensures Pairs(kvs[j..]) == Field(kvs[j].key) + Field(kvs[j].value) + Pairs(kvs[j + 1..])
  {
    assert kvs[j..][1..] == kvs[j + 1..];
  }

  lemma NoPairs(kvs: seq<Metadata>)
    ensures Pairs(kvs[|kvs|..]) == []
  {
  }

  /** `buf_append` of a length and of a string with its NUL. */
  method WriteField(buf: ByteBuf, s: seq<byte>)
    requires buf.Valid() && |s| < TWO32 - 1 && buf.len + |Field(s)| < MAX_LEN
    modifies buf.Repr
    ensures buf.Valid() && fresh(buf.Repr - old(buf.Repr))
    ensures buf.Contents() == old(buf.Contents()) + Field(s)
  {
    hide Step, Linear, LE;
    var length: u32 := |s| % TWO32;
    var _ := buf.Append(LE(length, 4));
    var _ := buf.Append(s + [0]);
  }

  method WriteBlock(buf: ByteBuf, kvs: seq<Metadata>)
    requires buf.Valid() && |kvs| < 0x8000_0000
    requires forall kv :: kv in kvs ==> |kv.key| < TWO32 - 1 && |kv.value| < TWO32 - 1
    requires buf.len + |Block(kvs)| < MAX_LEN
    modifies buf.Repr
    ensures buf.Valid() && fresh(buf.Repr - old(buf.Repr))
    ensures buf.Contents() == old(buf.Contents()) + Block(kvs)
  {
    hide Step, Linear, LE, Field, Pairs, ByteBuf.View;
    ghost var target := buf.Contents() + Block(kvs);
    var count: u32 := |kvs| % TWO32;
    var _ := buf.Append(LE(count, 4));
    assert kvs[0..] == kvs;
    NoPairs(kvs);
    ConcatAssoc(old(buf.Contents()), LE(count, 4), Pairs(kvs));
    for j := 0 to |kvs|
      invariant buf.Valid() && fresh(buf.Repr - old(buf.Repr))
      invariant buf.Contents() + Pairs(kvs[j..]) == target
    {
      FieldOfPairs(kvs, j);
      WriteField(buf, kvs[j].key);
      WriteField(buf, kvs[j].value);
    }
    assert buf.Contents() + [] == buf.Contents();
  }

  /** One round of the metadata loop: nothing, or padding and a block. */
  method WriteOne(buf: ByteBuf, kvs: seq<Metadata>) returns (offset: nat)
    requires buf.Valid() && |kvs| < 0x8000_0000
    requires forall kv :: kv in kvs ==> |kv.key| < TWO32 - 1 && |kv.value| < TWO32 - 1
    requires kvs != [] ==> AlignUp(buf.len, 8) + |Block(kvs)| + 8 < MAX_LEN
    modifies buf.Repr
    ensures buf.Valid() && fresh(buf.Repr - old(buf.Repr))
    ensures kvs == [] ==> offset == 0 && buf.Contents() == old(buf.Contents())
    ensures kvs != [] ==>
      && offset == AlignUp(old(buf.len), 8)
      && buf.Contents() == old(buf.Contents()) + (Zeros(Padding(old(buf.len), 8)) + Block(kvs))
  {
    hide Step, Linear, Block, Zeros, Pairs;
    if kvs == [] {
      return 0;
    }
    ghost var before := buf.Contents();
    ghost var padding := Zeros(Padding(buf.len, 8));
    buf.Align(8);
    offset := buf.len;
    WriteBlock(buf, kvs);
    ConcatAssoc(before, padding, Block(kvs));
  }

  /** The metadata loop of `elfrc_container_build`. */
  method WriteMetadata(buf: ByteBuf, rs: seq<Resource>) returns (offsets: array<nat>, any: bool)
    requires buf.Valid() && AllWellFormed(rs)
    requires PosAfter(MetaPieces(rs), 8, buf.len, |rs|) + 8 < MAX_LEN
    modifies buf.Repr
    ensures buf.Valid() && fresh(buf.Repr - old(buf.Repr)) && fresh(offsets) && offsets !in buf.Repr
    ensures buf.Contents() == old(buf.Contents()) + All(MetaPieces(rs), 8, old(buf.len))
    ensures buf.len == PosAfter(MetaPieces(rs), 8, old(buf.len), |rs|)
    ensures offsets.Length == |rs|
    ensures forall i :: 0 <= i < |rs| ==> offsets[i] == PieceOffset(MetaPieces(rs), 8, old(buf.len), i)
    ensures any <==> HasMetadata(rs)
  {
    hide Step, Linear, PosAfter, Packed, Block, Pairs, ByteBuf.View, Padding, Zeros, CapFor;
    ghost var start := buf.len;
    ghost var before := buf.Contents();
    ghost var ps := MetaPieces(rs);
    offsets := new nat[|rs|];
    any := false;
    NoPieces(ps, 8, start);
    for i := 0 to |rs|
      invariant buf.Valid() && fresh(buf.Repr - old(buf.Repr)) && offsets !in buf.Repr
      invariant buf.Contents() == before + Packed(ps, 8, start, i)
      invariant buf.len == PosAfter(ps, 8, start, i)
      invariant forall k :: 0 <= k < i ==> offsets[k] == PieceOffset(ps, 8, start, k)
      invariant any <==> exists k :: 0 <= k < i && rs[k].metadata != []
    {
      PackedStep(ps, 8, start, i);
      PosGrows(ps, 8, start, i + 1, |rs|);
      ConcatAssoc(before, Packed(ps, 8, start, i), Zeros(Padding(buf.len, 8)) + Block(rs[i].metadata));
      offsets[i] := WriteOne(buf, rs[i].metadata);
      any := any || rs[i].metadata != [];
    }
  }
}
