/** What `erf_verify_checksum` says about built and about damaged containers. */
module Integrity {
  import opened Bytes
  import opened ErfFormat
  import opened Manifests
  import opened Layout
  import opened Reader
  import opened RoundTrip
  import Crc64
  import Parity

  /** Clearing the field undoes the second header patch. */
  lemma ZeroFieldOfImage(rs: seq<Resource>, checksum: u64)
    requires FitsPlain(rs)
    ensures |Image(rs, Plain(|rs|), checksum)| >= HEADER_SIZE
    ensures ZeroField(Image(rs, Plain(|rs|), checksum)) == Image(rs, Plain(|rs|), 0)
  {
    hide HeaderBytes, Directory, Rest, PlanOf, AllWellFormed, ZeroField;
    var v := Plain(|rs|);
    var d, r := Directory(rs, v), Rest(rs, Base(v, |rs|));
    HeaderCleared(rs, v, checksum);
    FieldCleared(HeaderBytes(rs, v, checksum), HeaderBytes(rs, v, 0), d + r);
    ConcatAssoc(HeaderBytes(rs, v, checksum), d, r);
    ConcatAssoc(HeaderBytes(rs, v, 0), d, r);
  }

  lemma HeaderCleared(rs: seq<Resource>, v: Variant, checksum: u64)
    requires ValidVariant(v, |rs|) && Fits(rs, Base(v, |rs|))
    ensures var e, z := HeaderBytes(rs, v, checksum), HeaderBytes(rs, v, 0);
            && e[..CHECKSUM_AT] == z[..CHECKSUM_AT]
            && z[CHECKSUM_AT..CHECKSUM_AT + 8] == Zeros(8)
            && e[CHECKSUM_AT + 8..] == z[CHECKSUM_AT + 8..]
  {
    hide EncodeHeader, Fits, PlanOf, FlagsOf, HasMetadata, Zeros, LE;
    ChecksumFieldOnly(HeaderOf(rs, v, checksum), v.reserved0, v.padding, v.headerTail);
    EightZeros();
  }

  lemma EightZeros()
    ensures LE(0, 8) == Zeros(8)
  {
    assert LE(0, 1) == [0];
    assert LE(0, 2) == [0, 0];
    assert LE(0, 3) == [0, 0, 0];
    assert LE(0, 4) == [0, 0, 0, 0];
    assert LE(0, 5) == [0, 0, 0, 0, 0];
    assert LE(0, 6) == [0, 0, 0, 0, 0, 0];
    assert LE(0, 7) == [0, 0, 0, 0, 0, 0, 0];
  }

  lemma FieldCleared(e: seq<byte>, z: seq<byte>, rest: seq<byte>)
    requires |e| == |z| >= HEADER_SIZE
    requires e[..CHECKSUM_AT] == z[..CHECKSUM_AT] && z[CHECKSUM_AT..CHECKSUM_AT + 8] == Zeros(8)
    requires e[CHECKSUM_AT + 8..] == z[CHECKSUM_AT + 8..]
    ensures ZeroField(e + rest) == z + rest
  {
    hide Zeros;
    assert z == z[..CHECKSUM_AT] + z[CHECKSUM_AT..CHECKSUM_AT + 8] + z[CHECKSUM_AT + 8..];
    assert (e + rest)[..CHECKSUM_AT] == e[..CHECKSUM_AT];
    assert (e + rest)[CHECKSUM_AT + 8..] == e[CHECKSUM_AT + 8..] + rest;
    ConcatAssoc(z[..CHECKSUM_AT] + Zeros(8), z[CHECKSUM_AT + 8..], rest);
  }

  /** A built container verifies. */
  lemma BuiltVerifies(rs: seq<Resource>)
    requires FitsPlain(rs)
    ensures |ContainerBytes(rs)| >= HEADER_SIZE && ChecksumHolds(ContainerBytes(rs))
  {
    hide Image, Crc64.ChecksumNumber, ZeroField, Laid, DecodeHeader, HeaderOf;
    var v := Plain(|rs|);
    var crc := Crc64.ChecksumNumber(Image(rs, v, 0));
    ZeroFieldOfImage(rs, crc);
    ImageLaid(rs, v, crc, []);
    assert Image(rs, v, crc) + [] == ContainerBytes(rs);
    HeaderReadsBack(ContainerBytes(rs), rs, v, crc);
    HeaderChecksum(rs, v, crc);
  }

  lemma HeaderChecksum(rs: seq<Resource>, v: Variant, checksum: u64)
    requires ValidVariant(v, |rs|) && Fits(rs, Base(v, |rs|))
    ensures HeaderOf(rs, v, checksum).checksum == checksum
  {
    hide Fits, PlanOf;
  }

  lemma FieldUnread(a: seq<byte>, b: seq<byte>)
    requires |a| == |b| >= HEADER_SIZE
    requires forall i :: CHECKSUM_AT <= i < CHECKSUM_AT + 8 ==> a[i] == b[i]
    ensures DecodeHeader(a).checksum == DecodeHeader(b).checksum
  {
    hide Num;
    assert a[CHECKSUM_AT..CHECKSUM_AT + 8] == b[CHECKSUM_AT..CHECKSUM_AT + 8];
  }

  lemma ClearedDiffer(a: seq<byte>, b: seq<byte>)
    requires |a| == |b| >= HEADER_SIZE && a != b
    requires forall i :: CHECKSUM_AT <= i < CHECKSUM_AT + 8 ==> a[i] == b[i]
    ensures ZeroField(a) != ZeroField(b)
  {
    var i :| 0 <= i < |a| && a[i] != b[i];
    assert ZeroField(a)[i] == a[i] && ZeroField(b)[i] == b[i];
  }

  lemma ClearedAt(a: seq<byte>, i: nat)
    requires |a| >= HEADER_SIZE && i < |a|
    ensures ZeroField(a)[i] == if CHECKSUM_AT <= i < CHECKSUM_AT + 8 then 0 else a[i]
  {
  }

  lemma ClearedAgree(a: seq<byte>, b: seq<byte>, p: nat, w: nat)
    requires Crc64.BitsAgreeOutside(a, b, p, w) && |a| >= HEADER_SIZE
    ensures Crc64.BitsAgreeOutside(ZeroField(a), ZeroField(b), p, w)
  {
    hide Crc64.MessageBits, Crc64.Bits, ZeroField;
    var x, y := ZeroField(a), ZeroField(b);
    forall i | 0 <= i < 8 * |x| && !(p <= i < p + w)
      ensures Crc64.MessageBits(x)[i] == Crc64.MessageBits(y)[i]
    {
      Crc64.MessageBitAt(a, i);
      Crc64.MessageBitAt(b, i);
      Crc64.MessageBitAt(x, i);
      Crc64.MessageBitAt(y, i);
      ClearedAt(a, i / 8);
      ClearedAt(b, i / 8);
    }
  }

  /** Any change confined to 64 consecutive bits, and not to the stored checksum,
      makes a container that verified stop verifying. */
  lemma BurstIsDetected(a: seq<byte>, b: seq<byte>, p: nat)
    requires |a| >= HEADER_SIZE && ChecksumHolds(a)
    requires Crc64.BitsAgreeOutside(a, b, p, 64) && a != b
    requires forall i :: CHECKSUM_AT <= i < CHECKSUM_AT + 8 ==> a[i] == b[i]
    ensures !ChecksumHolds(b)
  {
    hide Crc64.ChecksumNumber, ZeroField, DecodeHeader, Crc64.MessageBits;
    ClearedDiffer(a, b);
    ClearedAgree(a, b, p, 64);
    FieldUnread(a, b);
    Crc64.BurstChangesChecksum(ZeroField(a), ZeroField(b), p);
  }

  /** Any change confined to the stored checksum does too. */
  lemma FieldChangeIsDetected(a: seq<byte>, b: seq<byte>)
    requires |a| >= HEADER_SIZE && ChecksumHolds(a)
    requires Crc64.AgreeOutside(a, b, CHECKSUM_AT, 8) && a != b
    ensures !ChecksumHolds(b)
  {
    hide Crc64.ChecksumNumber, Num;
    assert ZeroField(a) == ZeroField(b);
    FieldValueDiffers(a, b);
  }

  lemma FieldValueDiffers(a: seq<byte>, b: seq<byte>)
    requires |a| >= HEADER_SIZE && Crc64.AgreeOutside(a, b, CHECKSUM_AT, 8) && a != b
    ensures Num(a[CHECKSUM_AT..CHECKSUM_AT + 8]) != Num(b[CHECKSUM_AT..CHECKSUM_AT + 8])
  {
    hide Num, LE;
    var x, y := a[CHECKSUM_AT..CHECKSUM_AT + 8], b[CHECKSUM_AT..CHECKSUM_AT + 8];
    var i :| 0 <= i < |a| && a[i] != b[i];
    assert x[i - CHECKSUM_AT] != y[i - CHECKSUM_AT];
    LEOfNum(x);
    LEOfNum(y);
  }

  // ---------- changes of body and field at once ----------

  lemma AroundField(b: seq<byte>)
    requires |b| >= HEADER_SIZE
    ensures var x, field, y := b[..CHECKSUM_AT], b[CHECKSUM_AT..CHECKSUM_AT + 8], b[CHECKSUM_AT + 8..];
            b == x + field + y && ZeroField(b) == x + Zeros(8) + y && DecodeHeader(b).checksum == Num(field)
  {
    hide Num, Zeros;
  }

  lemma ThreeParts(x: seq<byte>, m: seq<byte>, y: seq<byte>)
    ensures Parity.OddCount(Crc64.MessageBits(x + m + y))
         == ((Parity.OddCount(Crc64.MessageBits(x)) != Parity.OddCount(Crc64.MessageBits(m)))
             != Parity.OddCount(Crc64.MessageBits(y)))
  {
    hide Crc64.MessageBits, Parity.OddCount;
    Parity.MessageBitsConcat(x + m, y);
    Parity.MessageBitsConcat(x, m);
    Parity.OddCountConcat(Crc64.MessageBits(x + m), Crc64.MessageBits(y));
    Parity.OddCountConcat(Crc64.MessageBits(x), Crc64.MessageBits(m));
  }

  lemma ZerosAreEven()
    ensures !Parity.OddCount(Crc64.MessageBits(Zeros(8)))
  {
    hide LE, Num, Crc64.MessageBits, Parity.OddCount, Zeros;
    EightZeros();
    Widths();
    NumOfLE(0, 8);
    Parity.BytesParity(Zeros(8));
  }

  /** Every container that verifies has an even number of set bits. */
  lemma VerifyingIsEven(b: seq<byte>)
    requires |b| >= HEADER_SIZE && ChecksumHolds(b)
    ensures !Parity.OddCount(Crc64.MessageBits(b))
  {
    hide Crc64.ChecksumNumber, Crc64.MessageBits, Parity.OddCount, Num, Zeros, ZeroField, DecodeHeader;
    var x, field, y := b[..CHECKSUM_AT], b[CHECKSUM_AT..CHECKSUM_AT + 8], b[CHECKSUM_AT + 8..];
    AroundField(b);
    ThreeParts(x, field, y);
    ThreeParts(x, Zeros(8), y);
    ZerosAreEven();
    Parity.ChecksumBalances(ZeroField(b), field);
  }

  /** So any change of an odd number of bits is detected, wherever they lie, the stored checksum included. */
  lemma OddChangeIsDetected(a: seq<byte>, b: seq<byte>)
    requires |a| == |b| >= HEADER_SIZE && ChecksumHolds(a)
    requires Parity.OddCount(Crc64.XorBits(Crc64.MessageBits(a), Crc64.MessageBits(b)))
    ensures !ChecksumHolds(b)
  {
    hide ChecksumHolds, Crc64.MessageBits, Parity.OddCount;
    VerifyingIsEven(a);
    Parity.OddCountXor(Crc64.MessageBits(a), Crc64.MessageBits(b));
    if ChecksumHolds(b) {
      VerifyingIsEven(b);
    }
  }

  /** `b` with the checksum of its other bytes stored. */
  function Resealed(b: seq<byte>): (r: seq<byte>)
    requires |b| >= HEADER_SIZE
    ensures |r| == |b|
  {
    b[..CHECKSUM_AT] + LE(Crc64.ChecksumNumber(ZeroField(b)), 8) + b[CHECKSUM_AT + 8..]
  }

  lemma ResealedVerifies(b: seq<byte>)
    requires |b| >= HEADER_SIZE
    ensures ChecksumHolds(Resealed(b))
    ensures forall i :: 0 <= i < |b| && !(CHECKSUM_AT <= i < CHECKSUM_AT + 8) ==> Resealed(b)[i] == b[i]
  {
    hide Crc64.ChecksumNumber, LE, Num, Zeros, DecodeHeader, ZeroField;
    var n, r := Crc64.ChecksumNumber(ZeroField(b)), Resealed(b);
    AroundField(b);
    AroundField(r);
    Widths();
    NumOfLE(n, 8);
    assert r[CHECKSUM_AT..CHECKSUM_AT + 8] == LE(n, 8);
    assert r[..CHECKSUM_AT] == b[..CHECKSUM_AT] && r[CHECKSUM_AT + 8..] == b[CHECKSUM_AT + 8..];
  }

  /** Outside the field, `a` and `b` differ in byte p and nowhere else. */
  predicate DifferAt(a: seq<byte>, b: seq<byte>, p: nat)
    requires |a| == |b| && p < |a|
  {
    a[p] != b[p] && forall i :: 0 <= i < |a| && i != p && !(CHECKSUM_AT <= i < CHECKSUM_AT + 8) ==> a[i] == b[i]
  }

  /** An even number of changed bits may cancel: at every byte outside the field there is a
      change that a matching change of the field hides. */
  lemma DifferencesCanCancel(a: seq<byte>, p: nat)
    requires |a| >= HEADER_SIZE && p < |a| && !(CHECKSUM_AT <= p < CHECKSUM_AT + 8)
    ensures exists b: seq<byte> :: |b| == |a| && ChecksumHolds(b) && DifferAt(a, b, p)
  {
    hide ChecksumHolds, Resealed;
    var changed := a[p := if a[p] == 0 then 1 else 0];
    ResealedVerifies(changed);
    assert DifferAt(a, Resealed(changed), p);
  }

  // ---------- bytes behind a container ----------

  lemma ClearedFront(b: seq<byte>, t: seq<byte>)
    requires |b| >= HEADER_SIZE
    ensures ZeroField(b + t) == ZeroField(b) + t
    ensures DecodeHeader(b + t).checksum == DecodeHeader(b).checksum
  {
    hide Num;
    assert (b + t)[CHECKSUM_AT..CHECKSUM_AT + 8] == b[CHECKSUM_AT..CHECKSUM_AT + 8];
    assert (b + t)[..CHECKSUM_AT] == b[..CHECKSUM_AT];
    assert (b + t)[CHECKSUM_AT + 8..] == b[CHECKSUM_AT + 8..] + t;
  }

  lemma TrailersAgreeOutside(b: seq<byte>, t: seq<byte>, u: seq<byte>)
    requires |t| == |u| <= 8
    ensures Crc64.BitsAgreeOutside(b + t, b + u, 8 * |b|, 64)
  {
    hide Crc64.BitsAgreeOutside;
    assert Crc64.AgreeOutside(b + t, b + u, |b|, 8);
    Crc64.BytesAgreeBitsAgree(b + t, b + u, |b|, 8);
  }

  /** The checksum covers the opened size, not total_size: of two different endings of the same
      length, up to eight bytes, at most one leaves a container verifying that opens with it. */
  lemma TrailersNotBothVerify(b: seq<byte>, t: seq<byte>, u: seq<byte>)
    requires |b| >= HEADER_SIZE && |t| == |u| <= 8 && t != u
    ensures !(ChecksumHolds(b + t) && ChecksumHolds(b + u))
  {
    hide ChecksumHolds, Crc64.BitsAgreeOutside;
    TrailersAgreeOutside(b, t, u);
    assert (b + t)[|b|..] == t && (b + u)[|b|..] == u;
    if ChecksumHolds(b + t) {
      BurstIsDetected(b + t, b + u, 8 * |b|);
    }
  }

  /** Behind a container that verifies, whatever comes first, exactly one choice of the
      last eight bytes verifies. */
  lemma OneEndingVerifies(b: seq<byte>, t: seq<byte>)
    requires |b| >= HEADER_SIZE && ChecksumHolds(b)
    ensures exists u: seq<byte> :: |u| == 8 && ChecksumHolds(b + t + u)
                                   && forall w: seq<byte> :: |w| == 8 && w != u ==> !ChecksumHolds(b + t + w)
  {
    hide ZeroField, DecodeHeader, Crc64.Checksum;
    var x := Crc64.Checksum(ZeroField(b));
    Crc64.EveryChecksumOccurs(ZeroField(b + t), x);
    var u: seq<byte> :| |u| == 8 && Crc64.Checksum(ZeroField(b + t) + u) == x;
    ClearedFront(b, t);
    ClearedFront(b + t, u);
    assert ChecksumHolds(b + t + u);
    forall w: seq<byte> | |w| == 8 && w != u
      ensures !ChecksumHolds(b + t + w)
    {
      TrailersNotBothVerify(b + t, u, w);
    }
  }

  lemma LastByteMatters(b: seq<byte>, n: nat)
    requires |b| >= HEADER_SIZE && n > 0
    ensures exists t: seq<byte> :: |t| == n && !ChecksumHolds(b + t)
  {
    hide ChecksumHolds, Zeros;
    var front := Zeros(n - 1);
    TrailersNotBothVerify(b + front, [0], [1]);
    ConcatAssoc(b, front, [0]);
    ConcatAssoc(b, front, [1]);
    if ChecksumHolds(b + (front + [0])) {
      assert |front + [1]| == n && !ChecksumHolds(b + (front + [1]));
    } else {
      assert |front + [0]| == n;
    }
  }

  /** An intact container opens with anything behind it, but it is sure to verify only
      when the opened size is exactly total_size. */
  lemma VerifiesWithEveryTrailerIffExact(rs: seq<Resource>, n: nat)
    requires FitsPlain(rs)
    ensures forall t: seq<byte> :: |t| == n ==> Accepts(ContainerBytes(rs) + t)
    ensures |ContainerBytes(rs)| >= HEADER_SIZE
    ensures |ContainerBytes(rs)| == DecodeHeader(ContainerBytes(rs)).totalSize
    ensures (forall t: seq<byte> :: |t| == n ==> ChecksumHolds(ContainerBytes(rs) + t)) <==> n == 0
  {
    hide ChecksumHolds, ContainerBytes, Accepts, Image, LaidOut, Fits, Crc64.ChecksumNumber, DecodeHeader, ZeroField;
    var b := ContainerBytes(rs);
    forall t: seq<byte> | |t| == n
      ensures Accepts(b + t)
    {
      PlainIsLaidOut(rs, t);
      IsAccepted(b + t, rs, Plain(|rs|), Crc64.ChecksumNumber(Image(rs, Plain(|rs|), 0)));
    }
    BuiltVerifies(rs);
    SizeIsTotal(rs);
    if n == 0 {
      assert forall t: seq<byte> :: |t| == 0 ==> b + t == b;
    } else {
      LastByteMatters(b, n);
    }
  }

  /** So a built container can stop verifying through one byte behind it that opening ignores. */
  lemma IntactButUnverified(rs: seq<Resource>)
    requires FitsPlain(rs)
    ensures exists t: byte :: Accepts(ContainerBytes(rs) + [t]) && !ChecksumHolds(ContainerBytes(rs) + [t])
  {
    hide ChecksumHolds, ContainerBytes, Accepts, Fits, DecodeHeader;
    VerifiesWithEveryTrailerIffExact(rs, 1);
    var t: seq<byte> :| |t| == 1 && !ChecksumHolds(ContainerBytes(rs) + t);
    assert t == [t[0]];
    assert Accepts(ContainerBytes(rs) + [t[0]]);
  }

  lemma SizeIsTotal(rs: seq<Resource>)
    requires FitsPlain(rs)
    ensures |ContainerBytes(rs)| >= HEADER_SIZE
    ensures |ContainerBytes(rs)| == DecodeHeader(ContainerBytes(rs)).totalSize
  {
    hide Image, Laid, LaidOut, Fits, Crc64.ChecksumNumber, DecodeHeader, PlanOf, Plain;
    var x := Crc64.ChecksumNumber(Image(rs, Plain(|rs|), 0));
    PlainIsLaidOut(rs, []);
    assert ContainerBytes(rs) + [] == ContainerBytes(rs);
    HeaderReadsBack(ContainerBytes(rs), rs, Plain(|rs|), x);
    ImageLaid(rs, Plain(|rs|), x, []);
  }

  lemma PlainIsLaidOut(rs: seq<Resource>, trailing: seq<byte>)
    requires FitsPlain(rs)
    ensures LaidOut(ContainerBytes(rs) + trailing, rs, Plain(|rs|), Crc64.ChecksumNumber(Image(rs, Plain(|rs|), 0)))
  {
    hide Fits, Laid, Image, Crc64.ChecksumNumber;
    ImageLaid(rs, Plain(|rs|), Crc64.ChecksumNumber(Image(rs, Plain(|rs|), 0)), trailing);
  }
}
