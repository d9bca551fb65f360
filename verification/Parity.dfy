/**
  What the checksum keeps: the generator of CRC-64/XZ has an even number of
  terms, so the checksum has an odd number of set bits exactly when the message has.
 */
module Parity {
  import opened Bytes
  import opened Crc64

  /** Whether an odd number of bits is set. */
  function OddCount(bits: seq<bool>): bool {
    if bits == [] then false else bits[0] != OddCount(bits[1..])
  }

  lemma {:induction false} OddCountConcat(u: seq<bool>, v: seq<bool>)
    ensures OddCount(u + v) == (OddCount(u) != OddCount(v))
    decreases |u|
  {
    if u == [] {
      assert u + v == v;
    } else {
      assert (u + v)[1..] == u[1..] + v;
      OddCountConcat(u[1..], v);
    }
  }

  lemma {:induction false} OddCountXor(u: seq<bool>, v: seq<bool>)
    requires |u| == |v|
    ensures OddCount(XorBits(u, v)) == (OddCount(u) != OddCount(v))
    decreases |u|
  {
    if u == [] {
    } else {
      assert XorBits(u, v)[1..] == XorBits(u[1..], v[1..]);
      OddCountXor(u[1..], v[1..]);
    }
  }

  lemma {:induction false} MessageBitsConcat(s: seq<byte>, t: seq<byte>)
    ensures MessageBits(s + t) == MessageBits(s) + MessageBits(t)
    decreases |s|
  {
    hide Bits;
    if s == [] {
      assert s + t == t;
    } else {
      assert (s + t)[1..] == s[1..] + t;
      MessageBitsConcat(s[1..], t);
    }
  }

  // ---------- registers ----------

  /** The same for the low `k` bits of a register. */
  function LowOdd(c: bv64, k: nat): bool
    decreases k
  {
    if k == 0 then false else Odd(c) != LowOdd(Half(c), k - 1)
  }

  function RegisterOdd(c: bv64): bool { LowOdd(c, 64) }

  lemma {:induction false} LowOddXor(x: bv64, y: bv64, k: nat)
    ensures LowOdd(Xor(x, y), k) == (LowOdd(x, k) != LowOdd(y, k))
    decreases k
  {
    hide Odd, Half, Xor;
    if k == 0 {
    } else {
      OddXor(x, y);
      HalfXor(x, y);
      LowOddXor(Half(x), Half(y), k - 1);
    }
  }

  lemma {:induction false} LowOddNext(c: bv64, k: nat)
    ensures LowOdd(c, k + 1) == (LowOdd(c, k) != Coeff(c, k))
    decreases k
  {
    hide Odd, Half, Coeff;
    if k == 0 {
      FirstCoeff(c);
      assert LowOdd(c, 1) == (Odd(c) != LowOdd(Half(c), 0));
    } else {
      NextCoeff(c, k - 1);
      LowOddNext(Half(c), k - 1);
    }
  }

  lemma {:induction false} LowOddJoin(c: bv64, k: nat, m: nat)
    ensures LowOdd(c, k + m) == (LowOdd(c, k) != LowOdd(Shifted(c, k), m))
    decreases k
  {
    hide Odd, Half;
    if k == 0 {
    } else {
      LowOddJoin(Half(c), k - 1, m);
    }
  }

  lemma ZeroIsEven(k: nat)
    ensures !LowOdd(0, k)
  {
    XorSame(0);
    LowOddXor(0, 0, k);
  }

  lemma ByteOdd(c: bv64, k: nat)
    ensures LowOdd(c, k + 8) == (LowOdd(c, 8) != LowOdd(Down8(c), k))
  {
    hide LowOdd, Half, Down8;
    LowOddJoin(c, 8, k);
    Shifted8(c, 0);
  }

  /** The polynomial without its top term has an odd number of terms. */
  lemma PolyIsOdd()
    ensures RegisterOdd(POLY)
  {
    hide LowOdd, Down8;
    ByteOdd(POLY, 56);
    ByteOdd(0xC9_6C57_95D7_870F, 48);
    ByteOdd(0xC96C_5795_D787, 40);
    ByteOdd(0xC9_6C57_95D7, 32);
    ByteOdd(0xC96C_5795, 24);
    ByteOdd(0xC9_6C57, 16);
    ByteOdd(0xC96C, 8);
    PolyBytes();
    LowBytes();
  }

  lemma LowBytes()
    ensures !LowOdd(POLY, 8) && !LowOdd(0xC9_6C57_95D7_870F, 8) && !LowOdd(0xC96C_5795_D787, 8) && !LowOdd(0xC9_6C57_95D7, 8)
    ensures !LowOdd(0xC96C_5795, 8) && LowOdd(0xC9_6C57, 8) && !LowOdd(0xC96C, 8) && !LowOdd(0xC9, 8)
  {
  }

  /** Half of a register, read with 64 bits or with 63. */
  lemma HalfOdd(c: bv64)
    ensures RegisterOdd(c) == (Odd(c) != RegisterOdd(Half(c)))
  {
    hide Odd, Half, Coeff;
    TopCoeffOfHalf(c);
    LowOddNext(Half(c), 63);
  }

  lemma StepKeepsParity(c: bv64)
    ensures RegisterOdd(BitStep(c)) == RegisterOdd(c)
  {
    hide BitStep, Odd, Half, Xor, RegisterOdd;
    BitStepCases(c);
    HalfOdd(c);
    PolyIsOdd();
    RegisterOddXor(POLY, Half(c));
  }

  lemma RegisterOddXor(x: bv64, y: bv64)
    ensures RegisterOdd(Xor(x, y)) == (RegisterOdd(x) != RegisterOdd(y))
  {
    LowOddXor(x, y, 64);
  }

  lemma OneOdd(b: bool)
    ensures RegisterOdd(One(b)) == b
  {
    HalfOdd(One(b));
    ZeroIsEven(64);
    assert Half(One(b)) == 0;
  }

  /** Each bit fed counts once, and nothing else changes the parity of the register. */
  lemma {:induction false} FeedParity(c: bv64, bits: seq<bool>)
    ensures RegisterOdd(Feed(c, bits)) == (RegisterOdd(c) != OddCount(bits))
    decreases |bits|
  {
    hide BitStep, Xor, One, RegisterOdd;
    if bits == [] {
    } else {
      var x := Xor(c, One(bits[0]));
      RegisterOddXor(c, One(bits[0]));
      OneOdd(bits[0]);
      StepKeepsParity(x);
      FeedParity(BitStep(x), bits[1..]);
    }
  }

  lemma OnesAreEven()
    ensures !RegisterOdd(ONES)
  {
    hide LowOdd;
    LimitValues();
    hide Limit;
    EvenByte(8);
    EvenByte(7);
    EvenByte(6);
    EvenByte(5);
    EvenByte(4);
    EvenByte(3);
    EvenByte(2);
    EvenByte(1);
    assert !LowOdd(Limit(0), 0) by { NothingIsEven(); }
  }

  lemma NothingIsEven()
    ensures !LowOdd(Limit(0), 0)
  {
  }

  lemma EvenByte(k: nat)
    requires 0 < k <= 8
    ensures LowOdd(Limit(k), 8 * k) == LowOdd(Limit(k - 1), 8 * k - 8)
  {
    hide LowOdd, Limit, Down8;
    ByteOdd(Limit(k), 8 * k - 8);
    LimitDown(k);
    FullByteIsEven(Limit(k)) by { LimitLow(k); }
  }

  lemma LimitLow(k: nat)
    requires 0 < k <= 8
    ensures Low(Limit(k)) == 0xFF
  {
  }

  lemma FullByteIsEven(c: bv64)
    requires Low(c) == 0xFF
    ensures !LowOdd(c, 8)
  {
    hide Odd, Half, Coeff;
    forall i: nat | i < 8
      ensures Coeff(c, i)
    {
      LowByteCoeff(c, i);
    }
    LowOddNext(c, 0);
    LowOddNext(c, 1);
    LowOddNext(c, 2);
    LowOddNext(c, 3);
    LowOddNext(c, 4);
    LowOddNext(c, 5);
    LowOddNext(c, 6);
    LowOddNext(c, 7);
  }

  /** The checksum has an odd number of set bits exactly when the message has. */
  lemma ChecksumParity(data: seq<byte>)
    ensures RegisterOdd(Checksum(data)) == OddCount(MessageBits(data))
  {
    hide RegisterOdd, State, Feed, Xor, MessageBits;
    StateIsFeed(ONES, data);
    FeedParity(ONES, MessageBits(data));
    OnesAreEven();
    RegisterOddXor(State(ONES, data), ONES);
  }

  // ---------- numbers ----------

  function NumberOdd(n: nat): bool {
    if n == 0 then false else (n % 2 == 1) != NumberOdd(n / 2)
  }

  lemma DoubleNumber(w: bv64)
    requires w & 0x8000_0000_0000_0000 == 0
    ensures (w << 1) as nat == 2 * (w as nat)
    ensures (1 ^ (w << 1)) as nat == 2 * (w as nat) + 1
  {
    hide *;
  }

  lemma NumberIsCast(x: bv64)
    ensures AsNumber(x) == x as nat
  {
    hide Xor, One, Double;
  }

  lemma JoinedWord(w: bv64, b: bool)
    ensures Xor(One(b), Double(w)) == if b then 1 ^ (w << 1) else w << 1
    ensures TopClear(w) <==> w & 0x8000_0000_0000_0000 == 0
  {
  }

  lemma HalfIsTopClear(c: bv64)
    ensures TopClear(Half(c))
  {
  }

  lemma JoinNumber(w: bv64, b: bool)
    requires TopClear(w)
    ensures AsNumber(Xor(One(b), Double(w))) == 2 * AsNumber(w) + if b then 1 else 0
  {
    hide *;
    JoinedWord(w, b);
    NumberIsCast(w);
    NumberIsCast(1 ^ (w << 1));
    NumberIsCast(w << 1);
    DoubleNumber(w);
  }

  /** The low bit and the rest, as numbers. */
  lemma NumberOfHalf(c: bv64)
    ensures AsNumber(c) == 2 * AsNumber(Half(c)) + if Odd(c) then 1 else 0
  {
    hide *;
    HalfIsTopClear(c);
    JoinHalf(c);
    JoinNumber(Half(c), Odd(c));
  }

  lemma {:induction false} RegisterNumber(c: bv64, k: nat)
    requires Shifted(c, k) == 0
    ensures LowOdd(c, k) == NumberOdd(AsNumber(c))
    decreases k
  {
    hide Odd, Half, AsNumber, NumberOdd;
    if k == 0 {
      ZeroNumber();
      NoNumber();
    } else {
      NumberOfHalf(c);
      RegisterNumber(Half(c), k - 1);
      NumberOddStep(AsNumber(Half(c)), Odd(c));
    }
  }

  lemma ZeroNumber()
    ensures AsNumber(0) == 0
  {
    assert 0 as bv64 as nat == 0;
  }

  lemma NumberOddStep(half: nat, low: bool)
    ensures NumberOdd(2 * half + if low then 1 else 0) == (low != NumberOdd(half))
  {
    var n := 2 * half + if low then 1 else 0;
    assert n / 2 == half && n % 2 == if low then 1 else 0;
    hide NumberOdd;
    NumberOddUnrolled(n);
  }

  lemma NumberOddUnrolled(n: nat)
    ensures NumberOdd(n) == ((n % 2 == 1) != NumberOdd(n / 2))
  {
  }

  function Power(k: nat): (p: nat)
    ensures p > 0
  {
    if k == 0 then 1 else 2 * Power(k - 1)
  }

  lemma LowBitApart(b: nat, p: nat, r: nat)
    ensures 0 <= p * r && (2 * p) * r == 2 * (p * r)
    ensures b + (2 * p) * r == 2 * (b / 2 + p * r) + b % 2
  {
    assert b == 2 * (b / 2) + b % 2;
  }

  /** The low k bits of a number and the rest. */
  lemma {:induction false} NumberJoin(b: byte, k: nat, r: nat)
    requires k <= 8 && Below(b, k)
    ensures 0 <= Power(k) * r
    ensures NumberOdd(b as nat + Power(k) * r) == (OddCount(Bits(b, k)) != NumberOdd(r))
    decreases k
  {
    hide NumberOdd;
    if k == 0 {
    } else {
      var rest := (b / 2) as nat + Power(k - 1) * r;
      NumberJoin(b / 2, k - 1, r);
      assert Bits(b, k)[0] == (b % 2 == 1) && Bits(b, k)[1..] == Bits(b / 2, k - 1);
      NumberOddStep(rest, b % 2 == 1);
      LowBitApart(b as nat, Power(k - 1), r);
    }
  }

  lemma EightBits()
    ensures Power(8) == 256
  {
    assert Power(2) == 4 && Power(4) == 16 && Power(6) == 64;
  }

  /** A little-endian number has the set bits of its bytes. */
  lemma {:induction false} BytesParity(s: seq<byte>)
    ensures OddCount(MessageBits(s)) == NumberOdd(Num(s))
    decreases |s|
  {
    hide Bits, Power, NumberOdd;
    if s == [] {
      assert NumberOdd(0) == false by { NoNumber(); }
    } else {
      EightBits();
      NumberJoin(s[0], 8, Num(s[1..]));
      OddCountConcat(Bits(s[0], 8), MessageBits(s[1..]));
      BytesParity(s[1..]);
    }
  }

  lemma NoNumber()
    ensures !NumberOdd(0)
  {
  }

  /** A message and the little-endian bytes of its checksum together have an even number of set bits. */
  lemma ChecksumBalances(data: seq<byte>, field: seq<byte>)
    requires Num(field) == ChecksumNumber(data)
    ensures OddCount(MessageBits(data)) == OddCount(MessageBits(field))
  {
    hide Checksum, MessageBits, LowOdd, NumberOdd, Num, AsNumber;
    ChecksumParity(data);
    BytesParity(field);
    NothingAbove(Checksum(data));
    RegisterNumber(Checksum(data), 64);
  }
}
