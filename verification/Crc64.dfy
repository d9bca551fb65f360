/**
  CRC-64/XZ as src/common/crc64.c computes it: a 256-entry table filled by
  eight shift-and-xor steps, and one table lookup per message byte.

  The definition it is proved against is schoolbook polynomial long division
  over GF(2) (section 6 of The .xz File Format names the polynomial).
 */
module Crc64 {
  import opened Bytes

  const POLY: bv64 := 0xC96C5795D7870F42
  const ONES: bv64 := 0xFFFF_FFFF_FFFF_FFFF

  // ---------- 64-bit words ----------

  // The operators have names so that proofs can hide them and reason with the laws below.

  function Xor(a: bv64, b: bv64): bv64 { a ^ b }

  function Half(c: bv64): bv64 { c >> 1 }

  function Down8(c: bv64): bv64 { c >> 8 }

  predicate Odd(c: bv64) { c & 1 == 1 }

  lemma XorAssoc(a: bv64, b: bv64, c: bv64)
    ensures Xor(Xor(a, b), c) == Xor(a, Xor(b, c))
  {
    WordXorAssoc(a, b, c);
  }

  lemma WordXorAssoc(a: bv64, b: bv64, c: bv64)
    ensures (a ^ b) ^ c == a ^ (b ^ c)
  {
    hide *;
  }

  lemma XorComm(a: bv64, b: bv64)
    ensures Xor(a, b) == Xor(b, a)
  {
  }

  lemma XorSwap(p: bv64, q: bv64, a: bv64, b: bv64)
    ensures Xor(Xor(p, a), Xor(q, b)) == Xor(Xor(p, q), Xor(a, b))
  {
    XorAssoc(p, a, Xor(q, b));
    XorAssoc(a, q, b);
    XorComm(a, q);
    XorAssoc(q, a, b);
    XorAssoc(p, q, Xor(a, b));
  }

  lemma XorZero(a: bv64)
    ensures Xor(a, 0) == a == Xor(0, a)
  {
  }

  lemma XorSame(a: bv64)
    ensures Xor(a, a) == 0
  {
  }

  lemma XorSelf(a: bv64, b: bv64)
    ensures Xor(a, b) == 0 <==> a == b
  {
    hide Xor;
    XorAssoc(a, b, b);
    XorSame(b);
    XorZero(a);
    XorZero(b);
  }

  // ---------- one step, and eight ----------

  function BitStep(c: bv64): bv64 {
    if c & 1 == 1 then POLY ^ (c >> 1) else c >> 1
  }

  function BitSteps(c: bv64, k: nat): bv64 {
    if k == 0 then c else BitStep(BitSteps(c, k - 1))
  }

  /** What `crc64_init_table` stores at index `c`. */
  function ByteStep(c: bv64): bv64 {
    BitStep(BitStep(BitStep(BitStep(BitStep(BitStep(BitStep(BitStep(c))))))))
  }

  lemma EightSteps(c: bv64)
    ensures BitSteps(c, 8) == ByteStep(c)
  {
    assert BitSteps(c, 0) == c;
    assert BitSteps(c, 1) == BitStep(c);
    var c2 := BitStep(BitStep(c));
    assert BitSteps(c, 2) == c2;
    var c4 := BitStep(BitStep(c2));
    assert BitSteps(c, 3) == BitStep(c2);
    assert BitSteps(c, 4) == c4;
    assert BitSteps(c, 5) == BitStep(c4);
    assert BitSteps(c, 6) == BitStep(BitStep(c4));
    assert BitSteps(c, 7) == BitStep(BitStep(BitStep(c4)));
  }

  function Mask(b: bool): bv64 { if b then POLY else 0 }

  lemma BitStepMask(c: bv64)
    ensures BitStep(c) == Xor(Mask(Odd(c)), Half(c))
  {
    BitStepCases(c);
    hide Xor, Half, Odd, BitStep;
    XorZero(Half(c));
  }

  lemma BitStepCases(c: bv64)
    ensures BitStep(c) == if Odd(c) then Xor(POLY, Half(c)) else Half(c)
  {
  }

  lemma OddXor(x: bv64, y: bv64)
    ensures Odd(Xor(x, y)) == (Odd(x) != Odd(y))
  {
  }

  lemma MaskXor(x: bool, y: bool)
    ensures Mask(x != y) == Xor(Mask(x), Mask(y))
  {
  }

  lemma HalfXor(x: bv64, y: bv64)
    ensures Half(Xor(x, y)) == Xor(Half(x), Half(y))
  {
    assert (x ^ y) >> 1 == (x >> 1) ^ (y >> 1);
  }

  lemma BitStepLinear(x: bv64, y: bv64)
    ensures BitStep(Xor(x, y)) == Xor(BitStep(x), BitStep(y))
  {
    BitStepMask(x);
    BitStepMask(y);
    BitStepMask(Xor(x, y));
    OddXor(x, y);
    MaskXor(Odd(x), Odd(y));
    HalfXor(x, y);
    XorSwap(Mask(Odd(x)), Mask(Odd(y)), Half(x), Half(y));
  }

  lemma {:induction false} BitStepsLinear(x: bv64, y: bv64, k: nat)
    ensures BitSteps(Xor(x, y), k) == Xor(BitSteps(x, k), BitSteps(y, k))
  {
    if k == 0 {
    } else {
      BitStepsLinear(x, y, k - 1);
      BitStepLinear(BitSteps(x, k - 1), BitSteps(y, k - 1));
    }
  }

  /** The step over one byte is linear over GF(2). */
  lemma ByteStepLinear(x: bv64, y: bv64)
    ensures ByteStep(Xor(x, y)) == Xor(ByteStep(x), ByteStep(y))
  {
    BitStepsLinear(x, y, 8);
    EightSteps(x);
    EightSteps(y);
    EightSteps(Xor(x, y));
  }

  // ---------- undoing a step ----------

  function Double(c: bv64): bv64 { c << 1 }

  /** A register whose top bit is clear: doubling loses nothing. */
  predicate TopClear(c: bv64) { c & 0x8000_0000_0000_0000 == 0 }

  /** The polynomial's top bit is set, so the top bit tells whether it was folded in. */
  function BitBack(c: bv64): bv64 {
    if TopClear(c) then Double(c) else Xor(1, Double(Xor(POLY, c)))
  }

  function BitBacks(c: bv64, k: nat): bv64
    decreases k
  {
    if k == 0 then c else BitBacks(BitBack(c), k - 1)
  }

  lemma BackOfStep(c: bv64)
    ensures BitBack(BitStep(c)) == c
  {
  }

  lemma StepOfBack(c: bv64)
    ensures BitStep(BitBack(c)) == c
  {
    hide BitStep, Xor, Half, Double, Odd, TopClear;
    BitStepCases(BitBack(c));
    if TopClear(c) {
      EvenDouble(c);
    } else {
      PolyClearsTop(c);
      OddDouble(Xor(POLY, c));
      XorAssoc(POLY, POLY, c);
      XorSame(POLY);
      XorZero(c);
    }
  }

  lemma EvenDouble(w: bv64)
    requires TopClear(w)
    ensures Half(Double(w)) == w && !Odd(Double(w))
  {
  }

  lemma OddDouble(w: bv64)
    requires TopClear(w)
    ensures Half(Xor(1, Double(w))) == w && Odd(Xor(1, Double(w)))
  {
  }

  lemma PolyClearsTop(c: bv64)
    requires !TopClear(c)
    ensures TopClear(Xor(POLY, c))
  {
  }

  /** Going forward and going back undo each other, over any number of steps. */
  lemma {:induction false} StepsAndBacks(c: bv64, k: nat)
    ensures BitBacks(BitSteps(c, k), k) == c
    ensures BitSteps(BitBacks(c, k), k) == c
    decreases k
  {
    hide BitStep, BitBack;
    if k == 0 {
    } else {
      BackOfStep(BitSteps(c, k - 1));
      StepOfBack(c);
      StepsAndBacks(c, k - 1);
      StepsAndBacks(BitBack(c), k - 1);
    }
  }

  lemma BitStepsInjective(x: bv64, y: bv64, k: nat)
    requires BitSteps(x, k) == BitSteps(y, k)
    ensures x == y
  {
    StepsAndBacks(x, k);
    StepsAndBacks(y, k);
  }

  /** The step over one byte is a bijection on register states: no two states share
      a successor, and every state has a predecessor. */
  lemma ByteStepBijective(x: bv64, y: bv64)
    ensures ByteStep(x) == ByteStep(y) <==> x == y
    ensures ByteStep(BitBacks(y, 8)) == y
  {
    hide BitStep, BitBack;
    EightSteps(x);
    EightSteps(y);
    EightSteps(BitBacks(y, 8));
    StepsAndBacks(y, 8);
    if ByteStep(x) == ByteStep(y) {
      BitStepsInjective(x, y, 8);
    }
  }

  // ---------- the table form ----------

  function Low(c: bv64): bv64 { c & 0xFF }

  function High(c: bv64): bv64 { c & 0xFFFF_FFFF_FFFF_FF00 }

  /** One iteration of the loop in `elfr_crc64`. */
  function Update(c: bv64, b: byte): bv64 {
    Xor(ByteStep(Low(Xor(c, Word(b)))), Down8(c))
  }

  function State(c: bv64, data: seq<byte>): bv64
    decreases |data|
  {
    if data == [] then c else State(Update(c, data[0]), data[1..])
  }

  function Checksum(data: seq<byte>): bv64 {
    Xor(State(ONES, data), ONES)
  }

  lemma {:induction false} WordBounds(b: byte)
    ensures Word(b) <= 255
    ensures b < 128 ==> Word(b) <= 127
    ensures b < 64 ==> Word(b) <= 63
    ensures b < 32 ==> Word(b) <= 31
    ensures b < 16 ==> Word(b) <= 15
    ensures b < 8 ==> Word(b) <= 7
    ensures b < 4 ==> Word(b) <= 3
    ensures b < 2 ==> Word(b) <= 1
    ensures b != 0 ==> Word(b) != 0
    decreases b as int
  {
    if b == 0 {
    } else {
      WordBounds(b / 2);
    }
  }

  lemma DoubledNumber(w: bv64, low: bool)
    requires w <= 127
    ensures ((w << 1) | (if low then 1 else 0)) as int == 2 * (w as int) + (if low then 1 else 0)
  {
  }

  /** Word is the widening conversion. */
  lemma {:induction false} WordIsValue(b: byte)
    ensures Word(b) as int == b as int
    decreases b as int
  {
    if b == 0 {
    } else {
      WordIsValue(b / 2);
      WordBounds(b);
      WordBounds(b / 2);
      DoubledNumber(Word(b / 2), b % 2 == 1);
    }
  }

  lemma WordIsCast(b: byte)
    ensures Word(b) == b as bv64
  {
    hide Word;
    WordIsValue(b);
    WordOfItsNumber(Word(b));
  }

  lemma HighStep(c: bv64)
    ensures ByteStep(High(c)) == c >> 8
  {
  }

  lemma HighOfXorByte(c: bv64, w: bv64)
    requires w <= 255
    ensures High(Xor(c, w)) == High(c)
  {
  }

  lemma SplitWord(c: bv64)
    ensures c == Xor(Low(c), High(c))
  {
  }

  lemma HighShift(c: bv64, d: bv64)
    requires High(c) == High(d)
    ensures c >> 8 == d >> 8
  {
  }

  /** The table lookup is eight bit steps of the register with the byte folded in. */
  lemma UpdateIsByteStep(c: bv64, b: byte)
    ensures Update(c, b) == ByteStep(Xor(c, Word(b)))
  {
    var x := Xor(c, Word(b));
    WordBounds(b);
    HighOfXorByte(c, Word(b));
    HighShift(x, c);
    HighStep(x);
    SplitWord(x);
    ByteStepLinear(Low(x), High(x));
  }

  // ---------- polynomial long division ----------

  function Shifted(c: bv64, k: nat): bv64
    decreases k
  {
    if k == 0 then c else Shifted(Half(c), k - 1)
  }

  predicate Coeff(c: bv64, i: nat) { Odd(Shifted(c, i)) }

  /** The bits of a register, least significant first. In the reflected form
      that is the order of falling exponents. */
  function Coeffs(c: bv64): (r: seq<bool>)
    ensures |r| == 64
  {
    seq(64, i requires 0 <= i < 64 => Coeff(c, i))
  }

  function Bits(b: byte, k: nat): (r: seq<bool>)
    ensures |r| == k
    decreases k
  {
    if k == 0 then [] else [b % 2 == 1] + Bits(b / 2, k - 1)
  }

  /** The message as the coefficients of a polynomial, highest exponent first. */
  function MessageBits(data: seq<byte>): (r: seq<bool>)
    ensures |r| == 8 * |data|
  {
    if data == [] then [] else Bits(data[0], 8) + MessageBits(data[1..])
  }

  function Repeated(v: bool, n: nat): (r: seq<bool>)
    ensures |r| == n
  {
    seq(n, _ => v)
  }

  /** `s` with `p` added, over GF(2), to its first |p| coefficients. */
  function AddToFront(s: seq<bool>, p: seq<bool>): (r: seq<bool>)
    requires |p| <= |s|
    ensures |r| == |s|
  {
    seq(|s|, i requires 0 <= i < |s| => if i < |p| then s[i] != p[i] else s[i])
  }

  /** Long division of `s` by the monic polynomial x^|p| + p: the remainder. */
  function Remainder(s: seq<bool>, p: seq<bool>): seq<bool>
    decreases |s|
  {
    if |s| <= |p| then s
    else Remainder(if s[0] then AddToFront(s[1..], p) else s[1..], p)
  }

  /** The exponents of the generator polynomial of CRC-64/XZ, from ECMA-182. */
  const GENERATOR: set<nat> := {64, 62, 57, 55, 54, 53, 52, 47, 46, 45, 40, 39, 38, 37, 35, 33, 32,
                                31, 29, 27, 24, 23, 22, 21, 19, 17, 13, 12, 10, 9, 7, 4, 1, 0}

  /** Its coefficients below x^64, highest exponent first. */
  function LowTerms(): (r: seq<bool>)
    ensures |r| == 64
  {
    seq(64, i requires 0 <= i < 64 => 63 - i in GENERATOR)
  }

  /** CRC-64/XZ by definition: complement the first 64 bits of M(x) * x^64,
      divide by the generator, complement the remainder. */
  function Definition(data: seq<byte>): seq<bool> {
    var dividend := AddToFront(MessageBits(data) + Repeated(false, 64), Repeated(true, 64));
    var rem := Remainder(dividend, LowTerms());
    seq(|rem|, i requires 0 <= i < |rem| => !rem[i])
  }

  function One(b: bool): bv64 { if b then 1 else 0 }

  function FeedBit(c: bv64, b: bool): bv64 {
    BitStep(Xor(c, One(b)))
  }

  function Feed(c: bv64, bits: seq<bool>): bv64
    decreases |bits|
  {
    if bits == [] then c else Feed(FeedBit(c, bits[0]), bits[1..])
  }

  lemma {:induction false} ShiftedXor(x: bv64, y: bv64, k: nat)
    ensures Shifted(Xor(x, y), k) == Xor(Shifted(x, k), Shifted(y, k))
    decreases k
  {
    if k == 0 {
    } else {
      HalfXor(x, y);
      ShiftedXor(Half(x), Half(y), k - 1);
    }
  }

  lemma CoeffXor(x: bv64, y: bv64, i: nat)
    ensures Coeff(Xor(x, y), i) == (Coeff(x, i) != Coeff(y, i))
  {
    hide Odd, Xor, Shifted;
    ShiftedXor(x, y, i);
    OddXor(Shifted(x, i), Shifted(y, i));
  }

  lemma EightHalves(c: bv64)
    ensures Half(Half(Half(Half(Half(Half(Half(Half(c)))))))) == Down8(c)
  {
  }

  lemma Shifted8(c: bv64, k: nat)
    ensures Shifted(c, k + 8) == Shifted(Down8(c), k)
  {
    var a := Half(Half(Half(Half(c))));
    assert Shifted(c, k + 8) == Shifted(Half(c), k + 7) == Shifted(Half(Half(c)), k + 6);
    assert Shifted(Half(Half(c)), k + 6) == Shifted(Half(Half(Half(c))), k + 5) == Shifted(a, k + 4);
    assert Shifted(a, k + 4) == Shifted(Half(a), k + 3) == Shifted(Half(Half(a)), k + 2);
    assert Shifted(Half(Half(a)), k + 2) == Shifted(Half(Half(Half(a))), k + 1);
    EightHalves(c);
  }

  function Down32(c: bv64): bv64 { c >> 32 }

  lemma FourDowns(c: bv64)
    ensures Down8(Down8(Down8(Down8(c)))) == Down32(c)
  {
  }

  lemma Shifted32(c: bv64, k: nat)
    ensures Shifted(c, k + 32) == Shifted(Down32(c), k)
  {
    Shifted8(c, k + 24);
    Shifted8(Down8(c), k + 16);
    Shifted8(Down8(Down8(c)), k + 8);
    Shifted8(Down8(Down8(Down8(c))), k);
    FourDowns(c);
  }

  lemma TwoDowns(c: bv64)
    ensures Down32(Down32(c)) == 0
  {
  }

  /** Halving clears the top coefficient. */
  lemma TopCoeffOfHalf(c: bv64)
    ensures !Coeff(Half(c), 63)
  {
    Shifted32(c, 32);
    Shifted32(Down32(c), 0);
    TwoDowns(c);
    assert Shifted(c, 64) == Shifted(Half(c), 63);
  }

  lemma FeedBitCases(c: bv64, b: bool)
    ensures FeedBit(c, b) == if Odd(c) != b then Xor(POLY, Half(c)) else Half(c)
  {
    var w := One(b);
    BitStepMask(Xor(c, w));
    OddXor(c, w);
    HalfXor(c, w);
    XorZero(Half(c));
  }

  lemma FirstCoeff(c: bv64)
    ensures Coeff(c, 0) == Odd(c)
  {
  }

  lemma NextCoeff(c: bv64, i: nat)
    ensures Coeff(c, i + 1) == Coeff(Half(c), i)
  {
  }

  lemma DivisionCoeff(bits: seq<bool>, c: bv64, i: nat)
    requires bits != [] && i < |bits| + 63
    ensures var z := Repeated(false, 64);
            var s := AddToFront(bits + z, Coeffs(c));
            AddToFront(bits[1..] + z, Coeffs(FeedBit(c, bits[0])))[i]
            == if s[0] && i < 64 then s[i + 1] != Coeff(POLY, i) else s[i + 1]
  {
    hide Odd, Half, Xor, FeedBit, Shifted, Coeff;
    FirstCoeff(c);
    FeedBitCases(c, bits[0]);
    if i < 64 {
      NextCoeff(c, i);
      CoeffXor(POLY, Half(c), i);
      if i == 63 {
        TopCoeffOfHalf(c);
      }
    }
  }

  lemma DivisionStep(bits: seq<bool>, c: bv64)
    requires bits != []
    ensures var z := Repeated(false, 64);
            var s := AddToFront(bits + z, Coeffs(c));
            var next := AddToFront(bits[1..] + z, Coeffs(FeedBit(c, bits[0])));
            next == if s[0] then AddToFront(s[1..], Coeffs(POLY)) else s[1..]
  {
    hide FeedBit, Coeff;
    forall i: nat | i < |bits| + 63 {
      DivisionCoeff(bits, c, i);
    }
  }

  lemma {:induction false} PolyDivides(bits: seq<bool>, c: bv64)
    ensures Remainder(AddToFront(bits + Repeated(false, 64), Coeffs(c)), Coeffs(POLY)) == Coeffs(Feed(c, bits))
    decreases |bits|
  {
    if bits == [] {
      assert AddToFront([] + Repeated(false, 64), Coeffs(c)) == Coeffs(c);
    } else {
      DivisionStep(bits, c);
      PolyDivides(bits[1..], FeedBit(c, bits[0]));
    }
  }

  /** Feeding bits into the register is long division by the generator, one quotient bit at a time. */
  lemma DivisionIsFeed(bits: seq<bool>, c: bv64)
    ensures Remainder(AddToFront(bits + Repeated(false, 64), Coeffs(c)), LowTerms()) == Coeffs(Feed(c, bits))
  {
    hide Remainder, Feed, Coeffs, LowTerms;
    PolyDivides(bits, c);
    PolyIsGenerator();
  }

  // ---------- the program's constant ----------

  lemma PolyBytes()
    ensures Down8(POLY) == 0xC9_6C57_95D7_870F && Down8(0xC9_6C57_95D7_870F) == 0xC96C_5795_D787
    ensures Down8(0xC96C_5795_D787) == 0xC9_6C57_95D7 && Down8(0xC9_6C57_95D7) == 0xC96C_5795
    ensures Down8(0xC96C_5795) == 0xC9_6C57 && Down8(0xC9_6C57) == 0xC96C && Down8(0xC96C) == 0xC9
  {
  }

  /** POLY shifted down by j bytes. */
  function PolyFrom(j: nat): bv64
    requires j < 8
  {
    if j == 0 then POLY else Down8(PolyFrom(j - 1))
  }

  lemma PolyFromValues()
    ensures PolyFrom(0) == POLY && PolyFrom(1) == 0xC9_6C57_95D7_870F && PolyFrom(2) == 0xC96C_5795_D787
    ensures PolyFrom(3) == 0xC9_6C57_95D7 && PolyFrom(4) == 0xC96C_5795 && PolyFrom(5) == 0xC9_6C57
    ensures PolyFrom(6) == 0xC96C && PolyFrom(7) == 0xC9
  {
    PolyBytes();
    hide Down8;
    assert PolyFrom(1) == Down8(PolyFrom(0)) && PolyFrom(2) == Down8(PolyFrom(1)) && PolyFrom(3) == Down8(PolyFrom(2));
    assert PolyFrom(4) == Down8(PolyFrom(3)) && PolyFrom(5) == Down8(PolyFrom(4)) && PolyFrom(6) == Down8(PolyFrom(5));
    assert PolyFrom(7) == Down8(PolyFrom(6));
  }

  lemma {:induction false} PolyFromCoeff(j: nat, k: nat)
    requires j < 8
    ensures Coeff(POLY, 8 * j + k) == Coeff(PolyFrom(j), k)
    decreases j
  {
    hide Down8, Shifted, Odd;
    if j == 0 {
    } else {
      PolyFromCoeff(j - 1, k + 8);
      Shifted8(PolyFrom(j - 1), k);
    }
  }

  predicate HasBit(c: bv64, k: nat) {
    if k == 0 then c & 1 != 0
    else if k == 1 then c & 2 != 0
    else if k == 2 then c & 4 != 0
    else if k == 3 then c & 8 != 0
    else if k == 4 then c & 16 != 0
    else if k == 5 then c & 32 != 0
    else if k == 6 then c & 64 != 0
    else c & 128 != 0
  }

  lemma ShiftedBits(c: bv64)
    ensures c & 1 != 0 <==> c & 1 == 1
    ensures ((c >> 1) & 1 != 0) == (c & 2 != 0) && ((c >> 1) & 2 != 0) == (c & 4 != 0)
    ensures ((c >> 1) & 4 != 0) == (c & 8 != 0) && ((c >> 1) & 8 != 0) == (c & 16 != 0)
    ensures ((c >> 1) & 16 != 0) == (c & 32 != 0) && ((c >> 1) & 32 != 0) == (c & 64 != 0)
    ensures ((c >> 1) & 64 != 0) == (c & 128 != 0)
  {
    hide *;
  }

  lemma HalfBit(c: bv64, k: nat)
    requires k < 8
    ensures HasBit(c, k) == if k == 0 then Odd(c) else HasBit(Half(c), k - 1)
  {
    ShiftedBits(c);
  }

  lemma {:induction false} LowCoeff(c: bv64, k: nat)
    requires k < 8
    ensures Coeff(c, k) == HasBit(c, k)
    decreases k
  {
    hide Half, Coeff, HasBit, Odd;
    HalfBit(c, k);
    if k == 0 {
      FirstCoeff(c);
    } else {
      NextCoeff(c, k - 1);
      LowCoeff(Half(c), k - 1);
    }
  }

  lemma GeneratorBytes0(k: nat)
    requires k < 8
    ensures HasBit(POLY, k) == (63 - k in GENERATOR)
    ensures HasBit(0xC9_6C57_95D7_870F, k) == (55 - k in GENERATOR)
  {
  }

  lemma GeneratorBytes1(k: nat)
    requires k < 8
    ensures HasBit(0xC96C_5795_D787, k) == (47 - k in GENERATOR)
    ensures HasBit(0xC9_6C57_95D7, k) == (39 - k in GENERATOR)
  {
  }

  lemma GeneratorBytes2(k: nat)
    requires k < 8
    ensures HasBit(0xC96C_5795, k) == (31 - k in GENERATOR)
    ensures HasBit(0xC9_6C57, k) == (23 - k in GENERATOR)
  {
  }

  lemma GeneratorBytes3(k: nat)
    requires k < 8
    ensures HasBit(0xC96C, k) == (15 - k in GENERATOR)
    ensures HasBit(0xC9, k) == (7 - k in GENERATOR)
  {
  }

  lemma GeneratorByte(j: nat, k: nat)
    requires j < 8 && k < 8
    ensures Coeff(PolyFrom(j), k) == (63 - (8 * j + k) in GENERATOR)
  {
    hide Coeff, PolyFrom, HasBit, GENERATOR;
    LowCoeff(PolyFrom(j), k);
    PolyFromValues();
    GeneratorBytes0(k);
    GeneratorBytes1(k);
    GeneratorBytes2(k);
    GeneratorBytes3(k);
  }

  /** The program's constant is the generator, reflected. */
  lemma PolyIsGenerator()
    ensures Coeffs(POLY) == LowTerms()
  {
    hide Coeff, GENERATOR;
    forall i: nat | i < 64
      ensures Coeff(POLY, i) == (63 - i in GENERATOR)
    {
      PolyFromCoeff(i / 8, i % 8);
      GeneratorByte(i / 8, i % 8);
    }
  }

  lemma {:induction false} FeedConcat(c: bv64, u: seq<bool>, v: seq<bool>)
    ensures Feed(c, u + v) == Feed(Feed(c, u), v)
    decreases |u|
  {
    if u == [] {
      assert u + v == v;
    } else {
      assert (u + v)[1..] == u[1..] + v;
      FeedConcat(FeedBit(c, u[0]), u[1..], v);
    }
  }

  lemma {:induction false} BitStepsFirst(c: bv64, k: nat)
    ensures BitSteps(BitStep(c), k) == BitSteps(c, k + 1)
    decreases k
  {
    if k == 0 {
    } else {
      BitStepsFirst(c, k - 1);
    }
  }

  // ---------- up to 64 bits at once ----------

  /** Bits as a register, the first one lowest. */
  function Pack(bits: seq<bool>): bv64 {
    if bits == [] then 0 else Xor(One(bits[0]), Double(Pack(bits[1..])))
  }

  lemma {:induction false} ShiftedMore(c: bv64, k: nat, m: nat)
    ensures Shifted(Shifted(c, k), m) == Shifted(c, k + m)
    decreases k
  {
    if k == 0 {
    } else {
      ShiftedMore(Half(c), k - 1, m);
    }
  }

  lemma {:induction false} ShiftedZero(k: nat)
    ensures Shifted(0, k) == 0
  {
    if k == 0 {
    } else {
      assert Half(0) == 0;
      ShiftedZero(k - 1);
    }
  }

  lemma SevenHalves(c: bv64)
    requires Half(Half(Half(Half(Half(Half(Half(Down8(Down8(Down8(Down32(c))))))))))) == 0
    ensures TopClear(c)
  {
  }

  lemma Shifted7(c: bv64)
    ensures Shifted(c, 7) == Half(Half(Half(Half(Half(Half(Half(c)))))))
  {
    hide Half;
    var c3 := Half(Half(Half(c)));
    assert Shifted(c, 7) == Shifted(Half(c), 6) == Shifted(Half(Half(c)), 5) == Shifted(c3, 4);
    assert Shifted(c3, 4) == Shifted(Half(c3), 3) == Shifted(Half(Half(c3)), 2) == Shifted(Half(Half(Half(c3))), 1);
    assert Shifted(Half(Half(Half(c3))), 1) == Shifted(Half(Half(Half(Half(c3)))), 0);
  }

  /** A register with nothing from bit k on, k <= 63, has a clear top bit. */
  lemma SmallIsTopClear(c: bv64, k: nat)
    requires k <= 63 && Shifted(c, k) == 0
    ensures TopClear(c)
  {
    hide TopClear, Half, Down8, Down32, Shifted;
    ShiftedMore(c, k, 63 - k);
    ShiftedZero(63 - k);
    Shifted32(c, 31);
    var d := Down32(c);
    Shifted8(d, 23);
    Shifted8(Down8(d), 15);
    Shifted8(Down8(Down8(d)), 7);
    Shifted7(Down8(Down8(Down8(d))));
    SevenHalves(c);
  }

  lemma FirstAndRest(w: bv64, b: bool)
    requires TopClear(w)
    ensures Half(Xor(One(b), Double(w))) == w
    ensures Odd(Xor(One(b), Double(w))) == b
  {
    hide Xor, Half, Double, Odd, TopClear;
    EvenDouble(w);
    OddDouble(w);
    XorZero(Double(w));
  }

  lemma {:induction false} PackIsSmall(bits: seq<bool>)
    requires |bits| <= 64
    ensures Shifted(Pack(bits), |bits|) == 0
    decreases |bits|
  {
    hide TopClear, Half, Odd, Xor, Double, One;
    if bits == [] {
    } else {
      var rest := bits[1..];
      PackIsSmall(rest);
      SmallIsTopClear(Pack(rest), |rest|);
      FirstAndRest(Pack(rest), bits[0]);
    }
  }

  lemma PackParts(bits: seq<bool>)
    requires 0 < |bits| <= 64
    ensures TopClear(Pack(bits[1..]))
    ensures Half(Pack(bits)) == Pack(bits[1..])
    ensures Odd(Pack(bits)) == bits[0]
  {
    hide TopClear, Half, Odd, Xor, Double, One;
    PackIsSmall(bits[1..]);
    SmallIsTopClear(Pack(bits[1..]), |bits| - 1);
    FirstAndRest(Pack(bits[1..]), bits[0]);
  }

  lemma {:induction false} PackCoeff(bits: seq<bool>, i: nat)
    requires i < |bits| <= 64
    ensures Coeff(Pack(bits), i) == bits[i]
    decreases |bits|
  {
    hide TopClear, Half, Odd, Xor, Double, One, Coeff, Pack;
    PackParts(bits);
    if i == 0 {
      FirstCoeff(Pack(bits));
    } else {
      NextCoeff(Pack(bits), i - 1);
      PackCoeff(bits[1..], i - 1);
    }
  }

  lemma StepOfDouble(w: bv64)
    requires TopClear(w)
    ensures BitStep(Double(w)) == w
  {
    hide BitStep, Xor, Half, Double, Odd, TopClear;
    BitStepCases(Double(w));
    EvenDouble(w);
  }

  /** Feeding bits one by one is adding them all at once and then stepping. */
  lemma {:induction false} FeedIsSteps(c: bv64, bits: seq<bool>)
    requires |bits| <= 64
    ensures Feed(c, bits) == BitSteps(Xor(c, Pack(bits)), |bits|)
    decreases |bits|
  {
    hide BitStep, TopClear, Half, Odd, Xor, Double, One;
    if bits == [] {
      XorZero(c);
    } else {
      var one, w := One(bits[0]), Pack(bits[1..]);
      PackParts(bits);
      XorAssoc(c, one, Double(w));
      BitStepLinear(Xor(c, one), Double(w));
      StepOfDouble(w);
      FeedIsSteps(FeedBit(c, bits[0]), bits[1..]);
      BitStepsFirst(Xor(c, Pack(bits)), |bits| - 1);
    }
  }

  /** `b` is below 2^k. */
  predicate Below(b: byte, k: nat) {
    k >= 8 || (b as nat) < [1, 2, 4, 8, 16, 32, 64, 128][k]
  }

  lemma WordParts(b: byte)
    requires b != 0
    ensures Word(b) == Xor(One(b % 2 == 1), Double(Word(b / 2)))
  {
    WordBounds(b / 2);
    OrIsXor(Word(b / 2), b % 2 == 1);
  }

  lemma OrIsXor(w: bv64, low: bool)
    ensures (w << 1) | (if low then 1 else 0) == Xor(One(low), Double(w))
  {
  }

  lemma NoWord()
    ensures Xor(One(false), Double(0)) == 0
  {
  }

  lemma {:induction false} WordIsPack(b: byte, k: nat)
    requires k <= 8 && Below(b, k)
    ensures Word(b) == Pack(Bits(b, k))
    decreases k
  {
    hide Xor, Double, One;
    if k == 0 {
    } else {
      WordIsPack(b / 2, k - 1);
      assert Bits(b, k)[1..] == Bits(b / 2, k - 1);
      if b == 0 {
        NoWord();
      } else {
        WordParts(b);
      }
    }
  }

  lemma {:induction false} StateIsFeed(c: bv64, data: seq<byte>)
    ensures State(c, data) == Feed(c, MessageBits(data))
    decreases |data|
  {
    if data == [] {
    } else {
      UpdateIsByteStep(c, data[0]);
      WordIsPack(data[0], 8);
      FeedIsSteps(c, Bits(data[0], 8));
      EightSteps(Xor(c, Word(data[0])));
      FeedConcat(c, Bits(data[0], 8), MessageBits(data[1..]));
      StateIsFeed(Update(c, data[0]), data[1..]);
    }
  }

  /** The 8k low bits. */
  function Limit(k: nat): bv64
    requires k <= 8
  {
    if k == 0 then 0 else (Limit(k - 1) << 8) | 0xFF
  }

  lemma LimitValues()
    ensures Limit(1) == 0xFF && Limit(2) == 0xFFFF && Limit(3) == 0xFF_FFFF && Limit(4) == 0xFFFF_FFFF
    ensures Limit(5) == 0xFF_FFFF_FFFF && Limit(6) == 0xFFFF_FFFF_FFFF
    ensures Limit(7) == 0xFF_FFFF_FFFF_FFFF && Limit(8) == ONES
  {
    assert Limit(0) == 0;
    assert Limit(1) == 0xFF;
    assert Limit(2) == 0xFFFF;
    assert Limit(3) == 0xFF_FFFF;
    assert Limit(4) == 0xFFFF_FFFF;
    assert Limit(5) == 0xFF_FFFF_FFFF;
    assert Limit(6) == 0xFFFF_FFFF_FFFF;
    assert Limit(7) == 0xFF_FFFF_FFFF_FFFF;
  }

  lemma LimitDown(k: nat)
    requires 0 < k <= 8
    ensures Down8(Limit(k)) == Limit(k - 1)
  {
    LimitValues();
  }

  lemma LowByteCoeff(c: bv64, i: nat)
    requires i < 8 && Low(c) == 0xFF
    ensures Coeff(c, i)
  {
    var c1 := Half(c);
    var c2 := Half(c1);
    var c3 := Half(c2);
    var c4 := Half(c3);
    var c5 := Half(c4);
    var c6 := Half(c5);
    assert Shifted(c, 2) == c2;
    assert Shifted(c, 3) == Shifted(c1, 2) == c3;
    assert Shifted(c, 4) == Shifted(c2, 2) == c4;
    assert Shifted(c, 5) == Shifted(c3, 2) == c5;
    assert Shifted(c, 6) == Shifted(c4, 2) == c6;
    assert Shifted(c, 7) == Shifted(c5, 2) == Half(c6);
  }

  lemma {:induction false} LimitCoeff(k: nat, i: nat)
    requires k <= 8 && i < 8 * k
    ensures Coeff(Limit(k), i)
  {
    if i < 8 {
      assert Low(Limit(k)) == 0xFF;
      LowByteCoeff(Limit(k), i);
    } else {
      Shifted8(Limit(k), i - 8);
      LimitDown(k);
      LimitCoeff(k - 1, i - 8);
    }
  }

  /** The table-driven checksum is CRC-64/XZ: the long division of the message. */
  lemma ChecksumIsLongDivision(data: seq<byte>)
    ensures Coeffs(Checksum(data)) == Definition(data)
  {
    var r := State(ONES, data);
    forall i | 0 <= i < 64
      ensures Coeff(ONES, i) && Coeff(Xor(r, ONES), i) == !Coeff(r, i)
    {
      LimitValues();
      LimitCoeff(8, i);
      CoeffXor(r, ONES, i);
    }
    assert Coeffs(ONES) == Repeated(true, 64);
    StateIsFeed(ONES, data);
    DivisionIsFeed(MessageBits(data), ONES);
  }

  // ---------- what the checksum detects ----------

  function XorBits(u: seq<bool>, v: seq<bool>): (r: seq<bool>)
    requires |u| == |v|
    ensures |r| == |u|
  {
    seq(|u|, i requires 0 <= i < |u| => u[i] != v[i])
  }

  lemma OneXor(p: bool, q: bool)
    ensures Xor(One(p), One(q)) == One(p != q)
  {
  }

  lemma FeedBitLinear(c: bv64, d: bv64, p: bool, q: bool)
    ensures Xor(FeedBit(c, p), FeedBit(d, q)) == FeedBit(Xor(c, d), p != q)
  {
    hide BitStep, Xor, One;
    BitStepLinear(Xor(c, One(p)), Xor(d, One(q)));
    XorSwap(c, d, One(p), One(q));
    OneXor(p, q);
  }

  /** The register is linear over GF(2) in its start and in the bits fed. */
  lemma {:induction false} FeedLinear(c: bv64, d: bv64, u: seq<bool>, v: seq<bool>)
    requires |u| == |v|
    ensures Xor(Feed(c, u), Feed(d, v)) == Feed(Xor(c, d), XorBits(u, v))
    decreases |u|
  {
    hide FeedBit, Xor;
    if u == [] {
    } else {
      FeedBitLinear(c, d, u[0], v[0]);
      assert XorBits(u, v)[1..] == XorBits(u[1..], v[1..]);
      FeedLinear(FeedBit(c, u[0]), FeedBit(d, v[0]), u[1..], v[1..]);
    }
  }

  lemma ZeroStep(c: bv64)
    ensures BitStep(c) == 0 <==> c == 0
  {
    hide BitStep, BitBack;
    BackOfStep(c);
    BackOfStep(0);
    assert BitStep(0) == 0 by { StepOfZero(); }
  }

  lemma StepOfZero()
    ensures BitStep(0) == 0
  {
  }

  lemma {:induction false} ZeroSteps(k: nat)
    ensures BitSteps(0, k) == 0
  {
    if k == 0 {
    } else {
      ZeroSteps(k - 1);
      StepOfZero();
    }
  }

  predicate AllClear(bits: seq<bool>) {
    forall i :: 0 <= i < |bits| ==> !bits[i]
  }

  lemma {:induction false} FeedClear(c: bv64, bits: seq<bool>)
    requires AllClear(bits)
    ensures Feed(c, bits) == 0 <==> c == 0
    decreases |bits|
  {
    hide BitStep;
    if bits == [] {
    } else {
      XorZero(c);
      ZeroStep(c);
      FeedClear(FeedBit(c, bits[0]), bits[1..]);
    }
  }

  /** From a clear register, at most 64 bits lead back to it only if all are clear. */
  lemma BlockInjective(bits: seq<bool>)
    requires |bits| <= 64 && Feed(0, bits) == 0
    ensures AllClear(bits)
  {
    hide BitStep, BitSteps, Pack, Xor, Coeff;
    FeedIsSteps(0, bits);
    XorZero(Pack(bits));
    ZeroSteps(|bits|);
    BitStepsInjective(Pack(bits), 0, |bits|);
    forall i | 0 <= i < |bits|
      ensures !bits[i]
    {
      PackCoeff(bits, i);
      ZeroCoeff(i);
    }
  }

  lemma ZeroCoeff(i: nat)
    ensures !Coeff(0, i)
  {
    ShiftedZero(i);
  }

  // ---------- messages that differ ----------

  lemma {:induction false} MessageBitAt(data: seq<byte>, i: nat)
    requires i < 8 * |data|
    ensures MessageBits(data)[i] == Bits(data[i / 8], 8)[i % 8]
    decreases |data|
  {
    hide Bits;
    if i >= 8 {
      MessageBitAt(data[1..], i - 8);
    }
  }

  lemma {:induction false} BitsInjective(a: byte, b: byte, k: nat)
    requires k <= 8 && Below(a, k) && Below(b, k) && Bits(a, k) == Bits(b, k)
    ensures a == b
    decreases k
  {
    if k == 0 {
    } else {
      assert Bits(a, k)[0] == (a % 2 == 1) && Bits(b, k)[0] == (b % 2 == 1);
      assert Bits(a, k)[1..] == Bits(a / 2, k - 1) && Bits(b, k)[1..] == Bits(b / 2, k - 1);
      BitsInjective(a / 2, b / 2, k - 1);
    }
  }

  lemma {:induction false} MessageBitsInjective(a: seq<byte>, b: seq<byte>)
    requires MessageBits(a) == MessageBits(b)
    ensures a == b
    decreases |a|
  {
    hide Bits;
    assert |a| == |b|;
    if a == [] {
    } else {
      assert Bits(a[0], 8) == MessageBits(a)[..8] == MessageBits(b)[..8] == Bits(b[0], 8);
      BitsInjective(a[0], b[0], 8);
      assert MessageBits(a[1..]) == MessageBits(a)[8..] == MessageBits(b)[8..] == MessageBits(b[1..]);
      MessageBitsInjective(a[1..], b[1..]);
      assert a == [a[0]] + a[1..] && b == [b[0]] + b[1..];
    }
  }

  /** `a` and `b` have one length and agree outside the `w` bytes from `p` on. */
  predicate AgreeOutside(a: seq<byte>, b: seq<byte>, p: nat, w: nat) {
    |a| == |b| && forall i :: 0 <= i < |a| && !(p <= i < p + w) ==> a[i] == b[i]
  }

  /** The same for single bits, in the order they are sent: byte by byte, least significant first. */
  predicate BitsAgreeOutside(a: seq<byte>, b: seq<byte>, p: nat, w: nat) {
    |a| == |b| && forall i :: 0 <= i < 8 * |a| && !(p <= i < p + w) ==> MessageBits(a)[i] == MessageBits(b)[i]
  }

  lemma BytesAgreeBitsAgree(a: seq<byte>, b: seq<byte>, p: nat, w: nat)
    requires AgreeOutside(a, b, p, w)
    ensures BitsAgreeOutside(a, b, 8 * p, 8 * w)
  {
    hide Bits, MessageBits;
    forall i | 0 <= i < 8 * |a| && !(8 * p <= i < 8 * p + 8 * w)
      ensures MessageBits(a)[i] == MessageBits(b)[i]
    {
      MessageBitAt(a, i);
      MessageBitAt(b, i);
      assert a[i / 8] == b[i / 8];
    }
  }

  lemma BurstSplits(e: seq<bool>, p: nat, q: nat)
    requires p <= q <= |e|
    requires forall i :: 0 <= i < |e| && !(p <= i < q) ==> !e[i]
    ensures Feed(0, e) == 0 <==> Feed(0, e[p..q]) == 0
  {
    hide Feed;
    assert e == (e[..p] + e[p..q]) + e[q..];
    FeedConcat(0, e[..p] + e[p..q], e[q..]);
    FeedConcat(0, e[..p], e[p..q]);
    FeedClear(0, e[..p]);
    FeedClear(Feed(0, e[p..q]), e[q..]);
  }

  lemma DifferenceOfStates(c: bv64, a: seq<byte>, b: seq<byte>)
    requires |a| == |b|
    ensures State(c, a) == State(c, b) <==> Feed(0, XorBits(MessageBits(a), MessageBits(b))) == 0
  {
    hide Xor, State, Feed, MessageBits;
    StateIsFeed(c, a);
    StateIsFeed(c, b);
    FeedLinear(c, c, MessageBits(a), MessageBits(b));
    XorSelf(c, c);
    XorSelf(State(c, a), State(c, b));
  }

  lemma BurstIsNonzero(e: seq<bool>, p: nat, q: nat, i: nat)
    requires p <= i < q <= |e| && q <= p + 64 && e[i]
    requires forall k :: 0 <= k < |e| && !(p <= k < q) ==> !e[k]
    ensures Feed(0, e) != 0
  {
    hide Feed;
    BurstSplits(e, p, q);
    assert e[p..q][i - p];
    if Feed(0, e[p..q]) == 0 {
      BlockInjective(e[p..q]);
    }
  }

  lemma BurstChangesState(c: bv64, a: seq<byte>, b: seq<byte>, p: nat)
    requires BitsAgreeOutside(a, b, p, 64) && a != b
    ensures State(c, a) != State(c, b)
  {
    hide State, Feed, MessageBits;
    var u, v := MessageBits(a), MessageBits(b);
    var e := XorBits(u, v);
    var q := if p + 64 <= |e| then p + 64 else |e|;
    DifferenceOfStates(c, a, b);
    if u == v {
      MessageBitsInjective(a, b);
    }
    var i :| 0 <= i < |u| && u[i] != v[i];
    BurstIsNonzero(e, p, q, i);
  }

  lemma NumberOfWord(x: bv64, y: bv64)
    requires AsNumber(x) == AsNumber(y)
    ensures x == y
  {
    WordOfItsNumber(x);
    WordOfItsNumber(y);
  }

  lemma WordOfItsNumber(x: bv64)
    ensures x as nat as bv64 == x
  {
    hide *;
  }

  lemma ComplementInjective(x: bv64, y: bv64)
    requires Xor(x, ONES) == Xor(y, ONES)
    ensures x == y
  {
    XorAssoc(x, ONES, ONES);
    XorZero(x);
    XorAssoc(y, ONES, ONES);
    XorSelf(ONES, ONES);
    XorZero(y);
  }

  function AsNumber(crc: bv64): u64 {
    crc as nat
  }

  /** The checksum as the number the container stores. */
  function ChecksumNumber(data: seq<byte>): u64 {
    AsNumber(Checksum(data))
  }

  /** Any change confined to 64 consecutive bits, wherever they start, changes the checksum. */
  lemma BurstChangesChecksum(a: seq<byte>, b: seq<byte>, p: nat)
    requires BitsAgreeOutside(a, b, p, 64) && a != b
    ensures ChecksumNumber(a) != ChecksumNumber(b)
  {
    hide Xor, State, MessageBits;
    BurstChangesState(ONES, a, b, p);
    if ChecksumNumber(a) == ChecksumNumber(b) {
      NumberOfWord(Checksum(a), Checksum(b));
      ComplementInjective(State(ONES, a), State(ONES, b));
    }
  }

  lemma BitOfWord(b: byte, k: nat)
    requires k < 8
    ensures Bits(b, 8)[k] == Coeff(Word(b), k)
  {
    hide Pack, Bits, Word, Coeff;
    WordIsPack(b, 8);
    PackCoeff(Bits(b, 8), k);
  }

  lemma BitsCancel(a: byte, b: byte, c: byte, d: byte, k: nat)
    requires k < 8 && Word(d) == Xor(Xor(Word(a), Word(b)), Word(c))
    ensures Bits(d, 8)[k] == ((Bits(a, 8)[k] != Bits(b, 8)[k]) != Bits(c, 8)[k])
  {
    hide Bits, Word, Coeff, Xor;
    BitOfWord(a, k);
    BitOfWord(b, k);
    BitOfWord(c, k);
    BitOfWord(d, k);
    CoeffXor(Word(a), Word(b), k);
    CoeffXor(Xor(Word(a), Word(b)), Word(c), k);
  }

  lemma MessagesCancel(a: seq<byte>, b: seq<byte>, c: seq<byte>, d: seq<byte>)
    requires |a| == |b| == |c| == |d|
    requires forall i :: 0 <= i < |a| ==> Word(d[i]) == Xor(Xor(Word(a[i]), Word(b[i])), Word(c[i]))
    ensures MessageBits(d) == XorBits(XorBits(MessageBits(a), MessageBits(b)), MessageBits(c))
  {
    hide MessageBits, Bits, Word, Xor;
    forall i | 0 <= i < 8 * |a|
      ensures MessageBits(d)[i] == ((MessageBits(a)[i] != MessageBits(b)[i]) != MessageBits(c)[i])
    {
      MessageBitAt(a, i);
      MessageBitAt(b, i);
      MessageBitAt(c, i);
      MessageBitAt(d, i);
      BitsCancel(a[i / 8], b[i / 8], c[i / 8], d[i / 8], i % 8);
    }
  }

  /** The checksum is affine: over four messages that cancel byte by byte, so do their checksums. */
  lemma ChecksumAffine(a: seq<byte>, b: seq<byte>, c: seq<byte>, d: seq<byte>)
    requires |a| == |b| == |c| == |d|
    requires forall i :: 0 <= i < |a| ==> Word(d[i]) == Xor(Xor(Word(a[i]), Word(b[i])), Word(c[i]))
    ensures Checksum(d) == Xor(Xor(Checksum(a), Checksum(b)), Checksum(c))
  {
    hide Xor, Word, MessageBits, Feed, State;
    var u, v, w := MessageBits(a), MessageBits(b), MessageBits(c);
    StateIsFeed(ONES, a);
    StateIsFeed(ONES, b);
    StateIsFeed(ONES, c);
    StateIsFeed(ONES, d);
    MessagesCancel(a, b, c, d);
    FeedLinear(ONES, ONES, u, v);
    FeedLinear(Xor(ONES, ONES), ONES, XorBits(u, v), w);
    XorSelf(ONES, ONES);
    XorZero(ONES);
    var x, y, z := State(ONES, a), State(ONES, b), State(ONES, c);
    XorSwap(x, y, ONES, ONES);
    XorZero(Xor(x, y));
    assert Xor(Checksum(a), Checksum(b)) == Xor(x, y);
    XorAssoc(Xor(x, y), z, ONES);
  }

  // ---------- every checksum occurs ----------

  function CoeffsUpTo(c: bv64, k: nat): (r: seq<bool>)
    ensures |r| == k
  {
    seq(k, i requires 0 <= i < k => Coeff(c, i))
  }

  lemma JoinHalf(c: bv64)
    ensures Xor(One(Odd(c)), Double(Half(c))) == c
  {
  }

  lemma {:induction false} PackOfCoeffs(c: bv64, k: nat)
    requires Shifted(c, k) == 0
    ensures Pack(CoeffsUpTo(c, k)) == c
    decreases k
  {
    hide Coeff, Xor, One, Odd, Double, Half;
    if k == 0 {
    } else {
      var bits := CoeffsUpTo(c, k);
      FirstCoeff(c);
      forall i: nat | i < k - 1
        ensures Coeff(c, i + 1) == Coeff(Half(c), i)
      {
        NextCoeff(c, i);
      }
      assert bits[1..] == CoeffsUpTo(Half(c), k - 1);
      PackOfCoeffs(Half(c), k - 1);
      JoinHalf(c);
    }
  }

  lemma NothingAbove(c: bv64)
    ensures Shifted(c, 64) == 0
  {
    Shifted32(c, 32);
    Shifted32(Down32(c), 0);
    TwoDowns(c);
  }

  /** The byte with the given low bits, the first one lowest. */
  function ByteOf(bits: seq<bool>): (r: byte)
    requires |bits| <= 8
    ensures Below(r, |bits|)
  {
    if bits == [] then 0 else 2 * ByteOf(bits[1..]) + (if bits[0] then 1 else 0)
  }

  lemma {:induction false} BitsOfByteOf(bits: seq<bool>)
    requires |bits| <= 8
    ensures Bits(ByteOf(bits), |bits|) == bits
    decreases |bits|
  {
    if bits == [] {
    } else {
      var b, rest := ByteOf(bits), ByteOf(bits[1..]);
      assert b / 2 == rest && b % 2 == if bits[0] then 1 else 0;
      BitsOfByteOf(bits[1..]);
    }
  }

  function BytesOf(bits: seq<bool>, n: nat): (r: seq<byte>)
    requires |bits| == 8 * n
    ensures |r| == n
  {
    if n == 0 then [] else [ByteOf(bits[..8])] + BytesOf(bits[8..], n - 1)
  }

  lemma {:induction false} BitsOfBytesOf(bits: seq<bool>, n: nat)
    requires |bits| == 8 * n
    ensures MessageBits(BytesOf(bits, n)) == bits
  {
    hide ByteOf, Bits, MessageBits;
    if n == 0 {
      NoMessageBits();
    } else {
      var first, rest := bits[..8], bits[8..];
      BitsOfByteOf(first);
      BitsOfBytesOf(rest, n - 1);
      MessageBitsCons(ByteOf(first), BytesOf(rest, n - 1));
      assert bits == first + rest;
    }
  }

  lemma NoMessageBits()
    ensures MessageBits([]) == []
  {
  }

  lemma MessageBitsCons(b: byte, rest: seq<byte>)
    ensures MessageBits([b] + rest) == Bits(b, 8) + MessageBits(rest)
  {
    hide Bits;
    assert ([b] + rest)[1..] == rest;
  }

  /** Some eight bytes lead from any state to any other. */
  lemma BlockReaches(c: bv64, target: bv64)
    ensures exists u: seq<byte> :: |u| == 8 && State(c, u) == target
  {
    hide Xor, Feed, State, BitSteps, BitBacks, Pack, MessageBits, BytesOf, Coeff;
    var before := BitBacks(target, 64);
    var bits := CoeffsUpTo(Xor(c, before), 64);
    var u := BytesOf(bits, 8);
    BitsOfBytesOf(bits, 8);
    StateIsFeed(c, u);
    FeedIsSteps(c, bits);
    NothingAbove(Xor(c, before));
    PackOfCoeffs(Xor(c, before), 64);
    XorAssoc(c, c, before);
    XorSame(c);
    XorZero(before);
    StepsAndBacks(target, 64);
    assert State(c, u) == target;
  }

  lemma {:induction false} StateConcat(c: bv64, s: seq<byte>, t: seq<byte>)
    ensures State(c, s + t) == State(State(c, s), t)
    decreases |s|
  {
    hide Update;
    if s == [] {
      assert s + t == t;
    } else {
      assert (s + t)[1..] == s[1..] + t;
      StateConcat(Update(c, s[0]), s[1..], t);
    }
  }

  /** Whatever precedes them, some eight bytes give any wanted checksum. */
  lemma EveryChecksumOccurs(data: seq<byte>, x: bv64)
    ensures exists u: seq<byte> :: |u| == 8 && Checksum(data + u) == x
  {
    hide Xor, State;
    var c, y := State(ONES, data), Xor(x, ONES);
    BlockReaches(c, y);
    var u: seq<byte> :| |u| == 8 && State(c, u) == y;
    StateConcat(ONES, data, u);
    XorAssoc(x, ONES, ONES);
    XorSame(ONES);
    XorZero(x);
    assert Checksum(data + u) == x;
  }

  // ---------- check value ----------

  lemma DigitWords()
    ensures Word(0x31) == 0x31 && Word(0x32) == 0x32 && Word(0x33) == 0x33 && Word(0x34) == 0x34 && Word(0x35) == 0x35
    ensures Word(0x36) == 0x36 && Word(0x37) == 0x37 && Word(0x38) == 0x38 && Word(0x39) == 0x39
  {
    assert Word(1) == 1 && Word(3) == 3 && Word(6) == 6 && Word(7) == 7;
    assert Word(12) == 12 && Word(13) == 13 && Word(14) == 14;
    assert Word(24) == 24 && Word(25) == 25 && Word(26) == 26 && Word(27) == 27 && Word(28) == 28;
  }

  lemma FirstDigits()
    ensures Update(ONES, 0x31) == 0xD5D0F17A6B6A3512
    ensures Update(0xD5D0F17A6B6A3512, 0x32) == 0xFBE29281D80DA6A7
    ensures Update(0xFBE29281D80DA6A7, 0x33) == 0xCFDCD7BBF8E33A9E
  {
    hide Word;
    DigitWords();
  }

  lemma MiddleDigits()
    ensures Update(0xCFDCD7BBF8E33A9E, 0x34) == 0x31B1786C99473CD7
    ensures Update(0x31B1786C99473CD7, 0x35) == 0xA258B9005AFBA316
    ensures Update(0xA258B9005AFBA316, 0x36) == 0xFB951AC9A23C3731
  {
    hide Word;
    DigitWords();
  }

  lemma LastDigits()
    ensures Update(0xFB951AC9A23C3731, 0x37) == 0x8FAF60C99E6DC25F
    ensures Update(0x8FAF60C99E6DC25F, 0x38) == 0xA3747FB7D45387F6
    ensures Update(0xA3747FB7D45387F6, 0x39) == 0x66A2364420E6C605
  {
    hide Word;
    DigitWords();
  }

  lemma ThreeBytes(c: bv64, x: byte, y: byte, z: byte)
    ensures State(c, [x, y, z]) == Update(Update(Update(c, x), y), z)
  {
    hide Update;
    var c1 := Update(c, x);
    assert [x, y, z][1..] == [y, z] && [y, z][1..] == [z] && [z][1..] == [];
    assert State(c, [x, y, z]) == State(c1, [y, z]) == State(Update(c1, y), [z]);
    assert State(Update(Update(c1, y), z), []) == Update(Update(c1, y), z);
  }

  lemma Complemented()
    ensures Xor(0x66A2364420E6C605, ONES) == 0x995DC9BBDF1939FA
  {
  }

  /** The published check value: CRC-64/XZ of the ASCII digits 1 to 9. */
  lemma CheckValue()
    ensures Checksum([0x31, 0x32, 0x33] + [0x34, 0x35, 0x36] + [0x37, 0x38, 0x39]) == 0x995DC9BBDF1939FA
  {
    hide Update, State, Xor, ONES;
    var a, b, c: seq<byte> := [0x31, 0x32, 0x33], [0x34, 0x35, 0x36], [0x37, 0x38, 0x39];
    FirstDigits();
    MiddleDigits();
    LastDigits();
    StateConcat(ONES, a + b, c);
    StateConcat(ONES, a, b);
    ThreeBytes(ONES, 0x31, 0x32, 0x33);
    ThreeBytes(0xCFDCD7BBF8E33A9E, 0x34, 0x35, 0x36);
    ThreeBytes(0xFB951AC9A23C3731, 0x37, 0x38, 0x39);
    Complemented();
  }

  // ---------- the program ----------

  /** The static table once the constructor has run. */
  ghost predicate TableReady(table: array<bv64>)
    reads table
  {
    table.Length == 256 && forall i :: 0 <= i < 256 ==> table[i] == ByteStep(i as bv64)
  }

  /** `crc64_init_table` */
  method InitTable() returns (table: array<bv64>)
    ensures fresh(table) && TableReady(table)
  {
    hide BitStep, ByteStep;
    table := new bv64[256];
    for i := 0 to 256
      invariant forall j :: 0 <= j < i ==> table[j] == ByteStep(j as bv64)
    {
      var c: bv64 := i as bv64;
      for k := 0 to 8
        invariant c == BitSteps(i as bv64, k)
      {
        c := BitStep(c);
      }
      EightSteps(i as bv64);
      table[i] := c;
    }
  }

  lemma IndexOfLow(c: bv64)
    ensures Low(c) as int < 256
    ensures Low(c) as int as bv64 == Low(c)
  {
  }

  /** `elfr_crc64` */
  method ComputeCrc64(table: array<bv64>, data: seq<byte>) returns (crc: bv64)
    requires TableReady(table)
    ensures crc == Checksum(data)
  {
    hide Xor, Low, Word, ByteStep, Down8;
    crc := ONES;
    for i := 0 to |data|
      invariant State(crc, data[i..]) == State(ONES, data)
    {
      var c := Low(Xor(crc, Word(data[i])));
      IndexOfLow(Xor(crc, Word(data[i])));
      crc := Xor(table[c as int], Down8(crc));
    }
    crc := Xor(crc, ONES);
  }
}
