/**
  Bytes, fixed-width little-endian numbers, and the placement of one byte
  string inside another. Everything the writer and the reader share about raw
  memory is here.
 */
module Bytes {

  newtype byte = x: int | 0 <= x < 256

  const TWO16: nat := 0x1_0000
  const TWO32: nat := 0x1_0000_0000
  const TWO64: nat := 0x1_0000_0000_0000_0000

  type u16 = x: nat | x < 0x1_0000
  type u32 = x: nat | x < 0x1_0000_0000
  type u64 = x: nat | x < 0x1_0000_0000_0000_0000

  datatype Option<+T> = None | Some(value: T)

  /** What a char pointer to a string can hand over. */
  type CString = s: seq<byte> | 0 !in s

  /** `len` zero bytes, as memset writes them. */
  function Zeros(len: nat): (r: seq<byte>)
    ensures |r| == len
  {
    seq(len, _ => 0)
  }

  // ---------- little-endian numbers ----------

  function Pow256(k: nat): (p: nat)
    ensures p > 0
  {
    if k == 0 then 1 else 256 * Pow256(k - 1)
  }

  /** The low `k` bytes of `n`, least significant first. */
  function LE(n: nat, k: nat): (r: seq<byte>)
    ensures |r| == k
    decreases k
  {
    if k == 0 then [] else [(n % 256) as byte] + LE(n / 256, k - 1)
  }

  /** The number a little-endian byte string stands for. */
  function Num(s: seq<byte>): nat {
    if s == [] then 0 else s[0] as nat + 256 * Num(s[1..])
  }

  lemma {:induction false} NumOfLE(n: nat, k: nat)
    requires n < Pow256(k)
    ensures Num(LE(n, k)) == n
    decreases k
  {
    if k == 0 {
    } else {
      NumOfLE(n / 256, k - 1);
      assert LE(n, k)[1..] == LE(n / 256, k - 1);
    }
  }

  lemma {:induction false} NumBound(s: seq<byte>)
    ensures Num(s) < Pow256(|s|)
  {
    if s == [] {
    } else {
      NumBound(s[1..]);
    }
  }

  lemma {:induction false} LEOfNum(s: seq<byte>)
    ensures LE(Num(s), |s|) == s
  {
    if s == [] {
    } else {
      LEOfNum(s[1..]);
      assert s == [s[0]] + s[1..];
    }
  }

  lemma Widths()
    ensures Pow256(1) == 256 && Pow256(2) == TWO16 && Pow256(4) == TWO32 && Pow256(8) == TWO64
  {
    assert Pow256(3) == 256 * Pow256(2);
    assert Pow256(5) == 256 * Pow256(4);
    assert Pow256(6) == 256 * Pow256(5);
    assert Pow256(7) == 256 * Pow256(6);
  }

  // ---------- machine words ----------

  /** A byte widened to 64 bits. */
  function Word(b: byte): bv64
    decreases b as int
  {
    if b == 0 then 0 else (Word(b / 2) << 1) | (if b % 2 == 1 then 1 else 0)
  }

  // ---------- products ----------

  lemma MulMono(a: nat, c: nat, b: nat)
    requires a <= c
    ensures 0 <= a * b <= c * b
  {
    assert c * b == a * b + (c - a) * b;
  }

  lemma MulNext(i: nat, k: nat)
    ensures (i + 1) * k == i * k + k && 0 <= i * k
  {
  }

  // ---------- one byte string inside another ----------

  /** The bytes of `s` lie in `b` from `off` on. */
  predicate Placed(b: seq<byte>, off: nat, s: seq<byte>) {
    off + |s| <= |b| && b[off..off + |s|] == s
  }

  lemma PlacedTrans(b: seq<byte>, off: nat, s: seq<byte>, o: nat, t: seq<byte>)
    requires Placed(b, off, s) && Placed(s, o, t)
    ensures Placed(b, off + o, t)
  {
    forall i | 0 <= i < |t|
      ensures b[off + o + i] == t[i]
    {
      assert b[off + (o + i)] == b[off..off + |s|][o + i] == s[o + i] == s[o..o + |t|][i];
    }
  }

  lemma PlacedAfter(x: seq<byte>, y: seq<byte>, z: seq<byte>)
    ensures Placed(x + y + z, |x|, y)
  {
  }

  lemma PlacedPart(b: seq<byte>, off: nat, x: seq<byte>, y: seq<byte>, z: seq<byte>)
    requires Placed(b, off, x + y + z)
    ensures Placed(b, off + |x|, y)
  {
    PlacedAfter(x, y, z);
    PlacedTrans(b, off, x + y + z, |x|, y);
  }

  // ---------- arrays of equal-sized records ----------

  function Flatten(blocks: seq<seq<byte>>): seq<byte> {
    if blocks == [] then [] else blocks[0] + Flatten(blocks[1..])
  }

  lemma {:induction false} FlattenLength(blocks: seq<seq<byte>>, k: nat)
    requires forall i :: 0 <= i < |blocks| ==> |blocks[i]| == k
    ensures |Flatten(blocks)| == |blocks| * k
  {
    if blocks == [] {
    } else {
      FlattenLength(blocks[1..], k);
    }
  }

  lemma {:induction false} FlattenAt(blocks: seq<seq<byte>>, k: nat, i: nat)
    requires forall j :: 0 <= j < |blocks| ==> |blocks[j]| == k
    requires i < |blocks|
    ensures 0 <= i * k && Placed(Flatten(blocks), i * k, blocks[i])
  {
    var rest := blocks[1..];
    if i == 0 {
    } else {
      FlattenAt(rest, k, i - 1);
      assert i * k == k + (i - 1) * k;
      assert Placed(blocks[0] + Flatten(rest), k, Flatten(rest));
      PlacedTrans(Flatten(blocks), k, Flatten(rest), (i - 1) * k, rest[i - 1]);
    }
  }

  /** The numbers of `vals`, each in `k` little-endian bytes. */
  function Nums(vals: seq<nat>, k: nat): (r: seq<byte>)
    ensures |r| == |vals| * k
  {
    if vals == [] then [] else LE(vals[0], k) + Nums(vals[1..], k)
  }

  lemma {:induction false} NumsAt(vals: seq<nat>, k: nat, i: nat)
    requires i < |vals|
    ensures 0 <= i * k && Placed(Nums(vals, k), i * k, LE(vals[i], k))
    decreases i
  {
    var rest := vals[1..];
    if i == 0 {
    } else {
      NumsAt(rest, k, i - 1);
      assert i * k == k + (i - 1) * k;
      assert Placed(LE(vals[0], k) + Nums(rest, k), k, Nums(rest, k));
      PlacedTrans(Nums(vals, k), k, Nums(rest, k), (i - 1) * k, LE(rest[i - 1], k));
    }
  }

  lemma ReadNum(b: seq<byte>, off: nat, n: nat, k: nat)
    requires Placed(b, off, LE(n, k)) && n < Pow256(k)
    ensures Num(b[off..off + k]) == n
  {
    NumOfLE(n, k);
  }

  lemma PlacedInside(b: seq<byte>, off: nat, s: seq<byte>)
    requires Placed(b, off, s)
    ensures off + |s| <= |b|
  {
  }

  lemma ReadNums(b: seq<byte>, off: nat, vals: seq<nat>, k: nat, i: nat)
    requires Placed(b, off, Nums(vals, k)) && i < |vals| && vals[i] < Pow256(k)
    ensures 0 <= i * k && off + i * k + k <= |b| && Num(b[off + i * k..off + i * k + k]) == vals[i]
  {
    hide Nums, LE, Num, Pow256, Placed;
    NumsAt(vals, k, i);
    PlacedTrans(b, off, Nums(vals, k), i * k, LE(vals[i], k));
    PlacedInside(b, off + i * k, LE(vals[i], k));
    ReadNum(b, off + i * k, vals[i], k);
  }

  // ---------- reads at an offset, as memcpy into a field does ----------

  function U16At(b: seq<byte>, off: nat): u16
    requires off + 2 <= |b|
  {
    NumBound(b[off..off + 2]);
    Widths();
    Num(b[off..off + 2])
  }

  function U32At(b: seq<byte>, off: nat): u32
    requires off + 4 <= |b|
  {
    NumBound(b[off..off + 4]);
    Widths();
    Num(b[off..off + 4])
  }

  function U64At(b: seq<byte>, off: nat): u64
    requires off + 8 <= |b|
  {
    NumBound(b[off..off + 8]);
    Widths();
    Num(b[off..off + 8])
  }

  lemma TwoByteNumber(s: seq<byte>)
    requires |s| == 2
    ensures Num(s) == s[0] as nat + 0x100 * s[1] as nat
  {
    assert Num(s[1..]) == s[1] as nat + 256 * Num(s[2..]);
  }

  lemma FourByteNumber(s: seq<byte>)
    requires |s| == 4
    ensures Num(s) == s[0] as nat + 0x100 * s[1] as nat + 0x1_0000 * s[2] as nat + 0x100_0000 * s[3] as nat
  {
    TwoByteNumber(s[2..]);
    hide Num;
    NumUnrolled(s);
    NumUnrolled(s[1..]);
    assert s[1..][1..] == s[2..];
  }

  lemma NumUnrolled(s: seq<byte>)
    requires s != []
    ensures Num(s) == s[0] as nat + 256 * Num(s[1..])
  {
  }

  lemma EightByteNumber(s: seq<byte>)
    requires |s| == 8
    ensures Num(s) == Num(s[..4]) + 0x1_0000_0000 * Num(s[4..])
  {
    FourByteNumber(s[..4]);
    hide Num;
    NumUnrolled(s);
    NumUnrolled(s[1..]);
    NumUnrolled(s[2..]);
    NumUnrolled(s[3..]);
    assert s[1..][1..] == s[2..] && s[2..][1..] == s[3..] && s[3..][1..] == s[4..];
  }

  /** Fields are read with the least significant byte first. */
  lemma LittleEndian(b: seq<byte>, off: nat)
    ensures off + 2 <= |b| ==> U16At(b, off) == b[off] as nat + 0x100 * b[off + 1] as nat
    ensures off + 4 <= |b| ==>
      U32At(b, off) == b[off] as nat + 0x100 * b[off + 1] as nat + 0x1_0000 * b[off + 2] as nat + 0x100_0000 * b[off + 3] as nat
    ensures off + 8 <= |b| ==> U64At(b, off) == U32At(b, off) + 0x1_0000_0000 * U32At(b, off + 4)
  {
    hide Num;
    if off + 2 <= |b| {
      TwoByteNumber(b[off..off + 2]);
    }
    if off + 4 <= |b| {
      FourByteNumber(b[off..off + 4]);
    }
    if off + 8 <= |b| {
      var s := b[off..off + 8];
      EightByteNumber(s);
      assert s[..4] == b[off..off + 4] && s[4..] == b[off + 4..off + 8];
    }
  }

  // ---------- C strings ----------

  /** strcmp(b + off, s) == 0 for a NUL-free `s`. */
  predicate CStringIs(b: seq<byte>, off: nat, s: seq<byte>) {
    Placed(b, off, s + [0])
  }

  /** Some NUL ends the string that starts at `off`. */
  predicate Terminated(b: seq<byte>, off: nat) {
    exists e :: off <= e < |b| && b[e] == 0
  }

  /** Whether strcmp(b + off, s) == 0, read byte by byte; None when the reading leaves `b`. */
  function Compare(b: seq<byte>, off: nat, s: seq<byte>): Option<bool>
    decreases |s|
  {
    if off >= |b| then None
    else if s == [] then Some(b[off] == 0)
    else if b[off] != s[0] then Some(false)
    else Compare(b, off + 1, s[1..])
  }

  /** As long as it stays inside, it decides equality; equal names never lead outside. */
  lemma {:induction false} CompareDecides(b: seq<byte>, off: nat, s: seq<byte>)
    ensures Compare(b, off, s) == Some(true) <==> CStringIs(b, off, s)
    decreases |s|
  {
    if off >= |b| {
    } else if s == [] {
      assert b[off..off + 1] == [b[off]];
    } else {
      CompareDecides(b, off + 1, s[1..]);
      FirstByteMatches(b, off, s);
    }
  }

  lemma FirstByteMatches(b: seq<byte>, off: nat, s: seq<byte>)
    requires off < |b| && s != []
    ensures CStringIs(b, off, s) <==> b[off] == s[0] && CStringIs(b, off + 1, s[1..])
  {
    assert s + [0] == [s[0]] + (s[1..] + [0]);
    if CStringIs(b, off, s) {
      PlacedSplit(b, off, [s[0]], s[1..] + [0]);
      assert b[off..off + 1] == [b[off]];
    }
    if b[off] == s[0] && CStringIs(b, off + 1, s[1..]) {
      assert b[off..off + |s| + 1] == [b[off]] + b[off + 1..off + |s| + 1];
    }
  }

  /** It leaves `b` exactly when all that is left of `b` is a prefix of the name. */
  lemma {:induction false} CompareLeaves(b: seq<byte>, off: nat, s: seq<byte>)
    requires off <= |b|
    ensures Compare(b, off, s).None? <==> |b| - off <= |s| && b[off..] == s[..|b| - off]
    decreases |s|
  {
    if off < |b| && s != [] {
      CompareLeaves(b, off + 1, s[1..]);
      assert b[off..] == [b[off]] + b[off + 1..];
      if |b| - off <= |s| {
        assert s[..|b| - off] == [s[0]] + s[1..][..|b| - off - 1];
      }
    }
  }

  /** Before it can differ from `s`, what starts at `off` meets the end of `b`. */
  predicate Overruns(b: seq<byte>, off: nat, s: seq<byte>) {
    off >= |b| || (|b| - off <= |s| && b[off..] == s[..|b| - off])
  }

  lemma CompareOverruns(b: seq<byte>, off: nat, s: seq<byte>)
    ensures Compare(b, off, s).None? <==> Overruns(b, off, s)
  {
    if off <= |b| {
      CompareLeaves(b, off, s);
    }
  }

  /** No name leads the comparison outside if, and only if, a NUL ends the string there. */
  lemma StaysInsideIffTerminated(b: seq<byte>, off: nat)
    ensures (forall s: seq<byte> :: 0 !in s ==> Compare(b, off, s).Some?) <==> Terminated(b, off)
  {
    if Terminated(b, off) {
      forall s: seq<byte> | 0 !in s
        ensures Compare(b, off, s).Some?
      {
        CompareLeaves(b, off, s);
        var e :| off <= e < |b| && b[e] == 0;
        assert b[off..][e - off] == 0;
      }
    } else if off > |b| {
      assert Compare(b, off, []).None?;
    } else {
      CompareLeaves(b, off, b[off..]);
      assert 0 !in b[off..];
    }
  }

  lemma CStringIsTerminated(b: seq<byte>, off: nat, s: seq<byte>)
    requires CStringIs(b, off, s)
    ensures Terminated(b, off)
  {
    assert b[off..off + |s| + 1][|s|] == (s + [0])[|s|];
    assert b[off + |s|] == 0;
  }

  lemma CStringEnds(b: seq<byte>, off: nat, s: seq<byte>, t: seq<byte>)
    requires CStringIs(b, off, s) && CStringIs(b, off, t) && |s| < |t|
    ensures t[|s|] == 0
  {
    assert (s + [0])[|s|] == b[off..off + |s| + 1][|s|] == b[off + |s|];
    assert (t + [0])[|s|] == b[off..off + |t| + 1][|s|] == b[off + |s|];
  }

  lemma CStringUnique(b: seq<byte>, off: nat, s: seq<byte>, t: seq<byte>)
    requires 0 !in s && 0 !in t
    requires CStringIs(b, off, s) && CStringIs(b, off, t)
    ensures s == t
  {
    if |s| < |t| {
      CStringEnds(b, off, s, t);
    } else if |t| < |s| {
      CStringEnds(b, off, t, s);
    } else {
      assert s == (s + [0])[..|s|] == (t + [0])[..|t|] == t;
    }
  }

  // ---------- alignment ----------

  /** The zero bytes needed to reach the next multiple. */
  function Padding(len: nat, alignment: nat): (r: nat)
    requires alignment > 0
    ensures r < alignment
  {
    if len % alignment == 0 then 0 else alignment - len % alignment
  }

  function AlignUp(len: nat, alignment: nat): (r: nat)
    requires alignment > 0
    ensures len <= r < len + alignment
  {
    len + Padding(len, alignment)
  }

  lemma Aligned8(len: nat)
    ensures AlignUp(len, 8) % 8 == 0
  {
  }

  lemma Aligned16(len: nat)
    ensures AlignUp(len, 16) % 16 == 0
  {
  }

  lemma ConcatAssoc(x: seq<byte>, y: seq<byte>, z: seq<byte>)
    ensures (x + y) + z == x + (y + z)
  {
  }

  lemma PlacedFront(x: seq<byte>, y: seq<byte>)
    ensures Placed(x + y, 0, x)
  {
  }

  lemma PlacedSplit(b: seq<byte>, off: nat, x: seq<byte>, y: seq<byte>)
    requires Placed(b, off, x + y)
    ensures Placed(b, off, x) && Placed(b, off + |x|, y)
  {
    PlacedFront(x, y);
    PlacedTrans(b, off, x + y, 0, x);
    assert Placed(x + y, |x|, y);
    PlacedTrans(b, off, x + y, |x|, y);
  }
}
