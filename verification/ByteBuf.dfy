/**
  The growable byte buffer of src/common/byte_buf.c. `data`, `len` and `cap`
  are the C fields; the two ghost fields count growths and the bytes realloc
  may have had to move.
 */
module ByteBuffers {
  import opened Bytes

  /** Lengths for which doubling the capacity stays inside size_t. */
  const MAX_LEN: nat := 0x8000_0000_0000_0000

  const FIRST_CAP: nat := 4096

  /** What may be asked of a buffer. */
  datatype Op =
    | Append(data: seq<byte>)
    | AppendZeros(count: nat)
    | AlignTo(alignment: nat)

  // ---------- the buffer as a value ----------

  datatype State = State(contents: seq<byte>, cap: nat, moved: nat)

  const EMPTY := State([], 0, 0)

  /** The doubling loop: the first of c, 2c, 4c, ... that is enough. */
  function Doubled(c: nat, need: nat): (r: nat)
    requires c > 0
    ensures r >= need && r >= c
    ensures r == c || r < 2 * need
    decreases need - c
  {
    if c >= need then c else Doubled(2 * c, need)
  }

  function CapFor(cap: nat, need: nat): nat {
    if need <= cap then cap else Doubled(if cap != 0 then 2 * cap else FIRST_CAP, need)
  }

  function Times2(c: nat, k: nat): nat { if k == 0 then c else 2 * Times2(c, k - 1) }

  lemma {:induction false} DoubledIsPower(c: nat, need: nat, k: nat)
    requires Times2(c, k) > 0 && (k == 0 || Times2(c, k - 1) < need)
    ensures exists j: nat :: Doubled(Times2(c, k), need) == Times2(c, j) && (j == 0 || Times2(c, j - 1) < need)
    decreases need - Times2(c, k)
  {
    if Times2(c, k) >= need {
    } else {
      assert Times2(c, k + 1) == 2 * Times2(c, k);
      DoubledIsPower(c, need, k + 1);
    }
  }

  /** The growth rule in numbers: 4096 at first, else twice the old capacity, doubled as often as needed and no more. */
  lemma GrowthRule(cap: nat, need: nat)
    ensures need <= cap ==> CapFor(cap, need) == cap
    ensures need > cap ==> CapFor(cap, need) >= need
    ensures need > cap ==>
      var c := if cap == 0 then 4096 else 2 * cap;
      exists j: nat :: CapFor(cap, need) == Times2(c, j) && (j == 0 || Times2(c, j - 1) < need)
  {
    var c := if cap == 0 then 4096 else 2 * cap;
    assert Times2(c, 0) == c;
    DoubledIsPower(c, need, 0);
  }

  function OpBytes(len: nat, op: Op): seq<byte>
    requires op.AlignTo? ==> op.alignment > 0
  {
    match op
    case Append(bytes) => bytes
    case AppendZeros(count) => Zeros(count)
    case AlignTo(alignment) => Zeros(Padding(len, alignment))
  }

  /** One operation. A growth is charged the whole old capacity, the most realloc can move. */
  function Step(s: State, op: Op): State
    requires op.AlignTo? ==> op.alignment > 0
  {
    var contents := s.contents + OpBytes(|s.contents|, op);
    State(contents, CapFor(s.cap, |contents|), if |contents| <= s.cap then s.moved else s.moved + s.cap)
  }

  function Run(s: State, ops: seq<Op>): State
    requires forall op :: op in ops && op.AlignTo? ==> op.alignment > 0
    decreases |ops|
  {
    if ops == [] then s else Run(Step(s, ops[0]), ops[1..])
  }

  /** Space and copying are linear in the contents. */
  predicate Linear(s: State) {
    && |s.contents| <= s.cap
    && s.cap <= (if 2 * |s.contents| <= FIRST_CAP then FIRST_CAP else 2 * |s.contents|)
    && (s.moved < s.cap || s.moved == s.cap == 0)
  }

  lemma StepKeepsLinear(s: State, op: Op)
    requires Linear(s)
    requires op.AlignTo? ==> op.alignment > 0
    ensures Linear(Step(s, op))
    ensures s.contents <= Step(s, op).contents && s.cap <= Step(s, op).cap
  {
  }

  /** Over any run from a buffer in such a state, the empty one among them: nothing already written changes, the
      capacity stays below twice the length (or 4096), and all reallocations
      together move fewer bytes than the final capacity. */
  lemma {:induction false} GrowthIsLinear(s: State, ops: seq<Op>)
    requires Linear(s)
    requires forall op :: op in ops && op.AlignTo? ==> op.alignment > 0
    ensures Linear(Run(s, ops)) && s.contents <= Run(s, ops).contents
    decreases |ops|
  {
    if ops == [] {
    } else {
      StepKeepsLinear(s, ops[0]);
      GrowthIsLinear(Step(s, ops[0]), ops[1..]);
    }
  }

  lemma {:induction false} DoubledOnce(c: nat, need: nat)
    requires 0 < c < need
    ensures Doubled(c, need) == Doubled(2 * c, need)
  {
  }

  /** The doubling loop of `byte_buf_reserve`, in size_t arithmetic. */
  method GrownCapacity(cap: nat, need: nat) returns (newcap: nat)
    requires cap < need < MAX_LEN
    ensures newcap == CapFor(cap, need) < TWO64
  {
    hide Doubled;
    if cap != 0 {
      DoubleFits(cap);
    }
    newcap := if cap != 0 then cap * 2 % TWO64 else FIRST_CAP;
    while newcap < need
      invariant 0 < newcap < TWO64
      invariant Doubled(newcap, need) == CapFor(cap, need)
      decreases need - newcap
    {
      DoubledOnce(newcap, need);
      DoubleFits(newcap);
      newcap := newcap * 2 % TWO64;
    }
    DoubledEnough(newcap, need);
  }

  lemma DoubleFits(c: nat)
    requires c < MAX_LEN
    ensures c * 2 % TWO64 == 2 * c
  {
  }

  lemma DoubledEnough(c: nat, need: nat)
    requires 0 < c && need <= c
    ensures Doubled(c, need) == c
  {
  }

  // ---------- the buffer in memory ----------

  class ByteBuf {
    var data: array<byte>
    var len: nat
    var cap: nat
    ghost var moved: nat
    ghost var Repr: set<object>

    ghost predicate Valid()
      reads this, Repr
      ensures Valid() ==> this in Repr
    {
      && this in Repr && data in Repr && Repr == {this, data}
      && data.Length == cap < TWO64
      && len <= cap
      && Linear(View())
    }

    ghost function Contents(): seq<byte>
      requires data.Length >= len
      reads this, data
    {
      data[..len]
    }

    ghost function View(): State
      requires data.Length >= len
      reads this, data
    {
      State(Contents(), cap, moved)
    }

    constructor ()
      ensures Valid() && fresh(Repr)
      ensures View() == EMPTY && len == 0
    {
      data := new byte[0];
      len, cap, moved := 0, 0, 0;
      new;
      Repr := {this, data};
    }

    /** `byte_buf_reserve`, in size_t arithmetic: sums and products are reduced modulo 2^64. */
    method Reserve(extra: nat)
      requires Valid() && len + extra < MAX_LEN
      modifies Repr
      ensures this in Repr && data in Repr && Repr == {this, data} && fresh(Repr - old(Repr))
      ensures data.Length == cap < TWO64
      ensures len == old(len) && len + extra <= cap
      ensures Contents() == old(Contents())
      ensures cap == CapFor(old(cap), len + extra)
      ensures moved == if len + extra <= old(cap) then old(moved) else old(moved) + old(cap)
    {
      hide Linear;
      var need := (len + extra) % TWO64;
      if need <= cap {
        return;
      }
      var newcap := GrownCapacity(cap, need);
      var grown := new byte[newcap];
      forall i | 0 <= i < len {
        grown[i] := data[i];
      }
      moved := moved + cap;
      data := grown;
      cap := newcap;
      Repr := {this, data};
    }

    /** `byte_buf_append` */
    method Append(bytes: seq<byte>) returns (off: nat)
      requires Valid() && len + |bytes| < MAX_LEN
      modifies Repr
      ensures Valid() && fresh(Repr - old(Repr))
      ensures Contents() == old(Contents()) + bytes
      ensures View() == Step(old(View()), Op.Append(bytes))
      ensures off == old(len) && len == old(len) + |bytes|
    {
      hide Linear, CapFor;
      StepKeepsLinear(View(), Op.Append(bytes));
      Reserve(|bytes|);
      off := len;
      forall i | 0 <= i < |bytes| {
        data[off + i] := bytes[i];
      }
      len := len + |bytes|;
      assert data[..len] == data[..off] + data[off..len];
      assert View() == Step(old(View()), Op.Append(bytes));
    }

    /** `byte_buf_append_zeros` */
    method AppendZeros(count: nat) returns (off: nat)
      requires Valid() && len + count < MAX_LEN
      modifies Repr
      ensures Valid() && fresh(Repr - old(Repr))
      ensures Contents() == old(Contents()) + Zeros(count)
      ensures View() == Step(old(View()), Op.AppendZeros(count))
      ensures off == old(len) && len == old(len) + count
    {
      hide Linear, CapFor;
      StepKeepsLinear(View(), Op.AppendZeros(count));
      Reserve(count);
      off := len;
      forall i | 0 <= i < count {
        data[off + i] := 0;
      }
      len := len + count;
      assert data[..len] == data[..off] + data[off..len];
      assert View() == Step(old(View()), Op.AppendZeros(count));
    }

    /** `byte_buf_align` */
    method Align(alignment: nat)
      requires Valid() && alignment > 0 && len + alignment < MAX_LEN
      modifies Repr
      ensures Valid() && fresh(Repr - old(Repr))
      ensures Contents() == old(Contents()) + Zeros(Padding(old(len), alignment))
      ensures View() == Step(old(View()), AlignTo(alignment))
      ensures len == old(len) + Padding(old(len), alignment)
    {
      var rem := len % alignment;
      if rem != 0 {
        var _ := AppendZeros(alignment - rem);
      } else {
        assert Contents() == Contents() + Zeros(0);
      }
    }

    /** memcpy over bytes already in the buffer: nothing else changes, and the buffer does not move. */
    method Patch(off: nat, bytes: seq<byte>)
      requires Valid() && off + |bytes| <= len
      modifies data
      ensures Valid()
      ensures Contents() == old(Contents())[..off] + bytes + old(Contents())[off + |bytes|..]
    {
      forall i | 0 <= i < |bytes| {
        data[off + i] := bytes[i];
      }
    }
  }
}
