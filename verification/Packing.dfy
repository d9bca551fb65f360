/**
  Regions made by the append discipline of the container builder: pieces written
  one after another, each padded to an alignment, some of them absent. Metadata
  blocks and payloads are both laid out this way.
 */
module Packing {
  import opened Bytes

  type Pieces = seq<Option<seq<byte>>>

  /** The container offset reached after the first i pieces, starting from `pos`. */
  function PosAfter(ps: Pieces, a: nat, pos: nat, i: nat): (r: nat)
    requires a > 0 && i <= |ps|
    ensures r >= pos
    decreases i
  {
    if i == 0 then pos
    else
      var p := PosAfter(ps, a, pos, i - 1);
      if ps[i - 1].None? then p else AlignUp(p, a) + |ps[i - 1].value|
  }

  /** The bytes of the first i pieces with their padding. */
  function Packed(ps: Pieces, a: nat, pos: nat, i: nat): (r: seq<byte>)
    requires a > 0 && i <= |ps|
    ensures |r| == PosAfter(ps, a, pos, i) - pos
    decreases i
  {
    if i == 0 then []
    else
      var front := Packed(ps, a, pos, i - 1);
      if ps[i - 1].None? then front
      else front + (Zeros(Padding(PosAfter(ps, a, pos, i - 1), a)) + ps[i - 1].value)
  }

  /** Where piece i starts; 0 stands for an absent piece. */
  function PieceOffset(ps: Pieces, a: nat, pos: nat, i: nat): nat
    requires a > 0 && i < |ps|
  {
    if ps[i].None? then 0 else AlignUp(PosAfter(ps, a, pos, i), a)
  }

  function All(ps: Pieces, a: nat, pos: nat): seq<byte>
    requires a > 0
  {
    Packed(ps, a, pos, |ps|)
  }

  lemma NoPieces(ps: Pieces, a: nat, pos: nat)
    requires a > 0
    ensures Packed(ps, a, pos, 0) == [] && PosAfter(ps, a, pos, 0) == pos
  {
  }

  lemma {:induction false} PosGrows(ps: Pieces, a: nat, pos: nat, i: nat, j: nat)
    requires a > 0 && i <= j <= |ps|
    ensures PosAfter(ps, a, pos, i) <= PosAfter(ps, a, pos, j)
    decreases j - i
  {
    if i == j {
    } else {
      PosGrows(ps, a, pos, i, j - 1);
    }
  }

  lemma PackedStep(ps: Pieces, a: nat, pos: nat, i: nat)
    requires a > 0 && i < |ps|
    ensures ps[i].None? ==>
      PosAfter(ps, a, pos, i + 1) == PosAfter(ps, a, pos, i) && Packed(ps, a, pos, i + 1) == Packed(ps, a, pos, i)
    ensures ps[i].Some? ==>
      && PosAfter(ps, a, pos, i + 1) == AlignUp(PosAfter(ps, a, pos, i), a) + |ps[i].value|
      && Packed(ps, a, pos, i + 1)
         == Packed(ps, a, pos, i) + (Zeros(Padding(PosAfter(ps, a, pos, i), a)) + ps[i].value)
  {
  }

  /** Later pieces only append. */
  lemma {:induction false} PackedPrefix(ps: Pieces, a: nat, pos: nat, i: nat, j: nat)
    requires a > 0 && i <= j <= |ps|
    ensures Placed(Packed(ps, a, pos, j), 0, Packed(ps, a, pos, i))
    decreases j - i
  {
    hide Packed, PosAfter, Zeros, Padding;
    if i == j {
    } else {
      PackedPrefix(ps, a, pos, i, j - 1);
      PackedStep(ps, a, pos, j - 1);
      var f := Packed(ps, a, pos, j - 1);
      if ps[j - 1].Some? {
        PlacedFront(f, Zeros(Padding(PosAfter(ps, a, pos, j - 1), a)) + ps[j - 1].value);
        PlacedTrans(Packed(ps, a, pos, j), 0, f, 0, Packed(ps, a, pos, i));
      }
    }
  }

  /** Every piece lies at its offset. */
  lemma PieceAt(ps: Pieces, a: nat, pos: nat, i: nat)
    requires a > 0 && i < |ps| && ps[i].Some?
    ensures var o := PieceOffset(ps, a, pos, i);
            o >= pos && Placed(All(ps, a, pos), o - pos, ps[i].value)
  {
    hide Placed, Packed, Padding;
    PackedStep(ps, a, pos, i);
    PackedPrefix(ps, a, pos, i + 1, |ps|);
    var f, pad, piece := Packed(ps, a, pos, i), Zeros(Padding(PosAfter(ps, a, pos, i), a)), ps[i].value;
    assert f + (pad + piece) == (f + pad) + piece + [];
    PlacedAfter(f + pad, piece, []);
    PlacedTrans(All(ps, a, pos), 0, Packed(ps, a, pos, i + 1), |f + pad|, piece);
  }

  /** Between pieces there is only the padding that their alignment needs. */
  lemma PiecesTight(ps: Pieces, a: nat, pos: nat, i: nat)
    requires a > 0 && i < |ps|
    ensures PosAfter(ps, a, pos, 0) == pos
    ensures ps[i].None? ==> PieceOffset(ps, a, pos, i) == 0 && PosAfter(ps, a, pos, i + 1) == PosAfter(ps, a, pos, i)
    ensures ps[i].Some? ==>
      && PosAfter(ps, a, pos, i) <= PieceOffset(ps, a, pos, i) < PosAfter(ps, a, pos, i) + a
      && PosAfter(ps, a, pos, i + 1) == PieceOffset(ps, a, pos, i) + |ps[i].value|
  {
    PackedStep(ps, a, pos, i);
    hide AlignUp;
  }

  /** Pieces do not overlap, and come in order. */
  lemma PiecesInOrder(ps: Pieces, a: nat, pos: nat, i: nat, j: nat)
    requires a > 0 && i < j < |ps| && ps[i].Some? && ps[j].Some?
    ensures PieceOffset(ps, a, pos, i) + |ps[i].value| <= PieceOffset(ps, a, pos, j)
  {
    PackedStep(ps, a, pos, i);
    PosGrows(ps, a, pos, i + 1, j);
  }
}
