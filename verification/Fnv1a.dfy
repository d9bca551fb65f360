/** FNV-1a over 64 bits (src/common/fnv1a.c): the hash of resource names. */
module Fnv1a {
  import opened Bytes
  import Crc64

  const BASIS: bv64 := 0xcbf29ce484222325

  function MixWord(hash: bv64, w: bv64): bv64 {
    (hash ^ w) * 0x100000001b3
  }

  function Mix(hash: bv64, b: byte): bv64 {
    MixWord(hash, Word(b))
  }

  function Fold(hash: bv64, data: seq<byte>): bv64
    decreases |data|
  {
    if data == [] then hash else Fold(Mix(hash, data[0]), data[1..])
  }

  function Hash(data: seq<byte>): bv64 {
    Fold(BASIS, data)
  }

  function AsNumber(hash: bv64): u64 {
    hash as nat
  }

  /** The hash as the number stored in buckets and directory entries. */
  function HashNumber(data: seq<byte>): u64 {
    AsNumber(Hash(data))
  }

  lemma {:induction false} FoldSnoc(hash: bv64, data: seq<byte>, b: byte)
    ensures Fold(hash, data + [b]) == Mix(Fold(hash, data), b)
    decreases |data|
  {
    hide Mix;
    if data == [] {
      assert Fold(hash, [b]) == Fold(Mix(hash, b), []);
    } else {
      assert (data + [b])[1..] == data[1..] + [b];
      FoldSnoc(Mix(hash, data[0]), data[1..], b);
    }
  }

  /** FNV-1a in full: the offset basis, then for each byte, as a word, XOR and after it the product
      with the prime, modulo 2^64. */
  lemma HashIsFnv1a(data: seq<byte>, b: byte, w: bv64)
    requires w == b as bv64
    ensures Hash([]) == 0xcbf29ce484222325
    ensures Hash(data + [b]) == (Hash(data) ^ w) * 0x100000001b3
  {
    hide *;
    HashParts(data, b);
    Crc64.WordIsCast(b);
    MixWordIs(Hash(data), w);
  }

  lemma HashParts(data: seq<byte>, b: byte)
    ensures Hash([]) == 0xcbf29ce484222325
    ensures Hash(data + [b]) == MixWord(Hash(data), Word(b))
  {
    hide MixWord;
    FoldSnoc(BASIS, data, b);
  }

  lemma MixWordIs(hash: bv64, w: bv64)
    ensures MixWord(hash, w) == (hash ^ w) * 0x100000001b3
  {
  }

  /** The stored number is that word. */
  lemma HashNumberIsHash(data: seq<byte>)
    ensures HashNumber(data) == Hash(data) as nat
  {
    hide Hash;
  }

  /** The published value for "a". */
  lemma HashOfLetter()
    ensures Hash([0x61]) == 0xaf63dc4c8601ec8c
  {
    assert Word(0x61) == 0x61 by {
      assert Word(1) == 1 && Word(3) == 3 && Word(6) == 6 && Word(12) == 12;
      assert Word(24) == 24 && Word(48) == 48 && Word(0x61) == 0x61;
    }
    assert Fold(BASIS, [0x61]) == Fold(Mix(BASIS, 0x61), []);
  }

  /** `elfr_fnv1a64` */
  method ComputeFnv1a64(data: seq<byte>) returns (hash: bv64)
    ensures hash == Hash(data)
  {
    hide Mix;
    hash := BASIS;
    for i := 0 to |data|
      invariant Fold(hash, data[i..]) == Hash(data)
    {
      hash := Mix(hash, data[i]);
    }
  }
}
