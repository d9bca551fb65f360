/** The parts of ELF-64 that elfrc writes and elfresdump reads (System V gABI, chapter 4). */
module ElfFormat {
  import opened Bytes

  const EHDR_SIZE: nat := 64
  const SHDR_SIZE: nat := 64
  const SYM_SIZE: nat := 24

  const ELFMAG: seq<byte> := [0x7F, 0x45, 0x4C, 0x46]
  const ELFCLASS64: byte := 2
  const ELFDATA2LSB: byte := 1

  datatype Ehdr = Ehdr(shoff: u64, shentsize: u16, shnum: u16, shstrndx: u16)

  datatype Shdr = Shdr(name: u32, typ: u32, flags: u64, addr: u64, offset: u64, size: u64,
                       link: u32, info: u32, addralign: u64, entsize: u64)

  datatype Sym = Sym(name: u32, info: byte, other: byte, shndx: u16, value: u64, size: u64)

  /** ET_REL for x86-64: class, data encoding and versions fixed, no program headers. */
  function EncodeEhdr(h: Ehdr): (r: seq<byte>)
    ensures |r| == EHDR_SIZE
  {
    ELFMAG + [ELFCLASS64, ELFDATA2LSB, 1, 0, 0, 0, 0, 0, 0, 0, 0, 0]
    + Nums([1, 62], 2) + Nums([1], 4) + Nums([0, 0, h.shoff], 8) + Nums([0], 4)
    + Nums([EHDR_SIZE, 0, 0, h.shentsize, h.shnum, h.shstrndx], 2)
  }

  function DecodeEhdr(b: seq<byte>): Ehdr
    requires |b| >= EHDR_SIZE
  {
    Ehdr(U64At(b, 40), U16At(b, 58), U16At(b, 60), U16At(b, 62))
  }

  /** The ELF header by position. */
  lemma EhdrSpelled(b: seq<byte>, h: Ehdr)
    requires Placed(b, 0, EncodeEhdr(h))
    ensures |b| >= 64
    ensures b[..16] == [0x7F, 0x45, 0x4C, 0x46, 2, 1, 1, 0, 0, 0, 0, 0, 0, 0, 0, 0]
    ensures U16At(b, 16) == 1 && U16At(b, 18) == 62 && U32At(b, 20) == 1
    ensures U64At(b, 24) == 0 && U64At(b, 32) == 0 && U64At(b, 40) == h.shoff && U32At(b, 48) == 0
    ensures U16At(b, 52) == 64 && U16At(b, 54) == 0 && U16At(b, 56) == 0
    ensures U16At(b, 58) == h.shentsize && U16At(b, 60) == h.shnum && U16At(b, 62) == h.shstrndx
  {
    hide Nums, Num, Pow256, LE, Placed;
    Widths();
    var ident := ELFMAG + [ELFCLASS64, ELFDATA2LSB, 1, 0, 0, 0, 0, 0, 0, 0, 0, 0];
    var p1, p2, p3, p4 := Nums([1, 62], 2), Nums([1], 4), Nums([0, 0, h.shoff], 8), Nums([0], 4);
    var v := [EHDR_SIZE, 0, 0, h.shentsize, h.shnum, h.shstrndx];
    PlacedSplit(b, 0, ident + p1 + p2 + p3 + p4, Nums(v, 2));
    PlacedSplit(b, 0, ident + p1 + p2 + p3, p4);
    PlacedSplit(b, 0, ident + p1 + p2, p3);
    PlacedSplit(b, 0, ident + p1, p2);
    PlacedSplit(b, 0, ident, p1);
    IdentReads(b, ident);
    ReadNums(b, 16, [1, 62], 2, 0);
    ReadNums(b, 16, [1, 62], 2, 1);
    ReadNums(b, 20, [1], 4, 0);
    ReadNums(b, 24, [0, 0, h.shoff], 8, 0);
    ReadNums(b, 24, [0, 0, h.shoff], 8, 1);
    ReadNums(b, 24, [0, 0, h.shoff], 8, 2);
    ReadNums(b, 48, [0], 4, 0);
    ReadNums(b, 52, v, 2, 0);
    ReadNums(b, 52, v, 2, 1);
    ReadNums(b, 52, v, 2, 2);
    ReadNums(b, 52, v, 2, 3);
    ReadNums(b, 52, v, 2, 4);
    ReadNums(b, 52, v, 2, 5);
  }

  lemma EhdrRoundTrip(b: seq<byte>, h: Ehdr)
    requires Placed(b, 0, EncodeEhdr(h))
    ensures |b| >= EHDR_SIZE && DecodeEhdr(b) == h
    ensures b[..4] == ELFMAG && b[4] == ELFCLASS64 && b[5] == ELFDATA2LSB
  {
    hide Placed, EncodeEhdr, U16At, U32At, U64At;
    EhdrSpelled(b, h);
    assert b[..4] == b[..16][..4] && b[4] == b[..16][4] && b[5] == b[..16][5];
  }

  lemma IdentReads(b: seq<byte>, ident: seq<byte>)
    requires Placed(b, 0, ident) && |ident| == 16
    ensures |b| >= 16 && b[..16] == ident
  {
    assert b[0..16] == ident;
  }

  function EncodeShdr(s: Shdr): (r: seq<byte>)
    ensures |r| == SHDR_SIZE
  {
    Nums([s.name, s.typ], 4) + Nums([s.flags, s.addr, s.offset, s.size], 8)
    + Nums([s.link, s.info], 4) + Nums([s.addralign, s.entsize], 8)
  }

  function DecodeShdr(b: seq<byte>, off: nat): Shdr
    requires off + SHDR_SIZE <= |b|
  {
    Shdr(U32At(b, off), U32At(b, off + 4), U64At(b, off + 8), U64At(b, off + 16), U64At(b, off + 24),
         U64At(b, off + 32), U32At(b, off + 40), U32At(b, off + 44), U64At(b, off + 48), U64At(b, off + 56))
  }

  /** A section header by position. */
  lemma ShdrSpelled(b: seq<byte>, off: nat, s: Shdr)
    requires Placed(b, off, EncodeShdr(s))
    ensures off + 64 <= |b|
    ensures U32At(b, off) == s.name && U32At(b, off + 4) == s.typ && U64At(b, off + 8) == s.flags
    ensures U64At(b, off + 16) == s.addr && U64At(b, off + 24) == s.offset && U64At(b, off + 32) == s.size
    ensures U32At(b, off + 40) == s.link && U32At(b, off + 44) == s.info
    ensures U64At(b, off + 48) == s.addralign && U64At(b, off + 56) == s.entsize
  {
    hide Nums, Num, Pow256, LE, Placed;
    Widths();
    var v1, v2, v3, v4 := [s.name, s.typ], [s.flags, s.addr, s.offset, s.size], [s.link, s.info], [s.addralign, s.entsize];
    PlacedSplit(b, off, Nums(v1, 4) + Nums(v2, 8) + Nums(v3, 4), Nums(v4, 8));
    PlacedSplit(b, off, Nums(v1, 4) + Nums(v2, 8), Nums(v3, 4));
    PlacedSplit(b, off, Nums(v1, 4), Nums(v2, 8));
    ReadNums(b, off, v1, 4, 0);
    ReadNums(b, off, v1, 4, 1);
    ReadNums(b, off + 8, v2, 8, 0);
    ReadNums(b, off + 8, v2, 8, 1);
    ReadNums(b, off + 8, v2, 8, 2);
    ReadNums(b, off + 8, v2, 8, 3);
    ReadNums(b, off + 40, v3, 4, 0);
    ReadNums(b, off + 40, v3, 4, 1);
    ReadNums(b, off + 48, v4, 8, 0);
    ReadNums(b, off + 48, v4, 8, 1);
  }

  lemma ShdrRoundTrip(b: seq<byte>, off: nat, s: Shdr)
    requires Placed(b, off, EncodeShdr(s))
    ensures off + SHDR_SIZE <= |b| && DecodeShdr(b, off) == s
  {
    hide Placed, EncodeShdr, U32At, U64At;
    ShdrSpelled(b, off, s);
  }

  function EncodeSym(s: Sym): (r: seq<byte>)
    ensures |r| == SYM_SIZE
  {
    Nums([s.name], 4) + [s.info, s.other] + Nums([s.shndx], 2) + Nums([s.value, s.size], 8)
  }

  function DecodeSym(b: seq<byte>, off: nat): Sym
    requires off + SYM_SIZE <= |b|
  {
    Sym(U32At(b, off), b[off + 4], b[off + 5], U16At(b, off + 6), U64At(b, off + 8), U64At(b, off + 16))
  }

  lemma TwoBytes(b: seq<byte>, off: nat, x: byte, y: byte)
    requires Placed(b, off, [x, y])
    ensures off + 2 <= |b| && b[off] == x && b[off + 1] == y
  {
    assert b[off..off + 2] == [x, y];
  }

  /** A symbol by position. */
  lemma SymSpelled(b: seq<byte>, off: nat, s: Sym)
    requires Placed(b, off, EncodeSym(s))
    ensures off + 24 <= |b|
    ensures U32At(b, off) == s.name && b[off + 4] == s.info && b[off + 5] == s.other && U16At(b, off + 6) == s.shndx
    ensures U64At(b, off + 8) == s.value && U64At(b, off + 16) == s.size
  {
    hide Nums, Num, Pow256, LE, Placed;
    Widths();
    var v1, v3, v4 := [s.name], [s.shndx], [s.value, s.size];
    PlacedSplit(b, off, Nums(v1, 4) + [s.info, s.other] + Nums(v3, 2), Nums(v4, 8));
    PlacedSplit(b, off, Nums(v1, 4) + [s.info, s.other], Nums(v3, 2));
    PlacedSplit(b, off, Nums(v1, 4), [s.info, s.other]);
    ReadNums(b, off, v1, 4, 0);
    TwoBytes(b, off + 4, s.info, s.other);
    ReadNums(b, off + 6, v3, 2, 0);
    ReadNums(b, off + 8, v4, 8, 0);
    ReadNums(b, off + 8, v4, 8, 1);
  }

  lemma SymRoundTrip(b: seq<byte>, off: nat, s: Sym)
    requires Placed(b, off, EncodeSym(s))
    ensures off + SYM_SIZE <= |b| && DecodeSym(b, off) == s
  {
    hide Placed, EncodeSym, U16At, U32At, U64At;
    SymSpelled(b, off, s);
  }
}
