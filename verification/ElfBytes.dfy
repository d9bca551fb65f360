/**
  The written ELF object by position and value: what a linker that reads the
  bytes finds, in numbers, without the model's own encoders and constants.
 */
module ElfBytes {
  import opened Bytes
  import opened ElfFormat
  import opened ElfObject
  import ElfDump

  // ---------- names ----------

  /** The section names, letter by letter. */
  lemma SectionNamesSpelled()
    ensures RESOURCE_NAME == [0x2E, 0x72, 0x65, 0x73, 0x6F, 0x75, 0x72, 0x63, 0x65]
    ensures SectionNames()
         == [0, 0x2E, 0x72, 0x65, 0x73, 0x6F, 0x75, 0x72, 0x63, 0x65, 0]
          + [0x2E, 0x73, 0x79, 0x6D, 0x74, 0x61, 0x62, 0]
          + [0x2E, 0x73, 0x74, 0x72, 0x74, 0x61, 0x62, 0]
          + [0x2E, 0x73, 0x68, 0x73, 0x74, 0x72, 0x74, 0x61, 0x62, 0]
  {
    assert RESOURCE_NAME == [0x2E, 0x72, 0x65, 0x73, 0x6F, 0x75, 0x72, 0x63, 0x65];
    assert SYMTAB_NAME == [0x2E, 0x73, 0x79, 0x6D, 0x74, 0x61, 0x62];
    assert STRTAB_NAME == [0x2E, 0x73, 0x74, 0x72, 0x74, 0x61, 0x62];
    assert SHSTRTAB_NAME == [0x2E, 0x73, 0x68, 0x73, 0x74, 0x72, 0x74, 0x61, 0x62];
    NamesJoin(RESOURCE_NAME, SYMTAB_NAME, STRTAB_NAME, SHSTRTAB_NAME);
  }

  lemma NamesJoin(a: seq<byte>, b: seq<byte>, c: seq<byte>, d: seq<byte>)
    requires a == RESOURCE_NAME && b == SYMTAB_NAME && c == STRTAB_NAME && d == SHSTRTAB_NAME
    ensures SectionNames() == ([0] + a + [0]) + (b + [0]) + (c + [0]) + (d + [0])
  {
    hide RESOURCE_NAME, SYMTAB_NAME, STRTAB_NAME, SHSTRTAB_NAME;
    ConcatAssoc([0], a, [0]);
  }

  const RESOURCE_PART: seq<byte> := [0x5F, 0x72, 0x65, 0x73, 0x6F, 0x75, 0x72, 0x63, 0x65, 0x5F]
  const START_PART: seq<byte> := [0x73, 0x74, 0x61, 0x72, 0x74]
  const END_PART: seq<byte> := [0x65, 0x6E, 0x64]

  lemma Letters()
    ensures Ascii("_elfr_") == [0x5F, 0x65, 0x6C, 0x66, 0x72, 0x5F] && Ascii("_elfr") == [0x5F, 0x65, 0x6C, 0x66, 0x72]
    ensures Ascii("_resource_") == [0x5F, 0x72, 0x65, 0x73, 0x6F, 0x75, 0x72, 0x63, 0x65, 0x5F]
    ensures Ascii("start") == [0x73, 0x74, 0x61, 0x72, 0x74] && Ascii("end") == [0x65, 0x6E, 0x64]
  {
  }

  /** The symbol names, letter by letter: `_elfr_<prefix>_resource_start` and `..._end`, without the
      middle part when there is no prefix, cut after 255 bytes. */
  lemma SymbolNamesSpelled(prefix: Option<CString>)
    ensures var front := if prefix.Some? && prefix.value != [] then [0x5F, 0x65, 0x6C, 0x66, 0x72, 0x5F] + prefix.value
                         else [0x5F, 0x65, 0x6C, 0x66, 0x72];
            var s, e := front + RESOURCE_PART + START_PART, front + RESOURCE_PART + END_PART;
            && StartName(prefix) == (if |s| <= 255 then s else s[..255])
            && EndName(prefix) == (if |e| <= 255 then e else e[..255])
  {
    Letters();
    hide Ascii;
  }

  // ---------- positions ----------

  /** Where the parts lie: only alignment padding between them. */
  lemma PlanSpelled(size: nat, names: nat)
    ensures var p := PlanOf(size, names);
            && p.resource == 64
            && 64 + size <= p.symtab < 64 + size + 8 && p.symtab % 8 == 0
            && p.strtab == p.symtab + 72 && p.shstrtab == p.strtab + names
            && p.shstrtab + 37 <= p.sections < p.shstrtab + 37 + 8 && p.sections % 8 == 0
            && p.total == p.sections + 320
  {
    hide AlignUp;
    Aligned8(64 + size);
    Aligned8(PlanOf(size, names).shstrtab + 37);
  }

  /** The ELF header of the object: a relocatable file for x86-64 without program headers. */
  lemma EhdrOfObject(container: seq<byte>, prefix: Option<CString>)
    requires |container| < MAX_CONTAINER
    ensures var f, p := ObjectBytes(container, prefix), PlanOf(|container|, |SymbolNames(prefix)|);
            && |f| == p.total >= 64
            && f[..16] == [0x7F, 0x45, 0x4C, 0x46, 2, 1, 1, 0, 0, 0, 0, 0, 0, 0, 0, 0]
            && U16At(f, 16) == 1 && U16At(f, 18) == 62 && U32At(f, 20) == 1
            && U64At(f, 24) == 0 && U64At(f, 32) == 0 && U64At(f, 40) == p.sections && U32At(f, 48) == 0
            && U16At(f, 52) == 64 && U16At(f, 54) == 0 && U16At(f, 56) == 0
            && U16At(f, 58) == 64 && U16At(f, 60) == 5 && U16At(f, 62) == 4
  {
    hide *;
    ObjectParts(container, prefix);
    ElfDump.PlanBounds(|container|, prefix);
    EhdrSpelled(ObjectBytes(container, prefix), HeaderOf(|container|, |SymbolNames(prefix)|));
    HeaderValues(|container|, |SymbolNames(prefix)|);
  }

  lemma HeaderValues(size: nat, names: nat)
    requires size < MAX_CONTAINER && names < 1024
    ensures var h := HeaderOf(size, names);
            h.shoff == PlanOf(size, names).sections && h.shentsize == 64 && h.shnum == 5 && h.shstrndx == 4
  {
    hide PlanOf;
  }

  /** The five section headers, field by field. */
  lemma SectionsOfObject(container: seq<byte>, prefix: Option<CString>, i: nat)
    requires |container| < MAX_CONTAINER && i < 5
    ensures var f, p := ObjectBytes(container, prefix), PlanOf(|container|, |SymbolNames(prefix)|);
            var at := p.sections + i * 64;
            && at + 64 <= |f|
            && U32At(f, at) == [0, 1, 11, 19, 27][i] && U32At(f, at + 4) == [0, 1, 2, 3, 3][i]
            && U64At(f, at + 8) == [0, 2, 0, 0, 0][i] && U64At(f, at + 16) == 0
            && U64At(f, at + 24) == [0, 64, p.symtab, p.strtab, p.shstrtab][i]
            && U64At(f, at + 32) == [0, |container|, 72, |SymbolNames(prefix)|, 37][i]
            && U32At(f, at + 40) == [0, 0, 3, 0, 0][i] && U32At(f, at + 44) == [0, 0, 1, 0, 0][i]
            && U64At(f, at + 48) == [0, 16, 8, 1, 1][i] && U64At(f, at + 56) == [0, 0, 24, 0, 0][i]
  {
    hide *;
    var f, p, shdrs := ObjectBytes(container, prefix), PlanOf(|container|, |SymbolNames(prefix)|), Sections(|container|, prefix);
    ObjectParts(container, prefix);
    HeaderSizes();
    ElfDump.ShdrBlock(shdrs, i);
    PlacedTrans(f, p.sections, Flatten(ShdrBlocks(shdrs)), i * 64, EncodeShdr(shdrs[i]));
    ShdrSpelled(f, p.sections + i * 64, shdrs[i]);
    SectionValues(|container|, prefix, i);
  }

  lemma HeaderSizes()
    ensures SHDR_SIZE == 64 && SYM_SIZE == 24
  {
  }

  lemma SectionValues(size: nat, prefix: Option<CString>, i: nat)
    requires size < MAX_CONTAINER && i < 5
    ensures var s, p := Sections(size, prefix)[i], PlanOf(size, |SymbolNames(prefix)|);
            && s.name == [0, 1, 11, 19, 27][i] && s.typ == [0, 1, 2, 3, 3][i]
            && s.flags == [0, 2, 0, 0, 0][i] && s.addr == 0
            && s.offset == [0, 64, p.symtab, p.strtab, p.shstrtab][i]
            && s.size == [0, size, 72, |SymbolNames(prefix)|, 37][i]
            && s.link == [0, 0, 3, 0, 0][i] && s.info == [0, 0, 1, 0, 0][i]
            && s.addralign == [0, 16, 8, 1, 1][i] && s.entsize == [0, 0, 24, 0, 0][i]
  {
    hide SymbolNames;
  }

  /** The null symbol and the two boundary symbols, field by field. */
  lemma SymbolsOfObject(container: seq<byte>, prefix: Option<CString>, k: nat)
    requires |container| < MAX_CONTAINER && k < 3
    ensures var f, p := ObjectBytes(container, prefix), PlanOf(|container|, |SymbolNames(prefix)|);
            var at := p.symtab + k * 24;
            && at + 24 <= |f|
            && U32At(f, at) == [0, 1, 2 + |StartName(prefix)|][k]
            && f[at + 4] == [0, 0x11, 0x11][k] && f[at + 5] == 0 && U16At(f, at + 6) == [0, 1, 1][k]
            && U64At(f, at + 8) == [0, 0, |container|][k] && U64At(f, at + 16) == 0
  {
    hide *;
    var f, p, syms := ObjectBytes(container, prefix), PlanOf(|container|, |SymbolNames(prefix)|), Symbols(|container|, prefix);
    ObjectParts(container, prefix);
    HeaderSizes();
    ElfDump.SymBlock(syms, k);
    PlacedTrans(f, p.symtab, Flatten(SymBlocks(syms)), k * 24, EncodeSym(syms[k]));
    SymSpelled(f, p.symtab + k * 24, syms[k]);
    SymbolValues(|container|, prefix, k);
  }

  lemma SymbolValues(size: nat, prefix: Option<CString>, k: nat)
    requires size < MAX_CONTAINER && k < 3
    ensures var s := Symbols(size, prefix)[k];
            && s.name == [0, 1, 2 + |StartName(prefix)|][k] && s.info == [0, 0x11, 0x11][k] && s.other == 0
            && s.shndx == [0, 1, 1][k] && s.value == [0, 0, size][k] && s.size == 0
  {
    hide StartName;
  }

  /** The bytes of the sections: container, string tables. */
  lemma ContentsOfObject(container: seq<byte>, prefix: Option<CString>)
    requires |container| < MAX_CONTAINER
    ensures var f, p := ObjectBytes(container, prefix), PlanOf(|container|, |SymbolNames(prefix)|);
            && 64 + |container| <= |f| && f[64..64 + |container|] == container
            && Placed(f, p.strtab, [0] + StartName(prefix) + [0] + EndName(prefix) + [0])
            && Placed(f, p.shstrtab, SectionNames())
  {
    hide *;
    var f := ObjectBytes(container, prefix);
    ObjectParts(container, prefix);
    PlanSpelled(|container|, |SymbolNames(prefix)|);
    ElfDump.PlacedSlice(f, 64, container);
    SymbolNamesJoin(prefix);
  }

  lemma SymbolNamesJoin(prefix: Option<CString>)
    ensures SymbolNames(prefix) == [0] + StartName(prefix) + [0] + EndName(prefix) + [0]
  {
    hide StartName, EndName;
    ConcatAssoc([0], StartName(prefix), [0]);
    ConcatAssoc([0] + (StartName(prefix) + [0]), EndName(prefix), [0]);
  }

  // ---------- what elfresdump refuses ----------

  /** The header checks, by position. */
  lemma HeaderCheckSpelled(f: seq<byte>)
    ensures ElfDump.HeaderCheck(f) == Some(ElfDump.NotElf) <==> |f| < 64 || f[..4] != [0x7F, 0x45, 0x4C, 0x46]
    ensures |f| >= 64 && f[..4] == [0x7F, 0x45, 0x4C, 0x46] ==>
      (ElfDump.HeaderCheck(f) == Some(ElfDump.Unsupported) <==> f[4] != 2 || f[5] != 1)
    ensures |f| >= 64 && f[..6] == [0x7F, 0x45, 0x4C, 0x46, 2, 1] ==>
      && (ElfDump.HeaderCheck(f) == Some(ElfDump.NoSections) <==>
            U64At(f, 40) == 0 || U16At(f, 60) == 0
            || (U64At(f, 40) + U16At(f, 60) * U16At(f, 58)) % 0x1_0000_0000_0000_0000 > |f|)
      && (ElfDump.HeaderCheck(f).None? || ElfDump.HeaderCheck(f) == Some(ElfDump.NoSections))
  {
    hide U16At, U64At;
    if |f| >= 64 && f[..6] == [0x7F, 0x45, 0x4C, 0x46, 2, 1] {
      assert f[..4] == f[..6][..4] && f[4] == f[..6][4] && f[5] == f[..6][5];
    }
  }
}
