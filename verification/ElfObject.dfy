/**
  The relocatable object as a function of the container and the symbol prefix
  (src/elfrc/elf_writer.c), and the program that writes it.
 */
module ElfObject {
  import opened Bytes
  import opened ByteBuffers
  import opened ElfFormat

  // ---------- names ----------

  /** The bytes of an ASCII literal. */
  function Ascii(s: string): (r: seq<byte>)
    requires forall i :: 0 <= i < |s| ==> 0 < s[i] as int < 128
    ensures |r| == |s| && forall i :: 0 <= i < |s| ==> r[i] == (s[i] as int) as byte
    ensures 0 !in r
  {
    seq(|s|, i requires 0 <= i < |s| => (s[i] as int) as byte)
  }

  const RESOURCE_NAME: seq<byte> := Ascii(".resource")
  const SYMTAB_NAME: seq<byte> := Ascii(".symtab")
  const STRTAB_NAME: seq<byte> := Ascii(".strtab")
  const SHSTRTAB_NAME: seq<byte> := Ascii(".shstrtab")

  /** snprintf into a buffer of 256: at most 255 bytes survive. */
  function Truncated(s: seq<byte>): (r: seq<byte>)
    ensures |r| <= 255
  {
    if |s| <= 255 then s else s[..255]
  }

  /** `symbol_prefix && symbol_prefix[0] != '\\0'` */
  predicate HasPrefix(prefix: Option<CString>) { prefix.Some? && prefix.value != [] }

  function FullName(prefix: Option<CString>, ending: seq<byte>): seq<byte> {
    if HasPrefix(prefix) then Ascii("_elfr_") + prefix.value + Ascii("_resource_") + ending
    else Ascii("_elfr") + Ascii("_resource_") + ending
  }

  function StartName(prefix: Option<CString>): seq<byte> { Truncated(FullName(prefix, Ascii("start"))) }

  function EndName(prefix: Option<CString>): seq<byte> { Truncated(FullName(prefix, Ascii("end"))) }

  // ---------- layout ----------

  function SectionNames(): (r: seq<byte>)
    ensures |r| == 37
  {
    [0] + (RESOURCE_NAME + [0]) + (SYMTAB_NAME + [0]) + (STRTAB_NAME + [0]) + (SHSTRTAB_NAME + [0])
  }

  const RESOURCE_NAME_AT: nat := 1
  const SYMTAB_NAME_AT: nat := 11
  const STRTAB_NAME_AT: nat := 19
  const SHSTRTAB_NAME_AT: nat := 27

  function SymbolNames(prefix: Option<CString>): seq<byte> {
    [0] + (StartName(prefix) + [0]) + (EndName(prefix) + [0])
  }

  /** Where everything goes for a container of `size` bytes and a symbol string table of `names` bytes. */
  datatype Plan = Plan(resource: nat, symtab: nat, strtab: nat, shstrtab: nat, sections: nat, total: nat)

  function PlanOf(size: nat, names: nat): (p: Plan)
    ensures p.resource == EHDR_SIZE == 64 && p.resource + size <= p.symtab && p.symtab + 72 == p.strtab
    ensures p.strtab + names == p.shstrtab && p.shstrtab + 37 <= p.sections && p.sections + 320 == p.total
    ensures p.total < size + names + 520
  {
    var symtab := AlignUp(EHDR_SIZE + size, 8);
    var strtab := symtab + 3 * SYM_SIZE;
    var shstrtab := strtab + names;
    var sections := AlignUp(shstrtab + 37, 8);
    Plan(EHDR_SIZE, symtab, strtab, shstrtab, sections, sections + 5 * SHDR_SIZE)
  }

  const MAX_CONTAINER: nat := 0x4000_0000_0000_0000

  function Symbols(size: nat, prefix: Option<CString>): (r: seq<Sym>)
    requires size < MAX_CONTAINER
    ensures |r| == 3
  {
    [Sym(0, 0, 0, 0, 0, 0),
     Sym(1, 0x11, 0, 1, 0, 0),
     Sym(2 + |StartName(prefix)|, 0x11, 0, 1, size, 0)]
  }

  function Sections(size: nat, prefix: Option<CString>): (r: seq<Shdr>)
    requires size < MAX_CONTAINER
    ensures |r| == 5
  {
    NamesShort(prefix);
    var names := |SymbolNames(prefix)|;
    var p := PlanOf(size, names);
    [Shdr(0, 0, 0, 0, 0, 0, 0, 0, 0, 0),
     Shdr(RESOURCE_NAME_AT, 1, 2, 0, p.resource, size, 0, 0, 16, 0),
     Shdr(SYMTAB_NAME_AT, 2, 0, 0, p.symtab, 3 * SYM_SIZE, 3, 1, 8, SYM_SIZE),
     Shdr(STRTAB_NAME_AT, 3, 0, 0, p.strtab, names, 0, 0, 1, 0),
     Shdr(SHSTRTAB_NAME_AT, 3, 0, 0, p.shstrtab, 37, 0, 0, 1, 0)]
  }

  function SymBlocks(syms: seq<Sym>): (r: seq<seq<byte>>)
    ensures |r| == |syms| && forall i :: 0 <= i < |r| ==> |r[i]| == SYM_SIZE
  {
    seq(|syms|, i requires 0 <= i < |syms| => EncodeSym(syms[i]))
  }

  function ShdrBlocks(shdrs: seq<Shdr>): (r: seq<seq<byte>>)
    ensures |r| == |shdrs| && forall i :: 0 <= i < |r| ==> |r[i]| == SHDR_SIZE
  {
    seq(|shdrs|, i requires 0 <= i < |shdrs| => EncodeShdr(shdrs[i]))
  }

  function HeaderOf(size: nat, names: nat): Ehdr
    requires size < MAX_CONTAINER && names < 1024
  {
    Ehdr(PlanOf(size, names).sections, SHDR_SIZE, 5, 4)
  }

  /** The file behind the ELF header. */
  function Body(container: seq<byte>, prefix: Option<CString>): seq<byte>
    requires |container| < MAX_CONTAINER
  {
    var p := PlanOf(|container|, |SymbolNames(prefix)|);
    container
    + Zeros(Padding(EHDR_SIZE + |container|, 8)) + Flatten(SymBlocks(Symbols(|container|, prefix)))
    + SymbolNames(prefix) + SectionNames()
    + Zeros(Padding(p.shstrtab + 37, 8)) + Flatten(ShdrBlocks(Sections(|container|, prefix)))
  }

  function ObjectBytes(container: seq<byte>, prefix: Option<CString>): seq<byte>
    requires |container| < MAX_CONTAINER
  {
    NamesShort(prefix);
    EncodeEhdr(HeaderOf(|container|, |SymbolNames(prefix)|)) + Body(container, prefix)
  }

  /** Every part lies where the plan says. */
  lemma ObjectParts(container: seq<byte>, prefix: Option<CString>)
    requires |container| < MAX_CONTAINER
    ensures |SymbolNames(prefix)| < 1024
    ensures var f, p := ObjectBytes(container, prefix), PlanOf(|container|, |SymbolNames(prefix)|);
            && |f| == p.total
            && Placed(f, 0, EncodeEhdr(HeaderOf(|container|, |SymbolNames(prefix)|)))
            && Placed(f, p.resource, container)
            && Placed(f, p.symtab, Flatten(SymBlocks(Symbols(|container|, prefix))))
            && Placed(f, p.strtab, SymbolNames(prefix))
            && Placed(f, p.shstrtab, SectionNames())
            && Placed(f, p.sections, Flatten(ShdrBlocks(Sections(|container|, prefix))))
  {
    hide Placed, Flatten, EncodeEhdr, SymbolNames, SectionNames, Sections, Symbols, Zeros, SymBlocks, ShdrBlocks, HeaderOf;
    NamesShort(prefix);
    var p := PlanOf(|container|, |SymbolNames(prefix)|);
    var h := EncodeEhdr(HeaderOf(|container|, |SymbolNames(prefix)|));
    var z1, z2 := Zeros(Padding(EHDR_SIZE + |container|, 8)), Zeros(Padding(p.shstrtab + 37, 8));
    var syms, shdrs := Flatten(SymBlocks(Symbols(|container|, prefix))), Flatten(ShdrBlocks(Sections(|container|, prefix)));
    FlattenLength(SymBlocks(Symbols(|container|, prefix)), SYM_SIZE);
    FlattenLength(ShdrBlocks(Sections(|container|, prefix)), SHDR_SIZE);
    EightPlaced(h, container, z1, syms, SymbolNames(prefix), SectionNames(), z2, shdrs);
  }

  lemma EightPlaced(h: seq<byte>, a: seq<byte>, b: seq<byte>, c: seq<byte>, d: seq<byte>, e: seq<byte>, g: seq<byte>, k: seq<byte>)
    ensures var f := h + (a + b + c + d + e + g + k);
            && Placed(f, 0, h) && Placed(f, |h|, a)
            && Placed(f, |h| + |a| + |b|, c)
            && Placed(f, |h| + |a| + |b| + |c|, d)
            && Placed(f, |h| + |a| + |b| + |c| + |d|, e)
            && Placed(f, |h| + |a| + |b| + |c| + |d| + |e| + |g|, k)
  {
    hide Placed;
    var f := h + (a + b + c + d + e + g + k);
    PlacedFront(f, []);
    assert f + [] == f;
    PlacedSplit(f, 0, h, a + b + c + d + e + g + k);
    PlacedSplit(f, |h|, a + b + c + d + e + g, k);
    PlacedSplit(f, |h|, a + b + c + d + e, g);
    PlacedSplit(f, |h|, a + b + c + d, e);
    PlacedSplit(f, |h|, a + b + c, d);
    PlacedSplit(f, |h|, a + b, c);
    PlacedSplit(f, |h|, a, b);
  }

  // ---------- the program ----------

  lemma NameLengths()
    ensures |RESOURCE_NAME| == 9 && |SYMTAB_NAME| == 7 && |STRTAB_NAME| == 7 && |SHSTRTAB_NAME| == 9
    ensures Zeros(1) == [0]
  {
  }

  /** .shstrtab: each append returns the offset its section header will carry. */
  method WriteSectionNames() returns (buf: ByteBuf, resource: nat, symtab: nat, strtab: nat, shstrtab: nat)
    ensures fresh(buf.Repr) && buf.Valid() && buf.Contents() == SectionNames()
    ensures resource == RESOURCE_NAME_AT && symtab == SYMTAB_NAME_AT
    ensures strtab == STRTAB_NAME_AT && shstrtab == SHSTRTAB_NAME_AT
  {
    hide Step, Linear, Zeros, RESOURCE_NAME, SYMTAB_NAME, STRTAB_NAME, SHSTRTAB_NAME, ByteBuf.View;
    NameLengths();
    buf := new ByteBuf();
    var _ := buf.AppendZeros(1);
    assert buf.Contents() == [0];
    resource := buf.Append(RESOURCE_NAME + [0]);
    symtab := buf.Append(SYMTAB_NAME + [0]);
    strtab := buf.Append(STRTAB_NAME + [0]);
    shstrtab := buf.Append(SHSTRTAB_NAME + [0]);
  }

  /** .strtab: the names of the two boundary symbols. */
  method WriteSymbolNames(prefix: Option<CString>) returns (buf: ByteBuf, start: nat, end: nat)
    ensures fresh(buf.Repr) && buf.Valid() && buf.Contents() == SymbolNames(prefix)
    ensures start == 1 && end == 2 + |StartName(prefix)|
  {
    hide Step, Linear, Zeros, StartName, EndName, ByteBuf.View;
    NameLengths();
    NamesShort(prefix);
    buf := new ByteBuf();
    var _ := buf.AppendZeros(1);
    assert buf.Contents() == [0];
    start := buf.Append(StartName(prefix) + [0]);
    end := buf.Append(EndName(prefix) + [0]);
  }

  /** The symbol array: the null symbol, then the two boundary symbols. */
  method MakeSymbols(size: nat, prefix: Option<CString>, start: nat, end: nat) returns (syms: array<Sym>)
    requires size < MAX_CONTAINER && start == 1 && end == 2 + |StartName(prefix)|
    ensures fresh(syms) && syms[..] == Symbols(size, prefix)
  {
    hide StartName;
    syms := new Sym[3](_ => Sym(0, 0, 0, 0, 0, 0));
    syms[1] := Sym(start % TWO32, 0x11, 0, 1, 0, 0);
    syms[2] := Sym(end % TWO32, 0x11, 0, 1, size, 0);
  }

  /** The section header array, from the offsets found while appending. */
  method MakeSections(size: nat, prefix: Option<CString>, resource: nat, symtab: nat, strtab: nat, shstrtab: nat)
    returns (shdrs: array<Shdr>)
    requires size < MAX_CONTAINER
    requires var p := PlanOf(size, |SymbolNames(prefix)|);
             resource == p.resource && symtab == p.symtab && strtab == p.strtab && shstrtab == p.shstrtab
    ensures fresh(shdrs) && shdrs[..] == Sections(size, prefix)
  {
    hide PlanOf, SymbolNames;
    NamesShort(prefix);
    shdrs := new Shdr[5](_ => Shdr(0, 0, 0, 0, 0, 0, 0, 0, 0, 0));
    shdrs[1] := Shdr(RESOURCE_NAME_AT, 1, 2, 0, resource, size, 0, 0, 16, 0);
    shdrs[2] := Shdr(SYMTAB_NAME_AT, 2, 0, 0, symtab, 3 * SYM_SIZE, 3, 1, 8, SYM_SIZE);
    shdrs[3] := Shdr(STRTAB_NAME_AT, 3, 0, 0, strtab, |SymbolNames(prefix)|, 0, 0, 1, 0);
    shdrs[4] := Shdr(SHSTRTAB_NAME_AT, 3, 0, 0, shstrtab, 37, 0, 0, 1, 0);
  }

  lemma BodyAppended(h: seq<byte>, container: seq<byte>, prefix: Option<CString>)
    requires |container| < MAX_CONTAINER
    ensures var p := PlanOf(|container|, |SymbolNames(prefix)|);
            h + container + Zeros(Padding(EHDR_SIZE + |container|, 8)) + Flatten(SymBlocks(Symbols(|container|, prefix)))
            + SymbolNames(prefix) + SectionNames()
            + Zeros(Padding(p.shstrtab + 37, 8)) + Flatten(ShdrBlocks(Sections(|container|, prefix)))
            == h + Body(container, prefix)
  {
    hide PlanOf, Zeros, Flatten, SymBlocks, ShdrBlocks, Symbols, Sections, SymbolNames, SectionNames;
    var p := PlanOf(|container|, |SymbolNames(prefix)|);
    SevenAppended(h, container, Zeros(Padding(EHDR_SIZE + |container|, 8)), Flatten(SymBlocks(Symbols(|container|, prefix))),
      SymbolNames(prefix), SectionNames(), Zeros(Padding(p.shstrtab + 37, 8)), Flatten(ShdrBlocks(Sections(|container|, prefix))));
  }

  lemma SevenAppended(f: seq<byte>, a: seq<byte>, b: seq<byte>, c: seq<byte>, d: seq<byte>, e: seq<byte>, g: seq<byte>, h: seq<byte>)
    ensures f + a + b + c + d + e + g + h == f + (a + b + c + d + e + g + h)
  {
    ConcatAssoc(f, a, b);
    ConcatAssoc(f, a + b, c);
    ConcatAssoc(f, a + b + c, d);
    ConcatAssoc(f, a + b + c + d, e);
    ConcatAssoc(f, a + b + c + d + e, g);
    ConcatAssoc(f, a + b + c + d + e + g, h);
  }

  /** The container from a 16-byte boundary and the symbols from an 8-byte boundary. */
  method WriteContainer(file: ByteBuf, container: seq<byte>, syms: array<Sym>) returns (resource: nat, symtab: nat)
    requires file.Valid() && file.len == EHDR_SIZE && |container| < MAX_CONTAINER
    requires syms.Length == 3 && syms !in file.Repr
    modifies file.Repr
    ensures file.Valid() && fresh(file.Repr - old(file.Repr))
    ensures file.Contents() == old(file.Contents()) + container + Zeros(Padding(EHDR_SIZE + |container|, 8))
                               + Flatten(SymBlocks(old(syms[..])))
    ensures resource == EHDR_SIZE && symtab == AlignUp(EHDR_SIZE + |container|, 8)
    ensures file.len == symtab + 3 * SYM_SIZE
  {
    hide Step, Linear, Zeros, Flatten, SymBlocks, ByteBuf.View;
    ghost var head := file.Contents();
    file.Align(16);
    NoZeros(head);
    resource := file.Append(container);
    file.Align(8);
    FlattenLength(SymBlocks(syms[..]), SYM_SIZE);
    symtab := file.Append(Flatten(SymBlocks(syms[..])));
    ghost var whole := file.Contents();
    file.Align(1);
    NoZeros(whole);
  }

  /** The section headers from an 8-byte boundary. */
  method WriteSections(file: ByteBuf, size: nat, prefix: Option<CString>, resource: nat, symtab: nat, strtab: nat, shstrtab: nat)
    returns (shoff: nat)
    requires size < MAX_CONTAINER && file.Valid() && file.len == PlanOf(size, |SymbolNames(prefix)|).shstrtab + 37
    requires var p := PlanOf(size, |SymbolNames(prefix)|);
             resource == p.resource && symtab == p.symtab && strtab == p.strtab && shstrtab == p.shstrtab
    modifies file.Repr
    ensures file.Valid() && fresh(file.Repr - old(file.Repr))
    ensures shoff == PlanOf(size, |SymbolNames(prefix)|).sections
    ensures file.Contents() == old(file.Contents())
              + Zeros(Padding(PlanOf(size, |SymbolNames(prefix)|).shstrtab + 37, 8)) + Flatten(ShdrBlocks(Sections(size, prefix)))
  {
    hide Step, Linear, Zeros, Flatten, SymbolNames, Sections, ShdrBlocks, PlanOf, ByteBuf.View, Padding;
    PlanOfSections(size, prefix);
    file.Align(8);
    shoff := file.len;
    var shdrs := MakeSections(size, prefix, resource, symtab, strtab, shstrtab);
    SectionsLength(size, prefix);
    var _ := file.Append(Flatten(ShdrBlocks(shdrs[..])));
  }

  lemma PlanOfSections(size: nat, prefix: Option<CString>)
    requires size < MAX_CONTAINER
    ensures var p := PlanOf(size, |SymbolNames(prefix)|);
            && p.sections == p.shstrtab + 37 + Padding(p.shstrtab + 37, 8)
            && p.sections + 5 * SHDR_SIZE < MAX_LEN
  {
    hide SymbolNames, Padding;
    NamesShort(prefix);
  }

  lemma SectionsLength(size: nat, prefix: Option<CString>)
    requires size < MAX_CONTAINER
    ensures |Flatten(ShdrBlocks(Sections(size, prefix)))| == 5 * SHDR_SIZE
  {
    hide Flatten, PlanOf, SymbolNames;
    FlattenLength(ShdrBlocks(Sections(size, prefix)), SHDR_SIZE);
  }

  /** The string tables, then the section headers. */
  method WriteTables(file: ByteBuf, size: nat, prefix: Option<CString>, resource: nat, symtab: nat,
                     strtab: ByteBuf, shstrtab: ByteBuf) returns (shoff: nat)
    requires size < MAX_CONTAINER && file.Valid() && file.len == PlanOf(size, |SymbolNames(prefix)|).strtab
    requires var p := PlanOf(size, |SymbolNames(prefix)|); resource == p.resource && symtab == p.symtab
    requires strtab.Valid() && strtab.Contents() == SymbolNames(prefix)
    requires shstrtab.Valid() && shstrtab.Contents() == SectionNames()
    requires strtab.Repr !! file.Repr && shstrtab.Repr !! file.Repr
    modifies file.Repr
    ensures file.Valid() && fresh(file.Repr - old(file.Repr))
    ensures var p := PlanOf(size, |SymbolNames(prefix)|);
            && shoff == p.sections
            && file.Contents() == old(file.Contents()) + SymbolNames(prefix) + SectionNames()
                 + Zeros(Padding(p.shstrtab + 37, 8)) + Flatten(ShdrBlocks(Sections(size, prefix)))
  {
    hide Step, Linear, Zeros, Flatten, SymbolNames, SectionNames, Sections, ShdrBlocks, ByteBuf.View, Padding;
    NamesShort(prefix);
    PlanOfTables(size, prefix);
    var names, sectionNames := strtab.data[..strtab.len], shstrtab.data[..shstrtab.len];
    var strtabOff := file.Append(names);
    var shstrtabOff := file.Append(sectionNames);
    shoff := WriteSections(file, size, prefix, resource, symtab, strtabOff, shstrtabOff);
  }

  lemma PlanOfTables(size: nat, prefix: Option<CString>)
    ensures var n := |SymbolNames(prefix)|;
            PlanOf(size, n).shstrtab == PlanOf(size, n).strtab + n && |SectionNames()| == 37
  {
    hide SymbolNames, AlignUp;
    NameLengths();
  }

  /** Everything behind the reserved ELF header, in order; returns the offset of the section headers. */
  method WriteBody(file: ByteBuf, container: seq<byte>, prefix: Option<CString>) returns (shoff: nat)
    requires file.Valid() && file.len == EHDR_SIZE && |container| < MAX_CONTAINER
    modifies file.Repr
    ensures file.Valid() && fresh(file.Repr - old(file.Repr))
    ensures file.Contents() == old(file.Contents()) + Body(container, prefix)
    ensures shoff == PlanOf(|container|, |SymbolNames(prefix)|).sections
  {
    hide Step, Linear, Zeros, Flatten, SymbolNames, SectionNames, Symbols, Sections, Body, Padding,
         SymBlocks, ShdrBlocks, ByteBuf.View, StartName, EndName;
    ghost var head := file.Contents();
    var size := |container|;
    var shstrtab, _, _, _, _ := WriteSectionNames();
    var strtab, offStart, offEnd := WriteSymbolNames(prefix);
    var syms := MakeSymbols(size, prefix, offStart, offEnd);
    var resourceOff, symtabOff := WriteContainer(file, container, syms);
    shoff := WriteTables(file, size, prefix, resourceOff, symtabOff, strtab, shstrtab);
    BodyAppended(head, container, prefix);
  }

  lemma NoZeros(s: seq<byte>)
    ensures s + Zeros(0) == s
  {
  }

  lemma NamesShort(prefix: Option<CString>)
    ensures |SymbolNames(prefix)| <= 513 && |StartName(prefix)| <= 255 && |EndName(prefix)| <= 255
  {
    hide FullName;
  }

  /** `elfrc_write_elf_object` up to the finished file buffer. */
  method WriteElfObject(container: seq<byte>, prefix: Option<CString>) returns (file: ByteBuf)
    requires |container| < MAX_CONTAINER
    ensures fresh(file.Repr) && file.Valid()
    ensures file.Contents() == ObjectBytes(container, prefix)
  {
    hide Step, Linear, Zeros, EncodeEhdr, Body, SymbolNames, PlanOf, ByteBuf.View;
    NamesShort(prefix);
    file := new ByteBuf();
    var _ := file.AppendZeros(EHDR_SIZE);
    ghost var head := file.Contents();
    var shoff := WriteBody(file, container, prefix);
    var ehdr := Ehdr(shoff, SHDR_SIZE, 5, 4);
    FrontReplaced(head, EncodeEhdr(ehdr), Body(container, prefix));
    file.Patch(0, EncodeEhdr(ehdr));
  }

  lemma FrontReplaced(head: seq<byte>, e: seq<byte>, body: seq<byte>)
    requires |head| == |e|
    ensures (head + body)[..0] + e + (head + body)[0 + |e|..] == e + body
  {
  }
}
