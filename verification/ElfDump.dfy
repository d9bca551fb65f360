/**
  How elfresdump finds the container inside an ELF file (src/elfresdump/main.c
  lines 86-121), and the round trip with the writer.
 */
module ElfDump {
  import opened Bytes
  import opened ElfFormat
  import opened ElfObject

  datatype Found =
    | NotElf
    | Unsupported
    | NoSections
    | NoResource
    | Beyond
    | Section(offset: nat, size: nat)

  /** The checks before the section walk, with the sum over uint64_t. */
  function HeaderCheck(f: seq<byte>): Option<Found> {
    if |f| < EHDR_SIZE || f[..4] != ELFMAG then Some(NotElf)
    else if f[4] != ELFCLASS64 || f[5] != ELFDATA2LSB then Some(Unsupported)
    else
      var h := DecodeEhdr(f);
      if h.shoff == 0 || h.shnum == 0 || (h.shoff + h.shnum * h.shentsize) % TWO64 > |f| then Some(NoSections)
      else None
  }

  function SectionAt(f: seq<byte>, i: nat): Shdr
    requires |f| >= EHDR_SIZE && DecodeEhdr(f).shoff + i * SHDR_SIZE + SHDR_SIZE <= |f|
  {
    DecodeShdr(f, DecodeEhdr(f).shoff + i * SHDR_SIZE)
  }

  /** The i-th section header, where the walk looks for it, lies in the file. */
  predicate HeaderInside(f: seq<byte>, i: nat)
    requires |f| >= EHDR_SIZE
  {
    DecodeEhdr(f).shoff + i * SHDR_SIZE + SHDR_SIZE <= |f|
  }

  /** Whether section i is called .resource; None when reading its header or its name leaves the file. */
  function NameCheck(f: seq<byte>, i: nat): Option<bool>
    requires |f| >= EHDR_SIZE && HeaderInside(f, DecodeEhdr(f).shstrndx)
  {
    if !HeaderInside(f, i) then None
    else Compare(f, SectionAt(f, DecodeEhdr(f).shstrndx).offset + SectionAt(f, i).name, RESOURCE_NAME)
  }

  /** The walk from section i on. */
  function WalkFrom(f: seq<byte>, i: nat): Found
    requires |f| >= EHDR_SIZE && HeaderInside(f, DecodeEhdr(f).shstrndx) && i <= DecodeEhdr(f).shnum
    decreases DecodeEhdr(f).shnum - i
  {
    if i == DecodeEhdr(f).shnum then NoResource
    else if NameCheck(f, i).None? then Beyond
    else if NameCheck(f, i).value then Section(SectionAt(f, i).offset, SectionAt(f, i).size)
    else WalkFrom(f, i + 1)
  }

  function Locate(f: seq<byte>): Found {
    if HeaderCheck(f).Some? then HeaderCheck(f).value
    else if !HeaderInside(f, DecodeEhdr(f).shstrndx) then Beyond
    else WalkFrom(f, 0)
  }

  /** Section k is where the walk from `from` stops: all before it have other names. */
  predicate StopsAt(f: seq<byte>, from: nat, k: nat)
    requires |f| >= EHDR_SIZE && HeaderInside(f, DecodeEhdr(f).shstrndx) && from <= k < DecodeEhdr(f).shnum
  {
    NameCheck(f, k) != Some(false) && forall j :: from <= j < k ==> NameCheck(f, j) == Some(false)
  }

  /** The bytes elfresdump hands to the reader. It trusts the section's offset and size; where
      they leave the file there is no such byte string, and None stands for that. */
  function Extracted(f: seq<byte>): Option<seq<byte>> {
    var r := Locate(f);
    if r.Section? && r.offset + r.size <= |f| then Some(f[r.offset..r.offset + r.size]) else None
  }

  /** On any file: there is no resource exactly when all names are read and are different; otherwise
      the walk stops at one section, the first that is called .resource or cannot be read, and which
      of the two it is decides the answer. */
  lemma {:induction false} WalkFindsFirst(f: seq<byte>, i: nat)
    requires |f| >= EHDR_SIZE && HeaderInside(f, DecodeEhdr(f).shstrndx) && i <= DecodeEhdr(f).shnum
    ensures WalkFrom(f, i) == NoResource <==> forall k :: i <= k < DecodeEhdr(f).shnum ==> NameCheck(f, k) == Some(false)
    ensures WalkFrom(f, i) != NoResource ==>
      exists k :: i <= k < DecodeEhdr(f).shnum && StopsAt(f, i, k)
                  && WalkFrom(f, i) == if NameCheck(f, k).None? then Beyond
                                       else Section(SectionAt(f, k).offset, SectionAt(f, k).size)
    decreases DecodeEhdr(f).shnum - i
  {
    hide DecodeEhdr, SectionAt, Compare;
    if i == DecodeEhdr(f).shnum {
    } else {
      WalkFindsFirst(f, i + 1);
      if NameCheck(f, i) != Some(false) {
        assert StopsAt(f, i, i);
      } else if WalkFrom(f, i + 1) != NoResource {
        var k :| i + 1 <= k < DecodeEhdr(f).shnum && StopsAt(f, i + 1, k)
                 && WalkFrom(f, i + 1) == if NameCheck(f, k).None? then Beyond
                                          else Section(SectionAt(f, k).offset, SectionAt(f, k).size);
        assert StopsAt(f, i, k);
      }
    }
  }

  function NameOffset(f: seq<byte>, k: nat): nat
    requires |f| >= EHDR_SIZE && HeaderInside(f, DecodeEhdr(f).shstrndx) && HeaderInside(f, k)
  {
    SectionAt(f, DecodeEhdr(f).shstrndx).offset + SectionAt(f, k).name
  }

  /** Section k's header is not in the file, or all that the file holds of its name begins ".resource". */
  predicate Unreadable(f: seq<byte>, k: nat)
    requires |f| >= EHDR_SIZE && HeaderInside(f, DecodeEhdr(f).shstrndx)
  {
    !HeaderInside(f, k) || Overruns(f, NameOffset(f, k), RESOURCE_NAME)
  }

  predicate IsResource(f: seq<byte>, k: nat)
    requires |f| >= EHDR_SIZE && HeaderInside(f, DecodeEhdr(f).shstrndx)
  {
    HeaderInside(f, k) && CStringIs(f, NameOffset(f, k), RESOURCE_NAME)
  }

  lemma NameCheckMeans(f: seq<byte>, k: nat)
    requires |f| >= EHDR_SIZE && HeaderInside(f, DecodeEhdr(f).shstrndx)
    ensures NameCheck(f, k) == None <==> Unreadable(f, k)
    ensures NameCheck(f, k) == Some(true) <==> IsResource(f, k)
    ensures NameCheck(f, k) == Some(false) <==> !Unreadable(f, k) && !IsResource(f, k)
  {
    hide DecodeEhdr, SectionAt, Compare, Overruns, CStringIs;
    var c := NameCheck(f, k);
    if c.Some? {
      assert c == if c.value then Some(true) else Some(false);
    }
    if HeaderInside(f, k) {
      CompareOverruns(f, NameOffset(f, k), RESOURCE_NAME);
      CompareDecides(f, NameOffset(f, k), RESOURCE_NAME);
    }
  }

  /** Section k cannot be read, and nothing before it ends the walk. */
  predicate FirstUnreadable(f: seq<byte>, k: nat)
    requires |f| >= EHDR_SIZE && HeaderInside(f, DecodeEhdr(f).shstrndx)
  {
    Unreadable(f, k) && forall j :: 0 <= j < k ==> !Unreadable(f, j) && !IsResource(f, j)
  }

  lemma FirstUnreadableStops(f: seq<byte>, k: nat)
    requires |f| >= EHDR_SIZE && HeaderInside(f, DecodeEhdr(f).shstrndx) && k < DecodeEhdr(f).shnum
    ensures FirstUnreadable(f, k) <==> StopsAt(f, 0, k) && NameCheck(f, k) == None
  {
    hide DecodeEhdr, NameCheck, Unreadable, IsResource, HeaderInside;
    forall j: nat
      ensures NameCheck(f, j) == None <==> Unreadable(f, j)
      ensures NameCheck(f, j) == Some(false) <==> !Unreadable(f, j) && !IsResource(f, j)
    {
      NameCheckMeans(f, j);
    }
  }

  lemma {:induction false} StopDecides(f: seq<byte>, i: nat, k: nat)
    requires |f| >= EHDR_SIZE && HeaderInside(f, DecodeEhdr(f).shstrndx)
    requires i <= k < DecodeEhdr(f).shnum && StopsAt(f, i, k)
    ensures WalkFrom(f, i) == Beyond <==> NameCheck(f, k) == None
    decreases k - i
  {
    hide DecodeEhdr, SectionAt, Compare, HeaderInside;
    if i == k {
    } else {
      StopDecides(f, i + 1, k);
    }
  }

  lemma WalkLeavesIff(f: seq<byte>)
    requires |f| >= EHDR_SIZE && HeaderInside(f, DecodeEhdr(f).shstrndx)
    ensures WalkFrom(f, 0) == Beyond <==> exists k: nat :: k < DecodeEhdr(f).shnum && FirstUnreadable(f, k)
  {
    hide DecodeEhdr, SectionAt, NameCheck, FirstUnreadable, HeaderInside, WalkFrom, StopsAt;
    WalkFindsFirst(f, 0);
    if k: nat :| k < DecodeEhdr(f).shnum && FirstUnreadable(f, k) {
      FirstUnreadableStops(f, k);
      StopDecides(f, 0, k);
    }
    if WalkFrom(f, 0) == Beyond {
      var k: nat :| k < DecodeEhdr(f).shnum && StopsAt(f, 0, k);
      StopDecides(f, 0, k);
      FirstUnreadableStops(f, k);
    }
  }

  /** A file that passes the header checks is read outside exactly when the header of the section name
      table is not in it, or some section cannot be read and no section before it is called .resource. */
  lemma BeyondIff(f: seq<byte>)
    requires HeaderCheck(f).None?
    ensures |f| >= EHDR_SIZE
    ensures Locate(f) == Beyond <==>
      || !HeaderInside(f, DecodeEhdr(f).shstrndx)
      || exists k: nat :: k < DecodeEhdr(f).shnum && FirstUnreadable(f, k)
  {
    hide DecodeEhdr, WalkFrom, FirstUnreadable;
    if HeaderInside(f, DecodeEhdr(f).shstrndx) {
      WalkLeavesIff(f);
    }
  }

  /** The headers the walk indexes lie in the file and the names it compares end. */
  predicate Walkable(f: seq<byte>) {
    && |f| >= EHDR_SIZE
    && HeaderInside(f, DecodeEhdr(f).shstrndx)
    && (forall i :: 0 <= i < DecodeEhdr(f).shnum ==>
          HeaderInside(f, i) && Terminated(f, SectionAt(f, DecodeEhdr(f).shstrndx).offset + SectionAt(f, i).name))
  }

  lemma TerminatedIsRead(f: seq<byte>, off: nat)
    requires Terminated(f, off)
    ensures Compare(f, off, RESOURCE_NAME).Some? && !Overruns(f, off, RESOURCE_NAME)
  {
    hide Terminated, Overruns;
    StaysInsideIffTerminated(f, off);
    CompareOverruns(f, off, RESOURCE_NAME);
  }

  /** Such a file keeps the walk inside. */
  lemma WalkableStaysInside(f: seq<byte>)
    requires Walkable(f)
    ensures Locate(f) != Beyond
  {
    hide DecodeEhdr, SectionAt, Compare, Terminated, Overruns, RESOURCE_NAME, WalkFrom;
    if HeaderCheck(f).None? {
      BeyondIff(f);
      forall k: nat | k < DecodeEhdr(f).shnum
        ensures !Unreadable(f, k)
      {
        assert HeaderInside(f, k);
        TerminatedIsRead(f, NameOffset(f, k));
      }
    }
  }

  lemma ReadHeaderInside(f: seq<byte>, i: nat)
    requires |f| >= EHDR_SIZE && HeaderInside(f, DecodeEhdr(f).shstrndx) && NameCheck(f, i).Some?
    ensures HeaderInside(f, i)
  {
    hide DecodeEhdr, SectionAt, Compare;
  }

  /** The checks and the loop of `main`, on any file. Beyond means that the walk reads outside
      the file; nothing is promised about such a run. */
  method LocateResource(f: seq<byte>) returns (r: Found)
    requires |f| < TWO64
    ensures r == Locate(f)
  {
    hide DecodeEhdr, NameCheck, SectionAt, HeaderInside;
    if |f| < EHDR_SIZE || f[..4] != ELFMAG {
      return NotElf;
    }
    if f[4] != ELFCLASS64 || f[5] != ELFDATA2LSB {
      return Unsupported;
    }
    var ehdr := DecodeEhdr(f);
    if ehdr.shoff == 0 || ehdr.shnum == 0 || (ehdr.shoff + ehdr.shnum * ehdr.shentsize) % TWO64 > |f| {
      return NoSections;
    }
    if !HeaderInside(f, ehdr.shstrndx) {
      return Beyond;
    }
    r := NoResource;
    for i := 0 to ehdr.shnum
      invariant r == NoResource && WalkFrom(f, 0) == WalkFrom(f, i)
    {
      var equal := NameCheck(f, i);
      if equal.None? {
        return Beyond;
      }
      if equal.value {
        ReadHeaderInside(f, i);
        SectionInside(f, i);
        var shdr := SectionAt(f, i);
        r := Section(shdr.offset, shdr.size);
        break;
      }
    }
  }

  lemma SectionInside(f: seq<byte>, i: nat)
    requires |f| >= EHDR_SIZE && HeaderInside(f, i)
    ensures DecodeEhdr(f).shoff + i * SHDR_SIZE + SHDR_SIZE <= |f|
  {
    hide DecodeEhdr;
  }

  // ---------- round trip ----------

  lemma ChecksPass(f: seq<byte>)
    requires EHDR_SIZE <= |f| < TWO64 && f[..4] == ELFMAG && f[4] == ELFCLASS64 && f[5] == ELFDATA2LSB
    requires var h := DecodeEhdr(f);
             h.shoff > 0 && h.shnum == 5 && h.shentsize == SHDR_SIZE && h.shoff + 5 * SHDR_SIZE <= |f|
    ensures HeaderCheck(f).None?
  {
    hide DecodeEhdr;
  }

  lemma PlanBounds(size: nat, prefix: Option<CString>)
    requires size < MAX_CONTAINER
    ensures |SymbolNames(prefix)| < 1024
    ensures var p := PlanOf(size, |SymbolNames(prefix)|);
            EHDR_SIZE < p.sections && p.sections + 5 * SHDR_SIZE == p.total < TWO64
    ensures HeaderOf(size, |SymbolNames(prefix)|) == Ehdr(PlanOf(size, |SymbolNames(prefix)|).sections, SHDR_SIZE, 5, 4)
  {
    hide SymbolNames;
    NamesShort(prefix);
  }

  lemma ObjectHeader(container: seq<byte>, prefix: Option<CString>)
    requires |container| < MAX_CONTAINER
    ensures var f, p := ObjectBytes(container, prefix), PlanOf(|container|, |SymbolNames(prefix)|);
            && |f| == p.total >= EHDR_SIZE && DecodeEhdr(f) == Ehdr(p.sections, SHDR_SIZE, 5, 4)
            && HeaderCheck(f).None?
  {
    hide *;
    PlanBounds(|container|, prefix);
    ObjectParts(container, prefix);
    EhdrRoundTrip(ObjectBytes(container, prefix), HeaderOf(|container|, |SymbolNames(prefix)|));
    ChecksPass(ObjectBytes(container, prefix));
  }

  lemma ShdrBlock(shdrs: seq<Shdr>, i: nat)
    requires i < |shdrs|
    ensures Placed(Flatten(ShdrBlocks(shdrs)), i * SHDR_SIZE, EncodeShdr(shdrs[i]))
  {
    hide Placed, EncodeShdr, Flatten;
    FlattenAt(ShdrBlocks(shdrs), SHDR_SIZE, i);
  }

  lemma SymBlock(syms: seq<Sym>, i: nat)
    requires i < |syms|
    ensures Placed(Flatten(SymBlocks(syms)), i * SYM_SIZE, EncodeSym(syms[i]))
  {
    hide Placed, EncodeSym, Flatten;
    FlattenAt(SymBlocks(syms), SYM_SIZE, i);
  }

  lemma SectionDecoded(f: seq<byte>, i: nat, s: Shdr)
    requires |f| >= EHDR_SIZE && Placed(f, DecodeEhdr(f).shoff + i * SHDR_SIZE, EncodeShdr(s))
    ensures DecodeEhdr(f).shoff + i * SHDR_SIZE + SHDR_SIZE <= |f| && SectionAt(f, i) == s
  {
    hide Placed, EncodeShdr, DecodeShdr, DecodeEhdr;
    ShdrRoundTrip(f, DecodeEhdr(f).shoff + i * SHDR_SIZE, s);
  }

  lemma ObjectSection(container: seq<byte>, prefix: Option<CString>, i: nat)
    requires |container| < MAX_CONTAINER && i < 5
    ensures var f := ObjectBytes(container, prefix);
            && |f| >= EHDR_SIZE && DecodeEhdr(f).shoff + i * SHDR_SIZE + SHDR_SIZE <= |f|
            && SectionAt(f, i) == Sections(|container|, prefix)[i]
  {
    hide *;
    var f, p, shdrs := ObjectBytes(container, prefix), PlanOf(|container|, |SymbolNames(prefix)|), Sections(|container|, prefix);
    ObjectHeader(container, prefix);
    ObjectParts(container, prefix);
    ShdrBlock(shdrs, i);
    PlacedTrans(f, p.sections, Flatten(ShdrBlocks(shdrs)), i * SHDR_SIZE, EncodeShdr(shdrs[i]));
    SectionDecoded(f, i, shdrs[i]);
  }

  lemma ObjectSymbol(container: seq<byte>, prefix: Option<CString>, i: nat)
    requires |container| < MAX_CONTAINER && i < 3
    ensures var f, p := ObjectBytes(container, prefix), PlanOf(|container|, |SymbolNames(prefix)|);
            && p.symtab + i * SYM_SIZE + SYM_SIZE <= |f|
            && DecodeSym(f, p.symtab + i * SYM_SIZE) == Symbols(|container|, prefix)[i]
  {
    hide *;
    var f, p, syms := ObjectBytes(container, prefix), PlanOf(|container|, |SymbolNames(prefix)|), Symbols(|container|, prefix);
    ObjectParts(container, prefix);
    SymBlock(syms, i);
    PlacedTrans(f, p.symtab, Flatten(SymBlocks(syms)), i * SYM_SIZE, EncodeSym(syms[i]));
    SymRoundTrip(f, p.symtab + i * SYM_SIZE, syms[i]);
  }

  lemma SectionNameParts(f: seq<byte>, off: nat)
    requires Placed(f, off, SectionNames())
    ensures CStringIs(f, off, [])
    ensures CStringIs(f, off + RESOURCE_NAME_AT, RESOURCE_NAME)
    ensures CStringIs(f, off + SYMTAB_NAME_AT, SYMTAB_NAME)
    ensures CStringIs(f, off + STRTAB_NAME_AT, STRTAB_NAME)
    ensures CStringIs(f, off + SHSTRTAB_NAME_AT, SHSTRTAB_NAME)
  {
    hide Placed, RESOURCE_NAME, SYMTAB_NAME, STRTAB_NAME, SHSTRTAB_NAME;
    NameLengths();
    var a, b, c, d := RESOURCE_NAME + [0], SYMTAB_NAME + [0], STRTAB_NAME + [0], SHSTRTAB_NAME + [0];
    PlacedSplit(f, off, [0] + a + b + c, d);
    PlacedSplit(f, off, [0] + a + b, c);
    PlacedSplit(f, off, [0] + a, b);
    PlacedSplit(f, off, [0], a);
    assert [] + [0] == [0];
  }

  lemma SectionFields(size: nat, prefix: Option<CString>, i: nat)
    requires size < MAX_CONTAINER && i < 5
    ensures var s, p := Sections(size, prefix)[i], PlanOf(size, |SymbolNames(prefix)|);
            && s.name == [0, RESOURCE_NAME_AT, SYMTAB_NAME_AT, STRTAB_NAME_AT, SHSTRTAB_NAME_AT][i]
            && (i > 0 ==> s.offset == [0, p.resource, p.symtab, p.strtab, p.shstrtab][i])
            && (i > 0 ==> s.size == [0, size, 3 * SYM_SIZE, |SymbolNames(prefix)|, 37][i])
            && s.typ == [0, 1, 2, 3, 3][i] && s.link == (if i == 2 then 3 else 0)
            && (i == 1 ==> s.flags == 2 && s.addralign == 16 && s.offset == EHDR_SIZE)
            && (i == 2 ==> s.info == 1 && s.entsize == SYM_SIZE)
  {
    hide SymbolNames;
  }

  /** Section i as read back: name, type, link, and where it lies. */
  lemma SectionRead(container: seq<byte>, prefix: Option<CString>, i: nat)
    requires |container| < MAX_CONTAINER && i < 5
    ensures var f, p := ObjectBytes(container, prefix), PlanOf(|container|, |SymbolNames(prefix)|);
            && |f| >= EHDR_SIZE && DecodeEhdr(f).shoff + i * SHDR_SIZE + SHDR_SIZE <= |f|
            && var s := SectionAt(f, i);
               && s.name == [0, RESOURCE_NAME_AT, SYMTAB_NAME_AT, STRTAB_NAME_AT, SHSTRTAB_NAME_AT][i]
               && (i > 0 ==> s.offset == [0, p.resource, p.symtab, p.strtab, p.shstrtab][i])
               && (i > 0 ==> s.size == [0, |container|, 3 * SYM_SIZE, |SymbolNames(prefix)|, 37][i])
               && s.typ == [0, 1, 2, 3, 3][i] && s.link == (if i == 2 then 3 else 0)
               && (i == 1 ==> s.flags == 2 && s.addralign == 16 && s.offset == EHDR_SIZE)
               && (i == 2 ==> s.info == 1 && s.entsize == SYM_SIZE)
  {
    hide *;
    ObjectSection(container, prefix, i);
    SectionFields(|container|, prefix, i);
  }

  function SectionName(i: nat): seq<byte>
    requires i < 5
  {
    [[], RESOURCE_NAME, SYMTAB_NAME, STRTAB_NAME, SHSTRTAB_NAME][i]
  }

  lemma NamesInTable(f: seq<byte>, off: nat, i: nat)
    requires Placed(f, off, SectionNames()) && i < 5
    ensures CStringIs(f, off + [0, RESOURCE_NAME_AT, SYMTAB_NAME_AT, STRTAB_NAME_AT, SHSTRTAB_NAME_AT][i], SectionName(i))
  {
    hide Placed, CStringIs, RESOURCE_NAME, SYMTAB_NAME, STRTAB_NAME, SHSTRTAB_NAME, SectionNames;
    SectionNameParts(f, off);
  }

  /** Every section carries its name: nothing, .resource, .symtab, .strtab, .shstrtab. */
  lemma SectionNameRead(container: seq<byte>, prefix: Option<CString>, i: nat)
    requires |container| < MAX_CONTAINER && i < 5
    ensures var f, p := ObjectBytes(container, prefix), PlanOf(|container|, |SymbolNames(prefix)|);
            && |f| >= EHDR_SIZE && DecodeEhdr(f).shoff + i * SHDR_SIZE + SHDR_SIZE <= |f|
            && Terminated(f, p.shstrtab + SectionAt(f, i).name)
            && CStringIs(f, p.shstrtab + SectionAt(f, i).name, SectionName(i))
  {
    hide *;
    var f, p := ObjectBytes(container, prefix), PlanOf(|container|, |SymbolNames(prefix)|);
    SectionRead(container, prefix, i);
    ObjectParts(container, prefix);
    NamesInTable(f, p.shstrtab, i);
    CStringIsTerminated(f, p.shstrtab + SectionAt(f, i).name, SectionName(i));
  }

  lemma ObjectIsWalkable(container: seq<byte>, prefix: Option<CString>)
    requires |container| < MAX_CONTAINER
    ensures Walkable(ObjectBytes(container, prefix))
  {
    var f := ObjectBytes(container, prefix);
    hide *;
    ObjectHeader(container, prefix);
    SectionRead(container, prefix, 4);
    forall i | 0 <= i < 5
      ensures DecodeEhdr(f).shoff + i * SHDR_SIZE + SHDR_SIZE <= |f|
      ensures Terminated(f, SectionAt(f, 4).offset + SectionAt(f, i).name)
    {
      SectionRead(container, prefix, i);
      SectionNameRead(container, prefix, i);
    }
    FiveAreWalkable(f);
  }

  lemma FiveAreWalkable(f: seq<byte>)
    requires |f| >= EHDR_SIZE && DecodeEhdr(f).shnum == 5 && DecodeEhdr(f).shstrndx == 4
    requires HeaderInside(f, 4)
    requires forall i :: 0 <= i < 5 ==> Terminated(f, SectionAt(f, 4).offset + SectionAt(f, i).name)
    ensures Walkable(f)
  {
    hide DecodeEhdr, SectionAt, Terminated;
    assert forall i :: 0 <= i < 5 ==> HeaderInside(f, i);
  }

  lemma EmptyIsNotResource(f: seq<byte>, off: nat)
    requires CStringIs(f, off, [])
    ensures !CStringIs(f, off, RESOURCE_NAME)
  {
    NameLengths();
    if CStringIs(f, off, RESOURCE_NAME) {
      CStringUnique(f, off, [], RESOURCE_NAME);
    }
  }

  /** The file elfrc writes passes every check, and the walk picks section 1: the container, byte for byte. */
  lemma ElfRoundTrip(container: seq<byte>, prefix: Option<CString>)
    requires |container| < MAX_CONTAINER
    ensures var f := ObjectBytes(container, prefix);
            && HeaderCheck(f).None? && Walkable(f)
            && Locate(f) == Section(EHDR_SIZE, |container|)
            && EHDR_SIZE + |container| <= |f|
            && Extracted(f) == Some(container)
  {
    hide *;
    var f := ObjectBytes(container, prefix);
    ObjectHeader(container, prefix);
    ObjectIsWalkable(container, prefix);
    ObjectParts(container, prefix);
    SectionRead(container, prefix, 1);
    SectionRead(container, prefix, 4);
    SectionNameRead(container, prefix, 0);
    SectionNameRead(container, prefix, 1);
    FirstTwoNames();
    EmptyIsNotResource(f, SectionAt(f, 4).offset + SectionAt(f, 0).name);
    SecondIsFound(f);
    PlacedSlice(f, EHDR_SIZE, container);
    ExtractedSlice(f, EHDR_SIZE, |container|);
  }

  lemma FirstTwoNames()
    ensures SectionName(0) == [] && SectionName(1) == RESOURCE_NAME
  {
    hide RESOURCE_NAME, SYMTAB_NAME, STRTAB_NAME, SHSTRTAB_NAME;
  }

  lemma ExtractedSlice(f: seq<byte>, off: nat, size: nat)
    requires Locate(f) == Section(off, size) && off + size <= |f|
    ensures Extracted(f) == Some(f[off..off + size])
  {
    hide Locate;
  }

  lemma PlacedSlice(f: seq<byte>, off: nat, s: seq<byte>)
    requires Placed(f, off, s)
    ensures off + |s| <= |f| && f[off..off + |s|] == s
  {
  }

  lemma NameIsChecked(f: seq<byte>, i: nat)
    requires Walkable(f) && i < DecodeEhdr(f).shnum
    ensures HeaderInside(f, i)
    ensures var found := CStringIs(f, SectionAt(f, DecodeEhdr(f).shstrndx).offset + SectionAt(f, i).name, RESOURCE_NAME);
            NameCheck(f, i) == Some(found)
  {
    hide DecodeEhdr, SectionAt, CStringIs, Compare, Terminated;
    assert HeaderInside(f, i);
    var at := SectionAt(f, DecodeEhdr(f).shstrndx).offset + SectionAt(f, i).name;
    TerminatedIsRead(f, at);
    CompareDecides(f, at, RESOURCE_NAME);
    var c := Compare(f, at, RESOURCE_NAME);
    assert NameCheck(f, i) == c == Some(c.value);
    assert c.value == CStringIs(f, at, RESOURCE_NAME);
  }

  lemma SecondIsFound(f: seq<byte>)
    requires HeaderCheck(f).None? && Walkable(f) && DecodeEhdr(f).shnum == 5 && DecodeEhdr(f).shstrndx == 4
    requires |f| >= EHDR_SIZE && DecodeEhdr(f).shoff + 5 * SHDR_SIZE <= |f|
    requires !CStringIs(f, SectionAt(f, 4).offset + SectionAt(f, 0).name, RESOURCE_NAME)
    requires CStringIs(f, SectionAt(f, 4).offset + SectionAt(f, 1).name, RESOURCE_NAME)
    ensures Locate(f) == Section(SectionAt(f, 1).offset, SectionAt(f, 1).size)
  {
    hide DecodeEhdr, SectionAt, CStringIs, Compare, Terminated, RESOURCE_NAME, HeaderCheck;
    NameIsChecked(f, 0);
    NameIsChecked(f, 1);
    assert WalkFrom(f, 0) == WalkFrom(f, 1);
  }

  /** What a linker reads: following the section headers to the symbols and their names, the two
      boundary symbols are global objects in section 1, carry the documented names, and differ in
      value by exactly the container's size. */
  lemma BoundarySymbols(container: seq<byte>, prefix: Option<CString>)
    requires |container| < MAX_CONTAINER
    ensures |ObjectBytes(container, prefix)| >= EHDR_SIZE
    ensures DecodeEhdr(ObjectBytes(container, prefix)).shoff + 5 * SHDR_SIZE <= |ObjectBytes(container, prefix)|
    ensures LinkedSymbol(ObjectBytes(container, prefix), 1, StartName(prefix), 0)
    ensures LinkedSymbol(ObjectBytes(container, prefix), 2, EndName(prefix), |container|)
  {
    hide *;
    var f, p := ObjectBytes(container, prefix), PlanOf(|container|, |SymbolNames(prefix)|);
    ObjectHeader(container, prefix);
    PlanBounds(|container|, prefix);
    ObjectParts(container, prefix);
    SectionRead(container, prefix, 2);
    SectionRead(container, prefix, 3);
    ObjectSymbol(container, prefix, 1);
    ObjectSymbol(container, prefix, 2);
    SymbolFields(|container|, prefix);
    SymbolNameParts(f, p.strtab, prefix);
    SymbolLinked(f, 1, StartName(prefix), 0);
    SymbolLinked(f, 2, EndName(prefix), |container|);
  }

  /** Symbol k of the symbol table (section 2, linked to its string table) in section 1. */
  predicate LinkedSymbol(f: seq<byte>, k: nat, name: seq<byte>, value: nat)
    requires |f| >= EHDR_SIZE && DecodeEhdr(f).shoff + 5 * SHDR_SIZE <= |f|
  {
    var symtab := SectionAt(f, 2);
    MulMono(0, k, symtab.entsize);
    && symtab.link < 5
    && symtab.offset + k * symtab.entsize + SYM_SIZE <= |f|
    && var sym := DecodeSym(f, symtab.offset + k * symtab.entsize);
       && sym.shndx == 1 && sym.info == 0x11 && sym.value == value
       && CStringIs(f, SectionAt(f, symtab.link).offset + sym.name, name)
  }

  lemma SymbolLinked(f: seq<byte>, k: nat, name: seq<byte>, value: nat)
    requires |f| >= EHDR_SIZE && DecodeEhdr(f).shoff + 5 * SHDR_SIZE <= |f|
    requires SectionAt(f, 2).link == 3 && SectionAt(f, 2).entsize == SYM_SIZE
    requires SectionAt(f, 2).offset + k * SYM_SIZE + SYM_SIZE <= |f|
    requires var sym := DecodeSym(f, SectionAt(f, 2).offset + k * SYM_SIZE);
             && sym.shndx == 1 && sym.info == 0x11 && sym.value == value
             && CStringIs(f, SectionAt(f, 3).offset + sym.name, name)
    ensures LinkedSymbol(f, k, name, value)
  {
    hide DecodeEhdr, SectionAt, DecodeSym, CStringIs;
  }

  lemma SymbolFields(size: nat, prefix: Option<CString>)
    requires size < MAX_CONTAINER
    ensures var s := Symbols(size, prefix);
            && s[1].name == 1 && s[1].info == 0x11 && s[1].shndx == 1 && s[1].value == 0
            && s[2].name == 2 + |StartName(prefix)| && s[2].info == 0x11 && s[2].shndx == 1 && s[2].value == size
  {
    hide StartName;
  }

  lemma SymbolNameParts(f: seq<byte>, off: nat, prefix: Option<CString>)
    requires Placed(f, off, SymbolNames(prefix))
    ensures CStringIs(f, off + 1, StartName(prefix))
    ensures CStringIs(f, off + (2 + |StartName(prefix)|), EndName(prefix))
  {
    hide Placed, StartName, EndName;
    PlacedSplit(f, off, [0] + (StartName(prefix) + [0]), EndName(prefix) + [0]);
    PlacedSplit(f, off, [0], StartName(prefix) + [0]);
  }

  /** The names are the documented ones exactly when the prefix has at most 234 bytes. */
  lemma NamesUncut(prefix: Option<CString>)
    ensures StartName(prefix) == FullName(prefix, Ascii("start")) && EndName(prefix) == FullName(prefix, Ascii("end"))
            <==> !HasPrefix(prefix) || |prefix.value| <= 234
  {
  }

  lemma CommonFront(prefix: Option<CString>)
    ensures var n := if HasPrefix(prefix) then |prefix.value| + 16 else 15;
            var s, e := FullName(prefix, Ascii("start")), FullName(prefix, Ascii("end"));
            |s| == n + 5 && |e| == n + 3 && s[..n] == e[..n] && s[n] != e[n]
  {
    var front := if HasPrefix(prefix) then Ascii("_elfr_") + prefix.value + Ascii("_resource_")
                 else Ascii("_elfr") + Ascii("_resource_");
    assert FullName(prefix, Ascii("start")) == front + Ascii("start");
    assert FullName(prefix, Ascii("end")) == front + Ascii("end");
    hide Ascii;
    assert (front + Ascii("start"))[|front|] == Ascii("start")[0];
    assert (front + Ascii("end"))[|front|] == Ascii("end")[0];
  }

  /** The two boundary symbols have different names exactly when the prefix has at most 238 bytes:
      beyond that, both 256-byte buffers are cut inside the part they share. */
  lemma SymbolsDistinct(prefix: Option<CString>)
    ensures StartName(prefix) != EndName(prefix) <==> !HasPrefix(prefix) || |prefix.value| <= 238
  {
    hide FullName, Ascii;
    CommonFront(prefix);
    var n := if HasPrefix(prefix) then |prefix.value| + 16 else 15;
    var s, e := FullName(prefix, Ascii("start")), FullName(prefix, Ascii("end"));
    if n < 255 {
      assert StartName(prefix)[n] == s[n] && EndName(prefix)[n] == e[n];
    } else {
      assert s[..255] == s[..n][..255] == e[..n][..255] == e[..255];
    }
  }

  /** With 239 equal bytes as prefix both symbols get one name. */
  lemma LongPrefixCollides(c: byte)
    requires c != 0
    ensures StartName(Some(seq(239, _ => c))) == EndName(Some(seq(239, _ => c)))
  {
    SymbolsDistinct(Some(seq(239, _ => c)));
  }
}
