/** The headers of an ELF core file of either class (include/elf.h; dump.c, write_elf64_header,
    write_elf64_load, write_elf64_note and their like for 32 bits). */
module ElfHeaders {
  import opened Prelude
  import opened ByteOrder

  const PT_LOAD := 1
  const PT_NOTE := 4
  const ET_CORE := 4
  const EV_CURRENT := 1
  const PN_XNUM := 0xffff

  datatype Class = Elf32 | Elf64 {

    /** sizeof(Elf32_Ehdr), sizeof(Elf64_Ehdr), and so on. */
    function EhdrSize(): nat {
      if Elf32? then 52 else 64
    }

    function PhdrSize(): nat {
      if Elf32? then 32 else 56
    }

    function ShdrSize(): nat {
      if Elf32? then 40 else 64
    }

    /** The size of an address, an offset or a length. */
    function Width(): nat {
      if Elf32? then 4 else 8
    }

    function Limit(): nat {
      if Elf32? then 0x1_0000_0000 else 0x1_0000_0000_0000_0000
    }

    /** The number can be told from its field. */
    predicate Fits(n: nat) {
      n < Limit()
    }

    lemma LimitIs()
      ensures Limit() == Pow256(Width())
    {
      assert Pow256(2) == 0x1_0000;
      assert Pow256(4) == 0x1_0000 * Pow256(2);
      assert Pow256(6) == 0x1_0000 * Pow256(4);
      assert Pow256(8) == 0x1_0000 * Pow256(6);
    }
  }

  /** The fields of a program header; p_flags and p_align are 0. */
  datatype Phdr = Phdr(kind: nat, offset: nat, vaddr: nat, paddr: nat, filesz: nat, memsz: nat)

  /** A program header as it is written. */
  function Encode(c: Class, big: bool, h: Phdr): (b: seq<byte>)
    ensures |b| == c.PhdrSize()
  {
    var w := c.Width();
    var start := if c.Elf32? then Bytes(big, h.kind, 4) else Bytes(big, h.kind, 4) + Bytes(big, 0, 4);
    var end := if c.Elf32? then Bytes(big, 0, 4) + Bytes(big, 0, 4) else Bytes(big, 0, 8);
    start + Bytes(big, h.offset, w) + Bytes(big, h.vaddr, w) + Bytes(big, h.paddr, w)
    + Bytes(big, h.filesz, w) + Bytes(big, h.memsz, w) + end
  }

  /** Where the addresses, offsets and lengths of a program header begin. */
  function FieldsAt(c: Class): nat {
    if c.Elf32? then 4 else 8
  }

  /** The k-th of them. */
  function Field(c: Class, big: bool, b: seq<byte>, k: nat): nat
    requires |b| == c.PhdrSize() && k < 5
  {
    var at := FieldsAt(c) + c.Width() * k;
    Number(big, b[at..at + c.Width()])
  }

  /** What a reader of the file makes of a program header. */
  function Decode(c: Class, big: bool, b: seq<byte>): Phdr
    requires |b| == c.PhdrSize()
  {
    Phdr(Number(big, b[..4]), Field(c, big, b, 0), Field(c, big, b, 1), Field(c, big, b, 2), Field(c, big, b, 3),
         Field(c, big, b, 4))
  }

  lemma Slices(start: seq<byte>, f0: seq<byte>, f1: seq<byte>, f2: seq<byte>, f3: seq<byte>, f4: seq<byte>,
               end: seq<byte>, w: nat)
    requires |f0| == |f1| == |f2| == |f3| == |f4| == w
    ensures var b, s := start + f0 + f1 + f2 + f3 + f4 + end, |start|;
            && |b| == s + 5 * w + |end| && b[..s] == start && b[s..s + w] == f0 && b[s + w..s + 2 * w] == f1
            && b[s + 2 * w..s + 3 * w] == f2 && b[s + 3 * w..s + 4 * w] == f3 && b[s + 4 * w..s + 5 * w] == f4
  {
  }

  /** What is left of a number in k bytes. */
  function Cut(big: bool, n: nat, k: nat): nat {
    Number(big, Bytes(big, n, k))
  }

  /** What is left of the fields in their bytes. */
  lemma DecodedFields(c: Class, big: bool, h: Phdr)
    ensures var w := c.Width();
            Decode(c, big, Encode(c, big, h))
            == Phdr(Cut(big, h.kind, 4), Cut(big, h.offset, w), Cut(big, h.vaddr, w), Cut(big, h.paddr, w),
                    Cut(big, h.filesz, w), Cut(big, h.memsz, w))
  {
    var w := c.Width();
    var kind := Bytes(big, h.kind, 4);
    var start := if c.Elf32? then kind else kind + Bytes(big, 0, 4);
    var end := if c.Elf32? then Bytes(big, 0, 4) + Bytes(big, 0, 4) else Bytes(big, 0, 8);
    Slices(start, Bytes(big, h.offset, w), Bytes(big, h.vaddr, w), Bytes(big, h.paddr, w),
           Bytes(big, h.filesz, w), Bytes(big, h.memsz, w), end, w);
    var b := Encode(c, big, h);
    assert b[..4] == start[..4] == kind;
  }

  /** Every field of the header fits. */
  ghost predicate AllFit(c: Class, h: Phdr) {
    c.Fits(h.offset) && c.Fits(h.vaddr) && c.Fits(h.paddr) && c.Fits(h.filesz) && c.Fits(h.memsz)
  }

  /** If a reader gets header g from the bytes, it is h if and only if every field of h fits. */
  ghost predicate TellsAs(c: Class, big: bool, b: seq<byte>, h: Phdr, g: Phdr) {
    |b| == c.PhdrSize() && (g == Decode(c, big, b) ==> (g == h <==> AllFit(c, h)))
  }

  /** A reader gets the fields of header h from the bytes if and only if all of them fit. */
  ghost predicate Tells(c: Class, big: bool, b: seq<byte>, h: Phdr) {
    |b| == c.PhdrSize() && forall g: Phdr :: TellsAs(c, big, b, h, g)
  }

  /** The fields of a header can be told from its bytes if and only if all of them fit; a 32-bit header cuts
      off what does not. */
  lemma HeaderRoundTrip(c: Class, big: bool, h: Phdr)
    requires h.kind < 256
    ensures Tells(c, big, Encode(c, big, h), h)
  {
    var w, d := c.Width(), Decode(c, big, Encode(c, big, h));
    c.LimitIs();
    assert d == Phdr(Cut(big, h.kind, 4), Cut(big, h.offset, w), Cut(big, h.vaddr, w), Cut(big, h.paddr, w),
                     Cut(big, h.filesz, w), Cut(big, h.memsz, w)) by {
      DecodedFields(c, big, h);
    }
    assert d.kind == h.kind by {
      assert Pow256(4) == 256 * Pow256(3);
      BytesRoundTrip(big, h.kind, 4);
    }
    assert d.offset == h.offset <==> c.Fits(h.offset) by {
      BytesRoundTrip(big, h.offset, w);
    }
    assert d.vaddr == h.vaddr <==> c.Fits(h.vaddr) by {
      BytesRoundTrip(big, h.vaddr, w);
    }
    assert d.paddr == h.paddr <==> c.Fits(h.paddr) by {
      BytesRoundTrip(big, h.paddr, w);
    }
    assert d.filesz == h.filesz <==> c.Fits(h.filesz) by {
      BytesRoundTrip(big, h.filesz, w);
    }
    assert d.memsz == h.memsz <==> c.Fits(h.memsz) by {
      BytesRoundTrip(big, h.memsz, w);
    }
  }

  /** write_elf64_load and write_elf32_load, write_elf64_note and write_elf32_note. */
  method MakeHeader(c: Class, big: bool, h: Phdr) returns (b: seq<byte>)
    requires h.kind < 256
    ensures Tells(c, big, b, h)
  {
    HeaderRoundTrip(c, big, h);
    b := Encode(c, big, h);
  }

  lemma FourZeros(big: bool)
    ensures Number(big, [0, 0, 0, 0]) == 0
  {
    var zero: seq<byte> := [0, 0, 0, 0];
    assert Turned(zero) == zero && zero[..3] == [0, 0, 0];
    assert FromBe([0]) == 0 && FromBe([0, 0]) == 0 && FromBe([0, 0, 0]) == 0 by {
      assert [0, 0][..1] == [0] && [0, 0, 0][..2] == [0, 0];
    }
  }

  /** Four bytes do not tell 4 GiB from 0. */
  lemma CutToZero(big: bool)
    ensures Cut(big, 0x1_0000_0000, 4) == 0
  {
    var zero: seq<byte> := [0, 0, 0, 0];
    assert Be(0x1_0000_0000, 4) == zero by {
      assert Be(0x100, 1) == [0] && Be(0x1_0000, 2) == [0, 0] && Be(0x100_0000, 3) == [0, 0, 0];
    }
    assert Turned(zero) == zero;
    FourZeros(big);
  }

  /** What a reader needs of an ELF header. */
  datatype Ehdr = Ehdr(elfClass: Class, big: bool, phoff: nat, shoff: nat, phentsize: nat, phnum: nat)

  /** e_ident. */
  function Ident(c: Class, big: bool): (b: seq<byte>)
    ensures |b| == 16 && b[4] == (if c.Elf32? then 1 else 2) && b[5] == if big then 2 else 1
  {
    [0x7f, 0x45, 0x4c, 0x46, if c.Elf32? then 1 else 2, if big then 2 else 1, EV_CURRENT] + [0, 0, 0, 0, 0, 0, 0, 0, 0]
  }

  /** e_ident, e_type, e_machine and e_version. */
  function EhdrStart(c: Class, big: bool, machine: nat): (b: seq<byte>)
    ensures |b| == 24 && b[4] == (if c.Elf32? then 1 else 2) && b[5] == if big then 2 else 1
  {
    Ident(c, big) + (Bytes(big, ET_CORE, 2) + Bytes(big, machine, 2) + Bytes(big, EV_CURRENT, 4))
  }

  /** e_flags and e_ehsize. */
  function EhdrMid(c: Class, big: bool): (b: seq<byte>)
    ensures |b| == 6
  {
    Bytes(big, 0, 4) + Bytes(big, c.EhdrSize(), 2)
  }

  /** e_shentsize, e_shnum and e_shstrndx. */
  function EhdrEnd(c: Class, big: bool, section: bool): (b: seq<byte>)
    ensures |b| == 6
  {
    Bytes(big, if section then c.ShdrSize() else 0, 2) + Bytes(big, if section then 1 else 0, 2) + Bytes(big, 0, 2)
  }

  /** The ELF header; a core file with a section header, at shoff, has that one. */
  function EncodeEhdr(machine: nat, h: Ehdr, section: bool): (b: seq<byte>)
    ensures |b| == h.elfClass.EhdrSize()
  {
    var c, big, w := h.elfClass, h.big, h.elfClass.Width();
    EhdrStart(c, big, machine) + Bytes(big, 0, w) + Bytes(big, h.phoff, w) + Bytes(big, h.shoff, w)
    + EhdrMid(c, big) + Bytes(big, h.phentsize, 2) + Bytes(big, h.phnum, 2) + EhdrEnd(c, big, section)
  }

  /** What a reader makes of an ELF header. */
  function DecodeEhdr(b: seq<byte>): (h: Ehdr)
    requires |b| >= Elf64.EhdrSize()
  {
    var c, big := if b[4] == 1 then Elf32 else Elf64, b[5] == 2;
    var w := c.Width();
    Ehdr(c, big, Number(big, b[24 + w..24 + 2 * w]), Number(big, b[24 + 2 * w..24 + 3 * w]),
         Number(big, b[30 + 3 * w..32 + 3 * w]), Number(big, b[32 + 3 * w..34 + 3 * w]))
  }

  /** Where the parts of an ELF header are in a file. */
  ghost predicate HasParts(file: seq<byte>, start: seq<byte>, phoff: seq<byte>, shoff: seq<byte>, phentsize: seq<byte>,
                           phnum: seq<byte>, w: nat) {
    && |file| >= 34 + 3 * w && |start| == 24 && file[4] == start[4] && file[5] == start[5]
    && file[24 + w..24 + 2 * w] == phoff && file[24 + 2 * w..24 + 3 * w] == shoff
    && file[30 + 3 * w..32 + 3 * w] == phentsize && file[32 + 3 * w..34 + 3 * w] == phnum
  }

  lemma EhdrParts(start: seq<byte>, f0: seq<byte>, f1: seq<byte>, f2: seq<byte>, mid: seq<byte>, g0: seq<byte>,
                  g1: seq<byte>, end: seq<byte>, w: nat, file: seq<byte>)
    requires |start| == 24 && |f0| == |f1| == |f2| == w && |mid| == 6 && |g0| == |g1| == 2
    requires start + f0 + f1 + f2 + mid + g0 + g1 + end <= file
    ensures HasParts(file, start, f1, f2, g0, g1, w)
  {
  }

  lemma DecodedParts(c: Class, big: bool, file: seq<byte>, start: seq<byte>, phoff: seq<byte>, shoff: seq<byte>,
                     phentsize: seq<byte>, phnum: seq<byte>)
    requires HasParts(file, start, phoff, shoff, phentsize, phnum, c.Width()) && |file| >= Elf64.EhdrSize()
    requires start[4] == (if c.Elf32? then 1 else 2) && start[5] == if big then 2 else 1
    ensures DecodeEhdr(file)
         == Ehdr(c, big, Number(big, phoff), Number(big, shoff), Number(big, phentsize), Number(big, phnum))
  {
  }

  /** What is left of the fields in the first bytes of a file. */
  lemma DecodedEhdr(machine: nat, h: Ehdr, section: bool, file: seq<byte>)
    requires EncodeEhdr(machine, h, section) <= file && |file| >= Elf64.EhdrSize()
    ensures var big, w := h.big, h.elfClass.Width();
            DecodeEhdr(file) == Ehdr(h.elfClass, big, Cut(big, h.phoff, w), Cut(big, h.shoff, w),
                                     Cut(big, h.phentsize, 2), Cut(big, h.phnum, 2))
  {
    var c, big, w := h.elfClass, h.big, h.elfClass.Width();
    var start, phoff, shoff := EhdrStart(c, big, machine), Bytes(big, h.phoff, w), Bytes(big, h.shoff, w);
    var phentsize, phnum := Bytes(big, h.phentsize, 2), Bytes(big, h.phnum, 2);
    EhdrParts(start, Bytes(big, 0, w), phoff, shoff, EhdrMid(c, big), phentsize, phnum, EhdrEnd(c, big, section),
              w, file);
    DecodedParts(c, big, file, start, phoff, shoff, phentsize, phnum);
  }

  /** A reader gets the class, the byte order and where the program headers are from the first bytes of a
      file; and where the section header is if and only if that fits. */
  lemma EhdrRoundTrip(machine: nat, h: Ehdr, section: bool, file: seq<byte>)
    requires EncodeEhdr(machine, h, section) <= file && |file| >= Elf64.EhdrSize()
    requires h.phoff < 256 && h.phentsize < 256 && h.phnum <= PN_XNUM
    ensures DecodeEhdr(file) == h.(shoff := DecodeEhdr(file).shoff)
    ensures DecodeEhdr(file) == h <==> h.elfClass.Fits(h.shoff)
  {
    var big, w := h.big, h.elfClass.Width();
    DecodedEhdr(machine, h, section, file);
    h.elfClass.LimitIs();
    assert Pow256(2) == 0x1_0000;
    BytesRoundTrip(big, h.phoff, w);
    BytesRoundTrip(big, h.shoff, w);
    BytesRoundTrip(big, h.phentsize, 2);
    BytesRoundTrip(big, h.phnum, 2);
  }

  /** From a file that begins with the bytes a reader gets header h, with shoff if and only if that fits. */
  ghost predicate ReadAs(h: Ehdr, b: seq<byte>, file: seq<byte>) {
    b <= file && |file| >= Elf64.EhdrSize() ==>
      && DecodeEhdr(file) == h.(shoff := DecodeEhdr(file).shoff)
      && (DecodeEhdr(file).shoff == h.shoff <==> h.elfClass.Fits(h.shoff))
  }

  ghost predicate IsEhdr(h: Ehdr, b: seq<byte>) {
    |b| == h.elfClass.EhdrSize() && forall file: seq<byte> :: ReadAs(h, b, file)
  }

  /** write_elf64_header and write_elf32_header. */
  method MakeEhdr(machine: nat, h: Ehdr, section: bool) returns (b: seq<byte>)
    requires h.phoff < 256 && h.phentsize < 256 && h.phnum <= PN_XNUM
    ensures IsEhdr(h, b)
  {
    b := EncodeEhdr(machine, h, section);
    forall file: seq<byte> ensures ReadAs(h, b, file) {
      if b <= file && |file| >= Elf64.EhdrSize() {
        EhdrRoundTrip(machine, h, section, file);
      }
    }
  }

  /** sh_info in a section header. */
  function SectionInfo(c: Class, big: bool, b: seq<byte>): nat
    requires |b| == c.ShdrSize()
  {
    Number(big, b[12 + 4 * c.Width()..16 + 4 * c.Width()])
  }

  /** How many program headers a reader takes a file to have: sh_info of the section header if e_phnum is
      PN_XNUM; 0 if there is no section header there. */
  function HeaderCount(file: seq<byte>): nat
    requires |file| >= Elf64.EhdrSize()
  {
    var h := DecodeEhdr(file);
    var end := h.shoff + h.elfClass.ShdrSize();
    if h.phnum != PN_XNUM then h.phnum
    else if end <= |file| then SectionInfo(h.elfClass, h.big, file[h.shoff..end])
    else 0
  }
}
