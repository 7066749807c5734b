/** An ELF dump: the file as a reader finds it (dump.c, dump_init, write_elf_loads, dump_begin,
    get_start_block, get_next_block, dump_iterate, create_vmcore). */
module DumpElf {
  import opened Prelude
  import opened ByteOrder
  import opened ElfHeaders
  import opened DumpLayout

  const TARGET_PAGE_SIZE := 4096
  const UINT16_MAX := 0xffff

  /** What qemu_get_guest_memory_mapping finds, if it is asked: paging disabled, or mappings, or a failure. */
  datatype Paging = NotAsked | Disabled | Tables(list: seq<Mapping>) | Failed

  /** The header of a mapping; -1 has as many bits as the field. */
  function HeaderOf(c: Class, m: Mapping, p: Place): Phdr {
    Phdr(PT_LOAD, if p.offset.Some? then p.offset.value else c.Limit() - 1, m.virtAddr, m.physAddr, p.filesz, m.length)
  }

  /** If block i has the mapping, its place in the file fits into the header. */
  ghost predicate OffsetFits(c: Class, f: Filter, blocks: seq<PhysBlock>, base: nat, m: Mapping, i: nat)
    requires forall j | 0 <= j < |blocks| :: blocks[j].Ok()
  {
    i < |blocks| && InWindow(f, blocks[i], m.physAddr) ==> c.Fits(FileOffset(f, blocks, base, m.physAddr, i))
  }

  /** The numbers fit into the header of the mapping: the virtual address, the length and the offset, which
      is memory_offset plus what is dumped before; and the physical address, if no block has it. */
  ghost predicate Fitting(c: Class, f: Filter, blocks: seq<PhysBlock>, base: nat, m: Mapping)
    requires forall j | 0 <= j < |blocks| :: blocks[j].Ok()
  {
    && c.Fits(m.virtAddr) && c.Fits(m.length) && (forall i: nat :: OffsetFits(c, f, blocks, base, m, i))
    && (NotBefore(f, blocks, |blocks|, m.physAddr) ==> c.Fits(m.physAddr))
  }

  /** The class that is chosen has room for the address of a mapping that is in the file, and for how much of
      it is there. */
  lemma PlacedFits(c: Class, f: Filter, blocks: seq<PhysBlock>, base: nat, m: Mapping, p: Place)
    requires BlocksOk(blocks) && ClassOk(c, blocks) && PlaceOk(f, blocks, base, m, p) && p.offset.Some?
    ensures c.Fits(m.physAddr) && c.Fits(p.filesz)
  {
  }

  lemma OneWindow(f: Filter, blocks: seq<PhysBlock>, addr: nat, i: nat, j: nat)
    requires BlocksOk(blocks) && i < |blocks| && j < |blocks|
    requires InWindow(f, blocks[i], addr) && InWindow(f, blocks[j], addr)
    ensures i == j
  {
  }

  /** The header of a mapping has room for its numbers if and only if this is so of the numbers that can be
      known beforehand. */
  lemma FitsAll(c: Class, f: Filter, blocks: seq<PhysBlock>, base: nat, m: Mapping, p: Place)
    requires BlocksOk(blocks) && ClassOk(c, blocks) && PlaceOk(f, blocks, base, m, p)
    ensures AllFit(c, HeaderOf(c, m, p)) <==> Fitting(c, f, blocks, base, m)
  {
    if p.offset.Some? {
      PlacedFits(c, f, blocks, base, m, p);
      assert OffsetFits(c, f, blocks, base, m, p.block) <==> c.Fits(p.offset.value);
      forall i: nat | i < |blocks| && InWindow(f, blocks[i], m.physAddr) ensures i == p.block {
        OneWindow(f, blocks, m.physAddr, i, p.block);
      }
    }
  }

  /** Byte x of what a header points to is the guest memory at its physical address. */
  ghost predicate ShowsAt(file: seq<byte>, blocks: seq<PhysBlock>, h: Phdr, x: nat) {
    x < h.filesz ==> h.offset + x < |file| && Holds(blocks, h.paddr + x, file[h.offset + x])
  }

  /** A header tells a mapping, and a part of the file that shows it. */
  ghost predicate Shows(file: seq<byte>, blocks: seq<PhysBlock>, m: Mapping, h: Phdr) {
    && h.kind == PT_LOAD && h.paddr == m.physAddr && h.vaddr == m.virtAddr && h.memsz == m.length
    && h.filesz <= h.memsz && forall x: nat :: ShowsAt(file, blocks, h, x)
  }

  /** What a reader makes of the header of a mapping: what was meant if and only if it fits, and then it
      shows the mapping. */
  ghost predicate Agrees(file: seq<byte>, f: Filter, blocks: seq<PhysBlock>, base: nat, c: Class, m: Mapping, p: Place,
                         h: Phdr)
    requires forall j | 0 <= j < |blocks| :: blocks[j].Ok()
  {
    && (h == HeaderOf(c, m, p) <==> Fitting(c, f, blocks, base, m))
    && (Fitting(c, f, blocks, base, m) ==> Shows(file, blocks, m, h))
  }

  lemma LoadAgrees(file: seq<byte>, f: Filter, blocks: seq<PhysBlock>, base: nat, c: Class, m: Mapping, p: Place,
                   h: Phdr)
    requires BlocksOk(blocks) && ClassOk(c, blocks) && Complete(file, base, f, blocks) && PlaceOk(f, blocks, base, m, p)
    requires h == HeaderOf(c, m, p) <==> AllFit(c, HeaderOf(c, m, p))
    ensures Agrees(file, f, blocks, base, c, m, p, h)
  {
    FitsAll(c, f, blocks, base, m, p);
    forall x: nat | p.offset.Some? && h == HeaderOf(c, m, p) ensures ShowsAt(file, blocks, h, x) {
      if x < p.filesz {
        PlaceShows(file, f, blocks, base, m.physAddr, p.offset.value, p.filesz, p.block, x);
      }
    }
  }

  /** The bytes at a position of the file are the header of the mapping. */
  ghost predicate HeaderShows(file: seq<byte>, f: Filter, blocks: seq<PhysBlock>, base: nat, c: Class, big: bool,
                              m: Mapping, p: Place, at: nat) {
    && BlocksOk(blocks) && PlaceOk(f, blocks, base, m, p) && at + c.PhdrSize() <= |file|
    && forall h: Phdr :: ReadThere(file, f, blocks, base, c, big, m, p, at, h)
  }

  /** If h is what a reader makes of the bytes there, it agrees with the mapping. */
  ghost predicate ReadThere(file: seq<byte>, f: Filter, blocks: seq<PhysBlock>, base: nat, c: Class, big: bool,
                            m: Mapping, p: Place, at: nat, h: Phdr)
    requires BlocksOk(blocks) && at + c.PhdrSize() <= |file|
  {
    h == Decode(c, big, file[at..at + c.PhdrSize()]) ==> Agrees(file, f, blocks, base, c, m, p, h)
  }

  lemma ShowHeader(file: seq<byte>, f: Filter, blocks: seq<PhysBlock>, base: nat, c: Class, big: bool, m: Mapping,
                   p: Place, at: nat)
    requires BlocksOk(blocks) && ClassOk(c, blocks) && Complete(file, base, f, blocks) && PlaceOk(f, blocks, base, m, p)
    requires at + c.PhdrSize() <= |file| && Tells(c, big, file[at..at + c.PhdrSize()], HeaderOf(c, m, p))
    ensures HeaderShows(file, f, blocks, base, c, big, m, p, at)
  {
    forall h: Phdr ensures ReadThere(file, f, blocks, base, c, big, m, p, at, h) {
      assert TellsAs(c, big, file[at..at + c.PhdrSize()], HeaderOf(c, m, p), h);
      if h == Decode(c, big, file[at..at + c.PhdrSize()]) {
        LoadAgrees(file, f, blocks, base, c, m, p, h);
      }
    }
  }

  /** A 64-bit header has room for all that has 64 bits. */
  lemma Elf64Fits(f: Filter, blocks: seq<PhysBlock>, base: nat, m: Mapping)
    requires BlocksOk(blocks) && base + Offset(f, blocks, |blocks|) <= ADDRESSES
    requires m.physAddr < ADDRESSES && m.virtAddr < ADDRESSES && m.length < ADDRESSES
    ensures Fitting(Elf64, f, blocks, base, m)
  {
    forall i: nat ensures OffsetFits(Elf64, f, blocks, base, m, i) {
      if i < |blocks| && InWindow(f, blocks[i], m.physAddr) {
        OffsetGrows(f, blocks, i + 1, |blocks|);
      }
    }
  }

  lemma {:induction false} OffsetGrows(f: Filter, blocks: seq<PhysBlock>, i: nat, k: nat)
    requires i <= k <= |blocks| && forall j | 0 <= j < |blocks| :: blocks[j].Ok()
    ensures Offset(f, blocks, i) <= Offset(f, blocks, k)
    decreases k
  {
    if i < k {
      OffsetGrows(f, blocks, i, k - 1);
    }
  }

  /** Without paging the header of a block has room if and only if its offset has, and all of what is dumped
      of the block is in the file. */
  lemma BlockFits(c: Class, f: Filter, blocks: seq<PhysBlock>, base: nat, m: Mapping, i: nat, p: Place)
    requires BlocksOk(blocks) && ClassOk(c, blocks) && IsBlock(f, blocks, m, i) && PlaceOk(f, blocks, base, m, p)
    ensures p.filesz == m.length
    ensures Fitting(c, f, blocks, base, m) <==> (m.length > 0 ==> c.Fits(base + Offset(f, blocks, i)))
  {
    if m.length > 0 {
      assert InWindow(f, blocks[i], m.physAddr);
      assert OffsetFits(c, f, blocks, base, m, i) <==> c.Fits(base + Offset(f, blocks, i));
      forall j: nat | j < |blocks| && InWindow(f, blocks[j], m.physAddr) ensures j == i {
        OneWindow(f, blocks, m.physAddr, j, i);
      }
      if p.offset.Some? {
        OneWindow(f, blocks, m.physAddr, p.block, i);
      }
    } else {
      forall j: nat ensures OffsetFits(c, f, blocks, base, m, j) {
        assert j < |blocks| && j < i ==> blocks[j].end <= blocks[i].start;
        assert j < |blocks| && i < j ==> blocks[i].end <= blocks[j].start;
      }
    }
  }

  /** Without paging the header of a mapping is that of a block: all that is dumped of the block is in the file,
      and the header is right if and only if the offset of the block has room. */
  lemma BlockShown(file: seq<byte>, f: Filter, blocks: seq<PhysBlock>, base: nat, c: Class, big: bool,
                   list: seq<Mapping>, m: Mapping, p: Place, at: nat) returns (i: nat)
    requires HeaderShows(file, f, blocks, base, c, big, m, p, at) && ClassOk(c, blocks)
    requires Simple(f, blocks, list) && m in list
    ensures IsBlock(f, blocks, m, i) && p.filesz == m.length
    ensures Decode(c, big, file[at..at + c.PhdrSize()]) == HeaderOf(c, m, p)
       <==> (m.length > 0 ==> c.Fits(base + Offset(f, blocks, i)))
  {
    assert IsSomeBlock(f, blocks, m);
    i :| IsBlock(f, blocks, m, i);
    BlockFits(c, f, blocks, base, m, i, p);
    assert ReadThere(file, f, blocks, base, c, big, m, p, at, Decode(c, big, file[at..at + c.PhdrSize()]));
  }

  /** A 32-bit header has not always room: if the file has more than a page before the memory, a mapping of
      guest memory below 4 GiB is said to be at the start of the file. */
  lemma Elf32Cuts(big: bool, host: seq<byte>, m: Mapping, base: nat, p: Place)
    requires |host| == 0xffff_f000 && 0x1000 < base <= 0x1_0000_0000 && m.physAddr == 0x1_0000_0000 - base
    ensures var blocks := [PhysBlock(0, 0xffff_f000, host)];
            && BlocksOk(blocks) && ClassOk(Elf32, blocks) && !Fitting(Elf32, All, blocks, base, m)
            && (PlaceOk(All, blocks, base, m, p) ==>
                  Decode(Elf32, big, Encode(Elf32, big, HeaderOf(Elf32, m, p))).offset == 0)
  {
    Beyond(host, m, base, p);
    if p.offset == Some(0x1_0000_0000) {
      OffsetCut(big, HeaderOf(Elf32, m, p));
    }
  }

  lemma Beyond(host: seq<byte>, m: Mapping, base: nat, p: Place)
    requires |host| == 0xffff_f000 && 0x1000 < base <= 0x1_0000_0000 && m.physAddr == 0x1_0000_0000 - base
    ensures var blocks := [PhysBlock(0, 0xffff_f000, host)];
            && BlocksOk(blocks) && ClassOk(Elf32, blocks) && !Fitting(Elf32, All, blocks, base, m)
            && (PlaceOk(All, blocks, base, m, p) ==> p.offset == Some(0x1_0000_0000))
  {
    var blocks := [PhysBlock(0, 0xffff_f000, host)];
    assert InWindow(All, blocks[0], m.physAddr);
    assert Offset(All, blocks, 0) == 0;
    assert !OffsetFits(Elf32, All, blocks, base, m, 0);
  }

  lemma OffsetCut(big: bool, h: Phdr)
    requires h.offset == 0x1_0000_0000
    ensures Decode(Elf32, big, Encode(Elf32, big, h)).offset == 0
  {
    DecodedFields(Elf32, big, h);
    CutToZero(big);
  }

  /** How many program headers a reader takes a dump of n mappings to have, when junk is what is written as the
      section header. */
  function CountTold(c: Class, big: bool, n: nat, junk: seq<byte>): nat
    requires |junk| == Elf64.ShdrSize()
  {
    if n < UINT16_MAX - 2 then 1 + n else SectionInfo(c, big, junk[..c.ShdrSize()])
  }

  /** The number of headers can be told, whatever is written there, if and only if it needs no section header:
      write_elf_section writes what lies at its pointer to the section header, not the section header. */
  lemma CountRule(c: Class, big: bool, n: nat, count: nat)
    requires n < UINT16_MAX - 2 ==> count == 1 + n
    ensures (forall junk: seq<byte> | |junk| == Elf64.ShdrSize() :: CountTold(c, big, n, junk) == count)
       <==> n < UINT16_MAX - 2
  {
    if n >= UINT16_MAX - 2 {
      FourBytes(big);
      var zero, one := Filled(c, [0, 0, 0, 0]), Filled(c, [1, 0, 0, 1]);
      assert CountTold(c, big, n, zero) != CountTold(c, big, n, one);
    }
  }

  /** Bytes that give a section header the bytes of sh_info. */
  ghost function Filled(c: Class, info: seq<byte>): (junk: seq<byte>)
    requires |info| == 4
    ensures |junk| == Elf64.ShdrSize() && junk[..c.ShdrSize()][12 + 4 * c.Width()..16 + 4 * c.Width()] == info
  {
    var start, end := seq(12 + 4 * c.Width(), _ => 0), seq(48 - 4 * c.Width(), _ => 0);
    assert (start + info + end)[..c.ShdrSize()][|start|..|start| + 4] == info;
    start + info + end
  }

  lemma FourBytes(big: bool)
    ensures Number(big, [0, 0, 0, 0]) != Number(big, [1, 0, 0, 1])
  {
    FourZeros(big);
    assert Turned([1, 0, 0, 1]) == [1, 0, 0, 1];
  }

  /** The k-th of the headers, each of n bytes, is in its place in the file, where they begin at base. */
  ghost predicate ListedAt(file: seq<byte>, base: nat, n: nat, headers: seq<seq<byte>>, k: nat) {
    k < |headers| ==> base + n * k + n <= |file| && file[base + n * k..base + n * k + n] == headers[k]
  }

  ghost predicate Listed(file: seq<byte>, base: nat, n: nat, headers: seq<seq<byte>>) {
    forall k: nat :: ListedAt(file, base, n, headers, k)
  }

  lemma SliceKept(file: seq<byte>, more: seq<byte>, lo: nat, hi: nat)
    requires lo <= hi <= |file|
    ensures (file + more)[lo..hi] == file[lo..hi]
  {
  }

  lemma ListedKept(file: seq<byte>, more: seq<byte>, base: nat, n: nat, headers: seq<seq<byte>>)
    requires Listed(file, base, n, headers)
    ensures Listed(file + more, base, n, headers)
  {
    var file' := file + more;
    forall k: nat ensures ListedAt(file', base, n, headers, k) {
      assert ListedAt(file, base, n, headers, k);
      if k < |headers| {
        SliceKept(file, more, base + n * k, base + n * k + n);
      }
    }
  }

  lemma ListedMore(file: seq<byte>, base: nat, n: nat, headers: seq<seq<byte>>, header: seq<byte>)
    requires Listed(file, base, n, headers) && |file| == base + n * |headers| && |header| == n
    ensures Listed(file + header, base, n, headers + [header])
  {
    var file', headers' := file + header, headers + [header];
    ListedKept(file, header, base, n, headers);
    forall k: nat ensures ListedAt(file', base, n, headers', k) {
      assert ListedAt(file', base, n, headers, k);
      if k == |headers| {
        assert file'[|file|..] == header;
      }
    }
  }

  lemma Parts(header: seq<byte>, note: seq<byte>, loads: seq<byte>, section: seq<byte>, notes: seq<byte>)
    ensures var file := header + note + loads + section + notes;
            var a := |header| + |note|;
            var b := a + |loads|;
            var c := b + |section|;
            && header <= file && |file| == c + |notes|
            && file[|header|..a] == note && file[b..c] == section && file[c..c + |notes|] == notes
  {
  }

  /** What dump_init has found out about the file: the ELF header, memory_offset, and the notes before it. */
  datatype Plan = Plan(elfClass: Class, big: bool, phdrNum: nat, haveSection: bool, shInfo: nat,
                       memoryOffset: nat, notes: seq<byte>) {

    /** The number of program headers, and memory_offset, are right for n mappings, of which so many get a
        header. */
    ghost predicate Ok(n: nat, loads: nat) {
      && (haveSection <==> n >= UINT16_MAX - 2)
      && (if haveSection then phdrNum == PN_XNUM && shInfo == 1 + loads else phdrNum == 1 + loads == 1 + n)
      && memoryOffset == elfClass.EhdrSize() + elfClass.PhdrSize() * (1 + loads)
                         + (if haveSection then elfClass.ShdrSize() else 0) + |notes|
    }

    /** Where the program headers of the mappings begin. */
    function TableAt(): nat {
      elfClass.EhdrSize() + elfClass.PhdrSize()
    }

    /** Where the section header is, if there is one. */
    function SectionAt(): nat {
      if haveSection then elfClass.EhdrSize() + elfClass.PhdrSize() * shInfo else 0
    }

    function ElfHeader(): Ehdr {
      Ehdr(elfClass, big, elfClass.EhdrSize(), SectionAt(), elfClass.PhdrSize(), phdrNum)
    }

    /** The header of the notes. */
    function NoteHeader(): Phdr
      requires memoryOffset >= |notes|
    {
      Phdr(PT_NOTE, memoryOffset - |notes|, 0, 0, |notes|, |notes|)
    }

    /** What a file begins with: the ELF header, the header of the notes, and before the memory the notes. */
    ghost predicate Begins(file: seq<byte>, header: seq<byte>, note: seq<byte>, junk: seq<byte>)
      requires |junk| == Elf64.ShdrSize()
    {
      && |file| >= memoryOffset >= TableAt() + |notes| && |header| == elfClass.EhdrSize() && header <= file
      && file[elfClass.EhdrSize()..TableAt()] == note && file[memoryOffset - |notes|..memoryOffset] == notes
      && (haveSection ==> SectionHas(file, junk))
    }

    ghost predicate SectionHas(file: seq<byte>, junk: seq<byte>)
      requires |junk| == Elf64.ShdrSize()
    {
      var at, n := SectionAt(), elfClass.ShdrSize();
      at + n <= |file| && file[at..at + n] == junk[..n]
    }

    lemma BeginsStill(file: seq<byte>, more: seq<byte>, header: seq<byte>, note: seq<byte>, junk: seq<byte>)
      requires |junk| == Elf64.ShdrSize() && Begins(file, header, note, junk)
      ensures Begins(file + more, header, note, junk)
    {
      SliceKept(file, more, elfClass.EhdrSize(), TableAt());
      SliceKept(file, more, memoryOffset - |notes|, memoryOffset);
      if haveSection {
        SliceKept(file, more, SectionAt(), SectionAt() + elfClass.ShdrSize());
      }
    }

    lemma BeginsWith(header: seq<byte>, note: seq<byte>, loads: seq<byte>, junk: seq<byte>, n: nat, count: nat)
      requires |junk| == Elf64.ShdrSize() && Ok(n, count) && |loads| == elfClass.PhdrSize() * count
      requires |header| == elfClass.EhdrSize() && |note| == elfClass.PhdrSize()
      ensures var section := if haveSection then junk[..elfClass.ShdrSize()] else [];
              var file := header + note + loads + section + notes;
              |file| == memoryOffset && Begins(file, header, note, junk)
    {
      var section := if haveSection then junk[..elfClass.ShdrSize()] else [];
      Parts(header, note, loads, section, notes);
    }

    /** What a reader gets from the start of the file: the class, the byte order, where the headers are and how
        many; and the notes. */
    ghost predicate Told(file: seq<byte>, junk: seq<byte>, n: nat)
      requires |junk| == Elf64.ShdrSize()
    {
      && |file| >= Elf64.EhdrSize() && |file| >= memoryOffset >= TableAt() + |notes|
      && DecodeEhdr(file) == ElfHeader().(shoff := DecodeEhdr(file).shoff)
      && (DecodeEhdr(file).shoff == SectionAt() <==> elfClass.Fits(SectionAt()))
      && (elfClass.Fits(SectionAt()) ==> HeaderCount(file) == CountTold(elfClass, big, n, junk))
      && (Decode(elfClass, big, file[elfClass.EhdrSize()..TableAt()]) == NoteHeader()
          <==> elfClass.Fits(memoryOffset - |notes|) && elfClass.Fits(|notes|))
      && file[memoryOffset - |notes|..memoryOffset] == notes
    }

    /** These are the ELF header and the header of the notes. */
    ghost predicate Opens(header: seq<byte>, note: seq<byte>) {
      IsEhdr(ElfHeader(), header) && memoryOffset >= |notes| && Tells(elfClass, big, note, NoteHeader())
    }

    lemma NoteTold(note: seq<byte>)
      requires memoryOffset >= |notes| && Tells(elfClass, big, note, NoteHeader())
      ensures |note| == elfClass.PhdrSize()
      ensures Decode(elfClass, big, note) == NoteHeader()
         <==> elfClass.Fits(memoryOffset - |notes|) && elfClass.Fits(|notes|)
    {
      assert TellsAs(elfClass, big, note, NoteHeader(), Decode(elfClass, big, note));
    }

    lemma TellStart(file: seq<byte>, header: seq<byte>, note: seq<byte>, junk: seq<byte>, n: nat, loads: nat)
      requires Ok(n, loads) && |junk| == Elf64.ShdrSize() && Begins(file, header, note, junk)
      requires Opens(header, note)
      ensures Told(file, junk, n)
    {
      assert ReadAs(ElfHeader(), header, file);
      NoteTold(note);
    }
  }

  class Dump {
    const filter: Filter
    const blocks: seq<PhysBlock>
    const arch: Arch
    /** The notes of all CPUs, s->note_size bytes. */
    const notes: seq<byte>
    var elfClass: Class
    var big: bool
    var list: seq<Mapping>
    var phdrNum: nat
    var haveSection: bool
    var shInfo: nat
    var memoryOffset: nat
    /** s->next_block and s->start. */
    var nextBlock: nat
    var start: nat
    /** What has been written to the file. */
    var file: seq<byte>
    /** The headers of the mappings, and the places in them. */
    ghost var headers: seq<seq<byte>>
    ghost var places: seq<Place>

    constructor (filter: Filter, blocks: seq<PhysBlock>, arch: Arch, notes: seq<byte>)
      ensures this.filter == filter && this.blocks == blocks && this.arch == arch && this.notes == notes
      ensures file == [] && start == 0
    {
      this.filter, this.blocks, this.arch, this.notes := filter, blocks, arch, notes;
      elfClass, big, list := Elf64, false, [];
      phdrNum, haveSection, shInfo, memoryOffset := 0, false, 0, 0;
      nextBlock, start, file, headers, places := 0, 0, [], [], [];
    }

    /** How many mappings get a header. */
    function Loads(): nat
      reads `list
    {
      if |list| < UINT32_MAX then |list| else UINT32_MAX - 1
    }

    function Plans(): Plan
      reads `elfClass, `big, `phdrNum, `haveSection, `shInfo, `memoryOffset
    {
      Plan(elfClass, big, phdrNum, haveSection, shInfo, memoryOffset, notes)
    }

    ghost predicate HeadersOk()
      reads `list, `elfClass, `big, `phdrNum, `haveSection, `shInfo, `memoryOffset
    {
      Plans().Ok(|list|, Loads())
    }

    /** The class and the byte order are those of the guest, and the class has room for its memory. */
    ghost predicate ClassChosen()
      reads `elfClass, `big
    {
      && !arch.Other? && ClassOk(elfClass, blocks)
      && (elfClass.Elf32? <==> arch == X86(false) && ClassOk(Elf32, blocks))
      && big == (arch.S390x? || arch == Ppc64(true))
    }

    /** The mappings that dump_init is to use. */
    ghost predicate ListChosen(paging: Paging)
      requires BlocksOk(blocks)
      reads `list
    {
      match paging
      case Tables(tables) => list == if filter.Part? then Clips(filter, tables) else tables
      case Failed => false
      case _ => Simple(filter, blocks, list)
    }

    /** The mappings, cut to the filter. */
    method GetMappings(paging: Paging) returns (ok: bool)
      requires BlocksOk(blocks)
      modifies `list
      ensures ok <==> !paging.Failed?
      ensures ok ==> ListChosen(paging)
    {
      ok := true;
      match paging {
        case Failed =>
          ok := false;
        case Tables(tables) =>
          list := MemoryMappingFilter(filter, tables);
        case _ =>
          var simple := GetGuestSimpleMemoryMapping(blocks, paging.Disabled?);
          SimpleFiltered(filter, blocks, paging.Disabled?, simple);
          list := MemoryMappingFilter(filter, simple);
      }
    }

    /** The end of dump_init: phdr_num, sh_info and memory_offset. */
    method CountHeaders()
      modifies `phdrNum, `haveSection, `shInfo, `memoryOffset
      ensures HeadersOk()
    {
      phdrNum := 1;
      if |list| < UINT16_MAX - 2 {
        phdrNum := phdrNum + |list|;
        haveSection := false;
      } else {
        haveSection := true;
        phdrNum := PN_XNUM;
        shInfo := 1;
        if |list| <= UINT32_MAX - 1 {
          shInfo := shInfo + |list|;
        } else {
          shInfo := UINT32_MAX;
        }
      }
      if haveSection {
        memoryOffset := elfClass.EhdrSize() + elfClass.PhdrSize() * shInfo + elfClass.ShdrSize() + |notes|;
      } else {
        memoryOffset := elfClass.EhdrSize() + elfClass.PhdrSize() * phdrNum + |notes|;
      }
    }

    /** dump_init, from get_start_block on; it fails when nothing is to be dumped, for an unknown architecture,
        and when the page tables cannot be read. */
    method Init(paging: Paging) returns (ok: bool)
      requires BlocksOk(blocks) && (filter.All? ==> blocks != [] && start == 0)
      modifies `nextBlock, `start, `elfClass, `big, `list, `phdrNum, `haveSection, `shInfo, `memoryOffset
      ensures ok <==> !arch.Other? && !paging.Failed? && exists j :: 0 <= j < |blocks| && !filter.Skips(blocks[j])
      ensures ok ==> ClassChosen() && ListChosen(paging) && HeadersOk() && AtStart()
    {
      ok := GetStartBlock();
      if !ok {
        return;
      }
      ok, elfClass, big := CpuGetDumpInfo(arch, blocks);
      if !ok {
        return;
      }
      ok := GetMappings(paging);
      if !ok {
        return;
      }
      CountHeaders();
    }

    /** Header k is that of mapping k. */
    ghost predicate HeaderAt(headers: seq<seq<byte>>, places: seq<Place>, k: nat)
      reads `memoryOffset, `list, `elfClass, `big
    {
      k < |headers| ==>
        && k < |places| && k < |list| && BlocksOk(blocks) && PlaceOk(filter, blocks, memoryOffset, list[k], places[k])
        && Tells(elfClass, big, headers[k], HeaderOf(elfClass, list[k], places[k]))
    }

    ghost predicate AllHeaders(headers: seq<seq<byte>>, places: seq<Place>)
      reads `memoryOffset, `list, `elfClass, `big
    {
      forall k: nat :: HeaderAt(headers, places, k)
    }

    /** The header of mapping k: get_offset_range, and write_elf64_load or write_elf32_load. */
    method MakeHeader(k: nat) returns (header: seq<byte>, p: Place)
      requires BlocksOk(blocks) && k < |list|
      ensures PlaceOk(filter, blocks, memoryOffset, list[k], p)
      ensures Tells(elfClass, big, header, HeaderOf(elfClass, list[k], p))
    {
      p := GetOffsetRange(filter, blocks, memoryOffset, list[k]);
      header := ElfHeaders.MakeHeader(elfClass, big, HeaderOf(elfClass, list[k], p));
    }

    /** The header of mapping k is written after those before it. */
    method WriteElfLoad(k: nat, ghost base: nat, ghost n: nat)
      requires BlocksOk(blocks) && k == |headers| == |places| < |list| && n == elfClass.PhdrSize()
      requires |file| == base + n * k && Listed(file, base, n, headers) && AllHeaders(headers, places)
      modifies `file, `headers, `places
      ensures |headers| == |places| == k + 1 && |file| == |old(file)| + n && old(file) <= file
      ensures Listed(file, base, n, headers) && AllHeaders(headers, places)
    {
      var header, p := MakeHeader(k);
      MoreHeaders(headers, places, header, p);
      ListedMore(file, base, n, headers, header);
      file := file + header;
      headers, places := headers + [header], places + [p];
    }

    lemma MoreHeaders(headers: seq<seq<byte>>, places: seq<Place>, header: seq<byte>, p: Place)
      requires BlocksOk(blocks) && |headers| == |places| < |list| && AllHeaders(headers, places)
      requires PlaceOk(filter, blocks, memoryOffset, list[|headers|], p)
      requires Tells(elfClass, big, header, HeaderOf(elfClass, list[|headers|], p))
      ensures AllHeaders(headers + [header], places + [p])
    {
      var headers', places' := headers + [header], places + [p];
      forall k: nat ensures HeaderAt(headers', places', k) {
        if k < |headers| {
          assert HeaderAt(headers, places, k);
          assert headers'[k] == headers[k] && places'[k] == places[k];
        } else if k == |headers| {
          assert headers'[k] == header && places'[k] == p;
        }
      }
    }

    /** write_elf_loads: a header for every mapping, as many as were counted. */
    method WriteElfLoads()
      requires HeadersOk() && BlocksOk(blocks)
      modifies `file, `headers, `places
      ensures |headers| == |places| == Loads() && |file| == |old(file)| + elfClass.PhdrSize() * Loads()
      ensures old(file) <= file
      ensures Listed(file, |old(file)|, elfClass.PhdrSize(), headers) && AllHeaders(headers, places)
    {
      var phdrIndex := 1;
      var maxIndex := if haveSection then shInfo else phdrNum;
      headers, places := [], [];
      var k := 0;
      while k < |list|
        invariant 0 <= k == |headers| == |places| <= Loads() && phdrIndex == 1 + k && (k < Loads() || k == |list|)
        invariant |file| == |old(file)| + elfClass.PhdrSize() * k && old(file) <= file
        invariant Listed(file, |old(file)|, elfClass.PhdrSize(), headers) && AllHeaders(headers, places)
      {
        WriteElfLoad(k, |old(file)|, elfClass.PhdrSize());
        phdrIndex := phdrIndex + 1;
        k := k + 1;
        if phdrIndex >= maxIndex {
          break;
        }
      }
    }

    /** dump_begin: what comes before the memory is memory_offset bytes. junk is what write_elf_section finds
        where it keeps its pointer to the section header. */
    method DumpBegin(junk: seq<byte>) returns (ghost header: seq<byte>, ghost note: seq<byte>)
      requires HeadersOk() && BlocksOk(blocks) && file == [] && |junk| == Elf64.ShdrSize()
      modifies `file, `headers, `places
      ensures |file| == memoryOffset && Plans().Begins(file, header, note, junk) && Plans().Opens(header, note)
      ensures |headers| == |places| == Loads() && AllHeaders(headers, places)
      ensures Listed(file, Plans().TableAt(), elfClass.PhdrSize(), headers)
    {
      var first, second := WriteElfHeader();
      header, note := first, second;
      WriteTable(first, second, junk);
    }

    /** write_elf64_header and write_elf64_note, or those for 32 bits. */
    method WriteElfHeader() returns (header: seq<byte>, note: seq<byte>)
      requires HeadersOk() && file == []
      modifies `file
      ensures file == header + note && |header| == elfClass.EhdrSize() && |note| == elfClass.PhdrSize()
      ensures Plans().Opens(header, note)
    {
      header := MakeEhdr(arch.Machine(), Plans().ElfHeader(), haveSection);
      note := ElfHeaders.MakeHeader(elfClass, big, Plans().NoteHeader());
      file := header + note;
    }

    /** The rest of dump_begin. */
    method WriteTable(ghost header: seq<byte>, ghost note: seq<byte>, junk: seq<byte>)
      requires HeadersOk() && BlocksOk(blocks) && |junk| == Elf64.ShdrSize()
      requires file == header + note && |header| == elfClass.EhdrSize() && |note| == elfClass.PhdrSize()
      modifies `file, `headers, `places
      ensures |file| == memoryOffset && Plans().Begins(file, header, note, junk)
      ensures |headers| == |places| == Loads() && AllHeaders(headers, places)
      ensures Listed(file, Plans().TableAt(), elfClass.PhdrSize(), headers)
    {
      WriteElfLoads();
      ghost var base, n, loads := Plans().TableAt(), elfClass.PhdrSize(), file[|header + note|..];
      assert file == header + note + loads;
      Plans().BeginsWith(header, note, loads, junk, |list|, Loads());
      var section := if haveSection then junk[..elfClass.ShdrSize()] else [];
      ListedKept(file, section, base, n, headers);
      ListedKept(file + section, notes, base, n, headers);
      file := file + section + notes;
    }

    /** The file has the image, a reader finds the headers, and that of every mapping tells the mapping, and a
        part of the file that shows it, if and only if its numbers fit. */
    ghost predicate Dumped(junk: seq<byte>)
      requires |junk| == Elf64.ShdrSize() && BlocksOk(blocks)
      reads this
    {
      && Complete(file, memoryOffset, filter, blocks) && Plans().Told(file, junk, |list|)
      && |places| == Loads() && forall k: nat :: LoadShows(k)
    }

    /** create_vmcore, whatever the filter, the blocks and the mappings are. */
    method CreateVmcore(junk: seq<byte>)
      requires ClassChosen() && HeadersOk() && AtStart() && file == [] && |junk| == Elf64.ShdrSize()
      modifies `file, `headers, `places, `nextBlock, `start
      ensures Dumped(junk)
    {
      ghost var header, note := DumpBegin(junk);
      ghost var begun := file;
      Iterate();
      ghost var more := file[|begun|..];
      assert file == begun + more;
      ListedKept(begun, more, Plans().TableAt(), elfClass.PhdrSize(), headers);
      Plans().BeginsStill(begun, more, header, note, junk);
      IsDumped(header, note, junk);
    }

    lemma IsDumped(header: seq<byte>, note: seq<byte>, junk: seq<byte>)
      requires HeadersOk() && BlocksOk(blocks) && ClassOk(elfClass, blocks) && |junk| == Elf64.ShdrSize()
      requires Complete(file, memoryOffset, filter, blocks) && Plans().Begins(file, header, note, junk)
      requires Plans().Opens(header, note)
      requires |headers| == |places| == Loads() && AllHeaders(headers, places)
      requires Listed(file, Plans().TableAt(), elfClass.PhdrSize(), headers)
      ensures Dumped(junk)
    {
      Plans().TellStart(file, header, note, junk, |list|, Loads());
      forall k: nat ensures LoadShows(k) {
        ShowLoad(k);
      }
    }

    /** A dump from its start: dump_init and create_vmcore. Nothing is written if it fails. */
    method DumpGuestMemory(paging: Paging, junk: seq<byte>) returns (ok: bool)
      requires BlocksOk(blocks) && (filter.All? ==> blocks != []) && start == 0 && file == []
      requires |junk| == Elf64.ShdrSize()
      modifies this
      ensures ok <==> !arch.Other? && !paging.Failed? && exists j :: 0 <= j < |blocks| && !filter.Skips(blocks[j])
      ensures !ok ==> file == []
      ensures ok ==> ClassChosen() && ListChosen(paging) && HeadersOk() && Dumped(junk)
    {
      ok := Init(paging);
      if ok {
        CreateVmcore(junk);
      }
    }

    lemma ShowLoad(k: nat)
      requires AllHeaders(headers, places) && |headers| == |places| && BlocksOk(blocks) && ClassOk(elfClass, blocks)
      requires Complete(file, memoryOffset, filter, blocks)
      requires Listed(file, Plans().TableAt(), elfClass.PhdrSize(), headers)
      ensures LoadShows(k)
    {
      assert HeaderAt(headers, places, k) && ListedAt(file, Plans().TableAt(), elfClass.PhdrSize(), headers, k);
      if k < |headers| {
        var at := Plans().TableAt() + elfClass.PhdrSize() * k;
        assert file[at..at + elfClass.PhdrSize()] == headers[k];
        ShowHeader(file, filter, blocks, memoryOffset, elfClass, big, list[k], places[k], at);
      }
    }

    /** The k-th header after that of the notes shows mapping k, if and only if it fits. */
    ghost predicate LoadShows(k: nat)
      reads this
    {
      k < |places| ==>
        && k < |list|
        && HeaderShows(file, filter, blocks, memoryOffset, elfClass, big, list[k], places[k],
                       Plans().TableAt() + elfClass.PhdrSize() * k)
    }

    /** Nothing has been written of the blocks. */
    ghost predicate AtStart()
      reads `nextBlock, `start
    {
      && AtBlock() && Offset(filter, blocks, nextBlock) == 0
      && forall j | 0 <= j < nextBlock :: filter.Skips(blocks[j])
    }

    /** The block to be written next and where in it to begin. */
    ghost predicate AtBlock()
      reads `nextBlock, `start
    {
      && BlocksOk(blocks) && nextBlock < |blocks| && !filter.Skips(blocks[nextBlock])
      && start == filter.From(blocks[nextBlock]) - blocks[nextBlock].start
    }

    /** get_start_block; !found is its result -1. Without a filter there must be a block, and the
        state is as it was set up. */
    method GetStartBlock() returns (found: bool)
      requires BlocksOk(blocks) && (filter.All? ==> blocks != [] && start == 0)
      modifies `nextBlock, `start
      ensures found ==> AtStart()
      ensures !found ==> forall j | 0 <= j < |blocks| :: filter.Skips(blocks[j])
    {
      if filter.All? {
        nextBlock := 0;
        return true;
      }
      var i := 0;
      while i < |blocks|
        invariant 0 <= i <= |blocks| && Offset(filter, blocks, i) == 0
        invariant forall j | 0 <= j < i :: filter.Skips(blocks[j])
      {
        if !filter.Skips(blocks[i]) {
          nextBlock := i;
          start := if filter.begin > blocks[i].start then filter.begin - blocks[i].start else 0;
          return true;
        }
        i := i + 1;
      }
      found := false;
    }

    /** get_next_block after block k. */
    method GetNextBlock(k: nat) returns (more: bool)
      requires BlocksOk(blocks) && k < |blocks|
      modifies `nextBlock, `start
      ensures more ==> AtBlock() && nextBlock > k && Offset(filter, blocks, nextBlock) == Offset(filter, blocks, k + 1)
      ensures more ==> forall j | k < j < nextBlock :: filter.Skips(blocks[j])
      ensures !more ==> Offset(filter, blocks, |blocks|) == Offset(filter, blocks, k + 1)
      ensures !more ==> forall j | k < j < |blocks| :: filter.Skips(blocks[j])
    {
      var i := k + 1;
      while i < |blocks|
        invariant k < i <= |blocks| && Offset(filter, blocks, i) == Offset(filter, blocks, k + 1)
        invariant forall j | k < j < i :: filter.Skips(blocks[j])
      {
        start := 0;
        nextBlock := i;
        if !filter.Skips(blocks[i]) {
          if filter.Part? && filter.begin > blocks[i].start {
            start := filter.begin - blocks[i].start;
          }
          return true;
        }
        i := i + 1;
      }
      more := false;
    }

    /** write_memory: page by page, and what is left. */
    method WriteMemory(b: PhysBlock, from: nat, size: nat)
      requires from + size <= |b.host|
      modifies `file
      ensures file == old(file) + b.host[from..from + size]
    {
      var i := 0;
      while i < size / TARGET_PAGE_SIZE
        invariant 0 <= i <= size / TARGET_PAGE_SIZE
        invariant file == old(file) + b.host[from..from + i * TARGET_PAGE_SIZE]
      {
        file := file + b.host[from + i * TARGET_PAGE_SIZE..from + i * TARGET_PAGE_SIZE + TARGET_PAGE_SIZE];
        i := i + 1;
      }
      if size % TARGET_PAGE_SIZE != 0 {
        file := file + b.host[from + i * TARGET_PAGE_SIZE..from + i * TARGET_PAGE_SIZE + size % TARGET_PAGE_SIZE];
      }
    }

    /** The blocks before block n are in the file. */
    ghost predicate Done(base: nat, n: nat)
      requires BlocksOk(blocks) && n <= |blocks|
      reads `file
    {
      |file| == base + Offset(filter, blocks, n)
      && forall i: nat, x: nat | i < n :: Written(file, base, filter, blocks, i, x)
    }

    /** The body of the loop of dump_iterate. */
    method WriteBlock(ghost base: nat)
      requires AtBlock() && Done(base, nextBlock)
      modifies `file
      ensures Done(base, nextBlock + 1) && old(file) <= file
    {
      var b := blocks[nextBlock];
      var size := b.end - b.start;
      if filter.Part? {
        size := size - start;
        if filter.begin + filter.length < b.end {
          size := size - (b.end - (filter.begin + filter.length));
        }
      }
      assert size == filter.Size(b);
      WriteMemory(b, start, size);
      forall i: nat, x: nat | i < nextBlock + 1 ensures Written(file, base, filter, blocks, i, x) {
        if i < nextBlock {
          assert Written(old(file), base, filter, blocks, i, x);
          WrittenStill(old(file), b.host[start..start + size], base, filter, blocks, i, x);
        } else if x < filter.Size(b) {
          assert file[|old(file)| + x] == b.host[start..start + size][x];
        }
      }
    }

    /** dump_iterate from the start block on: the file gets the image that get_offset_range describes. */
    method Iterate()
      requires AtStart()
      modifies `file, `nextBlock, `start
      ensures Complete(file, |old(file)|, filter, blocks) && old(file) <= file
    {
      ghost var base := |file|;
      var more := true;
      while more
        invariant BlocksOk(blocks) && old(file) <= file
        invariant more ==> AtBlock() && Done(base, nextBlock)
        invariant !more ==> Complete(file, base, filter, blocks)
        decreases more, |blocks| - nextBlock
      {
        var block := nextBlock;
        WriteBlock(base);
        more := GetNextBlock(block);
        ghost var n := if more then nextBlock else |blocks|;
        forall i: nat, x: nat | i < n ensures Written(file, base, filter, blocks, i, x) {
          if i <= block {
            assert Written(file, base, filter, blocks, i, x);
          }
        }
      }
    }
  }
}
