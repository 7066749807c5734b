/** The memory image of a dump: blocks, filter, mappings, and where each of these is in the file (dump.c,
    get_offset_range; memory_mapping.c; target-i386/arch_dump.c, cpu_get_dump_info). */
module DumpLayout {
  import opened Prelude
  import opened ElfHeaders

  const UINT32_MAX := 0xffff_ffff
  const ADDRESSES := 0x1_0000_0000_0000_0000

  /** A block of guest memory at guest-physical addresses start .. end, which have 64 bits. */
  datatype PhysBlock = PhysBlock(start: nat, end: nat, host: seq<byte>) {

    ghost predicate Ok() {
      start < end < ADDRESSES && |host| == end - start
    }
  }

  /** The part of memory that is to be dumped. */
  datatype Filter = All | Part(begin: nat, length: nat) {

    /** The block has nothing to dump. */
    predicate Skips(b: PhysBlock) {
      Part? && (b.start >= begin + length || b.end <= begin)
    }

    /** What get_offset_range takes to be in the file of a block: from which address on, how much. */
    function From(b: PhysBlock): nat {
      if Part? && begin > b.start then begin else b.start
    }

    function Size(b: PhysBlock): int {
      b.end - From(b) - if Part? && begin + length < b.end then b.end - (begin + length) else 0
    }
  }

  /** The blocks are in ascending order, as guest_phys_blocks_region_add asserts. */
  ghost predicate BlocksOk(blocks: seq<PhysBlock>) {
    && (forall i | 0 <= i < |blocks| :: blocks[i].Ok())
    && (forall i, j | 0 <= i < j < |blocks| :: blocks[i].end <= blocks[j].start)
  }

  /** How much of the blocks before block k is in the file. */
  function Offset(f: Filter, blocks: seq<PhysBlock>, k: nat): (n: nat)
    requires k <= |blocks| && forall i | 0 <= i < |blocks| :: blocks[i].Ok()
  {
    if k == 0 then 0
    else Offset(f, blocks, k - 1) + if f.Skips(blocks[k - 1]) then 0 else f.Size(blocks[k - 1])
  }

  /** Byte x of what is dumped of block i is in its place in the file, whose image begins at base. */
  ghost predicate Written(file: seq<byte>, base: nat, f: Filter, blocks: seq<PhysBlock>, i: nat, x: nat)
    requires forall j | 0 <= j < |blocks| :: blocks[j].Ok()
  {
    i < |blocks| && !f.Skips(blocks[i]) && x < f.Size(blocks[i]) ==>
      var p := base + Offset(f, blocks, i) + x;
      p < |file| && file[p] == blocks[i].host[f.From(blocks[i]) - blocks[i].start + x]
  }

  lemma WrittenStill(file: seq<byte>, more: seq<byte>, base: nat, f: Filter, blocks: seq<PhysBlock>, i: nat, x: nat)
    requires forall j | 0 <= j < |blocks| :: blocks[j].Ok()
    requires Written(file, base, f, blocks, i, x)
    ensures Written(file + more, base, f, blocks, i, x)
  {
  }

  /** The image is in the file. */
  ghost predicate Complete(file: seq<byte>, base: nat, f: Filter, blocks: seq<PhysBlock>)
    requires forall j | 0 <= j < |blocks| :: blocks[j].Ok()
  {
    |file| == base + Offset(f, blocks, |blocks|) && forall i: nat, x: nat :: Written(file, base, f, blocks, i, x)
  }

  /** The byte of guest memory at addr is v. */
  ghost predicate Holds(blocks: seq<PhysBlock>, addr: nat, v: byte) {
    exists i :: 0 <= i < |blocks| && blocks[i].start <= addr < blocks[i].end
                && addr - blocks[i].start < |blocks[i].host| && blocks[i].host[addr - blocks[i].start] == v
  }

  /** Block b has the address within what is dumped of it. */
  ghost predicate InWindow(f: Filter, b: PhysBlock, addr: nat) {
    !f.Skips(b) && f.From(b) <= addr < f.From(b) + f.Size(b)
  }

  /** No block before block i has the address. */
  ghost predicate NotBefore(f: Filter, blocks: seq<PhysBlock>, i: nat, addr: nat) {
    forall j: nat | j < i && j < |blocks| :: !InWindow(f, blocks[j], addr)
  }

  /** Where in the file an address is that block i has. */
  function FileOffset(f: Filter, blocks: seq<PhysBlock>, base: nat, physAddr: nat, i: nat): int
    requires i < |blocks| && forall j | 0 <= j < |blocks| :: blocks[j].Ok()
  {
    base + Offset(f, blocks, i) + (physAddr - f.From(blocks[i]))
  }

  /** The range lies in what is dumped of block i, and its place in the file is as it should be. */
  ghost predicate Placed(f: Filter, blocks: seq<PhysBlock>, base: nat, physAddr: nat, offset: nat, filesz: nat, i: nat)
    requires forall j | 0 <= j < |blocks| :: blocks[j].Ok()
  {
    && i < |blocks| && InWindow(f, blocks[i], physAddr)
    && physAddr + filesz <= f.From(blocks[i]) + f.Size(blocks[i])
    && offset == FileOffset(f, blocks, base, physAddr, i)
  }

  /** A mapping of guest memory. */
  datatype Mapping = Mapping(physAddr: nat, virtAddr: nat, length: nat) {

    predicate Has(addr: nat) {
      physAddr <= addr < physAddr + length
    }
  }

  /** Where a mapping is in the file, how much of it, and in which block; None is offset -1. */
  datatype Place = Place(offset: Option<nat>, filesz: nat, block: nat)

  /** The part of the mapping that is in the file is all that the block has; none if no block has the
      address. */
  ghost predicate PlaceOk(f: Filter, blocks: seq<PhysBlock>, base: nat, m: Mapping, p: Place)
    requires forall j | 0 <= j < |blocks| :: blocks[j].Ok()
  {
    && p.filesz <= m.length
    && match p.offset
       case None => NotBefore(f, blocks, |blocks|, m.physAddr) && p.filesz == 0
       case Some(offset) =>
         && Placed(f, blocks, base, m.physAddr, offset, p.filesz, p.block)
         && (p.filesz < m.length ==> m.physAddr + p.filesz == f.From(blocks[p.block]) + f.Size(blocks[p.block]))
  }

  lemma FoundIn(f: Filter, blocks: seq<PhysBlock>, base: nat, m: Mapping, k: nat, filesz: nat)
    requires BlocksOk(blocks) && k < |blocks| && InWindow(f, blocks[k], m.physAddr)
    requires var end := f.From(blocks[k]) + f.Size(blocks[k]);
             filesz == if m.physAddr + m.length <= end then m.length else end - m.physAddr
    ensures PlaceOk(f, blocks, base, m, Place(Some(FileOffset(f, blocks, base, m.physAddr, k)), filesz, k))
  {
  }

  /** get_offset_range. */
  method GetOffsetRange(f: Filter, blocks: seq<PhysBlock>, memoryOffset: nat, m: Mapping) returns (p: Place)
    requires BlocksOk(blocks)
    ensures PlaceOk(f, blocks, memoryOffset, m, p)
  {
    var physAddr, length := m.physAddr, m.length;
    if f.Part? && (physAddr < f.begin || physAddr >= f.begin + f.length) {
      return Place(None, 0, 0);
    }
    var at, k := memoryOffset, 0;
    while k < |blocks|
      invariant 0 <= k <= |blocks| && NotBefore(f, blocks, k, physAddr) && at == memoryOffset + Offset(f, blocks, k)
    {
      var b := blocks[k];
      if !f.Skips(b) {
        var start, size := f.From(b), f.Size(b);
        if physAddr >= start && physAddr < start + size {
          var filesz := if physAddr + length <= start + size then length else size - (physAddr - start);
          FoundIn(f, blocks, memoryOffset, m, k, filesz);
          return Place(Some(physAddr - start + at), filesz, k);
        }
        at := at + size;
      }
      k := k + 1;
    }
    return Place(None, 0, 0);
  }

  /** What a place in the file holds is the guest memory at the address. */
  lemma PlaceShows(file: seq<byte>, f: Filter, blocks: seq<PhysBlock>, base: nat,
                   physAddr: nat, offset: nat, filesz: nat, i: nat, k: nat)
    requires BlocksOk(blocks) && Complete(file, base, f, blocks)
    requires Placed(f, blocks, base, physAddr, offset, filesz, i) && k < filesz
    ensures offset + k < |file| && Holds(blocks, physAddr + k, file[offset + k])
  {
    var x := physAddr + k - f.From(blocks[i]);
    assert Written(file, base, f, blocks, i, x);
  }

  /** The architecture of the guest, as far as its cpu_get_dump_info looks at it; of others there is no dump. */
  datatype Arch = X86(lma: bool) | Ppc64(bigEndian: bool) | S390x | Other {

    function Machine(): nat {
      match this
      case X86(lma) => if lma then 62 else 3
      case Ppc64(_) => 21
      case S390x => 22
      case Other => 0
    }
  }

  /** With the class all addresses of the blocks have room. */
  ghost predicate ClassOk(c: Class, blocks: seq<PhysBlock>) {
    c.Elf32? ==> forall i | 0 <= i < |blocks| :: blocks[i].end <= UINT32_MAX
  }

  /** cpu_get_dump_info: a 32-bit file for an x86 guest outside of long mode without memory above 4 GiB, and
      only for that. */
  method CpuGetDumpInfo(arch: Arch, blocks: seq<PhysBlock>) returns (ok: bool, c: Class, big: bool)
    ensures ok <==> !arch.Other?
    ensures ok ==> (c.Elf32? <==> arch == X86(false) && ClassOk(Elf32, blocks))
    ensures ok ==> big == (arch.S390x? || arch == Ppc64(true))
  {
    ok, c, big := !arch.Other?, Elf64, arch.S390x? || arch == Ppc64(true);
    if arch == X86(false) {
      c := Elf32;
      var k := 0;
      while k < |blocks|
        invariant 0 <= k <= |blocks| && forall i | 0 <= i < k :: blocks[i].end <= UINT32_MAX
      {
        if blocks[k].end > UINT32_MAX {
          c := Elf64;
          return;
        }
        k := k + 1;
      }
    }
  }

  /** memory_mapping_list_add_mapping_sorted. */
  method AddMappingSorted(list: seq<Mapping>, m: Mapping) returns (list': seq<Mapping>)
    ensures (forall p | p in list :: p.physAddr < m.physAddr) ==> list' == list + [m]
    ensures multiset(list') == multiset(list) + multiset{m}
  {
    var k := 0;
    while k < |list| && list[k].physAddr < m.physAddr
      invariant 0 <= k <= |list|
    {
      k := k + 1;
    }
    list' := list[..k] + [m] + list[k..];
    assert k < |list| ==> list[k] in list;
    assert list == list[..k] + list[k..];
  }

  /** A block as a mapping, at its own address or at virtual address 0. */
  function Whole(b: PhysBlock, identity: bool): Mapping {
    Mapping(b.start, if identity then b.start else 0, if b.start <= b.end then b.end - b.start else 0)
  }

  /** qemu_get_guest_simple_memory_mapping, and qemu_get_guest_memory_mapping when no CPU has paging enabled. */
  method GetGuestSimpleMemoryMapping(blocks: seq<PhysBlock>, identity: bool) returns (list: seq<Mapping>)
    requires BlocksOk(blocks)
    ensures |list| == |blocks| && forall i | 0 <= i < |blocks| :: list[i] == Whole(blocks[i], identity)
  {
    list := [];
    var k := 0;
    while k < |blocks|
      invariant 0 <= k == |list| <= |blocks| && forall i | 0 <= i < k :: list[i] == Whole(blocks[i], identity)
    {
      list := AddMappingSorted(list, Whole(blocks[k], identity));
      k := k + 1;
    }
  }

  /** What memory_mapping_filter leaves of a mapping: all that is in the part. */
  function Clip(f: Filter, m: Mapping): (r: Option<Mapping>)
    requires f.Part?
    ensures forall a: nat :: (r.Some? && r.value.Has(a)) <==> (m.Has(a) && f.begin <= a < f.begin + f.length)
    ensures r.Some? ==> r.value.physAddr >= m.physAddr && r.value.physAddr + r.value.length <= m.physAddr + m.length
    ensures r.Some? ==> r.value.virtAddr == if m.virtAddr == 0 then 0 else m.virtAddr + (r.value.physAddr - m.physAddr)
  {
    if m.physAddr >= f.begin + f.length || m.physAddr + m.length <= f.begin then None
    else
      var cut := if m.physAddr < f.begin then f.begin - m.physAddr else 0;
      var phys, virt := m.physAddr + cut, if m.virtAddr == 0 then 0 else m.virtAddr + cut;
      var rest := m.length - cut;
      Some(Mapping(phys, virt, if phys + rest > f.begin + f.length then f.begin + f.length - phys else rest))
  }

  /** The mappings that have something in the part, cut to it. */
  ghost function Clips(f: Filter, list: seq<Mapping>): seq<Mapping>
    requires f.Part?
  {
    if list == [] then [] else
      var r, clip := Clips(f, list[..|list| - 1]), Clip(f, list[|list| - 1]);
      if clip.Some? then r + [clip.value] else r
  }

  lemma {:induction false} ClipsFrom(f: Filter, list: seq<Mapping>)
    requires f.Part?
    ensures forall m | m in Clips(f, list) :: exists i :: 0 <= i < |list| && Clip(f, list[i]) == Some(m)
    ensures forall i | 0 <= i < |list| && Clip(f, list[i]).Some? :: Clip(f, list[i]).value in Clips(f, list)
  {
    if list != [] {
      var first := list[..|list| - 1];
      ClipsFrom(f, first);
      forall m | m in Clips(f, list) ensures exists i :: 0 <= i < |list| && Clip(f, list[i]) == Some(m) {
        if m in Clips(f, first) {
          var i :| 0 <= i < |first| && Clip(f, first[i]) == Some(m);
          assert Clip(f, list[i]) == Some(m);
        } else {
          assert Clip(f, list[|list| - 1]) == Some(m);
        }
      }
      forall i | 0 <= i < |list| && Clip(f, list[i]).Some? ensures Clip(f, list[i]).value in Clips(f, list) {
        assert i < |first| ==> first[i] == list[i];
      }
    }
  }

  /** memory_mapping_filter. */
  method MemoryMappingFilter(f: Filter, list: seq<Mapping>) returns (r: seq<Mapping>)
    ensures r == if f.Part? then Clips(f, list) else list
  {
    if f.All? {
      return list;
    }
    r := [];
    var k := 0;
    while k < |list|
      invariant 0 <= k <= |list| && r == Clips(f, list[..k])
    {
      var clip := Clip(f, list[k]);
      assert list[..k + 1][..k] == list[..k];
      if clip.Some? {
        r := r + [clip.value];
      }
      k := k + 1;
    }
    assert list[..k] == list;
  }

  /** Mapping m is what is dumped of block i, at an address that is no larger than that of the block. */
  ghost predicate IsBlock(f: Filter, blocks: seq<PhysBlock>, m: Mapping, i: nat) {
    && i < |blocks| && !f.Skips(blocks[i]) && m.physAddr == f.From(blocks[i]) && m.length == f.Size(blocks[i])
    && m.virtAddr <= m.physAddr
  }

  ghost predicate IsSomeBlock(f: Filter, blocks: seq<PhysBlock>, m: Mapping) {
    exists i: nat :: IsBlock(f, blocks, m, i)
  }

  /** Some mapping of the list is what is dumped of block i. */
  ghost predicate BlockIn(f: Filter, blocks: seq<PhysBlock>, list: seq<Mapping>, i: nat) {
    i < |blocks| && !f.Skips(blocks[i]) ==> exists m | m in list :: IsBlock(f, blocks, m, i)
  }

  /** The mappings are the blocks, as far as they are dumped. */
  ghost predicate Simple(f: Filter, blocks: seq<PhysBlock>, list: seq<Mapping>) {
    (forall m | m in list :: IsSomeBlock(f, blocks, m)) && forall i: nat :: BlockIn(f, blocks, list, i)
  }

  lemma WholeClipped(f: Filter, blocks: seq<PhysBlock>, identity: bool, i: nat)
    requires f.Part? && BlocksOk(blocks) && i < |blocks|
    ensures var clip := Clip(f, Whole(blocks[i], identity));
            && (clip.Some? <==> !f.Skips(blocks[i])) && (clip.Some? ==> IsBlock(f, blocks, clip.value, i))
  {
  }

  /** Without paging the mappings are the blocks, with or without a filter. */
  lemma SimpleFiltered(f: Filter, blocks: seq<PhysBlock>, identity: bool, list: seq<Mapping>)
    requires BlocksOk(blocks) && |list| == |blocks|
    requires forall i | 0 <= i < |blocks| :: list[i] == Whole(blocks[i], identity)
    ensures Simple(f, blocks, if f.Part? then Clips(f, list) else list)
  {
    if f.All? {
      forall i: nat | i < |blocks| ensures IsBlock(f, blocks, list[i], i) {
        assert list[i] == Whole(blocks[i], identity);
      }
      forall i: nat ensures BlockIn(f, blocks, list, i) {
        assert i < |blocks| ==> list[i] in list;
      }
    } else {
      ClipsFrom(f, list);
      forall m | m in Clips(f, list) ensures IsSomeBlock(f, blocks, m) {
        var i :| 0 <= i < |list| && Clip(f, list[i]) == Some(m);
        WholeClipped(f, blocks, identity, i);
      }
      forall i: nat ensures BlockIn(f, blocks, Clips(f, list), i) {
        if i < |blocks| {
          WholeClipped(f, blocks, identity, i);
        }
      }
    }
  }
}
