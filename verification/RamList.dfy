/** The list of RAM blocks: allocation of offsets, insertion, removal and lookup with a one-entry
    cache (exec.c, qemu_get_ram_block, find_ram_offset, ram_block_add, qemu_ram_free). */
module RamList {
  import opened Prelude

  /** ram_addr_t is 64 bits wide. */
  const ADDRESSES := 0x1_0000_0000_0000_0000
  const RAM_ADDR_MAX := 0xffff_ffff_ffff_ffff

  type ram_addr = x: int | 0 <= x < ADDRESSES

  /** Subtraction of ram_addr_t, which wraps around. */
  function Sub(x: ram_addr, y: ram_addr): (d: ram_addr) {
    if x >= y then x - y else x - y + ADDRESSES
  }

  datatype RamBlock = RamBlock(offset: ram_addr, maxLength: ram_addr) {

    ghost predicate Ok() {
      maxLength > 0 && offset + maxLength <= RAM_ADDR_MAX
    }

    function End(): int {
      offset + maxLength
    }

    ghost predicate Contains(addr: int) {
      offset <= addr < End()
    }

    /** The test of qemu_get_ram_block. */
    predicate Hit(addr: ram_addr) {
      Sub(addr, offset) < maxLength
    }
  }

  /** The wrapping subtraction finds just the addresses of the block. */
  lemma HitIsContains(b: RamBlock, addr: ram_addr)
    requires b.Ok()
    ensures b.Hit(addr) <==> b.Contains(addr)
  {
  }

  ghost predicate Apart(x: RamBlock, y: RamBlock) {
    x.End() <= y.offset || y.End() <= x.offset
  }

  ghost predicate Disjoint(blocks: seq<RamBlock>) {
    && (forall i | 0 <= i < |blocks| :: blocks[i].Ok())
    && (forall i, j | 0 <= i < j < |blocks| :: Apart(blocks[i], blocks[j]))
  }

  /** From biggest to smallest. */
  ghost predicate Decreasing(blocks: seq<RamBlock>) {
    forall i, j | 0 <= i < j < |blocks| :: blocks[i].maxLength >= blocks[j].maxLength
  }

  /** The gap from end up to next holds no block, and next is where one begins or the last address. */
  ghost predicate IsNext(blocks: seq<RamBlock>, end: int, next: int) {
    && end <= next <= RAM_ADDR_MAX
    && (forall i | 0 <= i < |blocks| && blocks[i].offset >= end :: next <= blocks[i].offset)
    && (next < RAM_ADDR_MAX ==> exists i :: 0 <= i < |blocks| && blocks[i].offset == next)
  }

  /** The inner loop of find_ram_offset. */
  method NextOffset(blocks: seq<RamBlock>, end: ram_addr) returns (next: ram_addr)
    ensures IsNext(blocks, end, next)
  {
    next := RAM_ADDR_MAX;
    var k := 0;
    while k < |blocks|
      invariant 0 <= k <= |blocks| && end <= next
      invariant forall i | 0 <= i < k && blocks[i].offset >= end :: next <= blocks[i].offset
      invariant next < RAM_ADDR_MAX ==> exists i :: 0 <= i < k && blocks[i].offset == next
    {
      if blocks[k].offset >= end && blocks[k].offset < next {
        next := blocks[k].offset;
      }
      k := k + 1;
    }
  }

  /** A gap of size gap follows block i, and size bytes fit into it. */
  ghost predicate Follows(blocks: seq<RamBlock>, i: int, size: int, gap: int) {
    0 <= i < |blocks| && gap >= size && IsNext(blocks, blocks[i].End(), blocks[i].End() + gap)
  }

  /** o is the start of the smallest sufficient gap that follows a block. */
  ghost predicate BestFit(blocks: seq<RamBlock>, size: int, o: int) {
    exists i, gap :: Follows(blocks, i, size, gap) && blocks[i].End() == o && Smallest(blocks, size, gap)
  }

  ghost predicate Smallest(blocks: seq<RamBlock>, size: int, gap: int) {
    forall i, g | Follows(blocks, i, size, g) :: gap <= g
  }

  /** find_ram_offset: the start of the smallest sufficient gap that follows a block; None where the
      source aborts. */
  method FindRamOffset(blocks: seq<RamBlock>, size: ram_addr) returns (r: Option<ram_addr>)
    requires Disjoint(blocks) && size > 0
    ensures blocks == [] ==> r == Some(0)
    ensures blocks != [] && r.Some? ==> BestFit(blocks, size, r.value)
    ensures r.None? <==> blocks != [] && forall i, g :: !Follows(blocks, i, size, g)
  {
    if blocks == [] {
      return Some(0);
    }
    var offset: ram_addr, mingap: ram_addr := RAM_ADDR_MAX, RAM_ADDR_MAX;
    var k := 0;
    while k < |blocks|
      invariant 0 <= k <= |blocks|
      invariant offset == RAM_ADDR_MAX ==> mingap == RAM_ADDR_MAX && forall i, g | i < k :: !Follows(blocks, i, size, g)
      invariant offset < RAM_ADDR_MAX ==>
                  exists i :: i < k && Follows(blocks, i, size, mingap) && blocks[i].End() == offset
      invariant offset < RAM_ADDR_MAX ==> forall i, g | i < k && Follows(blocks, i, size, g) :: mingap <= g
    {
      var end := blocks[k].End();
      var next := NextOffset(blocks, end);
      forall g | Follows(blocks, k, size, g) ensures g == next - end {
        OneNext(blocks, end, next, end + g);
      }
      if Sub(next, end) >= size && Sub(next, end) < mingap {
        assert Follows(blocks, k, size, next - end);
        offset := end;
        mingap := Sub(next, end);
      }
      k := k + 1;
    }
    assert offset < RAM_ADDR_MAX ==> Smallest(blocks, size, mingap);
    r := if offset == RAM_ADDR_MAX then None else Some(offset);
  }

  lemma OneNext(blocks: seq<RamBlock>, end: int, n: int, m: int)
    requires IsNext(blocks, end, n) && IsNext(blocks, end, m)
    ensures n == m
  {
  }

  /** A block put at the start of a sufficient gap touches no other. */
  lemma FitsGap(blocks: seq<RamBlock>, i: int, size: int, gap: int, j: int)
    requires Disjoint(blocks) && Follows(blocks, i, size, gap) && 0 <= j < |blocks| && size > 0
    ensures blocks[j].End() <= blocks[i].End() || blocks[i].End() + size <= blocks[j].offset
    ensures blocks[i].End() + size <= RAM_ADDR_MAX
  {
    if i < j {
      assert Apart(blocks[i], blocks[j]);
    }
  }

  /** So does a block at the best offset. */
  lemma FitsBest(blocks: seq<RamBlock>, b: RamBlock)
    requires Disjoint(blocks) && b.maxLength > 0 && BestFit(blocks, b.maxLength, b.offset)
    ensures b.Ok() && forall j | 0 <= j < |blocks| :: Apart(blocks[j], b)
  {
    var i, gap :| Follows(blocks, i, b.maxLength, gap) && blocks[i].End() == b.offset
      && Smallest(blocks, b.maxLength, gap);
    FitsGap(blocks, i, b.maxLength, gap, i);
    forall j | 0 <= j < |blocks| ensures Apart(blocks[j], b) {
      FitsGap(blocks, i, b.maxLength, gap, j);
    }
  }

  class List {
    var blocks: seq<RamBlock>
    var mru: Option<RamBlock>
    var version: nat

    constructor ()
      ensures Valid() && blocks == []
    {
      blocks, mru, version := [], None, 0;
    }

    ghost predicate Valid()
      reads this
    {
      && Disjoint(blocks) && Decreasing(blocks)
      && (mru.Some? ==> mru.value in blocks)
    }

    /** ram_block_add; None when no gap is left or, as host says, no memory. */
    method Add(maxLength: ram_addr, host: bool) returns (r: Option<RamBlock>)
      requires Valid() && maxLength > 0
      modifies this
      ensures Valid()
      ensures r.None? <==> !host || (old(blocks) != [] && forall i, g :: !Follows(old(blocks), i, maxLength, g))
      ensures r.None? ==> blocks == old(blocks)
      ensures r.Some? ==> if old(blocks) == [] then r.value.offset == 0
              else BestFit(old(blocks), maxLength, r.value.offset)
      ensures r.Some? ==>
                r.value.maxLength == maxLength
                && multiset(blocks) == multiset(old(blocks)) + multiset{r.value} && version == old(version) + 1
    {
      var offset := FindRamOffset(blocks, maxLength);
      if offset.None? || !host {
        return None;
      }
      var new_ := RamBlock(offset.value, maxLength);
      var k := 0;
      while k < |blocks| && blocks[k].maxLength >= maxLength
        invariant 0 <= k <= |blocks|
        invariant forall i | 0 <= i < k :: blocks[i].maxLength >= maxLength
      {
        k := k + 1;
      }
      if blocks != [] {
        FitsBest(blocks, new_);
      }
      Inserted(blocks, k, new_);
      blocks := blocks[..k] + [new_] + blocks[k..];
      mru := None;
      version := version + 1;
      r := Some(new_);
    }

    /** qemu_ram_free. */
    method Free(addr: ram_addr)
      requires Valid()
      modifies this
      ensures Valid()
      ensures (forall b | b in old(blocks) :: b.offset != addr) ==> blocks == old(blocks)
      ensures forall b | b in old(blocks) && b.offset == addr ::
                multiset(blocks) == multiset(old(blocks)) - multiset{b} && version == old(version) + 1
    {
      var k := 0;
      while k < |blocks| && blocks[k].offset != addr
        invariant 0 <= k <= |blocks|
        invariant forall i | 0 <= i < k :: blocks[i].offset != addr
      {
        k := k + 1;
      }
      if k < |blocks| {
        OneAt(blocks, k);
        Removed(blocks, k);
        blocks := blocks[..k] + blocks[k + 1..];
        mru := None;
        version := version + 1;
      }
    }

    /** qemu_get_ram_block: with or without the cached block the answer is the one block that holds
        the address; None where the source aborts. */
    method Get(addr: ram_addr) returns (r: Option<RamBlock>)
      requires Valid()
      modifies `mru
      ensures Valid()
      ensures r.Some? ==>
                r.value in blocks && r.value.Contains(addr)
                && forall b | b in blocks && b.Contains(addr) :: b == r.value
      ensures r.None? ==> forall b | b in blocks :: !b.Contains(addr)
    {
      if mru.Some? && mru.value.Hit(addr) {
        ghost var i :| 0 <= i < |blocks| && blocks[i] == mru.value;
        HolderIsOne(blocks, i, addr);
        return mru;
      }
      var k := 0;
      while k < |blocks|
        invariant 0 <= k <= |blocks|
        invariant forall i | 0 <= i < k :: !blocks[i].Contains(addr)
      {
        if blocks[k].Hit(addr) {
          HolderIsOne(blocks, k, addr);
          mru := Some(blocks[k]);
          return mru;
        }
        k := k + 1;
      }
      r := None;
    }
  }

  lemma Parted(blocks: seq<RamBlock>, i: nat, j: nat)
    requires Disjoint(blocks) && i < |blocks| && j < |blocks|
    ensures i == j || Apart(blocks[i], blocks[j])
  {
    if j < i {
      assert Apart(blocks[j], blocks[i]);
    }
  }

  lemma HolderIsOne(blocks: seq<RamBlock>, i: nat, addr: ram_addr)
    requires Disjoint(blocks) && i < |blocks| && blocks[i].Hit(addr)
    ensures blocks[i].Contains(addr) && forall b | b in blocks && b.Contains(addr) :: b == blocks[i]
  {
    HitIsContains(blocks[i], addr);
    forall b | b in blocks && b.Contains(addr) ensures b == blocks[i] {
      var j :| 0 <= j < |blocks| && blocks[j] == b;
      Parted(blocks, i, j);
    }
  }

  lemma OneAt(blocks: seq<RamBlock>, k: nat)
    requires Disjoint(blocks) && k < |blocks|
    ensures forall b | b in blocks && b.offset == blocks[k].offset :: b == blocks[k]
  {
    assert blocks[k].Hit(blocks[k].offset);
    HolderIsOne(blocks, k, blocks[k].offset);
    forall b | b in blocks && b.offset == blocks[k].offset ensures b == blocks[k] {
      assert b.Contains(blocks[k].offset);
    }
  }

  ghost function Insert(blocks: seq<RamBlock>, k: nat, b: RamBlock): seq<RamBlock>
    requires k <= |blocks|
  {
    blocks[..k] + [b] + blocks[k..]
  }

  /** Inserting in front of the first smaller block keeps the order, and the blocks apart. */
  lemma Inserted(blocks: seq<RamBlock>, k: nat, b: RamBlock)
    requires Disjoint(blocks) && Decreasing(blocks) && k <= |blocks| && b.Ok()
    requires forall j | 0 <= j < |blocks| :: Apart(blocks[j], b)
    requires forall i | 0 <= i < k :: blocks[i].maxLength >= b.maxLength
    requires k < |blocks| ==> blocks[k].maxLength < b.maxLength
    ensures Disjoint(Insert(blocks, k, b)) && Decreasing(Insert(blocks, k, b))
    ensures multiset(Insert(blocks, k, b)) == multiset(blocks) + multiset{b}
  {
    InsertedApart(blocks, k, b);
    InsertedOrder(blocks, k, b);
    InsertedCount(blocks, k, b);
  }

  lemma InsertedCount(blocks: seq<RamBlock>, k: nat, b: RamBlock)
    requires k <= |blocks|
    ensures multiset(Insert(blocks, k, b)) == multiset(blocks) + multiset{b}
  {
    assert blocks == blocks[..k] + blocks[k..];
  }

  lemma InsertedApart(blocks: seq<RamBlock>, k: nat, b: RamBlock)
    requires Disjoint(blocks) && k <= |blocks| && b.Ok() && forall j | 0 <= j < |blocks| :: Apart(blocks[j], b)
    ensures Disjoint(Insert(blocks, k, b))
  {
    var l := Insert(blocks, k, b);
    forall i, j | 0 <= i < j < |l| ensures Apart(l[i], l[j]) {
      if i == k {
        assert l[j] == blocks[j - 1];
      } else if j == k {
        assert l[i] == blocks[i];
      } else {
        assert Apart(blocks[if i < k then i else i - 1], blocks[if j < k then j else j - 1]);
      }
    }
  }

  lemma InsertedOrder(blocks: seq<RamBlock>, k: nat, b: RamBlock)
    requires Decreasing(blocks) && k <= |blocks| && forall i | 0 <= i < k :: blocks[i].maxLength >= b.maxLength
    requires k < |blocks| ==> blocks[k].maxLength < b.maxLength
    ensures Decreasing(Insert(blocks, k, b))
  {
    var l := Insert(blocks, k, b);
    forall i, j | 0 <= i < j < |l| ensures l[i].maxLength >= l[j].maxLength {
      if i == k {
        assert l[j] == blocks[j - 1];
      } else if j == k {
        assert l[i] == blocks[i];
      } else {
        assert l[i] == blocks[if i < k then i else i - 1] && l[j] == blocks[if j < k then j else j - 1];
      }
    }
  }

  lemma Removed(blocks: seq<RamBlock>, k: nat)
    requires Disjoint(blocks) && Decreasing(blocks) && k < |blocks|
    ensures var l := blocks[..k] + blocks[k + 1..];
            Disjoint(l) && Decreasing(l) && multiset(l) == multiset(blocks) - multiset{blocks[k]}
  {
    var l := blocks[..k] + blocks[k + 1..];
    RemovedCount(blocks, k);
    assert forall i | 0 <= i < |l| :: l[i] == if i < k then blocks[i] else blocks[i + 1];
  }

  lemma RemovedCount(blocks: seq<RamBlock>, k: nat)
    requires k < |blocks|
    ensures multiset(blocks[..k] + blocks[k + 1..]) == multiset(blocks) - multiset{blocks[k]}
  {
    assert blocks == blocks[..k] + [blocks[k]] + blocks[k + 1..];
  }
}
