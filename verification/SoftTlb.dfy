/** The software TLB with its victim TLB, and large pages, of which only one region is remembered
    (cputlb.c, tlb_flush .. tlb_set_page). Masks are given by the number of low bits they clear. */
module SoftTlb {
  import opened Prelude

  const TARGET_PAGE_BITS := 12
  const CPU_TLB_SIZE := 256
  const CPU_VTLB_SIZE := 8
  /** target_ulong is 64 bits wide. */
  const WIDTH := 64
  const ADDRESSES := 0x1_0000_0000_0000_0000

  type address = x: int | 0 <= x < ADDRESSES

  /** x >> e, which tells what x & mask is for the mask that clears e bits. */
  function Shift(x: nat, e: nat): (y: nat)
    ensures y <= x
  {
    if e == 0 then x else Shift(x, e - 1) / 2
  }

  lemma {:induction false} ShiftTwice(x: nat, e: nat, f: nat)
    ensures Shift(x, e + f) == Shift(Shift(x, e), f)
  {
    if f > 0 {
      ShiftTwice(x, e, f - 1);
    }
  }

  function Pow2(e: nat): (p: nat)
    ensures p > 0
  {
    if e == 0 then 1 else 2 * Pow2(e - 1)
  }

  lemma {:induction false} ShiftBound(x: nat, e: nat, n: nat)
    requires x < Pow2(n) && e <= n
    ensures Shift(x, e) < Pow2(n - e)
  {
    if e > 0 {
      ShiftBound(x, e - 1, n);
    }
  }

  lemma ShiftAll(x: address)
    ensures Shift(x, WIDTH) == 0
  {
    assert Pow2(16) == 65536 by {
      assert Pow2(8) == 256;
    }
    PowSum(16, 16);
    PowSum(32, 32);
    ShiftBound(x, WIDTH, WIDTH);
  }

  lemma {:induction false} PowSum(a: nat, b: nat)
    ensures Pow2(a + b) == Pow2(a) * Pow2(b)
  {
    if b > 0 {
      PowSum(a, b - 1);
      assert Pow2(a + b) == 2 * (Pow2(a) * Pow2(b - 1)) == Pow2(a) * Pow2(b);
    }
  }

  /** Addresses that agree above bit e agree above higher bits. */
  lemma ShiftMore(x: nat, y: nat, e: nat, f: nat)
    requires e <= f && Shift(x, e) == Shift(y, e)
    ensures Shift(x, f) == Shift(y, f)
  {
    ShiftTwice(x, e, f - e);
    ShiftTwice(y, e, f - e);
  }

  /** One page of the guest, with the page number under which reads, writes and fetches hit; None is -1. */
  datatype Entry = Entry(read: Option<nat>, write: Option<nat>, code: Option<nat>) {

    predicate Matches(page: nat) {
      read == Some(page) || write == Some(page) || code == Some(page)
    }
  }

  const EMPTY := Entry(None, None, None)

  /** tlb_flush_entry. */
  function FlushEntry(e: Entry, page: nat): (r: Entry)
    ensures !r.Matches(page)
    ensures forall p: nat | r.Matches(p) :: e.Matches(p)
    ensures !e.Matches(page) ==> r == e
  {
    if e.Matches(page) then EMPTY else e
  }

  /** tlb_flush_addr, shifted, and tlb_flush_mask; None when tlb_flush_addr is -1. */
  datatype Region = NoRegion | Region(prefix: nat, bits: nat) {

    /** The test of tlb_flush_page. */
    predicate Covers(addr: nat) {
      Region? && Shift(addr, bits) == prefix
    }
  }

  /** A large page: the address given to tlb_set_page and the number of bits of its size. */
  datatype LargePage = LargePage(vaddr: address, bits: nat) {

    predicate Contains(addr: nat) {
      Shift(addr, bits) == Shift(vaddr, bits)
    }
  }

  /** The region after tlb_add_large_page covers the old region and the new page. */
  ghost predicate Extends(old_: Region, new_: Region, page: LargePage, addr: nat) {
    old_.Covers(addr) || page.Contains(addr) ==> new_.Covers(addr)
  }

  /** A region that clears e bits would not cover both. */
  ghost predicate Differ(region: Region, page: LargePage, e: nat)
    requires region.Region? && region.bits <= e
  {
    Shift(region.prefix, e - region.bits) != Shift(page.vaddr, e)
  }

  /** tlb_add_large_page: the smallest region that covers the old one and the page. */
  method AddLargePage(region: Region, page: LargePage) returns (r: Region)
    requires page.bits <= WIDTH
    requires region.Region? ==> region.bits <= WIDTH && exists x: address :: Shift(x, region.bits) == region.prefix
    ensures r.Region? && r.bits <= WIDTH && exists x: address :: Shift(x, r.bits) == r.prefix
    ensures forall addr: nat :: Extends(region, r, page, addr)
    ensures region.NoRegion? ==> r == Region(Shift(page.vaddr, page.bits), page.bits)
    ensures region.Region? ==> forall e: nat | region.bits <= e < r.bits && page.bits <= e :: Differ(region, page, e)
  {
    if region.NoRegion? {
      return Region(Shift(page.vaddr, page.bits), page.bits);
    }
    ghost var x: address :| Shift(x, region.bits) == region.prefix;
    var e := if region.bits < page.bits then page.bits else region.bits;
    ShiftTwice(x, region.bits, e - region.bits);
    while Shift(region.prefix, e - region.bits) != Shift(page.vaddr, e)
      invariant region.bits <= e <= WIDTH && page.bits <= e
      invariant Shift(x, e) == Shift(region.prefix, e - region.bits)
      invariant forall f: nat | region.bits <= f < e && page.bits <= f :: Differ(region, page, f)
      decreases WIDTH - e
    {
      if e == WIDTH {
        ShiftAll(x);
        ShiftAll(page.vaddr);
        assert false;
      }
      e := e + 1;
      ShiftTwice(x, region.bits, e - region.bits);
    }
    r := Region(Shift(page.vaddr, e), e);
    forall addr: nat ensures Extends(region, r, page, addr) {
      if page.Contains(addr) {
        ShiftMore(addr, page.vaddr, page.bits, e);
      }
      if region.Covers(addr) {
        ShiftMore(addr, x, region.bits, e);
      }
    }
  }

  class Tlb {
    /** By mode and index. */
    var main: seq<seq<Entry>>
    var victim: seq<seq<Entry>>
    var victimIndex: nat
    var region: Region

    /** The large pages entered since the last full flush. */
    ghost var large: set<LargePage>

    constructor (modes: nat)
      ensures Valid() && |main| == modes && region == NoRegion
    {
      main := seq(modes, _ => seq(CPU_TLB_SIZE, _ => EMPTY));
      victim := seq(modes, _ => seq(CPU_VTLB_SIZE, _ => EMPTY));
      victimIndex, region, large := 0, NoRegion, {};
    }

    ghost predicate Shape()
      reads `main, `victim
    {
      && |victim| == |main|
      && (forall m | 0 <= m < |main| :: |main[m]| == CPU_TLB_SIZE && |victim[m]| == CPU_VTLB_SIZE)
    }

    /** A page is only ever at its own index of the main table. */
    ghost predicate Placed(m: int, i: int, page: nat)
      reads `main
    {
      0 <= m < |main| && 0 <= i < |main[m]| && main[m][i].Matches(page) ==> page % CPU_TLB_SIZE == i
    }

    ghost predicate RegionOk()
      reads `region, `large
    {
      && (region.Region? ==> region.bits <= WIDTH && exists x: address :: Shift(x, region.bits) == region.prefix)
      && (forall page | page in large ::
          page.bits <= WIDTH && forall addr: nat | page.Contains(addr) :: region.Covers(addr))
    }

    ghost predicate Valid()
      reads this
    {
      && Shape() && RegionOk()
      && (forall m: int, i: int, page: nat :: Placed(m, i, page))
    }

    /** Some entry, in either table and in any mode, is for the page. */
    ghost predicate Has(page: nat)
      reads `main, `victim
    {
      || (exists m, i :: 0 <= m < |main| && 0 <= i < |main[m]| && main[m][i].Matches(page))
      || (exists m, k :: 0 <= m < |victim| && 0 <= k < |victim[m]| && victim[m][k].Matches(page))
    }

    /** tlb_flush. */
    method Flush()
      requires Valid()
      modifies this
      ensures Valid() && |main| == |old(main)| && region == NoRegion && large == {} && forall page: nat :: !Has(page)
    {
      main := seq(|main|, _ => seq(CPU_TLB_SIZE, _ => EMPTY));
      victim := seq(|main|, _ => seq(CPU_VTLB_SIZE, _ => EMPTY));
      victimIndex, region, large := 0, NoRegion, {};
    }

    /** tlb_flush_page: no entry for the page is left; none at all if the address lies in a large page. */
    method FlushPage(addr: address)
      requires Valid()
      modifies this
      ensures Valid() && |main| == |old(main)| && !Has(Shift(addr, TARGET_PAGE_BITS))
      ensures forall page: nat | Has(page) :: old(Has(page))
      ensures (exists l | l in old(large) :: l.Contains(addr)) ==> forall page: nat :: !Has(page)
      ensures !old(region).Covers(addr) ==>
                region == old(region) && large == old(large)
                && Spared(old(main), main, Shift(addr, TARGET_PAGE_BITS))
                   && Spared(old(victim), victim, Shift(addr, TARGET_PAGE_BITS))
    {
      if region.Covers(addr) {
        Flush();
        return;
      }
      var page := Shift(addr, TARGET_PAGE_BITS);
      var i := page % CPU_TLB_SIZE;
      forall m | 0 <= m < |main| ensures forall j | 0 <= j < |main[m]| && j != i :: !main[m][j].Matches(page) {
        forall j | 0 <= j < |main[m]| && j != i ensures !main[m][j].Matches(page) {
          assert Placed(m, j, page);
        }
      }
      main := FlushIndex(main, i, page);
      victim := FlushVictims(victim, page);
      forall m: int, j: int, p: nat ensures Placed(m, j, p) {
        assert old(Placed(m, j, p));
      }
    }

    /** tlb_set_page: the entry in the way goes to the victim TLB. */
    method SetPage(vaddr: address, read: bool, write: bool, exec: bool, mode: nat, bits: nat)
      requires Valid() && mode < |main| && TARGET_PAGE_BITS <= bits <= WIDTH
      modifies this
      ensures Valid() && |main| == |old(main)| && victimIndex == old(victimIndex) + 1
      ensures bits > TARGET_PAGE_BITS ==> large == old(large) + {LargePage(vaddr, bits)}
      ensures bits == TARGET_PAGE_BITS ==> large == old(large) && region == old(region)
      ensures var page := Shift(vaddr, TARGET_PAGE_BITS);
              var index, vidx := page % CPU_TLB_SIZE, old(victimIndex) % CPU_VTLB_SIZE;
              && main == Put(old(main), mode, index, NewEntry(page, read, write, exec))
              && victim == Put(old(victim), mode, vidx, old(main)[mode][index])
    {
      var vidx := victimIndex % CPU_VTLB_SIZE;
      victimIndex := victimIndex + 1;
      if bits != TARGET_PAGE_BITS {
        var l := LargePage(vaddr, bits);
        region := AddLargePage(region, l);
        large := large + {l};
        forall page, addr: nat | page in large && page.Contains(addr) ensures region.Covers(addr) {
          assert Extends(old(region), region, l, addr);
        }
      }
      var page := Shift(vaddr, TARGET_PAGE_BITS);
      var index := page % CPU_TLB_SIZE;
      victim := Put(victim, mode, vidx, main[mode][index]);
      main := Put(main, mode, index, NewEntry(page, read, write, exec));
      forall m: int, j: int, p: nat ensures Placed(m, j, p) {
        assert old(Placed(m, j, p));
      }
    }
  }

  /** Entries that are not for the page are kept. */
  ghost predicate Spared(t: seq<seq<Entry>>, t': seq<seq<Entry>>, page: nat) {
    |t'| == |t| && forall m, i | 0 <= m < |t| && 0 <= i < |t[m]| && !t[m][i].Matches(page) ::
      i < |t'[m]| && t'[m][i] == t[m][i]
  }

  function NewEntry(page: nat, read: bool, write: bool, exec: bool): Entry {
    Entry(if read then Some(page) else None, if write then Some(page) else None, if exec then Some(page) else None)
  }

  function Put(t: seq<seq<Entry>>, m: nat, i: nat, e: Entry): (r: seq<seq<Entry>>)
    requires m < |t| && i < |t[m]|
    ensures |r| == |t| && forall k | 0 <= k < |t| :: |r[k]| == |t[k]|
  {
    t[m := t[m][i := e]]
  }

  /** The loop of tlb_flush_page over the modes of the main table. */
  method FlushIndex(t: seq<seq<Entry>>, i: nat, page: nat) returns (r: seq<seq<Entry>>)
    requires forall m | 0 <= m < |t| :: i < |t[m]|
    ensures |r| == |t| && forall m | 0 <= m < |t| :: r[m] == t[m][i := FlushEntry(t[m][i], page)]
  {
    r := t;
    var m := 0;
    while m < |t|
      invariant 0 <= m <= |t| && |r| == |t|
      invariant forall k | 0 <= k < m :: r[k] == t[k][i := FlushEntry(t[k][i], page)]
      invariant forall k | m <= k < |t| :: r[k] == t[k]
    {
      r := Put(r, m, i, FlushEntry(r[m][i], page));
      m := m + 1;
    }
  }

  /** The loops of tlb_flush_page over the victim TLB. */
  method FlushVictims(t: seq<seq<Entry>>, page: nat) returns (r: seq<seq<Entry>>)
    ensures |r| == |t| && forall m | 0 <= m < |t| :: |r[m]| == |t[m]|
    ensures forall m, k | 0 <= m < |t| && 0 <= k < |t[m]| :: r[m][k] == FlushEntry(t[m][k], page)
  {
    r := t;
    var m := 0;
    while m < |t|
      invariant 0 <= m <= |t| && |r| == |t| && forall l | 0 <= l < |t| :: |r[l]| == |t[l]|
      invariant forall l, k | 0 <= l < m && 0 <= k < |t[l]| :: r[l][k] == FlushEntry(t[l][k], page)
      invariant forall l | m <= l < |t| :: r[l] == t[l]
    {
      var row := r[m];
      var k := 0;
      while k < |row|
        invariant 0 <= k <= |row| == |t[m]|
        invariant forall j | 0 <= j < k :: row[j] == FlushEntry(t[m][j], page)
        invariant forall j | k <= j < |row| :: row[j] == t[m][j]
      {
        row := row[k := FlushEntry(row[k], page)];
        k := k + 1;
      }
      r := r[m := row];
      m := m + 1;
    }
  }
}
