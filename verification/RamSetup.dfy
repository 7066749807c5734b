/** The list of RAM blocks at the start of a migration: the MEM_SIZE record (arch_init.c, the end of ram_save_setup
    and the first case of ram_load; exec.c, qemu_ram_resize). */
module RamSetup {
  import opened Prelude
  import opened ByteOrder
  import opened RamWire
  import opened RamLoader
  import opened RamSearch
  import opened RamSync

  const FLAG_MEM_SIZE := 0x04
  const ADDRESSES := 0x1_0000_0000_0000_0000

  /** A RAM block of the destination, and how many of its pages are in use. */
  datatype Resident = Resident(target: Target, used: nat, resizeable: bool)

  /** qemu_ram_resize, if the length is another one. */
  function Resized(r: Resident, length: nat): Option<Resident> {
    var pages := (length + PAGE_SIZE - 1) / PAGE_SIZE;
    if length == r.used * PAGE_SIZE || pages == r.used then Some(r)
    else if !r.resizeable || r.target.max < pages then None
    else Some(r.(used := pages))
  }

  /** The first block of that name. */
  function FindId(rs: seq<Resident>, id: Bytes, k: nat): (r: Option<nat>)
    requires k <= |rs|
    ensures r.Some? ==> k <= r.value < |rs| && rs[r.value].target.id == id
    ensures r.None? ==> forall d | k <= d < |rs| :: rs[d].target.id != id
    decreases |rs| - k
  {
    if k == |rs| then None else if rs[k].target.id == id then Some(k) else FindId(rs, id, k + 1)
  }

  /** A name and a length, and how many bytes they take. */
  function ParseEntry(b: Bytes): (r: Option<(Bytes, nat, nat)>)
    ensures r.Some? ==> 0 < r.value.2 <= |b|
  {
    if |b| == 0 || 9 + b[0] as int > |b| then None else
    var n: nat := 1 + b[0] as int;
    Some((b[1..n], FromBe(b[n..n + 8]), n + 8))
  }

  /** One turn of the loop: the block of the name gets the length; None is an error. */
  function Adopt(rs: seq<Resident>, id: Bytes, length: nat): (r: Option<seq<Resident>>)
    ensures r.Some? ==> |r.value| == |rs|
  {
    var k := FindId(rs, id, 0);
    if k.None? then None else
    var r := Resized(rs[k.value], length);
    if r.None? then None else Some(rs[k.value := r.value])
  }

  /** What the case of ram_load does with a stream: the blocks afterwards, and the rest of the stream. */
  function SyncBlocks(rs: seq<Resident>, b: Bytes, total: nat): Option<(seq<Resident>, Bytes)>
    decreases |b|
  {
    if total == 0 then Some((rs, b)) else
    var e := ParseEntry(b);
    if e.None? then None else
    var rs' := Adopt(rs, e.value.0, e.value.1);
    if rs'.None? then None else SyncBlocks(rs'.value, b[e.value.2..], Left(total, e.value.1))
  }

  /** total_ram_bytes -= length, which wraps around. */
  function Left(total: nat, length: nat): nat {
    if length <= total then total - length else (total - length) % ADDRESSES
  }

  /** The loop of ram_load over the blocks, on any stream. */
  method LoadMemSize(rs: seq<Resident>, stream: Bytes, totalRamBytes: nat)
    returns (ok: bool, rs': seq<Resident>, rest: Bytes)
    ensures ok == SyncBlocks(rs, stream, totalRamBytes).Some?
    ensures ok ==> SyncBlocks(rs, stream, totalRamBytes).value == (rs', rest)
  {
    var total := totalRamBytes;
    ok, rs', rest := true, rs, stream;
    while ok && total != 0
      invariant ok ==> SyncBlocks(rs, stream, totalRamBytes) == SyncBlocks(rs', rest, total)
      invariant !ok ==> SyncBlocks(rs, stream, totalRamBytes).None?
      decreases ok, |rest|
    {
      var e := ParseEntry(rest);
      if e.None? {
        ok := false;
      } else {
        var next := Adopt(rs', e.value.0, e.value.1);
        if next.None? {
          ok := false;
        } else {
          rs', rest, total := next.value, rest[e.value.2..], Left(total, e.value.1);
        }
      }
    }
  }

  function PrintEntry(b: Block): (r: Bytes)
    requires |b.id| < 256
    ensures |r| == 9 + |b.id|
  {
    [|b.id|] + b.id + Be(b.used * PAGE_SIZE, 8)
  }

  ghost predicate Printable(blocks: seq<Block>) {
    (forall b | b in blocks :: |b.id| < 256) && Total(blocks) * PAGE_SIZE < ADDRESSES
  }

  /** What ram_save_setup puts after the MEM_SIZE word. */
  function PrintEntries(blocks: seq<Block>): Bytes
    requires forall b | b in blocks :: |b.id| < 256
  {
    if blocks == [] then [] else PrintEntry(blocks[0]) + PrintEntries(blocks[1..])
  }

  lemma EntryRead(b: Block, rest: Bytes)
    requires |b.id| < 256 && b.used * PAGE_SIZE < ADDRESSES
    ensures ParseEntry(PrintEntry(b) + rest) == Some((b.id, b.used * PAGE_SIZE, 9 + |b.id|))
    ensures (PrintEntry(b) + rest)[9 + |b.id|..] == rest
  {
    var p, n := PrintEntry(b) + rest, 1 + |b.id|;
    assert p[0] == |b.id| && p[1..n] == b.id && p[n..n + 8] == Be(b.used * PAGE_SIZE, 8);
    assert Pow256(2) == 0x1_0000;
    assert Pow256(4) == 0x1_0000 * Pow256(2);
    assert Pow256(6) == 0x1_0000 * Pow256(4);
    assert Pow256(8) == 0x1_0000 * Pow256(6);
    BeRoundTrip(b.used * PAGE_SIZE, 8);
  }

  /** What the entries of the blocks ask for. */
  ghost function AdoptAll(rs: seq<Resident>, blocks: seq<Block>): Option<seq<Resident>>
    decreases |blocks|
  {
    if blocks == [] then Some(rs) else
    var rs' := Adopt(rs, blocks[0].id, blocks[0].used * PAGE_SIZE);
    if rs'.None? then None else AdoptAll(rs'.value, blocks[1..])
  }

  lemma {:induction false} TotalFirst(blocks: seq<Block>)
    requires blocks != []
    ensures Total(blocks) == blocks[0].used + Total(blocks[1..])
  {
    var n := |blocks| - 1;
    if n > 0 {
      TotalFirst(blocks[..n]);
      assert blocks[1..][..n - 1] == blocks[..n][1..];
    }
  }

  /** How many entries the receiver reads: up to the last block that is not empty, as it reads until it has all of
      the bytes. */
  ghost function Filled(blocks: seq<Block>): (n: nat)
    ensures n <= |blocks|
  {
    if blocks == [] then 0 else
    var n := Filled(blocks[1..]);
    if n > 0 then n + 1 else if blocks[0].used > 0 then 1 else 0
  }

  lemma {:induction false} FilledTotal(blocks: seq<Block>)
    ensures Filled(blocks) == 0 <==> Total(blocks) == 0
  {
    if blocks != [] {
      TotalFirst(blocks);
      FilledTotal(blocks[1..]);
    }
  }

  lemma SyncOne(rs: seq<Resident>, b: Block, more: Bytes, pages: nat)
    requires |b.id| < 256 && 0 < (b.used + pages) * PAGE_SIZE < ADDRESSES
    ensures SyncBlocks(rs, PrintEntry(b) + more, (b.used + pages) * PAGE_SIZE)
         == match Adopt(rs, b.id, b.used * PAGE_SIZE)
            case None => None
            case Some(rs') => SyncBlocks(rs', more, pages * PAGE_SIZE)
  {
    EntryRead(b, more);
    assert Left((b.used + pages) * PAGE_SIZE, b.used * PAGE_SIZE) == pages * PAGE_SIZE;
  }

  /** What comes of it: the blocks as adopted, and the rest of the stream. */
  ghost function Outcome(adopted: Option<seq<Resident>>, rest: Bytes): Option<(seq<Resident>, Bytes)> {
    match adopted
    case None => None
    case Some(rs) => Some((rs, rest))
  }

  lemma SyncFirst(rs: seq<Resident>, b: Block, more: Bytes, pages: nat, rest: Bytes, bs: seq<Block>)
    requires |b.id| < 256 && 0 < (b.used + pages) * PAGE_SIZE < ADDRESSES
    requires var rs' := Adopt(rs, b.id, b.used * PAGE_SIZE);
             rs'.Some? ==> SyncBlocks(rs'.value, more, pages * PAGE_SIZE) == Outcome(AdoptAll(rs'.value, bs), rest)
    ensures SyncBlocks(rs, PrintEntry(b) + more, (b.used + pages) * PAGE_SIZE)
         == Outcome(AdoptAll(rs, [b] + bs), rest)
  {
    SyncOne(rs, b, more, pages);
    assert ([b] + bs)[1..] == bs;
  }

  /** The receiver does with the printed entries what they ask for, up to the last block that is not empty. */
  lemma {:induction false} SyncPrinted(rs: seq<Resident>, blocks: seq<Block>, rest: Bytes)
    requires Printable(blocks)
    ensures var n := Filled(blocks);
            SyncBlocks(rs, PrintEntries(blocks) + rest, Total(blocks) * PAGE_SIZE)
            == Outcome(AdoptAll(rs, blocks[..n]), PrintEntries(blocks[n..]) + rest)
    decreases |blocks|
  {
    FilledTotal(blocks);
    var n := Filled(blocks);
    if n == 0 {
      assert blocks[0..] == blocks && blocks[..0] == [];
    } else {
      var b, tail := blocks[0], blocks[1..];
      TotalFirst(blocks);
      assert Filled(tail) == n - 1;
      var more, after := PrintEntries(tail) + rest, PrintEntries(tail[n - 1..]) + rest;
      var rs' := Adopt(rs, b.id, b.used * PAGE_SIZE);
      if rs'.Some? {
        SyncPrinted(rs'.value, tail, rest);
      }
      SyncFirst(rs, b, more, Total(tail), after, tail[..n - 1]);
      assert PrintEntries(blocks) + rest == PrintEntry(b) + more;
      assert blocks[..n] == [b] + tail[..n - 1] && blocks[n..] == tail[n - 1..];
    }
  }

  ghost predicate SameTargets(rs: seq<Resident>, rs': seq<Resident>) {
    |rs'| == |rs| && forall k | 0 <= k < |rs| :: rs'[k].target == rs[k].target
  }

  lemma {:induction false} FindSame(rs: seq<Resident>, rs': seq<Resident>, id: Bytes, k: nat)
    requires SameTargets(rs, rs') && k <= |rs|
    ensures FindId(rs', id, k) == FindId(rs, id, k)
    decreases |rs| - k
  {
    if k < |rs| {
      FindSame(rs, rs', id, k + 1);
    }
  }

  /** The destination has the block, and it has the length or can get it. */
  ghost predicate Takes(rs: seq<Resident>, b: Block) {
    var k := FindId(rs, b.id, 0);
    && k.Some?
    && var r := rs[k.value]; r.used == b.used || (r.resizeable && r.target.max >= b.used)
  }

  /** The block of the name has the length. */
  ghost predicate Has(rs: seq<Resident>, b: Block) {
    var k := FindId(rs, b.id, 0);
    k.Some? && rs[k.value].used == b.used
  }

  lemma PagesBack(n: nat)
    ensures (n * PAGE_SIZE + PAGE_SIZE - 1) / PAGE_SIZE == n
  {
  }

  lemma AdoptOne(rs: seq<Resident>, b: Block)
    ensures var rs' := Adopt(rs, b.id, b.used * PAGE_SIZE);
            && (rs'.Some? <==> Takes(rs, b))
            && (rs'.Some? ==> SameTargets(rs, rs'.value) && Has(rs'.value, b))
  {
    PagesBack(b.used);
    var rs' := Adopt(rs, b.id, b.used * PAGE_SIZE);
    if rs'.Some? {
      FindSame(rs, rs'.value, b.id, 0);
    }
  }

  lemma AdoptOther(rs: seq<Resident>, b: Block, c: Block)
    requires Adopt(rs, b.id, b.used * PAGE_SIZE).Some? && c.id != b.id
    ensures var rs' := Adopt(rs, b.id, b.used * PAGE_SIZE).value;
            && (Takes(rs', c) <==> Takes(rs, c)) && (Has(rs', c) <==> Has(rs, c))
  {
    AdoptOne(rs, b);
    FindSame(rs, Adopt(rs, b.id, b.used * PAGE_SIZE).value, c.id, 0);
  }

  ghost predicate NamesDiffer(blocks: seq<Block>) {
    forall i, j | 0 <= i < j < |blocks| :: blocks[i].id != blocks[j].id
  }

  /** The entries are taken if and only if the destination has all of the blocks, each with its length or resizeable
      to it; and then they have these lengths. */
  lemma {:induction false} AdoptedAll(rs: seq<Resident>, blocks: seq<Block>)
    requires NamesDiffer(blocks)
    ensures AdoptAll(rs, blocks).Some? <==> forall b | b in blocks :: Takes(rs, b)
    ensures AdoptAll(rs, blocks).Some? ==>
              && SameTargets(rs, AdoptAll(rs, blocks).value)
              && forall b | b in blocks :: Has(AdoptAll(rs, blocks).value, b)
    decreases |blocks|
  {
    if blocks != [] {
      var b, tail := blocks[0], blocks[1..];
      AdoptOne(rs, b);
      var rs' := Adopt(rs, b.id, b.used * PAGE_SIZE);
      if rs'.Some? {
        AdoptedAll(rs'.value, tail);
        forall c | c in tail ensures Takes(rs'.value, c) <==> Takes(rs, c) {
          AdoptOther(rs, b, c);
        }
        Untouched(rs'.value, tail, b);
      }
      assert forall c :: c in blocks <==> c == b || c in tail;
    }
  }

  /** Entries of other names leave the block alone. */
  lemma {:induction false} Untouched(rs: seq<Resident>, blocks: seq<Block>, b: Block)
    requires forall c | c in blocks :: c.id != b.id
    ensures AdoptAll(rs, blocks).Some? ==> (Has(AdoptAll(rs, blocks).value, b) <==> Has(rs, b))
    decreases |blocks|
  {
    if blocks != [] {
      assert blocks[0] in blocks;
      var rs' := Adopt(rs, blocks[0].id, blocks[0].used * PAGE_SIZE);
      if rs'.Some? {
        AdoptOther(rs, blocks[0], b);
        Untouched(rs'.value, blocks[1..], b);
      }
    }
  }

  ghost function Targets(rs: seq<Resident>): seq<Target> {
    seq(|rs|, k requires 0 <= k < |rs| => rs[k].target)
  }

  /** Where the blocks of a layout are at the destination. */
  ghost function DestOf(rs: seq<Resident>, blocks: seq<Block>): seq<nat> {
    seq(|blocks|, i requires 0 <= i < |blocks| => Home(rs, blocks[i].id))
  }

  function Home(rs: seq<Resident>, id: Bytes): nat {
    match FindId(rs, id, 0)
    case None => 0
    case Some(k) => k
  }

  /** If the last block of a layout is not empty, the receiver takes the MEM_SIZE record and reads all of it if and
      only if it has all of the blocks, each with its length or resizeable to it; and then the pages of the layout
      have room at the destination. */
  lemma MemSizeTaken(layout: Layout, rs: seq<Resident>, rest: Bytes)
    requires layout.Ok() && Printable(layout.blocks) && Filled(layout.blocks) == |layout.blocks|
    requires forall d: nat, e: nat :: Distinct(Targets(rs), d, e)
    requires forall r | r in rs :: r.used <= r.target.max
    ensures var taken := SyncBlocks(rs, PrintEntries(layout.blocks) + rest, Total(layout.blocks) * PAGE_SIZE);
            && (taken.Some? <==> forall b | b in layout.blocks :: Takes(rs, b))
            && (taken.Some? ==> taken.value.1 == rest && Targets(taken.value.0) == Targets(rs)
                                && Hosts(layout, DestOf(rs, layout.blocks), Targets(rs)))
  {
    var blocks := layout.blocks;
    forall i, j | 0 <= i < j < |blocks| ensures blocks[i].id != blocks[j].id {
      assert layout.ApartAt(i, j);
    }
    SyncPrinted(rs, blocks, rest);
    assert blocks[..|blocks|] == blocks && blocks[|blocks|..] == [] && [] + rest == rest;
    AdoptedAll(rs, blocks);
    if forall b | b in blocks :: Takes(rs, b) {
      var dest := DestOf(rs, blocks);
      forall i | 0 <= i < |dest|
        ensures dest[i] < |rs| && Targets(rs)[dest[i]].id == blocks[i].id && Targets(rs)[dest[i]].max >= blocks[i].used
      {
        assert Takes(rs, blocks[i]) && rs[dest[i]] in rs;
      }
    }
  }
}
