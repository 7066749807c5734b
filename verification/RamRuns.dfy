/** Whole runs of a RAM migration. */
module RamRuns {
  import opened Prelude
  import opened RamWire
  import opened RamLoader
  import opened RamBitmap
  import opened RamSearch
  import opened RamSync
  import opened RamMigration

  datatype Event =
    | GuestRuns(writes: seq<Write>)
    | Iterates(budget: nat)
    | Syncs
    | Receives
    | ResizesCache(slots: nat)

  ghost predicate EventsOk(used: set<nat>, events: seq<Event>) {
    forall e | e in events :: (e.GuestRuns? ==> WritesOk(used, e.writes)) && (e.ResizesCache? ==> e.slots > 0)
  }

  /** One event of the precopy phase. */
  method Happen(m: Migration, e: Event)
    requires m.Valid() && !m.completing && EventsOk(m.used, [e])
    modifies m
    ensures m.Valid() && !m.completing && m.strays >= old(m.strays)
  {
    assert e in [e];
    match e {
      case GuestRuns(ws) =>
        m.GuestRuns(ws);
      case Iterates(budget) =>
        var _ := m.Iterate(budget);
      case Syncs =>
        m.Sync();
      case Receives =>
        if m.wire != [] {
          m.Receive();
        }
      case ResizesCache(slots) =>
        m.ResizeCache(slots);
    }
  }

  /** The receiver loads all that is on the wire. */
  method ReceiveAll(m: Migration)
    requires m.Valid()
    modifies m`wire, m`inflight, m`loader
    ensures m.Valid() && m.wire == [] && m.loader == m.final
  {
    while m.wire != []
      invariant m.Valid()
      decreases |m.inflight|
    {
      m.Receive();
    }
    NothingCarried(m.wire, m.inflight, m.loader, m.final);
  }

  /** The migration completes, and everything is loaded. */
  method Finish(m: Migration)
    requires m.Valid() && !m.completing
    modifies m
    ensures m.Valid() && m.completing && m.wire == [] && m.loader == m.final && m.guest.src == old(m.guest).src
    ensures m.strays == old(m.strays) + if old(m.Doomed()) then 1 else 0
    ensures old(m.Doomed()) ==>
              var b, i := old(m.lastSeen).value, old(m.lastOffset);
              m.layout.IsPage(b, i) && m.lost == old(m.lost)[m.layout.Number(b, i) := old(m.Both(b, i))]
    ensures forall b: nat, i: nat :: Same(m.layout, m.dest, m.loader.ram, m.guest.src, m.lost, b, i)
  {
    m.Complete();
    ReceiveAll(m);
  }

  /** A migration: whatever happens before it completes, in the end the destination has a page as the guest
      left it if and only if it is not one that a search dropped when it was not. At most one page has been
      dropped and not been sent since, and none unless a search began in the losing state. */
  method Migrate(m: Migration, events: seq<Event>)
    requires m.Valid() && !m.completing && EventsOk(m.used, events)
    modifies m
    ensures m.wire == [] && m.loader == m.final && m.completing
    ensures forall b: nat, i: nat :: Same(m.layout, m.dest, m.loader.ram, m.guest.src, m.lost, b, i)
    ensures |m.lost| <= m.strays <= 1 && m.strays >= old(m.strays)
  {
    var k := 0;
    while k < |events|
      invariant 0 <= k <= |events| && m.Valid() && !m.completing && m.strays >= old(m.strays)
    {
      assert events[k] in events;
      Happen(m, events[k]);
      k := k + 1;
    }
    Finish(m);
  }

  /** The bulk stage sends page i, everything before it being sent. */
  method SendNext(m: Migration, i: nat)
    requires m.Ready() && m.StraysOk() && m.bulk && m.Idle() && m.lost == map[]
    requires m.layout.blocks != [] && m.layout.Mark(m.mig, 0, i)
    requires if i == 0 then m.lastSeen.None? else m.lastSeen == Some(0) && m.lastOffset == i - 1
    requires forall j: nat | j < i :: m.layout.NotMarked(m.mig, 0, j)
    modifies m
    ensures m.Ready() && m.StraysOk() && m.bulk && m.lost == map[] && m.lastSeen == Some(0) && m.lastOffset == i
    ensures m.guest == old(m.guest) && m.completing == old(m.completing)
    ensures forall j: nat | j <= i :: m.layout.NotMarked(m.mig, 0, j)
  {
    ghost var from := m.From();
    assert i > 0 ==> m.layout.NotMarked(m.mig, 0, i - 1);
    var pages := m.SaveBlock();
    NextSent(from, m.some, m.mig, m.bulk, m.lastSeen.value, m.lastOffset, pages == 1, i);
  }

  /** In the bulk stage a search that begins behind page i - 1 of the first block ends at page i. */
  lemma NextSent(from: Origin, some: nat, marks: seq<bool>, bulk: bool, b: nat, o: nat, sent: bool, i: nat)
    requires from.Stops(some, marks, bulk, b, o, sent) && from.bulk && from.layout.Mark(from.marks, 0, i)
    requires if i == 0 then from.seen.None? && from.offset == 0 else from.seen == Some(0) && from.offset == i - 1
    requires forall j: nat | j < i :: from.layout.NotMarked(from.marks, 0, j)
    ensures sent && bulk && b == 0 && o == i && forall j: nat | j <= i :: from.layout.NotMarked(marks, 0, j)
  {
    assert from.Ahead(0, i) && from.Reaches(!bulk, b, o, 0, i);
    assert b == 0 && o < i ==> from.layout.NotMarked(from.marks, 0, o);
    forall j: nat | j <= i ensures from.layout.NotMarked(marks, 0, j) {
      assert from.layout.FewerAt(from.marks, marks, 0, j);
      assert j < i ==> from.layout.NotMarked(from.marks, 0, j);
    }
  }

  /** ram_save_iterate in the bulk stage, with time for the n pages of a single block: all are sent. */
  method SendBulk(m: Migration, n: nat)
    requires m.Ready() && m.StraysOk() && m.bulk && m.Idle() && m.lost == map[] && m.lastSeen.None?
    requires |m.layout.blocks| == 1 && m.layout.blocks[0].used == n > 0
    modifies m
    ensures m.Valid() && m.bulk && m.lost == map[] && m.lastSeen == Some(0) && m.lastOffset == n - 1
    ensures m.guest == old(m.guest) && m.completing == old(m.completing)
    ensures m.layout.NothingMarked(m.mig)
  {
    var i := 0;
    while i < n
      invariant 0 <= i <= n && m.Ready() && m.StraysOk() && m.bulk && m.lost == map[]
      invariant if i == 0 then m.lastSeen.None? else m.lastSeen == Some(0) && m.lastOffset == i - 1
      invariant m.guest == old(m.guest) && m.completing == old(m.completing)
      invariant forall j: nat | j < i :: m.layout.NotMarked(m.mig, 0, j)
    {
      assert if i == 0 then m.layout.PageMarked(m.mig, 0, 0) else m.layout.MarkedAhead(m.mig, 0, i - 1, 0, i);
      SendNext(m, i);
      i := i + 1;
    }
    forall b: nat, j: nat ensures m.layout.NotMarked(m.mig, b, j) {
      assert b == 0 && j < n ==> m.layout.NotMarked(m.mig, 0, j);
    }
    m.PutEos();
  }

  /** The guest writes to the last page only: the last stage is going to begin in the losing state. */
  method WriteLast(m: Migration, n: nat, data: Page)
    requires m.Valid() && m.bulk && !m.completing && m.layout.NothingMarked(m.mig)
             && AllDrained(m.layout, m.guest.log, 1)
    requires |m.layout.blocks| == 1 && m.layout.blocks[0] == Block(m.layout.blocks[0].id, 0, n) && n >= 2
    requires m.lastSeen == Some(0) && m.lastOffset == n - 1
    modifies m`guest
    ensures m.Valid() && m.Doomed()
    ensures n <= |m.guest.src| && m.guest.src == old(m.guest).src[n - 1 := data]
  {
    assert Listed(m.layout, m.used, 0, n - 1);
    var ws := [Write(n - 1, data)];
    m.GuestRuns(ws);
    assert ws[..0] == [];
    ghost var marks := Or(m.mig, m.guest.log, 0, |m.mig|);
    forall c: nat, j: nat
      ensures m.layout.IsPage(c, j) ==> (m.layout.Mark(marks, c, j) <==> j == n - 1)
      ensures m.layout.OnlyAt(marks, 0, n - 1, c, j)
    {
      assert Drained(m.layout, old(m.guest).log, 1, c, j) && m.layout.NotMarked(m.mig, c, j);
      assert j == n - 1 ==> ws[0] in ws;
    }
  }

  lemma LastSent(m: Migration, n: nat)
    requires m.Valid() && m.layout.NothingMarked(m.mig) && AllDrained(m.layout, m.guest.log, 1) && m.lost == map[]
    requires |m.layout.blocks| == 1 && m.layout.blocks[0] == Block(m.layout.blocks[0].id, 0, n) && n > 0
    ensures n <= |m.guest.src| && m.layout.IsPage(0, n - 1) && m.Arriving(0, n - 1) == m.guest.src[n - 1]
  {
    assert Drained(m.layout, m.guest.log, 1, 0, n - 1) && m.layout.NotMarked(m.mig, 0, n - 1);
    assert m.layout.Number(0, n - 1) == n - 1;
    m.SentIs(0, n - 1);
  }

  /** The bulk stage of a migration of one block of n pages, while the guest does nothing: everything
      has been sent. */
  method BulkStage(id: Bytes, n: nat, bits: nat, useXbzrle: bool, slots: nat, src: seq<Page>, loader: Loader,
                   ghost dest: seq<nat>)
    returns (m: Migration)
    requires |id| < 256 && 2 <= n < 0x10_0000_0000_0000 && n <= bits == |src| && bits % 64 == 0 && slots > 0
    requires loader.Ok() && Hosts(Layout([Block(id, 0, n)], n, bits), dest, loader.targets)
    ensures fresh(m) && m.Valid() && m.bulk && !m.completing && m.layout.NothingMarked(m.mig)
    ensures AllDrained(m.layout, m.guest.log, 1) && m.lost == map[]
    ensures m.layout == Layout([Block(id, 0, n)], n, bits) && m.dest == dest && m.guest.src == src
    ensures m.lastSeen == Some(0) && m.lastOffset == n - 1 && m.Arriving(0, n - 1) == src[n - 1]
  {
    var layout := Layout([Block(id, 0, n)], n, bits);
    m := new Migration.Setup(layout, useXbzrle, slots, Guest(src, seq(bits, _ => false), []), [], loader, dest, 0);
    SendBulk(m, n);
    LastSent(m, n);
  }

  /** A run that loses a write, on one block of two or more pages: in the bulk stage all pages are sent, the
      guest writes to the last one, the migration completes and everything is loaded. Then the destination
      has the old page. */
  method LosingRun(id: Bytes, n: nat, bits: nat, useXbzrle: bool, slots: nat, src: seq<Page>, loader: Loader,
                   ghost dest: seq<nat>, data: Page)
    returns (m: Migration)
    requires |id| < 256 && 2 <= n < 0x10_0000_0000_0000 && n <= bits == |src| && bits % 64 == 0 && slots > 0
    requires loader.Ok() && Hosts(Layout([Block(id, 0, n)], n, bits), dest, loader.targets) && data != src[n - 1]
    ensures m.wire == [] && m.completing && m.layout == Layout([Block(id, 0, n)], n, bits) && m.dest == dest
    ensures n <= |m.guest.src| && m.guest.src == src[n - 1 := data]
    ensures |dest| == 1 && dest[0] < |m.loader.ram| && n <= |m.loader.ram[dest[0]]|
    ensures m.loader.ram[dest[0]][n - 1] != m.guest.src[n - 1]
  {
    m := BulkStage(id, n, bits, useXbzrle, slots, src, loader, dest);
    LoseWrite(m, n, data);
  }

  /** The guest writes to the last page, the migration completes and everything is loaded. */
  method LoseWrite(m: Migration, n: nat, data: Page)
    requires m.Valid() && m.bulk && !m.completing && m.layout.NothingMarked(m.mig)
    requires AllDrained(m.layout, m.guest.log, 1) && m.lost == map[] && m.lastSeen == Some(0) && m.lastOffset == n - 1
    requires |m.layout.blocks| == 1 && m.layout.blocks[0] == Block(m.layout.blocks[0].id, 0, n) && n >= 2
    requires m.layout.IsPage(0, n - 1) && n <= |m.guest.src| && m.Arriving(0, n - 1) == m.guest.src[n - 1] != data
    modifies m
    ensures m.wire == [] && m.completing && m.guest.src == old(m.guest).src[n - 1 := data]
    ensures |m.dest| == 1 && m.dest[0] < |m.loader.ram| && n <= |m.loader.ram[m.dest[0]]|
    ensures m.loader.ram[m.dest[0]][n - 1] != data
  {
    WriteLast(m, n, data);
    Finish(m);
    assert Same(m.layout, m.dest, m.loader.ram, m.guest.src, m.lost, 0, n - 1);
  }
}
