/** Live migration of RAM: the sending side (arch_init.c, save_page_header .. ram_save_complete),
    run against a guest that keeps writing and a receiver that runs ram_load. */
module RamMigration {
  import opened Prelude
  import opened Xbzrle
  import opened RamWire
  import opened RamLoader
  import opened RamBitmap
  import opened RamCache
  import opened RamSearch
  import opened RamSync

  /** A write of the guest, by page number. */
  datatype Write = Write(page: nat, data: Page)

  /** What the guest writes while a page is being read, and what the read sees when one of these
      writes goes to that page. */
  datatype Turn = Turn(writes: seq<Write>, torn: Page)

  /** The guest: its RAM and its dirty log, by page number, and what it is going to do. */
  datatype Guest = Guest(src: seq<Page>, log: seq<bool>, turns: seq<Turn>)

  /** Whatever the guest changed is logged. */
  ghost predicate Ran(used: set<nat>, g: Guest, g': Guest) {
    Logged(used, g.src, g.log, g'.src, g'.log)
  }

  predicate WritesTo(ws: seq<Write>, p: nat) {
    exists w | w in ws :: w.page == p
  }

  ghost predicate WritesOk(used: set<nat>, ws: seq<Write>) {
    forall w | w in ws :: w.page in used
  }

  function Written(src: seq<Page>, ws: seq<Write>): (r: seq<Page>)
    ensures |r| == |src|
  {
    if ws == [] then src
    else
      var n := |ws| - 1;
      var r := Written(src, ws[..n]);
      if ws[n].page < |r| then r[ws[n].page := ws[n].data] else r
  }

  /** used holds the numbers of all pages. */
  ghost predicate Lists(layout: Layout, used: set<nat>) {
    && (forall b: nat, i: nat :: Listed(layout, used, b, i))
    && (forall p | p in used :: p < layout.ramPages)
  }

  ghost predicate Listed(layout: Layout, used: set<nat>, b: nat, i: nat) {
    layout.IsPage(b, i) ==> layout.Number(b, i) in used
  }

  class Migration {
    const layout: Layout
    const useXbzrle: bool
    /** The page numbers of the blocks. */
    ghost const used: set<nat>

    var guest: Guest

    var mig: seq<bool>
    var dirtyPages: int
    var lastSeen: Option<nat>
    var lastSent: Option<nat>
    var lastOffset: nat
    var bulk: bool
    var completing: bool

    var cache: Cache
    var syncCount: nat
    var allocs: seq<bool>

    var wire: Bytes
    var loader: Loader

    /** The records on the wire, and the destination once they are loaded. */
    ghost var inflight: seq<Record>
    ghost var final: Loader
    ghost const dest: seq<nat>

    /** Pages that were dropped by a search and have not been sent since. */
    ghost var lost: map<nat, Dropped>

    /** How many searches have begun in the losing state. */
    ghost var strays: nat

    /** A block that has pages. */
    ghost const some: nat

    ghost predicate Shape()
      reads `guest, `mig
    {
      && layout.Ok() && |guest.src| == |guest.log| == |mig| == layout.bits && Lists(layout, used)
      && (forall t | t in guest.turns :: WritesOk(used, t.writes))
    }

    ghost predicate StreamOk()
      reads `final
    {
      final.Ok() && Hosts(layout, dest, final.targets)
    }

    /** What the destination will hold for page i of block b. */
    ghost function Arriving(b: nat, i: nat): Page
      requires StreamOk() && layout.IsPage(b, i)
      reads `final
    {
      final.ram[dest[b]][i]
    }

    /** The guest does not run. */
    ghost predicate Idle()
      reads `completing, `guest
    {
      completing || guest.turns == []
    }

    method GuestTurn(ws: seq<Write>)
      requires Shape() && WritesOk(used, ws)
      modifies `guest
      ensures Shape() && Ran(used, old(guest), guest) && guest.turns == old(guest).turns
      ensures forall p: nat | p < |guest.log| :: guest.log[p] == (old(guest).log[p] || WritesTo(ws, p))
      ensures guest.src == Written(old(guest).src, ws)
    {
      var k, src: seq<Page>, log := 0, guest.src, guest.log;
      while k < |ws|
        modifies {}
        invariant 0 <= k <= |ws| && |src| == |log| == layout.bits
        invariant Logged(used, guest.src, guest.log, src, log)
        invariant forall p: nat | p < |log| :: log[p] == (guest.log[p] || WritesTo(ws[..k], p))
        invariant src == Written(guest.src, ws[..k])
      {
        var w := ws[k];
        assert w in ws && ws[..k + 1][..k] == ws[..k];
        src := src[w.page := w.data];
        log := log[w.page := true];
        k := k + 1;
      }
      assert ws[..|ws|] == ws;
      guest := guest.(src := src, log := log);
    }

    /** Reads a page of the guest, which runs meanwhile unless the migration is completing. */
    method ReadPage(p: nat) returns (v: Page)
      requires Shape() && p < layout.bits
      modifies `guest
      ensures Shape() && Ran(used, old(guest), guest) && Fresh(p, v)
      ensures old(Idle()) ==> guest == old(guest)
    {
      if completing || guest.turns == [] {
        v := guest.src[p];
      } else {
        var t := guest.turns[0];
        assert t in guest.turns;
        guest := guest.(turns := guest.turns[1..]);
        GuestTurn(t.writes);
        if WritesTo(t.writes, p) {
          v := t.torn;
        } else {
          v := guest.src[p];
        }
      }
    }

    /** v was read from page p of the guest, and any later change is logged. */
    ghost predicate Fresh(p: nat, v: Page)
      requires Shape() && p < layout.bits
      reads `guest, `mig
    {
      v == guest.src[p] || guest.log[p]
    }

    /** Header h leads the receiver to page i of block b. */
    ghost predicate Leads(h: Header, b: nat, i: nat)
      requires layout.IsPage(b, i) && |dest| == |layout.blocks|
      reads `final
    {
      && h.offset == i
      && match h.id
         case None => final.current == Some(dest[b])
         case Some(id) => id == layout.blocks[b].id
    }

    /** The destination once page i of block b has been replaced. */
    ghost function Replaced(b: nat, i: nat, page: Page): Loader
      requires StreamOk() && layout.IsPage(b, i)
      reads `final
    {
      final.(ram := SetPage(final.ram, dest[b], i, page), current := Some(dest[b]))
    }

    lemma Arrives(r: Record, b: nat, i: nat, page: Page)
      requires StreamOk() && layout.IsPage(b, i)
      requires !r.Eos? && Leads(r.header, b, i) && NewPage(r, Arriving(b, i)) == Some(page)
      ensures Apply(final, r) == Some(Replaced(b, i, page))
    {
      if r.header.id.Some? {
        var d := FindFrom(final.targets, layout.blocks[b].id, i, 0);
        assert final.targets[dest[b]].id == layout.blocks[b].id && d.Some?;
        assert Distinct(final.targets, d.value, dest[b]) && Distinct(final.targets, dest[b], d.value);
      }
      assert Locate(final, r.header) == Some(dest[b]);
    }

    /** What is on the wire is going to turn the destination into final. */
    ghost predicate Flowing()
      reads `wire, `inflight, `loader, `final
    {
      Carries(wire, inflight, loader, final)
    }

    /** Puts the bytes of a record on the wire. */
    method Put(r: Record)
      requires Flowing() && final.Ok() && Sendable(r) && Apply(final, r).Some?
      modifies `wire, `inflight, `final
      ensures Flowing() && inflight == old(inflight) + [r] && Some(final) == Apply(old(final), r)
    {
      CarriesOn(wire, inflight, loader, final, r);
      wire := wire + Print(r);
      final := Apply(final, r).value;
      inflight := inflight + [r];
    }

    /** Puts a record that makes page i of block b be page at the destination. */
    method PutPage(r: Record, b: nat, i: nat, ghost page: Page)
      requires Flowing() && StreamOk() && layout.IsPage(b, i) && Sendable(r)
      requires !r.Eos? && Leads(r.header, b, i) && NewPage(r, Arriving(b, i)) == Some(page)
      modifies `wire, `inflight, `final
      ensures Flowing() && StreamOk() && inflight == old(inflight) + [r]
      ensures final == old(Replaced(b, i, page))
    {
      Arrives(r, b, i, page);
      Put(r);
    }

    method TryMalloc() returns (ok: bool)
      modifies `allocs
    {
      if allocs == [] {
        ok := true;
      } else {
        ok := allocs[0];
        allocs := allocs[1..];
      }
    }

    method CacheInsert(p: nat, data: Page) returns (ok: bool)
      requires Placed(cache)
      modifies `cache, `allocs
      ensures Placed(cache) && Within(old(cache), cache, p)
      ensures ok ==> Cached(cache, p) == Some(data)
      ensures !ok ==> cache == old(cache) && Cached(cache, p).None?
    {
      var alloc := TryMalloc();
      ok, cache := Insert(cache, p, data, syncCount, alloc);
    }

    /** Overwrites the data of a cached page. */
    method CacheWrite(p: nat, data: Page)
      requires Placed(cache) && Cached(cache, p).Some?
      modifies `cache
      ensures Placed(cache) && Within(old(cache), cache, p) && Cached(cache, p) == Some(data)
    {
      var k := Slot(|cache|, p);
      var c: seq<Option<Item>> := cache;
      cache := c[k := Some(c[k].value.(data := data))];
    }

    /** save_xbzrle_page when page p is not cached. */
    method SaveMissed(p: nat) returns (cur: Option<Page>)
      requires Shape() && p < layout.bits && Placed(cache) && Cached(cache, p).None?
      modifies `guest, `cache, `allocs
      ensures Shape() && Placed(cache) && Ran(used, old(guest), guest)
      ensures old(Idle()) ==> guest == old(guest)
      ensures Within(old(cache), cache, p) && Cached(cache, p) == cur
      ensures cur.Some? ==> Fresh(p, cur.value)
    {
      cur := None;
      if !completing {
        var data := ReadPage(p);
        var ok := CacheInsert(p, data);
        if ok {
          cur := Some(data);
        }
      }
    }

    /** save_xbzrle_page when page p, copied to buf, is cached. */
    method SaveCached(p: nat, header: Header, buf: Page) returns (pages: int, cur: Option<Page>, r: Record)
      requires Shape() && p < layout.bits && Placed(cache) && Cached(cache, p).Some? && Fresh(p, buf)
      modifies `guest, `cache
      ensures Shape() && Placed(cache) && Ran(used, old(guest), guest)
      ensures old(Idle()) ==> guest == old(guest)
      ensures Within(old(cache), cache, p)
              && (!completing ==> Cached(cache, p) == Some(if cur.Some? then cur.value else buf))
      ensures cur.Some? <==> pages == -1 && !completing
      ensures cur.Some? ==> Fresh(p, cur.value)
      ensures var had := old(Cached(cache, p).value);
              pages == if Room(had, buf, 0) > PAGE_SIZE then -1 else if had == buf then 0 else 1
      ensures pages == 1 ==>
                r.Patch? && r.header == header && |r.delta| <= PAGE_SIZE
                && Decode(r.delta, old(Cached(cache, p).value)) == Some(buf)
    {
      cur, r := None, Eos;
      var encoded := XbzrleEncodeBuffer(Cached(cache, p).value, buf, PAGE_SIZE);
      match encoded {
        case Unchanged =>
          pages := 0;
        case Overflow =>
          if !completing {
            var data := ReadPage(p);
            CacheWrite(p, data);
            cur := Some(data);
          }
          pages := -1;
        case Delta(delta) =>
          if !completing {
            CacheWrite(p, buf);
          }
          r := Patch(header, delta);
          pages := 1;
      }
    }

    /** Record r turns page had of the destination into v. */
    ghost predicate Makes(r: Record, header: Header, had: Page, v: Page) {
      !r.Eos? && r.header == header && (r.Patch? ==> |r.delta| <= PAGE_SIZE) && NewPage(r, had) == Some(v)
    }

    /** save_xbzrle_page. pages is its result and r the record it writes (if 1); cur is the cached page
        if *current_data is made to point to it; v is the page that was sent or found unmodified. */
    method SaveXbzrlePage(p: nat, header: Header, ghost had: Page)
      returns (pages: int, cur: Option<Page>, r: Record, ghost v: Page)
      requires Shape() && p < layout.bits && Placed(cache)
      requires Cached(cache, p).None? || Cached(cache, p) == Some(had)
      modifies `guest, `cache, `allocs
      ensures Shape() && Placed(cache) && Ran(used, old(guest), guest)
      ensures old(Idle()) ==> guest == old(guest)
      ensures Within(old(cache), cache, p)
      ensures cur.Some? ==> pages == -1 && Fresh(p, cur.value)
      ensures pages == -1 || (pages == 0 && v == had && old(Cached(cache, p)).Some?)
              || (pages == 1 && Makes(r, header, had, v))
      ensures pages >= 0 ==> Fresh(p, v) && old(Cached(cache, p)).Some?
      ensures !completing ==> Cached(cache, p) == if pages == -1 then cur else Some(v)
    {
      var hit;
      hit, cache := IsCached(cache, p, syncCount);
      if hit {
        var buf := ReadPage(p);
        pages, cur, r := SaveCached(p, header, buf);
        v := buf;
      } else {
        pages, r, v := -1, Eos, had;
        cur := SaveMissed(p);
      }
    }

    /** ram_save_page: r is the record it writes, unless the page is unmodified. */
    method SavePage(p: nat, header: Header, ghost had: Page) returns (pages: int, r: Record, ghost v: Page)
      requires Shape() && p < layout.bits && Placed(cache)
      requires Cached(cache, p).None? || Cached(cache, p) == Some(had)
      requires bulk || !useXbzrle ==> Empty(cache)
      modifies `guest, `cache, `allocs
      ensures Shape() && Placed(cache) && Ran(used, old(guest), guest)
      ensures old(Idle()) ==> guest == old(guest)
      ensures Within(old(cache), cache, p) && (bulk || !useXbzrle ==> Empty(cache))
      ensures (pages == 0 && v == had && old(Cached(cache, p)).Some?) || (pages == 1 && Makes(r, header, had, v))
      ensures Fresh(p, v) && (!completing ==> Cached(cache, p).None? || Cached(cache, p) == Some(v))
    {
      var cur: Option<Page> := None;
      pages, r, v := -1, Eos, had;
      var seen := ReadPage(p);
      if seen == ZeroPage() {
        pages, r, v := 1, Fill(header, 0), seen;
        if !bulk && useXbzrle {
          var _ := CacheInsert(p, seen);
        }
      } else if !bulk && useXbzrle {
        pages, cur, r, v := SaveXbzrlePage(p, header, had);
      }
      if pages == -1 {
        var page := seen;
        if cur.Some? {
          page := cur.value;
        } else {
          page := ReadPage(p);
        }
        pages, r, v := 1, Raw(header, page), page;
      }
    }

    /** The header of a page: CONTINUE when the page before was of the same block. */
    function HeaderFor(b: nat, i: nat): (h: Header)
      requires b < |layout.blocks|
      reads `lastSent
    {
      Header(i, if lastSent == Some(b) then None else Some(layout.blocks[b].id))
    }

    ghost predicate CountOk()
      reads `mig, `guest, `dirtyPages
    {
      dirtyPages == |Dirty(used, mig)| && GapsMarked(used, mig, guest.log)
    }

    ghost predicate CacheOk()
      reads `mig, `final, `cache, `bulk, `completing
    {
      && Placed(cache) && (bulk || !useXbzrle ==> Empty(cache))
      && Mirrors(layout, dest, final.ram, cache, mig, completing)
    }

    /** Every page is at the destination as it is here, or is marked or logged, or is one of those lost. */
    ghost predicate InSync(lost: map<nat, Dropped>)
      reads `guest, `mig, `final
    {
      Synced(layout, dest, final.ram, guest.src, guest.log, mig, lost)
    }

    ghost predicate SentOk()
      reads `final, `lastSent
    {
      lastSent.Some? ==> lastSent.value < |dest| && final.current == Some(dest[lastSent.value])
    }

    ghost predicate Sound()
      reads `guest, `mig, `cache, `bulk, `completing, `dirtyPages, `lastSent, `lost, `wire, `inflight, `loader, `final
    {
      Flowing() && Shape() && StreamOk() && CountOk() && CacheOk() && SentOk() && InSync(lost)
    }

    /** Page i of block b as it is here and at the destination. */
    ghost function Both(b: nat, i: nat): Dropped
      requires Shape() && StreamOk() && layout.IsPage(b, i)
      reads `guest, `mig, `final
    {
      Dropped(guest.src[layout.Number(b, i)], Arriving(b, i))
    }

    /** Sound but for page i of block b, whose mark has just been taken off. */
    ghost predicate SoundBut(b: nat, i: nat)
      reads `guest, `mig, `cache, `bulk, `completing, `dirtyPages, `lastSent, `lost, `wire, `inflight, `loader, `final
    {
      && Flowing() && Shape() && StreamOk() && CountOk() && CacheOk() && SentOk()
      && layout.IsPage(b, i) && !layout.Mark(mig, b, i)
      && InSync(lost[layout.Number(b, i) := Both(b, i)])
      && (Cached(cache, layout.Number(b, i)).None? || Cached(cache, layout.Number(b, i)) == Some(Arriving(b, i)))
    }

    /** find_next_bit. */
    method FindNextBit(size: nat, from: nat) returns (next: nat)
      requires size <= |mig|
      ensures next <= size && (from <= size ==> from <= next)
      ensures forall p | from <= p < next :: !mig[p]
      ensures next < size ==> from <= next && mig[next]
    {
      if from >= size {
        return size;
      }
      next := from;
      while next < size && !mig[next]
        invariant from <= next <= size
        invariant forall p | from <= p < next :: !mig[p]
      {
        next := next + 1;
      }
    }

    /** migration_bitmap_find_and_reset_dirty, in pages. */
    method FindAndReset(b: nat, i: nat) returns (o: nat)
      requires Shape() && CountOk() && b < |layout.blocks| && i <= layout.blocks[b].used
      requires bulk && i > 0 && i + 1 < layout.blocks[b].used ==> layout.Mark(mig, b, i + 1)
      modifies `mig, `dirtyPages
      ensures Shape() && CountOk()
      ensures i <= o
      ensures if bulk && i > 0 then o == i + 1
              else o <= layout.blocks[b].used && forall j: nat | i <= j < o :: !layout.Mark(old(mig), b, j)
      ensures if layout.IsPage(b, o)
              then layout.Mark(old(mig), b, o) && mig == old(mig)[layout.Number(b, o) := false]
                && dirtyPages == old(dirtyPages) - 1
              else mig == old(mig) && dirtyPages == old(dirtyPages)
    {
      var base := layout.blocks[b].base;
      var nr, size := base + i, base + layout.blocks[b].used;
      var next;
      if bulk && nr > base {
        next := nr + 1;
      } else {
        next := FindNextBit(size, nr);
      }
      o := next - base;
      if next < size {
        assert Listed(layout, used, b, o);
        ClearDirty(used, mig, next);
        mig := mig[next := false];
        dirtyPages := dirtyPages - 1;
      }
    }

    /** ram_save_page, and its record goes out. */
    method SaveAndPut(b: nat, i: nat) returns (pages: int, ghost v: Page)
      requires Flowing() && Shape() && StreamOk() && layout.IsPage(b, i) && SentOk()
      requires Placed(cache) && (bulk || !useXbzrle ==> Empty(cache))
      requires Cached(cache, layout.Number(b, i)).None? || Cached(cache, layout.Number(b, i)) == Some(Arriving(b, i))
      modifies `guest, `cache, `allocs, `wire, `inflight, `final
      ensures Flowing() && Shape() && StreamOk() && Ran(used, old(guest), guest)
      ensures old(Idle()) ==> guest == old(guest)
      ensures Placed(cache) && (bulk || !useXbzrle ==> Empty(cache))
      ensures Within(old(cache), cache, layout.Number(b, i))
      ensures Fresh(layout.Number(b, i), v)
      ensures !completing ==> Cached(cache, layout.Number(b, i)).None? || Cached(cache, layout.Number(b, i)) == Some(v)
      ensures final.ram == SetPage(old(final.ram), dest[b], i, v)
      ensures pages == 0 || pages == 1
      ensures pages == 0 ==> inflight == old(inflight) && final == old(final) && !Empty(old(cache))
      ensures pages == 1 ==> final.current == Some(dest[b]) && Sent(old(inflight), inflight, old(HeaderFor(b, i)))
    {
      var header := HeaderFor(b, i);
      var record;
      pages, record, v := SavePage(layout.Number(b, i), header, Arriving(b, i));
      if pages > 0 {
        PutPage(record, b, i, v);
      } else {
        SetSame(final.ram, dest[b], i);
      }
    }

    /** Sends page i of block b, unless it is unmodified. */
    method SendPage(b: nat, i: nat) returns (pages: int)
      requires SoundBut(b, i)
      modifies `guest, `cache, `allocs, `wire, `inflight, `final, `lastSent, `lost
      ensures Sound() && lost == old(lost) - {layout.Number(b, i)}
      ensures old(Idle()) ==> guest == old(guest)
      ensures pages == 0 || pages == 1
      ensures pages == 0 ==> inflight == old(inflight) && final == old(final) && lastSent == old(lastSent)
      ensures pages == 0 ==> !Empty(old(cache))
      ensures pages == 1 ==> Sent(old(inflight), inflight, old(HeaderFor(b, i)))
    {
      ghost var v;
      pages, v := SaveAndPut(b, i);
      Settle(layout, used, dest, old(final), final.ram, old(guest).src, old(guest).log, guest.src, guest.log, mig,
             lost, old(Both(b, i)), b, i, v);
      Refresh(layout, dest, old(final), final.ram, old(cache), cache, mig, completing, b, i, v);
      lost := lost - {layout.Number(b, i)};
      if pages > 0 {
        lastSent := Some(b);
      }
    }

    /** The search that would begin now. */
    ghost function From(): Origin
      reads `lastSeen, `lastOffset, `mig, `bulk
    {
      Origin(layout, lastSeen, lastOffset, mig, bulk)
    }

    ghost predicate Ready()
      reads this
    {
      Sound() && From().Ok(some)
    }

    /** The search takes the mark off the next page of block b. */
    method TakePage(ghost from: Origin, ghost complete: bool, b: nat, i: nat) returns (o: nat)
      requires Sound() && from.layout == layout && from.Goes(some, mig, bulk, complete, b, i)
      modifies `mig, `dirtyPages
      ensures from.Finds(old(mig), complete, b, i, o)
      ensures if layout.IsPage(b, o)
              then && layout.Mark(old(mig), b, o) && mig == old(mig)[layout.Number(b, o) := false]
                   && dirtyPages == old(dirtyPages) - 1 && SoundBut(b, o)
              else mig == old(mig) && dirtyPages == old(dirtyPages) && Sound()
    {
      assert bulk && i > 0 ==> layout.MarkedAhead(mig, b, i, b, i + 1);
      o := FindAndReset(b, i);
      if layout.IsPage(b, o) {
        Unmark(layout, dest, final.ram, guest.src, guest.log, cache, old(mig), lost, completing, b, o);
        layout.MarkCleared(old(mig), b, o, b, o);
      }
    }

    /** The search has come round to where it began and has taken the mark off the page it skipped,
        if it was marked. */
    ghost method ComeRound(from: Origin, m: seq<bool>, b: nat, i: nat, o: nat)
      requires from.layout == layout && from.At(some, m, true, b, i) && from.Finds(m, true, b, i, o)
      requires b == from.Block() && o >= from.offset && !bulk
      requires if layout.IsPage(b, o)
               then layout.Mark(m, b, o) && mig == m[layout.Number(b, o) := false] && SoundBut(b, o)
               else mig == m && Sound()
      modifies `lost
      ensures Sound() && from.Stops(some, mig, bulk, b, o, false)
      ensures from.Losing() ==>
                layout.IsPage(b, from.offset)
                  && lost == old(lost)[layout.Number(b, from.offset) := Both(b, from.offset)]
      ensures !from.Losing() ==> lost == old(lost)
    {
      from.ComeRound(some, m, b, i, o);
      from.StopsInTime(some, m, true, b, i, o);
      if layout.IsPage(b, o) {
        FewerCleared(from.marks, m, b, o);
        lost := lost[layout.Number(b, o) := Both(b, o)];
      }
    }

    lemma FewerCleared(m0: seq<bool>, m: seq<bool>, b: nat, o: nat)
      requires layout.Ok() && |m| == layout.bits && layout.IsPage(b, o) && layout.Fewer(m0, m)
      ensures layout.Fewer(m0, m[layout.Number(b, o) := false])
    {
      var m' := m[layout.Number(b, o) := false];
      forall c: nat, j: nat ensures layout.FewerAt(m0, m', c, j) {
        layout.MarkCleared(m, b, o, c, j);
        assert layout.FewerAt(m0, m, c, j);
      }
    }

    /** The search sends the page it found. */
    method SendFound(ghost from: Origin, ghost m: seq<bool>, ghost complete: bool, b: nat, ghost i: nat, o: nat)
      returns (pages: int)
      requires from.layout == layout && from.Goes(some, m, bulk, complete, b, i) && from.Finds(m, complete, b, i, o)
      requires !(complete && b == from.Block() && o >= from.offset) && (from.bulk ==> Empty(cache))
      requires layout.Mark(m, b, o) && mig == m[layout.Number(b, o) := false] && SoundBut(b, o)
      modifies `guest, `cache, `allocs, `wire, `inflight, `final, `lastSent, `lost
      ensures Sound() && !from.Losing() && Shrinks(old(lost), lost)
      ensures old(Idle()) ==> guest == old(guest)
      ensures pages == 0 || (pages == 1 && Sent(old(inflight), inflight, old(HeaderFor(b, o))))
      ensures pages == 0 ==> inflight == old(inflight) && !from.bulk && from.Goes(some, mig, bulk, complete, b, o)
      ensures pages == 1 ==> from.Stops(some, mig, bulk, b, o, true)
    {
      from.FoundNotLosing(some, m, complete, b, i, o);
      pages := SendPage(b, o);
      if pages == 0 {
        from.GoOn(some, m, complete, b, i, o);
      } else {
        StopsHere(from, m, complete, b, i, o);
      }
    }

    /** The search may stop at the page it found. */
    lemma StopsHere(from: Origin, m: seq<bool>, complete: bool, b: nat, i: nat, o: nat)
      requires from.layout == layout && from.At(some, m, complete, b, i) && from.Finds(m, complete, b, i, o)
      requires layout.Mark(m, b, o) && !from.Losing()
      ensures from.Stops(some, m[layout.Number(b, o) := false], from.bulk && !complete, b, o, true)
    {
      from.StopsInTime(some, m, complete, b, i, o);
      FewerCleared(from.marks, m, b, o);
      layout.MarkCleared(m, b, o, b, o);
      assert layout.FewerAt(from.marks, m, b, o);
      if from.bulk && !complete {
        layout.AheadOf(m, from.Block(), from.offset, b, o);
      }
    }

    /** The search leaves block b. */
    method LeaveBlock(ghost from: Origin, complete: bool, b: nat, ghost i: nat, ghost o: nat)
      returns (complete': bool, b': nat)
      requires Sound() && from.layout == layout && from.Goes(some, mig, bulk, complete, b, i)
      requires from.Finds(mig, complete, b, i, o) && o >= layout.blocks[b].used && !(complete && b == from.Block())
      modifies `bulk
      ensures Sound() && from.Goes(some, mig, bulk, complete', b', 0)
      ensures (complete' && !complete) || (complete' == complete && b' == b + 1)
    {
      from.NextBlock(some, mig, complete, b, i, o);
      complete', b' := complete, b + 1;
      if b' == |layout.blocks| {
        complete', b', bulk := true, 0, false;
      }
    }

    /** What a search does to the pages lost: if it began in the losing state it has dropped the page it
        began at, when it is done, and sent nothing. */
    ghost predicate Drops(from: Origin, done: bool, guest0: Guest, final0: Loader, lost0: map<nat, Dropped>)
      reads `guest, `mig, `final, `lost
    {
      if from.Losing() then
        && guest == guest0 && final == final0 && from.layout == layout && Shape() && StreamOk()
        && layout.IsPage(from.Block(), from.offset)
        && lost == if done then lost0[layout.Number(from.Block(), from.offset) := Both(from.Block(), from.offset)]
           else lost0
      else
        Shrinks(lost0, lost)
    }

    /** A turn that does not come round: the block is left, or the page found is sent. */
    method Proceed(ghost from: Origin, ghost m: seq<bool>, complete: bool, b: nat, ghost i: nat, o: nat)
      returns (pages: int, complete': bool, b': nat, i': nat)
      requires from.layout == layout && from.Goes(some, m, bulk, complete, b, i) && from.Finds(m, complete, b, i, o)
      requires !(complete && b == from.Block() && o >= from.offset) && (from.bulk ==> Empty(cache))
      requires if layout.IsPage(b, o)
               then layout.Mark(m, b, o) && mig == m[layout.Number(b, o) := false] && SoundBut(b, o)
               else mig == m && Sound()
      modifies `lastSent, `bulk, `guest, `cache, `allocs, `wire, `inflight, `final, `lost
      ensures Sound() && (old(Idle()) ==> guest == old(guest)) && |inflight| == |old(inflight)| + pages
      ensures Drops(from, false, old(guest), old(final), old(lost))
      ensures (pages == 1 && layout.IsPage(b, o) && !from.Losing() && from.Stops(some, mig, bulk, b', i', true))
              || (pages == 0 && from.Goes(some, mig, bulk, complete', b', i') && (from.bulk ==> Empty(cache)))
      ensures pages == 0 ==> || (complete' && !complete)
                             || (complete' == complete && b' == if layout.IsPage(b, o) then b else b + 1)
    {
      pages, complete', b', i' := 0, complete, b, o;
      if o >= layout.blocks[b].used {
        complete', b' := LeaveBlock(from, complete, b, i, o);
        i' := 0;
      } else {
        pages := SendFound(from, m, complete, b, i, o);
      }
    }

    /** What a turn of the loop does once the mark is taken off page o of block b. */
    method TurnAt(ghost from: Origin, ghost m: seq<bool>, complete: bool, b: nat, ghost i: nat, o: nat)
      returns (done: bool, pages: int, complete': bool, b': nat, i': nat)
      requires from.layout == layout && from.Goes(some, m, bulk, complete, b, i) && from.Finds(m, complete, b, i, o)
      requires from.seen == lastSeen && from.offset == lastOffset && (from.bulk ==> Empty(cache))
      requires if layout.IsPage(b, o)
               then layout.Mark(m, b, o) && mig == m[layout.Number(b, o) := false] && SoundBut(b, o)
               else mig == m && Sound()
      modifies `lastSent, `bulk, `guest, `cache, `allocs, `wire, `inflight, `final, `lost
      ensures Sound() && (old(Idle()) ==> guest == old(guest)) && |inflight| == |old(inflight)| + pages
      ensures pages == 0 || (pages == 1 && done && layout.IsPage(b, o))
      ensures Drops(from, done, old(guest), old(final), old(lost))
      ensures if done then from.Stops(some, mig, bulk, b', i', pages == 1)
              else from.Goes(some, mig, bulk, complete', b', i') && (from.bulk ==> Empty(cache))
      ensures !done ==> || (complete' && !complete)
                        || (complete' == complete && b' == if layout.IsPage(b, o) then b else b + 1)
    {
      if complete && lastSeen == Some(b) && o >= lastOffset {
        ComeRound(from, m, b, i, o);
        done, pages, complete', b', i' := true, 0, complete, b, o;
      } else {
        pages, complete', b', i' := Proceed(from, m, complete, b, i, o);
        done := pages > 0;
      }
    }

    /** One turn of the loop of ram_find_and_save_block. */
    method SearchTurn(ghost from: Origin, complete: bool, b: nat, i: nat)
      returns (done: bool, pages: int, complete': bool, b': nat, i': nat)
      requires Sound() && from.layout == layout && from.Goes(some, mig, bulk, complete, b, i)
      requires from.seen == lastSeen && from.offset == lastOffset && (from.bulk ==> Empty(cache))
      modifies `mig, `dirtyPages, `lastSent, `bulk, `guest, `cache, `allocs, `wire, `inflight, `final, `lost
      ensures Sound() && (old(Idle()) ==> guest == old(guest)) && |inflight| == |old(inflight)| + pages
      ensures pages == 0 || (pages == 1 && done && dirtyPages < old(dirtyPages))
      ensures Drops(from, done, old(guest), old(final), old(lost))
      ensures if done then from.Stops(some, mig, bulk, b', i', pages == 1)
              else from.Goes(some, mig, bulk, complete', b', i') && (from.bulk ==> Empty(cache))
      ensures !done ==> dirtyPages <= old(dirtyPages)
      ensures !done ==> || (complete' && !complete)
                        || (complete' == complete && (b' == b + 1 || (b' == b && dirtyPages < old(dirtyPages))))
    {
      var o := TakePage(from, complete, b, i);
      done, pages, complete', b', i' := TurnAt(from, old(mig), complete, b, i, o);
    }

    /** The loop of ram_find_and_save_block: it ends at page i of block b. */
    method Search(ghost from: Origin) returns (pages: int, b: nat, i: nat)
      requires Ready() && from == From()
      modifies `mig, `dirtyPages, `lastSent, `bulk, `guest, `cache, `allocs, `wire, `inflight, `final, `lost
      ensures Sound() && (old(Idle()) ==> guest == old(guest)) && |inflight| == |old(inflight)| + pages
      ensures pages == 0 || (pages == 1 && dirtyPages < old(dirtyPages))
      ensures Drops(from, true, old(guest), old(final), old(lost)) && from.Stops(some, mig, bulk, b, i, pages == 1)
    {
      var complete, done := false, false;
      pages, b, i := 0, if lastSeen.None? then 0 else lastSeen.value, lastOffset;
      while !done
        invariant Sound() && (old(Idle()) ==> guest == old(guest)) && |inflight| == |old(inflight)| + pages
        invariant pages == 0 || (pages == 1 && done && dirtyPages < old(dirtyPages))
        invariant Drops(from, done, old(guest), old(final), old(lost))
        invariant if done then from.Stops(some, mig, bulk, b, i, pages == 1)
                  else from.Goes(some, mig, bulk, complete, b, i) && (from.bulk ==> Empty(cache))
        invariant !done ==> dirtyPages <= old(dirtyPages)
        decreases !done, !complete, |layout.blocks| - b, dirtyPages
      {
        done, pages, complete, b, i := SearchTurn(from, complete, b, i);
      }
    }

    /** ram_find_and_save_block. */
    method FindAndSaveBlock() returns (pages: int)
      requires Ready()
      modifies `mig, `dirtyPages, `lastSeen, `lastSent, `lastOffset, `bulk
      modifies `guest, `cache, `allocs, `wire, `inflight, `final, `lost
      ensures Ready() && (old(Idle()) ==> guest == old(guest)) && |inflight| == |old(inflight)| + pages
      ensures pages == 0 || (pages == 1 && dirtyPages < old(dirtyPages))
      ensures Drops(old(From()), true, old(guest), old(final), old(lost))
      ensures lastSeen.Some? && old(From()).Stops(some, mig, bulk, lastSeen.value, lastOffset, pages == 1)
    {
      var b, i;
      pages, b, i := Search(From());
      lastSeen, lastOffset := Some(b), i;
    }

    /** At most one search drops a page. */
    ghost predicate StraysOk()
      reads `bulk, `lost, `strays
    {
      |lost| <= strays <= 1 && (strays == 1 ==> !bulk)
    }

    ghost predicate Valid()
      reads this
    {
      Ready() && StraysOk() && Ended(inflight)
    }

    /** A page that is neither marked nor logged is going to be at the destination, unless it was dropped. */
    lemma SentIs(b: nat, i: nat)
      requires Sound() && layout.IsPage(b, i) && !layout.Mark(mig, b, i) && !guest.log[layout.Number(b, i)]
      ensures layout.Number(b, i) !in lost ==> Arriving(b, i) == guest.src[layout.Number(b, i)]
    {
      assert Settled(layout, dest, final.ram, guest.src, guest.log, mig, lost, b, i);
    }

    /** The loop of migration_bitmap_sync over the blocks. */
    method SyncBlocks()
      requires Shape() && CountOk()
      modifies `mig, `guest, `dirtyPages
      ensures Shape() && CountOk() && guest == old(guest).(log := guest.log)
      ensures Moved(old(mig), old(guest).log, mig, guest.log) && AllDrained(layout, guest.log, |layout.blocks|)
    {
      var b, m, l, n := 0, mig, guest.log, dirtyPages;
      while b < |layout.blocks|
        modifies {}
        invariant 0 <= b <= |layout.blocks| && |m| == |l| == layout.bits
        invariant n == |Dirty(used, m)| && GapsMarked(used, m, l)
        invariant Moved(mig, guest.log, m, l) && AllDrained(layout, l, b)
      {
        ghost var base, end := layout.blocks[b].base, SyncEnd(layout.blocks[b].base, layout.blocks[b].used);
        SyncCount(used, m, l, base, end);
        MovedOn(mig, guest.log, m, l, base, end);
        DrainedOn(layout, l, b, base, end);
        m, l, n := SyncRange(m, l, n, layout.blocks[b].base, layout.blocks[b].used);
        b := b + 1;
      }
      mig, guest, dirtyPages := m, guest.(log := l), n;
    }

    /** migration_bitmap_sync. */
    method BitmapSync()
      requires Ready() && !completing
      modifies `mig, `guest, `dirtyPages, `syncCount
      ensures Ready() && guest == old(guest).(log := guest.log)
      ensures Moved(old(mig), old(guest).log, mig, guest.log) && AllDrained(layout, guest.log, |layout.blocks|)
    {
      syncCount := syncCount + 1;
      SyncBlocks();
      SyncedStill(layout, dest, final.ram, guest.src, old(guest).log, guest.log, old(mig), mig, cache, lost);
      old(From()).StillOk(some, mig);
    }

    /** migration_bitmap_sync on its own. */
    method Sync()
      requires Valid() && !completing
      modifies `mig, `guest, `dirtyPages, `syncCount
      ensures Valid() && AllDrained(layout, guest.log, |layout.blocks|)
    {
      BitmapSync();
    }

    /** The guest runs on its own for a while. */
    method GuestRuns(ws: seq<Write>)
      requires Valid() && WritesOk(used, ws) && !completing
      modifies `guest
      ensures Valid() && Ran(used, old(guest), guest) && guest.turns == old(guest).turns
      ensures guest.src == Written(old(guest).src, ws)
      ensures forall p: nat | p < |guest.log| :: guest.log[p] == (old(guest).log[p] || WritesTo(ws, p))
    {
      GuestTurn(ws);
      LoggedStill(layout, used, dest, final.ram, old(guest).src, old(guest).log, guest.src, guest.log, mig, lost);
    }

    /** The end of a section. */
    method PutEos()
      requires Ready() && StraysOk()
      modifies `wire, `inflight, `final
      ensures Valid() && final == old(final) && inflight == old(inflight) + [Eos]
    {
      Put(Eos);
    }

    /** A call of ram_find_and_save_block. */
    method SaveBlock() returns (pages: int)
      requires Ready() && StraysOk()
      modifies `mig, `dirtyPages, `lastSeen, `lastSent, `lastOffset, `bulk
      modifies `guest, `cache, `allocs, `wire, `inflight, `final, `lost, `strays
      ensures Ready() && StraysOk() && (old(Idle()) ==> guest == old(guest))
      ensures pages == 0 || (pages == 1 && dirtyPages < old(dirtyPages))
      ensures Drops(old(From()), true, old(guest), old(final), old(lost))
      ensures lastSeen.Some? && old(From()).Stops(some, mig, bulk, lastSeen.value, lastOffset, pages == 1)
      ensures strays == old(strays) + if old(From().Losing()) then 1 else 0
    {
      if From().Losing() {
        strays := strays + 1;
      }
      pages := FindAndSaveBlock();
      if old(From().Losing()) {
        assert lost.Keys == {layout.Number(old(lastSeen).value, old(lastOffset))};
      } else {
        ShrinksSize(old(lost), lost);
      }
    }

    /** The loop of ram_save_iterate; the rate limit and the clock let it send at most budget pages. */
    method SavePages(budget: nat) returns (sent: nat)
      requires Ready() && StraysOk()
      modifies `mig, `dirtyPages, `lastSeen, `lastSent, `lastOffset, `bulk
      modifies `guest, `cache, `allocs, `wire, `inflight, `final, `lost, `strays
      ensures Ready() && StraysOk() && sent <= budget && strays >= old(strays)
      ensures sent < budget ==> layout.NothingMarked(mig)
    {
      sent := 0;
      while sent < budget
        invariant sent <= budget && strays >= old(strays) && Ready() && StraysOk()
      {
        var pages := SaveBlock();
        if pages == 0 {
          break;
        }
        sent := sent + 1;
      }
    }

    /** ram_save_iterate. */
    method Iterate(budget: nat) returns (sent: nat)
      requires Valid() && !completing
      modifies `mig, `dirtyPages, `lastSeen, `lastSent, `lastOffset, `bulk
      modifies `guest, `cache, `allocs, `wire, `inflight, `final, `lost, `strays
      ensures Valid() && sent <= budget && strays >= old(strays)
      ensures sent < budget ==> layout.NothingMarked(mig)
    {
      sent := SavePages(budget);
      PutEos();
    }

    /** The last stage would begin in the losing state: in the bulk stage, the page sent last is the only
        one that is marked or logged. */
    ghost predicate Doomed()
      requires Shape()
      reads `guest, `mig, `lastSeen, `lastOffset, `bulk
    {
      Origin(layout, lastSeen, lastOffset, Or(mig, guest.log, 0, |mig|), bulk).Losing()
    }

    /** The last stage begins; the guest is stopped. */
    method BeginLast()
      requires Ready() && !completing
      modifies `mig, `guest, `dirtyPages, `syncCount, `completing
      ensures Ready() && completing && guest.src == old(guest).src && AllDrained(layout, guest.log, |layout.blocks|)
      ensures From().Losing() <==> old(Doomed())
    {
      BitmapSync();
      LastStage(layout, dest, final.ram, cache, mig);
      SyncedMarks(layout, old(mig), old(guest).log, mig, guest.log);
      From().LosingSame(Or(old(mig), old(guest).log, 0, |old(mig)|));
      completing := true;
    }

    /** The loop of ram_save_complete. */
    method FlushAll()
      requires Ready() && StraysOk() && completing && AllDrained(layout, guest.log, |layout.blocks|)
      modifies `mig, `dirtyPages, `lastSeen, `lastSent, `lastOffset, `bulk
      modifies `guest, `cache, `allocs, `wire, `inflight, `final, `lost, `strays
      ensures Ready() && StraysOk() && guest == old(guest) && layout.NothingMarked(mig)
      ensures strays == old(strays) + if old(From().Losing()) then 1 else 0
      ensures Drops(old(From()), true, old(guest), old(final), old(lost))
    {
      var pages := SaveBlock();
      while pages != 0
        invariant Ready() && StraysOk() && guest == old(guest)
        invariant strays == old(strays) + if old(From().Losing()) then 1 else 0
        invariant Drops(old(From()), true, old(guest), old(final), old(lost))
        invariant pages != 0 ==> !From().Losing() && !old(From().Losing())
        invariant pages == 0 ==> layout.NothingMarked(mig)
        decreases pages != 0, dirtyPages
      {
        pages := SaveBlock();
      }
    }

    /** The rest of ram_save_complete. */
    method EndLast()
      requires Ready() && StraysOk() && completing && AllDrained(layout, guest.log, |layout.blocks|)
      modifies `mig, `dirtyPages, `lastSeen, `lastSent, `lastOffset, `bulk
      modifies `guest, `cache, `allocs, `wire, `inflight, `final, `lost, `strays
      ensures Valid() && guest == old(guest) && inflight != []
      ensures strays == old(strays) + if old(From().Losing()) then 1 else 0
      ensures Drops(old(From()), true, old(guest), old(final), old(lost))
      ensures forall b: nat, i: nat :: Same(layout, dest, final.ram, guest.src, lost, b, i)
    {
      FlushAll();
      AllSent(layout, dest, final.ram, guest.src, guest.log, mig, lost);
      PutEos();
    }

    /** ram_save_complete: then every page is going to be at the destination as the guest left it, but for
        one that was dropped when it was not. */
    method Complete()
      requires Valid() && !completing
      modifies `mig, `dirtyPages, `lastSeen, `lastSent, `lastOffset, `bulk, `syncCount, `completing
      modifies `guest, `cache, `allocs, `wire, `inflight, `final, `lost, `strays
      ensures Valid() && completing && guest.src == old(guest).src && inflight != []
      ensures strays == old(strays) + if old(Doomed()) then 1 else 0
      ensures old(Doomed()) ==>
                var b, i := old(lastSeen).value, old(lastOffset);
                layout.IsPage(b, i) && lost == old(lost)[layout.Number(b, i) := old(Both(b, i))]
      ensures forall b: nat, i: nat :: Same(layout, dest, final.ram, guest.src, lost, b, i)
    {
      BeginLast();
      EndLast();
    }

    /** The receiver runs ram_load on the next section. */
    method Receive()
      requires Valid() && wire != []
      modifies `wire, `inflight, `loader
      ensures Valid() && |inflight| < |old(inflight)| && Load(old(loader), old(wire)) == Some((loader, wire))
    {
      Received(wire, inflight, loader, final);
      var ok, l, rest := RamLoad(loader, wire);
      loader, wire, inflight := l, rest, inflight[Section(inflight)..];
    }

    /** The cache is given another size. */
    method ResizeCache(slots: nat)
      requires Valid() && slots > 0 && !completing
      modifies `cache
      ensures Valid() && |cache| == slots
    {
      cache := Resize(cache, slots);
      MirrorsLess(layout, dest, final.ram, old(cache), cache, mig);
    }

    /** ram_save_setup. */
    constructor Setup(layout: Layout, useXbzrle: bool, slots: nat, guest: Guest, allocs: seq<bool>, loader: Loader,
                      ghost dest: seq<nat>, ghost some: nat)
      requires layout.Ok() && |guest.src| == |guest.log| == layout.bits && layout.IsPage(some, 0) && slots > 0
      requires forall p: nat | layout.ramPages <= p < layout.bits :: !guest.log[p]
      requires forall t | t in guest.turns :: WritesOk(PageSet(layout.blocks), t.writes)
      requires loader.Ok() && Hosts(layout, dest, loader.targets)
      ensures Valid() && !completing && strays == 0
      ensures this.layout == layout && this.dest == dest && this.loader == loader && used == PageSet(layout.blocks)
      ensures this.guest == guest.(log := this.guest.log)
      ensures lastSeen.None? && AllDrained(layout, this.guest.log, |layout.blocks|)
    {
      this.layout, this.useXbzrle, this.dest, this.some := layout, useXbzrle, dest, some;
      used := PageSet(layout.blocks);
      this.guest, this.allocs := guest, allocs;
      mig := seq(layout.bits, p => p < layout.ramPages);
      dirtyPages := Total(layout.blocks);
      lastSeen, lastSent, lastOffset, bulk, completing := None, None, 0, true, false;
      var empty: seq<Option<Item>> := seq(slots, _ => None);
      cache, syncCount := empty, 0;
      wire, inflight, this.loader, final := [], [], loader, loader;
      lost, strays := map[], 0;
      new;
      FullyMarked(layout, used, mig);
      CarriesThat([], [], loader, loader);
      Initially(layout, dest, loader, guest.src, guest.log, cache, mig);
      FirstSection();
    }

    /** The end of ram_save_setup. */
    method FirstSection()
      requires Ready() && StraysOk() && !completing
      modifies `mig, `guest, `dirtyPages, `syncCount, `wire, `inflight, `final
      ensures Valid() && AllDrained(layout, guest.log, |layout.blocks|) && guest == old(guest).(log := guest.log)
    {
      BitmapSync();
      PutEos();
    }
  }

  /** One record has been put since, a page with the header. */
  ghost predicate Sent(inflight: seq<Record>, inflight': seq<Record>, header: Header) {
    && |inflight'| == |inflight| + 1 && inflight <= inflight'
    && !inflight'[|inflight|].Eos? && inflight'[|inflight|].header == header
  }

  /** At the start all pages are marked. */
  lemma FullyMarked(layout: Layout, used: set<nat>, mig: seq<bool>)
    requires layout.Ok() && used == PageSet(layout.blocks) && |mig| == layout.bits
    requires forall p: nat | p < layout.bits :: mig[p] == (p < layout.ramPages)
    ensures layout.AllMarked(mig) && Lists(layout, used) && |Dirty(used, mig)| == Total(layout.blocks)
  {
    forall b, c | 0 <= b < c < |layout.blocks| ensures Apart(layout.blocks[b], layout.blocks[c]) {
      assert layout.ApartAt(b, c);
    }
    PageCount(layout.blocks);
    forall b: nat, i: nat ensures Listed(layout, used, b, i) && layout.PageMarked(mig, b, i) {
      if layout.IsPage(b, i) {
        assert InRange(layout.blocks[b].base, layout.blocks[b].used, layout.Number(b, i));
        assert OfBlock(layout.blocks, layout.Number(b, i));
      }
    }
    forall p | p in used ensures p < layout.ramPages {
      var b :| 0 <= b < |layout.blocks| && InRange(layout.blocks[b].base, layout.blocks[b].used, p);
    }
    assert Dirty(used, mig) == used;
  }

  lemma Initially(layout: Layout, dest: seq<nat>, l: Loader, src: seq<Page>, log: seq<bool>, cache: Cache,
                  mig: seq<bool>)
    requires layout.Ok() && Hosts(layout, dest, l.targets) && l.Ok() && |src| == |log| == layout.bits
    requires layout.AllMarked(mig) && Empty(cache)
    ensures Synced(layout, dest, l.ram, src, log, mig, map[]) && Mirrors(layout, dest, l.ram, cache, mig, false)
  {
    forall b: nat, i: nat
      ensures Settled(layout, dest, l.ram, src, log, mig, map[], b, i)
              && Mirrored(layout, dest, l.ram, cache, mig, false, b, i)
    {
      assert layout.PageMarked(mig, b, i);
    }
  }

  lemma MirrorsLess(layout: Layout, dest: seq<nat>, ram: seq<seq<Page>>, cache: Cache, cache': Cache, mig: seq<bool>)
    requires Mirrors(layout, dest, ram, cache, mig, false)
    requires forall q: nat | Cached(cache', q).Some? :: Cached(cache', q) == Cached(cache, q)
    ensures Mirrors(layout, dest, ram, cache', mig, false)
  {
    forall b: nat, i: nat ensures Mirrored(layout, dest, ram, cache', mig, false, b, i) {
      assert Mirrored(layout, dest, ram, cache, mig, false, b, i);
    }
  }
}
