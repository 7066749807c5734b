/** What RAM migration keeps between the guest, the marks, the cache and the destination. */
module RamSync {
  import opened Prelude
  import opened RamWire
  import opened RamLoader
  import opened RamBitmap
  import opened RamCache
  import opened RamSearch

  /** Block b is to be found at block dest[b] of the destination, which is large enough. */
  ghost predicate Hosts(layout: Layout, dest: seq<nat>, targets: seq<Target>) {
    && |dest| == |layout.blocks|
    && (forall b | 0 <= b < |dest| ::
          dest[b] < |targets| && targets[dest[b]].id == layout.blocks[b].id
            && targets[dest[b]].max >= layout.blocks[b].used)
    && (forall d: nat, e: nat :: Distinct(targets, d, e))
  }

  ghost predicate Distinct(targets: seq<Target>, d: nat, e: nat) {
    d < e < |targets| ==> targets[d].id != targets[e].id
  }

  /** Whatever the guest changed is in its dirty log, and only RAM is. */
  ghost predicate Logged(used: set<nat>, src: seq<Page>, log: seq<bool>, src': seq<Page>, log': seq<bool>) {
    && |src| == |log| == |src'| == |log'|
    && (forall p: nat | p < |src| :: src'[p] == src[p] || log'[p])
    && (forall p: nat | p < |log| && log[p] :: log'[p])
    && (forall p: nat | p < |log| && log'[p] :: log[p] || p in used)
  }

  /** A page that is no longer marked although it was not sent: as it is here and at the destination. */
  datatype Dropped = Dropped(here: Page, there: Page)

  /** Page i of block b is at the destination as it is here, or is marked, or logged, or has been dropped
      and is on either side as it was then. */
  ghost predicate Settled(layout: Layout, dest: seq<nat>, ram: seq<seq<Page>>, src: seq<Page>, log: seq<bool>,
                          mig: seq<bool>, lost: map<nat, Dropped>, b: nat, i: nat) {
    layout.IsPage(b, i) ==>
      var p := layout.Number(b, i);
      && b < |dest| && dest[b] < |ram| && i < |ram[dest[b]]| && p < |src| == |log|
      && (|| layout.Mark(mig, b, i) || log[p]
          || if p in lost then lost[p] == Dropped(src[p], ram[dest[b]][i]) else ram[dest[b]][i] == src[p])
  }

  ghost predicate Synced(layout: Layout, dest: seq<nat>, ram: seq<seq<Page>>, src: seq<Page>, log: seq<bool>,
                         mig: seq<bool>, lost: map<nat, Dropped>) {
    forall b: nat, i: nat :: Settled(layout, dest, ram, src, log, mig, lost, b, i)
  }

  /** What is cached of page i of block b is what the destination has; in the last stage this
      matters as long as the page is marked. */
  ghost predicate Mirrored(layout: Layout, dest: seq<nat>, ram: seq<seq<Page>>, cache: Cache,
                           mig: seq<bool>, last: bool, b: nat, i: nat) {
    layout.IsPage(b, i) ==>
      var p := layout.Number(b, i);
      && b < |dest| && dest[b] < |ram| && i < |ram[dest[b]]|
      && (Cached(cache, p).None? || Cached(cache, p) == Some(ram[dest[b]][i]) || (last && !layout.Mark(mig, b, i)))
  }

  ghost predicate Mirrors(layout: Layout, dest: seq<nat>, ram: seq<seq<Page>>, cache: Cache, mig: seq<bool>,
                          last: bool) {
    forall b: nat, i: nat :: Mirrored(layout, dest, ram, cache, mig, last, b, i)
  }

  lemma SetSame(ram: seq<seq<Page>>, d: nat, i: nat)
    requires d < |ram| && i < |ram[d]|
    ensures SetPage(ram, d, i, ram[d][i]) == ram
  {
    var block: seq<Page> := ram[d];
    assert block[i := block[i]] == block;
  }

  lemma OtherPage(layout: Layout, dest: seq<nat>, l: Loader, b: nat, i: nat, c: nat, j: nat, page: Page)
    requires layout.Ok() && Hosts(layout, dest, l.targets) && l.Ok()
    requires layout.IsPage(b, i) && layout.IsPage(c, j) && (b != c || i != j)
    ensures SetPage(l.ram, dest[b], i, page)[dest[c]][j] == l.ram[dest[c]][j]
    ensures layout.Number(b, i) != layout.Number(c, j)
  {
    layout.NumbersDiffer(b, i, c, j);
    assert Distinct(l.targets, dest[b], dest[c]) && Distinct(l.targets, dest[c], dest[b]);
  }

  /** Sending a page settles it, even if it was dropped before, and leaves the others alone. */
  lemma Settle(layout: Layout, used: set<nat>, dest: seq<nat>, l: Loader, ram': seq<seq<Page>>,
               src: seq<Page>, log: seq<bool>, src': seq<Page>, log': seq<bool>,
               mig: seq<bool>, lost: map<nat, Dropped>, d: Dropped, b: nat, i: nat, page: Page)
    requires layout.Ok() && Hosts(layout, dest, l.targets) && l.Ok() && layout.IsPage(b, i)
    requires Logged(used, src, log, src', log') && |src| == layout.bits
    requires ram' == SetPage(l.ram, dest[b], i, page)
    requires page == src'[layout.Number(b, i)] || log'[layout.Number(b, i)]
    requires Synced(layout, dest, l.ram, src, log, mig, lost[layout.Number(b, i) := d])
    ensures Synced(layout, dest, ram', src', log', mig, lost - {layout.Number(b, i)})
  {
    var p := layout.Number(b, i);
    forall c: nat, j: nat ensures Settled(layout, dest, ram', src', log', mig, lost - {p}, c, j) {
      if layout.IsPage(c, j) && (c != b || j != i) {
        assert Settled(layout, dest, l.ram, src, log, mig, lost[p := d], c, j);
        OtherPage(layout, dest, l, b, i, c, j, page);
      }
    }
  }

  /** So does refreshing its place in the cache. */
  lemma Refresh(layout: Layout, dest: seq<nat>, l: Loader, ram': seq<seq<Page>>, cache: Cache, cache': Cache,
                mig: seq<bool>, last: bool, b: nat, i: nat, page: Page)
    requires layout.Ok() && Hosts(layout, dest, l.targets) && l.Ok() && layout.IsPage(b, i)
    requires ram' == SetPage(l.ram, dest[b], i, page)
    requires Mirrors(layout, dest, l.ram, cache, mig, last) && Within(cache, cache', layout.Number(b, i))
    requires var p := layout.Number(b, i);
             (last && !layout.Mark(mig, b, i)) || Cached(cache', p).None? || Cached(cache', p) == Some(page)
    ensures Mirrors(layout, dest, ram', cache', mig, last)
  {
    forall c: nat, j: nat ensures Mirrored(layout, dest, ram', cache', mig, last, c, j) {
      if layout.IsPage(c, j) && (c != b || j != i) {
        assert Mirrored(layout, dest, l.ram, cache, mig, last, c, j);
        OtherPage(layout, dest, l, b, i, c, j, page);
      }
    }
  }

  /** Taking a mark off drops the page. */
  lemma Unmark(layout: Layout, dest: seq<nat>, ram: seq<seq<Page>>, src: seq<Page>, log: seq<bool>, cache: Cache,
               mig: seq<bool>, lost: map<nat, Dropped>, last: bool, b: nat, i: nat)
    requires layout.Ok() && layout.Mark(mig, b, i) && |mig| == layout.bits == |src|
    requires Synced(layout, dest, ram, src, log, mig, lost) && Mirrors(layout, dest, ram, cache, mig, last)
    ensures b < |dest| && dest[b] < |ram| && i < |ram[dest[b]]|
    ensures var p := layout.Number(b, i);
            && Synced(layout, dest, ram, src, log, mig[p := false], lost[p := Dropped(src[p], ram[dest[b]][i])])
            && Mirrors(layout, dest, ram, cache, mig[p := false], last)
            && (Cached(cache, p).None? || Cached(cache, p) == Some(ram[dest[b]][i]))
  {
    var p := layout.Number(b, i);
    var mig' := mig[p := false];
    assert Mirrored(layout, dest, ram, cache, mig, last, b, i);
    var lost' := lost[p := Dropped(src[p], ram[dest[b]][i])];
    forall c: nat, j: nat ensures Settled(layout, dest, ram, src, log, mig', lost', c, j) {
      layout.MarkCleared(mig, b, i, c, j);
      assert Settled(layout, dest, ram, src, log, mig, lost, c, j);
      if layout.IsPage(c, j) && (c != b || j != i) {
        layout.NumbersDiffer(b, i, c, j);
      }
    }
    forall c: nat, j: nat ensures Mirrored(layout, dest, ram, cache, mig', last, c, j) {
      layout.MarkCleared(mig, b, i, c, j);
      assert Mirrored(layout, dest, ram, cache, mig, last, c, j);
    }
  }

  /** What a sync of the marks with the dirty log may do to bit p of either. */
  ghost predicate MovedAt(mig: seq<bool>, log: seq<bool>, mig': seq<bool>, log': seq<bool>, p: nat) {
    p < |mig| == |log| == |mig'| == |log'| ==>
      && (mig'[p] ==> mig[p] || log[p]) && (mig[p] ==> mig'[p])
      && (log'[p] ==> log[p]) && (log[p] ==> log'[p] || mig'[p])
  }

  /** Dirty bits have only been turned into marks. */
  ghost predicate Moved(mig: seq<bool>, log: seq<bool>, mig': seq<bool>, log': seq<bool>) {
    |mig| == |log| == |mig'| == |log'| && forall p: nat :: MovedAt(mig, log, mig', log', p)
  }

  lemma MovedOn(mig0: seq<bool>, log0: seq<bool>, mig: seq<bool>, log: seq<bool>, lo: nat, hi: nat)
    requires Moved(mig0, log0, mig, log)
    ensures Moved(mig0, log0, Or(mig, log, lo, hi), Clear(log, lo, hi))
  {
    var mig', log' := Or(mig, log, lo, hi), Clear(log, lo, hi);
    forall p: nat ensures MovedAt(mig0, log0, mig', log', p) {
      assert MovedAt(mig0, log0, mig, log, p);
    }
  }

  /** The log of page i of block b has been cleared, if b is one of the first n blocks. */
  ghost predicate Drained(layout: Layout, log: seq<bool>, n: nat, b: nat, i: nat) {
    layout.IsPage(b, i) && b < n ==> layout.Number(b, i) < |log| && !log[layout.Number(b, i)]
  }

  ghost predicate AllDrained(layout: Layout, log: seq<bool>, n: nat) {
    forall b: nat, i: nat :: Drained(layout, log, n, b, i)
  }

  lemma DrainedOn(layout: Layout, log: seq<bool>, n: nat, lo: nat, hi: nat)
    requires layout.Ok() && |log| == layout.bits && n < |layout.blocks| && AllDrained(layout, log, n)
    requires lo == layout.blocks[n].base && hi >= lo + layout.blocks[n].used
    ensures AllDrained(layout, Clear(log, lo, hi), n + 1)
  {
    var log', n' := Clear(log, lo, hi), n + 1;
    forall b: nat, i: nat ensures Drained(layout, log', n', b, i) {
      assert Drained(layout, log, n, b, i);
    }
  }

  /** A sync keeps everything in order. */
  lemma SyncedStill(layout: Layout, dest: seq<nat>, ram: seq<seq<Page>>, src: seq<Page>, log: seq<bool>,
                    log': seq<bool>,
                    mig: seq<bool>, mig': seq<bool>, cache: Cache, lost: map<nat, Dropped>)
    requires Moved(mig, log, mig', log') && Synced(layout, dest, ram, src, log, mig, lost)
    requires Mirrors(layout, dest, ram, cache, mig, false)
    ensures Synced(layout, dest, ram, src, log', mig', lost) && Mirrors(layout, dest, ram, cache, mig', false)
    ensures layout.Fewer(mig', mig)
  {
    forall b: nat, i: nat ensures Settled(layout, dest, ram, src, log', mig', lost, b, i) {
      assert Settled(layout, dest, ram, src, log, mig, lost, b, i);
      if layout.IsPage(b, i) {
        assert MovedAt(mig, log, mig', log', layout.Number(b, i));
      }
    }
    forall b: nat, i: nat ensures Mirrored(layout, dest, ram, cache, mig', false, b, i) {
      assert Mirrored(layout, dest, ram, cache, mig, false, b, i);
    }
    forall b: nat, i: nat ensures layout.FewerAt(mig', mig, b, i) {
      if layout.IsPage(b, i) {
        assert MovedAt(mig, log, mig', log', layout.Number(b, i));
      }
    }
  }

  /** In the last stage less is asked of the cache. */
  lemma LastStage(layout: Layout, dest: seq<nat>, ram: seq<seq<Page>>, cache: Cache, mig: seq<bool>)
    requires Mirrors(layout, dest, ram, cache, mig, false)
    ensures Mirrors(layout, dest, ram, cache, mig, true)
  {
    forall b: nat, i: nat ensures Mirrored(layout, dest, ram, cache, mig, true, b, i) {
      assert Mirrored(layout, dest, ram, cache, mig, false, b, i);
    }
  }

  /** What the guest does is logged, so it keeps everything in order, too. */
  lemma LoggedStill(layout: Layout, used: set<nat>, dest: seq<nat>, ram: seq<seq<Page>>, src: seq<Page>, log: seq<bool>,
                    src': seq<Page>, log': seq<bool>, mig: seq<bool>, lost: map<nat, Dropped>)
    requires Logged(used, src, log, src', log') && Synced(layout, dest, ram, src, log, mig, lost)
    ensures Synced(layout, dest, ram, src', log', mig, lost)
  {
    forall b: nat, i: nat ensures Settled(layout, dest, ram, src', log', mig, lost, b, i) {
      assert Settled(layout, dest, ram, src, log, mig, lost, b, i);
    }
  }

  /** After a sync the marks are those of before and what was logged. */
  lemma SyncedMarks(layout: Layout, mig: seq<bool>, log: seq<bool>, mig': seq<bool>, log': seq<bool>)
    requires Moved(mig, log, mig', log') && AllDrained(layout, log', |layout.blocks|)
    ensures layout.Fewer(mig', Or(mig, log, 0, |mig|)) && layout.Fewer(Or(mig, log, 0, |mig|), mig')
  {
    var all := Or(mig, log, 0, |mig|);
    forall b: nat, i: nat ensures layout.FewerAt(mig', all, b, i) && layout.FewerAt(all, mig', b, i) {
      if layout.IsPage(b, i) {
        assert MovedAt(mig, log, mig', log', layout.Number(b, i)) && Drained(layout, log', |layout.blocks|, b, i);
      }
    }
  }

  /** Page i of block b is at the destination as it is here if and only if it is not one that was dropped
      when it was not. */
  ghost predicate Same(layout: Layout, dest: seq<nat>, ram: seq<seq<Page>>, src: seq<Page>, lost: map<nat, Dropped>,
                       b: nat, i: nat) {
    layout.IsPage(b, i) ==>
      var p := layout.Number(b, i);
      && b < |dest| && dest[b] < |ram| && i < |ram[dest[b]]| && p < |src|
      && (ram[dest[b]][i] == src[p] <==> !(p in lost && lost[p].here != lost[p].there))
  }

  /** Nothing marked and nothing logged. */
  lemma AllSent(layout: Layout, dest: seq<nat>, ram: seq<seq<Page>>, src: seq<Page>, log: seq<bool>, mig: seq<bool>,
                lost: map<nat, Dropped>)
    requires Synced(layout, dest, ram, src, log, mig, lost) && layout.NothingMarked(mig)
    requires AllDrained(layout, log, |layout.blocks|)
    ensures forall b: nat, i: nat :: Same(layout, dest, ram, src, lost, b, i)
  {
    forall b: nat, i: nat ensures Same(layout, dest, ram, src, lost, b, i) {
      assert Settled(layout, dest, ram, src, log, mig, lost, b, i);
      assert Drained(layout, log, |layout.blocks|, b, i);
      assert layout.NotMarked(mig, b, i);
    }
  }

  /** Pages have only been taken off the list of those dropped. */
  ghost predicate Shrinks(lost: map<nat, Dropped>, lost': map<nat, Dropped>) {
    forall p | p in lost' :: p in lost && lost'[p] == lost[p]
  }

  lemma ShrinksSize(lost: map<nat, Dropped>, lost': map<nat, Dropped>)
    requires Shrinks(lost, lost')
    ensures |lost'| <= |lost|
  {
    assert lost'.Keys <= lost.Keys;
    assert lost.Keys == lost'.Keys + (lost.Keys - lost'.Keys);
    assert |lost.Keys| == |lost'.Keys| + |lost.Keys - lost'.Keys|;
  }
}
