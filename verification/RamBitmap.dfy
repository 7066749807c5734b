/** The bitmaps over the pages of RAM: the dirty log of the guest and the pages still to be sent
    (arch_init.c, migration_bitmap_set_dirty and migration_bitmap_sync_range). */
module RamBitmap {
  const BITS_PER_LONG := 64

  /** The used pages whose bit is set. */
  ghost function Dirty(used: set<nat>, mig: seq<bool>): set<nat> {
    set page | page in used && page < |mig| && mig[page]
  }

  lemma ClearDirty(used: set<nat>, mig: seq<bool>, page: nat)
    requires page < |mig| && page in used && mig[page]
    ensures |Dirty(used, mig)| > 0 && |Dirty(used, mig[page := false])| == |Dirty(used, mig)| - 1
    ensures Dirty(used, mig[page := false]) == Dirty(used, mig) - {page}
  {
    assert Dirty(used, mig[page := false]) == Dirty(used, mig) - {page};
    assert page in Dirty(used, mig);
  }

  lemma SetDirty(used: set<nat>, mig: seq<bool>, page: nat)
    requires page < |mig| && page in used && !mig[page]
    ensures |Dirty(used, mig[page := true])| == |Dirty(used, mig)| + 1
  {
    assert Dirty(used, mig[page := true]) == Dirty(used, mig) + {page};
  }

  // Synchronising a range of pages with the dirty log.

  function Or(mig: seq<bool>, log: seq<bool>, lo: nat, hi: nat): (r: seq<bool>)
    requires |mig| == |log|
    ensures |r| == |mig|
  {
    seq(|mig|, p requires 0 <= p < |mig| => mig[p] || (lo <= p < hi && log[p]))
  }

  function Clear(log: seq<bool>, lo: nat, hi: nat): (r: seq<bool>)
    ensures |r| == |log|
  {
    seq(|log|, p requires 0 <= p < |log| => log[p] && !(lo <= p < hi))
  }

  /** ctpopl of log & ~mig over [lo, hi). */
  function NewBits(mig: seq<bool>, log: seq<bool>, lo: nat, hi: nat): (n: nat)
    requires lo <= hi <= |mig| == |log|
    decreases hi - lo
  {
    if lo == hi then 0
    else (if log[hi - 1] && !mig[hi - 1] then 1 else 0) + NewBits(mig, log, lo, hi - 1)
  }

  lemma {:induction false} NewBitsSplit(mig: seq<bool>, log: seq<bool>, lo: nat, mid: nat, hi: nat)
    requires lo <= mid <= hi <= |mig| == |log|
    ensures NewBits(mig, log, lo, hi) == NewBits(mig, log, lo, mid) + NewBits(mig, log, mid, hi)
    decreases hi - mid
  {
    if mid < hi {
      NewBitsSplit(mig, log, lo, mid, hi - 1);
    }
  }

  /** The counts agree when no bits outside [lo, hi) matter. */
  lemma {:induction false} NewBitsSame(mig: seq<bool>, log: seq<bool>, mig': seq<bool>, log': seq<bool>, lo: nat,
                                       hi: nat)
    requires lo <= hi <= |mig| == |log| == |mig'| == |log'|
    requires forall p | lo <= p < hi :: mig[p] == mig'[p] && log[p] == log'[p]
    ensures NewBits(mig, log, lo, hi) == NewBits(mig', log', lo, hi)
    decreases hi - lo
  {
    if lo < hi {
      NewBitsSame(mig, log, mig', log', lo, hi - 1);
    }
  }

  lemma {:induction false} NoNewBits(mig: seq<bool>, log: seq<bool>, lo: nat, hi: nat)
    requires lo <= hi <= |mig| == |log| && forall p | lo <= p < hi :: !log[p]
    ensures NewBits(mig, log, lo, hi) == 0 && Or(mig, log, lo, hi) == mig && Clear(log, lo, hi) == log
    decreases hi - lo
  {
    if lo < hi {
      NoNewBits(mig, log, lo, hi - 1);
    }
  }

  /** Syncing [lo, mid) and then [mid, hi) is syncing [lo, hi). */
  lemma SyncCompose(mig: seq<bool>, log: seq<bool>, lo: nat, mid: nat, hi: nat)
    requires lo <= mid <= hi <= |mig| == |log|
    ensures var m, l := Or(mig, log, lo, mid), Clear(log, lo, mid);
            && Or(m, l, mid, hi) == Or(mig, log, lo, hi)
            && Clear(l, mid, hi) == Clear(log, lo, hi)
            && NewBits(mig, log, lo, mid) + NewBits(m, l, mid, hi) == NewBits(mig, log, lo, hi)
  {
    var m, l := Or(mig, log, lo, mid), Clear(log, lo, mid);
    NewBitsSplit(mig, log, lo, mid, hi);
    NewBitsSame(mig, log, m, l, mid, hi);
  }

  /** Bits of the log lie on used pages or on gaps, and gaps are marked from the start, so that
      every newly marked page is a used one. */
  ghost predicate GapsMarked(used: set<nat>, mig: seq<bool>, log: seq<bool>) {
    && |mig| == |log|
    && forall p: nat | p < |mig| && p !in used :: mig[p] || !log[p]
  }

  /** The counter stays the number of marked used pages. */
  lemma {:induction false} SyncCount(used: set<nat>, mig: seq<bool>, log: seq<bool>, lo: nat, hi: nat)
    requires lo <= hi <= |mig| && GapsMarked(used, mig, log)
    ensures |Dirty(used, Or(mig, log, lo, hi))| == |Dirty(used, mig)| + NewBits(mig, log, lo, hi)
    ensures GapsMarked(used, Or(mig, log, lo, hi), Clear(log, lo, hi))
    decreases hi - lo
  {
    if lo == hi {
      assert Or(mig, log, lo, hi) == mig;
    } else {
      var m := Or(mig, log, lo, hi - 1);
      SyncCount(used, mig, log, lo, hi - 1);
      if log[hi - 1] && !mig[hi - 1] {
        assert Or(mig, log, lo, hi) == m[hi - 1 := true];
        SetDirty(used, m, hi - 1);
      } else {
        assert Or(mig, log, lo, hi) == m;
      }
    }
  }

  /** The word-at-a-time loop of migration_bitmap_sync_range over words [k0, k0 + n). */
  method SyncWords(mig0: seq<bool>, log0: seq<bool>, count0: int, k0: nat, n: nat)
    returns (mig: seq<bool>, log: seq<bool>, count: int)
    requires |mig0| == |log0| && (k0 + n) * BITS_PER_LONG <= |mig0|
    ensures var lo, hi := k0 * BITS_PER_LONG, (k0 + n) * BITS_PER_LONG;
            && mig == Or(mig0, log0, lo, hi) && log == Clear(log0, lo, hi)
            && count == count0 + NewBits(mig0, log0, lo, hi)
  {
    mig, log, count := mig0, log0, count0;
    ghost var lo := k0 * BITS_PER_LONG;
    var k := k0;
    assert Or(mig0, log0, lo, lo) == mig0 && Clear(log0, lo, lo) == log0;
    while k < k0 + n
      invariant k0 <= k <= k0 + n
      invariant mig == Or(mig0, log0, lo, k * BITS_PER_LONG) && log == Clear(log0, lo, k * BITS_PER_LONG)
      invariant count == count0 + NewBits(mig0, log0, lo, k * BITS_PER_LONG)
    {
      var at := k * BITS_PER_LONG;
      SyncCompose(mig0, log0, lo, at, at + BITS_PER_LONG);
      if forall p | at <= p < at + BITS_PER_LONG :: !log[p] {
        NoNewBits(mig, log, at, at + BITS_PER_LONG);
      } else {
        count := count + NewBits(mig, log, at, at + BITS_PER_LONG);
        mig, log := Or(mig, log, at, at + BITS_PER_LONG), Clear(log, at, at + BITS_PER_LONG);
      }
      k := k + 1;
    }
  }

  /** The page-at-a-time loop of migration_bitmap_sync_range. */
  method SyncPages(mig0: seq<bool>, log0: seq<bool>, count0: int, start: nat, length: nat)
    returns (mig: seq<bool>, log: seq<bool>, count: int)
    requires |mig0| == |log0| && start + length <= |mig0|
    ensures mig == Or(mig0, log0, start, start + length) && log == Clear(log0, start, start + length)
    ensures count == count0 + NewBits(mig0, log0, start, start + length)
  {
    mig, log, count := mig0, log0, count0;
    var addr := 0;
    while addr < length
      invariant 0 <= addr <= length
      invariant mig == Or(mig0, log0, start, start + addr) && log == Clear(log0, start, start + addr)
      invariant count == count0 + NewBits(mig0, log0, start, start + addr)
    {
      if log[start + addr] {
        log := log[start + addr := false];
        if !mig[start + addr] {
          mig := mig[start + addr := true];
          count := count + 1;
        }
      }
      addr := addr + 1;
    }
  }

  /** Where the sync of length pages from start on ends: whole words are synced if start is aligned. */
  function SyncEnd(start: nat, length: nat): (end: nat)
    ensures start + length <= end
    ensures forall n: nat | n % BITS_PER_LONG == 0 && start + length <= n :: end <= n
  {
    if start % BITS_PER_LONG == 0 then start + (length + BITS_PER_LONG - 1) / BITS_PER_LONG * BITS_PER_LONG
      else start + length
  }

  /** migration_bitmap_sync_range: whichever loop runs, all of [start, start + length) is synced,
      nothing before start, and past the end only the rest of a word. */
  method SyncRange(mig0: seq<bool>, log0: seq<bool>, count0: int, start: nat, length: nat)
    returns (mig: seq<bool>, log: seq<bool>, count: int)
    requires |mig0| == |log0| && |mig0| % BITS_PER_LONG == 0 && start + length <= |mig0|
    ensures var end := SyncEnd(start, length);
            && mig == Or(mig0, log0, start, end) && log == Clear(log0, start, end)
            && count == count0 + NewBits(mig0, log0, start, end)
  {
    var page := start / BITS_PER_LONG;
    if page * BITS_PER_LONG == start {
      var nr := (length + BITS_PER_LONG - 1) / BITS_PER_LONG;
      mig, log, count := SyncWords(mig0, log0, count0, page, nr);
    } else {
      mig, log, count := SyncPages(mig0, log0, count0, start, length);
    }
  }
}
