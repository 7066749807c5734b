/** RAM blocks and the order in which ram_find_and_save_block looks for marked pages (arch_init.c). */
module RamSearch {
  import opened Prelude
  import opened RamWire
  import opened RamBitmap

  /** A RAM block: name, number of its first page, number of used pages. */
  datatype Block = Block(id: Bytes, base: nat, used: nat)

  /** The RAM blocks; ramPages counts the pages with the gaps, bits is the size of the bitmaps. */
  datatype Layout = Layout(blocks: seq<Block>, ramPages: nat, bits: nat) {

    ghost predicate Ok() {
      && bits % BITS_PER_LONG == 0 && ramPages <= bits
      && (forall b | 0 <= b < |blocks| ::
            |blocks[b].id| < 256 && blocks[b].used < 0x10_0000_0000_0000 && blocks[b].base + blocks[b].used <= ramPages)
      && (forall b: nat, c: nat :: ApartAt(b, c))
    }

    ghost predicate ApartAt(b: nat, c: nat) {
      b < c < |blocks| ==> Apart(blocks[b], blocks[c])
    }

    predicate IsPage(b: nat, i: nat) {
      b < |blocks| && i < blocks[b].used
    }

    /** The number of page i of block b. */
    function Number(b: nat, i: nat): nat
      requires b < |blocks|
    {
      blocks[b].base + i
    }

    /** Page i of block b is marked in m. */
    predicate Mark(m: seq<bool>, b: nat, i: nat) {
      IsPage(b, i) && Number(b, i) < |m| && m[Number(b, i)]
    }

    lemma NumbersDiffer(b: nat, i: nat, c: nat, j: nat)
      requires Ok() && IsPage(b, i) && IsPage(c, j) && (b != c || i != j)
      ensures Number(b, i) != Number(c, j) && (b != c ==> blocks[b].id != blocks[c].id)
    {
      assert ApartAt(b, c) && ApartAt(c, b);
    }

    lemma MarkCleared(m: seq<bool>, b: nat, i: nat, c: nat, j: nat)
      requires Ok() && |m| == bits && IsPage(b, i)
      ensures Mark(m[Number(b, i) := false], c, j) <==> Mark(m, c, j) && !(c == b && j == i)
    {
      if IsPage(c, j) && (c != b || j != i) {
        NumbersDiffer(b, i, c, j);
      }
    }

    /** What is marked in m is marked in m0. */
    ghost predicate Fewer(m0: seq<bool>, m: seq<bool>) {
      forall b: nat, i: nat :: FewerAt(m0, m, b, i)
    }

    ghost predicate FewerAt(m0: seq<bool>, m: seq<bool>, b: nat, i: nat) {
      Mark(m, b, i) ==> Mark(m0, b, i)
    }

    ghost predicate NothingMarked(m: seq<bool>) {
      forall b: nat, i: nat :: NotMarked(m, b, i)
    }

    ghost predicate NotMarked(m: seq<bool>, b: nat, i: nat) {
      !Mark(m, b, i)
    }

    ghost predicate OnlyMarked(m: seq<bool>, b: nat, i: nat) {
      Mark(m, b, i) && forall c: nat, j: nat :: OnlyAt(m, b, i, c, j)
    }

    ghost predicate OnlyAt(m: seq<bool>, b: nat, i: nat, c: nat, j: nat) {
      Mark(m, c, j) ==> c == b && j == i
    }

    ghost predicate MarkedAhead(m: seq<bool>, b: nat, i: nat, c: nat, j: nat) {
      IsPage(c, j) && Before(b, i, c, j) ==> Mark(m, c, j)
    }

    /** Every page after page i of block b is marked. */
    ghost predicate AllAhead(m: seq<bool>, b: nat, i: nat) {
      forall c: nat, j: nat :: MarkedAhead(m, b, i, c, j)
    }

    ghost predicate PageMarked(m: seq<bool>, b: nat, i: nat) {
      IsPage(b, i) ==> Mark(m, b, i)
    }

    ghost predicate AllMarked(m: seq<bool>) {
      forall b: nat, i: nat :: PageMarked(m, b, i)
    }

    /** Taking a mark off keeps those ahead of it. */
    lemma AheadOf(m: seq<bool>, b0: nat, o0: nat, b: nat, i: nat)
      requires Ok() && |m| == bits && IsPage(b, i) && !Before(b, i, b0, o0)
      requires AllAhead(m, b0, o0) || AllMarked(m)
      ensures AllAhead(m[Number(b, i) := false], b, i)
    {
      var m' := m[Number(b, i) := false];
      forall c: nat, j: nat ensures MarkedAhead(m', b, i, c, j) {
        MarkCleared(m, b, i, c, j);
        assert PageMarked(m, c, j) || MarkedAhead(m, b0, o0, c, j);
      }
    }
  }

  predicate Apart(x: Block, y: Block) {
    x.id != y.id && (x.base + x.used <= y.base || y.base + y.used <= x.base)
  }

  /** Page i of block b comes before page j of block c. */
  predicate Before(b: nat, i: nat, c: nat, j: nat) {
    b < c || (b == c && i < j)
  }

  ghost function Range(base: nat, n: nat): set<nat> {
    set p: nat | base <= p < base + n && InRange(base, n, p)
  }

  predicate InRange(base: nat, n: nat, p: nat) {
    base <= p < base + n
  }

  lemma {:induction false} RangeSize(base: nat, n: nat)
    ensures |Range(base, n)| == n
  {
    if n == 0 {
      assert Range(base, n) == {};
    } else {
      RangeSize(base, n - 1);
      assert Range(base, n) == Range(base, n - 1) + {base + n - 1};
    }
  }

  /** The numbers of the pages of the blocks. */
  ghost function PageSet(blocks: seq<Block>): set<nat> {
    if blocks == [] then {}
    else var n := |blocks| - 1; PageSet(blocks[..n]) + Range(blocks[n].base, blocks[n].used)
  }

  /** ram_bytes_total, in pages. */
  function Total(blocks: seq<Block>): nat {
    if blocks == [] then 0 else Total(blocks[..|blocks| - 1]) + blocks[|blocks| - 1].used
  }

  /** p is the number of a page of one of the blocks. */
  ghost predicate OfBlock(blocks: seq<Block>, p: nat) {
    exists b | 0 <= b < |blocks| :: InRange(blocks[b].base, blocks[b].used, p)
  }

  /** Blocks do not overlap, so their pages are as many as their lengths add up to. */
  lemma {:induction false} PageCount(blocks: seq<Block>)
    requires forall b, c | 0 <= b < c < |blocks| :: Apart(blocks[b], blocks[c])
    ensures |PageSet(blocks)| == Total(blocks)
    ensures forall p: nat :: p in PageSet(blocks) <==> OfBlock(blocks, p)
  {
    if blocks != [] {
      var n := |blocks| - 1;
      var rest, last := blocks[..n], blocks[n];
      PageCount(rest);
      RangeSize(last.base, last.used);
      forall p: nat ensures p in PageSet(blocks) <==> OfBlock(blocks, p) {
        if OfBlock(blocks, p) && !InRange(last.base, last.used, p) {
          var b :| 0 <= b < |blocks| && InRange(blocks[b].base, blocks[b].used, p);
          assert InRange(rest[b].base, rest[b].used, p);
        } else if OfBlock(rest, p) {
          var b :| 0 <= b < |rest| && InRange(rest[b].base, rest[b].used, p);
          assert InRange(blocks[b].base, blocks[b].used, p);
        }
      }
      forall p | p in PageSet(rest) ensures p !in Range(last.base, last.used) {
        var b :| 0 <= b < |rest| && InRange(rest[b].base, rest[b].used, p);
        assert Apart(blocks[b], blocks[n]);
      }
      assert PageSet(rest) !! Range(last.base, last.used);
    }
  }

  /** Where a search began: last_seen_block, last_offset, the marks and the stage then. */
  datatype Origin = Origin(layout: Layout, seen: Option<nat>, offset: nat, marks: seq<bool>, bulk: bool) {

    function Block(): (b: nat) {
      if seen.None? then 0 else seen.value
    }

    /** In the bulk stage the search skips the page it starts from. */
    predicate Skips(c: nat, j: nat) {
      bulk && offset > 0 && c == Block() && j == offset
    }

    /** More marks do no harm. */
    lemma StillOk(some: nat, m: seq<bool>)
      requires Ok(some) && |m| == layout.bits && layout.Fewer(m, marks)
      ensures this.(marks := m).Ok(some)
    {
      if bulk {
        forall c: nat, j: nat
          ensures seen.None? ==> layout.PageMarked(m, c, j)
          ensures seen.Some? ==> layout.MarkedAhead(m, seen.value, offset, c, j)
        {
          assert layout.FewerAt(m, marks, c, j);
          assert seen.None? ==> layout.PageMarked(marks, c, j);
          assert seen.Some? ==> layout.MarkedAhead(marks, seen.value, offset, c, j);
        }
      }
    }

    /** In the bulk stage everything ahead is marked. */
    ghost predicate Ok(some: nat) {
      && layout.Ok() && |marks| == layout.bits && layout.IsPage(some, 0)
      && match seen
         case None => bulk && offset == 0 && layout.AllMarked(marks)
         case Some(b) =>
           && b < |layout.blocks| && offset <= layout.blocks[b].used
           && (bulk ==> layout.IsPage(b, offset) && layout.AllAhead(marks, b, offset))
    }

    /** The one state in which a search drops a page: the bulk stage has come to the last page of
        all, and that page is the only one marked. */
    ghost predicate Losing() {
      bulk && seen.Some? && offset > 0 && layout.OnlyMarked(marks, seen.value, offset)
    }

    /** What the search has passed when it stands at page i of block b; complete says whether it
        has wrapped around. */
    predicate Passed(complete: bool, b: nat, i: nat, c: nat, j: nat) {
      && !Skips(c, j)
      && if complete then !Before(c, j, Block(), offset) || Before(c, j, b, i)
         else !Before(c, j, Block(), offset) && Before(c, j, b, i)
    }

    /** Nothing passed is marked. */
    ghost predicate Scanned(m: seq<bool>, complete: bool, b: nat, i: nat) {
      forall c: nat, j: nat :: ScannedAt(m, complete, b, i, c, j)
    }

    ghost predicate ScannedAt(m: seq<bool>, complete: bool, b: nat, i: nat, c: nat, j: nat) {
      layout.Mark(m, c, j) ==> !Passed(complete, b, i, c, j)
    }

    /** The state of the search at page i of block b, the marks being m now. */
    ghost predicate At(some: nat, m: seq<bool>, complete: bool, b: nat, i: nat) {
      && Ok(some) && |m| == layout.bits && layout.Fewer(marks, m) && b < |layout.blocks| && i <= layout.blocks[b].used
      && (bulk ==> m == marks && (i == 0 || (b == Block() && i == offset)))
      && (complete ==> seen.Some? && b <= Block() && (b == Block() ==> i < offset || i == 0))
      && (!complete ==> !Before(b, i, Block(), offset))
      && Scanned(m, complete, b, i)
    }

    /** What migration_bitmap_find_and_reset_dirty finds from page i of block b on: page o, or none. */
    ghost predicate Finds(m: seq<bool>, complete: bool, b: nat, i: nat, o: nat)
      requires b < |layout.blocks|
    {
      && i <= o
      && if bulk && !complete && i > 0 then o == i + 1
         else o <= layout.blocks[b].used && forall j: nat | i <= j < o :: layout.NotMarked(m, b, j)
    }

    lemma ScanOn(m: seq<bool>, m': seq<bool>, complete: bool, b: nat, i: nat, o: nat)
      requires Scanned(m, complete, b, i) && b < |layout.blocks| && i <= o
      requires layout.Fewer(m, m')
      requires forall j: nat | i <= j < o && !Skips(b, j) :: layout.NotMarked(m, b, j)
      ensures Scanned(m', complete, b, o)
    {
      forall c: nat, j: nat ensures ScannedAt(m', complete, b, o, c, j) {
        assert layout.FewerAt(m, m', c, j) && ScannedAt(m, complete, b, i, c, j);
        assert c == b && i <= j < o && !Skips(b, j) ==> layout.NotMarked(m, b, j);
      }
    }

    /** No page is left in the block: the search stands at the start of the next one, or wraps. */
    lemma NextBlock(some: nat, m: seq<bool>, complete: bool, b: nat, i: nat, o: nat)
      requires At(some, m, complete, b, i) && Finds(m, complete, b, i, o) && o >= layout.blocks[b].used
      requires !(complete && b == Block())
      ensures b + 1 < |layout.blocks| ==> At(some, m, complete, b + 1, 0)
      ensures b + 1 == |layout.blocks| ==> !complete && At(some, m, true, 0, 0)
    {
      var n, next := layout.blocks[b].used, b + 1;
      ScanOn(m, m, complete, b, i, n);
      forall c: nat, j: nat
        ensures ScannedAt(m, complete, next, 0, c, j)
        ensures b + 1 == |layout.blocks| && !complete ==> ScannedAt(m, true, 0, 0, c, j)
      {
        assert ScannedAt(m, complete, b, n, c, j);
      }
      assert seen.None? ==> layout.PageMarked(m, some, 0);
      assert ScannedAt(m, complete, b, n, some, 0);
    }

    /** Page j of block c is marked and the bulk stage has not come to it. */
    ghost predicate Ahead(c: nat, j: nat) {
      bulk && layout.Mark(marks, c, j) && !Before(c, j, Block(), offset) && !Skips(c, j)
    }

    /** A search does not pass a page ahead of it: it stops there at the latest, in the bulk stage. */
    ghost predicate Reaches(complete: bool, b: nat, o: nat, c: nat, j: nat) {
      Ahead(c, j) ==> !complete && !Before(c, j, b, o)
    }

    ghost predicate InTime(complete: bool, b: nat, o: nat) {
      forall c: nat, j: nat :: Reaches(complete, b, o, c, j)
    }

    lemma StopsInTime(some: nat, m: seq<bool>, complete: bool, b: nat, i: nat, o: nat)
      requires At(some, m, complete, b, i) && Finds(m, complete, b, i, o)
      requires layout.IsPage(b, o) || complete
      ensures InTime(complete, b, o)
    {
      forall c: nat, j: nat ensures Reaches(complete, b, o, c, j) {
        if Ahead(c, j) {
          assert ScannedAt(m, complete, b, i, c, j);
          assert c == b && i <= j < o && !(bulk && !complete && i > 0) ==> layout.NotMarked(m, b, j);
        }
      }
    }

    /** Where a search may end, the marks being m and the stage bulk' then: it has sent a page that was
        marked, or nothing is marked. */
    ghost predicate Stops(some: nat, m: seq<bool>, bulk': bool, b: nat, i: nat, sent: bool) {
      && Origin(layout, Some(b), i, m, bulk').Ok(some) && layout.Fewer(marks, m) && InTime(!bulk', b, i)
      && (sent ==> layout.Mark(marks, b, i) && !layout.Mark(m, b, i) && !Losing())
      && (!sent ==> layout.NothingMarked(m) && !bulk') && (bulk' ==> bulk)
    }

    /** Where a search may go on. */
    ghost predicate Goes(some: nat, m: seq<bool>, bulk': bool, complete: bool, b: nat, i: nat) {
      At(some, m, complete, b, i) && bulk' == (bulk && !complete)
    }

    /** Whether a search is losing depends on the marks only. */
    lemma LosingSame(m: seq<bool>)
      requires layout.Fewer(m, marks) && layout.Fewer(marks, m)
      ensures this.(marks := m).Losing() <==> Losing()
    {
      if seen.Some? {
        assert layout.FewerAt(m, marks, seen.value, offset) && layout.FewerAt(marks, m, seen.value, offset);
        forall c: nat, j: nat
          ensures layout.OnlyAt(m, seen.value, offset, c, j) <==> layout.OnlyAt(marks, seen.value, offset, c, j)
        {
          assert layout.FewerAt(m, marks, c, j) && layout.FewerAt(marks, m, c, j);
        }
      }
    }

    /** A search that finds a page to send did not begin in the losing state. */
    lemma FoundNotLosing(some: nat, m: seq<bool>, complete: bool, b: nat, i: nat, o: nat)
      requires At(some, m, complete, b, i) && Finds(m, complete, b, i, o) && layout.Mark(m, b, o)
      requires !(complete && b == Block() && o >= offset)
      ensures !Losing()
    {
      assert layout.FewerAt(marks, m, b, o) && ScannedAt(m, complete, b, i, b, o);
      assert Losing() ==> layout.OnlyAt(marks, seen.value, offset, b, o);
    }

    /** A search goes on when the page it found turns out to be unmodified. */
    lemma GoOn(some: nat, m: seq<bool>, complete: bool, b: nat, i: nat, o: nat)
      requires At(some, m, complete, b, i) && Finds(m, complete, b, i, o) && layout.IsPage(b, o) && !bulk
      requires !(complete && b == Block() && o >= offset)
      ensures At(some, m[layout.Number(b, o) := false], complete, b, o)
    {
      var m' := m[layout.Number(b, o) := false];
      forall c: nat, j: nat ensures layout.FewerAt(m, m', c, j) && layout.FewerAt(marks, m', c, j) {
        layout.MarkCleared(m, b, o, c, j);
        assert layout.FewerAt(marks, m, c, j);
      }
      ScanOn(m, m', complete, b, i, o);
    }

    /** A search that comes round to where it began drops a page if and only if it began in the
        losing state; then nothing is marked any more. */
    lemma ComeRound(some: nat, m: seq<bool>, b: nat, i: nat, o: nat)
      requires At(some, m, true, b, i) && Finds(m, true, b, i, o) && b == Block() && o >= offset
      requires layout.IsPage(b, o) ==> layout.Mark(m, b, o)
      ensures layout.IsPage(b, o) <==> Losing()
      ensures layout.IsPage(b, o) ==> o == offset && layout.NothingMarked(m[layout.Number(b, o) := false])
      ensures !layout.IsPage(b, o) ==> layout.NothingMarked(m)
    {
      forall c: nat, j: nat | layout.Mark(m, c, j) ensures c == b && j == o && Skips(c, j) {
        assert ScannedAt(m, true, b, i, c, j);
        assert c == b && i <= j < o ==> layout.NotMarked(m, b, j);
      }
      if layout.IsPage(b, o) {
        var m' := m[layout.Number(b, o) := false];
        forall c: nat, j: nat ensures layout.NotMarked(m', c, j) && layout.OnlyAt(marks, b, o, c, j) {
          layout.MarkCleared(m, b, o, c, j);
        }
        assert layout.FewerAt(marks, m, b, o);
      } else {
        assert Losing() ==> layout.Mark(m, b, offset);
      }
    }
  }
}
