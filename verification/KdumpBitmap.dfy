/** The pages of a kdump-compressed dump and its two bitmaps (dump.c, get_next_page, set_dump_bitmap,
    write_dump_bitmap). */
module KdumpBitmap {
  import opened Prelude

  const TARGET_PAGE_SIZE := 4096
  const CHAR_BIT := 8
  const BUFSIZE_BITMAP := 4096
  const PFN_BUFBITMAP := 32768

  type Page = seq<byte>

  /** A block of guest memory: its first page frame number, and its pages. */
  datatype PhysBlock = PhysBlock(first: nat, pages: seq<Page>) {

    predicate Has(pfn: nat) {
      first <= pfn < first + |pages|
    }
  }

  /** The blocks are not empty, and sorted by address. */
  ghost predicate BlocksOk(blocks: seq<PhysBlock>) {
    && blocks != [] && (forall b | 0 <= b < |blocks| :: blocks[b].pages != [])
    && (forall b, c | 0 <= b < c < |blocks| :: blocks[b].first + |blocks[b].pages| <= blocks[c].first)
  }

  /** The page is in guest memory. */
  ghost predicate InGuest(blocks: seq<PhysBlock>, pfn: nat) {
    exists b :: 0 <= b < |blocks| && blocks[b].Has(pfn)
  }

  /** How many pages the blocks before block b have. */
  function PagesBefore(blocks: seq<PhysBlock>, b: nat): nat
    requires b <= |blocks|
  {
    if b == 0 then 0 else PagesBefore(blocks, b - 1) + |blocks[b - 1].pages|
  }

  /** Where get_next_page is: *blockptr and *pfnptr. */
  datatype Cursor = Start | At(block: nat, pfn: nat) {

    ghost predicate Ok(blocks: seq<PhysBlock>) {
      At? ==> block < |blocks| && blocks[block].Has(pfn)
    }

    /** How many pages have been returned. */
    function Count(blocks: seq<PhysBlock>): nat
      requires At? ==> block < |blocks| && blocks[block].Has(pfn)
    {
      if Start? then 0 else PagesBefore(blocks, block) + (pfn - blocks[block].first) + 1
    }

    /** The pages up to here; before the first one, none. */
    ghost predicate Reached(pfn': nat) {
      At? && pfn' <= pfn
    }
  }

  /** get_next_page: goes through the pages of the guest in ascending order, without leaving one out. */
  method GetNextPage(blocks: seq<PhysBlock>, c: Cursor) returns (more: bool, c': Cursor)
    requires BlocksOk(blocks) && c.Ok(blocks)
    ensures more ==> c'.At? && c'.Ok(blocks) && InGuest(blocks, c'.pfn) && !c.Reached(c'.pfn)
    ensures more ==> c'.Count(blocks) == c.Count(blocks) + 1 <= PagesBefore(blocks, |blocks|)
    ensures more ==> forall p: nat | InGuest(blocks, p) && c'.Reached(p) && p != c'.pfn :: c.Reached(p)
    ensures !more ==> c.At? && c.Count(blocks) == PagesBefore(blocks, |blocks|)
    ensures !more ==> c.block == |blocks| - 1 && c.pfn == blocks[c.block].first + |blocks[c.block].pages| - 1
    ensures !more ==> forall p: nat | InGuest(blocks, p) :: c.Reached(p)
  {
    more := true;
    if c.Start? {
      c' := At(0, blocks[0].first);
      CountGrows(blocks, 1);
    } else if blocks[c.block].Has(c.pfn + 1) {
      c' := At(c.block, c.pfn + 1);
      CountGrows(blocks, c.block + 1);
    } else if c.block + 1 < |blocks| {
      c' := At(c.block + 1, blocks[c.block + 1].first);
      CountGrows(blocks, c.block + 2);
    } else {
      LastReached(blocks, c);
      return false, c;
    }
    assert blocks[c'.block].Has(c'.pfn);
    NoneBetween(blocks, c, c');
  }

  /** No page lies between a cursor and the next one. */
  lemma NoneBetween(blocks: seq<PhysBlock>, c: Cursor, c': Cursor)
    requires BlocksOk(blocks) && c.Ok(blocks) && c'.At? && c'.Ok(blocks)
    requires c.Start? ==> c' == At(0, blocks[0].first)
    requires c.At? ==> (c' == At(c.block, c.pfn + 1))
                       || (c.block + 1 < |blocks| && c.pfn + 1 == blocks[c.block].first + |blocks[c.block].pages|
                           && c' == At(c.block + 1, blocks[c.block + 1].first))
    ensures forall p: nat | InGuest(blocks, p) && c'.Reached(p) && p != c'.pfn :: c.Reached(p)
  {
    forall p: nat | InGuest(blocks, p) && c'.Reached(p) && p != c'.pfn ensures c.Reached(p) {
      var b :| 0 <= b < |blocks| && blocks[b].Has(p);
    }
  }

  lemma LastReached(blocks: seq<PhysBlock>, c: Cursor)
    requires BlocksOk(blocks) && c.At? && c.Ok(blocks)
    requires c.block == |blocks| - 1 && c.pfn == blocks[c.block].first + |blocks[c.block].pages| - 1
    ensures forall p: nat | InGuest(blocks, p) :: c.Reached(p)
  {
    forall p: nat | InGuest(blocks, p) ensures c.Reached(p) {
      var b :| 0 <= b < |blocks| && blocks[b].Has(p);
      if b < c.block {
        assert blocks[b].first + |blocks[b].pages| <= blocks[c.block].first;
      }
    }
  }

  lemma {:induction false} CountGrows(blocks: seq<PhysBlock>, b: nat)
    requires b <= |blocks|
    ensures PagesBefore(blocks, b) <= PagesBefore(blocks, |blocks|)
    decreases |blocks| - b
  {
    if b < |blocks| {
      CountGrows(blocks, b + 1);
    }
  }

  type Bits = seq<bool>

  /** 1u << bit. */
  function Mask(bit: nat): bv8
    requires bit < CHAR_BIT
  {
    match bit
    case 0 => 0x01
    case 1 => 0x02
    case 2 => 0x04
    case 3 => 0x08
    case 4 => 0x10
    case 5 => 0x20
    case 6 => 0x40
    case _ => 0x80
  }

  predicate BitIn(b: bv8, bit: nat)
    requires bit < CHAR_BIT
  {
    b & Mask(bit) != 0
  }

  function PutIn(b: bv8, bit: nat, value: bool): bv8
    requires bit < CHAR_BIT
  {
    if value then b | Mask(bit) else b & !Mask(bit)
  }

  /** Setting or clearing a bit of a byte leaves the other bits. */
  lemma OtherBits(b: bv8, bit: nat, value: bool, other: nat)
    requires bit < CHAR_BIT && other < CHAR_BIT
    ensures BitIn(PutIn(b, bit, value), other) == if other == bit then value else BitIn(b, other)
  {
  }

  /** The bits of a buffer, those of a byte from the lowest up. */
  ghost function Unpack(buf: seq<bv8>): (bits: Bits)
    ensures |bits| == CHAR_BIT * |buf|
  {
    seq(CHAR_BIT * |buf|, k requires 0 <= k < CHAR_BIT * |buf| => BitIn(buf[k / CHAR_BIT], k % CHAR_BIT))
  }

  method PutBit(buf: seq<bv8>, k: nat, value: bool) returns (buf': seq<bv8>)
    requires k < CHAR_BIT * |buf|
    ensures |buf'| == |buf| && Unpack(buf') == Unpack(buf)[k := value]
  {
    buf' := buf[k / CHAR_BIT := PutIn(buf[k / CHAR_BIT], k % CHAR_BIT, value)];
    forall j | 0 <= j < CHAR_BIT * |buf| ensures Unpack(buf')[j] == if j == k then value else Unpack(buf)[j] {
      PutAt(buf, buf', k, value, j);
    }
  }

  lemma PutAt(buf: seq<bv8>, buf': seq<bv8>, k: nat, value: bool, j: nat)
    requires k < CHAR_BIT * |buf| && j < CHAR_BIT * |buf|
    requires buf' == buf[k / CHAR_BIT := PutIn(buf[k / CHAR_BIT], k % CHAR_BIT, value)]
    ensures BitIn(buf'[j / CHAR_BIT], j % CHAR_BIT)
         == if j == k then value else BitIn(buf[j / CHAR_BIT], j % CHAR_BIT)
  {
    var n, bit := j / CHAR_BIT, j % CHAR_BIT;
    OtherBits(buf[n], k % CHAR_BIT, value, bit);
    assert j == k <==> n == k / CHAR_BIT && bit == k % CHAR_BIT;
  }

  /** A buffer without any bit set. */
  function Clear(): (buf: seq<bv8>)
    ensures |buf| == BUFSIZE_BITMAP
  {
    seq(BUFSIZE_BITMAP, _ => 0)
  }

  lemma ClearBits()
    ensures Unpack(Clear()) == NoBits()
  {
    forall k | 0 <= k < PFN_BUFBITMAP ensures !Unpack(Clear())[k] {
      assert Clear()[k / CHAR_BIT] == 0;
    }
  }

  ghost function NoBits(): Bits {
    seq(PFN_BUFBITMAP, _ => false)
  }

  /** A bit of the chunk that is held in the buffer is set if its page is in the guest and reached. */
  ghost predicate BitOk(blocks: seq<PhysBlock>, c: Cursor, buf: Bits, chunk: nat, k: nat) {
    k < |buf| ==> (buf[k] <==> InGuest(blocks, chunk * PFN_BUFBITMAP + k) && c.Reached(chunk * PFN_BUFBITMAP + k))
  }

  /** Chunk c of a bitmap is as it should be. */
  ghost predicate ChunkOk(blocks: seq<PhysBlock>, chunks: seq<seq<bv8>>, c: nat, k: nat) {
    c < |chunks| ==> |chunks[c]| == BUFSIZE_BITMAP
                     && (k < PFN_BUFBITMAP ==> (Unpack(chunks[c])[k] <==> InGuest(blocks, c * PFN_BUFBITMAP + k)))
  }

  class BitmapWriter {
    /** The chunks of either bitmap in the order in which they were written; each is written at the
        offset of its number. */
    var bitmap1: seq<seq<bv8>>
    var bitmap2: seq<seq<bv8>>
    var buf: seq<bv8>

    constructor ()
      ensures bitmap1 == [] && bitmap2 == [] && buf == Clear()
    {
      bitmap1, bitmap2, buf := [], [], Clear();
    }

    /** set_dump_bitmap. Each write goes to the chunk after the one before. */
    method SetDumpBitmap(lastPfn: nat, pfn: nat, value: bool)
      requires lastPfn <= pfn && |buf| == BUFSIZE_BITMAP
      requires |bitmap1| == |bitmap2| == lastPfn / PFN_BUFBITMAP
      modifies this
      ensures |buf| == BUFSIZE_BITMAP && |bitmap1| == |bitmap2| == pfn / PFN_BUFBITMAP
      ensures var flush := pfn / PFN_BUFBITMAP > lastPfn / PFN_BUFBITMAP;
              && Unpack(buf) == (if flush then NoBits() else Unpack(old(buf)))[pfn % PFN_BUFBITMAP := value]
              && (forall c | 0 <= c < |bitmap1| ::
                    bitmap1[c] == if c < |old(bitmap1)| then old(bitmap1)[c] else if c == |old(bitmap1)| then old(buf)
                      else Clear())
              && (forall c | 0 <= c < |bitmap2| ::
                    bitmap2[c] == if c < |old(bitmap2)| then old(bitmap2)[c] else if c == |old(bitmap2)| then old(buf)
                      else Clear())
    {
      var oldChunk, newChunk := lastPfn / PFN_BUFBITMAP, pfn / PFN_BUFBITMAP;
      var oldOffset := BUFSIZE_BITMAP * oldChunk;
      while oldChunk < newChunk
        invariant lastPfn / PFN_BUFBITMAP <= oldChunk <= newChunk
        invariant |bitmap1| == |bitmap2| == oldChunk && oldOffset == BUFSIZE_BITMAP * |bitmap1|
        invariant buf == if oldChunk > lastPfn / PFN_BUFBITMAP then Clear() else old(buf)
        invariant forall c | 0 <= c < oldChunk ::
                    bitmap1[c] == if c < |old(bitmap1)| then old(bitmap1)[c] else if c == |old(bitmap1)| then old(buf)
                      else Clear()
        invariant forall c | 0 <= c < oldChunk ::
                    bitmap2[c] == if c < |old(bitmap2)| then old(bitmap2)[c] else if c == |old(bitmap2)| then old(buf)
                      else Clear()
      {
        bitmap1 := bitmap1 + [buf];
        bitmap2 := bitmap2 + [buf];
        buf := Clear();
        oldChunk := oldChunk + 1;
        oldOffset := oldOffset + BUFSIZE_BITMAP;
      }
      ClearBits();
      buf := PutBit(buf, pfn % PFN_BUFBITMAP, value);
    }

    /** The chunks before that of the last page are written and right, and the buffer has the rest. */
    ghost predicate Upto(blocks: seq<PhysBlock>, c: Cursor, lastPfn: nat)
      reads this
    {
      && |buf| == BUFSIZE_BITMAP && bitmap1 == bitmap2 && |bitmap1| == lastPfn / PFN_BUFBITMAP
      && (forall k: nat :: BitOk(blocks, c, Unpack(buf), lastPfn / PFN_BUFBITMAP, k))
      && (forall n: nat, k: nat :: ChunkOk(blocks, bitmap1, n, k))
    }

    /** Sets the bit of the next page. */
    method SetNext(blocks: seq<PhysBlock>, ghost c: Cursor, c': Cursor, lastPfn: nat)
      requires c'.At? && Upto(blocks, c, lastPfn) && lastPfn == (if c.Start? then 0 else c.pfn) && !c.Reached(c'.pfn)
      requires InGuest(blocks, c'.pfn)
      requires forall p: nat | InGuest(blocks, p) && c'.Reached(p) && p != c'.pfn :: c.Reached(p)
      modifies this
      ensures Upto(blocks, c', c'.pfn)
    {
      SetDumpBitmap(lastPfn, c'.pfn, true);
      assert bitmap1 == bitmap2;
      var newChunk := c'.pfn / PFN_BUFBITMAP;
      forall k: nat ensures BitOk(blocks, c', Unpack(buf), newChunk, k) {
        BitStep(blocks, c, c', Unpack(old(buf)), lastPfn / PFN_BUFBITMAP, k);
      }
      forall n: nat, k: nat ensures ChunkOk(blocks, bitmap1, n, k) {
        assert ChunkOk(blocks, old(bitmap1), n, k);
        assert BitOk(blocks, c, Unpack(old(buf)), lastPfn / PFN_BUFBITMAP, k);
        if |old(bitmap1)| <= n < newChunk && k < PFN_BUFBITMAP {
          PassedChunk(blocks, c, c', n, k);
        }
      }
    }

    /** write_dump_bitmap: both bitmaps have the bit of a page set if and only if it is in the guest. */
    method WriteDumpBitmap(blocks: seq<PhysBlock>) returns (numDumpable: nat)
      requires BlocksOk(blocks) && bitmap1 == [] && bitmap2 == [] && buf == Clear()
      modifies this
      ensures bitmap1 == bitmap2 && |bitmap1| * BUFSIZE_BITMAP == LenDumpBitmap(MaxMapnr(blocks))
      ensures forall n: nat, k: nat :: ChunkOk(blocks, bitmap1, n, k)
      ensures forall pfn: nat | InGuest(blocks, pfn) :: pfn / PFN_BUFBITMAP < |bitmap1|
      ensures numDumpable == PagesBefore(blocks, |blocks|)
    {
      var c, lastPfn, more := Start, 0, true;
      numDumpable := 0;
      while more
        invariant c.Ok(blocks) && lastPfn == (if c.Start? then 0 else c.pfn) && Upto(blocks, c, lastPfn)
        invariant numDumpable == c.Count(blocks) <= PagesBefore(blocks, |blocks|)
        invariant !more ==> c.At? && numDumpable == PagesBefore(blocks, |blocks|) && c.pfn + 1 == MaxMapnr(blocks)
        invariant !more ==> forall p: nat | InGuest(blocks, p) :: c.Reached(p)
        decreases more, PagesBefore(blocks, |blocks|) - numDumpable
      {
        var c';
        more, c' := GetNextPage(blocks, c);
        if more {
          SetNext(blocks, c, c', lastPfn);
          c, lastPfn := c', c'.pfn;
          numDumpable := numDumpable + 1;
        }
      }
      label L:
      SetDumpBitmap(lastPfn, lastPfn + PFN_BUFBITMAP, false);
      forall n: nat, k: nat ensures ChunkOk(blocks, bitmap1, n, k) {
        assert old@L(ChunkOk(blocks, bitmap1, n, k));
        assert old@L(BitOk(blocks, c, Unpack(buf), lastPfn / PFN_BUFBITMAP, k));
      }
      LenIsEnough(lastPfn);
    }
  }

  /** Last page frame number of the guest, plus one. */
  function MaxMapnr(blocks: seq<PhysBlock>): nat
    requires blocks != []
  {
    blocks[|blocks| - 1].first + |blocks[|blocks| - 1].pages|
  }

  function DivRoundUp(n: nat, d: nat): nat
    requires d > 0
  {
    (n + d - 1) / d
  }

  /** s->len_dump_bitmap. */
  function LenDumpBitmap(maxMapnr: nat): nat {
    DivRoundUp(DivRoundUp(maxMapnr, CHAR_BIT), TARGET_PAGE_SIZE) * TARGET_PAGE_SIZE
  }

  /** The length is that of the chunks up to the last page. */
  lemma LenIsEnough(lastPfn: nat)
    ensures LenDumpBitmap(lastPfn + 1) == (lastPfn / PFN_BUFBITMAP + 1) * BUFSIZE_BITMAP
  {
  }

  /** The bits of the chunk of the next page. */
  lemma BitStep(blocks: seq<PhysBlock>, c: Cursor, c': Cursor, buf: Bits, chunk: nat, k: nat)
    requires c'.At? && |buf| == PFN_BUFBITMAP && BitOk(blocks, c, buf, chunk, k)
    requires chunk == (if c.Start? then 0 else c.pfn) / PFN_BUFBITMAP && !c.Reached(c'.pfn) && InGuest(blocks, c'.pfn)
    requires forall p: nat | InGuest(blocks, p) && c'.Reached(p) && p != c'.pfn :: c.Reached(p)
    ensures var newChunk := c'.pfn / PFN_BUFBITMAP;
            BitOk(blocks, c', (if newChunk > chunk then NoBits() else buf)[c'.pfn % PFN_BUFBITMAP := true], newChunk, k)
  {
    var newChunk := c'.pfn / PFN_BUFBITMAP;
    var p := newChunk * PFN_BUFBITMAP + k;
    if k < PFN_BUFBITMAP && InGuest(blocks, p) && c'.Reached(p) && p != c'.pfn {
      assert c.Reached(p);
    }
  }

  /** A chunk that is left behind is complete. */
  lemma PassedChunk(blocks: seq<PhysBlock>, c: Cursor, c': Cursor, n: nat, k: nat)
    requires c'.At? && k < PFN_BUFBITMAP && n < c'.pfn / PFN_BUFBITMAP
    requires forall p: nat | InGuest(blocks, p) && c'.Reached(p) && p != c'.pfn :: c.Reached(p)
    ensures InGuest(blocks, n * PFN_BUFBITMAP + k) ==> c.Reached(n * PFN_BUFBITMAP + k)
  {
    assert c'.Reached(n * PFN_BUFBITMAP + k) && n * PFN_BUFBITMAP + k != c'.pfn;
  }
}
