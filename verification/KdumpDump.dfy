/** A kdump-compressed dump as a whole: its bitmaps lead a reader to the descriptors of its pages (dump.c,
    create_kdump_vmcore). */
module KdumpDump {
  import opened Prelude
  import opened ByteOrder
  import opened BlockDisk
  import opened KdumpBitmap
  import opened KdumpPages

  /** The bit of a page in the chunks of a bitmap. */
  ghost predicate BitAt(chunks: seq<seq<bv8>>, pfn: nat) {
    var c := pfn / PFN_BUFBITMAP;
    c < |chunks| && |chunks[c]| == BUFSIZE_BITMAP && Unpack(chunks[c])[pfn % PFN_BUFBITMAP]
  }

  ghost function BitsOf(chunks: seq<seq<bv8>>): nat -> bool {
    (pfn: nat) => BitAt(chunks, pfn)
  }

  /** How many bits are set for the pages before pfn: what a reader counts to find the descriptor of pfn. */
  ghost function SetBelow(bits: nat -> bool, pfn: nat): nat {
    if pfn == 0 then 0 else SetBelow(bits, pfn - 1) + if bits(pfn - 1) then 1 else 0
  }

  /** The bits tell the pages of the guest. */
  ghost predicate TellsPages(bits: nat -> bool, blocks: seq<PhysBlock>) {
    forall pfn: nat :: TellsPage(bits, blocks, pfn)
  }

  ghost predicate TellsPage(bits: nat -> bool, blocks: seq<PhysBlock>, pfn: nat) {
    bits(pfn) <==> InGuest(blocks, pfn)
  }

  lemma ChunksTell(chunks: seq<seq<bv8>>, blocks: seq<PhysBlock>)
    requires forall n: nat, k: nat :: ChunkOk(blocks, chunks, n, k)
    requires forall pfn: nat | InGuest(blocks, pfn) :: pfn / PFN_BUFBITMAP < |chunks|
    ensures TellsPages(BitsOf(chunks), blocks)
  {
    forall pfn: nat ensures TellsPage(BitsOf(chunks), blocks, pfn) {
      assert ChunkOk(blocks, chunks, pfn / PFN_BUFBITMAP, pfn % PFN_BUFBITMAP);
    }
  }

  /** Where no page is in the guest the count stays. */
  lemma {:induction false} CountOverGap(bits: nat -> bool, blocks: seq<PhysBlock>, lo: nat, hi: nat)
    requires TellsPages(bits, blocks) && lo <= hi && forall pfn: nat | lo <= pfn < hi :: !InGuest(blocks, pfn)
    ensures SetBelow(bits, hi) == SetBelow(bits, lo)
    decreases hi
  {
    if lo < hi {
      CountOverGap(bits, blocks, lo, hi - 1);
      assert TellsPage(bits, blocks, hi - 1) && !InGuest(blocks, hi - 1);
    }
  }

  /** No page lies between a block and the one before it. */
  lemma GapEmpty(blocks: seq<PhysBlock>, b: nat, pfn: nat)
    requires BlocksOk(blocks) && b < |blocks| && pfn < blocks[b].first
    requires b > 0 ==> blocks[b - 1].first + |blocks[b - 1].pages| <= pfn
    ensures !InGuest(blocks, pfn)
  {
    forall c | 0 <= c < |blocks| ensures !blocks[c].Has(pfn) {
      assert b < c ==> blocks[b].first + |blocks[b].pages| <= blocks[c].first;
      assert c < b - 1 ==> blocks[c].first + |blocks[c].pages| <= blocks[b - 1].first;
    }
  }

  ghost predicate AllSet(bits: nat -> bool, lo: nat, hi: nat) {
    forall pfn: nat | lo <= pfn < hi :: bits(pfn)
  }

  lemma {:induction false} CountRun(bits: nat -> bool, lo: nat, hi: nat)
    requires lo <= hi && AllSet(bits, lo, hi)
    ensures SetBelow(bits, hi) == SetBelow(bits, lo) + (hi - lo)
    decreases hi
  {
    if lo < hi {
      CountRun(bits, lo, hi - 1);
    }
  }

  lemma BlockSet(bits: nat -> bool, blocks: seq<PhysBlock>, b: nat)
    requires TellsPages(bits, blocks) && b < |blocks|
    ensures AllSet(bits, blocks[b].first, blocks[b].first + |blocks[b].pages|)
  {
    forall pfn: nat | blocks[b].Has(pfn) ensures bits(pfn) {
      assert TellsPage(bits, blocks, pfn) && InGuest(blocks, pfn);
    }
  }

  lemma CountToBlock(bits: nat -> bool, blocks: seq<PhysBlock>, b: nat)
    requires TellsPages(bits, blocks) && BlocksOk(blocks) && b < |blocks|
    ensures SetBelow(bits, blocks[b].first)
         == if b == 0 then 0 else SetBelow(bits, blocks[b - 1].first + |blocks[b - 1].pages|)
  {
    var lo := if b == 0 then 0 else blocks[b - 1].first + |blocks[b - 1].pages|;
    forall pfn: nat | lo <= pfn < blocks[b].first ensures !InGuest(blocks, pfn) {
      GapEmpty(blocks, b, pfn);
    }
    CountOverGap(bits, blocks, lo, blocks[b].first);
  }

  lemma {:induction false} CountBefore(bits: nat -> bool, blocks: seq<PhysBlock>, b: nat)
    requires TellsPages(bits, blocks) && BlocksOk(blocks) && b < |blocks|
    ensures SetBelow(bits, blocks[b].first) == PagesBefore(blocks, b)
  {
    CountToBlock(bits, blocks, b);
    if b > 0 {
      CountBefore(bits, blocks, b - 1);
      BlockSet(bits, blocks, b - 1);
      CountRun(bits, blocks[b - 1].first, blocks[b - 1].first + |blocks[b - 1].pages|);
    }
  }

  /** The bits set before page j of block b are as many as there are pages before it. */
  lemma CountIs(bits: nat -> bool, blocks: seq<PhysBlock>, b: nat, j: nat)
    requires TellsPages(bits, blocks) && BlocksOk(blocks) && b < |blocks| && j < |blocks[b].pages|
    ensures SetBelow(bits, blocks[b].first + j) == PagesBefore(blocks, b) + j && bits(blocks[b].first + j)
  {
    CountBefore(bits, blocks, b);
    BlockSet(bits, blocks, b);
    CountRun(bits, blocks[b].first, blocks[b].first + j);
  }

  /** A reader finds page j of block b: its bit is set, and the descriptor with the number of the bits set before
      leads to data from which the page comes back. */
  ghost predicate Found(bits: nat -> bool, blocks: seq<PhysBlock>, file: Data, big: bool, unzip: Data -> Data,
                        descStart: nat, dataStart: nat, dataEnd: nat, b: nat, j: nat) {
    b < |blocks| && j < |blocks[b].pages| ==>
      var pfn := blocks[b].first + j;
      && bits(pfn)
      && DescLeads(file, big, unzip, descStart, dataStart, dataEnd, SetBelow(bits, pfn), blocks[b].pages[j])
  }

  lemma FindPage(bits: nat -> bool, blocks: seq<PhysBlock>, pages: seq<Page>, file: Data, big: bool,
                 unzip: Data -> Data, descStart: nat, dataStart: nat, dataEnd: nat, b: nat, j: nat)
    requires TellsPages(bits, blocks) && BlocksOk(blocks) && |pages| == PagesBefore(blocks, |blocks|)
    requires Listed(blocks, pages, b, j)
    requires forall k: nat :: Readable(file, big, unzip, descStart, dataStart, dataEnd, pages, k)
    ensures Found(bits, blocks, file, big, unzip, descStart, dataStart, dataEnd, b, j)
  {
    if b < |blocks| && j < |blocks[b].pages| {
      var k := PagesBefore(blocks, b) + j;
      BeforeLater(blocks, b, |blocks|);
      CountIs(bits, blocks, b, j);
      assert Readable(file, big, unzip, descStart, dataStart, dataEnd, pages, k);
    }
  }

  /** create_kdump_vmcore, without its headers: a reader finds every page of the guest through the bitmaps, and
      their bits are set for no other page. */
  method CreateKdumpVmcore(blocks: seq<PhysBlock>, file: Data, offsetPage: nat, big: bool, flag: nat,
                           zip: Data -> Option<Data>, ghost unzip: Data -> Data)
    returns (bitmaps: BitmapWriter, dump: PageWriter)
    requires BlocksOk(blocks) && 0 < flag <= COMPRESSED_MAX
    requires forall d: Data | zip(d).Some? :: unzip(zip(d).value) == d
    requires forall b, j | 0 <= b < |blocks| && 0 <= j < |blocks[b].pages| :: |blocks[b].pages[j]| == TARGET_PAGE_SIZE
    requires offsetPage + SIZEOF_DESC * PagesBefore(blocks, |blocks|)
             + TARGET_PAGE_SIZE * (1 + PagesBefore(blocks, |blocks|)) < Pow256(8)
    ensures bitmaps.bitmap1 == bitmaps.bitmap2 && TellsPages(BitsOf(bitmaps.bitmap1), blocks)
    ensures forall b: nat, j: nat :: Found(BitsOf(bitmaps.bitmap1), blocks, dump.file, big, unzip, offsetPage,
                                           dump.dataStart, dump.data.End(), b, j)
  {
    bitmaps := new BitmapWriter();
    var numDumpable := bitmaps.WriteDumpBitmap(blocks);
    ChunksTell(bitmaps.bitmap1, blocks);
    dump := new PageWriter(file, offsetPage, numDumpable, big, flag, zip, unzip);
    dump.WriteDumpPages(blocks);
    ghost var bits := BitsOf(bitmaps.bitmap1);
    forall k: nat
      ensures Readable(dump.file, big, unzip, offsetPage, dump.dataStart, dump.data.End(), dump.pages, k)
    {
      assert dump.ReadablePage(k);
    }
    forall b: nat, j: nat
      ensures Found(bits, blocks, dump.file, big, unzip, offsetPage, dump.dataStart, dump.data.End(), b, j)
    {
      FindPage(bits, blocks, dump.pages, dump.file, big, unzip, offsetPage, dump.dataStart, dump.data.End(), b, j);
    }
  }
}
