/** The page section of a kdump-compressed dump: descriptors and data, each written through a cache
    (dump.c, write_cache, write_dump_pages). */
module KdumpPages {
  import opened Prelude
  import opened ByteOrder
  import opened BlockDisk
  import opened KdumpBitmap

  const BUFSIZE_DATA_CACHE := 16384
  const SIZEOF_DESC := 24

  /** The largest of DUMP_DH_COMPRESSED_ZLIB, _LZO and _SNAPPY. */
  const COMPRESSED_MAX := 4

  datatype PageDesc = PageDesc(offset: nat, size: nat, flags: nat)

  /** A page descriptor as it is in the dump; its page_flags are 0. */
  function Encode(big: bool, pd: PageDesc): (d: Data)
    ensures |d| == SIZEOF_DESC
  {
    Bytes(big, pd.offset, 8) + Bytes(big, pd.size, 4) + Bytes(big, pd.flags, 4) + Bytes(big, 0, 8)
  }

  /** What a reader of the file makes of a page descriptor. */
  function Decode(big: bool, d: Data): PageDesc
    requires |d| == SIZEOF_DESC
  {
    PageDesc(Number(big, d[..8]), Number(big, d[8..12]), Number(big, d[12..16]))
  }

  lemma EncodedFields(big: bool, pd: PageDesc)
    requires pd.offset < Pow256(8) && pd.size < Pow256(4) && pd.flags < Pow256(4)
    ensures Decode(big, Encode(big, pd)) == pd
  {
    var d := Encode(big, pd);
    assert d[..8] == Bytes(big, pd.offset, 8) && d[8..12] == Bytes(big, pd.size, 4)
           && d[12..16] == Bytes(big, pd.flags, 4);
    BytesRoundTrip(big, pd.offset, 8);
    BytesRoundTrip(big, pd.size, 4);
    BytesRoundTrip(big, pd.flags, 4);
  }

  datatype DataCache = DataCache(offset: nat, buf: Data) {

    function End(): nat {
      offset + |buf|
    }

    predicate Has(p: nat) {
      offset <= p < End()
    }
  }

  /** write_cache; without sync buf is added to the cache, with sync all of the cache is written. */
  method WriteCache(file: Data, dc: DataCache, buf: Data, sync: bool) returns (file': Data, dc': DataCache)
    requires |buf| <= BUFSIZE_DATA_CACHE && |dc.buf| <= BUFSIZE_DATA_CACHE
    ensures |dc'.buf| <= BUFSIZE_DATA_CACHE && dc.offset <= dc'.offset
    ensures if sync then dc' == DataCache(dc.End(), []) else dc'.End() == dc.End() + |buf|
    ensures forall p: nat :: Cached(file, dc, file', dc', buf, sync, p)
  {
    file', dc' := file, dc;
    if (!sync && |dc.buf| + |buf| > BUFSIZE_DATA_CACHE) || (sync && |dc.buf| > 0) {
      file' := Splice(file, dc.offset, dc.buf);
      dc' := DataCache(dc.offset + |dc.buf|, []);
    }
    if !sync {
      dc' := dc'.(buf := dc'.buf + buf);
    }
    forall p: nat ensures Cached(file, dc, file', dc', buf, sync, p) {
    }
  }

  /** What the file and the cache show at p, and that nothing outside of the cache has changed. */
  ghost predicate Cached(file: Data, dc: DataCache, file': Data, dc': DataCache, buf: Data, sync: bool, p: nat) {
    && (dc.Has(p) ==> if dc'.Has(p) then dc'.buf[p - dc'.offset] == dc.buf[p - dc.offset]
        else View(file', p) == dc.buf[p - dc.offset])
    && (!sync && dc.End() <= p < dc.End() + |buf| ==> dc'.Has(p) && dc'.buf[p - dc'.offset] == buf[p - dc.End()])
    && (!dc.Has(p) ==> View(file', p) == View(file, p))
    && (dc'.Has(p) ==> dc.Has(p) || (!sync && dc.End() <= p < dc.End() + |buf|))
  }

  /** The file that direct writes would leave shows at p what file and caches show together. */
  ghost predicate Agrees(file: Data, a: DataCache, b: DataCache, direct: Data, p: nat) {
    View(direct, p) == if a.Has(p) then a.buf[p - a.offset] else if b.Has(p) then b.buf[p - b.offset] else View(file, p)
  }

  ghost predicate AgreesAll(file: Data, a: DataCache, b: DataCache, direct: Data) {
    forall p: nat :: Agrees(file, a, b, direct, p)
  }

  /** Page k of the dump: its descriptor, whose bytes are e, and data from which the page comes back. */
  ghost predicate StoredAs(file: Data, unzip: Data -> Data, descStart: nat, dataStart: nat, dataEnd: nat,
                           e: Data, pd: PageDesc, page: Page, k: nat) {
    && Extract(file, descStart + SIZEOF_DESC * k, SIZEOF_DESC) == e
    && dataStart <= pd.offset && pd.offset + pd.size <= dataEnd
    && Restores(unzip, pd.flags, Extract(file, pd.offset, pd.size), page)
  }

  /** The page comes back from the data. */
  ghost predicate Restores(unzip: Data -> Data, flags: nat, d: Data, page: Page) {
    page == if flags == 0 then d else unzip(d)
  }

  /** The fields of the descriptor fit, as long as the data do not end past 2^64. */
  ghost predicate Bounded(pd: PageDesc) {
    pd.size <= TARGET_PAGE_SIZE && pd.flags <= COMPRESSED_MAX
  }

  ghost predicate Stored(file: Data, big: bool, unzip: Data -> Data, descStart: nat, dataStart: nat, dataEnd: nat,
                         pd: PageDesc, page: Page, k: nat) {
    Bounded(pd) && StoredAs(file, unzip, descStart, dataStart, dataEnd, Encode(big, pd), pd, page, k)
  }

  /** Page k of the dump as a reader finds it: the descriptor leads to data from which the page comes back. */
  ghost predicate Readable(file: Data, big: bool, unzip: Data -> Data, descStart: nat, dataStart: nat, dataEnd: nat,
                           pages: seq<Page>, k: nat) {
    k < |pages| ==> DescLeads(file, big, unzip, descStart, dataStart, dataEnd, k, pages[k])
  }

  /** What a reader makes of the bytes of descriptor k leads to the page. */
  ghost predicate DescLeads(file: Data, big: bool, unzip: Data -> Data, descStart: nat, dataStart: nat, dataEnd: nat,
                            k: nat, page: Page) {
    forall pd: PageDesc :: ReadDesc(file, big, unzip, descStart, dataStart, dataEnd, k, page, pd)
  }

  ghost predicate ReadDesc(file: Data, big: bool, unzip: Data -> Data, descStart: nat, dataStart: nat, dataEnd: nat,
                           k: nat, page: Page, pd: PageDesc) {
    pd == Decode(big, Extract(file, descStart + SIZEOF_DESC * k, SIZEOF_DESC)) ==>
      Leads(file, unzip, dataStart, dataEnd, pd, page)
  }

  ghost predicate Leads(file: Data, unzip: Data -> Data, dataStart: nat, dataEnd: nat, pd: PageDesc, page: Page) {
    && dataStart <= pd.offset && pd.offset + pd.size <= dataEnd
    && Restores(unzip, pd.flags, Extract(file, pd.offset, pd.size), page)
  }

  lemma StoredReadable(file: Data, big: bool, unzip: Data -> Data, descStart: nat, dataStart: nat, dataEnd: nat,
                       pds: seq<PageDesc>, pages: seq<Page>, k: nat)
    requires StoredAt(file, big, unzip, descStart, dataStart, dataEnd, pds, pages, k) && |pds| == |pages|
    requires dataEnd < Pow256(8)
    ensures Readable(file, big, unzip, descStart, dataStart, dataEnd, pages, k)
  {
    if k < |pages| {
      assert Pow256(4) == 256 * Pow256(3) == 65536 * Pow256(2);
      assert Pow256(2) == 65536;
      EncodedFields(big, pds[k]);
      forall pd: PageDesc ensures ReadDesc(file, big, unzip, descStart, dataStart, dataEnd, k, pages[k], pd) {
      }
    }
  }

  /** Page k of those listed is stored. */
  ghost predicate StoredAt(file: Data, big: bool, unzip: Data -> Data, descStart: nat, dataStart: nat, dataEnd: nat,
                           pds: seq<PageDesc>, pages: seq<Page>, k: nat) {
    k < |pages| == |pds| ==> Stored(file, big, unzip, descStart, dataStart, dataEnd, pds[k], pages[k], k)
  }

  /** Writes past what is stored of a page leave it. */
  lemma StoredStill(file: Data, unzip: Data -> Data, descStart: nat, dataStart: nat, dataEnd: nat, dataEnd': nat,
                    at: nat, buf: Data, e: Data, pd: PageDesc, page: Page, k: nat)
    requires StoredAs(file, unzip, descStart, dataStart, dataEnd, e, pd, page, k) && dataEnd <= dataEnd'
    requires descStart + SIZEOF_DESC * k + SIZEOF_DESC <= at && (at + |buf| <= dataStart || dataEnd <= at)
    ensures StoredAs(Splice(file, at, buf), unzip, descStart, dataStart, dataEnd', e, pd, page, k)
  {
    ExtractApart(file, at, buf, descStart + SIZEOF_DESC * k, SIZEOF_DESC);
    ExtractApart(file, at, buf, pd.offset, pd.size);
  }

  /** Data added at the end leave all pages stored. */
  lemma StoredWithData(file: Data, big: bool, unzip: Data -> Data, descStart: nat, dataStart: nat, dataEnd: nat,
                       pds: seq<PageDesc>, pages: seq<Page>, buf: Data, k: nat)
    requires StoredAt(file, big, unzip, descStart, dataStart, dataEnd, pds, pages, k)
    requires |pds| == |pages| && descStart + SIZEOF_DESC * |pds| <= dataStart <= dataEnd
    ensures StoredAt(Splice(file, dataEnd, buf), big, unzip, descStart, dataStart, dataEnd + |buf|, pds, pages, k)
  {
    if k < |pages| {
      StoredStill(file, unzip, descStart, dataStart, dataEnd, dataEnd + |buf|, dataEnd, buf, Encode(big, pds[k]),
                  pds[k], pages[k], k);
    }
  }

  /** A descriptor added after the others leaves all pages stored, and stores one more. */
  lemma StoredWithDesc(file: Data, big: bool, unzip: Data -> Data, descStart: nat, dataStart: nat, dataEnd: nat,
                       pds: seq<PageDesc>, pages: seq<Page>, at: nat, pd: PageDesc, page: Page,
                       file': Data, pds': seq<PageDesc>, pages': seq<Page>)
    requires forall k: nat :: StoredAt(file, big, unzip, descStart, dataStart, dataEnd, pds, pages, k)
    requires |pds| == |pages| && at == descStart + SIZEOF_DESC * |pds| && at + SIZEOF_DESC <= dataStart
    requires dataStart <= pd.offset && pd.offset + pd.size <= dataEnd
             && Restores(unzip, pd.flags, Extract(file, pd.offset, pd.size), page)
    requires file' == Splice(file, at, Encode(big, pd)) && Bounded(pd) && pds' == pds + [pd] && pages' == pages + [page]
    ensures forall k: nat :: StoredAt(file', big, unzip, descStart, dataStart, dataEnd, pds', pages', k)
  {
    var buf := Encode(big, pd);
    forall k: nat ensures StoredAt(file', big, unzip, descStart, dataStart, dataEnd, pds', pages', k) {
      if k < |pages| {
        assert StoredAt(file, big, unzip, descStart, dataStart, dataEnd, pds, pages, k);
        StoredStill(file, unzip, descStart, dataStart, dataEnd, dataEnd, at, buf, Encode(big, pds[k]), pds[k],
                    pages[k], k);
      } else if k == |pages| {
        JustWritten(file, at, buf);
        ExtractApart(file, at, buf, pd.offset, pd.size);
      }
    }
  }

  lemma JustWritten(file: Data, o: nat, buf: Data)
    ensures Extract(Splice(file, o, buf), o, |buf|) == buf
  {
    var f := Splice(file, o, buf);
    forall k | 0 <= k < |buf| ensures Extract(f, o, |buf|)[k] == buf[k] {
      assert View(f, o + k) == buf[k];
    }
  }

  /** Adding to one of two caches that lie apart is a direct write at its end. */
  lemma AgreesOn(file: Data, a: DataCache, file': Data, a': DataCache, buf: Data, sync: bool, b: DataCache,
                 direct: Data, first: bool)
    requires if first then AgreesAll(file, a, b, direct) && a.End() <= b.offset
             && (!sync ==> a.End() + |buf| <= b.offset)
             else AgreesAll(file, b, a, direct) && b.End() <= a.offset
    requires forall p: nat :: Cached(file, a, file', a', buf, sync, p)
    ensures var direct' := if sync then direct else Splice(direct, a.End(), buf);
            if first then AgreesAll(file', a', b, direct') else AgreesAll(file', b, a', direct')
  {
    var direct' := if sync then direct else Splice(direct, a.End(), buf);
    forall p: nat ensures if first then Agrees(file', a', b, direct', p) else Agrees(file', b, a', direct', p) {
      assert Cached(file, a, file', a', buf, sync, p);
      assert first ==> Agrees(file, a, b, direct, p);
      assert !first ==> Agrees(file, b, a, direct, p);
    }
  }

  class PageWriter {
    var file: Data
    var desc: DataCache
    var data: DataCache
    const descStart: nat
    const dataStart: nat
    /** The byte order of the dump. */
    const big: bool
    /** s->flag_compress: DUMP_DH_COMPRESSED_ZLIB, _LZO or _SNAPPY. */
    const flag: nat
    /** compress2 and its like, None when it fails, and what undoes it. */
    const zip: Data -> Option<Data>
    ghost const unzip: Data -> Data

    /** The file that direct writes would have left. */
    ghost var direct: Data
    /** The pages so far and their descriptors. */
    ghost var pages: seq<Page>
    ghost var pds: seq<PageDesc>

    constructor (file: Data, offsetPage: nat, numDumpable: nat, big: bool, flag: nat, zip: Data -> Option<Data>,
                 ghost unzip: Data -> Data)
      requires 0 < flag <= COMPRESSED_MAX && forall d: Data | zip(d).Some? :: unzip(zip(d).value) == d
      ensures Valid() && Empty() && descStart == offsetPage && dataStart == offsetPage + SIZEOF_DESC * numDumpable
      ensures this.file == file && direct == file && pages == [] && this.big == big && this.unzip == unzip
    {
      this.file, this.big, this.flag, this.zip, this.unzip, direct := file, big, flag, zip, unzip, file;
      descStart, dataStart := offsetPage, offsetPage + SIZEOF_DESC * numDumpable;
      desc, data := DataCache(offsetPage, []), DataCache(offsetPage + SIZEOF_DESC * numDumpable, []);
      pages, pds := [], [];
    }

    ghost predicate Caches()
      reads `file, `desc, `data, `direct
    {
      && AgreesAll(file, desc, data, direct)
      && |desc.buf| <= BUFSIZE_DATA_CACHE && |data.buf| <= BUFSIZE_DATA_CACHE
      && descStart <= desc.offset && desc.End() <= dataStart <= data.offset
    }

    ghost predicate StoredPage(k: nat)
      reads this
    {
      StoredAt(direct, big, unzip, descStart, dataStart, data.End(), pds, pages, k)
    }

    /** Nothing has been written. */
    ghost predicate Empty()
      reads this
    {
      desc == DataCache(descStart, []) && data == DataCache(dataStart, []) && pds == []
    }

    ghost predicate Valid()
      reads this
    {
      && Caches() && |pds| == |pages| && desc.End() == descStart + SIZEOF_DESC * |pds|
      && 0 < flag <= COMPRESSED_MAX && (forall d: Data | zip(d).Some? :: unzip(zip(d).value) == d)
      && (forall k: nat :: StoredPage(k))
    }

    /** The first page of data, which all zero pages share. */
    ghost predicate ZeroStored()
      reads this
    {
      dataStart + TARGET_PAGE_SIZE <= data.End()
        && Extract(direct, dataStart, TARGET_PAGE_SIZE) == seq(TARGET_PAGE_SIZE, _ => 0)
    }

    /** write_cache to page_data. */
    method PutData(buf: Data)
      requires Valid() && |buf| <= BUFSIZE_DATA_CACHE
      modifies `file, `data, `direct
      ensures Valid() && data.End() == old(data).End() + |buf| && Extract(direct, old(data).End(), |buf|) == buf
      ensures old(ZeroStored()) ==> ZeroStored()
    {
      file, data := WriteCache(file, data, buf, false);
      AgreesOn(old(file), old(data), file, data, buf, false, desc, direct, false);
      direct := Splice(direct, old(data).End(), buf);
      JustWritten(old(direct), old(data).End(), buf);
      forall k: nat ensures StoredPage(k) {
        assert old(StoredPage(k));
        StoredWithData(old(direct), big, unzip, descStart, dataStart, old(data).End(), pds, pages, buf, k);
      }
      if old(ZeroStored()) {
        ExtractApart(old(direct), old(data).End(), buf, dataStart, TARGET_PAGE_SIZE);
      }
    }

    /** write_cache to page_desc; the descriptor is that of the next page. */
    method PutDesc(pd: PageDesc, ghost page: Page)
      requires Valid() && desc.End() + SIZEOF_DESC <= dataStart
      requires dataStart <= pd.offset && pd.offset + pd.size <= data.End()
      requires Bounded(pd) && Restores(unzip, pd.flags, Extract(direct, pd.offset, pd.size), page)
      modifies `file, `desc, `direct, `pages, `pds
      ensures Valid() && pages == old(pages) + [page]
      ensures old(ZeroStored()) ==> ZeroStored()
    {
      var buf := Encode(big, pd);
      file, desc := WriteCache(file, desc, buf, false);
      AgreesOn(old(file), old(desc), file, desc, buf, false, data, direct, true);
      direct := Splice(direct, old(desc).End(), buf);
      pages, pds := pages + [page], pds + [pd];
      ExtractApart(old(direct), old(desc).End(), buf, dataStart, TARGET_PAGE_SIZE);
      assert forall k: nat :: StoredPage(k) by {
        forall k: nat ensures old(StoredAt(direct, big, unzip, descStart, dataStart, data.End(), pds, pages, k)) {
          assert old(StoredPage(k));
        }
        StoredWithDesc(old(direct), big, unzip, descStart, dataStart, data.End(), old(pds), old(pages),
                       old(desc).End(), pd, page,
                       direct, pds, pages);
      }
    }

    /** How much data a page takes: none if it is zero, else no more than it has. */
    function DataSize(page: Page): (n: nat) {
      if page == seq(TARGET_PAGE_SIZE, _ => 0) then 0
      else if zip(page).Some? && |zip(page).value| < TARGET_PAGE_SIZE then |zip(page).value|
      else TARGET_PAGE_SIZE
    }

    /** One page of write_dump_pages. */
    method WritePage(page: Page)
      requires Valid() && ZeroStored() && |page| == TARGET_PAGE_SIZE && desc.End() + SIZEOF_DESC <= dataStart
      modifies `file, `desc, `data, `direct, `pages, `pds
      ensures Valid() && ZeroStored() && pages == old(pages) + [page] && data.End() == old(data).End() + DataSize(page)
    {
      if page == seq(TARGET_PAGE_SIZE, _ => 0) {
        PutDesc(PageDesc(dataStart, TARGET_PAGE_SIZE, 0), page);
        return;
      }
      var offset := data.End();
      var packed := zip(page);
      if packed.Some? && |packed.value| < TARGET_PAGE_SIZE {
        PutData(packed.value);
        PutDesc(PageDesc(offset, |packed.value|, flag), page);
      } else {
        PutData(page);
        PutDesc(PageDesc(offset, TARGET_PAGE_SIZE, 0), page);
      }
    }

    /** The caches are written out. */
    method Sync()
      requires Valid()
      modifies `file, `desc, `data
      ensures Valid() && SameView(file, direct) && data.End() == old(data).End()
    {
      file, desc := WriteCache(file, desc, [], true);
      AgreesOn(old(file), old(desc), file, desc, [], true, data, direct, true);
      label L:
      file, data := WriteCache(file, data, [], true);
      AgreesOn(old@L(file), old(data), file, data, [], true, desc, direct, false);
      forall k: nat ensures StoredPage(k) {
        assert old(StoredPage(k));
      }
      forall p: nat ensures View(file, p) == View(direct, p) {
        assert Agrees(file, desc, data, direct, p);
      }
    }

    /** Page j of block b, which is the next one. */
    method PutNext(blocks: seq<PhysBlock>, b: nat, j: nat)
      requires Valid() && ZeroStored() && desc.End() + SIZEOF_DESC <= dataStart
      requires b < |blocks| && j < |blocks[b].pages| && |blocks[b].pages[j]| == TARGET_PAGE_SIZE
      requires |pages| == PagesBefore(blocks, b) + j && forall c: nat, i: nat :: Listed(blocks, pages, c, i)
      modifies `file, `desc, `data, `direct, `pages, `pds
      ensures Valid() && ZeroStored() && |pages| == |old(pages)| + 1 && data.End() <= old(data).End() + TARGET_PAGE_SIZE
      ensures forall c: nat, i: nat :: Listed(blocks, pages, c, i)
    {
      ListedMore(blocks, pages, b, j);
      WritePage(blocks[b].pages[j]);
    }

    /** The loop of write_dump_pages, and the zero page before it. */
    method PutPages(blocks: seq<PhysBlock>)
      requires Valid() && Empty() && BlocksOk(blocks)
      requires dataStart == descStart + SIZEOF_DESC * PagesBefore(blocks, |blocks|)
      requires forall b, j | 0 <= b < |blocks| && 0 <= j < |blocks[b].pages| :: |blocks[b].pages[j]| == TARGET_PAGE_SIZE
      modifies `file, `desc, `data, `direct, `pages, `pds
      ensures Valid() && |pages| == PagesBefore(blocks, |blocks|)
      ensures data.End() <= dataStart + TARGET_PAGE_SIZE * (1 + |pages|)
      ensures forall b: nat, j: nat :: Listed(blocks, pages, b, j)
    {
      PutData(seq(TARGET_PAGE_SIZE, _ => 0));
      var c, more := Start, true;
      while more
        invariant Valid() && ZeroStored() && c.Ok(blocks) && |pages| == c.Count(blocks) <= PagesBefore(blocks, |blocks|)
        invariant data.End() <= dataStart + TARGET_PAGE_SIZE * (1 + |pages|)
        invariant forall b: nat, j: nat :: Listed(blocks, pages, b, j)
        invariant !more ==> |pages| == PagesBefore(blocks, |blocks|)
        decreases more, PagesBefore(blocks, |blocks|) - |pages|
      {
        var c';
        more, c' := GetNextPage(blocks, c);
        if more {
          c := c';
          PutNext(blocks, c.block, c.pfn - blocks[c.block].first);
        }
      }
    }

    /** Page k can be read from the file. */
    ghost predicate ReadablePage(k: nat)
      reads `file, `data, `pages
    {
      Readable(file, big, unzip, descStart, dataStart, data.End(), pages, k)
    }

    /** What the file shows can be read, as long as offsets fit into 64 bits. */
    lemma ReadPages(k: nat)
      requires Valid() && SameView(file, direct) && data.End() < Pow256(8)
      ensures ReadablePage(k)
    {
      assert StoredPage(k);
      StoredReadable(direct, big, unzip, descStart, dataStart, data.End(), pds, pages, k);
      ReadableSame(direct, file, big, unzip, descStart, dataStart, data.End(), pages, k);
    }

    /** write_dump_pages: every page of the guest, in order, has a descriptor in the file that a reader can
        follow to data which restore it, and the caches have made no difference. Offsets have 64 bits. */
    method WriteDumpPages(blocks: seq<PhysBlock>)
      requires Valid() && Empty() && BlocksOk(blocks)
      requires dataStart == descStart + SIZEOF_DESC * PagesBefore(blocks, |blocks|)
      requires dataStart + TARGET_PAGE_SIZE * (1 + PagesBefore(blocks, |blocks|)) < Pow256(8)
      requires forall b, j | 0 <= b < |blocks| && 0 <= j < |blocks[b].pages| :: |blocks[b].pages[j]| == TARGET_PAGE_SIZE
      modifies `file, `desc, `data, `direct, `pages, `pds
      ensures SameView(file, direct) && |pages| == PagesBefore(blocks, |blocks|)
      ensures forall k: nat :: ReadablePage(k)
      ensures forall b: nat, j: nat :: Listed(blocks, pages, b, j)
    {
      PutPages(blocks);
      Sync();
      forall k: nat ensures ReadablePage(k) {
        ReadPages(k);
      }
    }
  }

  lemma ReadableSame(f: Data, g: Data, big: bool, unzip: Data -> Data, descStart: nat, dataStart: nat, dataEnd: nat,
                     pages: seq<Page>, k: nat)
    requires SameView(g, f) && Readable(f, big, unzip, descStart, dataStart, dataEnd, pages, k)
    ensures Readable(g, big, unzip, descStart, dataStart, dataEnd, pages, k)
  {
    var at := descStart + SIZEOF_DESC * k;
    ExtractSame(g, f, at, SIZEOF_DESC);
    if k < |pages| {
      forall pd: PageDesc ensures ReadDesc(g, big, unzip, descStart, dataStart, dataEnd, k, pages[k], pd) {
        assert ReadDesc(f, big, unzip, descStart, dataStart, dataEnd, k, pages[k], pd);
        if pd == Decode(big, Extract(f, at, SIZEOF_DESC)) {
          LeadsSame(f, g, unzip, dataStart, dataEnd, pd, pages[k]);
        }
      }
    }
  }

  lemma LeadsSame(f: Data, g: Data, unzip: Data -> Data, dataStart: nat, dataEnd: nat, pd: PageDesc, page: Page)
    requires SameView(g, f) && Leads(f, unzip, dataStart, dataEnd, pd, page)
    ensures Leads(g, unzip, dataStart, dataEnd, pd, page)
  {
    ExtractSame(g, f, pd.offset, pd.size);
  }

  lemma ExtractSame(f: Data, g: Data, o: nat, n: nat)
    requires SameView(f, g)
    ensures Extract(f, o, n) == Extract(g, o, n)
  {
    forall k | 0 <= k < n ensures Extract(f, o, n)[k] == Extract(g, o, n)[k] {
      assert View(f, o + k) == View(g, o + k);
    }
  }

  /** Page j of block b is in its place in the list of pages. */
  ghost predicate Listed(blocks: seq<PhysBlock>, pages: seq<Page>, b: nat, j: nat) {
    b < |blocks| && j < |blocks[b].pages| && PagesBefore(blocks, b) + j < |pages| ==>
      pages[PagesBefore(blocks, b) + j] == blocks[b].pages[j]
  }

  lemma {:induction false} BeforeLater(blocks: seq<PhysBlock>, b: nat, c: nat)
    requires b < c <= |blocks|
    ensures PagesBefore(blocks, b) + |blocks[b].pages| <= PagesBefore(blocks, c)
    decreases c
  {
    if b + 1 < c {
      BeforeLater(blocks, b, c - 1);
    }
  }

  lemma ListedMore(blocks: seq<PhysBlock>, pages: seq<Page>, b: nat, j: nat)
    requires b < |blocks| && j < |blocks[b].pages| && |pages| == PagesBefore(blocks, b) + j
    requires forall c: nat, i: nat :: Listed(blocks, pages, c, i)
    ensures forall c: nat, i: nat :: Listed(blocks, pages + [blocks[b].pages[j]], c, i)
  {
    var pages' := pages + [blocks[b].pages[j]];
    forall c: nat, i: nat ensures Listed(blocks, pages', c, i) {
      assert Listed(blocks, pages, c, i);
      if b < c < |blocks| {
        BeforeLater(blocks, b, c);
      } else if c < b {
        BeforeLater(blocks, c, b);
      }
    }
  }
}
