/** Building and searching the dispatch table of an address space (exec.c, phys_section_add ..
    mem_add, mem_begin, mem_commit, address_space_lookup_region). */
module Dispatch {
  import opened Radix
  import opened PhysPages
  import opened PhysCompact
  import opened PhysMap
  import opened DispatchView
  import opened DispatchSteps

  ghost predicate Apart(pieces: seq<Section>, sec: Section) {
    forall p | p in pieces :: p.Disjoint(sec)
  }

  ghost predicate Held(parts: seq<Section>, a: nat) {
    exists p :: p in parts && p.Contains(a)
  }

  /** parts cut whole up: each is a part of it and together they hold all its addresses. */
  ghost predicate Tiles(parts: seq<Section>, whole: Section) {
    && (forall p | p in parts :: p.PartOf(whole))
    && (forall a: nat | whole.Contains(a) :: Held(parts, a))
  }

  /** The guest sections are exactly the registered pieces. */
  ghost predicate Registered(sections: seq<Section>, pieces: seq<Section>) {
    && (forall s | DUMMIES <= s < |sections| && sections[s].mr.Guest? :: sections[s] in pieces)
    && (forall p | p in pieces :: p.mr.Guest? && exists s :: DUMMIES <= s < |sections| && sections[s] == p)
  }

  lemma RegisteredAdd(sections: seq<Section>, pieces: seq<Section>, sec: Section)
    requires Registered(sections, pieces) && |sections| >= DUMMIES
    ensures sec.mr.Guest? ==> Registered(sections + [sec], pieces + [sec])
    ensures !sec.mr.Guest? ==> Registered(sections + [sec], pieces)
  {
    var sections' := sections + [sec];
    assert sections'[|sections|] == sec;
    forall p | p in pieces
      ensures exists s :: DUMMIES <= s < |sections'| && sections'[s] == p
    {
      var s :| DUMMIES <= s < |sections| && sections[s] == p;
      assert sections'[s] == p;
    }
  }

  /** The pages of which some piece is a proper part. */
  ghost function FinePages(pieces: seq<Section>): set<nat> {
    set p | p in pieces && p.Fine() :: p.asOffset / PAGE
  }

  /** How many sections the pieces take: the fixed ones, the pieces, and one for every page with a table. */
  ghost function Need(pieces: seq<Section>): nat {
    if pieces == [] then DUMMIES else
      var first, sec := pieces[..|pieces| - 1], pieces[|pieces| - 1];
      Need(first) + 1 + if sec.Fine() && !Shared(first, sec.asOffset / PAGE) then 1 else 0
  }

  /** Some piece is a proper part of page x. */
  ghost predicate Shared(pieces: seq<Section>, x: nat) {
    exists p :: p in pieces && p.Fine() && p.asOffset / PAGE == x
  }

  lemma NeedNext(pieces: seq<Section>, sec: Section)
    ensures Need(pieces + [sec])
         == Need(pieces) + 1 + if sec.Fine() && !Shared(pieces, sec.asOffset / PAGE) then 1 else 0
  {
    assert (pieces + [sec])[..|pieces|] == pieces;
  }

  lemma NeedWhole(pieces: seq<Section>, sec: Section)
    requires sec.Whole()
    ensures Need(pieces + [sec]) == Need(pieces) + 1
  {
    NeedNext(pieces, sec);
  }

  lemma {:induction false} NeedIs(pieces: seq<Section>)
    ensures Need(pieces) == DUMMIES + |pieces| + |FinePages(pieces)|
  {
    if pieces != [] {
      var first, sec := pieces[..|pieces| - 1], pieces[|pieces| - 1];
      NeedIs(first);
      FinePagesNext(first, sec);
      assert sec.asOffset / PAGE in FinePages(first) <==> Shared(first, sec.asOffset / PAGE);
      assert pieces == first + [sec];
    }
  }

  lemma FinePagesNext(pieces: seq<Section>, sec: Section)
    ensures FinePages(pieces + [sec]) == FinePages(pieces) + if sec.Fine() then {sec.asOffset / PAGE} else {}
    ensures |FinePages(pieces + [sec])|
         == |FinePages(pieces)| + if sec.Fine() && sec.asOffset / PAGE !in FinePages(pieces) then 1 else 0
  {
    var x := sec.asOffset / PAGE;
    var pages := FinePages(pieces) + if sec.Fine() then {x} else {};
    forall y ensures y in FinePages(pieces + [sec]) <==> y in pages {
      if y in FinePages(pieces) {
        var p :| p in pieces && p.Fine() && p.asOffset / PAGE == y;
        assert p in pieces + [sec];
      }
      if y == x && sec.Fine() {
        assert sec in pieces + [sec];
      }
    }
    if sec.Fine() && x in FinePages(pieces) {
      assert pages == FinePages(pieces);
    }
  }

  lemma {:induction false} NeedGrows(pieces: seq<Section>, more: seq<Section>)
    ensures Need(pieces) <= Need(pieces + more)
    decreases |more|
  {
    if more == [] {
      assert pieces + more == pieces;
    } else {
      NeedNext(pieces, more[0]);
      NeedGrows(pieces + [more[0]], more[1..]);
      assert pieces + [more[0]] + more[1..] == pieces + more;
    }
  }

  /** A page has a table if and only if some piece is a proper part of it. */
  lemma TableNeeded(v: View, pieces: seq<Section>, x: nat)
    requires v.Ok() && AllUsed(v) && Registered(v.sections, pieces) && x < PAGES
    ensures v.Holder(v.Page(x)) <==> Shared(pieces, x)
  {
    if Shared(pieces, x) {
      SharedHeld(v, pieces, x);
    }
    if v.Holder(v.Page(x)) {
      HeldShared(v, pieces, x);
    }
  }

  lemma SharedHeld(v: View, pieces: seq<Section>, x: nat)
    requires v.TablesOk() && Registered(v.sections, pieces) && Shared(pieces, x)
    ensures v.Holder(v.Page(x))
  {
    var p :| p in pieces && p.Fine() && p.asOffset / PAGE == x;
    var f :| DUMMIES <= f < |v.sections| && v.sections[f] == p;
    assert v.FineOk(f);
  }

  lemma HeldShared(v: View, pieces: seq<Section>, x: nat)
    requires v.Ok() && AllUsed(v) && Registered(v.sections, pieces) && x < PAGES && v.Holder(v.Page(x))
    ensures Shared(pieces, x)
  {
    var s := v.Page(x);
    assert v.Used(s);
    var f :| DUMMIES <= f < |v.sections| && v.sections[f].Fine() && v.Page(v.sections[f].asOffset / PAGE) == s;
    var p := v.sections[f];
    assert v.FineOk(f) && p in pieces;
    SamePage(v, s, x, p.asOffset / PAGE);
  }

  lemma SamePage(v: View, s: nat, x: nat, y: nat)
    requires v.Ok() && v.Holder(s) && x < TREE_PAGES && y < TREE_PAGES && v.Page(x) == s == v.Page(y)
    ensures x == y
  {
    assert v.HolderOk(s);
    assert v.sections[s].Contains(x * PAGE) && v.sections[s].Contains(y * PAGE);
  }

  /** What mem_add makes of a section that begins with a page: whole pages, and what is left. */
  ghost function Rest(sec: Section): seq<Section> {
    if sec.size < PAGE then [sec] else
      var n := sec.size - sec.size % PAGE;
      [sec.(size := n)] + Behind(sec, n)
  }

  /** The part of a section behind its first n bytes, if there is any. */
  ghost function Behind(sec: Section, n: nat): seq<Section>
    requires n <= sec.size
  {
    if n == sec.size then [] else [Advance(sec, n)]
  }

  /** The pieces that mem_add makes of a section, in its order. */
  ghost function Cuts(sec: Section): seq<Section> {
    if sec.asOffset % PAGE == 0 then Rest(sec) else
      var left := PAGE - sec.asOffset % PAGE;
      if sec.size <= left then [sec] else [sec.(size := left)] + Rest(Advance(sec, left))
  }

  ghost function AllCuts(list: seq<Section>): seq<Section> {
    if list == [] then [] else AllCuts(list[..|list| - 1]) + Cuts(list[|list| - 1])
  }

  lemma {:induction false} NeedOfMore(list: seq<Section>, k: nat)
    requires k <= |list|
    ensures Need(AllCuts(list[..k])) <= Need(AllCuts(list))
  {
    if k == |list| {
      assert list[..k] == list;
    } else {
      var first := list[..|list| - 1];
      NeedOfMore(first, k);
      assert first[..k] == list[..k];
      NeedGrows(AllCuts(first), Cuts(list[|list| - 1]));
    }
  }

  /** What mem_add has yet to register when it has come to the end of now. */
  ghost function ToCome(remain: Section, now: Section): seq<Section>
    requires now.size <= remain.size
  {
    if now.size == remain.size then [] else Rest(Advance(remain, now.size))
  }

  /** The next piece of what remains. */
  function NextPiece(remain: Section): (now: Section)
    ensures now.size <= remain.size
  {
    if remain.size < PAGE then remain else remain.(size := remain.size - remain.size % PAGE)
  }

  /** It is a part of a page, or whole pages. */
  lemma NextFits(remain: Section)
    requires remain.size > 0 && remain.asOffset % PAGE == 0 && remain.asOffset + remain.size <= SPACE
    ensures var now := NextPiece(remain);
            && now.Fits() && now.PartOf(remain) && now.size > 0
            && (if remain.size < PAGE then now.Fine() else now.Whole())
            && (now.size == remain.size || (remain.asOffset + now.size) % PAGE == 0)
  {
  }

  lemma RestNext(remain: Section)
    ensures Rest(remain) == [NextPiece(remain)] + ToCome(remain, NextPiece(remain))
  {
  }

  /** The first piece, of size 0 if the section begins with a page. */
  function FirstPiece(section: Section): (now: Section)
    ensures now.size <= section.size
  {
    var left := PAGE - section.asOffset % PAGE;
    section.(size := if left == PAGE then 0 else if left < section.size then left else section.size)
  }

  lemma CutsFirst(section: Section)
    requires section.size > 0
    ensures var now := FirstPiece(section);
            (if now.size == 0 then [] else [now]) + ToCome(section, now) == Cuts(section)
  {
    assert Advance(section, 0) == section;
  }

  /** A part of a page entered into the table of the page is registered with the others. */
  lemma FineAdded(v: View, v': View, pieces: seq<Section>, sec: Section, holder: nat)
    requires v.Ok() && Free(v, sec) && FineStep(v, v', sec) && v.Page(sec.asOffset / PAGE) == holder
    requires Registered(v.sections, pieces) && sec.mr.Guest?
    requires forall s: nat | v.Holder(s) && s != holder :: v.Used(s)
    ensures v'.Ok() && AllUsed(v') && Registered(v'.sections, pieces + [sec])
  {
    RegisteredAdd(v.sections, pieces, sec);
    AddFine(v, v', sec);
    AllUsedKept(v, v', holder);
  }

  function Advance(sec: Section, n: nat): Section
    requires n <= sec.size
  {
    sec.(asOffset := sec.asOffset + n, regionOffset := sec.regionOffset + n, size := sec.size - n)
  }

  class AddressSpaceDispatch {
    const physMap: PhysPageMap
    var sections: seq<Section>
    var tables: seq<seq<nat>>
    /** The pieces registered so far. */
    ghost var pieces: seq<Section>

    ghost function Meaning(): View
      reads this, physMap
    {
      View(PageMap(physMap.nodes, physMap.root), sections, tables)
    }

    /** A table under construction. */
    ghost predicate Valid()
      reads this, physMap
    {
      && physMap.Valid() && physMap.levels == LEVELS
      && Meaning().Ok() && AllUsed(Meaning())
      && |sections| <= PAGE && |physMap.nodes| <= 11 * |sections|
      && Registered(sections, pieces)
    }

    /** The sections are those that the pieces need. */
    ghost predicate Counted()
      reads `sections, `pieces
    {
      |sections| == Need(pieces)
    }

    /** What phys_page_find needs to run, before and after compaction. */
    ghost predicate Searchable()
      reads this, physMap
    {
      && physMap.levels == LEVELS
      && SkipsOk(physMap.nodes, physMap.spots) && SkipOk(physMap.root, physMap.Top(), physMap.spots)
      && |sections| >= DUMMIES
      && (forall x: nat | x < TREE_PAGES :: Meaning().Page(x) < |sections|)
      && (forall s | 0 <= s < |sections| && sections[s].mr.Subpage? ::
            sections[s].mr.table < |tables| && |tables[sections[s].mr.table]| == PAGE)
    }

    /** Address a is sent to the piece that contains it, and to the unassigned section if there
        is none. */
    ghost predicate Serves(a: nat)
      reads this, physMap
    {
      ServedBy(sections, pieces, Meaning().Lookup(a), a)
    }

    /** mem_begin. */
    constructor MemBegin()
      ensures Valid() && fresh(physMap) && pieces == [] && Counted()
    {
      physMap := new PhysPageMap(LEVELS);
      sections := [Section(Unassigned, 0, 0, SPACE), Section(NotDirty, 0, 0, SPACE),
                   Section(Rom, 0, 0, SPACE), Section(Watch, 0, 0, SPACE)];
      tables := [];
      pieces := [];
    }

    /** phys_section_add; ok is false when the assertion on the number of sections fails. */
    method PhysSectionAdd(sec: Section) returns (ok: bool, n: nat)
      modifies `sections
      ensures ok == (old(|sections|) < PAGE)
      ensures ok ==> n == old(|sections|) && sections == old(sections) + [sec]
      ensures !ok ==> sections == old(sections)
    {
      ok := |sections| < PAGE;
      n := |sections|;
      if ok {
        sections := sections + [sec];
      }
    }

    /** phys_page_find. */
    method PhysPageFind(a: nat) returns (s: nat)
      requires Searchable() && a < SPACE
      ensures s == Meaning().Find(a) && s < |sections|
    {
      s := physMap.Descend(a / PAGE);
      assert s == Meaning().Page(a / PAGE);
      if !sections[s].InRange(a) {
        s := SECTION_UNASSIGNED;
      }
    }

    /** address_space_lookup_region. */
    method LookupRegion(a: nat, resolveSubpage: bool) returns (s: nat)
      requires Searchable() && a < SPACE
      ensures s == if resolveSubpage then Meaning().Lookup(a) else Meaning().Find(a)
    {
      s := PhysPageFind(a);
      if resolveSubpage && sections[s].mr.Subpage? {
        s := tables[sections[s].mr.table][a % PAGE];
      }
    }

    lemma ValidSearchable()
      requires Valid()
      ensures Searchable()
    {
      PlainSkips(physMap.nodes, physMap.spots);
      forall s | 0 <= s < |sections| && sections[s].mr.Subpage?
        ensures sections[s].mr.table < |tables| && |tables[sections[s].mr.table]| == PAGE
      {
        assert Meaning().Holder(s) && Meaning().HolderOk(s);
      }
    }

    lemma ValidServes(a: nat)
      requires Valid() && a < SPACE
      ensures Serves(a)
    {
      LookupCorrect(Meaning(), a);
    }

    lemma ApartFree(sec: Section)
      requires Valid() && Apart(pieces, sec)
      ensures Free(Meaning(), sec)
    {
    }

    /** A page without sections gets a subpage table (subpage_init and its registration). */
    method AddSubpage(x: nat) returns (ok: bool, n: nat)
      requires Valid() && x < PAGES && Meaning().Page(x) == SECTION_UNASSIGNED
      modifies this, physMap
      ensures ok <==> old(|sections|) < PAGE
      ensures ok ==> old(sections) <= sections && pieces == old(pieces) && |sections| == old(|sections|) + 1
      ensures ok ==> physMap.Valid() && |physMap.nodes| <= 11 * |sections| && |sections| <= PAGE
      ensures ok ==> Registered(sections, pieces)
      ensures ok ==> Meaning().Ok() && Meaning().Holder(n) && Meaning().Page(x) == n
      ensures ok ==> forall s: nat | Meaning().Holder(s) && s != n :: Meaning().Used(s)
    {
      ghost var v := Meaning();
      PagesOfMap();
      ok, n := NewSubpage(x);
      if ok {
        PagesOfMap();
        RegisteredAdd(v.sections, pieces, HolderSection(x, |v.tables|));
        AddHolderUsed(v, Meaning(), x);
      }
    }

    method NewSubpage(x: nat) returns (ok: bool, n: nat)
      requires physMap.Valid() && physMap.levels == LEVELS && DUMMIES <= |sections| <= PAGE
      requires |physMap.nodes| <= 11 * |sections|
      requires x < PAGES && physMap.Lookup(x) == SECTION_UNASSIGNED
      modifies `sections, `tables, physMap
      ensures ok == (old(|sections|) < PAGE) && (ok ==> n == old(|sections|))
      ensures !ok ==> sections == old(sections)
      ensures ok ==> sections == old(sections) + [HolderSection(x, old(|tables|))]
      ensures ok ==> tables == old(tables) + [EmptyTable()]
      ensures ok ==> physMap.Valid() && |physMap.nodes| <= 11 * |sections|
      ensures ok ==> forall y: nat | y < TREE_PAGES ::
                       physMap.Lookup(y) == if y == x then n else old(physMap.Lookup(y))
    {
      ok, n := PhysSectionAdd(HolderSection(x, |tables|));
      if ok {
        tables := tables + [EmptyTable()];
        SetPages(x, 1, n);
      }
    }

    /** The pages of the map, as the table sees them. */
    lemma PagesOfMap()
      requires physMap.levels == LEVELS
      ensures forall y: nat :: Meaning().Page(y) == physMap.Lookup(y)
    {
    }

    /** Give unassigned pages to section n. */
    method SetPages(first: nat, count: nat, n: nat)
      requires physMap.Valid() && physMap.levels == LEVELS && |physMap.nodes| + 11 <= 11 * PAGE
      requires DUMMIES <= n < PAGE && count > 0 && first + count <= PAGES
      requires forall y: nat | first <= y < first + count :: physMap.Lookup(y) == SECTION_UNASSIGNED
      modifies physMap
      ensures physMap.Valid() && |physMap.nodes| <= old(|physMap.nodes|) + 11
      ensures forall y: nat | y < TREE_PAGES ::
                physMap.Lookup(y) == if first <= y < first + count then n else old(physMap.Lookup(y))
    {
      SpanOfLevels();
      physMap.PhysPageSet(first, count, n);
    }

    /** register_subpage. */
    method RegisterSubpage(sec: Section) returns (ok: bool)
      requires Valid() && Counted() && sec.mr.Guest? && sec.Fits() && sec.Fine() && Apart(pieces, sec)
      modifies this, physMap
      ensures ok <==> Need(old(pieces) + [sec]) <= PAGE
      ensures ok ==> Valid() && Counted() && pieces == old(pieces) + [sec]
    {
      var base := sec.asOffset - sec.asOffset % PAGE;
      ValidSearchable();
      var existing := PhysPageFind(base);
      PageOf(sec);
      assert base / PAGE == sec.asOffset / PAGE;
      assert existing == Meaning().Page(sec.asOffset / PAGE) by {
        LookupCorrect(Meaning(), base);
      }
      ApartFree(sec);
      ExistingIsSubpage(Meaning(), sec);
      TableNeeded(Meaning(), pieces, sec.asOffset / PAGE);
      NeedNext(pieces, sec);
      assert sections[existing].mr.Subpage? || sections[existing].mr == Unassigned;
      var holder := existing;
      if !sections[existing].mr.Subpage? {
        ok, holder := AddSubpage(sec.asOffset / PAGE);
        if !ok {
          return;
        }
        assert Meaning().Page(sec.asOffset / PAGE) == holder;
      } else {
        assert Meaning().Holder(holder) && Meaning().Page(sec.asOffset / PAGE) == holder;
      }
      ok := FillSubpage(sec, holder);
    }

    /** The rest of register_subpage: enter sec into the table of its page. */
    method FillSubpage(sec: Section, holder: nat) returns (ok: bool)
      requires physMap.Valid() && physMap.levels == LEVELS && Meaning().Ok() && Registered(sections, pieces)
      requires |sections| <= PAGE && |physMap.nodes| <= 11 * |sections|
      requires Meaning().Holder(holder) && Meaning().Page(sec.asOffset / PAGE) == holder
      requires forall s: nat | Meaning().Holder(s) && s != holder :: Meaning().Used(s)
      requires sec.mr.Guest? && sec.Fits() && sec.Fine() && Apart(pieces, sec)
      modifies this
      ensures ok <==> old(|sections|) < PAGE
      ensures ok ==> Valid() && |sections| == old(|sections|) + 1 && pieces == old(pieces) + [sec]
    {
      ghost var v := Meaning();
      assert v.HolderOk(holder);
      var n;
      ok, n := PhysSectionAdd(sec);
      if !ok {
        return;
      }
      var t := sections[holder].mr.table;
      var start := sec.asOffset % PAGE;
      SubpageRegister(t, start, start + sec.size - 1, n);
      pieces := pieces + [sec];
      FineAdded(v, Meaning(), old(pieces), sec, holder);
    }

    /** subpage_register. */
    method SubpageRegister(t: nat, start: nat, end: nat, n: nat)
      requires t < |tables| && |tables[t]| == PAGE && start <= end < PAGE
      modifies `tables
      ensures tables == old(tables)[t := Fill(old(tables[t]), start, end - start + 1, n)]
    {
      var idx, table := start, tables[t];
      while idx <= end
        invariant start <= idx <= end + 1 && |table| == PAGE
        invariant forall i | 0 <= i < PAGE :: table[i] == if start <= i < idx then n else old(tables[t])[i]
      {
        table := table[idx := n];
        idx := idx + 1;
      }
      assert table == Fill(old(tables[t]), start, end - start + 1, n);
      tables := tables[t := table];
    }

    /** register_multipage. */
    method RegisterMultipage(sec: Section) returns (ok: bool)
      requires Valid() && Counted() && sec.mr.Guest? && sec.Fits() && sec.Whole() && Apart(pieces, sec)
      modifies this, physMap
      ensures ok <==> Need(old(pieces) + [sec]) <= PAGE
      ensures ok ==> Valid() && Counted() && pieces == old(pieces) + [sec]
    {
      NeedWhole(pieces, sec);
      ghost var v := Meaning();
      ApartFree(sec);
      forall y: nat | sec.Contains(y * PAGE)
        ensures y < PAGES && v.Page(y) == SECTION_UNASSIGNED
      {
        RangeFree(v, sec, y);
      }
      var n;
      ok, n := PhysSectionAdd(sec);
      if !ok {
        return;
      }
      var first, count := sec.asOffset / PAGE, sec.size / PAGE;
      forall y: nat
        ensures first <= y < first + count <==> sec.Contains(y * PAGE)
        ensures physMap.Lookup(y) == v.Page(y)
      {
      }
      SetPages(first, count, n);
      PagesOfMap();
      RegisteredAdd(old(sections), pieces, sec);
      pieces := pieces + [sec];
      ghost var v' := Meaning();
      AddWhole(v, v', sec);
      AllUsedKept(v, v', SECTION_UNASSIGNED);
    }

    /** mem_add: cut a section into parts of pages and runs of whole pages and register each. */
    method MemAdd(section: Section) returns (ok: bool, ghost parts: seq<Section>)
      requires Valid() && Counted() && section.mr.Guest? && section.size > 0
      requires section.asOffset + section.size <= SPACE && Apart(pieces, section)
      modifies this, physMap
      ensures ok <==> Need(old(pieces) + Cuts(section)) <= PAGE
      ensures ok ==> Valid() && Counted() && pieces == old(pieces) + parts
      ensures ok ==> parts == Cuts(section) && Tiles(parts, section)
    {
      ghost var before := pieces;
      var now;
      ok, now, parts := RegisterHead(section);
      var remain := section;
      while ok && remain.size != now.size
        invariant ok ==> Valid() && Counted() && pieces == before + parts && CutTo(parts, section, remain, now)
        invariant !ok ==> Need(before + Cuts(section)) > PAGE
        decreases ok, remain.size, if now.size == 0 then 1 else 0
      {
        ok, remain, now, parts := RegisterTurn(section, remain, now, parts, before);
      }
      if ok {
        TilesAll(parts, section, remain, now);
        Enough();
      }
    }

    lemma Enough()
      requires Valid() && Counted()
      ensures Need(pieces) <= PAGE
    {
    }

    /** The body of the loop of mem_add. */
    method RegisterTurn(section: Section, remain: Section, now: Section, ghost parts: seq<Section>,
                        ghost before: seq<Section>)
      returns (ok: bool, remain': Section, now': Section, ghost parts': seq<Section>)
      requires Valid() && Counted() && section.mr.Guest? && section.asOffset + section.size <= SPACE
      requires Apart(before, section) && pieces == before + parts
      requires CutTo(parts, section, remain, now) && remain.size != now.size
      modifies this, physMap
      ensures ok ==> Valid() && Counted() && pieces == before + parts' && CutTo(parts', section, remain', now')
      ensures !ok ==> Need(before + Cuts(section)) > PAGE
      ensures remain'.size < remain.size || (remain'.size == remain.size && now.size == 0 < now'.size)
    {
      AdvanceTiled(parts, section, remain, now);
      remain' := Advance(remain, now.size);
      RestApart(before, parts, section, remain');
      NextFits(remain');
      ok, now' := RegisterNext(remain');
      parts' := parts + [now'];
      Associate(before, parts, now');
      CutOn(parts, section, remain, now, remain', now');
      if !ok {
        GrowsTo(before, parts', section, remain', now');
      }
    }

    /** The start of mem_add: a first page that the section enters in its middle. */
    method RegisterHead(section: Section) returns (ok: bool, now: Section, ghost parts: seq<Section>)
      requires Valid() && Counted() && section.mr.Guest? && section.size > 0
      requires section.asOffset + section.size <= SPACE && Apart(pieces, section)
      modifies this, physMap
      ensures ok ==> Valid() && Counted() && pieces == old(pieces) + parts && CutTo(parts, section, section, now)
      ensures ok <==> Need(old(pieces) + parts) <= PAGE
      ensures !ok ==> Need(old(pieces) + Cuts(section)) > PAGE
    {
      CutFirst(section);
      parts := [];
      now := section;
      if section.asOffset % PAGE != 0 {
        var left := PAGE - section.asOffset % PAGE;
        now := now.(size := if left < now.size then left else now.size);
        RestApart(pieces, [], section, section);
        assert now.PartOf(section) && pieces == pieces + [];
        ok := RegisterSubpage(now);
        parts := [now];
        assert now == FirstPiece(section);
        if !ok {
          GrowsTo(old(pieces), parts, section, section, now);
        }
      } else {
        now := now.(size := 0);
        ok := true;
        assert pieces + parts == pieces;
      }
    }

    /** The body of the loop of mem_add: register the next piece of what remains. */
    method RegisterNext(remain: Section) returns (ok: bool, now: Section)
      requires Valid() && Counted() && remain.mr.Guest? && remain.size > 0 && remain.asOffset % PAGE == 0
      requires remain.asOffset + remain.size <= SPACE
      requires Apart(pieces, NextPiece(remain))
      modifies this, physMap
      ensures now == NextPiece(remain)
      ensures ok <==> Need(old(pieces) + [now]) <= PAGE
      ensures ok ==> Valid() && Counted() && pieces == old(pieces) + [now]
    {
      NextFits(remain);
      now := remain;
      if remain.size < PAGE {
        ok := RegisterSubpage(now);
      } else if remain.asOffset % PAGE != 0 {
        assert false;
      } else {
        now := now.(size := now.size - now.size % PAGE);
        ok := RegisterMultipage(now);
      }
    }

    /** mem_commit: compaction, after which every address is still served. */
    method MemCommit()
      requires Valid()
      modifies physMap
      ensures Searchable() && forall a: nat | a < SPACE :: Serves(a)
    {
      ghost var v, nodes, root := Meaning(), physMap.nodes, physMap.root;
      ValidSearchable();
      forall a: nat | a < SPACE
        ensures ServedBy(sections, pieces, v.Lookup(a), a)
      {
        ValidServes(a);
      }
      physMap.PhysPageCompactAll();
      CommitServes(v, Meaning(), nodes, root, physMap.nodes, physMap.root, pieces);
    }
  }

  /** What has been cut off section, up to the end of now, is parts. */
  ghost predicate CutTo(parts: seq<Section>, section: Section, remain: Section, now: Section) {
    TiledTo(parts, section, remain, now) && parts + ToCome(remain, now) == Cuts(section)
  }

  lemma CutOn(parts: seq<Section>, section: Section, remain: Section, now: Section, remain': Section, now': Section)
    requires CutTo(parts, section, remain, now) && now.size != remain.size
    requires remain' == Advance(remain, now.size) && now' == NextPiece(remain')
    ensures CutTo(parts + [now'], section, remain', now')
  {
    assert TiledTo(parts + [now'], section, remain', now') by {
      AdvanceTiled(parts, section, remain, now);
      TileOne(parts, section, remain', now');
    }
    assert parts + [now'] + ToCome(remain', now') == Cuts(section) by {
      CutNext(parts, section, remain');
    }
  }

  lemma CutNext(parts: seq<Section>, section: Section, remain: Section)
    requires parts + Rest(remain) == Cuts(section)
    ensures parts + [NextPiece(remain)] + ToCome(remain, NextPiece(remain)) == Cuts(section)
  {
    RestNext(remain);
    SeqSplit(parts, NextPiece(remain), ToCome(remain, NextPiece(remain)));
  }

  lemma SeqSplit(a: seq<Section>, b: Section, c: seq<Section>)
    ensures a + [b] + c == a + ([b] + c)
  {
  }

  /** The first piece, if the section does not begin with a page. */
  lemma CutFirst(section: Section)
    requires section.size > 0
    ensures var now := FirstPiece(section);
            CutTo(if now.size == 0 then [] else [now], section, section, now)
  {
    var now := FirstPiece(section);
    CutsFirst(section);
    if now.size > 0 {
      TileOne([], section, section, now);
      assert [] + [now] == [now];
    }
  }

  lemma GrowsTo(pieces: seq<Section>, parts: seq<Section>, section: Section, remain: Section, now: Section)
    requires now.size <= remain.size && parts + ToCome(remain, now) == Cuts(section)
    ensures Need(pieces + parts) <= Need(pieces + Cuts(section))
  {
    NeedGrows(pieces + parts, ToCome(remain, now));
    assert pieces + parts + ToCome(remain, now) == pieces + Cuts(section);
  }

  /** Section number s is the piece that contains address a, or the unassigned section if there is none. */
  ghost predicate ServedBy(sections: seq<Section>, pieces: seq<Section>, s: nat, a: nat) {
    && (s == SECTION_UNASSIGNED || (s < |sections| && sections[s] in pieces && sections[s].Contains(a)))
    && (forall p | p in pieces && p.Contains(a) :: s < |sections| && sections[s] == p)
  }

  /** Compaction changes no lookup. */
  lemma CommitServes(v: View, v': View, nodes: seq<Node>, root: Entry, nodes': seq<Node>, root': Entry,
                     pieces: seq<Section>)
    requires v.Ok() && v'.sections == v.sections && v'.tables == v.tables
    requires v.page == PageMap(nodes, root) && v'.page == PageMap(nodes', root')
    requires Stands(nodes, root, nodes', root', Position(LEVELS, 0))
    requires forall a: nat | a < SPACE :: ServedBy(v.sections, pieces, v.Lookup(a), a)
    ensures forall a: nat | a < SPACE :: ServedBy(v.sections, pieces, v'.Lookup(a), a)
    ensures forall x: nat | x < TREE_PAGES :: v'.Page(x) < |v.sections|
  {
    forall a: nat | a < SPACE
      ensures ServedBy(v.sections, pieces, v'.Lookup(a), a)
    {
      CompactionKeepsLookup(v, v', nodes, root, nodes', root', a);
    }
    forall x: nat | x < TREE_PAGES
      ensures v'.Page(x) < |v.sections|
    {
      CompactedPage(v, nodes, root, nodes', root', x);
    }
  }

  /** A compacted page map only ever names sections that the plain one names. */
  lemma CompactedPage(v: View, nodes: seq<Node>, root: Entry, nodes': seq<Node>, root': Entry, x: nat)
    requires v.Ok() && v.page == PageMap(nodes, root) && x < TREE_PAGES
    requires Stands(nodes, root, nodes', root', Position(LEVELS, 0))
    ensures PageMap(nodes', root')(x) < |v.sections|
  {
    var top := Position(LEVELS, 0);
    SpanOfLevels();
    Bounds(top, x);
    var s := PageMap(nodes', root')(x);
    if s != v.Page(x) {
      assert Found(nodes, root, top, s);
      var y: nat :| top.Covers(y) && Walk(nodes, root, LEVELS, y) == s;
      Bounds(top, y);
      assert v.Page(y) == s;
    }
  }

  /** mem_add has registered exactly the first part of section, up to the end of now. */
  ghost predicate TiledTo(parts: seq<Section>, section: Section, remain: Section, now: Section) {
    && remain.PartOf(section) && remain.asOffset + remain.size == section.asOffset + section.size
    && now.asOffset == remain.asOffset && now.size <= remain.size
    && (now.size == 0 ==> remain == section)
    && (now.size == remain.size || (remain.asOffset + now.size) % PAGE == 0)
    && (forall p | p in parts :: p.PartOf(section) && p.asOffset + p.size <= remain.asOffset + now.size)
    && (forall a: nat | section.asOffset <= a < remain.asOffset + now.size :: Held(parts, a))
  }

  /** What remains of section is apart from everything registered. */
  lemma RestApart(pieces: seq<Section>, parts: seq<Section>, section: Section, remain: Section)
    requires Apart(pieces, section) && remain.PartOf(section)
    requires forall p | p in parts :: p.asOffset + p.size <= remain.asOffset
    ensures forall now: Section | now.PartOf(remain) :: Apart(pieces + parts, now)
  {
    forall now: Section, p | now.PartOf(remain) && p in pieces + parts
      ensures p.Disjoint(now)
    {
      forall a: nat
        ensures !(p.Contains(a) && now.Contains(a))
      {
        assert now.Contains(a) ==> section.Contains(a);
        if p in pieces {
          assert p.Disjoint(section);
        }
      }
    }
  }

  lemma Associate(pieces: seq<Section>, parts: seq<Section>, now: Section)
    ensures pieces + parts + [now] == pieces + (parts + [now])
  {
  }

  /** Moving on to the first address that is not yet registered. */
  lemma AdvanceTiled(parts: seq<Section>, section: Section, remain: Section, now: Section)
    requires TiledTo(parts, section, remain, now) && now.size != remain.size
    ensures var rest := Advance(remain, now.size);
            && rest.PartOf(section) && rest.asOffset + rest.size == section.asOffset + section.size
            && rest.size > 0 && rest.asOffset % PAGE == 0
            && (forall p | p in parts :: p.asOffset + p.size <= rest.asOffset)
            && (forall a: nat | section.asOffset <= a < rest.asOffset :: Held(parts, a))
            && (rest.size < remain.size || now.size == 0)
  {
  }

  /** Registering now, the next part of what remains, extends the tiling. */
  lemma TileOne(parts: seq<Section>, section: Section, remain: Section, now: Section)
    requires remain.PartOf(section) && remain.asOffset + remain.size == section.asOffset + section.size
    requires now.PartOf(remain) && now.asOffset == remain.asOffset && now.size > 0
    requires now.size == remain.size || (remain.asOffset + now.size) % PAGE == 0
    requires forall p | p in parts :: p.PartOf(section) && p.asOffset + p.size <= remain.asOffset
    requires forall a: nat | section.asOffset <= a < remain.asOffset :: Held(parts, a)
    ensures TiledTo(parts + [now], section, remain, now)
  {
    var parts' := parts + [now];
    forall a: nat | section.asOffset <= a < remain.asOffset + now.size
      ensures Held(parts', a)
    {
      if a < remain.asOffset {
        assert Held(parts, a);
        var p :| p in parts && p.Contains(a);
        assert p in parts';
      } else {
        assert now in parts' && now.Contains(a);
      }
    }
  }

  lemma TilesAll(parts: seq<Section>, section: Section, remain: Section, now: Section)
    requires CutTo(parts, section, remain, now) && now.size == remain.size
    ensures Tiles(parts, section) && parts == Cuts(section)
  {
  }

  /** The page of a free part of a page is unassigned or already has a table: the assertion of
      register_subpage. */
  lemma ExistingIsSubpage(v: View, sec: Section)
    requires v.Ok() && Free(v, sec) && sec.Fits() && sec.Fine()
    ensures v.Page(sec.asOffset / PAGE) == SECTION_UNASSIGNED || v.Holder(v.Page(sec.asOffset / PAGE))
  {
    var x := sec.asOffset / PAGE;
    PageOf(sec);
    var p := v.Page(x);
    if p != SECTION_UNASSIGNED && v.sections[p].mr.Guest? {
      WholePageContains(v.sections[p], sec.asOffset);
      assert sec.Contains(sec.asOffset);
      assert false;
    }
  }

  ghost predicate FlatView(list: seq<Section>) {
    && (forall i | 0 <= i < |list| ::
          list[i].mr.Guest? && list[i].size > 0 && list[i].asOffset + list[i].size <= SPACE)
    && (forall i, j | 0 <= i < j < |list| :: list[i].Disjoint(list[j]))
  }

  /** Every piece is part of a section of the list, and together they hold the whole list. */
  ghost predicate Covers(pieces: seq<Section>, list: seq<Section>) {
    && (forall p | p in pieces :: exists i :: 0 <= i < |list| && p.PartOf(list[i]))
    && (forall i, a: nat | 0 <= i < |list| && list[i].Contains(a) :: Held(pieces, a))
  }

  lemma CoversAdd(pieces: seq<Section>, parts: seq<Section>, list: seq<Section>, sec: Section)
    requires Covers(pieces, list) && Tiles(parts, sec)
    ensures Covers(pieces + parts, list + [sec])
  {
    var pieces', list' := pieces + parts, list + [sec];
    forall p | p in pieces'
      ensures exists i :: 0 <= i < |list'| && p.PartOf(list'[i])
    {
      if p in pieces {
        var i :| 0 <= i < |list| && p.PartOf(list[i]);
        assert p.PartOf(list'[i]);
      } else {
        assert p.PartOf(list'[|list|]);
      }
    }
    forall i, a: nat | 0 <= i < |list'| && list'[i].Contains(a)
      ensures Held(pieces', a)
    {
      if i < |list| {
        assert list[i].Contains(a) && Held(pieces, a);
        var p :| p in pieces && p.Contains(a);
        assert p in pieces';
      } else {
        var p :| p in parts && p.Contains(a);
        assert p in pieces';
      }
    }
  }

  lemma ApartNext(pieces: seq<Section>, list: seq<Section>, sec: Section)
    requires Covers(pieces, list)
    requires forall i | 0 <= i < |list| :: list[i].Disjoint(sec)
    ensures Apart(pieces, sec)
  {
    forall p, a: nat | p in pieces
      ensures !(p.Contains(a) && sec.Contains(a))
    {
      var i :| 0 <= i < |list| && p.PartOf(list[i]);
      assert p.Contains(a) ==> list[i].Contains(a);
    }
  }

  /** The section found for address a answers to the one section of the list that contains a,
      with the same region and the same offset into it; no section, no answer. */
  ghost predicate Agrees(d: AddressSpaceDispatch, list: seq<Section>, a: nat)
    reads d, d.physMap
  {
    var s := d.Meaning().Lookup(a);
    && (forall i | 0 <= i < |list| && list[i].Contains(a) ::
          s < |d.sections| && d.sections[s].PartOf(list[i]) && d.sections[s].Contains(a))
    && ((forall i | 0 <= i < |list| :: !list[i].Contains(a)) ==> s == SECTION_UNASSIGNED)
  }

  /** mem_begin, mem_add of every section of a flat view, mem_commit: the dispatch table answers
      every address as the flat list does. It fails if and only if the pieces, the pages that have to be
      shared and the fixed sections are more than there may be. */
  method Rebuild(list: seq<Section>) returns (ok: bool, d: AddressSpaceDispatch)
    requires FlatView(list)
    ensures ok ==> d.Searchable() && forall a: nat | a < SPACE :: Agrees(d, list, a)
    ensures ok <==> DUMMIES + |AllCuts(list)| + |FinePages(AllCuts(list))| <= PAGE
  {
    NeedIs(AllCuts(list));
    d := new AddressSpaceDispatch.MemBegin();
    var k := 0;
    ok := true;
    while ok && k < |list|
      invariant 0 <= k <= |list| && fresh(d) && fresh(d.physMap)
      invariant if ok then d.Valid() && d.Counted() && Added(d.pieces, list[..k]) else Need(AllCuts(list)) > PAGE
    {
      ok := AddNext(d, list, k);
      k := k + 1;
    }
    if ok {
      assert list[..k] == list;
      d.MemCommit();
      forall a: nat | a < SPACE
        ensures Agrees(d, list, a)
      {
        assert d.Serves(a);
        ServedAgrees(d, list, a);
      }
    }
  }

  /** The pieces are those of the sections of the list. */
  ghost predicate Added(pieces: seq<Section>, list: seq<Section>) {
    Covers(pieces, list) && pieces == AllCuts(list)
  }

  method AddNext(d: AddressSpaceDispatch, list: seq<Section>, k: nat) returns (ok: bool)
    requires FlatView(list) && k < |list| && d.Valid() && d.Counted() && Added(d.pieces, list[..k])
    modifies d, d.physMap
    ensures if ok then d.Valid() && d.Counted() && Added(d.pieces, list[..k + 1]) else Need(AllCuts(list)) > PAGE
  {
    ApartNext(d.pieces, list[..k], list[k]);
    ghost var pieces, parts := d.pieces, [];
    ok, parts := d.MemAdd(list[k]);
    CutsOfMore(list, k);
    if ok {
      AddedNext(pieces, parts, list, k);
    } else {
      NeedOfMore(list, k + 1);
    }
  }

  lemma CutsOfMore(list: seq<Section>, k: nat)
    requires k < |list|
    ensures AllCuts(list[..k + 1]) == AllCuts(list[..k]) + Cuts(list[k])
  {
    assert list[..k + 1][..k] == list[..k];
  }

  lemma AddedNext(pieces: seq<Section>, parts: seq<Section>, list: seq<Section>, k: nat)
    requires k < |list| && Added(pieces, list[..k]) && parts == Cuts(list[k]) && Tiles(parts, list[k])
    ensures Added(pieces + parts, list[..k + 1])
  {
    CutsOfMore(list, k);
    CoversAdd(pieces, parts, list[..k], list[k]);
    assert list[..k + 1] == list[..k] + [list[k]];
  }

  lemma ServedAgrees(d: AddressSpaceDispatch, list: seq<Section>, a: nat)
    requires d.Serves(a) && FlatView(list) && Covers(d.pieces, list)
    ensures Agrees(d, list, a)
  {
    var s := d.Meaning().Lookup(a);
    forall i | 0 <= i < |list| && list[i].Contains(a)
      ensures s < |d.sections| && d.sections[s].PartOf(list[i]) && d.sections[s].Contains(a)
    {
      assert Held(d.pieces, a);
      var p :| p in d.pieces && p.Contains(a);
      var j :| 0 <= j < |list| && p.PartOf(list[j]);
      assert list[j].Contains(a);
      assert i == j;
    }
    if s != SECTION_UNASSIGNED {
      var j :| 0 <= j < |list| && d.sections[s].PartOf(list[j]);
      assert list[j].Contains(a);
    }
  }
}
