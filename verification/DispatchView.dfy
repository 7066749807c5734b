/** What a physical dispatch table means: the map of pages, the section array and the subpage
    tables, seen as one function from addresses to sections (exec.c). */
module DispatchView {
  import opened Radix
  import opened PhysPages
  import opened PhysCompact

  const PAGE := 4096
  const SPACE := 0x1_0000_0000_0000_0000
  const PAGES := 0x10_0000_0000_0000
  /** How many page numbers the six levels can tell apart. */
  const TREE_PAGES := 0x40_0000_0000_0000
  /** P_L2_LEVELS for 12 page bits. */
  const LEVELS := 6
  /** The sections every dispatch table starts with: unassigned, notdirty, rom, watch. */
  const DUMMIES := 4

  datatype Region = Unassigned | NotDirty | Rom | Watch | Subpage(table: nat) | Guest(id: int)

  datatype Section = Section(mr: Region, asOffset: nat, regionOffset: int, size: nat) {

    predicate Contains(a: nat) {
      asOffset <= a < asOffset + size
    }

    /** The test of phys_page_find: size.hi || range_covers_byte(offset, size.lo, a). */
    predicate InRange(a: nat) {
      size >= SPACE || (asOffset <= a && a <= (asOffset + size - 1) % SPACE)
    }

    /** Made of whole pages. */
    predicate Whole() {
      asOffset % PAGE == 0 && size % PAGE == 0 && size > 0
    }

    /** A proper part of one page. */
    predicate Fine() {
      0 < size < PAGE && asOffset % PAGE + size <= PAGE
    }

    predicate Fits() {
      asOffset + size <= SPACE && (Whole() || Fine())
    }

    ghost predicate Disjoint(other: Section) {
      forall a: nat :: !(Contains(a) && other.Contains(a))
    }

    /** This is the part of whole that starts delta bytes into it. */
    predicate PartOf(whole: Section) {
      && mr == whole.mr
      && whole.asOffset <= asOffset
      && asOffset + size <= whole.asOffset + whole.size
      && regionOffset - asOffset == whole.regionOffset - whole.asOffset
    }
  }

  /** A dispatch table: the section the page map gives to every page, the sections and the
      subpage tables. */
  datatype View = View(page: nat -> nat, sections: seq<Section>, tables: seq<seq<nat>>) {

    function Page(x: nat): nat {
      page(x)
    }

    /** phys_page_find. */
    ghost function Find(a: nat): nat {
      var s := Page(a / PAGE);
      if s < |sections| && sections[s].InRange(a) then s else SECTION_UNASSIGNED
    }

    /** address_space_lookup_region with resolve_subpage. */
    ghost function Lookup(a: nat): nat {
      var s := Find(a);
      if s < |sections| && sections[s].mr.Subpage? && sections[s].mr.table < |tables|
         && |tables[sections[s].mr.table]| == PAGE
      then tables[sections[s].mr.table][a % PAGE]
      else s
    }

    predicate Holder(s: nat) {
      DUMMIES <= s < |sections| && sections[s].mr.Subpage?
    }

    ghost predicate SectionsOk() {
      && |sections| >= DUMMIES
      && sections[SECTION_UNASSIGNED] == Section(Unassigned, 0, 0, SPACE)
      && (forall s | 0 <= s < DUMMIES :: !sections[s].mr.Guest? && !sections[s].mr.Subpage?)
      && (forall s | DUMMIES <= s < |sections| :: sections[s].Fits() && (sections[s].mr.Guest? || Holder(s)))
    }

    ghost predicate PagesOk() {
      && (forall x: nat | x < TREE_PAGES ::
            Page(x) == SECTION_UNASSIGNED
            || (DUMMIES <= Page(x) < |sections| && sections[Page(x)].Whole() && sections[Page(x)].Contains(x * PAGE)))
      && (forall s, x: nat | DUMMIES <= s < |sections| && x < TREE_PAGES && sections[s].Whole() ::
            sections[s].Contains(x * PAGE) ==> Page(x) == s)
    }

    /** Section s is a page with a table; the entries of the table lead to parts of the page. */
    ghost predicate HolderOk(s: nat)
      requires Holder(s)
    {
      var h := sections[s];
      && h.Whole() && h.size == PAGE
      && h.mr.table < |tables| && |tables[h.mr.table]| == PAGE
      && forall o | 0 <= o < PAGE ::
           var f := tables[h.mr.table][o];
           f == SECTION_UNASSIGNED
           || (DUMMIES <= f < |sections| && sections[f].mr.Guest? && sections[f].Fine()
               && sections[f].Contains(h.asOffset + o))
    }

    /** Section f, part of a page, is what the table of that page holds for its bytes. */
    ghost predicate FineOk(f: nat)
      requires f < |sections|
    {
      var s := Page(sections[f].asOffset / PAGE);
      && sections[f].mr.Guest?
      && Holder(s)
      && sections[s].mr.table < |tables| && |tables[sections[s].mr.table]| == PAGE
      && forall o | 0 <= o < PAGE ::
           sections[f].Contains(sections[s].asOffset + o) ==> tables[sections[s].mr.table][o] == f
    }

    ghost predicate TablesOk() {
      && (forall s: nat, s': nat | Holder(s) && Holder(s') :: sections[s].mr == sections[s'].mr ==> s == s')
      && (forall s: nat | Holder(s) :: HolderOk(s))
      && (forall f | DUMMIES <= f < |sections| && sections[f].Fine() :: FineOk(f))
    }

    /** The page of a holder has at least one part in use. */
    ghost predicate Used(s: nat)
      requires Holder(s)
    {
      exists f :: DUMMIES <= f < |sections| && sections[f].Fine() && Page(sections[f].asOffset / PAGE) == s
    }

    ghost predicate Ok() {
      SectionsOk() && PagesOk() && TablesOk()
    }
  }

  ghost function PageMap(nodes: seq<Node>, root: Entry): nat -> nat {
    x => Walk(nodes, root, LEVELS, x)
  }

  /** The meaning of a well-formed table: an address is sent to the guest section that contains
      it, and to the unassigned section when there is none. */
  lemma LookupCorrect(v: View, a: nat)
    requires v.Ok() && a < SPACE
    ensures v.Lookup(a) == SECTION_UNASSIGNED
         || (DUMMIES <= v.Lookup(a) < |v.sections| && v.sections[v.Lookup(a)].mr.Guest?
             && v.sections[v.Lookup(a)].Contains(a))
    ensures forall s | DUMMIES <= s < |v.sections| && v.sections[s].mr.Guest? && v.sections[s].Contains(a) ::
              v.Lookup(a) == s
    ensures forall s: nat | v.Holder(s) && v.sections[s].Contains(a) :: v.Find(a) == s
    ensures v.Find(a) == v.Page(a / PAGE)
  {
    var x, o := a / PAGE, a % PAGE;
    var p := v.Page(x);
    if p != SECTION_UNASSIGNED {
      WholePageContains(v.sections[p], a);
    }
    if v.Holder(p) {
      assert v.HolderOk(p);
      assert v.sections[p].asOffset + o == a;
    }
    forall s | DUMMIES <= s < |v.sections| && v.sections[s].Contains(a)
      ensures v.sections[s].mr.Guest? ==> v.Lookup(a) == s
      ensures v.Holder(s) ==> p == s
    {
      if v.sections[s].Whole() {
        WholePageContains(v.sections[s], a);
        assert p == s;
      } else {
        assert v.FineOk(s);
        assert v.sections[s].asOffset / PAGE == x;
      }
    }
  }

  /** A section of whole pages contains an address exactly when it contains its page. */
  lemma WholePageContains(s: Section, a: nat)
    requires s.Whole()
    ensures s.Contains(a) <==> s.Contains(a / PAGE * PAGE)
  {
  }

  /** Compaction may send an unassigned page to a foreign section, but the range test of
      phys_page_find sends it back: no lookup changes. */
  lemma CompactionKeepsLookup(
      v: View, v': View, nodes: seq<Node>, root: Entry, nodes': seq<Node>, root': Entry, a: nat)
    requires v.Ok() && a < SPACE
    requires v'.sections == v.sections && v'.tables == v.tables
    requires v.page == PageMap(nodes, root) && v'.page == PageMap(nodes', root')
    requires Stands(nodes, root, nodes', root', Position(LEVELS, 0))
    ensures v'.Find(a) == v.Find(a) && v'.Lookup(a) == v.Lookup(a)
  {
    var x := a / PAGE;
    var top := Position(LEVELS, 0);
    LookupCorrect(v, a);
    SpanOfLevels();
    Bounds(top, x);
    var s := v'.Page(x);
    if s != v.Page(x) && s < |v.sections| && s != SECTION_UNASSIGNED {
      assert v.Page(x) == SECTION_UNASSIGNED && Found(nodes, root, top, s);
      var y: nat :| top.Covers(y) && Walk(nodes, root, LEVELS, y) == s;
      Bounds(top, y);
      assert v.Page(y) == s;
      ForeignSection(v, s, y, a);
    }
  }

  /** The section of another page is never in range. */
  lemma ForeignSection(v: View, s: nat, y: nat, a: nat)
    requires v.Ok() && a < SPACE && y < TREE_PAGES
    requires v.Page(y) == s != SECTION_UNASSIGNED && v.Page(a / PAGE) == SECTION_UNASSIGNED
    ensures s < |v.sections| && !v.sections[s].InRange(a)
  {
    if v.sections[s].InRange(a) {
      WholePageContains(v.sections[s], a);
      assert false;
    }
  }

  lemma SpanOfLevels()
    ensures Step(LEVELS) == TREE_PAGES >= PAGES
  {
    assert Step(2) == 512 * Step(1) == 512 * 512;
    assert Step(4) == 512 * Step(3) == 512 * 512 * Step(2);
    assert Step(6) == 512 * Step(5) == 512 * 512 * Step(4);
  }
}
