/** The three ways a dispatch table grows while it is being built, and why each keeps it well
    formed. */
module DispatchSteps {
  import opened PhysPages
  import opened DispatchView

  function HolderSection(x: nat, table: nat): Section {
    Section(Subpage(table), x * PAGE, 0, PAGE)
  }

  /** subpage_register: entries [start, start + len) of the table now lead to section n. */
  function Fill(table: seq<nat>, start: nat, len: nat, n: nat): (r: seq<nat>)
    ensures |r| == |table|
  {
    seq(|table|, i requires 0 <= i < |table| => if start <= i < start + len then n else table[i])
  }

  function EmptyTable(): (r: seq<nat>)
    ensures |r| == PAGE
  {
    seq(PAGE, _ => SECTION_UNASSIGNED)
  }

  /** sec shares no address with any guest section of v. */
  ghost predicate Free(v: View, sec: Section) {
    forall g | DUMMIES <= g < |v.sections| && v.sections[g].mr.Guest? :: v.sections[g].Disjoint(sec)
  }

  ghost predicate AllUsed(v: View) {
    forall s: nat | v.Holder(s) :: v.Used(s)
  }

  lemma PageOf(sec: Section)
    requires sec.Fits()
    ensures sec.asOffset / PAGE < PAGES < TREE_PAGES
  {
  }

  /** Pages keep the parts they had. */
  lemma KeepFine(v: View, v': View, f: nat)
    requires v.Ok() && DUMMIES <= f < |v.sections| && v.sections[f].Fine()
    requires v.sections <= v'.sections
    requires forall y: nat | y < TREE_PAGES && v.Page(y) != SECTION_UNASSIGNED :: v'.Page(y) == v.Page(y)
    ensures v'.sections[f] == v.sections[f]
    ensures v'.Page(v.sections[f].asOffset / PAGE) == v.Page(v.sections[f].asOffset / PAGE)
    ensures v.FineOk(f)
  {
    assert v.FineOk(f);
    PageOf(v.sections[f]);
  }

  lemma KeepUsed(v: View, v': View, s: nat)
    requires v.Ok() && v.Holder(s) && v.Used(s)
    requires v.sections <= v'.sections
    requires forall y: nat | y < TREE_PAGES && v.Page(y) != SECTION_UNASSIGNED :: v'.Page(y) == v.Page(y)
    ensures v'.Holder(s) && v'.Used(s)
  {
    var f :| DUMMIES <= f < |v.sections| && v.sections[f].Fine() && v.Page(v.sections[f].asOffset / PAGE) == s;
    KeepFine(v, v', f);
    assert v'.sections[f].Fine() && v'.Page(v'.sections[f].asOffset / PAGE) == s;
  }

  /** Every holder of v' but skip was a holder in use of v, so it is in use still. */
  lemma AllUsedKept(v: View, v': View, skip: nat)
    requires v.Ok() && v.sections <= v'.sections
    requires forall s: nat | v'.Holder(s) && s != skip :: v.Holder(s) && v.Used(s)
    requires forall y: nat | y < TREE_PAGES && v.Page(y) != SECTION_UNASSIGNED :: v'.Page(y) == v.Page(y)
    ensures forall s: nat | v'.Holder(s) && s != skip :: v'.Used(s)
  {
    forall s: nat | v'.Holder(s) && s != skip
      ensures v'.Used(s)
    {
      KeepUsed(v, v', s);
    }
  }

  /** An unassigned page gets a subpage table. */
  lemma AddHolder(v: View, v': View, x: nat)
    requires v.Ok() && x < PAGES && v.Page(x) == SECTION_UNASSIGNED
    requires v'.sections == v.sections + [HolderSection(x, |v.tables|)]
    requires v'.tables == v.tables + [EmptyTable()]
    requires forall y: nat | y < TREE_PAGES :: v'.Page(y) == if y == x then |v.sections| else v.Page(y)
    ensures v'.Ok() && v'.Holder(|v.sections|)
    ensures forall s: nat | v'.Holder(s) :: s == |v.sections| || v.Holder(s)
  {
    var n := |v.sections|;
    forall s: nat | v.Holder(s)
      ensures v'.Holder(s) && v'.HolderOk(s) && v.sections[s].mr.table < |v.tables|
    {
      assert v.HolderOk(s);
    }
    assert v'.HolderOk(n);
    forall f | DUMMIES <= f < n && v.sections[f].Fine()
      ensures v'.FineOk(f)
    {
      KeepFine(v, v', f);
    }
    HolderPages(v, v', x);
  }

  lemma AddHolderUsed(v: View, v': View, x: nat)
    requires v.Ok() && AllUsed(v) && x < PAGES && v.Page(x) == SECTION_UNASSIGNED
    requires v'.sections == v.sections + [HolderSection(x, |v.tables|)]
    requires v'.tables == v.tables + [EmptyTable()]
    requires forall y: nat | y < TREE_PAGES :: v'.Page(y) == if y == x then |v.sections| else v.Page(y)
    ensures v'.Ok() && v'.Holder(|v.sections|)
    ensures forall s: nat | v'.Holder(s) && s != |v.sections| :: v'.Used(s)
  {
    AddHolder(v, v', x);
    AllUsedKept(v, v', |v.sections|);
  }

  lemma HolderPages(v: View, v': View, x: nat)
    requires v.Ok() && x < PAGES && v.Page(x) == SECTION_UNASSIGNED
    requires v'.sections == v.sections + [HolderSection(x, |v.tables|)]
    requires forall y: nat | y < TREE_PAGES :: v'.Page(y) == if y == x then |v.sections| else v.Page(y)
    ensures v'.SectionsOk() && v'.PagesOk()
  {
  }

  /** A part of a page enters the table of that page. */
  ghost predicate FineStep(v: View, v': View, sec: Section) {
    && sec.mr.Guest? && sec.Fits() && sec.Fine()
    && var s := v.Page(sec.asOffset / PAGE);
    && v.Holder(s)
    && v.sections[s].mr.table < |v.tables|
    && v'.sections == v.sections + [sec]
    && v'.tables == v.tables[v.sections[s].mr.table :=
         Fill(v.tables[v.sections[s].mr.table], sec.asOffset % PAGE, sec.size, |v.sections|)]
    && forall y: nat | y < TREE_PAGES :: v'.Page(y) == v.Page(y)
  }

  lemma AddFine(v: View, v': View, sec: Section)
    requires v.Ok() && Free(v, sec) && FineStep(v, v', sec)
    ensures v'.Ok()
    ensures forall s: nat | v'.Holder(s) :: v.Holder(s)
    ensures v'.Holder(v.Page(sec.asOffset / PAGE)) && v'.Used(v.Page(sec.asOffset / PAGE))
  {
    var n, x := |v.sections|, sec.asOffset / PAGE;
    var h := v.Page(x);
    PageOf(sec);
    FineHolders(v, v', sec);
    FineFines(v, v', sec);
    assert v'.sections[n].Fine() && v'.Page(v'.sections[n].asOffset / PAGE) == h;
    assert v'.FineOk(n) by {
      assert v.HolderOk(h) && v.sections[h].asOffset == x * PAGE;
    }
  }

  lemma FineFines(v: View, v': View, sec: Section)
    requires v.Ok() && Free(v, sec) && FineStep(v, v', sec)
    ensures forall f | DUMMIES <= f < |v.sections| && v.sections[f].Fine() :: v'.FineOk(f)
  {
    PageOf(sec);
    var h := v.Page(sec.asOffset / PAGE);
    assert v.HolderOk(h);
    forall f | DUMMIES <= f < |v.sections| && v.sections[f].Fine()
      ensures v'.FineOk(f)
    {
      KeepFine(v, v', f);
      assert v.sections[f].Disjoint(sec);
    }
  }

  lemma FineHolders(v: View, v': View, sec: Section)
    requires v.Ok() && Free(v, sec) && FineStep(v, v', sec)
    ensures forall s: nat | v.Holder(s) :: v'.Holder(s) && v'.HolderOk(s)
  {
    var n, x := |v.sections|, sec.asOffset / PAGE;
    var h := v.Page(x);
    PageOf(sec);
    assert v.HolderOk(h) && v.sections[h].asOffset == x * PAGE;
    forall s: nat | v.Holder(s)
      ensures v'.Holder(s) && v'.HolderOk(s)
    {
      assert v.HolderOk(s);
      if v.sections[s].mr.table == v.sections[h].mr.table {
        assert s == h;
      }
    }
  }

  /** Pages that a free section of whole pages covers are unassigned. */
  lemma RangeFree(v: View, sec: Section, x: nat)
    requires v.Ok() && AllUsed(v) && Free(v, sec) && sec.Fits() && sec.Whole() && sec.Contains(x * PAGE)
    ensures x < PAGES && v.Page(x) == SECTION_UNASSIGNED
  {
    var p := v.Page(x);
    if p != SECTION_UNASSIGNED {
      if v.Holder(p) {
        assert v.HolderOk(p) && v.Used(p);
        var f :| DUMMIES <= f < |v.sections| && v.sections[f].Fine() && v.Page(v.sections[f].asOffset / PAGE) == p;
        assert v.FineOk(f);
        PageOf(v.sections[f]);
        var y := v.sections[f].asOffset / PAGE;
        assert v.sections[p].Contains(y * PAGE);
        assert y == x;
        WholePageContains(sec, v.sections[f].asOffset);
        assert v.sections[f].Contains(v.sections[f].asOffset);
        assert false;
      } else {
        assert false;
      }
    }
  }

  /** A section of whole pages takes its pages over. */
  lemma AddWhole(v: View, v': View, sec: Section)
    requires v.Ok() && sec.mr.Guest? && sec.Fits() && sec.Whole()
    requires forall y: nat | y < TREE_PAGES && sec.Contains(y * PAGE) :: v.Page(y) == SECTION_UNASSIGNED
    requires v'.sections == v.sections + [sec] && v'.tables == v.tables
    requires forall y: nat | y < TREE_PAGES ::
               v'.Page(y) == if sec.Contains(y * PAGE) then |v.sections| else v.Page(y)
    ensures v'.Ok()
    ensures forall s: nat | v'.Holder(s) :: v.Holder(s)
  {
    WholePages(v, v', sec);
    WholeFines(v, v');
    forall s: nat | v.Holder(s)
      ensures v'.Holder(s) && v'.HolderOk(s)
    {
      assert v.HolderOk(s);
    }
  }

  lemma WholeFines(v: View, v': View)
    requires v.Ok() && v.sections <= v'.sections && v'.tables == v.tables
    requires forall y: nat | y < TREE_PAGES && v.Page(y) != SECTION_UNASSIGNED :: v'.Page(y) == v.Page(y)
    ensures forall f | DUMMIES <= f < |v.sections| && v.sections[f].Fine() :: v'.FineOk(f)
  {
    forall f | DUMMIES <= f < |v.sections| && v.sections[f].Fine()
      ensures v'.FineOk(f)
    {
      KeepFine(v, v', f);
    }
  }

  lemma WholePages(v: View, v': View, sec: Section)
    requires v.Ok() && sec.mr.Guest? && sec.Fits() && sec.Whole()
    requires forall y: nat | y < TREE_PAGES && sec.Contains(y * PAGE) :: v.Page(y) == SECTION_UNASSIGNED
    requires v'.sections == v.sections + [sec]
    requires forall y: nat | y < TREE_PAGES ::
               v'.Page(y) == if sec.Contains(y * PAGE) then |v.sections| else v.Page(y)
    ensures v'.SectionsOk() && v'.PagesOk()
  {
  }
}
