/** Building, compacting and searching the physical page map (exec.c, phys_map_node_reserve ..
    phys_page_find). */
module PhysMap {
  import opened Radix
  import opened PhysPages
  import opened PhysCompact

  /** Where an entry is stored: the root of the map or a slot of a node. */
  datatype Place = Root | In(node: nat, slot: nat)

  /** How many nodes phys_page_set_level may allocate for pages [index, index + nb) below p:
      a range that touches one end of p needs one node per level, an inner range two. */
  function NodeBudget(p: Position, index: nat, nb: nat): nat
    requires p.height > 0
  {
    if index == p.First() || index + nb >= p.End() then p.height else 2 * p.height - 1
  }

  class PhysPageMap {
    const levels: nat
    var root: Entry
    var nodes: seq<Node>
    var nodesAlloc: nat
    ghost var spots: seq<Position>

    ghost predicate Valid()
      reads this
    {
      && levels > 0
      && NodesOk(nodes, spots)
      && root.skip == 1
      && EntryOk(root, Top(), spots)
      && |nodes| <= nodesAlloc
    }

    ghost function Top(): Position {
      Position(levels, 0)
    }

    /** The section the map assigns to page x. */
    ghost function Lookup(x: nat): nat
      reads `root, `nodes
    {
      Walk(nodes, root, levels, x)
    }

    ghost predicate PlaceOk(at: Place, p: Position)
      reads `nodes, `spots
    {
      match at
      case Root => p == Top()
      case In(k, j) => k < |nodes| && |nodes| == |spots| && j < L2_SIZE && |nodes[k]| == L2_SIZE
                       && spots[k].height > 0 && spots[k].Slot(j) == p
    }

    function EntryAt(at: Place): Entry
      requires at.In? ==> at.node < |nodes| && at.slot < |nodes[at.node]|
      reads `root, `nodes
    {
      match at
      case Root => root
      case In(k, j) => nodes[k][j]
    }

    constructor (levels: nat)
      requires levels > 0
      ensures Valid() && this.levels == levels && nodes == []
      ensures forall x: nat :: Lookup(x) == SECTION_UNASSIGNED
    {
      this.levels := levels;
      root := Entry(1, NODE_NIL);
      nodes := [];
      nodesAlloc := 0;
      spots := [];
    }

    method PhysMapNodeReserve(count: nat)
      requires Valid()
      modifies `nodesAlloc
      ensures Valid() && |nodes| + count <= nodesAlloc
    {
      if |nodes| + count > nodesAlloc {
        nodesAlloc := if nodesAlloc * 2 > 16 then nodesAlloc * 2 else 16;
        nodesAlloc := if nodesAlloc > |nodes| + count then nodesAlloc else |nodes| + count;
      }
    }

    /** The node below the entry at `at`, allocated first if there is none. */
    method NodeBelow(at: Place, ghost pos: Position, level: nat) returns (p: nat)
      requires Valid() && PlaceOk(at, pos) && pos.height == level + 1
      requires EntryAt(at).skip != 0
      requires EntryAt(at).ptr == NODE_NIL ==> |nodes| < nodesAlloc && |nodes| < NODE_NIL
      modifies `root, `nodes, `spots
      ensures Valid() && PlaceOk(at, pos)
      ensures EntryAt(at) == Entry(1, p) && p < |nodes| && spots[p] == pos
      ensures old(spots) <= spots && |nodes| <= old(|nodes|) + 1
      ensures SameOutside(old(nodes), nodes, old(spots), pos)
      ensures at.In? ==> root == old(root)
      ensures forall x: nat | pos.Covers(x) ::
                Walk(nodes, Entry(1, p), level + 1, x) == old(Walk(nodes, EntryAt(at), level + 1, x))
    {
      if EntryAt(at).ptr == NODE_NIL {
        p := |nodes|;
        FreshOk(level, pos, spots);
        SpotsGrow(nodes, spots, FreshNode(level), pos);
        ghost var n0, s0 := nodes, spots;
        nodes := nodes + [FreshNode(level)];
        spots := spots + [pos];
        ghost var n1 := nodes;
        match at {
          case Root =>
            root := Entry(1, p);
          case In(k, j) =>
            StoreOk(nodes, spots, k, j, Entry(1, p));
            nodes := nodes[k := nodes[k][j := Entry(1, p)]];
            SameOutsideTrans(n0, n1, nodes, s0, spots, pos);
        }
        forall x: nat | pos.Covers(x)
          ensures Walk(nodes, Entry(1, p), level + 1, x) == SECTION_UNASSIGNED
        {
          assert nodes[p] == FreshNode(level);
        }
      } else {
        p := EntryAt(at).ptr;
      }
    }

    /** One turn of the loop of phys_page_set_level: fill slot j of node p from index on. */
    method SetSlot(p: nat, j: nat, ghost pos: Position, index0: nat, nb0: nat, leaf: nat, level: nat)
      returns (index: nat, nb: nat)
      requires Valid() && p < |nodes| && spots[p] == pos && j < L2_SIZE && pos.height == level + 1
      requires pos.Slot(j).Covers(index0) && nb0 > 0
      requires leaf != NODE_NIL && leaf != SECTION_UNASSIGNED
      requires forall x: nat | pos.Covers(x) && index0 <= x < index0 + nb0 ::
                 Walk(nodes, Entry(1, p), level + 1, x) == SECTION_UNASSIGNED
      requires |nodes| + SlotBudget(pos.Slot(j), index0, nb0) <= nodesAlloc
      requires |nodes| + SlotBudget(pos.Slot(j), index0, nb0) <= NODE_NIL
      modifies `root, `nodes, `spots
      ensures Valid() && p < |nodes| && spots[p] == pos && root == old(root)
      ensures index0 <= index && index + nb == index0 + nb0
      ensures index == if index0 + nb0 < pos.Slot(j).End() then index0 + nb0 else pos.Slot(j).End()
      ensures old(spots) <= spots
      ensures |nodes| <= old(|nodes|) + SlotBudget(pos.Slot(j), index0, nb0)
      ensures SameOutside(old(nodes), nodes, old(spots), pos.Slot(j))
      ensures forall k | 0 <= k < old(|nodes|) && spots[k].height > pos.height :: nodes[k] == old(nodes[k])
      ensures forall x: nat | pos.Covers(x) ::
                Walk(nodes, Entry(1, p), level + 1, x)
                == if index0 <= x < index then leaf else old(Walk(nodes, Entry(1, p), level + 1, x))
      decreases level, 0
    {
      ghost var slot := pos.Slot(j);
      ghost var n0, s0 := nodes, spots;
      var step := Step(level);
      Bounds(slot, index0);
      if index0 % step == 0 && nb0 >= step {
        AlignedStart(slot, index0);
        StoreOk(nodes, spots, p, j, Entry(0, leaf));
        forall x: nat | pos.Covers(x)
          ensures Walk(nodes[p := nodes[p][j := Entry(0, leaf)]], Entry(1, p), level + 1, x)
               == if index0 <= x < index0 + step then leaf else Walk(nodes, Entry(1, p), level + 1, x)
        {
          StoreLeaf(nodes, spots, p, j, leaf, x);
          Bounds(slot, x);
        }
        nodes := nodes[p := nodes[p][j := Entry(0, leaf)]];
        index := index0 + step;
        nb := nb0 - step;
      } else {
        forall x: nat | slot.Covers(x)
          ensures pos.Covers(x)
          ensures Walk(nodes, Entry(1, p), level + 1, x) == Walk(nodes, nodes[p][j], level, x)
        {
          CoversSlot(pos, x);
        }
        assert EntryOk(nodes[p][j], slot, spots) by {
          assert NodeOk(nodes[p], pos, spots);
        }
        index, nb := PhysPageSetLevel(In(p, j), slot, index0, nb0, leaf, level - 1);
        forall x: nat | pos.Covers(x)
          ensures Walk(nodes, Entry(1, p), level + 1, x)
               == if index0 <= x < index then leaf else Walk(n0, Entry(1, p), level + 1, x)
        {
          Bounds(slot, x);
          WalkSlot(n0, nodes, s0, p, j, x);
          if slot.Covers(x) {
            assert Walk(nodes, EntryAt(In(p, j)), level, x)
                == if index0 <= x < index0 + nb0 then leaf else Walk(n0, n0[p][j], level, x);
            assert index0 <= x < index0 + nb0 <==> index0 <= x < index;
          }
        }
      }
    }

    /** Give the first pages of [index0, index0 + nb0) that lie below pos to leaf. */
    method PhysPageSetLevel(at: Place, ghost pos: Position, index0: nat, nb0: nat, leaf: nat, level: nat)
      returns (index: nat, nb: nat)
      requires Valid() && PlaceOk(at, pos) && pos.height == level + 1
      requires EntryAt(at).skip != 0
      requires pos.Covers(index0) && nb0 > 0
      requires leaf != NODE_NIL && leaf != SECTION_UNASSIGNED
      requires forall x: nat | pos.Covers(x) && index0 <= x < index0 + nb0 ::
                 Walk(nodes, EntryAt(at), level + 1, x) == SECTION_UNASSIGNED
      requires |nodes| + NodeBudget(pos, index0, nb0) <= nodesAlloc
      requires |nodes| + NodeBudget(pos, index0, nb0) <= NODE_NIL
      modifies `root, `nodes, `spots
      ensures Valid() && PlaceOk(at, pos)
      ensures index + nb == index0 + nb0
      ensures index == if index0 + nb0 < pos.End() then index0 + nb0 else pos.End()
      ensures old(spots) <= spots
      ensures |nodes| <= old(|nodes|) + NodeBudget(pos, index0, nb0)
      ensures EntryAt(at).skip == 1
      ensures SameOutside(old(nodes), nodes, old(spots), pos)
      ensures at.In? ==> root == old(root)
      ensures forall x: nat | pos.Covers(x) ::
                Walk(nodes, EntryAt(at), level + 1, x)
                == if index0 <= x < index0 + nb0 then leaf else old(Walk(nodes, EntryAt(at), level + 1, x))
      decreases level, 2
    {
      var p := NodeBelow(at, pos, level);
      label Below:
      index, nb := FillSlots(p, pos, index0, nb0, leaf, level);
      SameOutsideTrans(old(nodes), old@Below(nodes), nodes, old(spots), old@Below(spots), pos);
      forall x: nat | pos.Covers(x)
        ensures x < pos.End()
      {
        Bounds(pos, x);
      }
    }

    /** The loop of phys_page_set_level over the slots of node p. */
    method FillSlots(p: nat, ghost pos: Position, index0: nat, nb0: nat, leaf: nat, level: nat)
      returns (index: nat, nb: nat)
      requires Valid() && p < |nodes| && spots[p] == pos && pos.height == level + 1
      requires pos.Covers(index0) && nb0 > 0
      requires leaf != NODE_NIL && leaf != SECTION_UNASSIGNED
      requires forall x: nat | pos.Covers(x) && index0 <= x < index0 + nb0 ::
                 Walk(nodes, Entry(1, p), level + 1, x) == SECTION_UNASSIGNED
      requires |nodes| + NodeBudget(pos, index0, nb0) <= nodesAlloc + 1
      requires |nodes| + NodeBudget(pos, index0, nb0) <= NODE_NIL + 1
      modifies `root, `nodes, `spots
      ensures Valid() && p < |nodes| && spots[p] == pos && root == old(root)
      ensures index + nb == index0 + nb0
      ensures index == if index0 + nb0 < pos.End() then index0 + nb0 else pos.End()
      ensures old(spots) <= spots
      ensures |nodes| < old(|nodes|) + NodeBudget(pos, index0, nb0)
      ensures SameOutside(old(nodes), nodes, old(spots), pos)
      ensures forall k | 0 <= k < old(|nodes|) && spots[k].height > pos.height :: nodes[k] == old(nodes[k])
      ensures forall x: nat | pos.Covers(x) ::
                Walk(nodes, Entry(1, p), level + 1, x)
                == if index0 <= x < index then leaf else old(Walk(nodes, Entry(1, p), level + 1, x))
      decreases level, 1
    {
      ghost var n0, s0 := nodes, spots;
      index, nb := index0, nb0;
      var j := Digit(index, level);
      ghost var j0 := j;
      CoversSlot(pos, index);
      while nb > 0 && j < L2_SIZE
        invariant Valid() && p < |nodes| && spots[p] == pos && s0 <= spots && root == old(root)
        invariant SameOutside(n0, nodes, s0, pos)
        invariant forall k | 0 <= k < |n0| && spots[k].height > pos.height :: nodes[k] == n0[k]
        invariant j0 <= j <= L2_SIZE
        invariant Progress(pos, index0, nb0, j0, index, nb, j)
        invariant |nodes| <= |n0| + SlotsBudget(pos, index0, nb0, j0, nb, j)
        invariant forall x: nat | pos.Covers(x) ::
                    Walk(nodes, Entry(1, p), level + 1, x)
                    == if index0 <= x < index then leaf else Walk(n0, Entry(1, p), level + 1, x)
        decreases L2_SIZE - j
      {
        ghost var n1, s1, i1, b1 := nodes, spots, index, nb;
        ProgressHere(pos, index0, nb0, j0, index, nb, j);
        index, nb := SetSlot(p, j, pos, index, nb, leaf, level);
        SameOutsideWidens(n1, nodes, s1, pos, j);
        SameOutsideTrans(n0, n1, nodes, s0, s1, pos);
        ProgressNext(pos, index0, nb0, j0, i1, b1, j, index, nb);
        forall x: nat | pos.Covers(x)
          ensures Walk(nodes, Entry(1, p), level + 1, x)
               == if index0 <= x < index then leaf else Walk(n0, Entry(1, p), level + 1, x)
        {
          assert Walk(nodes, Entry(1, p), level + 1, x)
              == if i1 <= x < index then leaf else Walk(n1, Entry(1, p), level + 1, x);
        }
        j := j + 1;
      }
      ProgressDone(pos, index0, nb0, j0, index, nb, j);
    }

    /** phys_page_set: an unassigned page range is given to leaf, every other page keeps its
        section, and the reservation of 3 * levels nodes is never exhausted. */
    method PhysPageSet(index: nat, nb: nat, leaf: nat)
      requires Valid() && nb > 0 && index + nb <= Step(levels)
      requires leaf != NODE_NIL && leaf != SECTION_UNASSIGNED
      requires forall x: nat | index <= x < index + nb :: Lookup(x) == SECTION_UNASSIGNED
      requires |nodes| + 2 * levels <= NODE_NIL
      modifies this
      ensures Valid() && |nodes| < old(|nodes|) + 2 * levels
      ensures forall x: nat | x < Step(levels) ::
                Lookup(x) == if index <= x < index + nb then leaf else old(Lookup(x))
    {
      PhysMapNodeReserve(3 * levels);
      var level := levels - 1;
      assert level + 1 == levels;
      forall x: nat
        ensures Top().Covers(x) <==> x < Step(levels)
      {
        Bounds(Top(), x);
      }
      forall x: nat | index <= x < index + nb
        ensures Walk(nodes, EntryAt(Root), levels, x) == SECTION_UNASSIGNED
      {
        assert Lookup(x) == SECTION_UNASSIGNED;
      }
      label Reserved:
      var _, _ := PhysPageSetLevel(Root, Top(), index, nb, leaf, level);
      forall x: nat | x < Step(levels)
        ensures Lookup(x) == if index <= x < index + nb then leaf else old(Lookup(x))
      {
        assert Top().Covers(x);
        assert Walk(nodes, EntryAt(Root), level + 1, x) == Lookup(x);
        assert old@Reserved(Walk(nodes, EntryAt(Root), level + 1, x)) == old(Lookup(x));
      }
    }

    /** phys_page_compact: compact the entry at `at`, whose subtree is still that of n0. */
    method PhysPageCompact(at: Place, ghost pos: Position, ghost n0: seq<Node>)
      requires SkipsOk(nodes, spots) && NodesOk(n0, spots)
      requires PlaceOk(at, pos) && pos.height > 0
      requires EntryAt(at).skip == 1 && EntryOk(EntryAt(at), pos, spots)
      requires SameBelow(nodes, n0, spots, pos)
      modifies `root, `nodes
      ensures SkipsOk(nodes, spots) && PlaceOk(at, pos)
      ensures OnlyWithin(old(nodes), nodes, spots, pos)
      ensures at.In? ==> root == old(root)
      ensures SkipOk(EntryAt(at), pos, spots)
      ensures EntryAt(at).ptr == NODE_NIL <==> old(EntryAt(at)).ptr == NODE_NIL
      ensures Stands(n0, old(EntryAt(at)), nodes, EntryAt(at), pos)
      ensures AllDense(nodes, EntryAt(at), pos.height)
      decreases pos.height, 2
    {
      if EntryAt(at).ptr == NODE_NIL {
        DenseEnd(nodes, EntryAt(at), pos.height);
        return;
      }
      var p := EntryAt(at).ptr;
      var valid, validPtr := CompactSlots(p, n0);
      StandsPlain(n0, nodes, spots, p);
      if valid != 1 || EntryAt(at).skip + nodes[p][validPtr].skip >= 8 {
        DensePlain(nodes, spots, p);
        return;
      }
      JoinChild(at, pos, n0, p, validPtr);
    }

    /** The end of phys_page_compact: the entry skips node p, of which child v is the only one in use. */
    method JoinChild(at: Place, ghost pos: Position, ghost n0: seq<Node>, p: nat, v: nat)
      requires SkipsOk(nodes, spots) && NodesOk(n0, spots) && PlaceOk(at, pos)
      requires p < |spots| && spots[p] == pos && v < L2_SIZE && nodes[p][v].ptr != NODE_NIL
      requires SlotsStand(n0, nodes, spots, p) && DenseTo(nodes, spots, p, L2_SIZE)
      requires forall j | 0 <= j < L2_SIZE && j != v :: n0[p][j].ptr == NODE_NIL
      modifies `root, `nodes
      ensures SkipsOk(nodes, spots) && PlaceOk(at, pos) && OnlyWithin(old(nodes), nodes, spots, pos)
      ensures at.In? ==> root == old(root)
      ensures SkipOk(EntryAt(at), pos, spots) && EntryAt(at).ptr != NODE_NIL
      ensures Stands(n0, Entry(1, p), nodes, EntryAt(at), pos) && AllDense(nodes, EntryAt(at), pos.height)
    {
      StandsJoined(n0, nodes, spots, p, v);
      Store(at, pos, Joined(nodes[p][v]));
      StandsKept(n0, Entry(1, p), old(nodes), nodes, spots, EntryAt(at), pos);
      DenseJoined(old(nodes), old(nodes)[p][v], pos.height - 1);
      DenseKept(old(nodes), nodes, spots, EntryAt(at), pos);
    }

    /** The loop of phys_page_compact: compact the children of node p and count those in use. */
    method CompactSlots(p: nat, ghost n0: seq<Node>) returns (valid: nat, validPtr: nat)
      requires SkipsOk(nodes, spots) && NodesOk(n0, spots) && p < |nodes|
      requires SameBelow(nodes, n0, spots, spots[p])
      modifies `root, `nodes
      ensures SkipsOk(nodes, spots) && SlotsStand(n0, nodes, spots, p) && DenseTo(nodes, spots, p, L2_SIZE)
      ensures root == old(root)
      ensures forall m, j | 0 <= m < |nodes| && 0 <= j < L2_SIZE ::
                !Lower(spots[m].Slot(j), spots[p]) ==> nodes[m][j] == old(nodes[m][j])
      ensures valid == 1 ==> validPtr < L2_SIZE && nodes[p][validPtr].ptr != NODE_NIL
                             && forall j | 0 <= j < L2_SIZE && j != validPtr :: n0[p][j].ptr == NODE_NIL
      ensures forall v: nat | Joins(nodes[p], 1, v) :: valid == 1 && validPtr == v
      decreases spots[p].height, 1
    {
      ghost var n1 := nodes;
      validPtr, valid := L2_SIZE, 0;
      CompactedStart(n0, n1, spots, p);
      assert NodeOk(n0[p], spots[p], spots);
      var i := 0;
      while i < L2_SIZE
        invariant 0 <= i <= L2_SIZE && root == old(root)
        invariant CompactedTo(n0, n1, nodes, spots, p, i) && DenseTo(nodes, spots, p, i)
        invariant Counted(n0[p], i, valid, validPtr)
      {
        CountedNext(n0[p], i, valid, validPtr);
        if nodes[p][i].ptr == NODE_NIL {
          CompactedSkip(n0, n1, nodes, spots, p, i);
          DenseSkip(nodes, spots, p, i);
        } else {
          validPtr := i;
          valid := valid + 1;
          CompactSlot(p, i, n0, n1);
        }
        i := i + 1;
      }
      CountedAll(n0[p], nodes[p], valid, validPtr);
    }

    /** Compact child i of node p, which is in use. */
    method CompactSlot(p: nat, i: nat, ghost n0: seq<Node>, ghost n1: seq<Node>)
      requires NodesOk(n0, spots) && SkipsOk(n1, spots) && p < |spots| && i < L2_SIZE
      requires CompactedTo(n0, n1, nodes, spots, p, i) && DenseTo(nodes, spots, p, i)
      modifies `root, `nodes
      ensures CompactedTo(n0, n1, nodes, spots, p, i + 1) && DenseTo(nodes, spots, p, i + 1) && root == old(root)
      decreases spots[p].height, 0
    {
      assert NodeOk(n0[p], spots[p], spots);
      if nodes[p][i].skip != 0 {
        PhysPageCompact(In(p, i), spots[p].Slot(i), n0);
        CompactedStep(n0, n1, old(nodes), nodes, spots, p, i);
        DenseStep(old(nodes), nodes, spots, p, i);
      } else {
        CompactedSkip(n0, n1, nodes, spots, p, i);
        DenseSkip(nodes, spots, p, i);
      }
    }

    /** phys_page_compact_all. */
    method PhysPageCompactAll()
      requires Valid()
      modifies `root, `nodes
      ensures SkipsOk(nodes, spots) && SkipOk(root, Top(), spots)
      ensures Stands(old(nodes), old(root), nodes, root, Top()) && AllDense(nodes, root, levels)
    {
      PlainSkips(nodes, spots);
      PhysPageCompact(Root, Top(), nodes);
    }

    /** The descent of phys_page_find, on a plain or a compacted map. */
    method Descend(x: nat) returns (section: nat)
      requires levels > 0 && SkipsOk(nodes, spots) && SkipOk(root, Top(), spots)
      ensures section == Lookup(x)
    {
      var lp, i := root, levels;
      ghost var pos := Top();
      while lp.skip != 0 && i - lp.skip >= 0
        invariant 0 <= i <= levels && pos.height == i
        invariant SkipOk(lp, pos, spots)
        invariant Walk(nodes, lp, i, x) == Lookup(x)
        decreases i
      {
        if lp.ptr == NODE_NIL {
          return SECTION_UNASSIGNED;
        }
        i := i - lp.skip;
        pos := spots[lp.ptr].Slot(Digit(x, i));
        lp := nodes[lp.ptr][Digit(x, i)];
      }
      section := lp.ptr;
    }

    /** Overwrite the entry at `at`. */
    method Store(at: Place, ghost pos: Position, e: Entry)
      requires SkipsOk(nodes, spots) && PlaceOk(at, pos) && SkipOk(e, pos, spots)
      modifies `root, `nodes
      ensures SkipsOk(nodes, spots) && PlaceOk(at, pos) && EntryAt(at) == e
      ensures SameBelow(old(nodes), nodes, spots, pos)
      ensures OnlyWithin(old(nodes), nodes, spots, pos)
      ensures at.In? ==> root == old(root)
    {
      match at {
        case Root => root := e;
        case In(k, j) => nodes := nodes[k := nodes[k][j := e]];
      }
    }
  }

  /** Nodes that filling one slot may allocate. */
  ghost function SlotBudget(slot: Position, index: nat, nb: nat): nat {
    if index % Step(slot.height) == 0 && nb >= Step(slot.height) then 0
    else if slot.height == 0 then 0
    else NodeBudget(slot, index, nb)
  }

  /** Nodes that the slots before j have allocated: only a first slot entered in its middle and
      a last slot left in its middle need any. */
  ghost function SlotsBudget(pos: Position, index0: nat, nb0: nat, j0: nat, nb: nat, j: nat): nat
    requires pos.height > 0
  {
    if j == j0 then 0
    else if nb == 0 then NodeBudget(pos, index0, nb0) - 1
    else if index0 == pos.Slot(j0).First() then 0
    else pos.height - 1
  }

  /** Where the loop of phys_page_set_level stands when it is about to look at slot j. */
  ghost predicate Progress(pos: Position, index0: nat, nb0: nat, j0: nat, index: nat, nb: nat, j: nat)
    requires pos.height > 0
  {
    && nb0 > 0 && j0 < L2_SIZE && pos.Slot(j0).Covers(index0)
    && j0 <= j <= L2_SIZE
    && index0 <= index && index + nb == index0 + nb0
    && (j == j0 ==> index == index0)
    && (j > j0 && nb > 0 ==> index == pos.Slot(j - 1).End())
    && (j > j0 && nb == 0 ==> index <= pos.End())
  }

  lemma ProgressHere(pos: Position, index0: nat, nb0: nat, j0: nat, index: nat, nb: nat, j: nat)
    requires pos.height > 0 && Progress(pos, index0, nb0, j0, index, nb, j)
    requires nb > 0 && j < L2_SIZE
    ensures pos.Slot(j).Covers(index)
    ensures 1 + SlotsBudget(pos, index0, nb0, j0, nb, j) + SlotBudget(pos.Slot(j), index, nb)
         <= NodeBudget(pos, index0, nb0)
  {
    SlotBounds(pos, j);
    Bounds(pos.Slot(j), index);
    SlotBounds(pos, j0);
    Bounds(pos.Slot(j0), index0);
    if j > j0 {
      SlotBounds(pos, j - 1);
      FirstAligned(pos.Slot(j));
    }
    if index0 == pos.Slot(j0).First() {
      FirstAligned(pos.Slot(j0));
    }
  }

  lemma ProgressNext(pos: Position, index0: nat, nb0: nat, j0: nat, index: nat, nb: nat, j: nat, index': nat, nb': nat)
    requires pos.height > 0 && Progress(pos, index0, nb0, j0, index, nb, j)
    requires nb > 0 && j < L2_SIZE
    requires index' + nb' == index + nb
    requires index' == if index + nb < pos.Slot(j).End() then index + nb else pos.Slot(j).End()
    ensures Progress(pos, index0, nb0, j0, index', nb', j + 1)
    ensures index' <= pos.End()
    ensures SlotsBudget(pos, index0, nb0, j0, nb, j) + SlotBudget(pos.Slot(j), index, nb)
         <= SlotsBudget(pos, index0, nb0, j0, nb', j + 1)
  {
    ProgressHere(pos, index0, nb0, j0, index, nb, j);
    SlotBounds(pos, j);
    Bounds(pos.Slot(j), index);
    SlotBounds(pos, j0);
    Bounds(pos.Slot(j0), index0);
    if j > j0 {
      SlotBounds(pos, j - 1);
      FirstAligned(pos.Slot(j));
    }
    if index0 == pos.Slot(j0).First() {
      FirstAligned(pos.Slot(j0));
    }
  }

  lemma ProgressDone(pos: Position, index0: nat, nb0: nat, j0: nat, index: nat, nb: nat, j: nat)
    requires pos.height > 0 && Progress(pos, index0, nb0, j0, index, nb, j)
    requires nb == 0 || j == L2_SIZE
    ensures index == if index0 + nb0 < pos.End() then index0 + nb0 else pos.End()
    ensures 1 + SlotsBudget(pos, index0, nb0, j0, nb, j) <= NodeBudget(pos, index0, nb0)
  {
    SlotBounds(pos, j0);
    Bounds(pos.Slot(j0), index0);
    if j > j0 {
      SlotBounds(pos, j - 1);
    }
  }

  lemma FirstAligned(p: Position)
    ensures p.First() % Step(p.height) == 0
  {
    DivUnique(p.First(), Step(p.height), p.number, 0);
  }

  lemma AlignedStart(p: Position, index: nat)
    requires p.Covers(index) && index % Step(p.height) == 0
    ensures index == p.First()
  {
  }
}
