/** Path compaction of the physical page map (exec.c, phys_page_compact). */
module PhysCompact {
  import opened Radix
  import opened PhysPages

  /** Entry e stands at position p of a tree that may have been compacted: it may skip levels. */
  ghost predicate SkipOk(e: Entry, p: Position, spots: seq<Position>) {
    e.skip == 0
    || (e.skip <= p.height
        && (e.ptr == NODE_NIL
            || (e.ptr < |spots| && spots[e.ptr].height == p.height - e.skip + 1 && spots[e.ptr].Within(p))))
  }

  ghost predicate SkipsOk(nodes: seq<Node>, spots: seq<Position>) {
    && |nodes| == |spots| <= NODE_NIL
    && forall k | 0 <= k < |nodes| ::
         && |nodes[k]| == L2_SIZE
         && spots[k].height > 0
         && forall j | 0 <= j < L2_SIZE :: SkipOk(nodes[k][j], spots[k].Slot(j), spots)
  }

  ghost predicate Lower(q: Position, p: Position) {
    q.Within(p) && q.height < p.height
  }

  /** nodes' agrees with nodes in every slot below position p. */
  ghost predicate SameBelow(nodes: seq<Node>, nodes': seq<Node>, spots: seq<Position>, p: Position)
    requires SkipsOk(nodes, spots) && |nodes'| == |nodes|
    requires forall k | 0 <= k < |nodes| :: |nodes'[k]| == L2_SIZE
  {
    forall k, j | 0 <= k < |nodes| && 0 <= j < L2_SIZE ::
      Lower(spots[k].Slot(j), p) ==> nodes'[k][j] == nodes[k][j]
  }

  lemma WithinTrans(a: Position, b: Position, c: Position)
    requires a.Within(b) && b.Within(c)
    ensures a.Within(c)
  {
    StepSum(b.height - a.height, c.height - b.height);
    DivDiv(a.number, Step(b.height - a.height), Step(c.height - b.height));
  }

  lemma SlotLower(p: Position, j: nat)
    requires p.height > 0 && j < L2_SIZE
    ensures Lower(p.Slot(j), p)
  {
    assert Step(1) == L2_SIZE * Step(0);
  }

  /** A descent never leaves the position of the entry it starts from. */
  lemma {:induction false} WalkBelow(
      nodes: seq<Node>, nodes': seq<Node>, spots: seq<Position>, e: Entry, p: Position, x: nat)
    requires SkipsOk(nodes, spots) && SkipsOk(nodes', spots) && SkipOk(e, p, spots)
    requires SameBelow(nodes, nodes', spots, p)
    ensures Walk(nodes', e, p.height, x) == Walk(nodes, e, p.height, x)
    decreases p.height
  {
    if e.skip != 0 && e.ptr != NODE_NIL {
      var q := spots[e.ptr];
      var j := Digit(x, p.height - e.skip);
      var c := q.Slot(j);
      SlotLower(q, j);
      WithinTrans(c, q, p);
      assert nodes'[e.ptr][j] == nodes[e.ptr][j];
      forall k, i | 0 <= k < |nodes| && 0 <= i < L2_SIZE && Lower(spots[k].Slot(i), c)
        ensures nodes'[k][i] == nodes[k][i]
      {
        WithinTrans(spots[k].Slot(i), c, p);
      }
      WalkBelow(nodes, nodes', spots, nodes[e.ptr][j], c, x);
    }
  }

  /** A descent looks only at the digits below its start. */
  lemma {:induction false} WalkDigits(nodes: seq<Node>, e: Entry, h: nat, x: nat, y: nat)
    requires forall i: nat | i < h :: Digit(x, i) == Digit(y, i)
    ensures Walk(nodes, e, h, x) == Walk(nodes, e, h, y)
    decreases h
  {
    if e.skip != 0 && e.ptr != NODE_NIL && e.skip <= h && e.ptr < |nodes| && |nodes[e.ptr]| == L2_SIZE {
      var i := h - e.skip;
      assert Digit(x, i) == Digit(y, i);
      WalkDigits(nodes, nodes[e.ptr][Digit(x, i)], i, x, y);
    }
  }

  /** Entry e of the compacted table stands for entry e0 of the original one: a page that was
      assigned keeps its section, an unassigned page reaches some section found below p. */
  ghost predicate Stands(n0: seq<Node>, e0: Entry, nodes: seq<Node>, e: Entry, p: Position) {
    forall x: nat | p.Covers(x) ::
      || Walk(nodes, e, p.height, x) == Walk(n0, e0, p.height, x)
      || (Walk(n0, e0, p.height, x) == SECTION_UNASSIGNED && Found(n0, e0, p, Walk(nodes, e, p.height, x)))
  }

  ghost predicate Found(n0: seq<Node>, e0: Entry, p: Position, section: nat) {
    exists y: nat :: p.Covers(y) && Walk(n0, e0, p.height, y) == section
  }

  ghost predicate SlotsStand(n0: seq<Node>, nodes: seq<Node>, spots: seq<Position>, k: nat)
    requires k < |n0| == |nodes| == |spots| && |n0[k]| == |nodes[k]| == L2_SIZE && spots[k].height > 0
  {
    forall j | 0 <= j < L2_SIZE :: Stands(n0, n0[k][j], nodes, nodes[k][j], spots[k].Slot(j))
  }

  /** What is found below a slot is found below its node. */
  lemma FoundUp(n0: seq<Node>, spots: seq<Position>, k: nat, j: nat, section: nat)
    requires NodesOk(n0, spots) && k < |n0| && j < L2_SIZE
    requires Found(n0, n0[k][j], spots[k].Slot(j), section)
    ensures Found(n0, Entry(1, k), spots[k], section)
  {
    var p := spots[k];
    var y: nat :| p.Slot(j).Covers(y) && Walk(n0, n0[k][j], p.height - 1, y) == section;
    CoversSlot(p, y);
    assert Walk(n0, Entry(1, k), p.height, y) == section;
  }

  /** An entry left alone stands for itself once its children do. */
  lemma StandsPlain(n0: seq<Node>, nodes: seq<Node>, spots: seq<Position>, k: nat)
    requires NodesOk(n0, spots) && SkipsOk(nodes, spots) && k < |n0|
    requires SlotsStand(n0, nodes, spots, k)
    ensures Stands(n0, Entry(1, k), nodes, Entry(1, k), spots[k])
  {
    var p := spots[k];
    forall x: nat | p.Covers(x)
      ensures Walk(nodes, Entry(1, k), p.height, x) == Walk(n0, Entry(1, k), p.height, x)
           || (Walk(n0, Entry(1, k), p.height, x) == SECTION_UNASSIGNED
               && Found(n0, Entry(1, k), p, Walk(nodes, Entry(1, k), p.height, x)))
    {
      var j := Digit(x, p.height - 1);
      CoversSlot(p, x);
      if Found(n0, n0[k][j], p.Slot(j), Walk(nodes, nodes[k][j], p.height - 1, x)) {
        FoundUp(n0, spots, k, j, Walk(nodes, nodes[k][j], p.height - 1, x));
      }
    }
  }

  /** The entry that replaces one whose node has the single child v. */
  function Joined(child: Entry): Entry {
    if child.skip == 0 then Entry(0, child.ptr) else Entry(1 + child.skip, child.ptr)
  }

  /** Joining an entry with its only child: every page of the node is now sent where some page
      of the child was sent. */
  lemma StandsJoined(n0: seq<Node>, nodes: seq<Node>, spots: seq<Position>, k: nat, v: nat)
    requires NodesOk(n0, spots) && SkipsOk(nodes, spots) && k < |n0| && v < L2_SIZE
    requires SlotsStand(n0, nodes, spots, k)
    requires forall j | 0 <= j < L2_SIZE && j != v :: n0[k][j].ptr == NODE_NIL
    requires nodes[k][v].ptr != NODE_NIL
    ensures Stands(n0, Entry(1, k), nodes, Joined(nodes[k][v]), spots[k])
    ensures SkipOk(Joined(nodes[k][v]), spots[k], spots)
  {
    var p, child := spots[k], nodes[k][v];
    var slot, e := p.Slot(v), Joined(child);
    SlotLower(p, v);
    if child.skip != 0 {
      WithinTrans(spots[child.ptr], slot, p);
    }
    forall x: nat | p.Covers(x)
      ensures Walk(nodes, e, p.height, x) == Walk(n0, Entry(1, k), p.height, x)
           || (Walk(n0, Entry(1, k), p.height, x) == SECTION_UNASSIGNED
               && Found(n0, Entry(1, k), p, Walk(nodes, e, p.height, x)))
    {
      var y := Transplant(slot, x);
      WalkDigits(nodes, child, slot.height, x, y);
      assert Walk(nodes, e, p.height, x) == Walk(nodes, child, slot.height, y);
      var section := Walk(nodes, child, slot.height, y);
      assert Found(n0, n0[k][v], slot, section);
      FoundUp(n0, spots, k, v, section);
      var j := Digit(x, p.height - 1);
      CoversSlot(p, x);
      assert NodeOk(n0[k], p, spots);
      if j == v {
        WalkDigits(nodes, child, slot.height, x, x);
      } else {
        assert Walk(n0, n0[k][j], p.height - 1, x) == SECTION_UNASSIGNED;
      }
    }
  }

  /** Changes outside position p leave what stands at p standing. */
  lemma StandsKept(
      n0: seq<Node>, e0: Entry, nodes: seq<Node>, nodes': seq<Node>, spots: seq<Position>, e: Entry, p: Position)
    requires SkipsOk(nodes, spots) && SkipsOk(nodes', spots) && SkipOk(e, p, spots)
    requires SameBelow(nodes, nodes', spots, p)
    requires Stands(n0, e0, nodes, e, p)
    ensures Stands(n0, e0, nodes', e, p)
  {
    forall x: nat | p.Covers(x)
      ensures Walk(nodes', e, p.height, x) == Walk(nodes, e, p.height, x)
    {
      WalkBelow(nodes, nodes', spots, e, p, x);
    }
  }

  /** Child v is the only one of the node in use, and its skip can be added to skip. */
  ghost predicate Joins(n: Node, skip: nat, v: nat) {
    v < L2_SIZE == |n| && n[v].ptr != NODE_NIL && skip + n[v].skip < 8
    && forall j | 0 <= j < L2_SIZE && j != v :: n[j].ptr == NODE_NIL
  }

  /** The entry cannot be joined with a child. */
  ghost predicate Dense(nodes: seq<Node>, e: Entry) {
    e.skip != 0 && e.ptr < |nodes| ==> forall v: nat :: !Joins(nodes[e.ptr], e.skip, v)
  }

  /** Neither e nor any entry below it can be joined with a child. */
  ghost predicate AllDense(nodes: seq<Node>, e: Entry, h: nat)
    decreases h
  {
    && Dense(nodes, e)
    && (e.skip != 0 && e.skip <= h && e.ptr != NODE_NIL && e.ptr < |nodes| ==>
          forall j | 0 <= j < |nodes[e.ptr]| :: AllDense(nodes, nodes[e.ptr][j], h - e.skip))
  }

  /** Changes outside position p leave what is below p dense. */
  lemma {:induction false} DenseKept(nodes: seq<Node>, nodes': seq<Node>, spots: seq<Position>, e: Entry, p: Position)
    requires SkipsOk(nodes, spots) && SkipsOk(nodes', spots) && SkipOk(e, p, spots)
    requires SameBelow(nodes, nodes', spots, p) && AllDense(nodes, e, p.height)
    ensures AllDense(nodes', e, p.height)
    decreases p.height
  {
    if e.skip != 0 && e.ptr != NODE_NIL {
      var q := spots[e.ptr];
      forall j | 0 <= j < L2_SIZE
        ensures nodes'[e.ptr][j] == nodes[e.ptr][j] && AllDense(nodes', nodes'[e.ptr][j], p.height - e.skip)
      {
        var c := q.Slot(j);
        SlotLower(q, j);
        WithinTrans(c, q, p);
        forall k, i | 0 <= k < |nodes| && 0 <= i < L2_SIZE && Lower(spots[k].Slot(i), c)
          ensures nodes'[k][i] == nodes[k][i]
        {
          WithinTrans(spots[k].Slot(i), c, p);
        }
        DenseKept(nodes, nodes', spots, nodes[e.ptr][j], c);
      }
      assert nodes'[e.ptr] == nodes[e.ptr];
    }
  }

  /** Joining an entry with a child that is dense makes it dense. */
  lemma DenseJoined(nodes: seq<Node>, child: Entry, h: nat)
    requires AllDense(nodes, child, h)
    ensures AllDense(nodes, Joined(child), h + 1)
  {
    var e := Joined(child);
    if child.skip != 0 && child.ptr < |nodes| {
      forall v: nat ensures !Joins(nodes[e.ptr], e.skip, v) {
        assert !Joins(nodes[child.ptr], child.skip, v);
      }
    }
  }

  /** nodes' differs from nodes only in slots that lie within position c. */
  ghost predicate OnlyWithin(nodes: seq<Node>, nodes': seq<Node>, spots: seq<Position>, c: Position)
    requires SkipsOk(nodes, spots) && SkipsOk(nodes', spots)
  {
    forall k, j | 0 <= k < |nodes| && 0 <= j < L2_SIZE ::
      !spots[k].Slot(j).Within(c) ==> nodes'[k][j] == nodes[k][j]
  }

  /** What has been done when slots [0, i) of node k, which stands at p, have been compacted. */
  ghost predicate CompactedTo(
      n0: seq<Node>, n1: seq<Node>, nodes: seq<Node>, spots: seq<Position>, k: nat, i: nat)
    requires NodesOk(n0, spots) && SkipsOk(n1, spots) && k < |spots| && i <= L2_SIZE
  {
    && SkipsOk(nodes, spots)
    && (forall m, j | 0 <= m < |nodes| && 0 <= j < L2_SIZE ::
          !Lower(spots[m].Slot(j), spots[k]) ==> nodes[m][j] == n1[m][j])
    && (forall j | i <= j < L2_SIZE :: nodes[k][j] == n0[k][j] && SameBelow(nodes, n0, spots, spots[k].Slot(j)))
    && (forall j | 0 <= j < i ::
          && Stands(n0, n0[k][j], nodes, nodes[k][j], spots[k].Slot(j))
          && (nodes[k][j].ptr == NODE_NIL <==> n0[k][j].ptr == NODE_NIL))
  }

  lemma PlainSkips(nodes: seq<Node>, spots: seq<Position>)
    requires NodesOk(nodes, spots)
    ensures SkipsOk(nodes, spots)
  {
    forall k, j | 0 <= k < |nodes| && 0 <= j < L2_SIZE
      ensures SkipOk(nodes[k][j], spots[k].Slot(j), spots)
    {
      assert NodeOk(nodes[k], spots[k], spots);
    }
  }

  lemma CompactedStart(n0: seq<Node>, n1: seq<Node>, spots: seq<Position>, k: nat)
    requires NodesOk(n0, spots) && SkipsOk(n1, spots) && k < |spots|
    requires SameBelow(n1, n0, spots, spots[k])
    ensures CompactedTo(n0, n1, n1, spots, k, 0)
  {
    forall j | 0 <= j < L2_SIZE
      ensures n1[k][j] == n0[k][j] && SameBelow(n1, n0, spots, spots[k].Slot(j))
    {
      SlotLower(spots[k], j);
      forall m, i | 0 <= m < |n1| && 0 <= i < L2_SIZE && Lower(spots[m].Slot(i), spots[k].Slot(j))
        ensures n0[m][i] == n1[m][i]
      {
        WithinTrans(spots[m].Slot(i), spots[k].Slot(j), spots[k]);
      }
    }
  }

  /** A slot with no node below it needs no work. */
  lemma CompactedSkip(n0: seq<Node>, n1: seq<Node>, nodes: seq<Node>, spots: seq<Position>, k: nat, i: nat)
    requires NodesOk(n0, spots) && SkipsOk(n1, spots) && k < |spots| && i < L2_SIZE
    requires CompactedTo(n0, n1, nodes, spots, k, i)
    requires n0[k][i].skip == 0 || n0[k][i].ptr == NODE_NIL
    ensures CompactedTo(n0, n1, nodes, spots, k, i + 1)
  {
    assert Stands(n0, n0[k][i], nodes, nodes[k][i], spots[k].Slot(i));
  }

  /** Compacting slot i leaves the other slots as they were. */
  lemma CompactedStep(
      n0: seq<Node>, n1: seq<Node>, nodes: seq<Node>, nodes': seq<Node>, spots: seq<Position>, k: nat, i: nat)
    requires NodesOk(n0, spots) && SkipsOk(n1, spots) && k < |spots| && i < L2_SIZE
    requires CompactedTo(n0, n1, nodes, spots, k, i)
    requires SkipsOk(nodes', spots) && OnlyWithin(nodes, nodes', spots, spots[k].Slot(i))
    requires Stands(n0, n0[k][i], nodes', nodes'[k][i], spots[k].Slot(i))
    requires nodes'[k][i].ptr == NODE_NIL <==> n0[k][i].ptr == NODE_NIL
    ensures CompactedTo(n0, n1, nodes', spots, k, i + 1)
  {
    var p := spots[k];
    SlotLower(p, i);
    forall m, j | 0 <= m < |nodes| && 0 <= j < L2_SIZE && !Lower(spots[m].Slot(j), p)
      ensures nodes'[m][j] == n1[m][j]
    {
      if spots[m].Slot(j).Within(p.Slot(i)) {
        WithinTrans(spots[m].Slot(j), p.Slot(i), p);
        assert false;
      }
    }
    forall j | 0 <= j < L2_SIZE && j != i
      ensures nodes'[k][j] == nodes[k][j]
      ensures SameBelow(nodes, nodes', spots, p.Slot(j))
    {
    }
    forall j | 0 <= j < i
      ensures Stands(n0, n0[k][j], nodes', nodes'[k][j], p.Slot(j))
    {
      StandsKept(n0, n0[k][j], nodes, nodes', spots, nodes[k][j], p.Slot(j));
    }
    forall j | i < j < L2_SIZE
      ensures nodes'[k][j] == n0[k][j] && SameBelow(nodes', n0, spots, p.Slot(j))
    {
      assert SameBelow(nodes, nodes', spots, p.Slot(j));
    }
  }

  /** Slots [0, i) of node k are dense. */
  ghost predicate DenseTo(nodes: seq<Node>, spots: seq<Position>, k: nat, i: nat)
    requires k < |nodes| == |spots| && i <= |nodes[k]| && spots[k].height > 0
  {
    forall j | 0 <= j < i :: AllDense(nodes, nodes[k][j], spots[k].height - 1)
  }

  /** An entry with nothing below it is dense. */
  lemma DenseEnd(nodes: seq<Node>, e: Entry, h: nat)
    requires |nodes| <= NODE_NIL && (e.skip == 0 || e.ptr == NODE_NIL)
    ensures AllDense(nodes, e, h)
  {
  }

  lemma DenseSkip(nodes: seq<Node>, spots: seq<Position>, k: nat, i: nat)
    requires SkipsOk(nodes, spots) && k < |spots| && i < L2_SIZE && DenseTo(nodes, spots, k, i)
    requires nodes[k][i].skip == 0 || nodes[k][i].ptr == NODE_NIL
    ensures DenseTo(nodes, spots, k, i + 1)
  {
    DenseEnd(nodes, nodes[k][i], spots[k].height - 1);
  }

  /** An entry whose node is dense and cannot be joined. */
  lemma DensePlain(nodes: seq<Node>, spots: seq<Position>, k: nat)
    requires SkipsOk(nodes, spots) && k < |spots| && DenseTo(nodes, spots, k, L2_SIZE)
    requires forall v: nat :: !Joins(nodes[k], 1, v)
    ensures AllDense(nodes, Entry(1, k), spots[k].height)
  {
  }

  lemma DenseStep(nodes: seq<Node>, nodes': seq<Node>, spots: seq<Position>, k: nat, i: nat)
    requires SkipsOk(nodes, spots) && SkipsOk(nodes', spots) && k < |spots| && i < L2_SIZE
    requires DenseTo(nodes, spots, k, i) && OnlyWithin(nodes, nodes', spots, spots[k].Slot(i))
    requires AllDense(nodes', nodes'[k][i], spots[k].height - 1)
    ensures DenseTo(nodes', spots, k, i + 1)
  {
    var p := spots[k];
    forall j | 0 <= j < i
      ensures AllDense(nodes', nodes'[k][j], p.height - 1)
    {
      assert SameBelow(nodes, nodes', spots, p.Slot(j)) && nodes'[k][j] == nodes[k][j];
      DenseKept(nodes, nodes', spots, nodes[k][j], p.Slot(j));
    }
  }

  /** The first i slots of n have valid slots in use; if it is one, it is slot validPtr. */
  ghost predicate Counted(n: Node, i: nat, valid: nat, validPtr: nat) {
    && i <= L2_SIZE == |n|
    && (valid == 0 ==> forall j | 0 <= j < i :: n[j].ptr == NODE_NIL)
    && (valid == 1 ==>
      validPtr < i && n[validPtr].ptr != NODE_NIL && forall j | 0 <= j < i && j != validPtr :: n[j].ptr == NODE_NIL)
    && (valid > 1 ==> exists j, l :: 0 <= j < l < i && n[j].ptr != NODE_NIL && n[l].ptr != NODE_NIL)
  }

  lemma CountedNext(n: Node, i: nat, valid: nat, validPtr: nat)
    requires Counted(n, i, valid, validPtr) && i < L2_SIZE
    ensures if n[i].ptr == NODE_NIL then Counted(n, i + 1, valid, validPtr) else Counted(n, i + 1, valid + 1, i)
  {
    if valid == 1 && n[i].ptr != NODE_NIL {
      assert n[validPtr].ptr != NODE_NIL;
    }
  }

  /** When all slots are counted, a single one in use is known. */
  lemma CountedAll(n0: Node, n: Node, valid: nat, validPtr: nat)
    requires Counted(n0, L2_SIZE, valid, validPtr) && |n| == L2_SIZE
    requires forall j | 0 <= j < L2_SIZE :: n[j].ptr == NODE_NIL <==> n0[j].ptr == NODE_NIL
    ensures valid == 1 ==>
              validPtr < L2_SIZE && n[validPtr].ptr != NODE_NIL
              && forall j | 0 <= j < L2_SIZE && j != validPtr :: n0[j].ptr == NODE_NIL
    ensures forall v: nat | Joins(n, 1, v) :: valid == 1 && validPtr == v
  {
  }
}
