/** The multi-level physical page map of exec.c as a table of nodes, and what it means.

    A node is one Node[P_L2_SIZE] array; an entry is a PhysPageEntry.  spots is ghost: it
    records the position every node was allocated for. */
module PhysPages {
  import opened Radix

  /** PHYS_MAP_NODE_NIL: the largest value of a 26-bit pointer. */
  const NODE_NIL := 0x3FFFFFF
  const SECTION_UNASSIGNED := 0

  datatype Entry = Entry(skip: nat, ptr: nat)

  type Node = seq<Entry>

  /** The section that a descent from entry e, which spans Step(h) pages, reaches for page x. */
  function Walk(nodes: seq<Node>, e: Entry, h: nat, x: nat): nat
    decreases h
  {
    if e.skip == 0 then
      e.ptr
    else if e.ptr == NODE_NIL || e.skip > h || e.ptr >= |nodes| || |nodes[e.ptr]| != L2_SIZE then
      SECTION_UNASSIGNED
    else
      Walk(nodes, nodes[e.ptr][Digit(x, h - e.skip)], h - e.skip, x)
  }

  /** Entry e stands at position p of a tree that has not been compacted. */
  ghost predicate EntryOk(e: Entry, p: Position, spots: seq<Position>) {
    if e.skip == 0 then
      e.ptr != NODE_NIL && (p.height > 0 ==> e.ptr != SECTION_UNASSIGNED)
    else
      e.skip == 1 && p.height > 0 && (e.ptr == NODE_NIL || (e.ptr < |spots| && spots[e.ptr] == p))
  }

  ghost predicate NodeOk(n: Node, p: Position, spots: seq<Position>) {
    && |n| == L2_SIZE
    && p.height > 0
    && forall j | 0 <= j < L2_SIZE :: EntryOk(n[j], p.Slot(j), spots)
  }

  ghost predicate NodesOk(nodes: seq<Node>, spots: seq<Position>) {
    && |nodes| == |spots| <= NODE_NIL
    && forall k | 0 <= k < |nodes| :: NodeOk(nodes[k], spots[k], spots)
  }

  /** nodes' differs from nodes only in slots that lie within position c, and in added nodes. */
  ghost predicate SameOutside(nodes: seq<Node>, nodes': seq<Node>, spots: seq<Position>, c: Position)
    requires NodesOk(nodes, spots)
  {
    && |nodes| <= |nodes'|
    && forall k | 0 <= k < |nodes| ::
         && |nodes'[k]| == L2_SIZE
         && forall j | 0 <= j < L2_SIZE ::
              !spots[k].Slot(j).Within(c) ==> nodes'[k][j] == nodes[k][j]
  }

  /** A change confined to position c is not seen by a page outside c. */
  lemma {:induction false} WalkOutside(
      nodes: seq<Node>, nodes': seq<Node>, spots: seq<Position>, c: Position,
      e: Entry, p: Position, x: nat)
    requires NodesOk(nodes, spots) && EntryOk(e, p, spots)
    requires SameOutside(nodes, nodes', spots, c)
    requires p.Covers(x) && !c.Covers(x)
    ensures Walk(nodes', e, p.height, x) == Walk(nodes, e, p.height, x)
    decreases p.height
  {
    if e.skip != 0 && e.ptr != NODE_NIL {
      var j := Digit(x, p.height - 1);
      CoversSlot(p, x);
      if p.Slot(j).Within(c) {
        WithinCovers(p.Slot(j), c, x);
        assert false;
      }
      assert NodeOk(nodes[e.ptr], p, spots);
      WalkOutside(nodes, nodes', spots, c, nodes[e.ptr][j], p.Slot(j), x);
    }
  }

  lemma SameOutsideWidens(nodes: seq<Node>, nodes': seq<Node>, spots: seq<Position>, c: Position, j: nat)
    requires NodesOk(nodes, spots)
    requires c.height > 0 && j < L2_SIZE
    requires SameOutside(nodes, nodes', spots, c.Slot(j))
    ensures SameOutside(nodes, nodes', spots, c)
  {
    forall k, i | 0 <= k < |nodes| && 0 <= i < L2_SIZE && !spots[k].Slot(i).Within(c)
      ensures nodes'[k][i] == nodes[k][i]
    {
      if spots[k].Slot(i).Within(c.Slot(j)) {
        WithinSlot(spots[k].Slot(i), c, j);
        assert false;
      }
    }
  }

  lemma SameOutsideTrans(
      n0: seq<Node>, n1: seq<Node>, n2: seq<Node>,
      s0: seq<Position>, s1: seq<Position>, c: Position)
    requires NodesOk(n0, s0) && NodesOk(n1, s1) && s0 <= s1
    requires SameOutside(n0, n1, s0, c) && SameOutside(n1, n2, s1, c)
    ensures SameOutside(n0, n2, s0, c)
  {
    forall k, j | 0 <= k < |n0| && 0 <= j < L2_SIZE && !s0[k].Slot(j).Within(c)
      ensures n2[k][j] == n0[k][j]
    {
      assert s1[k] == s0[k];
    }
  }

  /** Growing the table keeps entries well placed. */
  lemma SpotsGrow(nodes: seq<Node>, spots: seq<Position>, n: Node, p: Position)
    requires NodesOk(nodes, spots) && |nodes| < NODE_NIL
    requires NodeOk(n, p, spots)
    ensures NodesOk(nodes + [n], spots + [p])
    ensures SameOutside(nodes, nodes + [n], spots, p)
  {
    var nodes', spots' := nodes + [n], spots + [p];
    forall k | 0 <= k < |nodes'|
      ensures NodeOk(nodes'[k], spots'[k], spots')
    {
      assert NodeOk(nodes'[k], spots'[k], spots);
    }
  }

  /** Storing entry e in slot j of node p. */
  lemma StoreOk(nodes: seq<Node>, spots: seq<Position>, p: nat, j: nat, e: Entry)
    requires NodesOk(nodes, spots) && p < |nodes| && j < L2_SIZE
    requires EntryOk(e, spots[p].Slot(j), spots)
    ensures NodesOk(nodes[p := nodes[p][j := e]], spots)
    ensures SameOutside(nodes, nodes[p := nodes[p][j := e]], spots, spots[p].Slot(j))
  {
    var nodes' := nodes[p := nodes[p][j := e]];
    forall k | 0 <= k < |nodes'|
      ensures NodeOk(nodes'[k], spots[k], spots)
    {
      assert NodeOk(nodes[k], spots[k], spots);
    }
    assert spots[p].Slot(j).Within(spots[p].Slot(j));
  }

  /** Storing a leaf changes the descent exactly for the pages of its slot. */
  lemma StoreLeaf(nodes: seq<Node>, spots: seq<Position>, p: nat, j: nat, leaf: nat, x: nat)
    requires NodesOk(nodes, spots) && p < |nodes| && j < L2_SIZE
    requires leaf != NODE_NIL && leaf != SECTION_UNASSIGNED
    requires spots[p].Covers(x)
    ensures var nodes' := nodes[p := nodes[p][j := Entry(0, leaf)]];
            var h := spots[p].height;
            Walk(nodes', Entry(1, p), h, x)
            == if spots[p].Slot(j).Covers(x) then leaf else Walk(nodes, Entry(1, p), h, x)
  {
    var nodes' := nodes[p := nodes[p][j := Entry(0, leaf)]];
    var pos := spots[p];
    StoreOk(nodes, spots, p, j, Entry(0, leaf));
    CoversSlot(pos, x);
    var d := Digit(x, pos.height - 1);
    if d != j {
      assert NodeOk(nodes[p], pos, spots);
      WalkOutside(nodes, nodes', spots, pos.Slot(j), nodes[p][d], pos.Slot(d), x);
    }
  }

  /** After a change confined to slot j of node p, pages of the other slots are reached as before. */
  lemma WalkSlot(nodes: seq<Node>, nodes': seq<Node>, spots: seq<Position>, p: nat, j: nat, x: nat)
    requires NodesOk(nodes, spots) && p < |nodes| && j < L2_SIZE
    requires SameOutside(nodes, nodes', spots, spots[p].Slot(j))
    requires spots[p].Covers(x)
    ensures var h := spots[p].height;
            Walk(nodes', Entry(1, p), h, x)
            == if spots[p].Slot(j).Covers(x) then Walk(nodes', nodes'[p][j], h - 1, x)
               else Walk(nodes, Entry(1, p), h, x)
  {
    var pos := spots[p];
    CoversSlot(pos, x);
    var d := Digit(x, pos.height - 1);
    if d != j {
      assert !pos.Slot(d).Within(pos.Slot(j));
      assert NodeOk(nodes[p], pos, spots);
      WalkOutside(nodes, nodes', spots, pos.Slot(j), nodes[p][d], pos.Slot(d), x);
    }
  }

  /** An empty subtree: a fresh node sends every page to the unassigned section. */
  function FreshNode(level: nat): (n: Node)
    ensures |n| == L2_SIZE
  {
    seq(L2_SIZE, _ => if level == 0 then Entry(0, SECTION_UNASSIGNED) else Entry(1, NODE_NIL))
  }

  lemma FreshOk(level: nat, p: Position, spots: seq<Position>)
    requires p.height == level + 1
    ensures NodeOk(FreshNode(level), p, spots)
  {
  }
}
