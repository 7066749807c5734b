/** Positions in the physical page radix tree of exec.c.

    An entry of height h spans Step(h) consecutive pages; a node of height h has L2_SIZE
    slots, each an entry of height h - 1.  A position is a height together with the number of
    the span, so that a page x lies under a position exactly when x / Step(h) is that number. */
module Radix {

  const L2_SIZE := 512

  function Step(h: nat): (s: nat)
    ensures s > 0
  {
    if h == 0 then 1 else L2_SIZE * Step(h - 1)
  }

  /** The slot that page x selects in a node of height h + 1. */
  function Digit(x: nat, h: nat): (d: nat)
    ensures d < L2_SIZE
  {
    (x / Step(h)) % L2_SIZE
  }

  datatype Position = Position(height: nat, number: nat) {

    predicate Covers(x: nat) {
      x / Step(height) == number
    }

    function Slot(j: nat): Position
      requires height > 0
    {
      Position(height - 1, number * L2_SIZE + j)
    }

    /** Every page under this position is also under outer. */
    predicate Within(outer: Position) {
      height <= outer.height && number / Step(outer.height - height) == outer.number
    }

    /** First page under this position. */
    function First(): nat {
      number * Step(height)
    }

    /** First page after this position. */
    function End(): nat {
      (number + 1) * Step(height)
    }
  }

  lemma MulMonotone(a: nat, b: nat, d: nat)
    requires a <= b
    ensures a * d <= b * d
  {
  }

  lemma DivUnique(x: nat, d: nat, q: nat, r: nat)
    requires d > 0 && x == q * d + r && r < d
    ensures x / d == q && x % d == r
  {
    var q', r' := x / d, x % d;
    assert x == q' * d + r' && 0 <= r' < d;
    if q' > q {
      MulMonotone(q + 1, q', d);
      assert false;
    } else if q' < q {
      MulMonotone(q' + 1, q, d);
      assert false;
    }
  }

  lemma DivDiv(x: nat, a: nat, b: nat)
    requires a > 0 && b > 0
    ensures a * b > 0 && x / (a * b) == x / a / b
  {
    var y, u := x / a, x % a;
    var z, v := y / b, y % b;
    assert x == y * a + u;
    assert y == z * b + v;
    calc {
      x;
      (z * b + v) * a + u;
      z * b * a + v * a + u;
      z * (a * b) + (v * a + u);
    }
    MulMonotone(v, b - 1, a);
    assert (b - 1) * a == a * b - a;
    DivUnique(x, a * b, z, v * a + u);
  }

  lemma {:induction false} StepSum(a: nat, b: nat)
    ensures Step(a + b) == Step(a) * Step(b)
  {
    if a > 0 {
      StepSum(a - 1, b);
    }
  }

  /** The number of a page's span at one height determines its span at the next. */
  lemma Prefix(x: nat, h: nat)
    ensures x / Step(h + 1) == x / Step(h) / L2_SIZE
    ensures x / Step(h) == x / Step(h + 1) * L2_SIZE + Digit(x, h)
  {
    DivDiv(x, Step(h), L2_SIZE);
  }

  lemma CoversSlot(p: Position, x: nat)
    requires p.height > 0
    ensures p.Covers(x) <==> p.Slot(Digit(x, p.height - 1)).Covers(x)
    ensures forall j | 0 <= j < L2_SIZE :: p.Slot(j).Covers(x) ==> p.Covers(x) && j == Digit(x, p.height - 1)
  {
    Prefix(x, p.height - 1);
  }

  lemma WithinCovers(p: Position, outer: Position, x: nat)
    requires p.Within(outer) && p.Covers(x)
    ensures outer.Covers(x)
  {
    StepSum(p.height, outer.height - p.height);
    DivDiv(x, Step(p.height), Step(outer.height - p.height));
  }

  lemma WithinSlot(p: Position, outer: Position, j: nat)
    requires outer.height > 0 && j < L2_SIZE && p.Within(outer.Slot(j))
    ensures p.Within(outer)
  {
    var k := outer.height - 1 - p.height;
    Prefix(p.number, k);
  }

  lemma Bounds(p: Position, x: nat)
    ensures p.Covers(x) <==> p.First() <= x < p.End()
    ensures p.First() < p.End() == p.First() + Step(p.height)
  {
    var s := Step(p.height);
    assert p.End() == p.number * s + s;
    if p.First() <= x < p.End() {
      DivUnique(x, s, p.number, x - p.number * s);
    }
    if p.Covers(x) {
      assert x == (x / s) * s + x % s;
    }
  }

  /** The slots of a node tile its span. */
  lemma SlotBounds(p: Position, j: nat)
    requires p.height > 0 && j < L2_SIZE
    ensures p.Slot(j).First() == p.First() + j * Step(p.height - 1)
    ensures p.Slot(j).End() == p.First() + (j + 1) * Step(p.height - 1)
    ensures p.Slot(j).End() <= p.End()
    ensures j + 1 == L2_SIZE ==> p.Slot(j).End() == p.End()
    ensures j + 1 < L2_SIZE ==> p.Slot(j).End() == p.Slot(j + 1).First()
  {
    var s, n := Step(p.height - 1), p.number;
    assert Step(p.height) == L2_SIZE * s;
    var base := n * (L2_SIZE * s);
    assert base == (n * L2_SIZE) * s;
    assert (n * L2_SIZE + j) * s == base + j * s;
    assert (n * L2_SIZE + (j + 1)) * s == base + (j + 1) * s;
    assert (n + 1) * (L2_SIZE * s) == base + L2_SIZE * s;
    MulMonotone(j + 1, L2_SIZE, s);
  }

  lemma DivAdd(m: nat, d: nat, r: nat)
    requires d > 0
    ensures (m * d + r) / d == m + r / d && (m * d + r) % d == r % d
  {
    assert (m + r / d) * d == m * d + r / d * d;
    DivUnique(m * d + r, d, m + r / d, r % d);
  }

  lemma DigitAdd(m: nat, s: nat, r: nat)
    requires s > 0
    ensures ((m * L2_SIZE) * s + r) / s % L2_SIZE == r / s % L2_SIZE
  {
    DivAdd(m * L2_SIZE, s, r);
    DivAdd(m, L2_SIZE, r / s);
  }

  /** The digits of a page below height h do not depend on which span of height h it is in. */
  lemma DigitLow(a: nat, r: nat, h: nat, i: nat)
    requires i < h
    ensures Digit(a * Step(h) + r, i) == Digit(r, i)
  {
    var t := Step(h - i - 1);
    assert Step(h) == (L2_SIZE * Step(i)) * t by {
      StepSum(i + 1, h - i - 1);
    }
    MulShuffle(a, Step(i), t);
    DigitAdd(a * t, Step(i), r);
  }

  lemma MulShuffle(a: nat, s: nat, t: nat)
    ensures a * ((L2_SIZE * s) * t) == ((a * t) * L2_SIZE) * s
  {
    calc {
      a * ((L2_SIZE * s) * t);
      (a * t) * (L2_SIZE * s);
      ((a * t) * L2_SIZE) * s;
    }
  }

  /** The page of position p that agrees with x in every digit below p. */
  lemma Transplant(p: Position, x: nat) returns (y: nat)
    ensures p.Covers(y)
    ensures forall i: nat | i < p.height :: Digit(y, i) == Digit(x, i)
  {
    var s := Step(p.height);
    var r := x % s;
    y := p.number * s + r;
    DivUnique(y, s, p.number, r);
    forall i: nat | i < p.height
      ensures Digit(y, i) == Digit(x, i)
    {
      DigitLow(p.number, r, p.height, i);
      DigitLow(x / s, r, p.height, i);
      assert x == x / s * s + r;
    }
  }
}
