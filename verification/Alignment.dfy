/** Alignment of addresses. The source masks with a - 1, its alignments being powers of two; here any
    positive a will do. */
module Alignment {

  /** x modulo a. */
  function Rem(a: nat, x: nat): (r: nat)
    requires a > 0
    ensures r < a && r <= x
  {
    if x < a then x else Rem(a, x - a)
  }

  lemma {:induction false} RemIsRemainder(a: nat, x: nat) returns (q: nat)
    requires a > 0
    ensures x == q * a + Rem(a, x)
  {
    if x < a {
      q := 0;
    } else {
      var q' := RemIsRemainder(a, x - a);
      q := q' + 1;
      assert q * a == q' * a + a;
    }
  }

  predicate Aligned(a: nat, x: nat)
    requires a > 0
  {
    Rem(a, x) == 0
  }

  /** Round down to a multiple of a. */
  function Down(a: nat, x: nat): (d: nat)
    requires a > 0
  {
    x - Rem(a, x)
  }

  /** Round up to a multiple of a. */
  function Up(a: nat, x: nat): (u: nat)
    requires a > 0
  {
    Down(a, x + a - 1)
  }

  lemma {:induction false} RemShift(a: nat, d: nat, x: nat)
    requires a > 0 && Aligned(a, d)
    ensures Rem(a, d + x) == Rem(a, x)
    decreases d
  {
    if d >= a {
      RemShift(a, d - a, x);
      assert Rem(a, d + x) == Rem(a, d + x - a);
    }
  }

  lemma {:induction false} DownAligned(a: nat, x: nat)
    requires a > 0
    ensures Aligned(a, Down(a, x)) && Down(a, x) <= x < Down(a, x) + a
    decreases x
  {
    if x >= a {
      DownAligned(a, x - a);
      assert Down(a, x) == Down(a, x - a) + a;
    }
  }

  lemma UpAligned(a: nat, x: nat)
    requires a > 0
    ensures Aligned(a, Up(a, x)) && x <= Up(a, x) < x + a
    ensures Aligned(a, x) ==> Up(a, x) == x && Down(a, x) == x
    ensures !Aligned(a, x) ==> Up(a, x) == Down(a, x) + a
  {
    DownAligned(a, x + a - 1);
    DownAligned(a, x);
    var d := Down(a, x);
    RemShift(a, d, x - d);
    RemShift(a, d, x - d + a - 1);
    if !Aligned(a, x) {
      assert Rem(a, x - d + a - 1) == Rem(a, x - d - 1);
    }
  }

  lemma AlignedSum(a: nat, x: nat, y: nat)
    requires a > 0 && Aligned(a, x)
    ensures Aligned(a, x + y) <==> Aligned(a, y)
    ensures Down(a, x + y) == x + Down(a, y) && Up(a, x + y) == x + Up(a, y)
  {
    RemShift(a, x, y);
    RemShift(a, x, y + a - 1);
  }
}
