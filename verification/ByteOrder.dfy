/** Numbers as bytes, in either order. */
module ByteOrder {
  import opened Prelude

  /** n as k bytes, most significant first; what does not fit is cut off. */
  function Be(n: nat, k: nat): (b: seq<byte>)
    ensures |b| == k
  {
    if k == 0 then [] else Be(n / 256, k - 1) + [n % 256]
  }

  function FromBe(b: seq<byte>): nat {
    if b == [] then 0 else FromBe(b[..|b| - 1]) * 256 + b[|b| - 1]
  }

  function Pow256(k: nat): (p: nat)
    ensures p > 0
  {
    if k == 0 then 1 else 256 * Pow256(k - 1)
  }

  lemma {:induction false} BeRoundTrip(n: nat, k: nat)
    requires n < Pow256(k)
    ensures FromBe(Be(n, k)) == n
  {
    if k > 0 {
      BeRoundTrip(n / 256, k - 1);
      assert Be(n, k)[..k - 1] == Be(n / 256, k - 1);
    }
  }

  lemma {:induction false} FromBeBound(b: seq<byte>)
    ensures FromBe(b) < Pow256(|b|)
  {
    if b != [] {
      FromBeBound(b[..|b| - 1]);
    }
  }

  /** The bytes in the other order. */
  function Turned(b: seq<byte>): (r: seq<byte>)
    ensures |r| == |b| && forall i | 0 <= i < |b| :: r[i] == b[|b| - 1 - i]
  {
    seq(|b|, i requires 0 <= i < |b| => b[|b| - 1 - i])
  }

  /** n as k bytes in the order of the dump, as cpu_to_dump16 and its like make it. */
  function Bytes(big: bool, n: nat, k: nat): (b: seq<byte>)
    ensures |b| == k
  {
    if big then Be(n, k) else Turned(Be(n, k))
  }

  function Number(big: bool, b: seq<byte>): nat {
    FromBe(if big then b else Turned(b))
  }

  /** A number comes back from its k bytes if and only if it fits into them. */
  lemma BytesRoundTrip(big: bool, n: nat, k: nat)
    ensures Number(big, Bytes(big, n, k)) == n <==> n < Pow256(k)
  {
    assert Turned(Turned(Be(n, k))) == Be(n, k);
    FromBeBound(Be(n, k));
    if n < Pow256(k) {
      BeRoundTrip(n, k);
    }
  }
}
