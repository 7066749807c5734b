/** Merging of sorted write requests (block.c, multiwrite_merge; util/iov.c, qemu_iovec_concat). */
module BlockMerge {
  import opened Prelude
  import opened BlockDisk

  const IOV_MAX := 1024

  /** A vector of buffers, as one sequence of bytes. */
  function Flat(iov: seq<Data>): Data {
    if iov == [] then [] else iov[0] + Flat(iov[1..])
  }

  lemma {:induction false} FlatConcat(a: seq<Data>, b: seq<Data>)
    ensures Flat(a + b) == Flat(a) + Flat(b)
  {
    if a == [] {
      assert a + b == b;
    } else {
      assert (a + b)[0] == a[0] && (a + b)[1..] == a[1..] + b;
      FlatConcat(a[1..], b);
    }
  }

  function Min(x: nat, y: nat): nat {
    if x < y then x else y
  }

  /** The buffers that qemu_iovec_concat takes from src: n bytes after the first o. */
  function Part(src: seq<Data>, o: nat, n: nat): (r: seq<Data>)
    decreases |src|
  {
    if src == [] || n == 0 then []
    else if o < |src[0]| then
      var len := Min(|src[0]| - o, n);
      [src[0][o..o + len]] + Part(src[1..], 0, n - len)
    else Part(src[1..], o - |src[0]|, n)
  }

  lemma {:induction false} PartBytes(src: seq<Data>, o: nat, n: nat)
    requires o + n <= |Flat(src)|
    ensures Flat(Part(src, o, n)) == Flat(src)[o..o + n]
    decreases |src|
  {
    if src != [] && n > 0 {
      var head, tail := src[0], Flat(src[1..]);
      assert Flat(src) == head + tail;
      if o < |head| {
        var len := Min(|head| - o, n);
        PartBytes(src[1..], 0, n - len);
        FlatFirst(head[o..o + len], Part(src[1..], 0, n - len));
        SliceAcross(head, tail, o, n, len);
      } else {
        PartBytes(src[1..], o - |head|, n);
        SliceBeyond(head, tail, o, n);
      }
    }
  }

  lemma FlatFirst(d: Data, iov: seq<Data>)
    ensures Flat([d] + iov) == d + Flat(iov)
  {
    assert ([d] + iov)[1..] == iov;
  }

  lemma SliceAcross(a: Data, b: Data, o: nat, n: nat, len: nat)
    requires o < |a| && o + n <= |a + b| && len == Min(|a| - o, n)
    ensures (a + b)[o..o + n] == a[o..o + len] + b[..n - len]
  {
  }

  lemma SliceBeyond(a: Data, b: Data, o: nat, n: nat)
    requires |a| <= o && o + n <= |a + b|
    ensures (a + b)[o..o + n] == b[o - |a|..o - |a| + n]
  {
  }

  /** Two parts that do not overlap split one buffer at most. */
  lemma {:induction false} PartsCount(src: seq<Data>, k: nat, o: nat, n: nat)
    requires k <= o
    ensures |Part(src, 0, k)| + |Part(src, o, n)| <= |src| + 1
    decreases |src|
  {
    if src == [] {
    } else if k == 0 {
      PartCount(src, o, n);
    } else if |src[0]| == 0 {
      PartsCount(src[1..], k, o, n);
    } else if k > |src[0]| {
      PartsCount(src[1..], k - |src[0]|, o - |src[0]|, n);
    } else {
      assert |Part(src, 0, k)| == 1 by {
        assert Part(src[1..], 0, 0) == [];
      }
      PartCount(src, o, n);
    }
  }

  lemma {:induction false} PartCount(src: seq<Data>, o: nat, n: nat)
    ensures |Part(src, o, n)| <= |src|
    decreases |src|
  {
    if src != [] && n > 0 {
      if o < |src[0]| {
        PartCount(src[1..], 0, n - Min(|src[0]| - o, n));
      } else {
        PartCount(src[1..], o - |src[0]|, n);
      }
    }
  }

  /** qemu_iovec_concat: the loop over the buffers; !ok is its failed assertion. */
  method Concat(dst: seq<Data>, src: seq<Data>, soffset: nat, sbytes: nat) returns (r: seq<Data>, ok: bool)
    ensures r == dst + Part(src, soffset, sbytes)
    ensures ok <==> sbytes == 0 || soffset <= |Flat(src)|
  {
    r, ok := dst, true;
    if sbytes == 0 {
      return;
    }
    var i, done, skip := 0, 0, soffset;
    while done < sbytes && i < |src|
      invariant 0 <= i <= |src| && 0 <= done <= sbytes && 0 <= skip
      invariant dst + Part(src, soffset, sbytes) == r + Part(src[i..], skip, sbytes - done)
      invariant if done == 0 then skip - |Flat(src[i..])| == soffset - |Flat(src)|
                else skip == 0 && soffset < |Flat(src)|
      decreases |src| - i
    {
      assert src[i..][1..] == src[i + 1..];
      if skip < |src[i]| {
        var len := Min(|src[i]| - skip, sbytes - done);
        r := r + [src[i][skip..skip + len]];
        done := done + len;
        skip := 0;
      } else {
        skip := skip - |src[i]|;
      }
      i := i + 1;
    }
    ok := skip == 0;
  }

  /** A write request; a request of nbSectors sectors has so many bytes in its vector. */
  datatype BlockRequest = BlockRequest(sector: nat, nbSectors: nat, qiov: seq<Data>) {

    ghost predicate Ok() {
      |Flat(qiov)| == nbSectors * SECTOR
    }

    function Start(): nat {
      sector * SECTOR
    }

    /** What the request writes to byte p, if anything. */
    ghost function Writes(p: nat): Option<byte> {
      if Start() <= p < Start() + |Flat(qiov)| then Some(Flat(qiov)[p - Start()]) else None
    }
  }

  /** What requests done in order leave at byte p, if they write it. */
  ghost function Effect(reqs: seq<BlockRequest>, p: nat): Option<byte> {
    if reqs == [] then None
    else
      var n := |reqs| - 1;
      if reqs[n].Writes(p).Some? then reqs[n].Writes(p) else Effect(reqs[..n], p)
  }

  /** The disk after the requests. */
  ghost function Done(disk: Data, reqs: seq<BlockRequest>): Data {
    if reqs == [] then disk
    else var n := |reqs| - 1; Splice(Done(disk, reqs[..n]), reqs[n].Start(), Flat(reqs[n].qiov))
  }

  lemma {:induction false} EffectIsDone(disk: Data, reqs: seq<BlockRequest>, p: nat)
    ensures View(Done(disk, reqs), p) == if Effect(reqs, p).Some? then Effect(reqs, p).value else View(disk, p)
  {
    if reqs != [] {
      EffectIsDone(disk, reqs[..|reqs| - 1], p);
    }
  }

  ghost predicate EffectAt(a: seq<BlockRequest>, b: seq<BlockRequest>, p: nat) {
    Effect(a, p) == Effect(b, p)
  }

  ghost predicate SameEffect(a: seq<BlockRequest>, b: seq<BlockRequest>) {
    forall p: nat :: EffectAt(a, b, p)
  }

  /** The bytes of a, overlaid by b from byte o on. */
  ghost function Overlay(a: Data, o: nat, b: Data): Data
    requires o <= |a|
  {
    if o + |b| < |a| then a[..o] + b + a[o + |b|..] else a[..o] + b
  }

  lemma PartStart(a: seq<Data>, o: nat)
    requires o <= |Flat(a)|
    ensures Flat(Part(a, 0, o)) == Flat(a)[..o] && |Part(a, 0, o)| <= |a|
  {
    PartBytes(a, 0, o);
    PartCount(a, 0, o);
  }

  lemma PartAll(b: seq<Data>)
    ensures Flat(Part(b, 0, |Flat(b)|)) == Flat(b) && |Part(b, 0, |Flat(b)|)| <= |b|
  {
    PartStart(b, |Flat(b)|);
  }

  /** The bytes of two vectors put together. */
  lemma FlatBoth(x: seq<Data>, y: seq<Data>, dx: Data, dy: Data)
    requires Flat(x) == dx && Flat(y) == dy
    ensures Flat(x + y) == dx + dy
  {
    FlatConcat(x, y);
  }

  /** The vectors that multiwrite_merge puts together: the start of a and all of b, ... */
  lemma MergedTwo(a: seq<Data>, o: nat, b: seq<Data>)
    requires o <= |Flat(a)|
    ensures var two := Part(a, 0, o) + Part(b, 0, |Flat(b)|);
            Flat(two) == Flat(a)[..o] + Flat(b) && |two| <= |a| + |b|
  {
    PartStart(a, o);
    PartAll(b);
    FlatBoth(Part(a, 0, o), Part(b, 0, |Flat(b)|), Flat(a)[..o], Flat(b));
  }

  /** ... and the end of a if b does not reach it. */
  lemma MergedThree(a: seq<Data>, o: nat, b: seq<Data>, two: seq<Data>, n: nat)
    requires n == o + |Flat(b)| < |Flat(a)|
    requires two == Part(a, 0, o) + Part(b, 0, |Flat(b)|) && Flat(two) == Flat(a)[..o] + Flat(b)
    ensures var three := two + Part(a, n, |Flat(a)| - n);
            Flat(three) == Overlay(Flat(a), o, Flat(b)) && |three| <= |a| + |b| + 1
  {
    PartEnd(a, n);
    PartAll(b);
    PartsCount(a, o, n, |Flat(a)| - n);
    FlatBoth(two, Part(a, n, |Flat(a)| - n), Flat(a)[..o] + Flat(b), Flat(a)[n..]);
  }

  lemma PartEnd(a: seq<Data>, n: nat)
    requires n <= |Flat(a)|
    ensures Flat(Part(a, n, |Flat(a)| - n)) == Flat(a)[n..]
  {
    PartBytes(a, n, |Flat(a)| - n);
  }

  lemma OverlaySize(a: Data, na: nat, o: nat, b: Data, nb: nat)
    requires |a| == na * SECTOR && |b| == nb * SECTOR && o <= na
    ensures o * SECTOR <= |a|
    ensures |Overlay(a, o * SECTOR, b)| == (if o + nb < na then na else o + nb) * SECTOR
  {
  }

  /** multiwrite_merge, the branch that merges: b starts within a or right after it. */
  method Merge(a: BlockRequest, b: BlockRequest) returns (m: BlockRequest)
    requires a.Ok() && b.Ok() && a.sector <= b.sector <= a.sector + a.nbSectors
    ensures m.Ok() && m.sector == a.sector && m.nbSectors <= a.nbSectors + b.nbSectors
    ensures |m.qiov| <= |a.qiov| + |b.qiov| + 1
    ensures Flat(m.qiov) == Overlay(Flat(a.qiov), (b.sector - a.sector) * SECTOR, Flat(b.qiov))
  {
    var size := (b.sector - a.sector) * SECTOR;
    OverlaySize(Flat(a.qiov), a.nbSectors, b.sector - a.sector, Flat(b.qiov), b.nbSectors);
    var qiov := Join(a.qiov, size, b.qiov);
    m := BlockRequest(a.sector, |Flat(qiov)| / SECTOR, qiov);
  }

  /** The first size bytes of a, then b, then what is left of a; none of the three offsets lies beyond the end. */
  method Join(a: seq<Data>, size: nat, b: seq<Data>) returns (qiov: seq<Data>)
    requires size <= |Flat(a)|
    ensures Flat(qiov) == Overlay(Flat(a), size, Flat(b)) && |qiov| <= |a| + |b| + 1
  {
    MergedTwo(a, size, b);
    var ok;
    qiov, ok := Concat([], a, 0, size);
    assert ok && qiov == Part(a, 0, size);
    qiov, ok := Concat(qiov, b, 0, |Flat(b)|);
    assert ok;
    var done := |Flat(qiov)|;
    if done < |Flat(a)| {
      MergedThree(a, size, b, qiov, done);
      qiov, ok := Concat(qiov, a, done, |Flat(a)| - done);
      assert ok;
    }
  }

  /** The merged request does what the two do one after the other. */
  lemma MergedWrites(a: BlockRequest, b: BlockRequest, m: BlockRequest, p: nat)
    requires a.Ok() && b.Ok() && a.sector <= b.sector <= a.sector + a.nbSectors && m.sector == a.sector
    requires Flat(m.qiov) == Overlay(Flat(a.qiov), (b.sector - a.sector) * SECTOR, Flat(b.qiov))
    ensures m.Writes(p) == if b.Writes(p).Some? then b.Writes(p) else a.Writes(p)
  {
  }

  /** The array holds what the requests up to i do. */
  lemma MergeStep(out: seq<BlockRequest>, b: BlockRequest, m: BlockRequest)
    requires out != [] && var a := out[|out| - 1];
                          && a.Ok() && b.Ok() && a.sector <= b.sector <= a.sector + a.nbSectors && m.sector == a.sector
                          && Flat(m.qiov) == Overlay(Flat(a.qiov), (b.sector - a.sector) * SECTOR, Flat(b.qiov))
    ensures SameEffect(out[..|out| - 1] + [m], out + [b])
  {
    var n := |out| - 1;
    forall p: nat ensures EffectAt(out[..n] + [m], out + [b], p) {
      MergedWrites(out[n], b, m, p);
      assert (out[..n] + [m])[..n] == out[..n] && (out + [b])[..n + 1] == out;
    }
  }

  /** Equal effects stay equal when the same request follows. */
  lemma SameEffectOn(a: seq<BlockRequest>, b: seq<BlockRequest>, r: BlockRequest)
    requires SameEffect(a, b)
    ensures SameEffect(a + [r], b + [r])
  {
    forall p: nat ensures EffectAt(a + [r], b + [r], p) {
      assert EffectAt(a, b, p);
      assert (a + [r])[..|a|] == a && (b + [r])[..|b|] == b;
    }
  }

  lemma SameEffectTrans(a: seq<BlockRequest>, b: seq<BlockRequest>, c: seq<BlockRequest>)
    requires SameEffect(a, b) && SameEffect(b, c)
    ensures SameEffect(a, c)
  {
    forall p: nat ensures EffectAt(a, c, p) {
      assert EffectAt(a, b, p) && EffectAt(b, c, p);
    }
  }

  ghost predicate Sorted(reqs: seq<BlockRequest>) {
    forall i, j | 0 <= i < j < |reqs| :: reqs[i].sector <= reqs[j].sector
  }

  /** A request that was there before, or one that respects the limits. */
  ghost predicate WithinLimits(r: BlockRequest, before: seq<BlockRequest>, maxTransfer: nat) {
    r in before || (|r.qiov| <= IOV_MAX && (maxTransfer > 0 ==> r.nbSectors <= maxTransfer))
  }

  /** How many buffers the requests have. */
  ghost function Buffers(reqs: seq<BlockRequest>): nat {
    if reqs == [] then 0 else Buffers(reqs[..|reqs| - 1]) + |reqs[|reqs| - 1].qiov|
  }

  /** No limit is going to stop a merge. */
  ghost predicate Few(reqs: seq<BlockRequest>, maxTransfer: nat) {
    maxTransfer == 0 && Buffers(reqs) + |reqs| <= IOV_MAX
  }

  /** Between a request and the next one there are sectors that neither writes. */
  ghost predicate Separate(reqs: seq<BlockRequest>) {
    forall k | 0 <= k < |reqs| - 1 :: reqs[k].sector + reqs[k].nbSectors < reqs[k + 1].sector
  }

  /** Of the first i requests all that touch have been merged, and the last one left has no more buffers
      than these and one for each merge. */
  ghost predicate Tight(out: seq<BlockRequest>, before: seq<BlockRequest>, i: nat)
    requires 0 < i <= |before|
  {
    out != [] && Separate(out) && |out[|out| - 1].qiov| <= Buffers(before[..i]) + i - 1
  }

  lemma {:induction false} BuffersBefore(reqs: seq<BlockRequest>, i: nat)
    requires i < |reqs|
    ensures Buffers(reqs[..i + 1]) == Buffers(reqs[..i]) + |reqs[i].qiov| <= Buffers(reqs)
    decreases |reqs| - i
  {
    assert reqs[..i + 1][..i] == reqs[..i];
    if i + 1 < |reqs| {
      BuffersBefore(reqs, i + 1);
    } else {
      assert reqs[..i + 1] == reqs;
    }
  }

  /** Whether request i is merged or not, all that touch are. */
  lemma TightOn(out: seq<BlockRequest>, before: seq<BlockRequest>, i: nat, maxTransfer: nat)
    requires 0 < i < |before| && Few(before, maxTransfer) && Tight(out, before, i)
    ensures var a, b := out[|out| - 1], before[i];
            && (MayMerge(a, b, maxTransfer) <==> b.sector <= a.sector + a.nbSectors)
            && (!MayMerge(a, b, maxTransfer) ==> Tight(out + [b], before, i + 1))
            && forall m: BlockRequest | m.sector == a.sector && |m.qiov| <= |a.qiov| + |b.qiov| + 1 ::
               Tight(out[..|out| - 1] + [m], before, i + 1)
  {
    BuffersBefore(before, i);
  }

  /** out is what is left of the first i requests. */
  ghost predicate Merging(out: seq<BlockRequest>, before: seq<BlockRequest>, i: nat, maxTransfer: nat) {
    && 0 < i <= |before| && out != [] && out[|out| - 1].sector <= before[i - 1].sector
    && SameEffect(out, before[..i]) && AllWithin(out, before, maxTransfer)
       && (Few(before, maxTransfer) ==> Tight(out, before, i))
  }

  lemma MergeFirst(before: seq<BlockRequest>, maxTransfer: nat)
    requires before != [] && before[0].Ok()
    ensures Merging([before[0]], before, 1, maxTransfer)
  {
    assert before[..1] == [before[0]];
  }

  /** Entry k of the array is one of out, or of those that are still to be looked at. */
  ghost predicate HoldsAt(a: seq<BlockRequest>, out: seq<BlockRequest>, before: seq<BlockRequest>, i: nat, k: nat) {
    (k < |out| && k < |a| ==> a[k] == out[k]) && (i <= k < |a| == |before| ==> a[k] == before[k])
  }

  ghost predicate Holds(a: seq<BlockRequest>, out: seq<BlockRequest>, before: seq<BlockRequest>, i: nat) {
    |out| <= i <= |a| == |before| && forall k: nat :: HoldsAt(a, out, before, i, k)
  }

  /** One turn of the loop of multiwrite_merge: request i is merged into the last one of out, or follows it. */
  method MergeNext(reqs: array<BlockRequest>, outidx: nat, i: nat, maxTransfer: nat,
                   ghost out: seq<BlockRequest>, ghost before: seq<BlockRequest>)
    returns (outidx': nat, ghost out': seq<BlockRequest>)
    requires Merging(out, before, i, maxTransfer) && Holds(reqs[..], out, before, i) && |out| == outidx + 1
    requires i < |before| && before[i].Ok() && before[i - 1].sector <= before[i].sector
    modifies reqs
    ensures Merging(out', before, i + 1, maxTransfer) && Holds(reqs[..], out', before, i + 1) && |out'| == outidx' + 1
  {
    assert HoldsAt(reqs[..], out, before, i, outidx) && HoldsAt(reqs[..], out, before, i, i);
    var a, b := reqs[outidx], reqs[i];
    if MayMerge(a, b, maxTransfer) {
      var m := Merge(a, b);
      Replace(out, before, i, m, maxTransfer);
      outidx', out' := outidx, out[outidx := m];
      reqs[outidx] := m;
    } else {
      Append(out, before, i, maxTransfer);
      outidx', out' := outidx + 1, out + [b];
      reqs[outidx + 1] := b;
    }
    ghost var old_, new_, next := old(reqs[..]), reqs[..], i + 1;
    forall k: nat ensures HoldsAt(new_, out', before, next, k) {
      assert HoldsAt(old_, out, before, i, k);
    }
  }

  /** multiwrite_merge, after the sort: the first count requests that are left in the array do to any
      disk what all of them did, and unless a limit is in the way no two of them touch. maxTransfer is
      max_transfer_length, 0 for no limit. */
  method MultiwriteMerge(reqs: array<BlockRequest>, maxTransfer: nat) returns (count: nat)
    requires reqs.Length > 0 && Sorted(reqs[..]) && forall r | r in reqs[..] :: r.Ok()
    modifies reqs
    ensures 0 < count <= reqs.Length && SameEffect(reqs[..count], old(reqs[..]))
    ensures AllWithin(reqs[..count], old(reqs[..]), maxTransfer)
    ensures Few(old(reqs[..]), maxTransfer) ==> Separate(reqs[..count])
  {
    ghost var before, out := reqs[..], [reqs[0]];
    var outidx, i := 0, 1;
    MergeFirst(before, maxTransfer);
    while i < reqs.Length
      invariant 1 <= i <= reqs.Length && |out| == outidx + 1
      invariant Merging(out, before, i, maxTransfer) && Holds(reqs[..], out, before, i)
    {
      assert before[i] in before;
      outidx, out := MergeNext(reqs, outidx, i, maxTransfer, out, before);
      i := i + 1;
    }
    assert before[..i] == before;
    count := outidx + 1;
    forall k | 0 <= k < count ensures reqs[k] == out[k] {
      assert HoldsAt(reqs[..], out, before, i, k);
    }
    assert reqs[..count] == out;
  }

  /** The conditions of multiwrite_merge. */
  predicate MayMerge(a: BlockRequest, b: BlockRequest, maxTransfer: nat) {
    && b.sector <= a.sector + a.nbSectors
    && |a.qiov| + |b.qiov| + 1 <= IOV_MAX
    && (maxTransfer == 0 || a.nbSectors + b.nbSectors <= maxTransfer)
  }

  ghost predicate AllWithin(out: seq<BlockRequest>, before: seq<BlockRequest>, maxTransfer: nat) {
    forall k | 0 <= k < |out| :: out[k].Ok() && WithinLimits(out[k], before, maxTransfer)
  }

  lemma SameWithNext(out: seq<BlockRequest>, before: seq<BlockRequest>, i: nat)
    requires i < |before| && SameEffect(out, before[..i])
    ensures SameEffect(out + [before[i]], before[..i + 1])
  {
    SameEffectOn(out, before[..i], before[i]);
    assert before[..i] + [before[i]] == before[..i + 1];
  }

  lemma Append(out: seq<BlockRequest>, before: seq<BlockRequest>, i: nat, maxTransfer: nat)
    requires Merging(out, before, i, maxTransfer) && i < |before| && before[i].Ok()
    requires !MayMerge(out[|out| - 1], before[i], maxTransfer)
    ensures Merging(out + [before[i]], before, i + 1, maxTransfer)
  {
    SameWithNext(out, before, i);
    if Few(before, maxTransfer) {
      TightOn(out, before, i, maxTransfer);
    }
  }

  lemma Replace(out: seq<BlockRequest>, before: seq<BlockRequest>, i: nat, m: BlockRequest, maxTransfer: nat)
    requires Merging(out, before, i, maxTransfer) && i < |before| && m.Ok()
    requires var a, b := out[|out| - 1], before[i];
             && b.Ok() && a.sector <= b.sector && MayMerge(a, b, maxTransfer) && m.sector == a.sector
             && m.nbSectors <= a.nbSectors + b.nbSectors && |m.qiov| <= |a.qiov| + |b.qiov| + 1
             && Flat(m.qiov) == Overlay(Flat(a.qiov), (b.sector - a.sector) * SECTOR, Flat(b.qiov))
    ensures Merging(out[|out| - 1 := m], before, i + 1, maxTransfer)
  {
    var n := |out| - 1;
    assert out[n := m] == out[..n] + [m];
    SameWithNext(out, before, i);
    MergeStep(out, before[i], m);
    SameEffectTrans(out[..n] + [m], out + [before[i]], before[..i + 1]);
    if Few(before, maxTransfer) {
      TightOn(out, before, i, maxTransfer);
    }
  }

  /** Requests of equal effect leave every disk alike. */
  lemma SameEffectSameDisk(disk: Data, a: seq<BlockRequest>, b: seq<BlockRequest>)
    requires SameEffect(a, b)
    ensures SameView(Done(disk, a), Done(disk, b))
  {
    forall p: nat ensures View(Done(disk, a), p) == View(Done(disk, b), p) {
      assert EffectAt(a, b, p);
      EffectIsDone(disk, a, p);
      EffectIsDone(disk, b, p);
    }
  }
}
