/** Tracked requests of a block device, one atomic step at a time: what a coroutine does between two
    yields is one method (block.c, tracked_request_begin .. wait_serialising_requests,
    bdrv_co_do_preadv, bdrv_co_do_pwritev). */
module BlockRequests {
  import opened Prelude
  import opened Alignment
  import opened BlockDisk

  /** What a request does next, once it need not wait. */
  datatype Phase = ReadHead | ReadTail | WriteData | ReadData | Finish

  datatype Request = Request(
    co: nat, isWrite: bool, offset: nat, bytes: nat, data: Data,
    serialising: bool, overlapOffset: nat, overlapBytes: nat,
    waitingFor: Option<nat>, woken: bool,
    phase: Phase, head: Option<Data>, tail: Option<Data>)
  {
    function End(): nat {
      offset + bytes
    }

    /** mark_request_serialising; the count in the device is kept by the caller. */
    function Serialised(align: nat): Request
      requires align > 0
    {
      var o := Down(align, offset);
      var n := Max(0, Up(align, End()) - o);
      this.(serialising := true,
            overlapOffset := if overlapOffset < o then overlapOffset else o,
            overlapBytes := Max(overlapBytes, n))
    }

    /** tracked_request_overlaps. */
    predicate Overlaps(o: nat, n: nat) {
      if o >= overlapOffset + overlapBytes then false
      else if overlapOffset >= o + n then false
      else true
    }

    /** wait_serialising_requests must keep the two apart. */
    predicate Conflicts(r: Request) {
      (serialising || r.serialising) && Overlaps(r.overlapOffset, r.overlapBytes)
    }

    /** The tracked range covers all that is read or written, and a request that pads is serialising. */
    ghost predicate Ok(align: nat)
      requires align > 0
    {
      && overlapOffset <= Down(align, offset) && Up(align, End()) <= overlapOffset + overlapBytes
      && (isWrite ==> |data| == bytes && phase != ReadData)
      && (!isWrite ==> Aligned(align, offset) && Aligned(align, bytes) && (phase == ReadData || phase == Finish))
      && (phase == ReadHead ==> isWrite && !Aligned(align, offset) && head.None? && tail.None?)
      && (phase == ReadTail ==> isWrite && !Aligned(align, End()) && tail.None?)
      && (phase == WriteData ==> isWrite && (!Aligned(align, End()) ==> tail.Some?))
      && ((phase == ReadTail || phase == WriteData) && !Aligned(align, offset) ==> head.Some?)
      && (phase == ReadHead || phase == ReadTail || head.Some? || tail.Some? ==> serialising)
      && (waitingFor.Some? ==> head.None? && tail.None?)
      && (woken ==> waitingFor.Some?)
    }

    /** The blocks read for padding are still what the disk has. */
    ghost predicate Padded(align: nat, disk: Data)
      requires align > 0
    {
      && (head.Some? ==> !Aligned(align, offset) && head.value == Extract(disk, Down(align, offset), align))
      && (tail.Some? ==> !Aligned(align, End()) && tail.value == Extract(disk, Down(align, End()), align))
    }

    function HeadPart(align: nat): (d: Data)
      requires align > 0 && (head.Some? ==> |head.value| == align)
    {
      if head.Some? then head.value[..Rem(align, offset)] else []
    }

    function TailPart(align: nat): (d: Data)
      requires align > 0 && (tail.Some? ==> |tail.value| == align)
    {
      if tail.Some? then tail.value[Rem(align, End())..] else []
    }

    /** The padded buffer of a write. */
    function Local(align: nat): (d: Data)
      requires align > 0 && (head.Some? ==> |head.value| == align) && (tail.Some? ==> |tail.value| == align)
    {
      HeadPart(align) + data + TailPart(align)
    }
  }

  lemma Covers(r: Request, align: nat, a: nat)
    requires align > 0 && a > 0 && r.overlapOffset == r.offset && r.overlapBytes == r.bytes
    ensures var s := r.Serialised(a);
            s.overlapOffset == Down(a, r.offset) && s.overlapOffset + s.overlapBytes == Up(a, r.End())
            && s.overlapOffset <= r.offset && r.End() <= s.overlapOffset + s.overlapBytes
  {
    DownAligned(a, r.offset);
    UpAligned(a, r.End());
  }

  /** The write of a padded buffer is the splice of the data, and touches the tracked range only. */
  lemma WriteSplices(r: Request, align: nat, disk: Data)
    requires align > 0 && r.Ok(align) && r.Padded(align, disk) && r.phase == WriteData && r.waitingFor.None?
    ensures var o, n := Down(align, r.offset), |r.Local(align)|;
            && SameView(Splice(disk, o, r.Local(align)), Splice(disk, r.offset, r.data))
            && r.overlapOffset <= o && o + n <= r.overlapOffset + r.overlapBytes
            && o + n == Up(align, r.End())
  {
    UpAligned(align, r.offset);
    UpAligned(align, r.End());
    HeadSlice(r, align, disk);
    TailSlice(r, align, disk);
    PaddedSplice(disk, r.offset, r.HeadPart(align), r.data, r.TailPart(align));
  }

  lemma HeadSlice(r: Request, align: nat, disk: Data)
    requires align > 0 && r.Padded(align, disk)
    ensures |r.HeadPart(align)| == if r.head.Some? then Rem(align, r.offset) else 0
    ensures r.HeadPart(align) == Extract(disk, r.offset - |r.HeadPart(align)|, |r.HeadPart(align)|)
  {
    DownAligned(align, r.offset);
  }

  lemma TailSlice(r: Request, align: nat, disk: Data)
    requires align > 0 && r.Padded(align, disk)
    ensures |r.TailPart(align)| == if r.tail.Some? then align - Rem(align, r.End()) else 0
    ensures r.TailPart(align) == Extract(disk, r.End(), |r.TailPart(align)|)
  {
    DownAligned(align, r.End());
    var tail, t := r.TailPart(align), Rem(align, r.End());
    forall k | 0 <= k < |tail| ensures tail[k] == View(disk, r.End() + k) {
      assert tail[k] == r.tail.value[t + k];
    }
  }

  /** A write elsewhere leaves the padding valid. */
  lemma StillPadded(r: Request, align: nat, disk: Data, o: nat, d: Data)
    requires align > 0 && r.Ok(align) && r.Padded(align, disk)
    requires o + |d| <= r.overlapOffset || r.overlapOffset + r.overlapBytes <= o
    ensures r.Padded(align, Splice(disk, o, d))
  {
    UpAligned(align, r.offset);
    UpAligned(align, r.End());
    DownAligned(align, r.offset);
    DownAligned(align, r.End());
    if r.head.Some? {
      HeadWithin(align, r.offset, r.End());
      ExtractApart(disk, o, d, Down(align, r.offset), align);
    }
    if r.tail.Some? {
      HeadWithin(align, r.offset, r.End());
      ExtractApart(disk, o, d, Down(align, r.End()), align);
    }
  }

  /** The first and the last block of an unaligned range lie within its rounding. */
  lemma HeadWithin(align: nat, offset: nat, end: nat)
    requires align > 0 && offset <= end
    ensures !Aligned(align, offset) ==> Down(align, offset) + align <= Up(align, end)
    ensures !Aligned(align, end) ==>
              Down(align, offset) <= Down(align, end) && Down(align, end) + align == Up(align, end)
  {
    UpAligned(align, offset);
    UpAligned(align, end);
    DownAligned(align, offset);
    DownAligned(align, end);
    Monotone(align, offset, end);
  }

  lemma Monotone(align: nat, x: nat, y: nat)
    requires align > 0 && x <= y
    ensures Down(align, x) <= Down(align, y) && Up(align, x) <= Up(align, y)
  {
    DownMonotone(align, x, y);
    DownMonotone(align, x + align - 1, y + align - 1);
  }

  lemma DownMonotone(align: nat, x: nat, y: nat)
    requires align > 0 && x <= y
    ensures Down(align, x) <= Down(align, y)
  {
    DownAligned(align, x);
    DownAligned(align, y);
    var d := Down(align, x);
    AlignedSum(align, d, y - d);
  }

  /** Of two tracked requests that conflict, one is waiting. */
  ghost predicate Excluded(reqs: map<nat, Request>, a: nat, b: nat) {
    a in reqs && b in reqs && a != b && reqs[a].Conflicts(reqs[b]) ==>
      reqs[a].waitingFor.Some? || reqs[b].waitingFor.Some?
  }

  ghost predicate AllExcluded(reqs: map<nat, Request>) {
    forall a: nat, b: nat :: Excluded(reqs, a, b)
  }

  /** A waiting request waits for a conflicting one that does not wait, or that has ended: then it
      has been woken. */
  ghost predicate WaitOk(reqs: map<nat, Request>, nextId: nat, a: nat) {
    a in reqs && reqs[a].waitingFor.Some? ==>
      var q := reqs[a].waitingFor.value;
      if reqs[a].woken then q !in reqs && q < nextId
      else q in reqs && q != a && reqs[q].waitingFor.None? && reqs[a].Conflicts(reqs[q])
  }

  ghost predicate AllWaitOk(reqs: map<nat, Request>, nextId: nat) {
    forall a: nat :: WaitOk(reqs, nextId, a)
  }

  ghost predicate RequestOk(align: nat, disk: Data, reqs: map<nat, Request>, a: nat) {
    align > 0 && a in reqs ==> reqs[a].Ok(align) && reqs[a].Padded(align, disk)
  }

  ghost predicate AllOk(align: nat, disk: Data, reqs: map<nat, Request>) {
    forall a: nat :: RequestOk(align, disk, reqs, a)
  }

  /** A coroutine has one request at a time. */
  ghost predicate OneEach(reqs: map<nat, Request>, a: nat, b: nat) {
    a in reqs && b in reqs && a != b ==> reqs[a].co != reqs[b].co
  }

  ghost predicate AllOneEach(reqs: map<nat, Request>) {
    forall a: nat, b: nat :: OneEach(reqs, a, b)
  }

  ghost function Serialising(reqs: map<nat, Request>): set<nat> {
    set a | a in reqs && reqs[a].serialising
  }

  /** The list holds the tracked requests, each once. */
  ghost predicate Lists(tracked: seq<nat>, reqs: map<nat, Request>) {
    && (forall k | 0 <= k < |tracked| :: tracked[k] in reqs)
    && (forall a | a in reqs :: a in tracked)
    && (forall k, l | 0 <= k < l < |tracked| :: tracked[k] != tracked[l])
  }

  /** The disk after writes, in the order of the list. */
  function Replay(disk: Data, writes: seq<(nat, Data)>): Data {
    if writes == [] then disk
    else var n := |writes| - 1; Splice(Replay(disk, writes[..n]), writes[n].0, writes[n].1)
  }

  /** A step of a request that does not wait changes nothing for the others. */
  lemma Progress(align: nat, disk: Data, reqs: map<nat, Request>, nextId: nat, id: nat, r: Request)
    requires align > 0 && AllOk(align, disk, reqs) && AllWaitOk(reqs, nextId) && AllExcluded(reqs) && AllOneEach(reqs)
    requires id in reqs && reqs[id].waitingFor.None? && r.Ok(align) && r.Padded(align, disk)
    requires r == reqs[id].(phase := r.phase, head := r.head, tail := r.tail)
    ensures var reqs' := reqs[id := r];
            && AllOk(align, disk, reqs') && AllWaitOk(reqs', nextId) && AllExcluded(reqs') && AllOneEach(reqs')
            && Serialising(reqs') == Serialising(reqs)
  {
    var reqs' := reqs[id := r];
    forall a: nat ensures RequestOk(align, disk, reqs', a) && WaitOk(reqs', nextId, a) {
      assert RequestOk(align, disk, reqs, a) && WaitOk(reqs, nextId, a);
    }
    forall a: nat, b: nat ensures Excluded(reqs', a, b) && OneEach(reqs', a, b) {
      assert Excluded(reqs, a, b) && OneEach(reqs, a, b);
    }
  }

  /** The driver writes for a request that does not wait: all padding stays valid. */
  lemma OthersStillPadded(align: nat, disk: Data, reqs: map<nat, Request>, id: nat)
    requires align > 0 && AllOk(align, disk, reqs) && AllExcluded(reqs)
    requires id in reqs && reqs[id].waitingFor.None? && reqs[id].phase == WriteData
    requires reqs[id].Ok(align) && reqs[id].Padded(align, disk)
    ensures AllOk(align, Splice(disk, Down(align, reqs[id].offset), reqs[id].Local(align)),
                  reqs[id := reqs[id].(phase := Finish, head := None, tail := None)])
  {
    var r := reqs[id];
    var o, local := Down(align, r.offset), r.Local(align);
    var disk', reqs' := Splice(disk, o, local), reqs[id := r.(phase := Finish, head := None, tail := None)];
    WriteSplices(r, align, disk);
    forall a: nat ensures RequestOk(align, disk', reqs', a) {
      assert RequestOk(align, disk, reqs, a);
      if a in reqs && a != id && (reqs[a].head.Some? || reqs[a].tail.Some?) {
        assert Excluded(reqs, a, id);
        assert !reqs[a].Conflicts(r);
        StillPadded(reqs[a], align, disk, o, local);
      }
    }
  }
}
