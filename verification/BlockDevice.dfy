/** A block device under any interleaving of tracked requests (block.c, bdrv_co_do_preadv,
    bdrv_co_do_pwritev and what they call). What a coroutine does between two yields is one method. */
module BlockDevice {
  import opened Prelude
  import opened Alignment
  import opened BlockDisk
  import opened BlockRequests

  datatype Error = ENOMEDIUM | EACCES | EIO

  /** BDRV_REQUEST_MAX_SECTORS, in bytes. */
  const REQUEST_MAX := 4194303 * 512

  /** The padding of a read in bdrv_co_do_preadv. */
  method Pad(align: nat, offset: nat, bytes: nat) returns (o: nat, n: nat)
    requires align > 0
    ensures o == Down(align, offset) && o + n == Up(align, offset + bytes)
    ensures Aligned(align, o) && Aligned(align, n) && o <= offset && offset + bytes <= o + n
    ensures Up(align, o + n) == o + n && Down(align, o) == o
  {
    o, n := offset, bytes;
    UpAligned(align, offset);
    DownAligned(align, offset);
    if !Aligned(align, offset) {
      n := bytes + Rem(align, offset);
      o := Down(align, offset);
    }
    AlignedSum(align, o, n);
    UpAligned(align, n);
    UpAligned(align, offset + bytes);
    if !Aligned(align, o + n) {
      n := Up(align, n);
    }
    AlignedSum(align, o, n);
    UpAligned(align, o);
    UpAligned(align, o + n);
  }

  /** The request that bdrv_co_do_preadv begins, serialised if it is copy on read. */
  method NewRead(align: nat, co: nat, offset: nat, bytes: nat, copyOnRead: Option<nat>) returns (r: Request)
    requires align > 0 && (copyOnRead.Some? ==> copyOnRead.value > 0)
    ensures r.Ok(align) && r.co == co && !r.isWrite && r.phase == ReadData && r.serialising == copyOnRead.Some?
    ensures r.waitingFor.None? && r.head.None? && r.tail.None? && !r.woken
    ensures r.offset <= offset && offset + bytes <= r.End()
  {
    var o, n := Pad(align, offset, bytes);
    r := Request(co, false, o, n, [], false, o, n, None, false, ReadData, None, None);
    assert r.End() == o + n;
    if copyOnRead.Some? {
      Covers(r, align, copyOnRead.value);
      r := r.Serialised(copyOnRead.value);
    }
  }

  class Device {
    const align: nat
    const readOnly: bool
    /** A driver is attached (bs->drv), and it has a medium. */
    var attached: bool
    var medium: bool
    var disk: Data
    /** bs->tracked_requests, newest first. */
    var tracked: seq<nat>
    var reqs: map<nat, Request>
    var serialisingInFlight: nat
    var nextId: nat

    /** The writes that the driver has done, in order, and the disk before them. */
    ghost const initial: Data
    ghost var writes: seq<(nat, Data)>
    /** The requests for which a driver call has failed. */
    ghost var failed: set<nat>

    constructor (align: nat, readOnly: bool, disk: Data)
      requires align > 0 && Aligned(SECTOR, align) && |disk| % SECTOR == 0
      ensures Valid() && this.align == align && this.disk == disk && reqs == map[] && initial == disk && writes == []
    {
      this.align, this.readOnly, this.disk := align, readOnly, disk;
      attached, medium, tracked, reqs, serialisingInFlight, nextId := true, true, [], map[], 0, 0;
      initial, writes, failed := disk, [], {};
      new;
      assert Serialising(reqs) == {};
    }

    ghost predicate Tracking()
      reads `tracked, `reqs, `serialisingInFlight, `nextId
    {
      && Lists(tracked, reqs) && (forall a | a in reqs :: a < nextId)
      && serialisingInFlight == |Serialising(reqs)|
      && AllOneEach(reqs)
    }

    ghost predicate DiskOk()
      reads `disk, `writes
    {
      && align > 0 && Aligned(SECTOR, align) && |disk| % SECTOR == 0
      && SameView(disk, Replay(initial, writes))
    }

    ghost predicate Valid()
      reads this
    {
      && Tracking() && DiskOk()
      && AllOk(align, disk, reqs) && AllWaitOk(reqs, nextId) && AllExcluded(reqs)
    }

    /** As Valid, but request id has yet to look whether it must wait. */
    ghost predicate ValidBut(id: nat)
      reads this
    {
      && Tracking() && DiskOk() && id in reqs
      && AllOk(align, disk, reqs) && Fresh(reqs, nextId, id)
    }

    /** Request id may go on: it does not wait. */
    predicate Runs(id: nat, phase: Phase)
      reads `reqs
    {
      id in reqs && reqs[id].waitingFor.None? && reqs[id].phase == phase
    }

    /** wait_serialising_requests, up to the point where it yields (q is the request to wait for) or
        returns. */
    method Scan(id: nat) returns (q: Option<nat>)
      requires Tracking() && id in reqs
      ensures q.Some? ==>
                q.value in reqs && q.value != id && reqs[q.value].waitingFor.None? && reqs[q.value].Conflicts(reqs[id])
      ensures q.None? ==> forall b: nat | b in reqs && b != id && reqs[b].Conflicts(reqs[id]) ::
              reqs[b].waitingFor.Some?
    {
      if serialisingInFlight == 0 {
        forall b: nat | b in reqs ensures !reqs[b].serialising {
          assert b !in Serialising(reqs);
        }
        return None;
      }
      var self := reqs[id];
      var k := 0;
      while k < |tracked|
        invariant 0 <= k <= |tracked|
        invariant forall l | 0 <= l < k && tracked[l] != id && reqs[tracked[l]].Conflicts(self) ::
                  reqs[tracked[l]].waitingFor.Some?
      {
        var req := reqs[tracked[k]];
        if tracked[k] != id && (req.serialising || self.serialising)
          && req.Overlaps(self.overlapOffset, self.overlapBytes) {
          assert OneEach(reqs, tracked[k], id);
          assert req.co != self.co;
          if req.waitingFor.None? {
            return Some(tracked[k]);
          }
        }
        k := k + 1;
      }
      q := None;
    }

    /** wait_serialising_requests for a request that has just begun or has just been resumed. */
    method Wait(id: nat)
      requires ValidBut(id)
      modifies `reqs
      ensures Valid() && reqs.Keys == old(reqs).Keys
      ensures reqs[id] == old(reqs)[id].(waitingFor := reqs[id].waitingFor, woken := false)
      ensures forall a: nat | a in reqs && a != id :: reqs[a] == old(reqs)[a]
    {
      var q := Scan(id);
      MayWait(align, disk, reqs, nextId, id, q);
      reqs := reqs[id := reqs[id].(waitingFor := q, woken := false)];
    }

    /** tracked_request_begin, and mark_request_serialising before the first yield. */
    method Begin(r: Request) returns (id: nat)
      requires Valid() && r.Ok(align) && r.waitingFor.None? && r.head.None? && r.tail.None?
      requires forall a: nat | a in reqs :: reqs[a].co != r.co
      modifies `tracked, `reqs, `serialisingInFlight, `nextId
      ensures ValidBut(id) && id == old(nextId) && reqs == old(reqs)[id := r]
    {
      id := nextId;
      BeginOk(align, disk, reqs, nextId, r);
      assert id !in reqs;
      ListsNew(tracked, reqs, id, r);
      tracked := [id] + tracked;
      reqs := reqs[id := r];
      nextId := nextId + 1;
      if r.serialising {
        serialisingInFlight := serialisingInFlight + 1;
      }
    }

    /** bdrv_check_byte_request: None when the request may begin. */
    method CheckByteRequest(offset: int, bytes: nat) returns (error: Option<Error>)
      ensures error.None? <==> bytes <= REQUEST_MAX && attached && medium && offset >= 0
      ensures error == Some(ENOMEDIUM) <==> bytes <= REQUEST_MAX && !(attached && medium)
      ensures error == Some(EIO) <==> bytes > REQUEST_MAX || (attached && medium && offset < 0)
    {
      if bytes > REQUEST_MAX {
        return Some(EIO);
      }
      if !attached || !medium {
        return Some(ENOMEDIUM);
      }
      error := if offset < 0 then Some(EIO) else None;
    }

    /** bdrv_co_do_pwritev up to its first yield: the request waits, or its driver call is under way. */
    method BeginWrite(co: nat, offset: int, data: Data) returns (error: Option<Error>, id: nat)
      requires Valid() && forall a: nat | a in reqs :: reqs[a].co != co
      modifies `tracked, `reqs, `serialisingInFlight, `nextId
      ensures Valid()
      ensures error == if !attached then Some(ENOMEDIUM) else if readOnly then Some(EACCES)
                       else if |data| > REQUEST_MAX then Some(EIO) else if !medium then Some(ENOMEDIUM)
                       else if offset < 0 then Some(EIO) else None
      ensures error.Some? ==> reqs == old(reqs)
      ensures error.None? ==>
                reqs.Keys == old(reqs.Keys) + {id} && id !in old(reqs)
                && forall a: nat | a in old(reqs) :: reqs[a] == old(reqs)[a]
      ensures error.None? ==>
                reqs[id].isWrite && reqs[id].offset == offset && reqs[id].data == data && reqs[id].phase != Finish
    {
      id := 0;
      if !attached {
        return Some(ENOMEDIUM), id;
      }
      if readOnly {
        return Some(EACCES), id;
      }
      error := CheckByteRequest(offset, |data|);
      if error.Some? {
        return;
      }
      var phase := if !Aligned(align, offset) then ReadHead else if !Aligned(align, offset + |data|) then ReadTail
        else WriteData;
      var r := Request(co, true, offset, |data|, data, false, offset, |data|, None, false, phase, None, None);
      Covers(r, align, align);
      UpAligned(align, offset);
      UpAligned(align, offset + |data|);
      if phase != WriteData {
        r := r.Serialised(align);
      }
      id := Begin(r);
      Wait(id);
    }

    /** bdrv_co_do_preadv up to its first yield; the request is padded to the alignment. With copy on
        read it is serialised with the size of a cluster. */
    method BeginRead(co: nat, offset: int, bytes: nat, copyOnRead: Option<nat>) returns (error: Option<Error>, id: nat)
      requires Valid() && (forall a: nat | a in reqs :: reqs[a].co != co)
      requires copyOnRead.Some? ==> copyOnRead.value > 0
      modifies `tracked, `reqs, `serialisingInFlight, `nextId
      ensures Valid()
      ensures error == if !attached then Some(ENOMEDIUM) else if bytes > REQUEST_MAX then Some(EIO)
                       else if !medium then Some(ENOMEDIUM) else if offset < 0 then Some(EIO) else None
      ensures error.Some? ==> reqs == old(reqs)
      ensures error.None? ==>
                reqs.Keys == old(reqs.Keys) + {id} && id !in old(reqs)
                && forall a: nat | a in old(reqs) :: reqs[a] == old(reqs)[a]
      ensures error.None? ==> !reqs[id].isWrite && reqs[id].phase == ReadData
      ensures error.None? ==> reqs[id].offset <= offset && offset + bytes <= reqs[id].End()
    {
      id := 0;
      if !attached {
        return Some(ENOMEDIUM), id;
      }
      error := CheckByteRequest(offset, bytes);
      if error.Some? {
        return;
      }
      var r := NewRead(align, co, offset, bytes, copyOnRead);
      id := Begin(r);
      Wait(id);
    }

    /** A request that was woken runs again: it looks once more whether it must wait. */
    method Resume(id: nat)
      requires Valid() && id in reqs && reqs[id].woken
      modifies `reqs
      ensures Valid() && reqs.Keys == old(reqs).Keys
      ensures reqs[id] == old(reqs)[id].(waitingFor := reqs[id].waitingFor, woken := false)
      ensures forall a: nat | a in reqs && a != id :: reqs[a] == old(reqs)[a]
    {
      ResumeOk(align, disk, reqs, nextId, id);
      reqs := reqs[id := reqs[id].(waitingFor := None, woken := false)];
      Wait(id);
    }

    /** wait_serialising_requests for a request that runs already: it never has to wait again. */
    method WaitAgain(id: nat) returns (waited: bool)
      requires Valid() && id in reqs && reqs[id].waitingFor.None?
      ensures !waited
    {
      var q := Scan(id);
      assert q.Some? ==> Excluded(reqs, q.value, id);
      waited := q.Some?;
    }

    /** A driver call under way fails: the request gives up. */
    method Fail(id: nat)
      requires Valid() && id in reqs && reqs[id].waitingFor.None?
      modifies `reqs, `failed
      ensures Valid() && reqs == old(reqs)[id := old(reqs)[id].(phase := Finish, head := None, tail := None)]
              && failed == old(failed) + {id}
    {
      var r := reqs[id].(phase := Finish, head := None, tail := None);
      assert RequestOk(align, disk, reqs, id);
      Progress(align, disk, reqs, nextId, id, r);
      reqs := reqs[id := r];
      failed := failed + {id};
    }

    /** The driver has read the head of an unaligned write. */
    method FinishHead(id: nat, junk: nat -> byte, buf: Data)
      requires Valid() && Runs(id, ReadHead) && |buf| == align
      modifies `reqs
      ensures Valid() && reqs == old(reqs)[id := reqs[id]]
      ensures reqs[id] == old(reqs)[id].(phase := reqs[id].phase, head := reqs[id].head)
      ensures Runs(id, ReadTail) || Runs(id, WriteData)
    {
      var waited := WaitAgain(id);
      var r := reqs[id];
      assert RequestOk(align, disk, reqs, id);
      DownAligned(align, r.offset);
      assert Aligned(align, align);
      var block := AlignedRead(disk, junk, buf, align, Down(align, r.offset), align);
      r := r.(head := Some(block));
      if !Aligned(align, r.End()) {
        SerialisedAgain(r, align);
        r := r.Serialised(align).(phase := ReadTail);
      } else {
        r := r.(phase := WriteData);
      }
      Progress(align, disk, reqs, nextId, id, r);
      reqs := reqs[id := r];
    }

    /** The driver has read the tail of an unaligned write. */
    method FinishTail(id: nat, junk: nat -> byte, buf: Data)
      requires Valid() && Runs(id, ReadTail) && |buf| == align
      modifies `reqs
      ensures Valid() && reqs == old(reqs)[id := reqs[id]] && Runs(id, WriteData)
      ensures reqs[id] == old(reqs)[id].(phase := WriteData, tail := reqs[id].tail)
    {
      var waited := WaitAgain(id);
      var r := reqs[id];
      assert RequestOk(align, disk, reqs, id);
      DownAligned(align, r.End());
      assert Aligned(align, align);
      var block := AlignedRead(disk, junk, buf, align, Down(align, r.End()), align);
      r := r.(tail := Some(block), phase := WriteData);
      Progress(align, disk, reqs, nextId, id, r);
      reqs := reqs[id := r];
    }

    /** The driver has done the write: the disk changes by the data of the request and by nothing
        else, whatever other requests have done since it was begun. */
    method FinishWrite(id: nat)
      requires Valid() && Runs(id, WriteData)
      modifies `disk, `reqs, `writes
      ensures Valid() && reqs == old(reqs)[id := old(reqs)[id].(phase := Finish, head := None, tail := None)]
      ensures SameView(disk, Splice(old(disk), reqs[id].offset, reqs[id].data))
      ensures writes == old(writes) + [(reqs[id].offset, reqs[id].data)]
    {
      var waited := WaitAgain(id);
      var r := reqs[id];
      assert !waited || !r.serialising;
      WriteStep(align, disk, initial, writes, reqs, nextId, id);
      disk := Splice(disk, Down(align, r.offset), r.Local(align));
      writes := writes + [(r.offset, r.data)];
      reqs := reqs[id := r.(phase := Finish, head := None, tail := None)];
    }

    /** The driver has done a read of the padded range: the bytes asked for are what the disk shows. */
    method FinishRead(id: nat, junk: nat -> byte, buf0: Data, offset: nat, bytes: nat) returns (buf: Data)
      requires Valid() && Runs(id, ReadData) && |buf0| == reqs[id].bytes
      requires reqs[id].offset <= offset && offset + bytes <= reqs[id].End()
      modifies `reqs
      ensures Valid() && reqs == old(reqs)[id := old(reqs)[id].(phase := Finish)]
      ensures buf == Extract(disk, offset, bytes)
    {
      var waited := WaitAgain(id);
      var r := reqs[id];
      assert RequestOk(align, disk, reqs, id);
      var whole := AlignedRead(disk, junk, buf0, align, r.offset, r.bytes);
      buf := whole[offset - r.offset..offset - r.offset + bytes];
      r := r.(phase := Finish);
      Progress(align, disk, reqs, nextId, id, r);
      reqs := reqs[id := r];
    }

    /** tracked_request_end: whoever waits for the request is woken. */
    method End(id: nat)
      requires Valid() && Runs(id, Finish)
      modifies `tracked, `reqs, `serialisingInFlight
      ensures Valid() && reqs == Ended(old(reqs), id)
    {
      EndOk(align, disk, reqs, nextId, id);
      if reqs[id].serialising {
        assert id in Serialising(reqs);
        serialisingInFlight := serialisingInFlight - 1;
      }
      var k := 0;
      while tracked[k] != id
        invariant 0 <= k < |tracked| && id in tracked[k..]
        decreases |tracked| - k
      {
        k := k + 1;
      }
      ListsLess(tracked, reqs, k, id);
      tracked := tracked[..k] + tracked[k + 1..];
      reqs := Ended(reqs, id);
    }
  }

  /** Request id neither waits nor is waited for, and the others are in order. */
  ghost predicate Fresh(reqs: map<nat, Request>, nextId: nat, id: nat) {
    && id in reqs && reqs[id].waitingFor.None? && reqs[id].head.None? && reqs[id].tail.None? && !reqs[id].woken
    && AllWaitOk(reqs, nextId) && AllExcluded(reqs - {id}) && forall a: nat :: !WaitsFor(reqs, a, id)
  }

  ghost predicate WaitsFor(reqs: map<nat, Request>, a: nat, q: nat) {
    a in reqs && reqs[a].waitingFor == Some(q)
  }

  /** Whether it waits for a conflicting request or all of these wait, the device is in order. */
  lemma MayWait(align: nat, disk: Data, reqs: map<nat, Request>, nextId: nat, id: nat, q: Option<nat>)
    requires align > 0 && AllOk(align, disk, reqs) && Fresh(reqs, nextId, id) && AllOneEach(reqs)
    requires q.Some? ==>
               q.value in reqs && q.value != id && reqs[q.value].waitingFor.None? && reqs[q.value].Conflicts(reqs[id])
    requires q.None? ==> forall b: nat | b in reqs && b != id && reqs[b].Conflicts(reqs[id]) :: reqs[b].waitingFor.Some?
    ensures var reqs' := reqs[id := reqs[id].(waitingFor := q, woken := false)];
            && AllOk(align, disk, reqs') && AllWaitOk(reqs', nextId) && AllExcluded(reqs') && AllOneEach(reqs')
            && Serialising(reqs') == Serialising(reqs)
  {
    var reqs' := reqs[id := reqs[id].(waitingFor := q, woken := false)];
    forall a: nat ensures RequestOk(align, disk, reqs', a) && WaitOk(reqs', nextId, a) {
      assert RequestOk(align, disk, reqs, a) && WaitOk(reqs, nextId, a) && !WaitsFor(reqs, a, id);
    }
    forall a: nat, b: nat ensures Excluded(reqs', a, b) && OneEach(reqs', a, b) {
      assert Excluded(reqs - {id}, a, b) && OneEach(reqs, a, b);
    }
  }

  lemma ResumeOk(align: nat, disk: Data, reqs: map<nat, Request>, nextId: nat, id: nat)
    requires align > 0 && AllOk(align, disk, reqs) && AllWaitOk(reqs, nextId) && AllExcluded(reqs) && AllOneEach(reqs)
    requires id in reqs && reqs[id].woken
    ensures var reqs' := reqs[id := reqs[id].(waitingFor := None, woken := false)];
            AllOk(align, disk, reqs') && Fresh(reqs', nextId, id) && AllOneEach(reqs')
              && Serialising(reqs') == Serialising(reqs)
  {
    var reqs' := reqs[id := reqs[id].(waitingFor := None, woken := false)];
    assert RequestOk(align, disk, reqs, id);
    forall a: nat ensures RequestOk(align, disk, reqs', a) && WaitOk(reqs', nextId, a) && !WaitsFor(reqs', a, id) {
      assert RequestOk(align, disk, reqs, a) && WaitOk(reqs, nextId, a);
    }
    forall a: nat, b: nat ensures Excluded(reqs' - {id}, a, b) && OneEach(reqs', a, b) {
      assert Excluded(reqs, a, b) && OneEach(reqs, a, b);
    }
  }

  /** The requests once id has ended. */
  function Ended(reqs: map<nat, Request>, id: nat): map<nat, Request> {
    map a | a in reqs && a != id :: if reqs[a].waitingFor == Some(id) then reqs[a].(woken := true) else reqs[a]
  }

  lemma EndOk(align: nat, disk: Data, reqs: map<nat, Request>, nextId: nat, id: nat)
    requires align > 0 && AllOk(align, disk, reqs) && AllWaitOk(reqs, nextId) && AllExcluded(reqs) && AllOneEach(reqs)
    requires id in reqs && id < nextId && reqs[id].waitingFor.None?
    ensures var reqs' := Ended(reqs, id);
            && AllOk(align, disk, reqs') && AllWaitOk(reqs', nextId) && AllExcluded(reqs') && AllOneEach(reqs')
            && |Serialising(reqs')| == |Serialising(reqs)| - if reqs[id].serialising then 1 else 0
  {
    var reqs' := Ended(reqs, id);
    forall a: nat ensures RequestOk(align, disk, reqs', a) && WaitOk(reqs', nextId, a) {
      assert RequestOk(align, disk, reqs, a) && WaitOk(reqs, nextId, a);
    }
    forall a: nat, b: nat ensures Excluded(reqs', a, b) && OneEach(reqs', a, b) {
      assert Excluded(reqs, a, b) && OneEach(reqs, a, b);
    }
    assert Serialising(reqs') == Serialising(reqs) - {id};
  }

  lemma ListsLess(tracked: seq<nat>, reqs: map<nat, Request>, k: nat, id: nat)
    requires Lists(tracked, reqs) && k < |tracked| && tracked[k] == id
    ensures Lists(tracked[..k] + tracked[k + 1..], Ended(reqs, id))
  {
    var t := tracked[..k] + tracked[k + 1..];
    forall a | a in Ended(reqs, id) ensures a in t {
      var l :| 0 <= l < |tracked| && tracked[l] == a;
      assert t[if l < k then l else l - 1] == a;
    }
  }

  /** The driver writes the padded buffer; the asserts of bdrv_aligned_pwritev on the range hold. */
  lemma WriteStep(align: nat, disk: Data, initial: Data, writes: seq<(nat, Data)>, reqs: map<nat, Request>,
                  nextId: nat, id: nat)
    requires align > 0 && Aligned(SECTOR, align) && |disk| % SECTOR == 0 && SameView(disk, Replay(initial, writes))
    requires AllOk(align, disk, reqs) && AllWaitOk(reqs, nextId) && AllExcluded(reqs) && AllOneEach(reqs)
    requires id in reqs && reqs[id].waitingFor.None? && reqs[id].phase == WriteData
    ensures reqs[id].Ok(align) && reqs[id].Padded(align, disk)
    ensures var r := reqs[id];
            var o, local := Down(align, r.offset), r.Local(align);
            var disk', reqs' := Splice(disk, o, local), reqs[id := r.(phase := Finish, head := None, tail := None)];
            && r.overlapOffset <= o && o + |local| <= r.overlapOffset + r.overlapBytes
            && AllOk(align, disk', reqs') && AllWaitOk(reqs', nextId) && AllExcluded(reqs') && AllOneEach(reqs')
            && Serialising(reqs') == Serialising(reqs)
            && |disk'| % SECTOR == 0 && SameView(disk', Splice(disk, r.offset, r.data))
            && SameView(disk', Replay(initial, writes + [(r.offset, r.data)]))
  {
    assert RequestOk(align, disk, reqs, id);
    var r := reqs[id];
    var o, local := Down(align, r.offset), r.Local(align);
    OthersStillPadded(align, disk, reqs, id);
    Progress(align, disk, reqs, nextId, id, r.(phase := Finish, head := None, tail := None));
    WriteSplices(r, align, disk);
    SectorLength(align, disk, r, local);
    ReplayMore(initial, writes, disk, Splice(disk, o, local), r.offset, r.data);
  }

  /** The second mark_request_serialising of a write changes nothing. */
  lemma SerialisedAgain(r: Request, align: nat)
    requires align > 0 && r.serialising
    requires r.overlapOffset <= Down(align, r.offset) && Up(align, r.End()) <= r.overlapOffset + r.overlapBytes
    ensures r.Serialised(align) == r
  {
    UpAligned(align, r.End());
    DownAligned(align, r.offset);
  }

  /** The disk keeps a whole number of sectors. */
  lemma SectorLength(align: nat, disk: Data, r: Request, local: Data)
    requires align > 0 && Aligned(SECTOR, align) && |disk| % SECTOR == 0
    requires Down(align, r.offset) + |local| == Up(align, r.End())
    ensures |Splice(disk, Down(align, r.offset), local)| % SECTOR == 0
  {
    UpAligned(align, r.End());
    InSectors(align, Up(align, r.End()));
  }

  lemma ReplayMore(initial: Data, writes: seq<(nat, Data)>, disk: Data, disk': Data, o: nat, d: Data)
    requires SameView(disk, Replay(initial, writes)) && SameView(disk', Splice(disk, o, d))
    ensures SameView(disk', Replay(initial, writes + [(o, d)]))
  {
    var ws := writes + [(o, d)];
    assert ws[..|writes|] == writes;
    SpliceSame(disk, Replay(initial, writes), o, d);
    forall p: nat ensures View(disk', p) == View(Replay(initial, ws), p) {
      assert View(disk', p) == View(Splice(disk, o, d), p);
    }
  }

  /** No deadlock: while requests are tracked, one of them can run. */
  lemma NoDeadlock(reqs: map<nat, Request>, nextId: nat)
    requires AllWaitOk(reqs, nextId) && reqs != map[]
    ensures exists a: nat :: a in reqs && (reqs[a].waitingFor.None? || reqs[a].woken)
  {
    var a :| a in reqs;
    assert WaitOk(reqs, nextId, a);
    if reqs[a].waitingFor.Some? && !reqs[a].woken {
      assert reqs[a].waitingFor.value in reqs;
    }
  }

  lemma BeginOk(align: nat, disk: Data, reqs: map<nat, Request>, id: nat, r: Request)
    requires align > 0 && AllOk(align, disk, reqs) && AllWaitOk(reqs, id) && AllExcluded(reqs) && AllOneEach(reqs)
    requires forall a: nat | a in reqs :: a < id && reqs[a].co != r.co
    requires r.Ok(align) && r.waitingFor.None? && r.head.None? && r.tail.None?
    ensures var reqs' := reqs[id := r];
            && AllOk(align, disk, reqs') && Fresh(reqs', id + 1, id) && AllOneEach(reqs')
            && |Serialising(reqs')| == |Serialising(reqs)| + if r.serialising then 1 else 0
  {
    var reqs', next := reqs[id := r], id + 1;
    forall a: nat ensures RequestOk(align, disk, reqs', a) && WaitOk(reqs', next, a) && !WaitsFor(reqs', a, id) {
      assert RequestOk(align, disk, reqs, a) && WaitOk(reqs, id, a);
    }
    forall a: nat, b: nat ensures OneEach(reqs', a, b) {
      assert OneEach(reqs, a, b);
    }
    assert reqs' - {id} == reqs;
    OneMore(reqs, id, r);
  }

  lemma OneMore(reqs: map<nat, Request>, id: nat, r: Request)
    requires id !in reqs
    ensures |Serialising(reqs[id := r])| == |Serialising(reqs)| + if r.serialising then 1 else 0
  {
    assert Serialising(reqs[id := r]) == Serialising(reqs) + if r.serialising then {id} else {};
  }

  lemma ListsNew(tracked: seq<nat>, reqs: map<nat, Request>, id: nat, r: Request)
    requires Lists(tracked, reqs) && id !in reqs
    ensures Lists([id] + tracked, reqs[id := r])
  {
    var t := [id] + tracked;
    assert t[0] == id;
    forall a | a in reqs ensures a in t {
      var k :| 0 <= k < |tracked| && tracked[k] == a;
      assert t[k + 1] == a;
    }
  }
}
