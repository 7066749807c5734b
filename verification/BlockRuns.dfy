/** Whole runs of a block device: no interleaving leaves a request behind. */
module BlockRuns {
  import opened Prelude
  import opened BlockDisk
  import opened BlockRequests
  import opened BlockDevice

  function Rank(phase: Phase): nat {
    match phase
    case ReadHead => 4
    case ReadTail => 3
    case WriteData => 2
    case ReadData => 2
    case Finish => 1
  }

  /** The driver calls that the requests have before them. */
  ghost function Work(reqs: map<nat, Request>): set<(nat, nat)> {
    set a: nat, k: nat | a in reqs && 0 <= k < Rank(reqs[a].phase) :: (a, k)
  }

  ghost function Woken(reqs: map<nat, Request>): set<nat> {
    set a | a in reqs && reqs[a].woken
  }

  lemma LessWork(reqs: map<nat, Request>, id: nat, r: Request)
    requires id in reqs && Rank(r.phase) < Rank(reqs[id].phase)
    ensures Work(reqs[id := r]) < Work(reqs) && |reqs[id := r]| == |reqs|
  {
    var reqs' := reqs[id := r];
    assert (id, Rank(r.phase)) in Work(reqs) && (id, Rank(r.phase)) !in Work(reqs');
    assert reqs'.Keys == reqs.Keys;
  }

  /** The driver call of request id comes to its end. */
  method Call(d: Device, id: nat, junk: nat -> byte) returns (failed: bool)
    requires d.Valid() && id in d.reqs && d.reqs[id].waitingFor.None? && d.reqs[id].phase != Finish
    modifies d
    ensures d.Valid() && d.nextId == old(d.nextId) && id in d.reqs && d.reqs == old(d.reqs)[id := d.reqs[id]]
    ensures var r, r' := old(d.reqs)[id], d.reqs[id];
            && Rank(r'.phase) < Rank(r.phase) && Same(r, r')
            && (r'.phase == Finish <==> failed || r.phase == WriteData || r.phase == ReadData)
            && d.writes == old(d.writes) + (if r.phase == WriteData && !failed then [(r.offset, r.data)] else [])
            && d.failed == old(d.failed) + if failed then {id} else {}
  {
    failed := *;
    if failed {
      d.Fail(id);
    } else {
      match d.reqs[id].phase {
        case ReadHead => d.FinishHead(id, junk, seq(d.align, _ => 0));
        case ReadTail => d.FinishTail(id, junk, seq(d.align, _ => 0));
        case WriteData => d.FinishWrite(id);
        case ReadData =>
          var _ := d.FinishRead(id, junk, seq(d.reqs[id].bytes, _ => 0), d.reqs[id].offset, d.reqs[id].bytes);
      }
    }
  }

  /** Some step of a request that can run: the scheduler may choose any, and the driver may fail. A
      request that comes to its write does it then, and no other step writes. */
  method Step(d: Device, id: nat, junk: nat -> byte) returns (failed: bool)
    requires d.Valid() && id in d.reqs && (d.reqs[id].waitingFor.None? || d.reqs[id].woken)
    modifies d
    ensures d.Valid() && d.nextId == old(d.nextId)
    ensures forall a: nat :: Moves(old(d.reqs), d.reqs, id, failed, a)
    ensures d.writes == old(d.writes) + Wrote(old(d.reqs), id, failed)
    ensures d.failed == old(d.failed) + if failed then {id} else {}
    ensures Less(d.reqs, old(d.reqs))
  {
    ghost var reqs := d.reqs;
    failed := false;
    assert RequestOk(d.align, d.disk, reqs, id);
    if d.reqs[id].woken {
      d.Resume(id);
      assert d.reqs == reqs[id := d.reqs[id]];
      MovesOne(reqs, d.reqs, id, d.reqs[id], failed);
      assert id in Woken(reqs) && id !in Woken(d.reqs);
      assert Work(d.reqs) == Work(reqs);
    } else if d.reqs[id].phase == Finish {
      d.End(id);
      MovesEnd(reqs, d.reqs, id);
      assert d.reqs.Keys == reqs.Keys - {id};
    } else {
      failed := Call(d, id, junk);
      MovesOne(reqs, d.reqs, id, d.reqs[id], failed);
      LessWork(reqs, id, d.reqs[id]);
    }
  }

  /** There is less to do. */
  ghost predicate Less(reqs': map<nat, Request>, reqs: map<nat, Request>) {
    || |reqs'| < |reqs|
    || (|reqs'| == |reqs| && Work(reqs') < Work(reqs))
    || (|reqs'| == |reqs| && Work(reqs') == Work(reqs) && Woken(reqs') < Woken(reqs))
  }

  /** The request is for the same bytes. */
  ghost predicate Same(r: Request, r': Request) {
    r'.isWrite == r.isWrite && r'.offset == r.offset && r'.data == r.data
  }

  /** The step of request id is its write. */
  ghost predicate Writes(reqs: map<nat, Request>, id: nat, failed: bool) {
    id in reqs && !reqs[id].woken && reqs[id].phase == WriteData && !failed
  }

  /** What it writes. */
  ghost function Wrote(reqs: map<nat, Request>, id: nat, failed: bool): seq<(nat, Data)> {
    if Writes(reqs, id, failed) then [(reqs[id].offset, reqs[id].data)] else []
  }

  /** What a step of request id does to request a: it goes on to write the same data, unless it has
      written, has failed or was at its end. */
  ghost predicate Moves(reqs: map<nat, Request>, reqs': map<nat, Request>, id: nat, failed: bool, a: nat) {
    && (a in reqs' ==> a in reqs && Same(reqs[a], reqs'[a]) && (reqs[a].phase == Finish ==> reqs'[a].phase == Finish))
    && (a in reqs' && a == id && (failed || Writes(reqs, id, failed)) ==> reqs'[a].phase == Finish)
    && (a in reqs && reqs[a].isWrite && reqs[a].phase != Finish ==>
          a in reqs' && (reqs'[a].phase == Finish ==> a == id && (failed || Writes(reqs, id, failed))))
  }

  lemma MovesOne(reqs: map<nat, Request>, reqs': map<nat, Request>, id: nat, r: Request, failed: bool)
    requires id in reqs && Same(reqs[id], r) && reqs' == reqs[id := r]
    requires if reqs[id].woken then !failed && r.phase == reqs[id].phase
             else && reqs[id].phase != Finish
                  && (r.phase == Finish <==> failed || reqs[id].phase == WriteData || reqs[id].phase == ReadData)
    requires reqs[id].isWrite ==> reqs[id].phase != ReadData
    ensures forall a: nat :: Moves(reqs, reqs', id, failed, a)
  {
  }

  lemma MovesEnd(reqs: map<nat, Request>, reqs': map<nat, Request>, id: nat)
    requires id in reqs && reqs[id].phase == Finish && reqs' == Ended(reqs, id)
    ensures forall a: nat :: Moves(reqs, reqs', id, false, a)
  {
  }

  /** What has become of request a of reqs: it is still to write, or has written, or has failed. */
  ghost predicate Accounted(reqs: map<nat, Request>, reqs': map<nat, Request>, done: seq<nat>, failed: set<nat>,
                            a: nat) {
    && (a in reqs' ==> a in reqs && Same(reqs[a], reqs'[a]) && (reqs[a].phase == Finish ==> reqs'[a].phase == Finish))
    && (a in done || a in failed ==> a !in reqs' || reqs'[a].phase == Finish)
    && (a in reqs && reqs[a].isWrite && reqs[a].phase != Finish ==>
          a in done || a in failed || (a in reqs' && reqs'[a].phase != Finish))
  }

  /** The writes that requests do, in the order of the list, each once. */
  ghost predicate WritesOf(reqs: map<nat, Request>, done: seq<nat>, writes: seq<(nat, Data)>) {
    && |writes| == |done|
    && (forall k | 0 <= k < |done| ::
          && done[k] in reqs && reqs[done[k]].isWrite
          && writes[k] == (reqs[done[k]].offset, reqs[done[k]].data))
    && (forall k, l | 0 <= k < l < |done| :: done[k] != done[l])
  }

  /** When no more requests arrive all end, in whatever order they are run. Each write is done once, or a
      driver call for it has failed; and the disk is what the writes done make of it. */
  method Drain(d: Device, junk: nat -> byte) returns (ghost done: seq<nat>)
    requires d.Valid()
    modifies d
    ensures d.Valid() && d.reqs == map[] && d.serialisingInFlight == 0
    ensures old(d.writes) <= d.writes && WritesOf(old(d.reqs), done, d.writes[|old(d.writes)|..])
    ensures forall a: nat | a in old(d.reqs) && old(d.reqs)[a].isWrite && old(d.reqs)[a].phase != Finish ::
              a in done || a in d.failed
    ensures SameView(d.disk, Replay(d.initial, d.writes))
  {
    done := [];
    ghost var failed: set<nat>, writes: seq<(nat, Data)> := {}, [];
    while d.reqs != map[]
      invariant d.Valid() && d.writes == old(d.writes) + writes && WritesOf(old(d.reqs), done, writes)
                && failed <= d.failed
      invariant forall a: nat :: Accounted(old(d.reqs), d.reqs, done, failed, a)
      decreases |d.reqs|, Work(d.reqs), Woken(d.reqs)
    {
      NoDeadlock(d.reqs, d.nextId);
      var id: nat :| id in d.reqs && (d.reqs[id].waitingFor.None? || d.reqs[id].woken);
      ghost var reqs := d.reqs;
      assert RequestOk(d.align, d.disk, reqs, id);
      var fails := Step(d, id, junk);
      AllAccounted(old(d.reqs), reqs, d.reqs, done, failed, id, fails);
      WritesMore(old(d.reqs), reqs, done, failed, writes, id, fails);
      writes := writes + Wrote(reqs, id, fails);
      done, failed := DoneBy(done, reqs, id, fails), failed + if fails then {id} else {};
    }
    assert Serialising(d.reqs) == {};
    forall a: nat | a in old(d.reqs) && old(d.reqs)[a].isWrite && old(d.reqs)[a].phase != Finish
      ensures a in done || a in d.failed
    {
      assert Accounted(old(d.reqs), d.reqs, done, failed, a);
    }
  }

  /** The requests that have written after a step of request id. */
  ghost function DoneBy(done: seq<nat>, reqs: map<nat, Request>, id: nat, fails: bool): seq<nat> {
    done + if Writes(reqs, id, fails) then [id] else []
  }

  /** A step keeps the account. */
  lemma AllAccounted(reqs0: map<nat, Request>, reqs: map<nat, Request>, reqs': map<nat, Request>,
                     done: seq<nat>, failed: set<nat>, id: nat, fails: bool)
    requires forall a: nat :: Accounted(reqs0, reqs, done, failed, a)
    requires forall a: nat :: Moves(reqs, reqs', id, fails, a)
    ensures var done', failed' := DoneBy(done, reqs, id, fails), failed + if fails then {id} else {};
            forall a: nat :: Accounted(reqs0, reqs', done', failed', a)
  {
    var done', failed' := DoneBy(done, reqs, id, fails), failed + if fails then {id} else {};
    forall a: nat ensures Accounted(reqs0, reqs', done', failed', a) {
      assert Accounted(reqs0, reqs, done, failed, a) && Moves(reqs, reqs', id, fails, a);
      assert a in done' <==> a in done || (a == id && Writes(reqs, id, fails));
    }
  }

  /** A request that writes has not written before. */
  lemma WritesMore(reqs0: map<nat, Request>, reqs: map<nat, Request>, done: seq<nat>, failed: set<nat>,
                   writes: seq<(nat, Data)>, id: nat, fails: bool)
    requires forall a: nat :: Accounted(reqs0, reqs, done, failed, a)
    requires WritesOf(reqs0, done, writes) && id in reqs && (reqs[id].phase == WriteData ==> reqs[id].isWrite)
    ensures WritesOf(reqs0, DoneBy(done, reqs, id, fails), writes + Wrote(reqs, id, fails))
  {
    assert Accounted(reqs0, reqs, done, failed, id);
    assert done + [] == done && writes + [] == writes;
  }
}
