/** Bottom halves: what is done to them and to their list, between which callbacks run (async.c, aio_bh_new ..
    qemu_bh_delete). */
module BottomHalves {
  import opened Prelude

  datatype Bh = Bh(scheduled: bool, idle: bool, deleted: bool)

  /** rest is the end of list. */
  ghost predicate Suffix(list: seq<nat>, rest: seq<nat>) {
    |rest| <= |list| && forall j: nat | j < |rest| :: rest[j] == list[|list| - |rest| + j]
  }

  ghost predicate Unique(list: seq<nat>) {
    forall k, l | 0 <= k < l < |list| :: list[k] != list[l]
  }

  /** The index of x. */
  function IndexOf(list: seq<nat>, x: nat): (k: nat)
    requires x in list
    ensures k < |list| && list[k] == x
  {
    if list[0] == x then 0 else 1 + IndexOf(list[1..], x)
  }

  /** bh->next. */
  function Next(list: seq<nat>, x: nat): (n: Option<nat>)
    requires x in list
  {
    var k := IndexOf(list, x) + 1;
    if k < |list| then Some(list[k]) else None
  }

  lemma NextInSuffix(list: seq<nat>, rest: seq<nat>)
    requires Unique(list) && Suffix(list, rest) && rest != []
    ensures rest[0] in list
    ensures Next(list, rest[0]) == if |rest| == 1 then None else Some(rest[1])
    ensures Suffix(list, rest[1..])
  {
    var k := |list| - |rest|;
    assert list[k] == rest[0] && IndexOf(list, rest[0]) == k;
    assert |rest| > 1 ==> rest[1] == list[k + 1];
  }

  lemma SuffixOfLonger(list: seq<nat>, longer: seq<nat>, rest: seq<nat>)
    requires Suffix(longer, list) && Suffix(list, rest)
    ensures Suffix(longer, rest)
  {
    forall j: nat | j < |rest| ensures rest[j] == longer[|longer| - |rest| + j] {
      assert rest[j] == list[|list| - |rest| + j];
    }
  }

  /** Bottom half b is not freed, and stays deleted if it is. */
  ghost predicate KeepsBh(bhs: map<nat, Bh>, bhs': map<nat, Bh>, b: nat) {
    b in bhs ==> b in bhs' && (bhs[b].deleted ==> bhs'[b].deleted)
  }

  ghost predicate Keeps(bhs: map<nat, Bh>, bhs': map<nat, Bh>) {
    forall b: nat :: KeepsBh(bhs, bhs', b)
  }

  lemma KeepsOn(bhs: map<nat, Bh>, bhs': map<nat, Bh>, bhs'': map<nat, Bh>)
    requires Keeps(bhs, bhs') && Keeps(bhs', bhs'')
    ensures Keeps(bhs, bhs'')
  {
    forall b: nat ensures KeepsBh(bhs, bhs'', b) {
      assert KeepsBh(bhs, bhs', b) && KeepsBh(bhs', bhs'', b);
    }
  }

  /** How often a bottom half has been scheduled anew, and has been started. */
  datatype Count = Count(armed: nat, started: nat)

  /** The members of list that are not deleted, in order. */
  ghost function Live(list: seq<nat>, bhs: map<nat, Bh>): seq<nat> {
    if list == [] then []
    else
      var n := |list| - 1;
      Live(list[..n], bhs) + if list[n] in bhs && bhs[list[n]].deleted then [] else [list[n]]
  }

  lemma LiveOn(list: seq<nat>, bhs: map<nat, Bh>, k: nat)
    requires k < |list|
    ensures Live(list[..k + 1], bhs) == Live(list[..k], bhs) + if list[k] in bhs && bhs[list[k]].deleted then []
            else [list[k]]
  {
    assert list[..k + 1][..k] == list[..k];
  }

  lemma {:induction false} LiveMembers(list: seq<nat>, bhs: map<nat, Bh>)
    requires Unique(list)
    ensures Unique(Live(list, bhs))
    ensures forall b: nat :: b in Live(list, bhs) <==> b in list && !(b in bhs && bhs[b].deleted)
  {
    if list != [] {
      var n := |list| - 1;
      LiveMembers(list[..n], bhs);
      assert list == list[..n] + [list[n]];
    }
  }

  /** What happens to bottom halves; idle is the flag at the start, and depth tells how many polls are
      nested then. */
  datatype Event = Started(bh: nat, idle: bool, depth: nat) | Deleted(bh: nat) | Cancelled(bh: nat)

  /** Nothing is started after it has been deleted. */
  ghost predicate Clean(log: seq<Event>) {
    forall i, j | 0 <= i < j < |log| && log[i].Deleted? && log[j].Started? :: log[i].bh != log[j].bh
  }

  /** Something has happened to bottom half b from event n on. */
  ghost predicate Told(log: seq<Event>, n: nat, b: nat) {
    exists i :: n <= i < |log| && log[i].bh == b
  }

  predicate Due(bhs: map<nat, Bh>, b: nat) {
    b in bhs && bhs[b].scheduled && !bhs[b].deleted
  }

  /** Bottom half b, if it was due, still is, unless it was started, cancelled or deleted. */
  ghost predicate Owed(bhs: map<nat, Bh>, bhs': map<nat, Bh>, log: seq<Event>, n: nat, b: nat) {
    Due(bhs, b) ==> Due(bhs', b) || Told(log, n, b)
  }

  ghost predicate AllOwed(bhs: map<nat, Bh>, bhs': map<nat, Bh>, log: seq<Event>, n: nat) {
    forall b: nat :: Owed(bhs, bhs', log, n, b)
  }

  lemma OwedOn(bhs: map<nat, Bh>, bhs': map<nat, Bh>, bhs'': map<nat, Bh>, n: nat, log': seq<Event>, log'': seq<Event>)
    requires AllOwed(bhs, bhs', log', n) && AllOwed(bhs', bhs'', log'', |log'|) && log' <= log'' && n <= |log'|
    ensures AllOwed(bhs, bhs'', log'', n)
  {
    forall b: nat ensures Owed(bhs, bhs'', log'', n, b) {
      assert Owed(bhs, bhs', log', n, b) && Owed(bhs', bhs'', log'', |log'|, b);
      TellOn(log', log'', n, b);
    }
  }

  lemma TellOn(log: seq<Event>, log': seq<Event>, n: nat, b: nat)
    requires log <= log' && n <= |log|
    ensures Told(log, n, b) || Told(log', |log|, b) ==> Told(log', n, b)
  {
    if Told(log, n, b) {
      var i :| n <= i < |log| && log[i].bh == b;
      assert log'[i].bh == b;
    }
  }

  /** From event n on, bottom halves are started by polls nested deeper than depth only. */
  ghost predicate Deeper(log: seq<Event>, n: nat, depth: nat) {
    forall i | n <= i < |log| && log[i].Started? :: log[i].depth > depth
  }

  /** From event n on, the poll at the depth has started a bottom half that is not idle. */
  ghost predicate Progressed(log: seq<Event>, n: nat, depth: nat) {
    exists i :: n <= i < |log| && log[i].Started? && !log[i].idle && log[i].depth == depth
  }

  lemma ProgressOn(log: seq<Event>, log': seq<Event>, n: nat, depth: nat)
    requires log <= log' && n <= |log|
    ensures Progressed(log', n, depth) <==> Progressed(log, n, depth) || Progressed(log', |log|, depth)
  {
    if Progressed(log, n, depth) {
      var i :| n <= i < |log| && log[i].Started? && !log[i].idle && log[i].depth == depth;
      assert log'[i] == log[i];
    }
    if Progressed(log', n, depth) {
      var i :| n <= i < |log'| && log'[i].Started? && !log'[i].idle && log'[i].depth == depth;
      assert i < |log| ==> log[i] == log'[i];
    }
  }

  /** Bottom half b, if it was due and its turn is over, has been started, cancelled or deleted. */
  ghost predicate Turned(bhs: map<nat, Bh>, log: seq<Event>, n: nat, rest: seq<nat>, b: nat) {
    Due(bhs, b) && b !in rest ==> Told(log, n, b)
  }

  /** The turn of the first of the rest is over. */
  lemma TurnedOn(bhs: map<nat, Bh>, log: seq<Event>, log': seq<Event>, n: nat, rest: seq<nat>)
    requires log <= log' && n <= |log| && rest != [] && forall b: nat :: Turned(bhs, log, n, rest, b)
    requires Due(bhs, rest[0]) ==> Told(log', n, rest[0])
    ensures forall b: nat :: Turned(bhs, log', n, rest[1..], b)
  {
    var rest' := rest[1..];
    forall b: nat ensures Turned(bhs, log', n, rest', b) {
      assert Turned(bhs, log, n, rest, b);
      TellOn(log, log', n, b);
      assert b in rest && b != rest[0] ==> b in rest';
    }
  }

  /** The state of the bottom halves of a context; gone are those that were deleted at some time. */
  datatype BhView = BhView(list: seq<nat>, bhs: map<nat, Bh>, walking: nat, nextId: nat, gone: set<nat>,
                           log: seq<Event>)

  /** What never goes back. */
  ghost predicate BhGrown(v: BhView, w: BhView) {
    w.walking == v.walking && v.gone <= w.gone && v.nextId <= w.nextId && v.log <= w.log
  }

  /** What a callback leaves as it is while a walk is under way: the list grows at its head only, nothing is freed,
      deleted bottom halves stay deleted, and what is due stays due, unless it is started, cancelled or deleted. */
  ghost predicate BhKept(v: BhView, w: BhView) {
    && BhGrown(v, w) && Suffix(w.list, v.list)
    && Keeps(v.bhs, w.bhs) && AllOwed(v.bhs, w.bhs, w.log, |v.log|)
  }

  lemma BhKeptSelf(v: BhView)
    ensures BhKept(v, v)
  {
    forall b: nat ensures KeepsBh(v.bhs, v.bhs, b) && Owed(v.bhs, v.bhs, v.log, |v.log|, b) {
    }
  }

  lemma BhKeptOn(v: BhView, w: BhView, x: BhView)
    requires BhKept(v, w) && BhKept(w, x)
    ensures BhKept(v, x)
  {
    SuffixOfLonger(w.list, x.list, v.list);
    KeepsOn(v.bhs, w.bhs, x.bhs);
    OwedOn(v.bhs, w.bhs, x.bhs, |v.log|, w.log, x.log);
  }

  /** The turn of bottom half b in a walk: it is started if and only if it is due, and whatever its callback does. */
  ghost predicate BhVisited(v: BhView, w: BhView, b: nat, ran: bool) {
    && BhKept(v, w) && v.walking > 0 && Deeper(w.log, |v.log|, v.walking - 1)
    && (if Due(v.bhs, b) then v.log + [Started(b, v.bhs[b].idle, v.walking)] <= w.log else w.log == v.log)
    && (ran <==> Progressed(w.log, |v.log|, v.walking))
  }

  /** A walk that began in v has come to the rest of the list. */
  ghost predicate BhWalked(v: BhView, w: BhView, rest: seq<nat>, progress: bool) {
    && BhKept(v, w) && v.walking > 0 && Deeper(w.log, |v.log|, v.walking - 1) && Suffix(w.list, rest)
    && (progress <==> Progressed(w.log, |v.log|, v.walking))
    && forall b: nat :: Turned(v.bhs, w.log, |v.log|, rest, b)
  }

  /** The next turn of a walk. */
  lemma BhWalkOn(v: BhView, w: BhView, x: BhView, rest: seq<nat>, progress: bool, ran: bool)
    requires BhWalked(v, w, rest, progress) && rest != [] && BhVisited(w, x, rest[0], ran)
    ensures BhWalked(v, x, rest[1..], progress || ran)
  {
    var b, n := rest[0], |v.log|;
    BhKeptOn(v, w, x);
    DeeperOn(w.log, x.log, n, v.walking - 1);
    ProgressOn(w.log, x.log, n, v.walking);
    assert Owed(v.bhs, w.bhs, w.log, n, b);
    if Due(w.bhs, b) {
      assert x.log[|w.log|].bh == b;
    }
    TellOn(w.log, x.log, n, b);
    TurnedOn(v.bhs, w.log, x.log, n, rest);
    RestSuffix(w.list, x.list, rest);
  }

  lemma RestSuffix(list: seq<nat>, longer: seq<nat>, rest: seq<nat>)
    requires Suffix(longer, list) && Suffix(list, rest) && rest != []
    ensures Suffix(longer, rest[1..])
  {
    SuffixOfLonger(list, longer, rest);
    forall j: nat | j < |rest[1..]| ensures rest[1..][j] == longer[|longer| - |rest[1..]| + j] {
      assert rest[1 + j] == longer[|longer| - |rest| + (1 + j)];
    }
  }

  lemma DeeperOn(log: seq<Event>, log': seq<Event>, n: nat, depth: nat)
    requires log <= log' && n <= |log| && Deeper(log, n, depth) && Deeper(log', |log|, depth)
    ensures Deeper(log', n, depth)
  {
    forall i | n <= i < |log'| && log'[i].Started? ensures log'[i].depth > depth {
      assert i < |log| ==> log[i] == log'[i];
    }
  }

  class Context {
    /** The list from first_bh on, and the bottom halves that are allocated. */
    var list: seq<nat>
    var bhs: map<nat, Bh>
    var walking: nat
    var nextId: nat

    ghost var counts: map<nat, Count>
    /** Bottom halves that have been deleted at some time. */
    ghost var gone: set<nat>
    ghost var log: seq<Event>

    constructor ()
      ensures Valid() && walking == 0 && list == []
    {
      list, bhs, walking, nextId, counts, gone, log := [], map[], 0, 0, map[], {}, [];
    }

    ghost function View(): BhView
      reads `list, `bhs, `walking, `nextId, `gone, `log
    {
      BhView(list, bhs, walking, nextId, gone, log)
    }

    ghost predicate BhOk(b: nat)
      reads `bhs, `counts, `gone, `nextId
    {
      b in bhs ==>
        && b < nextId && b in counts
        && counts[b].started + (if bhs[b].scheduled then 1 else 0) <= counts[b].armed
        && (bhs[b].deleted <==> b in gone)
    }

    ghost predicate Valid()
      reads this
    {
      && Unique(list) && (forall b: nat :: b in list <==> b in bhs)
      && (forall b | b in gone :: b < nextId)
      && Clean(log) && (forall e | e in log && e.Deleted? :: e.bh in gone)
      && (forall b: nat :: BhOk(b))
    }

    /** aio_bh_new. */
    method BhNew() returns (b: nat)
      requires Valid()
      modifies `list, `bhs, `nextId, `counts
      ensures Valid() && b == old(nextId) && list == [b] + old(list) && Suffix(list, old(list)) && nextId == b + 1
              && bhs == old(bhs)[b := Bh(false, false, false)]
      ensures b !in old(bhs) && BhKept(old(View()), View())
    {
      b := nextId;
      assert BhOk(b);
      list := [b] + list;
      bhs := bhs[b := Bh(false, false, false)];
      counts := counts[b := Count(0, 0)];
      nextId := nextId + 1;
      assert list[0] == b;
      forall x: nat ensures x in list <==> x in bhs {
        assert x in old(list) ==> x in list;
      }
      forall x: nat ensures BhOk(x) {
        assert old(BhOk(x));
      }
    }

    /** qemu_bh_schedule and qemu_bh_schedule_idle, without the wakeup. */
    method BhSchedule(b: nat, idle: bool)
      requires Valid() && b in bhs
      modifies `bhs, `counts
      ensures Valid() && bhs == old(bhs)[b := old(bhs)[b].(scheduled := true, idle := idle)]
      ensures BhKept(old(View()), View())
      ensures b in old(counts)
              && var c := old(counts)[b];
                 counts == old(counts)[b := c.(armed := c.armed + if old(bhs)[b].scheduled then 0 else 1)]
    {
      assert BhOk(b);
      if !bhs[b].scheduled {
        counts := counts[b := counts[b].(armed := counts[b].armed + 1)];
      }
      bhs := bhs[b := bhs[b].(scheduled := true, idle := idle)];
      forall x: nat ensures BhOk(x) {
        assert old(BhOk(x));
      }
    }

    /** qemu_bh_cancel. */
    method BhCancel(b: nat)
      requires Valid() && b in bhs
      modifies `bhs, `log
      ensures Valid() && bhs == old(bhs)[b := old(bhs)[b].(scheduled := false)]
      ensures log == old(log) + [Cancelled(b)] && BhKept(old(View()), View()) && Deeper(log, |old(log)|, walking)
    {
      bhs := bhs[b := bhs[b].(scheduled := false)];
      log := log + [Cancelled(b)];
      assert log[|old(log)|].bh == b;
      forall x: nat ensures BhOk(x) {
        assert old(BhOk(x));
      }
    }

    /** qemu_bh_delete. */
    method BhDelete(b: nat)
      requires Valid() && b in bhs
      modifies `bhs, `gone, `log
      ensures Valid() && bhs == old(bhs)[b := old(bhs)[b].(scheduled := false, deleted := true)]
              && gone == old(gone) + {b}
      ensures log == old(log) + [Deleted(b)] && BhKept(old(View()), View()) && Deeper(log, |old(log)|, walking)
    {
      assert BhOk(b);
      bhs := bhs[b := bhs[b].(scheduled := false, deleted := true)];
      gone := gone + {b};
      log := log + [Deleted(b)];
      assert log[|old(log)|].bh == b;
      forall x: nat ensures BhOk(x) {
        assert old(BhOk(x));
      }
    }

    /** A bottom half that is due is about to be called. */
    method Start(b: nat)
      requires Valid() && b in bhs && bhs[b].scheduled && !bhs[b].deleted
      modifies `bhs, `counts, `log
      ensures Valid() && bhs == old(bhs)[b := old(bhs)[b].(scheduled := false, idle := false)]
      ensures log == old(log) + [Started(b, old(bhs[b].idle), walking)] && b in counts && b in old(counts)
      ensures BhKept(old(View()), View())
      ensures counts == old(counts)[b := counts[b]] && counts[b].started == old(counts)[b].started + 1
    {
      assert BhOk(b);
      counts := counts[b := counts[b].(started := counts[b].started + 1)];
      log := log + [Started(b, bhs[b].idle, walking)];
      bhs := bhs[b := bhs[b].(scheduled := false, idle := false)];
      forall x: nat ensures BhOk(x) {
        assert old(BhOk(x));
      }
      assert log[|old(log)|].bh == b;
    }

    /** The list without the bottom halves that are deleted. */
    method LiveList() returns (kept: seq<nat>)
      requires Valid()
      ensures kept == Live(list, bhs)
    {
      var k := 0;
      kept := [];
      while k < |list|
        invariant 0 <= k <= |list| && kept == Live(list[..k], bhs)
      {
        assert list[k] in list;
        LiveOn(list, bhs, k);
        if !bhs[list[k]].deleted {
          kept := kept + [list[k]];
        }
        k := k + 1;
      }
      assert list[..k] == list;
    }

    /** ctx->walking_bh++ */
    method Enter()
      requires Valid()
      modifies `walking
      ensures Valid() && View() == old(View()).(walking := old(walking) + 1)
    {
      walking := walking + 1;
    }

    /** The end of aio_bh_poll: only the outermost one frees. */
    method Leave()
      requires Valid() && walking > 0
      modifies `walking, `list, `bhs
      ensures Valid() && walking == old(walking) - 1 && gone == old(gone) && nextId == old(nextId) && log == old(log)
      ensures walking > 0 ==> list == old(list) && bhs == old(bhs)
      ensures walking == 0 ==> list == Live(old(list), old(bhs)) && forall b | b in bhs :: !bhs[b].deleted
    {
      walking := walking - 1;
      if walking == 0 {
        Sweep();
      }
    }

    /** The end of the outermost aio_bh_poll: bottom halves that are deleted are freed. */
    method Sweep()
      requires Valid()
      modifies `list, `bhs
      ensures Valid() && list == Live(old(list), old(bhs))
              && forall b | b in bhs :: b in old(bhs) && !bhs[b].deleted && bhs[b] == old(bhs)[b]
    {
      var kept := LiveList();
      LiveMembers(list, bhs);
      list := kept;
      bhs := map b | b in bhs && !bhs[b].deleted :: bhs[b];
      forall x: nat ensures BhOk(x) && (x in list <==> x in bhs) {
        assert old(BhOk(x)) && (x in old(list) <==> x in old(bhs));
      }
    }
  }
}
