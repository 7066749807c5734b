/** The polls of an AioContext, whose callbacks change both lists and may poll again (async.c, aio_bh_poll;
    aio-posix.c, aio_dispatch and aio_poll). */
module AioLoop {
  import opened Prelude
  import opened BottomHalves
  import opened AioHandlers

  /** What a callback does. Operations on bottom halves that are freed do not happen. Poll is aio_poll: ready tells
      what poll reports, and expired how many timers have expired when they are run. */
  datatype Call =
    | New
    | Schedule(bh: nat)
    | ScheduleIdle(bh: nat)
    | Cancel(bh: nat)
    | Delete(bh: nat)
    | SetHandler(fd: nat, read: bool, write: bool)
    | Poll(ready: map<nat, Ready>, expired: nat)

  /** The descriptor of ctx->notifier. */
  const NOTIFIER := 0

  /** What a callback leaves, whatever it does: a list that is being walked only grows at its head, nothing of it is
      freed, and walks under way start nothing. */
  ghost predicate Stays(v: BhView, h: HandlerView, v': BhView, h': HandlerView) {
    && BhGrown(v, v') && Grown(h, h')
    && (v.walking > 0 ==> BhKept(v, v')) && (h.walking > 0 ==> Kept(h, h'))
    && Deeper(v'.log, |v.log|, v.walking) && Below(h'.log, |h.log|, h.walking)
  }

  lemma StaysOn(v: BhView, h: HandlerView, v': BhView, h': HandlerView, v'': BhView, h'': HandlerView)
    requires Stays(v, h, v', h') && Stays(v', h', v'', h'')
    ensures Stays(v, h, v'', h'')
  {
    if v.walking > 0 {
      BhKeptOn(v, v', v'');
    }
    if h.walking > 0 {
      KeptOn(h, h', h'');
    }
    DeeperOn(v'.log, v''.log, |v.log|, v.walking);
    BelowOn(h'.log, h''.log, |h.log|, h.walking);
  }

  /** A callback counts as progress, unless it reads the notifier. */
  predicate Counts(e: Step) {
    e.Run? && (e.write || e.h.fd != NOTIFIER)
  }

  ghost predicate AnyCounts(calls: seq<Step>) {
    exists e :: e in calls && Counts(e)
  }

  class AioContext {
    const bottom: Context
    const handlers: Handlers
    /** What the callbacks are going to do, call by call. */
    var script: seq<seq<Call>>

    constructor (script: seq<seq<Call>>)
      ensures Valid() && this.script == script && fresh(bottom) && fresh(handlers)
    {
      bottom := new Context();
      handlers := new Handlers();
      this.script := script;
    }

    ghost predicate Valid()
      reads this, bottom, handlers
    {
      bottom.Valid() && handlers.Valid()
    }

    /** What a callback does with bottom halves. */
    method ChangeBh(call: Call)
      requires bottom.Valid()
      modifies bottom
      ensures bottom.Valid() && BhKept(old(bottom.View()), bottom.View())
      ensures Deeper(bottom.log, |old(bottom.log)|, bottom.walking)
    {
      BhKeptSelf(bottom.View());
      match call {
        case New =>
          var _ := bottom.BhNew();
        case Schedule(b) =>
          if b in bottom.bhs {
            bottom.BhSchedule(b, false);
          }
        case ScheduleIdle(b) =>
          if b in bottom.bhs {
            bottom.BhSchedule(b, true);
          }
        case Cancel(b) =>
          if b in bottom.bhs {
            bottom.BhCancel(b);
          }
        case Delete(b) =>
          if b in bottom.bhs {
            bottom.BhDelete(b);
          }
        case _ =>
      }
    }

    method Exec(call: Call)
      requires Valid()
      modifies this, bottom, handlers
      ensures Valid() && |script| <= |old(script)|
      ensures Stays(old(bottom.View()), old(handlers.View()), bottom.View(), handlers.View())
      decreases |script|, 7
    {
      match call {
        case SetHandler(fd, read, write) =>
          handlers.SetFdHandler(fd, read, write);
        case Poll(ready, expired) =>
          var _ := AioPoll(ready, expired);
        case _ =>
          ChangeBh(call);
      }
    }

    /** The callback of a bottom half, a handler or a timer. */
    method Callback()
      requires Valid()
      modifies this, bottom, handlers
      ensures Valid() && |script| <= |old(script)|
      ensures Stays(old(bottom.View()), old(handlers.View()), bottom.View(), handlers.View())
      decreases |script|, 0
    {
      if script == [] {
        return;
      }
      var calls := script[0];
      script := script[1..];
      var k := 0;
      while k < |calls|
        invariant 0 <= k <= |calls| && Valid() && |script| < |old(script)|
        invariant Stays(old(bottom.View()), old(handlers.View()), bottom.View(), handlers.View())
      {
        ghost var v, h := bottom.View(), handlers.View();
        Exec(calls[k]);
        StaysOn(old(bottom.View()), old(handlers.View()), v, h, bottom.View(), handlers.View());
        k := k + 1;
      }
    }

    /** The body of the loop of aio_bh_poll. */
    method VisitBh(b: nat) returns (ran: bool)
      requires Valid() && bottom.walking > 0 && b in bottom.bhs
      modifies this, bottom, handlers
      ensures Valid() && |script| <= |old(script)|
      ensures BhVisited(old(bottom.View()), bottom.View(), b, ran)
      ensures HandlersStay(old(handlers.View()), handlers.View())
      decreases |script|, 1
    {
      ran := false;
      if !bottom.bhs[b].deleted && bottom.bhs[b].scheduled {
        ran := !bottom.bhs[b].idle;
        bottom.Start(b);
        ghost var v := bottom.View();
        Callback();
        StartedThen(old(bottom.View()), v, bottom.View(), b);
      }
    }

    /** aio_bh_poll: what was due has been started, unless a callback cancelled or deleted it first. */
    method BhPoll() returns (progress: bool)
      requires Valid()
      modifies this, bottom, handlers
      ensures Valid() && |script| <= |old(script)|
      ensures Stays(old(bottom.View()), old(handlers.View()), bottom.View(), handlers.View())
      ensures forall b: nat | old(Due(bottom.bhs, b)) :: Told(bottom.log, |old(bottom.log)|, b)
      ensures progress <==> Progressed(bottom.log, |old(bottom.log)|, bottom.walking + 1)
      ensures bottom.walking == 0 ==> forall b | b in bottom.bhs :: !bottom.bhs[b].deleted
      decreases |script|, 2
    {
      bottom.Enter();
      ghost var v := bottom.View();
      progress := WalkBhs();
      bottom.Leave();
      forall b: nat | Due(v.bhs, b) ensures Told(bottom.log, |v.log|, b) {
        assert Turned(v.bhs, bottom.log, |v.log|, [], b);
      }
    }

    /** The loop of aio_bh_poll. */
    method WalkBhs() returns (progress: bool)
      requires Valid() && bottom.walking > 0
      modifies this, bottom, handlers
      ensures Valid() && |script| <= |old(script)|
      ensures BhWalked(old(bottom.View()), bottom.View(), [], progress)
      ensures HandlersStay(old(handlers.View()), handlers.View())
      decreases |script|, 2, 0
    {
      ghost var v, h, rest := bottom.View(), handlers.View(), bottom.list;
      progress := false;
      var bh := if bottom.list == [] then None else Some(bottom.list[0]);
      while bh.Some?
        invariant Valid() && |script| <= |old(script)| && BhWalked(v, bottom.View(), rest, progress)
        invariant HandlersStay(h, handlers.View())
        invariant bh == if rest == [] then None else Some(rest[0])
        decreases |rest|
      {
        NextInSuffix(bottom.list, rest);
        var b := bh.value;
        bh := Next(bottom.list, b);
        ghost var w, k := bottom.View(), handlers.View();
        var ran := VisitBh(b);
        BhWalkOn(v, w, bottom.View(), rest, progress, ran);
        HandlersStayOn(h, k, handlers.View());
        progress := progress || ran;
        rest := rest[1..];
      }
    }

    /** A callback of node a is called if it is called for, set, and the node is not deleted. */
    method CallHandler(a: nat, write: bool, called: bool) returns (ran: bool)
      requires Valid() && handlers.walking > 0 && a in handlers.nodes
      modifies this, bottom, handlers
      ensures Valid() && |script| <= |old(script)| && a in handlers.nodes
      ensures BhsStay(old(bottom.View()), bottom.View())
      ensures Called(old(handlers.View()), handlers.View(), a, write, called)
      ensures ran <==> AnyCounts(Runs(old(handlers.nodes[a]), a, handlers.walking, write, called))
      decreases |script|, 1
    {
      ran := false;
      ghost var h := handlers.View();
      if called && handlers.nodes[a].MayRun(write) {
        ran := write || handlers.nodes[a].fd != NOTIFIER;
        ghost var e := Run(a, handlers.walking, write, handlers.nodes[a]);
        assert e in [e];
        handlers.Start(a, write);
        ghost var k := handlers.View();
        Callback();
        CalledThen(h, k, handlers.View(), a, write);
      } else {
        CalledNot(h, a, write, called);
      }
      assert KeepsNode(h.nodes, handlers.nodes, a);
    }

    /** A turn of the loop of aio_dispatch for node a, the first of the rest: the read callback is called if there is
        something for it, and then the write callback, mid being the node between the two. */
    method TakeTurn(a: nat, ghost rest: seq<nat>) returns (next: Option<nat>, ran: bool, ghost mid: Handler)
      requires Valid() && Suffix(handlers.list, rest) && rest != [] && rest[0] == a
      modifies this, bottom, handlers
      ensures Valid() && |script| <= |old(script)| && a in old(handlers.nodes)
      ensures BhsStay(old(bottom.View()), bottom.View())
      ensures next == if |rest| == 1 then None else Some(rest[1])
      ensures TurnTaken(old(handlers.View()), handlers.View(), a, rest, mid)
      ensures ran <==> AnyCounts(TurnCalls(old(handlers.View()), a, mid))
      decreases |script|, 2
    {
      ghost var h := handlers.View();
      NextInSuffix(handlers.list, rest);
      assert IsNode(handlers.list, handlers.nodes, handlers.nextId, a);
      ran, mid := CallBoth(a, rest);
      ghost var k := handlers.View();
      next := handlers.EndTurn(a, rest);
      TurnEnds(h, k, handlers.View(), a, rest, mid);
    }

    /** The callbacks of a turn. */
    method CallBoth(a: nat, ghost rest: seq<nat>) returns (ran: bool, ghost mid: Handler)
      requires Valid() && Suffix(handlers.list, rest) && rest != [] && rest[0] == a && a in handlers.nodes
      modifies this, bottom, handlers
      ensures Valid() && |script| <= |old(script)| && handlers.walking == old(handlers.walking) + 1
      ensures BhsStay(old(bottom.View()), bottom.View()) && Suffix(handlers.list, rest)
      ensures TurnTaken(old(handlers.View()), handlers.View().(walking := old(handlers.walking)), a, rest, mid)
      ensures ran <==> AnyCounts(TurnCalls(old(handlers.View()), a, mid))
      decreases |script|, 2, 0
    {
      ghost var h, v := handlers.View(), bottom.View();
      var revents := handlers.BeginTurn(a);
      ghost var h1 := handlers.View();
      var r1 := CallHandler(a, false, revents.input || revents.hup || revents.err);
      ghost var h2, v2 := handlers.View(), bottom.View();
      mid := handlers.nodes[a];
      var r2 := CallHandler(a, true, revents.output || revents.err);
      BhsStayOn(v, v2, bottom.View());
      TurnSoFar(h, h1, h2, handlers.View(), a, rest, mid);
      BothCount(h, a, mid);
      ran := r1 || r2;
    }

    /** The walk of aio_dispatch over the handlers: each node that was there when it began gets one turn, in the order
        of the list, and no other node does. */
    method Walk() returns (progress: bool)
      requires Valid()
      modifies this, bottom, handlers
      ensures Valid() && |script| <= |old(script)|
      ensures Stays(old(bottom.View()), old(handlers.View()), bottom.View(), handlers.View())
      ensures Turns(handlers.log, |old(handlers.log)|, handlers.walking + 1) == old(handlers.list)
      ensures progress <==> AnyCounts(Calls(handlers.log, |old(handlers.log)|, handlers.walking + 1))
      decreases |script|, 3
    {
      ghost var v, h, rest := bottom.View(), handlers.View(), handlers.list;
      WalkBegins(h);
      BhsStaySelf(v);
      progress := false;
      var node := if handlers.list == [] then None else Some(handlers.list[0]);
      while node.Some?
        invariant Valid() && |script| <= |old(script)| && Walked(h, handlers.View(), rest, progress)
        invariant BhsStay(v, bottom.View())
        invariant node == if rest == [] then None else Some(rest[0])
        decreases |rest|
      {
        ghost var w, k := bottom.View(), handlers.View();
        var a := node.value;
        var ran;
        ghost var mid;
        node, ran, mid := TakeTurn(a, rest);
        BhsStayOn(v, w, bottom.View());
        WalkOn(h, k, handlers.View(), rest, mid, progress, ran);
        progress := progress || ran;
        rest := rest[1..];
      }
      WalkEnds(h, handlers.View(), progress);
    }

    /** timerlistgroup_run_timers. */
    method RunTimers(expired: nat) returns (progress: bool)
      requires Valid()
      modifies this, bottom, handlers
      ensures Valid() && |script| <= |old(script)| && progress == (expired > 0)
      ensures Stays(old(bottom.View()), old(handlers.View()), bottom.View(), handlers.View())
      decreases |script|, 3
    {
      var k := 0;
      while k < expired
        invariant 0 <= k <= expired && Valid() && |script| <= |old(script)|
        invariant Stays(old(bottom.View()), old(handlers.View()), bottom.View(), handlers.View())
      {
        ghost var v, h := bottom.View(), handlers.View();
        Callback();
        StaysOn(old(bottom.View()), old(handlers.View()), v, h, bottom.View(), handlers.View());
        k := k + 1;
      }
      progress := expired > 0;
    }

    /** aio_dispatch. bhs and walk are the states of the bottom halves and the handlers between its parts. */
    method Dispatch(expired: nat) returns (progress: bool, ghost bhs: BhView, ghost began: HandlerView,
                                           ghost ended: HandlerView)
      requires Valid()
      modifies this, bottom, handlers
      ensures Valid() && |script| <= |old(script)|
      ensures Stays(old(bottom.View()), old(handlers.View()), bottom.View(), handlers.View())
      ensures old(bottom.log) <= bhs.log <= bottom.log
      ensures forall b: nat | old(Due(bottom.bhs, b)) :: Told(bhs.log, |old(bottom.log)|, b)
      ensures old(handlers.log) <= began.log <= ended.log <= handlers.log
      ensures Turns(ended.log, |began.log|, handlers.walking + 1) == began.list
      ensures progress <==> || Progressed(bhs.log, |old(bottom.log)|, bottom.walking + 1)
                            || AnyCounts(Calls(ended.log, |began.log|, handlers.walking + 1)) || expired > 0
      decreases |script|, 4
    {
      ghost var v, h := bottom.View(), handlers.View();
      var p1 := BhPoll();
      bhs, began := bottom.View(), handlers.View();
      var p2 := Walk();
      ghost var v2 := bottom.View();
      ended := handlers.View();
      StaysOn(v, h, bhs, began, v2, ended);
      var p3 := RunTimers(expired);
      StaysOn(v, h, v2, ended, bottom.View(), handlers.View());
      progress := p1 || p2 || p3;
    }

    /** aio_poll, once poll has reported. */
    method AioPoll(ready: map<nat, Ready>, expired: nat) returns (progress: bool)
      requires Valid()
      modifies this, bottom, handlers
      ensures Valid() && |script| <= |old(script)|
      ensures Stays(old(bottom.View()), old(handlers.View()), bottom.View(), handlers.View())
      decreases |script|, 5
    {
      ghost var v, h := bottom.View(), handlers.View();
      handlers.Report(ready);
      ghost var k := handlers.View();
      ghost var bhs, began, ended;
      progress, bhs, began, ended := Dispatch(expired);
      StaysOn(v, h, v, k, bottom.View(), handlers.View());
    }
  }

  /** What is left of the handlers when walks over bottom halves or handlers run callbacks. */
  ghost predicate HandlersStay(h: HandlerView, k: HandlerView) {
    Grown(h, k) && (h.walking > 0 ==> Kept(h, k)) && Below(k.log, |h.log|, h.walking)
  }

  lemma HandlersStayOn(h: HandlerView, k: HandlerView, l: HandlerView)
    requires HandlersStay(h, k) && HandlersStay(k, l)
    ensures HandlersStay(h, l)
  {
    if h.walking > 0 {
      KeptOn(h, k, l);
    }
    BelowOn(k.log, l.log, |h.log|, h.walking);
  }

  ghost predicate BhsStay(v: BhView, w: BhView) {
    BhGrown(v, w) && (v.walking > 0 ==> BhKept(v, w)) && Deeper(w.log, |v.log|, v.walking)
  }

  lemma BhsStaySelf(v: BhView)
    ensures BhsStay(v, v)
  {
    BhKeptSelf(v);
  }

  lemma BhsStayOn(v: BhView, w: BhView, x: BhView)
    requires BhsStay(v, w) && BhsStay(w, x)
    ensures BhsStay(v, x)
  {
    if v.walking > 0 {
      BhKeptOn(v, w, x);
    }
    DeeperOn(w.log, x.log, |v.log|, v.walking);
  }

  /** A bottom half has been started, and its callback has run. */
  lemma StartedThen(v: BhView, w: BhView, x: BhView, b: nat)
    requires v.walking > 0 && Due(v.bhs, b) && BhKept(v, w) && w.log == v.log + [Started(b, v.bhs[b].idle, v.walking)]
    requires BhKept(w, x) && Deeper(x.log, |w.log|, w.walking)
    ensures BhVisited(v, x, b, !v.bhs[b].idle)
  {
    BhKeptOn(v, w, x);
    var e := Started(b, v.bhs[b].idle, v.walking);
    assert x.log[|v.log|] == e;
    forall i | |v.log| <= i < |x.log| && x.log[i].Started? ensures x.log[i].depth > v.walking - 1 {
      assert i == |v.log| || x.log[i].depth > w.walking;
    }
  }

  /** The callback has been called, if so it is, and h is the state before. */
  ghost predicate Called(h: HandlerView, k: HandlerView, a: nat, write: bool, called: bool)
    requires a in h.nodes && h.walking > 0
  {
    && Kept(h, k) && Below(k.log, |h.log|, h.walking - 1) && Turns(k.log, |h.log|, h.walking) == []
    && Calls(k.log, |h.log|, h.walking) == Runs(h.nodes[a], a, h.walking, write, called)
    && (Runs(h.nodes[a], a, h.walking, write, called) == [] ==> k == h)
  }

  lemma CalledNot(h: HandlerView, a: nat, write: bool, called: bool)
    requires a in h.nodes && h.walking > 0 && !(called && h.nodes[a].MayRun(write))
    ensures Called(h, h, a, write, called) && !AnyCounts(Runs(h.nodes[a], a, h.walking, write, called))
  {
    KeptSelf(h);
  }

  lemma CalledThen(h: HandlerView, k: HandlerView, l: HandlerView, a: nat, write: bool)
    requires a in h.nodes && h.walking > 0 && h.nodes[a].MayRun(write) && Kept(h, k)
    requires k.log == h.log + [Run(a, h.walking, write, h.nodes[a])]
    requires Kept(k, l) && Below(l.log, |k.log|, k.walking)
    ensures Called(h, l, a, write, true)
  {
    KeptOn(h, k, l);
    var d := h.walking;
    var e := Run(a, d, write, h.nodes[a]);
    assert k.log[..|k.log| - 1] == h.log && Turns(h.log, |h.log|, d) == [] && Calls(h.log, |h.log|, d) == [];
    assert Calls(k.log, |h.log|, d) == [] + [e] && Turns(k.log, |h.log|, d) == [];
    NoneBelow(l.log, |k.log|, d);
    CallsOn(k.log, l.log, |h.log|, d);
    TurnsOn(k.log, l.log, |h.log|, d);
    forall i | |h.log| <= i < |l.log| ensures l.log[i].depth > d - 1 {
      assert i == |h.log| ==> l.log[i] == k.log[i];
      assert i > |h.log| ==> l.log[i].depth > k.walking;
    }
  }

  /** The callbacks of a turn of node a; mid is the node when the read callback is over. */
  ghost function TurnCalls(h: HandlerView, a: nat, mid: Handler): seq<Step>
    requires a in h.nodes
  {
    var before, r, d := h.nodes[a].(revents := NONE), h.nodes[a].Pending(), h.walking + 1;
    Runs(before, a, d, false, r.input || r.hup || r.err) + Runs(mid, a, d, true, r.output || r.err)
  }

  /** A turn of node a, from h to k. */
  ghost predicate TurnTaken(h: HandlerView, k: HandlerView, a: nat, rest: seq<nat>, mid: Handler)
    requires a in h.nodes && rest != []
  {
    && Grown(h, k) && (h.walking > 0 ==> Kept(h, k)) && Below(k.log, |h.log|, h.walking) && Suffix(k.list, rest[1..])
    && Turns(k.log, |h.log|, h.walking + 1) == [a] && Calls(k.log, |h.log|, h.walking + 1) == TurnCalls(h, a, mid)
    && mid.fd == h.nodes[a].fd && (h.nodes[a].deleted ==> mid.deleted)
    && (var r := h.nodes[a].Pending();
        Runs(h.nodes[a].(revents := NONE), a, h.walking + 1, false, r.input || r.hup || r.err) == [] ==>
          mid == h.nodes[a].(revents := NONE))
  }

  /** The turn of node a before the end of it: h1 is the state after its start, h2 after the read callback, and h3
      after the write callback. */
  lemma TurnSoFar(h: HandlerView, h1: HandlerView, h2: HandlerView, h3: HandlerView, a: nat, rest: seq<nat>,
                  mid: Handler)
    requires a in h.nodes && rest != [] && Suffix(h.list, rest) && h1.walking == h.walking + 1
    requires Kept(h.(walking := h1.walking), h1) && h1.log == h.log + [Turn(a, h1.walking)]
    requires h1.nodes == h.nodes[a := h.nodes[a].(revents := NONE)]
    requires var r := h.nodes[a].Pending();
             && Called(h1, h2, a, false, r.input || r.hup || r.err) && a in h2.nodes && mid == h2.nodes[a]
             && Called(h2, h3, a, true, r.output || r.err)
    ensures Kept(h.(walking := h1.walking), h3) && Suffix(h3.list, rest)
    ensures TurnTaken(h, h3.(walking := h.walking), a, rest, mid)
  {
    var d, n, g := h1.walking, |h.log|, h.(walking := h1.walking);
    KeptOn(g, h1, h2);
    KeptOn(g, h2, h3);
    assert h1.log[..|h1.log| - 1] == h.log && Turns(h.log, n, d) == [] && Calls(h.log, n, d) == [];
    assert Turns(h1.log, n, d) == [] + [a] && Calls(h1.log, n, d) == [];
    TurnsOn(h1.log, h2.log, n, d);
    CallsOn(h1.log, h2.log, n, d);
    TurnsOn(h2.log, h3.log, n, d);
    CallsOn(h2.log, h3.log, n, d);
    BelowOn(h1.log, h2.log, n, h.walking);
    BelowOn(h2.log, h3.log, n, h.walking);
    RestSuffix(h.list, h3.list, rest);
    SuffixOfLonger(h.list, h3.list, rest);
    assert KeepsNode(h1.nodes, h2.nodes, a);
  }

  /** The end of a turn takes nothing from a walk under way. */
  lemma TurnEnds(h: HandlerView, k: HandlerView, l: HandlerView, a: nat, rest: seq<nat>, mid: Handler)
    requires a in h.nodes && rest != [] && TurnTaken(h, k.(walking := h.walking), a, rest, mid)
    requires l.walking == h.walking && l.nextId == k.nextId && l.log == k.log && Suffix(l.list, rest[1..])
    requires h.walking > 0 ==> l.list == k.list && l.nodes == k.nodes
    ensures TurnTaken(h, l, a, rest, mid)
  {
  }

  lemma BothCount(h: HandlerView, a: nat, mid: Handler)
    requires a in h.nodes
    ensures var before, r, d := h.nodes[a].(revents := NONE), h.nodes[a].Pending(), h.walking + 1;
            AnyCounts(TurnCalls(h, a, mid)) <==>
              || AnyCounts(Runs(before, a, d, false, r.input || r.hup || r.err))
              || AnyCounts(Runs(mid, a, d, true, r.output || r.err))
  {
    var before, r, d := h.nodes[a].(revents := NONE), h.nodes[a].Pending(), h.walking + 1;
    EitherCounts(Runs(before, a, d, false, r.input || r.hup || r.err), Runs(mid, a, d, true, r.output || r.err));
  }

  /** A walk that began in h has come to the rest of the list. */
  ghost predicate Walked(h: HandlerView, k: HandlerView, rest: seq<nat>, progress: bool) {
    && Grown(h, k) && (h.walking > 0 ==> Kept(h, k)) && Below(k.log, |h.log|, h.walking) && Suffix(k.list, rest)
    && Turns(k.log, |h.log|, h.walking + 1) + rest == h.list
    && (progress <==> AnyCounts(Calls(k.log, |h.log|, h.walking + 1)))
  }

  lemma WalkBegins(h: HandlerView)
    ensures Walked(h, h, h.list, false)
  {
    KeptSelf(h);
    NoneBelow(h.log, |h.log|, h.walking + 1);
    assert [] + h.list == h.list;
  }

  lemma WalkEnds(h: HandlerView, k: HandlerView, progress: bool)
    requires Walked(h, k, [], progress)
    ensures HandlersStay(h, k) && Turns(k.log, |h.log|, h.walking + 1) == h.list
    ensures progress <==> AnyCounts(Calls(k.log, |h.log|, h.walking + 1))
  {
    assert Turns(k.log, |h.log|, h.walking + 1) + [] == Turns(k.log, |h.log|, h.walking + 1);
  }

  lemma WalkOn(h: HandlerView, k: HandlerView, l: HandlerView, rest: seq<nat>, mid: Handler, progress: bool, ran: bool)
    requires Walked(h, k, rest, progress) && rest != [] && rest[0] in k.nodes
    requires TurnTaken(k, l, rest[0], rest, mid) && (ran <==> AnyCounts(TurnCalls(k, rest[0], mid)))
    ensures Walked(h, l, rest[1..], progress || ran)
  {
    var d, n := h.walking + 1, |h.log|;
    if h.walking > 0 {
      KeptOn(h, k, l);
    }
    BelowOn(k.log, l.log, n, h.walking);
    TurnsOn(k.log, l.log, n, d);
    CallsOn(k.log, l.log, n, d);
    assert rest == [rest[0]] + rest[1..];
    EitherCounts(Calls(k.log, n, d), TurnCalls(k, rest[0], mid));
  }

  lemma EitherCounts(a: seq<Step>, b: seq<Step>)
    ensures AnyCounts(a + b) <==> AnyCounts(a) || AnyCounts(b)
  {
    if AnyCounts(a) {
      var e :| e in a && Counts(e);
      assert e in a + b;
    }
    if AnyCounts(b) {
      var e :| e in b && Counts(e);
      assert e in a + b;
    }
  }
}
