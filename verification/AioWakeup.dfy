/** The wakeup handshake between the thread that polls an AioContext and the threads that schedule
    bottom halves (async.c, qemu_bh_schedule .. aio_notify; aio-posix.c, aio_poll). The state changes
    by the steps of the threads, each one access to shared memory, in any order. */
module AioWakeup {

  datatype Bh = Bh(scheduled: bool, idle: bool, deleted: bool)

  datatype Timeout = Infinite | Finite | Zero

  /** Where an aio_poll is; todo holds the bottom halves that aio_compute_timeout has before it. */
  datatype PollPc =
    | Entered
    | ToReadList
    | ReadDeleted(todo: seq<nat>, timeout: Timeout)
    | ReadScheduled(todo: seq<nat>, timeout: Timeout)
    | ReadIdle(todo: seq<nat>, timeout: Timeout)
    | Polling(timeout: Timeout)
    | Dispatching

  /** A call of aio_poll; calls nest when a callback polls. */
  datatype Frame = Frame(blocking: bool, was: bool, pc: PollPc)

  /** Where another thread is in qemu_bh_schedule or qemu_bh_schedule_idle. */
  datatype Pc =
    | Outside
    | ToExchange(bh: nat)
    | ToReadDispatching
    | ToSetNotifier
    | ToScheduleIdle(bh: nat)

  datatype State = State(
    list: seq<nat>, bhs: map<nat, Bh>,
    dispatching: bool, notifier: bool,
    frames: seq<Frame>, threads: map<nat, Pc>)

  /** qemu_bh_delete is Cancel and MarkDeleted; RunBh and ClearIdle are aio_bh_poll before the callback.
      What the polling thread does to schedule is one action: it does not poll meanwhile. HandlerReady is
      the end of a poll for the sake of a descriptor other than the notifier. */
  datatype Action =
    // another thread t
    | StartSchedule(t: nat, bh: nat)
    | Exchange(t: nat)
    | ReadDispatching(t: nat)
    | SetNotifier(t: nat)
    | StartScheduleIdle(t: nat, bh: nat)
    | ScheduleIdle(t: nat)
    | Cancel(bh: nat)
    | MarkDeleted(bh: nat)
    | New(bh: nat)
    // the polling thread
    | Enter(blocking: bool)
    | SetDispatching
    | ReadList
    | CheckDeleted
    | CheckScheduled
    | CheckIdle
    | EndWalk(deadline: bool)
    | WakeUp
    | HandlerReady
    | RunBh(bh: nat)
    | ClearIdle(bh: nat)
    | ClearNotifier
    | OwnSchedule(bh: nat)
    | OwnScheduleIdle(bh: nat)
    | Free(bh: nat)
    | Return

  /** The polling thread runs code of its own: callbacks, or whatever is outside of aio_poll. */
  predicate Own(s: State) {
    s.frames == [] || s.frames[|s.frames| - 1].pc == Dispatching
  }

  function Top(s: State): Frame
    requires s.frames != []
  {
    s.frames[|s.frames| - 1]
  }

  function At(s: State, pc: PollPc): State
    requires s.frames != []
  {
    s.(frames := s.frames[|s.frames| - 1 := Top(s).(pc := pc)])
  }

  predicate IsThread(s: State, t: nat, pc: Pc) {
    t in s.threads && s.threads[t] == pc
  }

  /** Whether a may happen in s. */
  predicate Enabled(s: State, a: Action) {
    match a
    case StartSchedule(t, bh) => IsThread(s, t, Outside) && bh in s.bhs
    case Exchange(t) => t in s.threads && s.threads[t].ToExchange? && s.threads[t].bh in s.bhs
    case ReadDispatching(t) => IsThread(s, t, ToReadDispatching)
    case SetNotifier(t) => IsThread(s, t, ToSetNotifier)
    case StartScheduleIdle(t, bh) => IsThread(s, t, Outside) && bh in s.bhs
    case ScheduleIdle(t) => t in s.threads && s.threads[t].ToScheduleIdle? && s.threads[t].bh in s.bhs
    case Cancel(bh) => bh in s.bhs
    case MarkDeleted(bh) => bh in s.bhs
    case New(bh) => bh !in s.bhs && bh !in s.list
    case Enter(_) => Own(s)
    case SetDispatching => s.frames != [] && Top(s).pc == Entered
    case ReadList => s.frames != [] && Top(s).pc == ToReadList
    case CheckDeleted => s.frames != [] && Top(s).pc.ReadDeleted? && Top(s).pc.todo != [] && Top(s).pc.todo[0] in s.bhs
    case CheckScheduled => s.frames != [] && Top(s).pc.ReadScheduled? && Top(s).pc.todo != []
         && Top(s).pc.todo[0] in s.bhs
    case CheckIdle => s.frames != [] && Top(s).pc.ReadIdle? && Top(s).pc.todo != [] && Top(s).pc.todo[0] in s.bhs
    case EndWalk(_) => s.frames != [] && Top(s).pc.ReadDeleted? && Top(s).pc.todo == []
    case WakeUp => s.frames != [] && Top(s).pc.Polling? && (s.notifier || Top(s).pc.timeout != Infinite)
    case HandlerReady => s.frames != [] && Top(s).pc.Polling?
    case RunBh(bh) => s.frames != [] && Own(s) && bh in s.bhs && !s.bhs[bh].deleted && s.bhs[bh].scheduled
    case ClearIdle(bh) => s.frames != [] && Own(s) && bh in s.bhs
    case ClearNotifier => s.frames != [] && Own(s)
    case OwnSchedule(bh) => Own(s) && bh in s.bhs
    case OwnScheduleIdle(bh) => Own(s) && bh in s.bhs
    case Free(bh) => s.frames != [] && Own(s) && bh in s.bhs && s.bhs[bh].deleted
    case Return => s.frames != [] && Top(s).pc == Dispatching
  }

  /** What a does; the walk of aio_compute_timeout reads one flag of one bottom half at a time. */
  function Do(s: State, a: Action): State
    requires Enabled(s, a)
  {
    match a
    case StartSchedule(t, bh) =>
      s.(bhs := s.bhs[bh := s.bhs[bh].(idle := false)], threads := s.threads[t := ToExchange(bh)])
    case Exchange(t) =>
      var bh := s.threads[t].bh;
      s.(bhs := s.bhs[bh := s.bhs[bh].(scheduled := true)],
         threads := s.threads[t := if s.bhs[bh].scheduled then Outside else ToReadDispatching])
    case ReadDispatching(t) =>
      s.(threads := s.threads[t := if s.dispatching then Outside else ToSetNotifier])
    case SetNotifier(t) =>
      s.(notifier := true, threads := s.threads[t := Outside])
    case StartScheduleIdle(t, bh) =>
      s.(bhs := s.bhs[bh := s.bhs[bh].(idle := true)], threads := s.threads[t := ToScheduleIdle(bh)])
    case ScheduleIdle(t) =>
      var bh := s.threads[t].bh;
      s.(bhs := s.bhs[bh := s.bhs[bh].(scheduled := true)], threads := s.threads[t := Outside])
    case Cancel(bh) =>
      s.(bhs := s.bhs[bh := s.bhs[bh].(scheduled := false)])
    case MarkDeleted(bh) =>
      s.(bhs := s.bhs[bh := s.bhs[bh].(deleted := true)])
    case New(bh) =>
      s.(list := [bh] + s.list, bhs := s.bhs[bh := Bh(false, false, false)])
    case Enter(blocking) =>
      s.(frames := s.frames + [Frame(blocking, s.dispatching, Entered)])
    case SetDispatching =>
      var f := Top(s);
      At(s, if f.blocking then ToReadList else Polling(Zero)).(dispatching := !f.blocking)
    case ReadList =>
      At(s, PollPc.ReadDeleted(s.list, Infinite))
    case CheckDeleted =>
      var pc := Top(s).pc;
      At(s, if s.bhs[pc.todo[0]].deleted then PollPc.ReadDeleted(pc.todo[1..], pc.timeout)
         else ReadScheduled(pc.todo, pc.timeout))
    case CheckScheduled =>
      var pc := Top(s).pc;
      At(s, if s.bhs[pc.todo[0]].scheduled then ReadIdle(pc.todo, pc.timeout)
         else PollPc.ReadDeleted(pc.todo[1..], pc.timeout))
    case CheckIdle =>
      var pc := Top(s).pc;
      At(s, if s.bhs[pc.todo[0]].idle then PollPc.ReadDeleted(pc.todo[1..], Finite) else Polling(Zero))
    case EndWalk(deadline) =>
      At(s, Polling(if deadline && Top(s).pc.timeout == Infinite then Finite else Top(s).pc.timeout))
    case WakeUp =>
      At(s, Dispatching).(dispatching := true)
    case HandlerReady =>
      At(s, Dispatching).(dispatching := true)
    case RunBh(bh) =>
      s.(bhs := s.bhs[bh := s.bhs[bh].(scheduled := false)])
    case ClearIdle(bh) =>
      s.(bhs := s.bhs[bh := s.bhs[bh].(idle := false)])
    case ClearNotifier =>
      s.(notifier := false)
    case OwnSchedule(bh) =>
      s.(bhs := s.bhs[bh := s.bhs[bh].(scheduled := true, idle := false)],
         notifier := s.notifier || (!s.bhs[bh].scheduled && !s.dispatching))
    case OwnScheduleIdle(bh) =>
      s.(bhs := s.bhs[bh := s.bhs[bh].(scheduled := true, idle := true)])
    case Free(bh) =>
      s.(list := Without(s.list, bh), bhs := s.bhs - {bh})
    case Return =>
      s.(dispatching := Top(s).was, frames := s.frames[..|s.frames| - 1])
  }

  function Without(list: seq<nat>, bh: nat): (r: seq<nat>)
    ensures forall x :: x in r <==> x in list && x != bh
  {
    if list == [] then [] else (if list[0] == bh then [] else [list[0]]) + Without(list[1..], bh)
  }

  /** A scheduler is between its exchange and its notify. */
  ghost predicate Pending(s: State, t: nat) {
    t in s.threads && (s.threads[t] == ToReadDispatching || s.threads[t] == ToSetNotifier)
  }

  ghost predicate WillWake(s: State) {
    s.notifier || exists t: nat :: Pending(s, t)
  }

  /** The bottom halves that aio_compute_timeout has yet to look at. */
  ghost predicate Ahead(pc: PollPc, bh: nat) {
    pc.ToReadList? || ((pc.ReadDeleted? || pc.ReadScheduled? || pc.ReadIdle?) && bh in pc.todo)
  }

  /** A live scheduled bottom half is still ahead of the walk, or the poller will be woken. */
  ghost predicate Guarded(s: State, bh: nat) {
    s.frames != [] && bh in s.bhs && s.bhs[bh].scheduled && !s.bhs[bh].deleted ==>
      Ahead(Top(s).pc, bh) || WillWake(s)
  }

  /** The poller is between clearing ctx->dispatching and poll, and may block for ever. */
  predicate Unsafe(s: State) {
    && s.frames != []
    && match Top(s).pc
       case ToReadList => true
       case ReadDeleted(_, timeout) => timeout == Infinite
       case ReadScheduled(_, timeout) => timeout == Infinite
       case ReadIdle(_, timeout) => timeout == Infinite
       case Polling(timeout) => timeout == Infinite
       case _ => false
  }

  ghost predicate Inv(s: State) {
    Shape(s) && (Unsafe(s) ==> !s.dispatching && AllGuarded(s))
  }

  ghost predicate Shape(s: State) {
    && (forall x: nat :: x in s.list <==> x in s.bhs)
    && (forall k | 0 <= k < |s.frames| - 1 :: s.frames[k].pc == Dispatching)
    && (s.frames != [] && (Top(s).pc.ReadScheduled? || Top(s).pc.ReadIdle?) ==> Top(s).pc.todo != [])
  }

  ghost predicate AllGuarded(s: State) {
    forall bh: nat :: Guarded(s, bh)
  }

  /** The step is not that of another thread that schedules an idle bottom half, or this does no harm: the
      poller is not about to block for ever, or the bottom half is scheduled or deleted, or is yet to be
      looked at, or the poller will be woken. */
  ghost predicate Harmless(s: State, a: Action)
    requires Enabled(s, a)
  {
    a.ScheduleIdle? && Unsafe(s) ==>
      var bh := s.threads[a.t].bh;
      s.bhs[bh].scheduled || s.bhs[bh].deleted || Ahead(Top(s).pc, bh) || WillWake(s)
  }

  /** What the polling thread does. */
  predicate Polls(a: Action) {
    !Schedules(a) && !Edits(a)
  }

  /** What other threads do to schedule. */
  predicate Schedules(a: Action) {
    a.StartSchedule? || a.Exchange? || a.ReadDispatching? || a.SetNotifier? || a.StartScheduleIdle? || a.ScheduleIdle?
  }

  /** What any thread does to bottom halves. */
  predicate Edits(a: Action) {
    a.Cancel? || a.MarkDeleted? || a.New?
  }

  lemma ShapeEdits(s: State, a: Action)
    requires Shape(s) && Enabled(s, a) && !Polls(a)
    ensures Shape(Do(s, a)) && Do(s, a).frames == s.frames && Do(s, a).dispatching == s.dispatching
  {
  }

  lemma ShapePolls(s: State, a: Action)
    requires Shape(s) && Enabled(s, a) && Polls(a)
    ensures Shape(Do(s, a))
  {
    var s' := Do(s, a);
    assert forall x: nat :: x in s'.list <==> x in s'.bhs;
  }

  /** A scheduler under way gets to its notify: until then it is pending, and then the notifier is set. */
  lemma WakesOnSchedule(s: State, a: Action)
    requires Enabled(s, a) && Schedules(a) && WillWake(s) && !s.dispatching
    ensures WillWake(Do(s, a))
  {
    var s' := Do(s, a);
    if !s'.notifier {
      var t: nat :| Pending(s, t);
      assert Pending(s', t);
    }
  }

  /** A step of another thread keeps what is scheduled guarded, if it is harmless. */
  lemma GuardedOnSchedule(s: State, a: Action)
    requires Enabled(s, a) && Schedules(a) && Unsafe(s) && !s.dispatching && AllGuarded(s) && Harmless(s, a)
    ensures AllGuarded(Do(s, a))
  {
    var s' := Do(s, a);
    forall bh: nat ensures Guarded(s', bh) {
      assert Guarded(s, bh);
      if WillWake(s) {
        WakesOnSchedule(s, a);
      } else if a.Exchange? {
        assert Pending(s', a.t) || s.bhs[s.threads[a.t].bh].scheduled;
      }
    }
  }

  lemma GuardedOnEdit(s: State, a: Action)
    requires Enabled(s, a) && Edits(a) && AllGuarded(s)
    ensures AllGuarded(Do(s, a))
  {
    var s' := Do(s, a);
    assert WillWake(s) <==> WillWake(s') by {
      WakesSame(s, s');
    }
    forall bh: nat ensures Guarded(s', bh) {
      assert Guarded(s, bh);
    }
  }

  lemma WakesSame(s: State, s': State)
    requires s'.threads == s.threads && s'.notifier == s.notifier
    ensures WillWake(s') <==> WillWake(s)
  {
    if WillWake(s) && !s.notifier {
      var t: nat :| Pending(s, t);
      assert Pending(s', t);
    }
    if WillWake(s') && !s.notifier {
      var t: nat :| Pending(s', t);
      assert Pending(s, t);
    }
  }

  /** The walk of aio_compute_timeout leaves behind only what need not be looked at. */
  lemma GuardedOnPoll(s: State, a: Action)
    requires Inv(s) && Enabled(s, a) && Polls(a) && Unsafe(Do(s, a))
    ensures AllGuarded(Do(s, a)) && !Do(s, a).dispatching
  {
    var s' := Do(s, a);
    assert a.SetDispatching? || a.ReadList? || a.CheckDeleted? || a.CheckScheduled? || a.CheckIdle? || a.EndWalk?;
    WakesSame(s, s');
    forall bh: nat ensures Guarded(s', bh) {
      assert a.SetDispatching? || Guarded(s, bh);
    }
  }

  /** A harmful step leaves a bottom half unguarded. */
  lemma Harms(s: State, a: Action)
    requires Enabled(s, a) && !Harmless(s, a)
    ensures Unsafe(Do(s, a)) && !AllGuarded(Do(s, a))
  {
    var s' := Do(s, a);
    forall t: nat ensures !Pending(s', t) {
      assert !Pending(s, t);
    }
    assert !Guarded(s', s.threads[a.t].bh);
  }

  /** A step keeps the invariant if and only if it is harmless. */
  lemma InvStep(s: State, a: Action)
    requires Inv(s) && Enabled(s, a)
    ensures Inv(Do(s, a)) <==> Harmless(s, a)
  {
    if !Harmless(s, a) {
      Harms(s, a);
    } else if Polls(a) {
      ShapePolls(s, a);
      if Unsafe(Do(s, a)) {
        GuardedOnPoll(s, a);
      }
    } else {
      ShapeEdits(s, a);
      if Unsafe(s) && Schedules(a) {
        GuardedOnSchedule(s, a);
      } else if Unsafe(s) {
        GuardedOnEdit(s, a);
      }
    }
  }

  /** The actions can happen one after the other. */
  predicate Possible(s: State, actions: seq<Action>)
    decreases |actions|
  {
    actions == [] || (Enabled(s, actions[0]) && Possible(Do(s, actions[0]), actions[1..]))
  }

  function After(s: State, actions: seq<Action>): State
    requires Possible(s, actions)
    decreases |actions|
  {
    if actions == [] then s else After(Do(s, actions[0]), actions[1..])
  }

  ghost predicate Initial(s: State) {
    && s.frames == [] && !s.dispatching && !s.notifier
    && (forall x: nat :: x in s.list <==> x in s.bhs)
    && (forall t | t in s.threads :: s.threads[t] == Outside)
  }

  /** The poller waits without a timeout, and nothing is going to wake it. */
  ghost predicate Blocked(s: State) {
    s.frames != [] && Top(s).pc == Polling(Infinite) && !WillWake(s)
  }

  /** The poller is blocked although a live bottom half is scheduled that is not idle. */
  ghost predicate Lost(s: State) {
    && Blocked(s)
    && exists bh: nat :: bh in s.bhs && s.bhs[bh].scheduled && !s.bhs[bh].deleted && !s.bhs[bh].idle
  }

  /** No step of the run does harm. */
  ghost predicate AllHarmless(s: State, actions: seq<Action>)
    requires Possible(s, actions)
    decreases |actions|
  {
    actions != [] ==> Harmless(s, actions[0]) && AllHarmless(Do(s, actions[0]), actions[1..])
  }

  lemma {:induction false} RunInv(s: State, actions: seq<Action>)
    requires Inv(s) && Possible(s, actions) && AllHarmless(s, actions)
    ensures Inv(After(s, actions))
    decreases |actions|
  {
    if actions != [] {
      InvStep(s, actions[0]);
      RunInv(Do(s, actions[0]), actions[1..]);
    }
  }

  /** No wakeup is lost in a run without harmful steps. */
  lemma HarmlessRun(s: State, actions: seq<Action>)
    requires Initial(s) && Possible(s, actions) && AllHarmless(s, actions)
    ensures !Lost(After(s, actions))
  {
    RunInv(s, actions);
    var s' := After(s, actions);
    if Blocked(s') {
      forall bh: nat | bh in s'.bhs ensures !s'.bhs[bh].scheduled || s'.bhs[bh].deleted {
        assert Guarded(s', bh);
      }
    }
  }

  /** Of the threads other than the poller's, only those of idlers schedule idle bottom halves. */
  predicate IdleBy(actions: seq<Action>, idlers: set<nat>) {
    forall k | 0 <= k < |actions| && actions[k].ScheduleIdle? :: actions[k].t in idlers
  }

  /** Without idlers no step does harm. */
  lemma {:induction false} NoIdlers(s: State, actions: seq<Action>, idlers: set<nat>)
    requires Possible(s, actions) && IdleBy(actions, idlers) && s.threads.Keys !! idlers
    ensures AllHarmless(s, actions)
    decreases |actions|
  {
    if actions != [] {
      var s' := Do(s, actions[0]);
      assert s'.threads.Keys == s.threads.Keys;
      NoIdlers(s', actions[1..], idlers);
    }
  }

  /** No wakeup is lost in any run in which only the polling thread schedules idle bottom halves. */
  lemma NoLostWakeup(s: State, actions: seq<Action>)
    requires Initial(s) && Possible(s, actions) && forall k | 0 <= k < |actions| :: !actions[k].ScheduleIdle?
    ensures !Lost(After(s, actions))
  {
    NoIdlers(s, actions, {});
    HarmlessRun(s, actions);
  }

  /** A scheduler that is between its exchange and its notify does wake a poller that blocks. */
  lemma Wakes(s: State, t: nat)
    requires Inv(s) && s.frames != [] && Top(s).pc == Polling(Infinite) && Pending(s, t)
    ensures var rest := if s.threads[t] == ToReadDispatching then [Action.ReadDispatching(t), SetNotifier(t)]
            else [SetNotifier(t)];
            Possible(s, rest) && Enabled(After(s, rest), WakeUp)
  {
    if s.threads[t] == ToReadDispatching {
      var s1 := Do(s, Action.ReadDispatching(t));
      First(s1, SetNotifier(t), []);
      First(s, Action.ReadDispatching(t), [SetNotifier(t)]);
    } else {
      First(s, SetNotifier(t), []);
    }
  }

  lemma First(s: State, a: Action, rest: seq<Action>)
    requires Enabled(s, a) && Possible(Do(s, a), rest)
    ensures Possible(s, [a] + rest) && After(s, [a] + rest) == After(Do(s, a), rest)
  {
    assert ([a] + rest)[1..] == rest;
  }

  /** The end of qemu_bh_schedule_idle in one thread, and qemu_bh_schedule in another or in the same. */
  function IdleThenSchedule(t: nat, u: nat, bh: nat): seq<Action> {
    [ScheduleIdle(t)] + [StartSchedule(u, bh), Exchange(u)]
  }

  /** What the two leave. */
  lemma IdleThenScheduled(s: State, t: nat, u: nat)
    requires Enabled(s, ScheduleIdle(t)) && (u == t || IsThread(s, u, Outside))
    ensures var bh := s.threads[t].bh;
            var run := IdleThenSchedule(t, u, bh);
            && Possible(s, run)
            && After(s, run) == s.(bhs := s.bhs[bh := s.bhs[bh].(scheduled := true, idle := false)],
                                   threads := s.threads[t := Outside])
  {
    var bh := s.threads[t].bh;
    var a1, a2, a3 := ScheduleIdle(t), StartSchedule(u, bh), Exchange(u);
    var s1 := Do(s, a1);
    var s2 := Do(s1, a2);
    var s3 := Do(s2, a3);
    First(s2, a3, []);
    First(s1, a2, [a3]);
    First(s, a1, [a2, a3]);
    assert s3.threads == s.threads[t := Outside];
    assert s3.bhs == s.bhs[bh := s.bhs[bh].(scheduled := true, idle := false)];
  }

  /** While the poller waits without a timeout, an idle scheduling by another thread makes the next real
      one be lost if and only if it is harmful. */
  lemma HarmLoses(s: State, t: nat, u: nat)
    requires Inv(s) && s.frames != [] && Top(s).pc == Polling(Infinite)
    requires Enabled(s, ScheduleIdle(t)) && (u == t || IsThread(s, u, Outside))
    ensures var run := IdleThenSchedule(t, u, s.threads[t].bh);
            Possible(s, run) && (Lost(After(s, run)) <==> !Harmless(s, ScheduleIdle(t)))
  {
    var bh := s.threads[t].bh;
    IdleThenScheduled(s, t, u);
    var s' := After(s, IdleThenSchedule(t, u, bh));
    forall x: nat ensures Pending(s', x) <==> Pending(s, x) {
    }
    assert WillWake(s') <==> WillWake(s);
    if !Harmless(s, ScheduleIdle(t)) {
      assert s'.bhs[bh].scheduled && !s'.bhs[bh].idle;
    } else if !WillWake(s) {
      forall x: nat | x in s'.bhs ensures !s'.bhs[x].scheduled || s'.bhs[x].deleted {
        assert Guarded(s, x);
      }
    }
  }

  /** The run of the poller up to its poll. */
  function Block(): seq<Action> {
    [Enter(true)] + [SetDispatching, ReadList, CheckDeleted, CheckScheduled, EndWalk(false)]
  }

  /** qemu_bh_schedule_idle in one thread, and qemu_bh_schedule in another or in the same. */
  function ForeignIdle(t: nat, u: nat, bh: nat): seq<Action> {
    [StartScheduleIdle(t, bh)] + IdleThenSchedule(t, u, bh)
  }

  /** In whatever state the poller is blocked, idle scheduling by another thread loses the next wakeup. */
  lemma ForeignIdleLoses(s: State, bh: nat, t: nat, u: nat)
    requires Blocked(s) && IsThread(s, t, Outside) && IsThread(s, u, Outside)
    requires bh in s.bhs && !s.bhs[bh].scheduled && !s.bhs[bh].deleted
    ensures Possible(s, ForeignIdle(t, u, bh)) && Lost(After(s, ForeignIdle(t, u, bh)))
  {
    var s1 := Do(s, StartScheduleIdle(t, bh));
    IdleThenScheduled(s1, t, u);
    First(s, StartScheduleIdle(t, bh), IdleThenSchedule(t, u, bh));
    var s' := After(s, ForeignIdle(t, u, bh));
    forall x: nat ensures !Pending(s', x) {
      assert !Pending(s, x);
    }
    assert s'.bhs[bh].scheduled && !s'.bhs[bh].idle;
  }

  lemma {:induction false} AfterBoth(s: State, a: seq<Action>, b: seq<Action>)
    requires Possible(s, a) && Possible(After(s, a), b)
    ensures Possible(s, a + b) && After(s, a + b) == After(After(s, a), b)
    decreases |a|
  {
    if a == [] {
      assert a + b == b;
    } else {
      assert (a + b)[0] == a[0] && (a + b)[1..] == a[1..] + b;
      AfterBoth(Do(s, a[0]), a[1..], b);
    }
  }

  /** A context as aio_context_new makes it. */
  ghost predicate Created(s: State) {
    Initial(s) && s.list == [] && s.bhs == map[]
  }

  /** A bottom half is made, the poller blocks, and thread t schedules the bottom half idly and then again. */
  function LosingRun(t: nat, bh: nat): seq<Action> {
    [New(bh)] + (Block() + ForeignIdle(t, t, bh))
  }

  /** The run is possible from the start, and loses a wakeup. */
  lemma LosingRunLoses(s: State, t: nat, bh: nat)
    requires Created(s) && t in s.threads
    ensures Possible(s, LosingRun(t, bh)) && Lost(After(s, LosingRun(t, bh)))
  {
    var s1 := Do(s, New(bh));
    assert s1.list == [bh];
    PollerBlocks(s1, bh);
    var s2 := After(s1, Block());
    ForeignIdleLoses(s2, bh, t, t);
    AfterBoth(s1, Block(), ForeignIdle(t, t, bh));
    First(s, New(bh), Block() + ForeignIdle(t, t, bh));
  }

  /** No run of a context loses a wakeup. */
  ghost predicate NeverLost(s: State, idlers: set<nat>) {
    forall actions: seq<Action> | Possible(s, actions) && IdleBy(actions, idlers) :: !Lost(After(s, actions))
  }

  /** A context never loses a wakeup if and only if no thread but the poller's may schedule idly. */
  lemma IdleRule(s: State, idlers: set<nat>)
    requires Created(s)
    ensures NeverLost(s, idlers) <==> s.threads.Keys !! idlers
  {
    if s.threads.Keys !! idlers {
      forall actions: seq<Action> | Possible(s, actions) && IdleBy(actions, idlers) ensures !Lost(After(s, actions)) {
        NoIdlers(s, actions, idlers);
        HarmlessRun(s, actions);
      }
    } else {
      var t :| t in s.threads.Keys && t in idlers;
      LosingRunLoses(s, t, 0);
      assert IdleBy(LosingRun(t, 0), idlers);
    }
  }

  /** The poller does block for ever, from any initial state with one bottom half that is not scheduled. */
  lemma PollerBlocks(s: State, bh: nat)
    requires Initial(s) && s.list == [bh] && s.bhs[bh] == Bh(false, false, false)
    ensures Possible(s, Block())
    ensures var s' := After(s, Block());
            && Blocked(s') && s'.bhs == s.bhs && s'.threads == s.threads
  {
    var s1 := Do(s, Enter(true));
    var s2 := Do(s1, SetDispatching);
    WalkOverList(s2, bh);
    First(s1, SetDispatching, [ReadList, CheckDeleted, CheckScheduled, EndWalk(false)]);
    First(s, Enter(true), [SetDispatching, ReadList, CheckDeleted, CheckScheduled, EndWalk(false)]);
    forall t: nat ensures !Pending(After(s, Block()), t) {
      assert !Pending(s, t);
    }
  }

  lemma WalkOverList(s: State, bh: nat)
    requires s.frames != [] && Top(s).pc == ToReadList && s.list == [bh]
    requires bh in s.bhs && s.bhs[bh] == Bh(false, false, false)
    ensures var rest := [ReadList] + [CheckDeleted, CheckScheduled, EndWalk(false)];
            && Possible(s, rest) && After(s, rest).frames != [] && Top(After(s, rest)).pc == Polling(Infinite)
            && After(s, rest) == s.(frames := After(s, rest).frames)
  {
    WalkOverOne(Do(s, ReadList), bh);
    First(s, ReadList, [CheckDeleted, CheckScheduled, EndWalk(false)]);
  }

  lemma WalkOverOne(s: State, bh: nat)
    requires s.frames != [] && Top(s).pc == PollPc.ReadDeleted([bh], Infinite)
    requires bh in s.bhs && s.bhs[bh] == Bh(false, false, false)
    ensures var rest := [CheckDeleted] + [CheckScheduled, EndWalk(false)];
            && Possible(s, rest) && After(s, rest).frames != [] && Top(After(s, rest)).pc == Polling(Infinite)
            && After(s, rest) == s.(frames := After(s, rest).frames)
  {
    var s1 := Do(s, CheckDeleted);
    var s2 := Do(s1, CheckScheduled);
    assert [bh][1..] == [];
    First(s2, EndWalk(false), []);
    First(s1, CheckScheduled, [EndWalk(false)]);
    First(s, CheckDeleted, [CheckScheduled, EndWalk(false)]);
  }
}
