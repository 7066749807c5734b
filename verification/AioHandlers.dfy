/** File descriptor handlers: what is done to them and to their list, between which callbacks run (aio-posix.c,
    find_aio_handler .. aio_poll). */
module AioHandlers {
  import opened Prelude
  import opened BottomHalves

  /** The bits of revents. */
  datatype Ready = Ready(input: bool, output: bool, hup: bool, err: bool)

  const NONE := Ready(false, false, false, false)

  /** read and write say which callbacks are set; revents is what poll reported. */
  datatype Handler = Handler(fd: nat, read: bool, write: bool, deleted: bool, revents: Ready)
  {
    /** revents & events. */
    function Pending(): Ready {
      Ready(revents.input && read, revents.output && write, revents.hup && read, revents.err && (read || write))
    }

    /** The callback is set, and the handler is not deleted. */
    predicate MayRun(toWrite: bool) {
      !deleted && if toWrite then write else read
    }
  }

  /** What walks do: they come to a node, and start its callbacks, h being the node then; depth tells how many
      walks are nested. */
  datatype Step = Turn(node: nat, depth: nat) | Run(node: nat, depth: nat, write: bool, h: Handler)

  /** The nodes that the walk at the depth has come to from step n on, in order. */
  ghost function Turns(log: seq<Step>, n: nat, depth: nat): seq<nat> {
    if |log| <= n then [] else
      var first, last := Turns(log[..|log| - 1], n, depth), log[|log| - 1];
      if last.Turn? && last.depth == depth then first + [last.node] else first
  }

  lemma {:induction false} TurnsOn(log: seq<Step>, log': seq<Step>, n: nat, depth: nat)
    requires log <= log' && n <= |log|
    ensures Turns(log', n, depth) == Turns(log, n, depth) + Turns(log', |log|, depth)
  {
    if |log'| == |log| {
      assert log' == log;
    } else {
      TurnsOn(log, log'[..|log'| - 1], n, depth);
    }
  }

  /** The callbacks that the walk at the depth has started from step n on, in order. */
  ghost function Calls(log: seq<Step>, n: nat, depth: nat): seq<Step> {
    if |log| <= n then [] else
      var first, last := Calls(log[..|log| - 1], n, depth), log[|log| - 1];
      if last.Run? && last.depth == depth then first + [last] else first
  }

  lemma {:induction false} CallsOn(log: seq<Step>, log': seq<Step>, n: nat, depth: nat)
    requires log <= log' && n <= |log|
    ensures Calls(log', n, depth) == Calls(log, n, depth) + Calls(log', |log|, depth)
  {
    if |log'| == |log| {
      assert log' == log;
    } else {
      CallsOn(log, log'[..|log'| - 1], n, depth);
    }
  }

  /** From step n on, all is done by walks nested deeper than depth. */
  ghost predicate Below(log: seq<Step>, n: nat, depth: nat) {
    forall i | n <= i < |log| :: log[i].depth > depth
  }

  lemma BelowOn(log: seq<Step>, log': seq<Step>, n: nat, depth: nat)
    requires log <= log' && n <= |log| && Below(log, n, depth) && Below(log', |log|, depth)
    ensures Below(log', n, depth)
  {
    forall i | n <= i < |log'| ensures log'[i].depth > depth {
      assert i < |log| ==> log[i] == log'[i];
    }
  }

  /** Walks that are nested deeper add nothing. */
  lemma {:induction false} NoneBelow(log: seq<Step>, n: nat, depth: nat)
    requires Below(log, n, depth)
    ensures Turns(log, n, depth) == [] && Calls(log, n, depth) == []
    decreases |log|
  {
    if |log| > n {
      NoneBelow(log[..|log| - 1], n, depth);
    }
  }

  /** Nodes of other descriptors are as they were. */
  ghost predicate SameBut(nodes: map<nat, Handler>, nodes': map<nat, Handler>, fd: nat, a: nat) {
    && (a in nodes && nodes[a].fd != fd ==> a in nodes' && nodes'[a] == nodes[a])
    && (a in nodes' && nodes'[a].fd != fd ==> a in nodes)
  }

  /** The callback of handler h, node a, that is started if it is called for. */
  ghost function Runs(h: Handler, a: nat, depth: nat, write: bool, called: bool): seq<Step> {
    if called && h.MayRun(write) then [Run(a, depth, write, h)] else []
  }

  /** What poll reports for a handler. */
  function Reported(h: Handler, ready: map<nat, Ready>): Handler {
    if !h.deleted && (h.read || h.write) then h.(revents := if h.fd in ready then ready[h.fd] else NONE) else h
  }

  /** Node a is not freed, stays deleted if it is, and keeps its descriptor. */
  ghost predicate KeepsNode(nodes: map<nat, Handler>, nodes': map<nat, Handler>, a: nat) {
    a in nodes ==> a in nodes' && (nodes[a].deleted ==> nodes'[a].deleted) && nodes'[a].fd == nodes[a].fd
  }

  ghost predicate KeepsNodes(nodes: map<nat, Handler>, nodes': map<nat, Handler>) {
    forall a: nat :: KeepsNode(nodes, nodes', a)
  }

  lemma KeepsNodesOn(nodes: map<nat, Handler>, nodes': map<nat, Handler>, nodes'': map<nat, Handler>)
    requires KeepsNodes(nodes, nodes') && KeepsNodes(nodes', nodes'')
    ensures KeepsNodes(nodes, nodes'')
  {
    forall a: nat ensures KeepsNode(nodes, nodes'', a) {
      assert KeepsNode(nodes, nodes', a) && KeepsNode(nodes', nodes'', a);
    }
  }

  /** A descriptor has at most one handler that is not deleted. */
  ghost predicate OneLive(nodes: map<nat, Handler>, a: nat, b: nat) {
    a in nodes && b in nodes && a != b && !nodes[a].deleted && !nodes[b].deleted ==> nodes[a].fd != nodes[b].fd
  }

  ghost predicate AllOneLive(nodes: map<nat, Handler>) {
    forall a: nat, b: nat :: OneLive(nodes, a, b)
  }

  /** The list has just the nodes, with identifiers that have been given out. */
  ghost predicate IsNode(list: seq<nat>, nodes: map<nat, Handler>, nextId: nat, a: nat) {
    (a in list <==> a in nodes) && (a in nodes ==> a < nextId)
  }

  /** The descriptor has a live handler with these callbacks. */
  ghost predicate Handled(nodes: map<nat, Handler>, fd: nat, read: bool, write: bool, a: nat) {
    a in nodes && !nodes[a].deleted && nodes[a].fd == fd && nodes[a].read == read && nodes[a].write == write
  }

  /** Node a is not a live handler of the descriptor. */
  ghost predicate NotLive(nodes: map<nat, Handler>, fd: nat, a: nat) {
    a in nodes && nodes[a].fd == fd ==> nodes[a].deleted
  }

  /** The state of the handlers of a context. */
  datatype HandlerView = HandlerView(list: seq<nat>, nodes: map<nat, Handler>, walking: nat, nextId: nat,
                                     log: seq<Step>)

  /** What never goes back. */
  ghost predicate Grown(v: HandlerView, w: HandlerView) {
    w.walking == v.walking && v.nextId <= w.nextId && v.log <= w.log
  }

  /** What a callback leaves as it is while a walk is under way: the list grows at its head only, nothing is freed,
      and deleted handlers stay deleted. */
  ghost predicate Kept(v: HandlerView, w: HandlerView) {
    Grown(v, w) && Suffix(w.list, v.list) && KeepsNodes(v.nodes, w.nodes)
  }

  lemma KeptSelf(v: HandlerView)
    ensures Kept(v, v)
  {
    forall a: nat ensures KeepsNode(v.nodes, v.nodes, a) {
    }
  }

  lemma KeptOn(v: HandlerView, w: HandlerView, x: HandlerView)
    requires Kept(v, w) && Kept(w, x)
    ensures Kept(v, x)
  {
    SuffixOfLonger(w.list, x.list, v.list);
    KeepsNodesOn(v.nodes, w.nodes, x.nodes);
  }

  class Handlers {
    var list: seq<nat>
    var nodes: map<nat, Handler>
    var walking: nat
    var nextId: nat

    /** Turns, and the callbacks started. */
    ghost var log: seq<Step>

    constructor ()
      ensures Valid() && walking == 0 && list == []
    {
      list, nodes, walking, nextId, log := [], map[], 0, 0, [];
    }

    ghost function View(): HandlerView
      reads `list, `nodes, `walking, `nextId, `log
    {
      HandlerView(list, nodes, walking, nextId, log)
    }

    /** No callback is started that is not set, or of a node that is deleted. */
    ghost predicate Valid()
      reads this
    {
      && Unique(list) && (forall a: nat :: IsNode(list, nodes, nextId, a)) && AllOneLive(nodes)
      && (forall e | e in log && e.Run? :: e.h.MayRun(e.write))
    }

    lemma StillNodes(before: map<nat, Handler>)
      requires nodes.Keys == before.Keys && forall a: nat :: IsNode(list, before, nextId, a)
      ensures forall a: nat :: IsNode(list, nodes, nextId, a)
    {
      forall a: nat ensures IsNode(list, nodes, nextId, a) {
        assert IsNode(list, before, nextId, a) && (a in nodes.Keys <==> a in before.Keys);
      }
    }

    /** find_aio_handler. */
    method Find(fd: nat) returns (r: Option<nat>)
      requires Valid()
      ensures r.Some? ==> r.value in nodes && nodes[r.value].fd == fd && !nodes[r.value].deleted
      ensures r.None? ==> forall a: nat :: NotLive(nodes, fd, a)
    {
      var k := 0;
      while k < |list|
        invariant 0 <= k <= |list|
        invariant forall j: nat | j < k :: NotLive(nodes, fd, list[j])
      {
        assert IsNode(list, nodes, nextId, list[k]);
        if nodes[list[k]].fd == fd && !nodes[list[k]].deleted {
          return Some(list[k]);
        }
        k := k + 1;
      }
      forall a: nat ensures NotLive(nodes, fd, a) {
        assert IsNode(list, nodes, nextId, a);
      }
      r := None;
    }

    /** QLIST_REMOVE and g_free; rest, if not empty, is the end of the list from the node on. */
    method Remove(a: nat, ghost rest: seq<nat>)
      requires Valid() && a in nodes && (rest != [] ==> Suffix(list, rest) && rest[0] == a)
      modifies `list, `nodes
      ensures Valid() && nodes == old(nodes) - {a} && Grown(old(View()), View())
      ensures rest != [] ==> Suffix(list, rest[1..])
    {
      assert IsNode(list, nodes, nextId, a);
      var k := IndexOf(list, a);
      if rest != [] {
        SuffixWithout(list, rest);
      }
      RemoveMembers(list, a);
      list := list[..k] + list[k + 1..];
      nodes := nodes - {a};
      forall x: nat ensures IsNode(list, nodes, nextId, x) {
        assert IsNode(old(list), old(nodes), nextId, x);
      }
      forall x: nat, y: nat ensures OneLive(nodes, x, y) {
        assert OneLive(old(nodes), x, y);
      }
    }

    /** A handler goes: at once, or when its turn comes in a walk that is under way. */
    method Unregister(a: nat)
      requires Valid() && a in nodes && !nodes[a].deleted
      modifies `list, `nodes
      ensures Valid() && (walking > 0 ==> Kept(old(View()), View())) && Grown(old(View()), View())
      ensures forall x: nat :: NotLive(nodes, old(nodes[a].fd), x)
      ensures forall x: nat :: SameBut(old(nodes), nodes, old(nodes[a].fd), x)
    {
      forall x: nat | x in nodes && x != a && nodes[x].fd == nodes[a].fd ensures nodes[x].deleted {
        assert OneLive(nodes, x, a);
      }
      assert IsNode(list, nodes, nextId, a);
      if walking > 0 {
        nodes := nodes[a := nodes[a].(deleted := true, revents := NONE)];
        StillNodes(old(nodes));
        forall x: nat, y: nat ensures OneLive(nodes, x, y) {
          assert OneLive(old(nodes), x, y);
        }
      } else {
        Remove(a, []);
      }
    }

    /** A handler for a descriptor that has none. */
    method Register(fd: nat, read: bool, write: bool) returns (a: nat)
      requires Valid() && forall x: nat :: NotLive(nodes, fd, x)
      modifies `list, `nodes, `nextId
      ensures Valid() && Kept(old(View()), View()) && a !in old(nodes)
      ensures nodes == old(nodes)[a := Handler(fd, read, write, false, NONE)]
    {
      a := nextId;
      assert IsNode(list, nodes, nextId, a);
      nextId := nextId + 1;
      list := [a] + list;
      nodes := nodes[a := Handler(fd, read, write, false, NONE)];
      assert list[0] == a && list[1..] == old(list);
      forall x: nat ensures IsNode(list, nodes, nextId, x) {
        assert IsNode(old(list), old(nodes), old(nextId), x);
        assert x in old(list) ==> x in list;
      }
      forall x: nat, y: nat ensures OneLive(nodes, x, y) {
        assert OneLive(old(nodes), x, y) && NotLive(old(nodes), fd, x) && NotLive(old(nodes), fd, y);
      }
    }

    /** A handler is given other callbacks. */
    method Update(a: nat, read: bool, write: bool)
      requires Valid() && a in nodes
      modifies `nodes
      ensures Valid() && Kept(old(View()), View())
      ensures nodes == old(nodes)[a := old(nodes)[a].(read := read, write := write)]
    {
      nodes := nodes[a := nodes[a].(read := read, write := write)];
      StillNodes(old(nodes));
      forall x: nat, y: nat ensures OneLive(nodes, x, y) {
        assert OneLive(old(nodes), x, y);
      }
    }

    /** aio_set_fd_handler, without the wakeup. */
    method SetFdHandler(fd: nat, read: bool, write: bool)
      requires Valid()
      modifies `list, `nodes, `nextId
      ensures Valid() && (walking > 0 ==> Kept(old(View()), View())) && Grown(old(View()), View())
      ensures read || write ==> exists a: nat :: Handled(nodes, fd, read, write, a)
      ensures !read && !write ==> forall a: nat :: NotLive(nodes, fd, a)
      ensures forall a: nat :: SameBut(old(nodes), nodes, fd, a)
    {
      var node := Find(fd);
      if !read && !write {
        if node.Some? {
          Unregister(node.value);
        }
      } else if node.None? {
        var a := Register(fd, read, write);
        assert Handled(nodes, fd, read, write, a);
      } else {
        Update(node.value, read, write);
        assert Handled(nodes, fd, read, write, node.value);
      }
    }

    /** aio_poll up to its dispatch: poll reports ready, and no callback runs. */
    method Report(ready: map<nat, Ready>)
      requires Valid()
      modifies `nodes
      ensures Valid() && Kept(old(View()), View()) && nodes.Keys == old(nodes).Keys
              && forall a | a in nodes :: nodes[a] == Reported(old(nodes)[a], ready)
    {
      nodes := map a | a in nodes :: Reported(nodes[a], ready);
      StillNodes(old(nodes));
      forall x: nat, y: nat ensures OneLive(nodes, x, y) {
        assert OneLive(old(nodes), x, y);
      }
    }

    /** The start of the turn of node a in aio_dispatch. */
    method BeginTurn(a: nat) returns (revents: Ready)
      requires Valid() && a in nodes
      modifies `walking, `nodes, `log
      ensures Valid() && revents == old(nodes[a]).Pending() && walking == old(walking) + 1
      ensures nodes == old(nodes)[a := old(nodes[a]).(revents := NONE)] && log == old(log) + [Turn(a, walking)]
      ensures Kept(old(View()).(walking := walking), View())
    {
      walking := walking + 1;
      revents := nodes[a].Pending();
      nodes := nodes[a := nodes[a].(revents := NONE)];
      StillNodes(old(nodes));
      log := log + [Turn(a, walking)];
      forall x: nat, y: nat ensures OneLive(nodes, x, y) {
        assert OneLive(old(nodes), x, y);
      }
    }

    /** A callback of node a is about to be called. */
    method Start(a: nat, write: bool)
      requires Valid() && a in nodes && nodes[a].MayRun(write)
      modifies `log
      ensures Valid() && log == old(log) + [Run(a, walking, write, nodes[a])] && Kept(old(View()), View())
    {
      log := log + [Run(a, walking, write, nodes[a])];
    }

    /** The end of the turn of node a; rest holds the nodes from a on. Only the outermost walk frees a node. */
    method EndTurn(a: nat, ghost rest: seq<nat>) returns (next: Option<nat>)
      requires Valid() && walking > 0 && Suffix(list, rest) && rest != [] && rest[0] == a
      modifies `list, `nodes, `walking
      ensures Valid() && walking == old(walking) - 1 && Suffix(list, rest[1..])
      ensures next == if |rest| == 1 then None else Some(rest[1])
      ensures if walking == 0 && a in old(nodes) && old(nodes[a]).deleted then nodes == old(nodes) - {a}
              else list == old(list) && nodes == old(nodes)
    {
      NextInSuffix(list, rest);
      assert IsNode(list, nodes, nextId, a);
      next := Next(list, a);
      walking := walking - 1;
      if walking == 0 && nodes[a].deleted {
        Remove(a, rest);
      }
    }
  }

  /** Removing the first of the nodes to come keeps the others. */
  lemma SuffixWithout(list: seq<nat>, rest: seq<nat>)
    requires Unique(list) && Suffix(list, rest) && rest != []
    ensures rest[0] in list
    ensures var k := IndexOf(list, rest[0]); Suffix(list[..k] + list[k + 1..], rest[1..])
  {
    assert list[|list| - |rest|] == rest[0];
    var k := IndexOf(list, rest[0]);
    var l := list[..k] + list[k + 1..];
    forall j: nat | j < |rest[1..]| ensures rest[1..][j] == l[|l| - |rest[1..]| + j] {
      assert rest[j + 1] == list[k + 1 + j];
    }
  }

  lemma RemoveMembers(list: seq<nat>, a: nat)
    requires Unique(list) && a in list
    ensures var k := IndexOf(list, a);
            var l := list[..k] + list[k + 1..];
            Unique(l) && forall x: nat :: x in l <==> x in list && x != a
  {
    var k := IndexOf(list, a);
    var l := list[..k] + list[k + 1..];
    forall x: nat ensures x in l <==> x in list && x != a {
      if x in list && x != a {
        var m := IndexOf(list, x);
        assert l[if m < k then m else m - 1] == x;
      }
    }
  }
}
