// The asynchronous log in overwrite mode: a fixed set of nodes goes round between a stack of idle ones, a queue of
// pending ones and the ones a dump has in hand.

module AsyncLog {
  import opened Sequences

  /** What a node stores: level, time stamp, format string and arguments. */
  datatype Message = Message(level: nat, timeStamp: nat, format: nat, argv: seq<nat>)

  // ---------- The queue that callers see ----------

  /** The pending messages, oldest first, and how many nodes dumps have in hand. */
  datatype Queue = Queue(pending: seq<Message>, busy: nat)

  datatype Event = Log(m: Message) | Take | GiveBack

  /** With `count` nodes, logging drops the oldest pending messages for which there is no node. */
  ghost function Step(q: Queue, e: Event, count: nat): Queue
    requires q.busy <= count
  {
    match e
    case Log(m) => q.(pending := Last(q.pending + [m], count - q.busy))
    case Take => if q.pending == [] then q else Queue(q.pending[1..], q.busy + 1)
    case GiveBack => if q.busy == 0 then q else q.(busy := q.busy - 1)
  }

  /** A queue with its past: all the messages logged, and the positions among them of those a dump has taken. */
  datatype History = History(q: Queue, logged: seq<Message>, taken: seq<nat>)

  ghost function Grow(h: History, e: Event, count: nat): History
    requires h.q.busy <= count && |h.q.pending| <= |h.logged|
  {
    History(Step(h.q, e, count),
            if e.Log? then h.logged + [e.m] else h.logged,
            if e.Take? && h.q.pending != [] then h.taken + [|h.logged| - |h.q.pending|] else h.taken)
  }

  /** Pending are the newest messages, in order; what dumps took is older, in order, and nothing twice. */
  ghost predicate Orderly(h: History, count: nat) {
    && |h.q.pending| + h.q.busy <= count && |h.q.pending| <= |h.logged|
    && h.q.pending == Last(h.logged, |h.q.pending|)
    && (forall i :: 0 <= i < |h.taken| ==> h.taken[i] < |h.logged| - |h.q.pending|)
    && (forall i, j :: 0 <= i < j < |h.taken| ==> h.taken[i] < h.taken[j])
  }

  lemma LogKeepsOrderly(h: History, m: Message, count: nat)
    requires Orderly(h, count)
    ensures Orderly(Grow(h, Log(m), count), count)
  {
    var h' := Grow(h, Log(m), count);
    var n, all := |h.q.pending|, h.q.pending + [m];
    assert h'.logged == h.logged + [m] && h'.taken == h.taken;
    assert all == Last(h'.logged, n + 1);
    assert h'.q.pending == Last(h'.logged, |h'.q.pending|);
  }

  lemma TakeKeepsOrderly(h: History, count: nat)
    requires Orderly(h, count)
    ensures Orderly(Grow(h, Take, count), count)
  {
    if h.q.pending != [] {
      var h' := Grow(h, Take, count);
      assert h'.taken == h.taken + [|h.logged| - |h.q.pending|];
      assert h'.q.pending == Last(h.logged, |h.q.pending| - 1);
    }
  }

  lemma GrowKeepsOrderly(h: History, e: Event, count: nat)
    requires Orderly(h, count)
    ensures Orderly(Grow(h, e, count), count)
  {
    match e
    case Log(m) => LogKeepsOrderly(h, m, count);
    case Take => TakeKeepsOrderly(h, count);
    case GiveBack =>
  }

  ghost function Replay(events: seq<Event>, count: nat): (h: History)
    ensures Orderly(h, count)
  {
    if events == [] then History(Queue([], 0), [], [])
    else
      var h := Replay(events[..|events| - 1], count);
      GrowKeepsOrderly(h, events[|events| - 1], count);
      Grow(h, events[|events| - 1], count)
  }

  lemma ReplayNext(events: seq<Event>, e: Event, count: nat)
    ensures Replay(events + [e], count) == Grow(Replay(events, count), e, count)
  {
    var all := events + [e];
    assert all[..|all| - 1] == events && all[|all| - 1] == e;
  }

  /** A dump takes the oldest pending message, which it then knows by its place in the log. */
  lemma TakenIsOldest(events: seq<Event>, count: nat)
    requires Replay(events, count).q.pending != []
    ensures var h, h' := Replay(events, count), Replay(events + [Take], count);
            |h'.taken| == |h.taken| + 1 && h'.logged == h.logged && h.logged[h'.taken[|h.taken|]] == h.q.pending[0]
  {
    ReplayNext(events, Take, count);
    var h := Replay(events, count);
    var n := |h.logged| - |h.q.pending|;
    assert h.q.pending[0] == h.logged[n];
  }

  lemma LogEffect(q: Queue, m: Message, count: nat)
    requires |q.pending| + q.busy <= count
    ensures Step(q, Log(m), count).pending
            == if q.busy == count then [] else if |q.pending| + q.busy == count then q.pending[1..] + [m]
               else q.pending + [m]
  {
  }

  /** A message logged is the newest pending one unless every node is in hand, and no message is lost while a node is
      idle. */
  lemma LoggingLoses(events: seq<Event>, m: Message, count: nat)
    ensures var q, q' := Replay(events, count).q, Replay(events + [Log(m)], count).q;
            && q'.busy == q.busy
            && q'.pending == if q.busy == count then [] else if |q.pending| + q.busy == count then q.pending[1..] + [m]
                             else q.pending + [m]
  {
    ReplayNext(events, Log(m), count);
    LogEffect(Replay(events, count).q, m, count);
  }

  // ---------- The nodes ----------

  /** A pointer to a node is its index; NIL is the null pointer. */
  const NIL := -1

  function At(s: seq<nat>, i: int): int {
    if 0 <= i < |s| then s[i] else NIL
  }

  /** `list` is what the `next` fields give when followed from `head`. */
  ghost predicate Chain(next: seq<int>, head: int, list: seq<nat>) {
    && head == At(list, 0)
    && (forall i :: 0 <= i < |list| ==> list[i] < |next|)
    && (forall i {:trigger next[list[i]]} :: 0 <= i < |list| ==> next[list[i]] == At(list, i + 1))
  }

  /** How many of `count` nodes initialization strings together: its 8 bit loop bound is a cast of the count. */
  function Strung(count: nat): (n: nat)
    requires 0 < count
    ensures 0 < n <= count
  {
    if count % 0x100 == 0 then 1 else count % 0x100
  }

  /** All the nodes circulate exactly when there are fewer than 256. */
  lemma AllStrungExactly(count: nat)
    requires 0 < count
    ensures Strung(count) == count <==> count < 0x100
  {
  }

  /** Of 256 nodes one is used, of 300 there are 44. */
  lemma ManyNodesLost()
    ensures Strung(1) == 1 && Strung(255) == 255
    ensures Strung(256) == 1 && Strung(300) == 44
  {
  }

  lemma ChainExtended(next: seq<int>, head: int, list: seq<nat>, node: nat)
    requires Chain(next, head, list) && Distinct(list) && node !in list && node < |next|
    ensures list == [] ==> Chain(next[node := NIL], node, [node])
    ensures list != [] ==> Chain(next[node := NIL][list[|list| - 1] := node], head, list + [node])
  {
  }

  lemma ChainRest(next: seq<int>, head: int, list: seq<nat>)
    requires Chain(next, head, list) && head != NIL
    ensures list != [] && head == list[0] && Chain(next, next[head], list[1..])
  {
  }

  /** Every one of the first `nodes` nodes is in exactly one place. */
  ghost predicate Parted(idle: seq<nat>, pend: seq<nat>, busy: set<nat>, nodes: nat) {
    && Distinct(idle) && Distinct(pend)
    && (forall n :: n in idle ==> n !in pend && n !in busy)
    && (forall n :: n in pend ==> n !in busy)
    && (forall n :: n in idle || n in pend || n in busy ==> n < nodes)
    && (forall n: nat :: n < nodes ==> n in idle || n in pend || n in busy)
    && |idle| + |pend| + |busy| == nodes
  }

  lemma FirstIdleBusy(idle: seq<nat>, pend: seq<nat>, busy: set<nat>, nodes: nat)
    requires Parted(idle, pend, busy, nodes) && idle != []
    ensures idle[0] !in busy && Parted(idle[1..], pend, busy + {idle[0]}, nodes)
  {
    assert idle == [idle[0]] + idle[1..];
  }

  lemma FirstPendingBusy(idle: seq<nat>, pend: seq<nat>, busy: set<nat>, nodes: nat)
    requires Parted(idle, pend, busy, nodes) && pend != []
    ensures pend[0] !in busy && Parted(idle, pend[1..], busy + {pend[0]}, nodes)
  {
    assert pend == [pend[0]] + pend[1..];
  }

  lemma BusyNowIdle(idle: seq<nat>, pend: seq<nat>, busy: set<nat>, nodes: nat, n: nat)
    requires Parted(idle, pend, busy, nodes) && n in busy
    ensures Parted([n] + idle, pend, busy - {n}, nodes)
  {
  }

  lemma BusyNowPending(idle: seq<nat>, pend: seq<nat>, busy: set<nat>, nodes: nat, n: nat)
    requires Parted(idle, pend, busy, nodes) && n in busy
    ensures Parted(idle, pend + [n], busy - {n}, nodes)
  {
  }

  ghost function MessagesOf(message: seq<Message>, list: seq<nat>): (s: seq<Message>)
    requires forall i :: 0 <= i < |list| ==> list[i] < |message|
    ensures |s| == |list| && forall i :: 0 <= i < |s| ==> s[i] == message[list[i]]
  {
    seq(|list|, i requires 0 <= i < |list| => message[list[i]])
  }

  class Context {
    const next: array<int>
    const message: array<Message>
    var idle: int
    var pend: int

    /** How many nodes circulate: the first ones of the array. */
    ghost const nodes: nat

    ghost var idleList: seq<nat>
    ghost var pendList: seq<nat>
    ghost var busy: set<nat>

    ghost predicate Valid()
      reads this, next
    {
      && message.Length == next.Length && nodes <= next.Length
      && Chain(next[..], idle, idleList) && Chain(next[..], pend, pendList)
      && Parted(idleList, pendList, busy, nodes)
    }

    /** The pending messages, oldest first. */
    ghost function Pending(): (s: seq<Message>)
      reads this, next, message
      requires Valid()
      ensures |s| == |pendList|
    {
      MessagesOf(message[..], pendList)
    }

    ghost function View(): (q: Queue)
      reads this, next, message
      requires Valid()
      ensures |q.pending| + q.busy <= nodes
    {
      Queue(Pending(), |busy|)
    }

    /** LOG_Init, for LOG_MAX_BUFF_LOG_COUNT nodes. */
    constructor (count: nat)
      requires count > 0
      ensures Valid() && fresh(next) && fresh(message) && Pending() == [] && busy == {}
      ensures next.Length == count && nodes == Strung(count)
    {
      next, message := new int[count](_ => NIL), new Message[count](_ => Message(0, 0, 0, []));
      idle, pend := 0, NIL;
      nodes := Strung(count);
      idleList, pendList, busy := [0], [], {};
      new;
      var i := 1;
      while i < count % 0x100
        invariant 1 <= i <= Strung(count)
        invariant idle == i - 1 && pend == NIL && pendList == [] && busy == {}
        invariant |idleList| == i && forall k :: 0 <= k < i ==> idleList[k] == i - 1 - k
        invariant Chain(next[..], idle, idleList)
      {
        next[i] := idle;
        idle := i;
        idleList := [i] + idleList;
        i := i + 1;
      }
      forall n: nat | n < nodes
        ensures n in idleList
      {
        assert idleList[nodes - 1 - n] == n;
      }
    }

    /** Takes the top of the idle stack in hand. */
    method PopIdle() returns (node: nat)
      requires Valid() && idle != NIL
      modifies this
      ensures Valid() && Pending() == old(Pending()) && node !in old(busy) && busy == old(busy) + {node}
    {
      ChainRest(next[..], idle, idleList);
      FirstIdleBusy(idleList, pendList, busy, nodes);
      node := idle;
      idle := next[idle];
      idleList := idleList[1..];
      busy := busy + {node};
    }

    /** The first half of LOG_DumpInternal, and the overwriting step of LOG_AsyncPrintf: the oldest pending node, in
        hand. */
    method PopPend() returns (node: int)
      requires Valid()
      modifies this
      ensures Valid()
      ensures old(Pending()) == [] ==> node == NIL && Pending() == [] && busy == old(busy)
      ensures old(Pending()) != [] ==>
                && 0 <= node < message.Length && message[node] == old(Pending())[0]
                && Pending() == old(Pending())[1..] && node !in old(busy) && busy == old(busy) + {node}
      ensures View() == Step(old(View()), Take, nodes)
    {
      node := pend;
      if pend != NIL {
        ChainRest(next[..], pend, pendList);
        FirstPendingBusy(idleList, pendList, busy, nodes);
        pend := next[pend];
        pendList := pendList[1..];
        busy := busy + {node};
      }
    }

    /** The second half of LOG_DumpInternal: a node in hand goes back on the idle stack. */
    method PushIdle(node: nat)
      requires Valid() && node in busy
      modifies this, next
      ensures Valid() && Pending() == old(Pending()) && busy == old(busy) - {node}
      ensures View() == Step(old(View()), GiveBack, nodes)
    {
      BusyNowIdle(idleList, pendList, busy, nodes, node);
      next[node] := idle;
      idle := node;
      idleList := [node] + idleList;
      busy := busy - {node};
    }

    /** Links a node in hand to the end of the queue. */
    method LinkLast(node: nat)
      requires Valid() && node in busy
      modifies this`pend, next
      ensures Chain(next[..], pend, pendList + [node]) && Chain(next[..], idle, idleList)
    {
      ghost var before := next[..];
      assert forall i :: 0 <= i < |idleList| ==>
          idleList[i] in idleList && idleList[i] != node && idleList[i] !in pendList;
      ChainExtended(next[..], pend, pendList, node);
      next[node] := NIL;
      if pend != NIL {
        var p := pend;
        ghost var i := 0;
        while next[p] != NIL
          invariant 0 <= i < |pendList| && p == pendList[i]
          invariant next[..] == before[node := NIL]
          decreases |pendList| - i
        {
          p := next[p];
          i := i + 1;
        }
        next[p] := node;
        assert next[..] == before[node := NIL][pendList[|pendList| - 1] := node];
      } else {
        pend := node;
      }
    }

    /** The append of LOG_AsyncPrintf: a node in hand gets the message and goes to the end of the queue. */
    method Append(node: nat, m: Message)
      requires Valid() && node in busy
      modifies this, next, message
      ensures Valid() && Pending() == old(Pending()) + [m] && busy == old(busy) - {node}
    {
      BusyNowPending(idleList, pendList, busy, nodes, node);
      LinkLast(node);
      message[node] := m;
      pendList := pendList + [node];
      busy := busy - {node};
    }

    /** LOG_AsyncPrintf. */
    method AsyncPrintf(m: Message)
      requires Valid()
      modifies this, next, message
      ensures Valid() && busy == old(busy)
      ensures View() == Step(old(View()), Log(m), nodes)
    {
      LogEffect(View(), m, nodes);
      var node := NIL;
      if idle != NIL {
        node := PopIdle();
      } else {
        node := PopPend();
      }
      if node != NIL {
        Append(node, m);
      }
    }
  }
}
