// The bare-metal message queue: messages of one size in a ring addressed by 16 bit byte offsets.

module MessageQueue {
  import opened ByteMemory
  import opened Sequences
  import GenericList

  datatype Status = Success | Error | Timeout | Idle

  // ---------- Offsets ----------

  /** `k` times `size`, by addition. */
  function Offset(k: nat, size: nat): nat
  {
    if k == 0 then 0 else Offset(k - 1, size) + size
  }

  lemma {:induction false} OffsetIsProduct(k: nat, size: nat)
    ensures Offset(k, size) == k * size
  {
    if k > 0 {
      OffsetIsProduct(k - 1, size);
      assert k * size == (k - 1) * size + size;
    }
  }

  lemma {:induction false} OffsetMonotone(j: nat, k: nat, size: nat)
    requires j <= k
    ensures Offset(j, size) <= Offset(k, size)
    ensures j < k ==> Offset(j, size) + size <= Offset(k, size)
  {
    if j < k {
      OffsetMonotone(j, k - 1, size);
    }
  }

  /** The slot after `k`. */
  function After(k: nat, max: nat): nat
  {
    if k + 1 >= max then 0 else k + 1
  }

  /** Slot `i` places after slot `first`. */
  function SlotOf(first: nat, i: nat, max: nat): (s: nat)
    requires first < max && i <= max
    ensures s < max
  {
    if first + i < max then first + i else first + i - max
  }

  /** The offset update of put and get: a 16 bit sum, reset when it reaches the 32 bit product of count and size. */
  function Advance(offset: nat, max: nat, size: nat): (t: nat)
    ensures t < MODULUS16
  {
    var t := (offset + size % MODULUS16) % MODULUS16;
    if t >= (max * size) % MODULUS32 then 0 else t
  }

  function {:tailrecursion false} OffsetAfter(k: nat, max: nat, size: nat): (t: nat)
    ensures t < MODULUS16
  {
    if k == 0 then 0 else Advance(OffsetAfter(k - 1, max, size), max, size)
  }

  function SlotAfter(k: nat, max: nat): (s: nat)
    ensures 0 < max ==> s < max
  {
    if k == 0 then 0 else After(SlotAfter(k - 1, max), max)
  }

  /** The sizes for which the offset is always that of the right slot. */
  predicate Usable(max: nat, size: nat)
  {
    Offset(max, size) <= MODULUS16 || (max == 1 && size % MODULUS16 == 0)
  }

  /** Below the limit nothing wraps but a sum of exactly 65536. */
  lemma AdvanceSmall(offset: nat, max: nat, size: nat, end: nat)
    requires end == max * size && end <= MODULUS16 && offset + size <= end && size < MODULUS16
    ensures Advance(offset, max, size) == if offset + size == end then 0 else offset + size
  {
  }

  lemma AdvanceOnSlots(k: nat, max: nat, size: nat)
    requires Usable(max, size) && k < max
    ensures Offset(k, size) < MODULUS16
    ensures Advance(Offset(k, size), max, size) == Offset(After(k, max), size)
  {
    if max == 1 && size % MODULUS16 == 0 {
      assert Offset(0, size) == 0;
    } else {
      var end := Offset(max, size);
      OffsetIsProduct(max, size);
      OffsetMonotone(k, max, size);
      SizeBelow(max, size);
      AdvanceSmall(Offset(k, size), max, size, end);
      if k + 1 < max {
        OffsetMonotone(k + 1, max, size);
        assert Offset(k + 1, size) == Offset(k, size) + size;
      }
    }
  }

  lemma SizeBelow(max: nat, size: nat)
    requires 0 < max && Offset(max, size) <= MODULUS16 && !(max == 1 && size % MODULUS16 == 0)
    ensures size < MODULUS16
  {
  }

  /** The offset kept by the queue is the right one for ever. */
  lemma {:induction false} UsableStaysOnSlots(k: nat, max: nat, size: nat)
    requires Usable(max, size) && 0 < max
    ensures OffsetAfter(k, max, size) == Offset(SlotAfter(k, max), size)
  {
    if k > 0 {
      UsableStaysOnSlots(k - 1, max, size);
      AdvanceOnSlots(SlotAfter(k - 1, max), max, size);
    }
  }

  lemma {:induction false} SlotBeforeWrap(k: nat, max: nat)
    requires k <= max && 0 < max
    ensures SlotAfter(k, max) == if k == max then 0 else k
  {
    if k > 0 {
      SlotBeforeWrap(k - 1, max);
    }
  }

  /** For any other sizes the offset is wrong at the last slot, or on the way back to the first. */
  lemma UnusableLeavesSlots(max: nat, size: nat)
    requires !Usable(max, size) && 0 < max < MODULUS16 && size < MODULUS32
    ensures exists k :: OffsetAfter(k, max, size) != Offset(SlotAfter(k, max), size)
  {
    OffsetIsProduct(max - 1, size);
    OffsetIsProduct(max, size);
    SlotBeforeWrap(max - 1, max);
    SlotBeforeWrap(max, max);
    assert max * size == (max - 1) * size + size;
    if Offset(max - 1, size) >= MODULUS16 {
      assert OffsetAfter(max - 1, max, size) < MODULUS16;
    } else if OffsetAfter(max - 1, max, size) == Offset(max - 1, size) {
      assert OffsetAfter(max, max, size) == Advance(Offset(max - 1, size), max, size);
      if max > 1 {
        OffsetMonotone(1, max - 1, size);
        assert Offset(1, size) == size;
      }
      LastAdvance(Offset(max - 1, size), max, size, max * size);
    }
  }

  lemma LastAdvance(offset: nat, max: nat, size: nat, end: nat)
    requires !Usable(max, size) && 0 < max < MODULUS16 && size < MODULUS32
    requires end == max * size == offset + size && offset < MODULUS16
    requires if max == 1 then offset == 0 else size <= offset
    ensures Advance(offset, max, size) != 0
  {
    OffsetIsProduct(max, size);
    if max == 1 {
      WrappedAlone(size);
    } else {
      WrappedOnce(offset, size, end);
    }
  }

  lemma WrappedAlone(size: nat)
    requires MODULUS16 < size < MODULUS32 && size % MODULUS16 != 0
    ensures (0 + size % MODULUS16) % MODULUS16 != 0 && (0 + size % MODULUS16) % MODULUS16 < size % MODULUS32
  {
  }

  lemma WrappedOnce(offset: nat, size: nat, end: nat)
    requires end == offset + size && size <= offset < MODULUS16 && MODULUS16 < end
    ensures (offset + size % MODULUS16) % MODULUS16 == end - MODULUS16
    ensures 0 < end - MODULUS16 < end % MODULUS32
  {
  }

  /** The offset is that of the right slot, after every number of updates, exactly for the usable counts and sizes. */
  lemma UsableExactly(max: nat, size: nat)
    requires 0 < max < MODULUS16 && size < MODULUS32
    ensures Usable(max, size) <==> forall k :: OffsetAfter(k, max, size) == Offset(SlotAfter(k, max), size)
  {
    if Usable(max, size) {
      forall k: nat ensures OffsetAfter(k, max, size) == Offset(SlotAfter(k, max), size) {
        UsableStaysOnSlots(k, max, size);
      }
    } else {
      UnusableLeavesSlots(max, size);
    }
  }

  /** Two messages of 40000 bytes: the second put leaves the offset at 14464, inside the first slot. */
  lemma LargeQueueLeavesSlots()
    ensures !Usable(2, 40000)
    ensures OffsetAfter(1, 2, 40000) == 40000 && OffsetAfter(2, 2, 40000) == 14464
    ensures Offset(SlotAfter(2, 2), 40000) == 0
  {
    assert Offset(1, 40000) == 40000 && Offset(2, 40000) == 80000;
    assert SlotAfter(1, 2) == 1;
    assert OffsetAfter(0, 2, 40000) == 0 && OffsetAfter(1, 2, 40000) == Advance(0, 2, 40000);
  }

  // ---------- The messages in the ring ----------

  function Slot(m: seq<Byte>, k: nat, size: nat): seq<Byte>
    requires Offset(k, size) + size <= |m|
  {
    m[Offset(k, size)..Offset(k, size) + size]
  }

  lemma SlotInRing(k: nat, max: nat, size: nat)
    requires k < max
    ensures Offset(k, size) + size <= Offset(max, size)
  {
  }

  /** The messages lie in the slots from `first` on. */
  ghost predicate InSlots(m: seq<Byte>, first: nat, max: nat, size: nat, msgs: seq<seq<Byte>>)
  {
    && first < max && |msgs| <= max && Offset(max, size) <= |m|
    && forall i {:trigger msgs[i]} :: 0 <= i < |msgs| ==>
         var k := SlotOf(first, i, max);
         Offset(k, size) + size <= |m| && msgs[i] == Slot(m, k, size)
  }

  lemma PutKeepsSlots(m: seq<Byte>, m': seq<Byte>, first: nat, max: nat, size: nat, msgs: seq<seq<Byte>>,
                      msg: seq<Byte>)
    requires InSlots(m, first, max, size, msgs) && |msgs| < max && |msg| == size && |m'| == |m|
    requires var at := Offset(SlotOf(first, |msgs|, max), size);
             && at + size <= |m|
             && m'[at..at + size] == msg
             && forall j :: 0 <= j < |m| && !(at <= j < at + size) ==> m'[j] == m[j]
    ensures InSlots(m', first, max, size, msgs + [msg])
  {
    var free := SlotOf(first, |msgs|, max);
    forall i | 0 <= i < |msgs|
      ensures var k := SlotOf(first, i, max);
              Offset(k, size) + size <= |m| && Slot(m', k, size) == msgs[i]
    {
      var k := SlotOf(first, i, max);
      SlotInRing(k, max, size);
      if k < free {
        OffsetMonotone(k, free, size);
      } else {
        OffsetMonotone(free, k, size);
      }
    }
  }

  lemma GetKeepsSlots(m: seq<Byte>, first: nat, max: nat, size: nat, msgs: seq<seq<Byte>>)
    requires InSlots(m, first, max, size, msgs) && msgs != []
    ensures InSlots(m, After(first, max), max, size, msgs[1..])
  {
  }

  /** The copy loop of put. */
  method CopyIn(memory: array<Byte>, at: nat, message: seq<Byte>, size: nat)
    requires at + size <= memory.Length && size <= |message|
    modifies memory
    ensures memory[at..at + size] == message[..size]
    ensures forall j :: 0 <= j < memory.Length && !(at <= j < at + size) ==> memory[j] == old(memory[j])
  {
    var i := 0;
    while i < size
      invariant 0 <= i <= size
      invariant forall j :: at <= j < at + i ==> memory[j] == message[j - at]
      invariant forall j :: 0 <= j < memory.Length && !(at <= j < at + size) ==> memory[j] == old(memory[j])
    {
      memory[at + i] := message[i];
      i := i + 1;
    }
  }

  /** The copy loop of get. */
  method CopyOut(message: array<Byte>, memory: array<Byte>, at: nat, size: nat)
    requires at + size <= memory.Length && size <= message.Length && message != memory
    modifies message
    ensures message[..size] == memory[at..at + size]
    ensures message[size..] == old(message[size..])
  {
    var i := 0;
    while i < size
      invariant 0 <= i <= size
      invariant forall j :: 0 <= j < i ==> message[j] == memory[at + j]
      invariant message[size..] == old(message[size..])
    {
      message[i] := memory[at + i];
      i := i + 1;
    }
  }

  /** The offset update on a usable queue. */
  method NextOffset(offset: nat, max: nat, size: nat, ghost slot: nat) returns (t: nat)
    requires Usable(max, size) && slot < max && offset == Offset(slot, size)
    ensures t == Offset(After(slot, max), size)
  {
    AdvanceOnSlots(slot, max, size);
    t := Advance(offset, max, size);
  }

  function SomeTask(task: GenericList.Element?): set<GenericList.Element> {
    if task == null then {} else {task}
  }

  class MsgQueue {
    var max: nat
    var size: nat
    var number: nat
    var head: nat
    var tail: nat
    var queueMem: array?<Byte>

    /** The task that last asked for a message. */
    var waitingTask: GenericList.Element?

    /** The slot `head` points at, and the queued messages, oldest first. */
    ghost var first: nat
    ghost var msgs: seq<seq<Byte>>

    ghost predicate Valid()
      reads this, queueMem
    {
      && max < MODULUS16 && size < MODULUS32 && Usable(max, size)
      && number == |msgs| <= max
      && (queueMem != null && max > 0 ==>
            && InSlots(queueMem[..], first, max, size, msgs)
            && head == Offset(first, size)
            && tail == Offset(SlotOf(first, number, max), size))
    }

    /** OSA_MsgQCreate; the memory is what the handle definition sets aside behind the control block, whose
        `waitingTask` keeps what it was. */
    constructor (msgNo: nat, msgSize: nat, memory: array<Byte>, waitingTask: GenericList.Element?)
      requires msgSize < MODULUS32 && Usable(msgNo % MODULUS16, msgSize)
      requires Offset(msgNo % MODULUS16, msgSize) <= memory.Length
      ensures Valid() && max == msgNo % MODULUS16 && size == msgSize && msgs == [] && queueMem == memory
      ensures this.waitingTask == waitingTask
    {
      max := msgNo % MODULUS16;
      number, head, tail := 0, 0, 0;
      size := msgSize;
      queueMem, this.waitingTask := memory, waitingTask;
      first, msgs := 0, [];
    }

    /** Stores a message at the tail of a queue that is not full. */
    method Store(message: seq<Byte>)
      requires Valid() && |message| >= size && queueMem != null && number < max
      modifies this`number, this`tail, this`msgs, queueMem
      ensures Valid() && msgs == old(msgs) + [message[..size]]
    {
      var memory: array<Byte> := queueMem;
      ghost var before, slot, msg := memory[..], SlotOf(first, number, max), message[..size];
      SlotInRing(slot, max, size);
      CopyIn(memory, tail, message, size);
      PutKeepsSlots(before, memory[..], first, max, size, msgs, msg);
      number := number + 1;
      tail := NextOffset(tail, max, size, slot);
      assert number < max ==> After(slot, max) == SlotOf(first, number, max);
      msgs := msgs + [msg];
    }

    /** OSA_MsgQPut: the task that last asked for a message is made ready. */
    method Put(message: seq<Byte>) returns (status: Status)
      requires Valid() && |message| >= size
      modifies this`number, this`tail, this`msgs, queueMem, SomeTask(waitingTask)`haveToRun
      ensures Valid()
      ensures status == if queueMem == null || |old(msgs)| == max then Error else Success
      ensures msgs == if status == Success then old(msgs) + [message[..size]] else old(msgs)
      ensures waitingTask != null ==>
                waitingTask.haveToRun == if status == Success then 1 else old(waitingTask.haveToRun)
    {
      if queueMem == null {
        return Error;
      }
      if number >= max {
        return Error;
      }
      Store(message);
      if waitingTask != null {
        waitingTask.haveToRun := 1;
      }
      return Success;
    }

    /** Takes the oldest message out of a queue that is not empty. */
    method Fetch(message: array<Byte>)
      requires Valid() && message.Length >= size && message != queueMem && queueMem != null && number != 0
      modifies this`number, this`head, this`first, this`msgs, message
      ensures Valid() && message[..size] == old(msgs)[0] && msgs == old(msgs)[1..]
    {
      var memory: array<Byte> := queueMem;
      SlotInRing(first, max, size);
      assert msgs[0] == Slot(memory[..], first, size);
      CopyOut(message, memory, head, size);
      GetKeepsSlots(memory[..], first, max, size, msgs);
      number := number - 1;
      head := NextOffset(head, max, size, first);
      first := After(first, max);
      msgs := msgs[1..];
    }

    /** OSA_MsgQGet in the default build, which has no timer, called by `current`.  A call that has to wait clears the
        flag of the current task, which there must then be. */
    method Get(message: array<Byte>, millisec: nat, current: GenericList.Element?) returns (status: Status)
      requires Valid() && message.Length >= size && message != queueMem
      requires queueMem != null && msgs == [] && millisec != 0 ==> current != null
      modifies this`number, this`head, this`first, this`msgs, this`waitingTask, message, SomeTask(current)`haveToRun
      ensures Valid()
      ensures status == if queueMem == null then Error
                        else if old(msgs) != [] then Success
                        else if millisec == 0 then Timeout else Idle
      ensures status == Success ==> message[..size] == old(msgs)[0] && msgs == old(msgs)[1..]
      ensures status != Success ==> msgs == old(msgs) && message[..] == old(message[..])
      ensures waitingTask == if queueMem == null then old(waitingTask) else current
      ensures current != null ==> current.haveToRun == if status == Idle then 0 else old(current.haveToRun)
    {
      if queueMem == null {
        return Error;
      }
      waitingTask := current;
      if number != 0 {
        Fetch(message);
        return Success;
      }
      if millisec == 0 {
        return Timeout;
      }
      waitingTask.haveToRun := 0;
      return Idle;
    }

    /** OSA_MsgQDestroy clears the control block, which put and get notice by the null memory pointer. */
    method Destroy()
      modifies this
      ensures Valid() && queueMem == null && msgs == [] && waitingTask == null
    {
      max, size, number, head, tail, queueMem, waitingTask := 0, 0, 0, 0, 0, null, null;
      first, msgs := 0, [];
    }
  }

  // ---------- Runs ----------

  datatype Call = PutCall(message: seq<Byte>) | GetCall(millisec: nat, current: GenericList.Element?)

  /** A bounded queue with its past: what is queued, all that was ever queued, and what was handed out. */
  datatype Fifo = Fifo(msgs: seq<seq<Byte>>, accepted: seq<seq<Byte>>, out: seq<seq<Byte>>)

  predicate Fitting(calls: seq<Call>, size: nat) {
    forall c :: c in calls && c.PutCall? ==> size <= |c.message|
  }

  function StepFifo(f: Fifo, c: Call, max: nat, size: nat): Fifo
    requires c.PutCall? ==> size <= |c.message|
  {
    match c
    case PutCall(m) =>
      if |f.msgs| == max then f else Fifo(f.msgs + [m[..size]], f.accepted + [m[..size]], f.out)
    case GetCall(_, _) =>
      if f.msgs == [] then f else Fifo(f.msgs[1..], f.accepted, f.out + [f.msgs[0]])
  }

  ghost function RunFifo(f: Fifo, calls: seq<Call>, max: nat, size: nat): Fifo
    requires Fitting(calls, size)
    decreases |calls|
  {
    if calls == [] then f else RunFifo(StepFifo(f, calls[0], max, size), calls[1..], max, size)
  }

  /** First in, first out, over any script: what is handed out, followed by what is queued, is what was accepted. */
  lemma {:induction false} FirstInFirstOut(f: Fifo, calls: seq<Call>, max: nat, size: nat)
    requires Fitting(calls, size) && f.out + f.msgs == f.accepted && |f.msgs| <= max
    ensures var r := RunFifo(f, calls, max, size);
            r.out + r.msgs == r.accepted && |r.msgs| <= max && f.out <= r.out && f.accepted <= r.accepted
    decreases |calls|
  {
    if calls != [] {
      var g := StepFifo(f, calls[0], max, size);
      assert g.out + g.msgs == g.accepted by {
        if calls[0].PutCall? {
          AppendAssociative(f.out, f.msgs, [calls[0].message[..size]]);
        } else if f.msgs != [] {
          assert f.msgs == [f.msgs[0]] + f.msgs[1..];
          AppendAssociative(f.out, [f.msgs[0]], f.msgs[1..]);
        }
      }
      FirstInFirstOut(g, calls[1..], max, size);
    }
  }

  /** One call of a script; a get of an empty queue hands nothing out. */
  method RunCall(queue: MsgQueue, call: Call, ghost tasks: set<GenericList.Element>, ghost f: Fifo)
    returns (out: seq<seq<Byte>>)
    requires queue.Valid() && queue.queueMem != null && SomeTask(queue.waitingTask) <= tasks
    requires if call.PutCall? then queue.size <= |call.message|
             else SomeTask(call.current) <= tasks && (call.current == null ==> call.millisec == 0)
    requires f.msgs == queue.msgs
    modifies queue`number, queue`head, queue`tail, queue`first, queue`msgs, queue`waitingTask, queue.queueMem
    modifies tasks`haveToRun
    ensures queue.Valid() && SomeTask(queue.waitingTask) <= tasks
    ensures var g := StepFifo(f, call, queue.max, queue.size); queue.msgs == g.msgs && g.out == f.out + out
    ensures call.PutCall? ==>
              && out == []
              && queue.msgs == if |old(queue.msgs)| == queue.max then old(queue.msgs)
                               else old(queue.msgs) + [call.message[..queue.size]]
    ensures call.GetCall? ==> out + queue.msgs == old(queue.msgs) && |out| == if old(queue.msgs) == [] then 0 else 1
  {
    out := [];
    match call {
      case PutCall(m) =>
        var status := queue.Put(m);
      case GetCall(millisec, current) =>
        var message := new Byte[queue.size];
        var status := queue.Get(message, millisec, current);
        if status == Success {
          out := [message[..queue.size]];
        }
    }
  }

  /** Any script of puts and gets: the queue and what it hands out are those of the bounded queue. */
  method RunCalls(queue: MsgQueue, calls: seq<Call>, ghost tasks: set<GenericList.Element>)
    returns (out: seq<seq<Byte>>)
    requires queue.Valid() && queue.queueMem != null && SomeTask(queue.waitingTask) <= tasks
    requires Fitting(calls, queue.size)
    requires forall c :: c in calls && c.GetCall? ==>
               SomeTask(c.current) <= tasks && (c.current == null ==> c.millisec == 0)
    modifies queue`number, queue`head, queue`tail, queue`first, queue`msgs, queue`waitingTask, queue.queueMem
    modifies tasks`haveToRun
    ensures queue.Valid()
    ensures var r := RunFifo(Fifo(old(queue.msgs), old(queue.msgs), []), calls, queue.max, queue.size);
            queue.msgs == r.msgs && out == r.out && out + queue.msgs == r.accepted
  {
    out := [];
    ghost var start := Fifo(queue.msgs, queue.msgs, []);
    ghost var f := start;
    FirstInFirstOut(start, calls, queue.max, queue.size);
    for i := 0 to |calls|
      invariant queue.Valid() && SomeTask(queue.waitingTask) <= tasks
      invariant f.msgs == queue.msgs && f.out == out
      invariant RunFifo(start, calls, queue.max, queue.size) == RunFifo(f, calls[i..], queue.max, queue.size)
    {
      var more := RunCall(queue, calls[i], tasks, f);
      out := out + more;
      f := StepFifo(f, calls[i], queue.max, queue.size);
    }
  }
}
