// Dynamic address assignment as a function of the slot table and of what the hardware reports.

module I3cAssignment {
  import opened ByteMemory
  import opened I3cSlots
  import opened Sequences

  datatype Device =
    Device(dynamicAddr: nat, staticAddr: nat, vendorId: nat, partNumber: nat, bcr: nat, dcr: nat)

  /** One round of polling: the bytes received, whether the controller reports an error, whether another device
      answers, and whether the procedure is complete. */
  datatype Round = Round(received: seq<Byte>, error: bool, answers: bool, complete: bool)

  /** `Polling` says that the rounds have run out before the procedure ends. */
  datatype Outcome = Success | HardwareError | SlotInvalid | Polling

  datatype Result = Result(slots: seq<Status>, devices: seq<Device>, outcome: Outcome)

  /** The addresses that a new bus sets aside: 0 to 7, the broadcast address and its single-bit errors, and the
      conditionally restricted ones. */
  predicate SetAside(a: nat) {
    a < 8 || a == 0x3E || a == 0x5E || a == 0x6E || a == 0x76 || 0x78 <= a <= MAX_ADDR
  }

  /** Every address one bit away from the broadcast address is set aside. */
  lemma SingleBitErrorsSetAside(a: nat, bit: nat)
    requires bit < 7
    requires a == if bit == 0 then BROADCAST_ADDR + 1 else BROADCAST_ADDR - [1, 2, 4, 8, 16, 32, 64][bit]
    ensures SetAside(a)
  {
  }

  /** The lowest free address from `start` on; 0x7F or more when there is none. */
  function FirstFree(slots: seq<Status>, start: nat): (a: nat)
    requires |slots| == 128
    ensures start <= a && (start <= MAX_ADDR ==> a <= MAX_ADDR)
    ensures forall b :: start <= b < a && b < MAX_ADDR ==> slots[b] != Free
    ensures a < MAX_ADDR ==> slots[a] == Free
    decreases MAX_ADDR - start
  {
    if start >= MAX_ADDR || slots[start] == Free then start else FirstFree(slots, start + 1)
  }

  /** How many assignable addresses from `lo` up to `hi` are free. */
  ghost function FreeCount(slots: seq<Status>, lo: nat, hi: nat): (n: nat)
    requires lo <= hi <= |slots|
    ensures n <= hi - lo
    decreases hi - lo
  {
    if lo == hi then 0 else (if slots[lo] == Free then 1 else 0) + FreeCount(slots, lo + 1, hi)
  }

  /** What the eight bytes of an answer say about the device. */
  function DeviceFrom(received: seq<Byte>, addr: nat): Device
    requires |received| == 8
  {
    Device(addr, 0,
           (0x100 * received[0] as int + received[1] as int) / 2,
           0x100_0000 * received[2] as int + 0x1_0000 * received[3] as int
           + 0x100 * received[4] as int + received[5] as int,
           received[6] as int, received[7] as int)
  }

  /** What a record says when the eight bytes are those: the vendor is the first 15 bits, the part number the next four
      bytes, most significant first, and then come BCR and DCR. */
  ghost predicate MadeOf(d: Device, b: seq<Byte>)
    requires |b| == 8
  {
    && d.staticAddr == 0 && 2 * d.vendorId + b[1] as int % 2 == 0x100 * b[0] as int + b[1] as int
    && d.partNumber == Get32([b[5], b[4], b[3], b[2]], 0) && d.bcr == b[6] as int && d.dcr == b[7] as int
  }

  lemma DeviceMadeOf(b: seq<Byte>, addr: nat)
    requires |b| == 8
    ensures MadeOf(DeviceFrom(b, addr), b)
  {
  }

  /** The receive buffer and the index of the next byte. */
  datatype Rx = Rx(buffer: seq<Byte>, size: nat)

  function Filled(rx: Rx, received: seq<Byte>): (r: Rx)
    requires |rx.buffer| == 8 && rx.size + |received| <= 8
    ensures |r.buffer| == 8 && r.size == rx.size + |received|
    ensures forall k :: 0 <= k < 8 ==>
              r.buffer[k] == if rx.size <= k < r.size then received[k - rx.size] else rx.buffer[k]
  {
    Rx(rx.buffer[..rx.size] + received + rx.buffer[rx.size + |received|..], rx.size + |received|)
  }

  // ---------- One round ----------

  /** A device answers and there is an address for it. */
  predicate Served(slots: seq<Status>, round: Round)
    requires |slots| == 128
  {
    !round.error && round.answers && FirstFree(slots, 0) < MAX_ADDR
  }

  predicate Ends(slots: seq<Status>, round: Round)
    requires |slots| == 128
  {
    round.error || round.complete || (round.answers && FirstFree(slots, 0) >= MAX_ADDR)
  }

  function NextSlots(slots: seq<Status>, round: Round): (s: seq<Status>)
    requires |slots| == 128
    ensures |s| == 128
  {
    if Served(slots, round) then slots[FirstFree(slots, 0) := I3cDevice] else slots
  }

  /** The device added, from all that the buffer then holds. */
  function Added(slots: seq<Status>, round: Round, buffer: seq<Byte>): seq<Device>
    requires |slots| == 128 && |buffer| == 8
  {
    if Served(slots, round) then [DeviceFrom(buffer, FirstFree(slots, 0))] else []
  }

  function OutcomeOf(slots: seq<Status>, round: Round): Outcome
    requires |slots| == 128
  {
    if round.error then HardwareError
    else if round.answers && FirstFree(slots, 0) >= MAX_ADDR then SlotInvalid
    else Success
  }

  /** An answer starts the buffer anew; a round without one does not. */
  function NextSize(size: nat, round: Round): nat {
    if round.answers then 0 else size + |round.received|
  }

  function NextRx(rx: Rx, round: Round): (r: Rx)
    requires |rx.buffer| == 8 && rx.size + |round.received| <= 8
    ensures |r.buffer| == 8 && r.size == NextSize(rx.size, round)
  {
    Rx(Filled(rx, round.received).buffer, NextSize(rx.size, round))
  }

  /** The three ways a round can go. */
  lemma RoundCases(slots: seq<Status>, round: Round, buffer: seq<Byte>)
    requires |slots| == 128 && |buffer| == 8
    ensures round.error ==> Ends(slots, round) && OutcomeOf(slots, round) == HardwareError
    ensures round.error || !round.answers ==> NextSlots(slots, round) == slots && Added(slots, round, buffer) == []
    ensures !round.error && round.answers ==>
              var a := FirstFree(slots, 0);
              if a < MAX_ADDR then
                && NextSlots(slots, round) == slots[a := I3cDevice]
                && Added(slots, round, buffer) == [DeviceFrom(buffer, a)]
              else
                && NextSlots(slots, round) == slots && Added(slots, round, buffer) == []
                && Ends(slots, round) && OutcomeOf(slots, round) == SlotInvalid
    ensures !round.error && (round.answers ==> FirstFree(slots, 0) < MAX_ADDR) ==>
              (Ends(slots, round) <==> round.complete) && OutcomeOf(slots, round) == Success
  {
  }

  // ---------- The procedure ----------

  /** Every byte that the procedure stores goes inside the buffer of eight. */
  ghost predicate InBounds(slots: seq<Status>, rounds: seq<Round>, size: nat)
    requires |slots| == 128
    decreases |rounds|
  {
    rounds == [] ||
    (&& size + |rounds[0].received| <= 8
     && (Ends(slots, rounds[0]) || InBounds(NextSlots(slots, rounds[0]), rounds[1..], NextSize(size, rounds[0]))))
  }

  /** What the procedure does, round by round. */
  ghost function Assign(slots: seq<Status>, rounds: seq<Round>, rx: Rx): (r: Result)
    requires |slots| == 128 && |rx.buffer| == 8 && InBounds(slots, rounds, rx.size)
    ensures |r.slots| == 128
    decreases |rounds|
  {
    if rounds == [] then Result(slots, [], Polling)
    else
      var round, slots' := rounds[0], NextSlots(slots, rounds[0]);
      var added := Added(slots, round, Filled(rx, round.received).buffer);
      if Ends(slots, round) then Result(slots', added, OutcomeOf(slots, round))
      else
        var rest := Assign(slots', rounds[1..], NextRx(rx, round));
        rest.(devices := added + rest.devices)
  }

  /** What remains of the procedure after `j` rounds that have not ended it. */
  ghost predicate Continues(slots: seq<Status>, rounds: seq<Round>, rx: Rx, j: nat, now: seq<Status>, rx': Rx,
                            found: seq<Device>)
    requires |slots| == 128 && |now| == 128 && |rx.buffer| == 8 && |rx'.buffer| == 8 && j <= |rounds|
    requires InBounds(slots, rounds, rx.size)
  {
    && InBounds(now, rounds[j..], rx'.size)
    && var rest := Assign(now, rounds[j..], rx');
       Assign(slots, rounds, rx) == rest.(devices := found + rest.devices)
  }

  lemma ContinuesFirst(slots: seq<Status>, rounds: seq<Round>, rx: Rx)
    requires |slots| == 128 && |rx.buffer| == 8 && InBounds(slots, rounds, rx.size)
    ensures Continues(slots, rounds, rx, 0, slots, rx, [])
  {
    assert rounds[0..] == rounds;
    assert [] + Assign(slots, rounds, rx).devices == Assign(slots, rounds, rx).devices;
  }

  lemma ContinuesNext(slots: seq<Status>, rounds: seq<Round>, rx: Rx, j: nat, now: seq<Status>, rx': Rx,
                      found: seq<Device>)
    requires |slots| == 128 && |now| == 128 && |rx.buffer| == 8 && |rx'.buffer| == 8 && j < |rounds|
    requires InBounds(slots, rounds, rx.size) && Continues(slots, rounds, rx, j, now, rx', found)
    ensures rx'.size + |rounds[j].received| <= 8
    ensures var round := rounds[j];
            var next, added := NextSlots(now, round), Added(now, round, Filled(rx', round.received).buffer);
            if Ends(now, round) then Assign(slots, rounds, rx) == Result(next, found + added, OutcomeOf(now, round))
            else Continues(slots, rounds, rx, j + 1, next, NextRx(rx', round), found + added)
  {
    var round, rest := rounds[j], rounds[j..];
    assert rest[0] == round && rest[1..] == rounds[j + 1..];
    if !Ends(now, round) {
      var next, added := NextSlots(now, round), Added(now, round, Filled(rx', round.received).buffer);
      AppendAssociative(found, added, Assign(next, rest[1..], NextRx(rx', round)).devices);
    }
  }

  // ---------- When the buffer suffices ----------

  /** How many rounds the procedure polls. */
  ghost function Polled(slots: seq<Status>, rounds: seq<Round>): (n: nat)
    requires |slots| == 128
    ensures n <= |rounds|
    decreases |rounds|
  {
    if rounds == [] then 0
    else if Ends(slots, rounds[0]) then 1
    else 1 + Polled(NextSlots(slots, rounds[0]), rounds[1..])
  }

  /** The bytes that arrive in round `i` and before it since the last answer, `size` of them before the first round. */
  ghost function SinceAnswer(rounds: seq<Round>, size: nat, i: nat): nat
    requires i < |rounds|
  {
    |rounds[i].received| +
    if i == 0 then size else if rounds[i - 1].answers then 0 else SinceAnswer(rounds, size, i - 1)
  }

  ghost predicate AtMostEightBetweenAnswers(rounds: seq<Round>, size: nat) {
    forall i :: 0 <= i < |rounds| ==> SinceAnswer(rounds, size, i) <= 8
  }

  lemma {:induction false} SinceAnswerRest(rounds: seq<Round>, size: nat, i: nat)
    requires i + 1 < |rounds|
    ensures SinceAnswer(rounds, size, i + 1) == SinceAnswer(rounds[1..], NextSize(size, rounds[0]), i)
  {
    if i > 0 {
      SinceAnswerRest(rounds, size, i - 1);
    }
  }

  /** Writes stay in the buffer exactly when at most eight bytes arrive between answers, while the procedure polls. */
  lemma {:induction false} InBoundsExactly(slots: seq<Status>, rounds: seq<Round>, size: nat)
    requires |slots| == 128
    ensures InBounds(slots, rounds, size) <==> AtMostEightBetweenAnswers(rounds[..Polled(slots, rounds)], size)
    decreases |rounds|
  {
    if rounds != [] {
      var ps := rounds[..Polled(slots, rounds)];
      assert SinceAnswer(ps, size, 0) == size + |rounds[0].received|;
      if !Ends(slots, rounds[0]) {
        var slots', size' := NextSlots(slots, rounds[0]), NextSize(size, rounds[0]);
        InBoundsExactly(slots', rounds[1..], size');
        assert ps[1..] == rounds[1..][..Polled(slots', rounds[1..])];
        AtMostEightRest(ps, size);
      }
    }
  }

  lemma AtMostEightRest(rounds: seq<Round>, size: nat)
    requires rounds != []
    ensures AtMostEightBetweenAnswers(rounds, size) <==>
              size + |rounds[0].received| <= 8 && AtMostEightBetweenAnswers(rounds[1..], NextSize(size, rounds[0]))
  {
    assert SinceAnswer(rounds, size, 0) == size + |rounds[0].received|;
    forall i: nat | i + 1 < |rounds|
      ensures SinceAnswer(rounds, size, i + 1) == SinceAnswer(rounds[1..], NextSize(size, rounds[0]), i)
    {
      SinceAnswerRest(rounds, size, i);
    }
    if AtMostEightBetweenAnswers(rounds, size) {
      forall i: nat | i < |rounds[1..]|
        ensures SinceAnswer(rounds[1..], NextSize(size, rounds[0]), i) <= 8
      {
        assert SinceAnswer(rounds, size, i + 1) <= 8;
      }
    } else {
      var i :| 0 <= i < |rounds| && SinceAnswer(rounds, size, i) > 8;
      assert i > 0 ==> SinceAnswer(rounds[1..], NextSize(size, rounds[0]), i - 1) > 8;
    }
  }

  /** One round of nine bytes, or two rounds of five without an answer, is too much for the buffer. */
  lemma NinthByteOutside(slots: seq<Status>)
    requires |slots| == 128
    ensures !InBounds(slots, [Round(ZeroBytes(9), false, true, true)], 0)
    ensures !InBounds(slots, [Round(ZeroBytes(5), false, false, false), Round(ZeroBytes(5), false, true, true)], 0)
  {
    var five := [Round(ZeroBytes(5), false, false, false), Round(ZeroBytes(5), false, true, true)];
    assert five[1..] == [Round(ZeroBytes(5), false, true, true)];
  }

  /** Hardware that sends eight bytes for a device that answers, and none in a round without one, suffices; a record is
      then made of the bytes of its own answer. */
  lemma {:induction false} DisciplinedInBounds(slots: seq<Status>, rounds: seq<Round>)
    requires |slots| == 128 && forall r :: r in rounds ==> |r.received| == if r.answers then 8 else 0
    ensures InBounds(slots, rounds, 0)
    ensures forall rx: Rx, r :: r in rounds && r.answers && |rx.buffer| == 8 && rx.size == 0 ==>
              Filled(rx, r.received).buffer == r.received
    decreases |rounds|
  {
    if rounds != [] && !Ends(slots, rounds[0]) {
      DisciplinedInBounds(NextSlots(slots, rounds[0]), rounds[1..]);
    }
  }

  // ---------- How the procedure ends, and what the records are made of ----------

  /** The procedure after a round that has not ended it. */
  lemma AssignNext(slots: seq<Status>, rounds: seq<Round>, rx: Rx) returns (added: seq<Device>)
    requires |slots| == 128 && |rx.buffer| == 8 && InBounds(slots, rounds, rx.size)
    requires rounds != [] && !Ends(slots, rounds[0])
    ensures var round, slots', rx' := rounds[0], NextSlots(slots, rounds[0]), NextRx(rx, rounds[0]);
            && InBounds(slots', rounds[1..], rx'.size) && Polled(slots, rounds) == 1 + Polled(slots', rounds[1..])
            && Assign(slots, rounds, rx).outcome == Assign(slots', rounds[1..], rx').outcome
            && |added| == (if round.answers then 1 else 0)
            && Assign(slots, rounds, rx).devices == added + Assign(slots', rounds[1..], rx').devices
  {
    var round := rounds[0];
    added := Added(slots, round, Filled(rx, round.received).buffer);
    assert Assign(slots, rounds, rx).devices
        == added + Assign(NextSlots(slots, round), rounds[1..], NextRx(rx, round)).devices;
  }

  /** The round that ends the procedure reports an error, lacks an address or completes; before it none does. */
  lemma {:induction false} OutcomeExactly(slots: seq<Status>, rounds: seq<Round>, rx: Rx)
    requires |slots| == 128 && |rx.buffer| == 8 && InBounds(slots, rounds, rx.size)
    ensures var n, outcome := Polled(slots, rounds), Assign(slots, rounds, rx).outcome;
            && (forall j :: 0 <= j < n - 1 ==> !rounds[j].error && !rounds[j].complete)
            && (outcome == HardwareError <==> n > 0 && rounds[n - 1].error)
            && (outcome == SlotInvalid ==> n > 0 && !rounds[n - 1].error && rounds[n - 1].answers)
            && (outcome == Success <==>
                  n > 0 && !rounds[n - 1].error && rounds[n - 1].complete && outcome != SlotInvalid)
            && (outcome == Polling ==> n == |rounds|)
    decreases |rounds|
  {
    if rounds != [] {
      if Ends(slots, rounds[0]) {
        assert Assign(slots, rounds, rx).outcome == OutcomeOf(slots, rounds[0]);
      } else {
        var added := AssignNext(slots, rounds, rx);
        OutcomeExactly(NextSlots(slots, rounds[0]), rounds[1..], NextRx(rx, rounds[0]));
        assert forall j :: 0 < j < |rounds| ==> rounds[j] == rounds[1..][j - 1];
      }
    }
  }

  /** How many devices answer before round `j`. */
  ghost function AnswersBefore(rounds: seq<Round>, j: nat): nat
    requires j <= |rounds|
  {
    if j == 0 then 0 else AnswersBefore(rounds, j - 1) + if rounds[j - 1].answers then 1 else 0
  }

  /** The bytes that arrive in round `j` and before it since the last answer, `pending` before the first round. */
  ghost function Arrived(pending: seq<Byte>, rounds: seq<Round>, j: nat): seq<Byte>
    requires j < |rounds|
  {
    (if j == 0 then pending else if rounds[j - 1].answers then [] else Arrived(pending, rounds, j - 1))
    + rounds[j].received
  }

  lemma {:induction false} RestOfRounds(pending: seq<Byte>, rounds: seq<Round>, j: nat)
    requires j + 1 < |rounds|
    ensures AnswersBefore(rounds, j + 1) == (if rounds[0].answers then 1 else 0) + AnswersBefore(rounds[1..], j)
    ensures var pending' := if rounds[0].answers then [] else pending + rounds[0].received;
            Arrived(pending, rounds, j + 1) == Arrived(pending', rounds[1..], j)
  {
    if j > 0 {
      RestOfRounds(pending, rounds, j - 1);
    }
  }

  /** The record begins with these bytes; eight of them are all of it. */
  ghost predicate BeginsWith(d: Device, bytes: seq<Byte>) {
    exists b: seq<Byte> :: |b| == 8 && bytes <= b && MadeOf(d, b)
  }

  lemma BeginsWithEight(d: Device, bytes: seq<Byte>)
    requires BeginsWith(d, bytes) && |bytes| == 8
    ensures MadeOf(d, bytes)
  {
  }

  lemma FirstRecord(slots: seq<Status>, rounds: seq<Round>, rx: Rx, pending: seq<Byte>)
    requires |slots| == 128 && |rx.buffer| == 8 && InBounds(slots, rounds, rx.size) && rounds != []
    requires |pending| == rx.size <= 8 && rx.buffer[..rx.size] == pending
    requires rounds[0].answers && !rounds[0].error && Assign(slots, rounds, rx).devices != []
    ensures BeginsWith(Assign(slots, rounds, rx).devices[0], pending + rounds[0].received)
  {
    var b := Filled(rx, rounds[0].received).buffer;
    assert Assign(slots, rounds, rx).devices[0] == DeviceFrom(b, FirstFree(slots, 0));
    DeviceMadeOf(b, FirstFree(slots, 0));
    assert pending + rounds[0].received <= b;
  }

  lemma PendingNext(rx: Rx, round: Round, pending: seq<Byte>)
    requires |rx.buffer| == 8 && |pending| == rx.size <= 8 && rx.buffer[..rx.size] == pending
    requires rx.size + |round.received| <= 8
    ensures NextRx(rx, round).buffer[..NextRx(rx, round).size]
            == if round.answers then [] else pending + round.received
  {
  }

  lemma IndexBehind(all: seq<Device>, added: seq<Device>, rest: seq<Device>, i: nat, i': nat)
    requires all == added + rest && i == |added| + i' < |all|
    ensures i' < |rest| && all[i] == rest[i']
  {
  }

  /** The record `i` of a run, made in round `j`, is one of the run after the first round. */
  lemma RecordAfterFirst(slots: seq<Status>, rounds: seq<Round>, rx: Rx, j: nat, i: nat) returns (i': nat)
    requires |slots| == 128 && |rx.buffer| == 8 && InBounds(slots, rounds, rx.size)
    requires 0 < j < Polled(slots, rounds) && i == AnswersBefore(rounds, j) < |Assign(slots, rounds, rx).devices|
    ensures var slots', rx', rest := NextSlots(slots, rounds[0]), NextRx(rx, rounds[0]), rounds[1..];
            && InBounds(slots', rest, rx'.size) && j - 1 < Polled(slots', rest) && rest[j - 1] == rounds[j]
            && i' == AnswersBefore(rest, j - 1) && i' < |Assign(slots', rest, rx').devices|
            && Assign(slots, rounds, rx).devices[i] == Assign(slots', rest, rx').devices[i']
  {
    var round := rounds[0];
    i' := AnswersBefore(rounds[1..], j - 1);
    assert i == (if round.answers then 1 else 0) + i' by {
      RestOfRounds([], rounds, j - 1);
    }
    assert !Ends(slots, round);
    var added := AssignNext(slots, rounds, rx);
    IndexBehind(Assign(slots, rounds, rx).devices, added,
                Assign(NextSlots(slots, round), rounds[1..], NextRx(rx, round)).devices, i, i');
  }

  lemma BytesAfterFirst(rx: Rx, rounds: seq<Round>, pending: seq<Byte>, j: nat) returns (pending': seq<Byte>)
    requires 0 < j < |rounds| && |rx.buffer| == 8 && |pending| == rx.size <= 8 && rx.buffer[..rx.size] == pending
    requires rx.size + |rounds[0].received| <= 8
    ensures var rx' := NextRx(rx, rounds[0]); |pending'| == rx'.size <= 8 && rx'.buffer[..rx'.size] == pending'
    ensures Arrived(pending, rounds, j) == Arrived(pending', rounds[1..], j - 1)
  {
    pending' := if rounds[0].answers then [] else pending + rounds[0].received;
    PendingNext(rx, rounds[0], pending);
    RestOfRounds(pending, rounds, j - 1);
  }

  /** The record of each device that is served begins with the bytes that arrived since the answer before its own. */
  lemma {:induction false} RecordsOwnBytes(slots: seq<Status>, rounds: seq<Round>, rx: Rx, pending: seq<Byte>, j: nat,
                                           i: nat)
    requires |slots| == 128 && |rx.buffer| == 8 && InBounds(slots, rounds, rx.size)
    requires |pending| == rx.size <= 8 && rx.buffer[..rx.size] == pending
    requires j < Polled(slots, rounds) && rounds[j].answers && !rounds[j].error
    requires i == AnswersBefore(rounds, j) < |Assign(slots, rounds, rx).devices|
    ensures BeginsWith(Assign(slots, rounds, rx).devices[i], Arrived(pending, rounds, j))
    decreases |rounds|
  {
    if j == 0 {
      FirstRecord(slots, rounds, rx, pending);
    } else {
      var i' := RecordAfterFirst(slots, rounds, rx, j, i);
      var pending' := BytesAfterFirst(rx, rounds, pending, j);
      RecordsOwnBytes(NextSlots(slots, rounds[0]), rounds[1..], NextRx(rx, rounds[0]), pending', j - 1, i');
    }
  }

  lemma AllRecordsOwnBytes(slots: seq<Status>, rounds: seq<Round>, rx: Rx)
    requires |slots| == 128 && |rx.buffer| == 8 && InBounds(slots, rounds, rx.size) && rx.size == 0
    ensures forall j :: 0 <= j < Polled(slots, rounds) ==>
              var i := AnswersBefore(rounds, j);
              rounds[j].answers && !rounds[j].error && i < |Assign(slots, rounds, rx).devices| ==>
                BeginsWith(Assign(slots, rounds, rx).devices[i], Arrived([], rounds, j))
  {
    forall j | 0 <= j < Polled(slots, rounds)
      ensures var i := AnswersBefore(rounds, j);
              rounds[j].answers && !rounds[j].error && i < |Assign(slots, rounds, rx).devices| ==>
                BeginsWith(Assign(slots, rounds, rx).devices[i], Arrived([], rounds, j))
    {
      var i := AnswersBefore(rounds, j);
      if rounds[j].answers && !rounds[j].error && i < |Assign(slots, rounds, rx).devices| {
        RecordsOwnBytes(slots, rounds, rx, [], j, i);
      }
    }
  }

  /** Of the devices from `first` on, each is described by the bytes of its own answer among the first `n` rounds. */
  ghost predicate OwnRecords(devices: seq<Device>, first: nat, rounds: seq<Round>, n: nat)
    requires n <= |rounds|
  {
    forall j :: 0 <= j < n ==>
      var i := first + AnswersBefore(rounds, j);
      rounds[j].answers && !rounds[j].error && i < |devices| ==> BeginsWith(devices[i], Arrived([], rounds, j))
  }

  lemma RecordsBehind(before: seq<Device>, after: seq<Device>, added: seq<Device>, rounds: seq<Round>, n: nat)
    requires after == before + added && n <= |rounds|
    requires forall j :: 0 <= j < n ==>
               var i := AnswersBefore(rounds, j);
               rounds[j].answers && !rounds[j].error && i < |added| ==> BeginsWith(added[i], Arrived([], rounds, j))
    ensures forall j :: 0 <= j < n ==>
              var i := |before| + AnswersBefore(rounds, j);
              rounds[j].answers && !rounds[j].error && i < |after| ==> BeginsWith(after[i], Arrived([], rounds, j))
  {
  }

  // ---------- What is assigned ----------

  /** How many devices answer before the procedure ends. */
  ghost function Answers(rounds: seq<Round>): nat {
    if rounds == [] || rounds[0].error then 0
    else (if rounds[0].answers then 1 else 0) + if rounds[0].complete then 0 else Answers(rounds[1..])
  }

  lemma {:induction false} NoneFreeExactly(slots: seq<Status>, lo: nat, hi: nat)
    requires lo <= hi <= |slots|
    ensures FreeCount(slots, lo, hi) == 0 <==> forall a :: lo <= a < hi ==> slots[a] != Free
    decreases hi - lo
  {
    if lo < hi {
      NoneFreeExactly(slots, lo + 1, hi);
    }
  }

  lemma {:induction false} FreeCountTaken(slots: seq<Status>, a: nat, lo: nat, hi: nat)
    requires lo <= hi <= |slots| && a < |slots| && slots[a] == Free
    ensures FreeCount(slots[a := I3cDevice], lo, hi) == FreeCount(slots, lo, hi) - if lo <= a < hi then 1 else 0
    decreases hi - lo
  {
    if lo < hi {
      FreeCountTaken(slots, a, lo + 1, hi);
    }
  }

  ghost predicate Ascending(devices: seq<Device>) {
    forall i, j :: 0 <= i < j < |devices| ==> devices[i].dynamicAddr < devices[j].dynamicAddr
  }

  /** The devices have taken free addresses, in ascending order, so all different; and only those addresses change. */
  ghost predicate Takes(slots: seq<Status>, slots': seq<Status>, devices: seq<Device>)
    requires |slots| == |slots'| == 128
  {
    && Ascending(devices)
    && (forall i :: 0 <= i < |devices| ==> devices[i].dynamicAddr < MAX_ADDR)
    && (forall i :: 0 <= i < |devices| ==> slots[devices[i].dynamicAddr] == Free)
    && (forall i :: 0 <= i < |devices| ==> slots'[devices[i].dynamicAddr] == I3cDevice)
    && (forall a :: 0 <= a < 128 && slots'[a] != slots[a] ==> HasAddress(devices, a))
  }

  ghost predicate HasAddress(devices: seq<Device>, a: nat) {
    exists i :: 0 <= i < |devices| && devices[i].dynamicAddr == a
  }

  lemma TakesOneMore(slots: seq<Status>, slots': seq<Status>, device: Device, devices: seq<Device>)
    requires |slots| == |slots'| == 128 && device.dynamicAddr == FirstFree(slots, 0) < MAX_ADDR
    requires Takes(slots[device.dynamicAddr := I3cDevice], slots', devices)
    ensures Takes(slots, slots', [device] + devices)
  {
    var a, all := device.dynamicAddr, [device] + devices;
    forall i | 0 <= i < |devices|
      ensures a < devices[i].dynamicAddr && slots[devices[i].dynamicAddr] == Free
    {
      assert slots[a := I3cDevice][devices[i].dynamicAddr] == Free;
    }
    forall i | 0 <= i < |all|
      ensures i > 0 ==> a < all[i].dynamicAddr
      ensures all[i].dynamicAddr < MAX_ADDR && slots[all[i].dynamicAddr] == Free
    {
      assert i > 0 ==> all[i] == devices[i - 1];
    }
    assert Ascending(all) by {
      forall i, j | 0 <= i < j < |all|
        ensures all[i].dynamicAddr < all[j].dynamicAddr
      {
        assert all[j] == devices[j - 1] && (i > 0 ==> all[i] == devices[i - 1]);
      }
    }
    forall b | 0 <= b < 128 && slots'[b] != slots[b]
      ensures HasAddress(all, b)
    {
      OneMoreChanges(slots, slots', device, devices, b);
    }
    assert slots'[a] == I3cDevice by {
      OneMoreChanges(slots, slots', device, devices, a);
    }
  }

  lemma OneMoreChanges(slots: seq<Status>, slots': seq<Status>, device: Device, devices: seq<Device>, b: nat)
    requires |slots| == |slots'| == 128 && device.dynamicAddr < MAX_ADDR && b < 128
    requires Takes(slots[device.dynamicAddr := I3cDevice], slots', devices)
    ensures slots'[b] != slots[b] ==> HasAddress([device] + devices, b)
    ensures b == device.dynamicAddr ==> slots'[b] == I3cDevice
  {
    var all := [device] + devices;
    if b == device.dynamicAddr {
      assert all[0].dynamicAddr == b;
    } else if slots'[b] != slots[b] {
      var i :| 0 <= i < |devices| && devices[i].dynamicAddr == b;
      assert all[i + 1].dynamicAddr == b;
    }
  }

  /** The addresses assigned are all different; each was free; and exactly they change. */
  lemma {:induction false} AssignsFreeAddresses(slots: seq<Status>, rounds: seq<Round>, rx: Rx)
    requires |slots| == 128 && |rx.buffer| == 8 && InBounds(slots, rounds, rx.size)
    ensures Takes(slots, Assign(slots, rounds, rx).slots, Assign(slots, rounds, rx).devices)
    decreases |rounds|
  {
    if rounds != [] {
      var round, slots' := rounds[0], NextSlots(slots, rounds[0]);
      var added := Added(slots, round, Filled(rx, round.received).buffer);
      if Ends(slots, round) {
        assert Assign(slots, rounds, rx) == Result(slots', added, OutcomeOf(slots, round));
        if Served(slots, round) {
          TakesOneMore(slots, slots', added[0], []);
        }
      } else {
        AssignsFreeAddresses(slots', rounds[1..], NextRx(rx, round));
        var rest := Assign(slots', rounds[1..], NextRx(rx, round));
        assert Assign(slots, rounds, rx) == rest.(devices := added + rest.devices);
        if Served(slots, round) {
          TakesOneMore(slots, rest.slots, added[0], rest.devices);
        } else {
          assert added + rest.devices == rest.devices;
        }
      }
    }
  }

  /** A round adds a device exactly when one answers without an error and an address is free, which it uses up. */
  lemma RoundUsesUp(slots: seq<Status>, round: Round, buffer: seq<Byte>)
    requires |slots| == 128 && |buffer| == 8
    ensures var free := FreeCount(slots, 0, MAX_ADDR);
            && |Added(slots, round, buffer)| == (if !round.error && round.answers && free > 0 then 1 else 0)
            && FreeCount(NextSlots(slots, round), 0, MAX_ADDR) == free - |Added(slots, round, buffer)|
            && (FirstFree(slots, 0) >= MAX_ADDR <==> free == 0)
  {
    if FirstFree(slots, 0) < MAX_ADDR {
      FreeCountTaken(slots, FirstFree(slots, 0), 0, MAX_ADDR);
    } else {
      NoneFreeExactly(slots, 0, MAX_ADDR);
    }
  }

  /** Each assignment uses up one free address; the procedure fails for want of one exactly when more devices answer
      than there were free addresses below 0x7F, and it serves as many as it can. */
  lemma {:induction false} AssignsWhatThereIs(slots: seq<Status>, rounds: seq<Round>, rx: Rx)
    requires |slots| == 128 && |rx.buffer| == 8 && InBounds(slots, rounds, rx.size)
    ensures var r, free := Assign(slots, rounds, rx), FreeCount(slots, 0, MAX_ADDR);
            && FreeCount(r.slots, 0, MAX_ADDR) == free - |r.devices|
            && (r.outcome == SlotInvalid <==> Answers(rounds) > free)
            && |r.devices| == if Answers(rounds) > free then free else Answers(rounds)
    decreases |rounds|
  {
    if rounds != [] {
      var round, buffer := rounds[0], Filled(rx, rounds[0].received).buffer;
      RoundUsesUp(slots, round, buffer);
      if Ends(slots, round) {
        assert Assign(slots, rounds, rx)
            == Result(NextSlots(slots, round), Added(slots, round, buffer), OutcomeOf(slots, round));
      } else {
        AssignsWhatThereIs(NextSlots(slots, round), rounds[1..], NextRx(rx, round));
        var rest := Assign(NextSlots(slots, round), rounds[1..], NextRx(rx, round));
        assert Assign(slots, rounds, rx) == rest.(devices := Added(slots, round, buffer) + rest.devices);
      }
    }
  }

  /** The records of a run, behind those of devices known before. */
  lemma RecordsOfRun(slots: seq<Status>, rounds: seq<Round>, rx: Rx, before: seq<Device>, after: seq<Device>, n: nat)
    requires |slots| == 128 && |rx.buffer| == 8 && InBounds(slots, rounds, rx.size) && rx.size == 0
    requires n == Polled(slots, rounds) && after == before + Assign(slots, rounds, rx).devices
    ensures OwnRecords(after, |before|, rounds, n)
  {
    AllRecordsOwnBytes(slots, rounds, rx);
    RecordsBehind(before, after, Assign(slots, rounds, rx).devices, rounds, n);
  }

  /** The slots of a new bus. */
  ghost predicate IsNew(slots: seq<Status>) {
    |slots| == 128 && forall a :: 0 <= a < 128 ==> slots[a] == if SetAside(a) then Reserved else Free
  }

  /** How many addresses from `lo` on a new bus leaves free. */
  ghost function Assignable(lo: nat): nat
    requires lo <= MAX_ADDR
  {
    if lo <= 8 then 108
    else if lo <= 0x3E then 116 - lo
    else if lo <= 0x5E then 117 - lo
    else if lo <= 0x6E then 118 - lo
    else if lo <= 0x76 then 119 - lo
    else if lo <= 0x78 then 120 - lo
    else 0
  }

  lemma {:induction false} NewBusCount(s: seq<Status>, lo: nat)
    requires IsNew(s) && lo <= MAX_ADDR
    ensures FreeCount(s, lo, MAX_ADDR) == Assignable(lo)
    decreases MAX_ADDR - lo
  {
    if lo < MAX_ADDR {
      NewBusCount(s, lo + 1);
    }
  }

  /** On a new bus the procedure serves up to 108 devices, and assigns no address that the bus sets aside. */
  lemma NewBusServes(s: seq<Status>, rounds: seq<Round>, rx: Rx)
    requires IsNew(s) && |rx.buffer| == 8 && InBounds(s, rounds, rx.size)
    ensures var r := Assign(s, rounds, rx);
            && (r.outcome == SlotInvalid <==> Answers(rounds) > 108)
            && |r.devices| == (if Answers(rounds) > 108 then 108 else Answers(rounds))
            && forall i :: 0 <= i < |r.devices| ==> !SetAside(r.devices[i].dynamicAddr)
  {
    assert FreeCount(s, 0, MAX_ADDR) == 108 by {
      NewBusCount(s, 0);
    }
    AssignsWhatThereIs(s, rounds, rx);
    var r := Assign(s, rounds, rx);
    forall i | 0 <= i < |r.devices|
      ensures !SetAside(r.devices[i].dynamicAddr)
    {
      AssignsFreeAddresses(s, rounds, rx);
      assert s[r.devices[i].dynamicAddr] == Free;
    }
  }
}
