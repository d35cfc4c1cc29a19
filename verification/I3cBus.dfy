// The I3C bus: its address slots, packed in words, and the devices on it.

module I3cBus {
  import opened BitWords
  import opened ByteMemory
  import opened I3cAssignment
  import opened I3cSlots
  import opened Sequences

  class Bus {
    const addrSlots: array<Word32>
    var devices: seq<Device>

    ghost predicate Valid()
    {
      addrSlots.Length == 8
    }

    /** The packed words as a table of 128 statuses. */
    ghost function Slots(): (s: seq<Status>)
      requires Valid()
      reads addrSlots
      ensures |s| == 128
    {
      SlotsOf(addrSlots[..])
    }

    /** I3C_BusCreate. */
    constructor ()
      ensures Valid() && fresh(addrSlots) && devices == [] && IsNew(Slots())
    {
      addrSlots := new Word32[8](_ => BitWords.Zeros(32));
      devices := [];
      new;
      assert forall a :: 0 <= a < 128 ==> Slots()[a] == Free;
      InitAddrSlots();
    }

    /** I3C_BusSetAddrSlot. */
    method SetAddrSlot(addr: nat, status: Status)
      requires Valid() && addr < 0x100
      modifies addrSlots
      ensures Slots() == if addr <= MAX_ADDR then old(Slots())[addr := status] else old(Slots())
    {
      var bitPos := addr * 2;
      if addr > MAX_ADDR {
        return;
      }
      var i := bitPos / 32;
      ghost var words := addrSlots[..];
      assert bitPos == 2 * addr;
      addrSlots[i] := And(addrSlots[i], Not(ShiftLeft(SLOT_MASK, bitPos % 32)));
      addrSlots[i] := Or(addrSlots[i], ShiftLeft(StatusWord(status), bitPos % 32));
      assert addrSlots[..] == words[i := WithSlot(words[i], bitPos % 32, status)];
      SetSlot(words, addr, status);
    }

    /** I3C_BusGetAddrSlotStatus. */
    method GetAddrSlotStatus(addr: nat) returns (status: Word32)
      requires Valid() && addr < 0x100
      ensures status == StatusWord(if addr > MAX_ADDR then Reserved else Slots()[addr])
      ensures forall k :: 0 <= k < 30 ==> !status[k]
      ensures addr <= MAX_ADDR ==>
                && (status[30] <==> Slots()[addr] == I2cDevice || Slots()[addr] == I3cDevice)
                && (status[31] <==> Slots()[addr] == Reserved || Slots()[addr] == I3cDevice)
    {
      var bitPos := addr * 2;
      if addr > MAX_ADDR {
        return StatusWord(Reserved);
      }
      var word := addrSlots[bitPos / 32];
      GetSlot(addrSlots[..], addr);
      status := And(ShiftRight(word, bitPos % 32), SLOT_MASK);
    }

    /** I3C_BusInitAddrSlots, on cleared slots. */
    method InitAddrSlots()
      requires Valid() && forall a :: 0 <= a < 128 ==> Slots()[a] == Free
      modifies addrSlots
      ensures IsNew(Slots())
    {
      for i := 0 to 8
        invariant forall a :: 0 <= a < 128 ==> Slots()[a] == if a < i then Reserved else Free
      {
        SetAddrSlot(i, Reserved);
      }
      Reserve([0x78, 0x79, 0x7B, 0x7D, 0x3E, 0x5E, 0x6E, 0x76, 0x7A, 0x7C, 0x7F, BROADCAST_ADDR]);
    }

    /** The calls of I3C_BusInitAddrSlots for single addresses. */
    method Reserve(addrs: seq<nat>)
      requires Valid() && forall a :: a in addrs ==> a <= MAX_ADDR
      modifies addrSlots
      ensures forall a :: 0 <= a < 128 ==> Slots()[a] == if a in addrs then Reserved else old(Slots())[a]
    {
      for i := 0 to |addrs|
        invariant forall a :: 0 <= a < 128 ==> Slots()[a] == if a in addrs[..i] then Reserved else old(Slots())[a]
      {
        assert addrs[i] in addrs;
        SetAddrSlot(addrs[i], Reserved);
        assert addrs[..i + 1] == addrs[..i] + [addrs[i]];
      }
      assert addrs[..|addrs|] == addrs;
    }

    /** I3C_BusGetValidAddrSlot. */
    method GetValidAddrSlot(startAddr: nat) returns (validAddr: nat)
      requires Valid() && startAddr < 0x100
      ensures validAddr == FirstFree(Slots(), startAddr)
    {
      validAddr := startAddr;
      while validAddr < MAX_ADDR
        invariant startAddr <= validAddr && (startAddr <= MAX_ADDR ==> validAddr <= MAX_ADDR)
        invariant FirstFree(Slots(), startAddr) == FirstFree(Slots(), validAddr)
        decreases MAX_ADDR - validAddr
      {
        var status := GetAddrSlotStatus(validAddr);
        StatusWordDistinct(Slots()[validAddr], Free);
        if status == StatusWord(Free) {
          return;
        }
        validAddr := validAddr + 1;
      }
    }

    /** I3C_BusAddI3CDev. */
    method AddI3cDevice(device: Device)
      requires Valid() && device.dynamicAddr < 0x100 && device.staticAddr < 0x100
      modifies this`devices, addrSlots
      ensures devices == old(devices) + [device]
      ensures forall a :: 0 <= a < 128 ==>
                Slots()[a] == if a == device.staticAddr && a != 0 then I2cDevice
                              else if a == device.dynamicAddr && a != 0 then I3cDevice
                              else old(Slots())[a]
      ensures device.staticAddr == 0 < device.dynamicAddr <= MAX_ADDR ==>
                Slots() == old(Slots())[device.dynamicAddr := I3cDevice]
    {
      devices := devices + [device];
      if device.dynamicAddr != 0 {
        SetAddrSlot(device.dynamicAddr, I3cDevice);
      }
      if device.staticAddr != 0 {
        SetAddrSlot(device.staticAddr, I2cDevice);
      }
    }

    /** The inner loop of I3C_MasterAdapterProcessDAA: the bytes of one round, behind those already there. */
    method Receive(rxBuffer: array<Byte>, rxSize: nat, received: seq<Byte>) returns (newSize: nat)
      requires rxBuffer.Length == 8 && rxSize + |received| <= 8
      modifies rxBuffer
      ensures Rx(rxBuffer[..], newSize) == Filled(Rx(old(rxBuffer[..]), rxSize), received)
      ensures newSize == rxSize + |received|
      ensures forall k :: 0 <= k < 8 ==>
                rxBuffer[k] == if rxSize <= k < newSize then received[k - rxSize] else old(rxBuffer[k])
    {
      newSize := rxSize;
      ghost var before := rxBuffer[..];
      for i := 0 to |received|
        invariant newSize == rxSize + i
        invariant forall k :: 0 <= k < 8 ==>
                    rxBuffer[k] == if rxSize <= k < rxSize + i then received[k - rxSize] else before[k]
      {
        rxBuffer[newSize] := received[i];
        newSize := newSize + 1;
      }
      ghost var filled := Filled(Rx(before, rxSize), received);
      assert rxBuffer[..] == filled.buffer by {
        forall k | 0 <= k < 8
          ensures rxBuffer[..][k] == filled.buffer[k]
        {
        }
      }
    }

    /** The part of I3C_MasterAdapterProcessDAA for a device that answers; address 0 is never free. */
    method AssignAddress(rxBuffer: array<Byte>, ghost buffer: seq<Byte>)
      returns (success: bool, ghost added: seq<Device>)
      requires Valid() && rxBuffer.Length == 8 && rxBuffer[..] == buffer && Slots()[0] != Free
      modifies this`devices, addrSlots
      ensures Slots()[0] != Free && devices == old(devices) + added
      ensures var a := FirstFree(old(Slots()), 0);
              && (success <==> a < MAX_ADDR)
              && Slots() == (if success then old(Slots())[a := I3cDevice] else old(Slots()))
              && added == if success then [DeviceFrom(buffer, a)] else []
      ensures |devices| == |old(devices)| + if success then 1 else 0
      ensures success ==>
                var d := devices[|old(devices)|];
                && d.dynamicAddr == FirstFree(old(Slots()), 0) && d.staticAddr == 0
                && 2 * d.vendorId + rxBuffer[1] as int % 2 == 0x100 * rxBuffer[0] as int + rxBuffer[1] as int
                && d.partNumber == Get32([rxBuffer[5], rxBuffer[4], rxBuffer[3], rxBuffer[2]], 0)
                && d.bcr == rxBuffer[6] as int && d.dcr == rxBuffer[7] as int
    {
      var validAddr := GetValidAddrSlot(0);
      success, added := validAddr < MAX_ADDR, [];
      if success {
        added := [DeviceFrom(buffer, validAddr)];
        DeviceMadeOf(buffer, validAddr);
        AddI3cDevice(DeviceFrom(rxBuffer[..], validAddr));
      }
    }

    /** One round of the outer loop of I3C_MasterAdapterProcessDAA. */
    method Poll(rxBuffer: array<Byte>, rxSize: nat, round: Round, ghost rx: Rx)
      returns (ended: bool, outcome: Outcome, newSize: nat, ghost added: seq<Device>)
      requires Valid() && rxBuffer.Length == 8 && rx == Rx(rxBuffer[..], rxSize) && rxSize + |round.received| <= 8
      requires Slots()[0] != Free
      modifies this`devices, addrSlots, rxBuffer
      ensures Slots()[0] != Free && Slots() == NextSlots(old(Slots()), round)
      ensures added == Added(old(Slots()), round, Filled(rx, round.received).buffer) && devices == old(devices) + added
      ensures ended == Ends(old(Slots()), round)
      ensures if ended then outcome == OutcomeOf(old(Slots()), round)
              else Rx(rxBuffer[..], newSize) == NextRx(rx, round)
      ensures round.error ==> ended && outcome == HardwareError
      ensures !round.error && round.answers && FirstFree(old(Slots()), 0) >= MAX_ADDR ==>
                ended && outcome == SlotInvalid
      ensures !round.error && (round.answers ==> FirstFree(old(Slots()), 0) < MAX_ADDR) ==>
                outcome == Success && (ended <==> round.complete)
    {
      ghost var s := Slots();
      added := [];
      newSize := Receive(rxBuffer, rxSize, round.received);
      ghost var buffer := Filled(rx, round.received).buffer;
      RoundCases(s, round, buffer);
      if round.error {
        return true, HardwareError, newSize, added;
      }
      if round.answers {
        newSize := 0;
        var success;
        success, added := AssignAddress(rxBuffer, buffer);
        if !success {
          return true, SlotInvalid, newSize, added;
        }
      }
      return round.complete, Success, newSize, added;
    }

    /** The outer loop of I3C_MasterAdapterProcessDAA, against the hardware's reports. */
    method PollRounds(rounds: seq<Round>) returns (outcome: Outcome)
      requires Valid() && InBounds(Slots(), rounds, 0) && Slots()[0] != Free
      modifies this`devices, addrSlots
      ensures var r := Assign(old(Slots()), rounds, Rx(seq(8, _ => 0xFF), 0));
              Slots() == r.slots && devices == old(devices) + r.devices && outcome == r.outcome
      ensures Slots()[0] != Free
    {
      var rxBuffer := new Byte[8](_ => 0xFF);
      var rxSize := 0;
      ghost var s: seq<Status>, found: seq<Device> := Slots(), [];
      ghost var rx0, rx := Rx(seq(8, _ => 0xFF), 0), Rx(rxBuffer[..], 0);
      assert rx0 == rx;
      ContinuesFirst(s, rounds, rx0);
      for j := 0 to |rounds|
        invariant Slots()[0] != Free && devices == old(devices) + found && rx == Rx(rxBuffer[..], rxSize)
        invariant Continues(s, rounds, rx0, j, Slots(), rx, found)
      {
        ContinuesNext(s, rounds, rx0, j, Slots(), rx, found);
        var ended, result, newSize, added := Poll(rxBuffer, rxSize, rounds[j], rx);
        AppendAssociative(old(devices), found, added);
        found := found + added;
        if ended {
          return result;
        }
        rxSize, rx := newSize, NextRx(rx, rounds[j]);
      }
      assert rounds[|rounds|..] == [] && found + [] == found;
      return Polling;
    }

    /** I3C_MasterAdapterProcessDAA, against the hardware's reports: how it ends, and that each record begins with the
        bytes that arrived since the answer before its own. */
    method ProcessDaa(rounds: seq<Round>) returns (outcome: Outcome)
      requires Valid() && InBounds(Slots(), rounds, 0) && Slots()[0] != Free
      modifies this`devices, addrSlots
      ensures var r := Assign(old(Slots()), rounds, Rx(seq(8, _ => 0xFF), 0));
              Slots() == r.slots && devices == old(devices) + r.devices && outcome == r.outcome
      ensures Slots()[0] != Free
      ensures var n := Polled(old(Slots()), rounds);
              && (forall j :: 0 <= j < n - 1 ==> !rounds[j].error && !rounds[j].complete)
              && (outcome == HardwareError <==> n > 0 && rounds[n - 1].error)
              && (outcome == Success <==>
                    n > 0 && !rounds[n - 1].error && rounds[n - 1].complete && outcome != SlotInvalid)
              && (outcome == SlotInvalid <==> Answers(rounds) > FreeCount(old(Slots()), 0, MAX_ADDR))
      ensures OwnRecords(devices, |old(devices)|, rounds, Polled(old(Slots()), rounds))
    {
      ghost var s, rx := Slots(), Rx(seq(8, _ => 0xFF), 0);
      ghost var before := devices;
      outcome := PollRounds(rounds);
      RecordsOfRun(s, rounds, rx, before, devices, Polled(s, rounds));
      OutcomeExactly(s, rounds, rx);
      AssignsWhatThereIs(s, rounds, rx);
    }
  }
}
