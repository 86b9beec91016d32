/** The driver as code: polling loops over an arbitrary piece of hardware, results
    through pointers, and the two global status words. */
module PhyDriver {
  import opened Smi
  import opened PhyInit
  import opened PhyLink

  /** What a C pointer argument points to. */
  class Cell<T> {
    var value: T

    constructor (value: T)
      ensures this.value == value
    {
      this.value := value;
    }
  }

  class Driver {
    const hw: Hardware
    const maxTimeout: nat
    var log: seq<Action>
    var oldPhyStatus: Word
    var newPhyStatus: Word

    constructor (hw: Hardware, maxTimeout: nat)
      ensures this.hw == hw && this.maxTimeout == maxTimeout && log == []
      ensures oldPhyStatus == 0 && newPhyStatus == 0
    {
      this.hw, this.maxTimeout := hw, maxTimeout;
      log, oldPhyStatus, newPhyStatus := [], 0, 0;
    }

    // The register accesses

    method SmiConfigured() returns (on: bool)
      modifies this`log
      ensures on == hw.config(old(log)) && log == old(log) + [CheckConfig(on)]
    {
      on := hw.config(log);
      log := log + [CheckConfig(on)];
    }

    method ClearMiiFlag()
      modifies this`log
      ensures log == old(log) + [ClearFlag]
    {
      log := log + [ClearFlag];
    }

    method GetMiiFlag() returns (up: bool)
      modifies this`log
      ensures up == hw.flag(old(log)) && log == old(log) + [Poll(up)]
    {
      up := hw.flag(log);
      log := log + [Poll(up)];
    }

    method GetSmiData() returns (data: Word)
      modifies this`log
      ensures data == hw.data(old(log)) && log == old(log) + [Sample(data)]
    {
      data := hw.data(log);
      log := log + [Sample(data)];
    }

    /** Both polling loops; they differ only in the value they wait for. */
    method AwaitMiiFlag(want: bool) returns (counter: nat)
      modifies this`log
      ensures (counter, log) == PollFor(hw, old(log), want, maxTimeout)
    {
      ghost var outcome := PollFor(hw, log, want, maxTimeout);
      counter := maxTimeout;
      while counter > 0
        invariant PollFor(hw, log, want, counter) == outcome
      {
        var up := GetMiiFlag();
        if up == want {
          break;
        }
        counter := counter - 1;
      }
    }

    /** PHY_DRV_Write */
    method Write(addr: nat, reg: nat, data: Word) returns (status: Status)
      modifies this`log
      ensures var r := WriteReply(hw, old(log), addr, reg, data, maxTimeout);
              status == r.status && log == r.log
    {
      ghost var start := log;
      var on := SmiConfigured();
      if !on {
        return SmiUninitialized;
      }
      ClearMiiFlag();
      log := log + [WriteFrame(addr, reg, data)];
      assert log == start + [CheckConfig(true), ClearFlag, WriteFrame(addr, reg, data)];
      var counter := AwaitMiiFlag(false);
      if counter == 0 {
        return SmiVisitTimeout;
      }
      ClearMiiFlag();
      return Success;
    }

    /** PHY_DRV_Read: any failure leaves the caller's word alone. */
    method Read(addr: nat, reg: nat, dataPtr: Cell?<Word>) returns (status: Status)
      modifies this`log, dataPtr
      ensures dataPtr == null ==> status == InvalidInput && log == old(log)
      ensures dataPtr != null ==>
                var r := ReadReply(hw, old(log), addr, reg, maxTimeout);
                && status == r.status && log == r.log
                && dataPtr.value == if status == Success then r.data else old(dataPtr.value)
    {
      if dataPtr == null {
        return InvalidInput;
      }
      ghost var start := log;
      var on := SmiConfigured();
      if !on {
        return SmiUninitialized;
      }
      ClearMiiFlag();
      log := log + [ReadFrame(addr, reg)];
      assert log == start + [CheckConfig(true), ClearFlag, ReadFrame(addr, reg)];
      var counter := AwaitMiiFlag(true);
      if counter == 0 {
        return SmiVisitTimeout;
      }
      ghost var polled := log;
      dataPtr.value := GetSmiData();
      ClearMiiFlag();
      assert log == polled + [Sample(dataPtr.value), ClearFlag];
      return Success;
    }

    /** PHY_DRV_Init */
    method Init(addr: nat, isLoopEnabled: bool) returns (status: Status)
      requires maxTimeout >= 1
      modifies this`log
      ensures var r := PhyInit.Init(hw, old(log), addr, isLoopEnabled, maxTimeout);
              status == r.status && log == r.log
    {
      hide ReadReply, WriteReply, ResetLoop, NegotiationLoop;
      var unset: Word := *;
      var data := new Cell<Word>(unset);
      unset := *;
      var dataStatus := new Cell<Word>(unset);

      status := Write(addr, CR, RESET);
      if status != Success {
        return;
      }
      status := AwaitReset(addr, data);
      if status != Success {
        return;
      }

      status := BringUp(addr, isLoopEnabled, data, dataStatus);
    }

    /** fsl_phy_driver.c, lines 190-222, after a reset that was seen to end. */
    method BringUp(addr: nat, isLoopEnabled: bool, data: Cell<Word>, dataStatus: Cell<Word>) returns (status: Status)
      requires data != dataStatus
      modifies this`log, data, dataStatus
      ensures var r := PhyInit.BringUp(hw, old(log), addr, isLoopEnabled, maxTimeout, old(data.value), []);
              status == r.status && log == r.log
    {
      hide ReadReply, WriteReply, NegotiationLoop, SetBits, HasBits;
      status := Read(addr, SR, dataStatus);
      if status != Success {
        return;
      }
      if NeedsNegotiation(dataStatus.value) {
        var written := Write(addr, CR, SetBits(data.value, AUTO_NEG));
        if written == Success {
          AwaitNegotiation(addr, dataStatus);
        }
      }

      if isLoopEnabled {
        var reread := Read(addr, CR, data);
        if reread == Success {
          status := Write(addr, CR, SetBits(data.value, LOOP));
        }
      }
    }

    /** fsl_phy_driver.c, lines 174-187: the status of the reset phase. */
    method AwaitReset(addr: nat, data: Cell<Word>) returns (status: Status)
      requires maxTimeout >= 1
      modifies this`log, data
      ensures var l := ResetLoop(hw, old(log), addr, maxTimeout, maxTimeout);
              && log == l.log
              && status == (if l.status == Success && l.counter == 0 then SmiVisitTimeout else l.status)
              && (status == Success ==> data.value == l.data)
    {
      ghost var l := ResetLoop(hw, log, addr, maxTimeout, maxTimeout);
      var counter := maxTimeout;
      while true
        invariant counter > 0
        invariant ResetLoop(hw, log, addr, maxTimeout, counter).(trace := l.trace) == l
        decreases counter
      {
        counter := counter - 1;
        status := Read(addr, CR, data);
        if status != Success {
          return;
        }
        if !(HasReset(data.value) && counter > 0) {
          break;
        }
      }
      if counter == 0 {
        return SmiVisitTimeout;
      }
    }

    /** fsl_phy_driver.c, lines 200-209. */
    method AwaitNegotiation(addr: nat, dataStatus: Cell<Word>)
      modifies this`log, dataStatus
      ensures log == NegotiationLoop(hw, old(log), addr, maxTimeout, maxTimeout).0
    {
      ghost var end := NegotiationLoop(hw, log, addr, maxTimeout, maxTimeout).0;
      var counter := 0;
      while counter < maxTimeout
        invariant counter <= maxTimeout
        invariant NegotiationLoop(hw, log, addr, maxTimeout, maxTimeout - counter).0 == end
      {
        var status := Read(addr, SR, dataStatus);
        if status == Success {
          if HasBits(dataStatus.value, AUTO_NEG_COMPLETE) {
            break;
          }
        }
        counter := counter + 1;
      }
    }

    /** PHY_DRV_Autodiscover: the smallest answering address is stored and nothing is
        probed after it; if there is none the caller's word stays, all addresses have
        been probed, and the status is that of the last probe, never a discovery
        failure. */
    method Autodiscover(phyAddr: Cell?<nat>) returns (status: Status)
      modifies this`log, phyAddr
      ensures phyAddr == null ==> status == InvalidInput && log == old(log)
      ensures phyAddr != null ==>
                forall a: nat :: FirstToAnswer(hw, old(log), a, maxTimeout) ==>
                  status == Success && phyAddr.value == a && log == Probe(hw, old(log), a, maxTimeout).log
      ensures phyAddr != null && (forall a: nat :: !FirstToAnswer(hw, old(log), a, maxTimeout)) ==>
                && phyAddr.value == old(phyAddr.value)
                && status == Probe(hw, old(log), REG_ALL - 1, maxTimeout).status
                && log == ProbeLog(hw, old(log), REG_ALL, maxTimeout)
      ensures status != AutoDiscoverFail
    {
      if phyAddr == null {
        return InvalidInput;
      }
      ghost var start := log;
      var unset: Word := *;
      var data := new Cell<Word>(unset);
      status := AutoDiscoverFail;
      for addrIdx := 0 to REG_ALL
        invariant log == ProbeLog(hw, start, addrIdx, maxTimeout)
        invariant forall b: nat :: b < addrIdx ==> !Answers(hw, start, b, maxTimeout)
        invariant phyAddr.value == old(phyAddr.value)
        invariant addrIdx > 0 ==> status == Probe(hw, start, addrIdx - 1, maxTimeout).status
      {
        status := Read(addrIdx, ID1, data);
        if status == Success && data.value != 0 && data.value != 0xffff {
          phyAddr.value := addrIdx;
          assert FirstToAnswer(hw, start, addrIdx, maxTimeout);
          return Success;
        }
      }
    }

    /** PHY_DRV_GetLinkSpeed */
    method GetLinkSpeed(addr: nat, speed: Cell?<Speed>) returns (status: Status)
      modifies this`log, speed
      ensures speed == null ==> status == InvalidInput && log == old(log)
      ensures speed != null ==>
                var r := LinkSpeed(hw, old(log), addr, maxTimeout);
                && status == r.status && log == r.log
                && speed.value == (if r.speed.Some? then r.speed.value else old(speed.value))
                && SpeedQueried(hw, old(log), addr, maxTimeout, r)
    {
      SpeedMeaning(hw, log, addr, maxTimeout);
      if speed == null {
        return InvalidInput;
      }
      var unset: Word := *;
      var data := new Cell<Word>(unset);
      status := Read(addr, CT1, data);
      if status == Success {
        data.value := data.value & SPEED_DUPLEX_MASK;
        if data.value == HALF_100 || data.value == FULL_100 {
          speed.value := Speed100M;
        } else {
          speed.value := Speed10M;
        }
      }
    }

    /** PHY_DRV_GetLinkStatus */
    method GetLinkStatus(addr: nat, link: Cell?<bool>) returns (status: Status)
      modifies this`log, link
      ensures link == null ==> status == InvalidInput && log == old(log)
      ensures link != null ==>
                var r := LinkStatus(hw, old(log), addr, maxTimeout);
                && status == r.status && log == r.log
                && link.value == (if r.link.Some? then r.link.value else old(link.value))
                && LinkQueried(hw, old(log), addr, maxTimeout, r)
    {
      LinkMeaning(hw, log, addr, maxTimeout);
      if link == null {
        return InvalidInput;
      }
      var unset: Word := *;
      var data := new Cell<Word>(unset);
      status := Read(addr, CR, data);
      if status == Success && !HasReset(data.value) {
        data.value := 0;
        status := Read(addr, SR, data);
        if status == Success {
          if !HasBits(data.value, LINK_STATUS) {
            link.value := false;
          } else {
            link.value := true;
          }
        }
      }
    }

    /** PHY_DRV_UpdateSpeed; `unwritten` is what its local variable happens to hold. */
    method UpdateSpeed(addr: nat, status: Cell?<Speed>, unwritten: bool) returns (changed: bool)
      modifies this, status
      ensures var o := Observe(hw, old(log), addr, status != null, unwritten, maxTimeout);
              && (Words(oldPhyStatus, newPhyStatus), changed)
                 == Update(Words(old(oldPhyStatus), old(newPhyStatus)), o.0)
              && log == o.1
              && Sampled(hw, old(log), Query(addr, status != null, unwritten), maxTimeout, o.0)
    {
      hide LinkSpeed, LinkStatus, SetBits, ClearBits, HasBits, Sampled, ReadReply, Observe, Recorded;
      ghost var q := Query(addr, status != null, unwritten);
      ObserveMeaning(hw, log, q, maxTimeout);
      RecordedTwice(hw, log, q, maxTimeout, newPhyStatus);
      RecordSpeed(addr, status);
      RecordLink(addr, unwritten);
      changed := StatusChanged();
    }

    /** fsl_phy_driver.c, lines 378-388. A successful speed query had a pointer to write to, so the
        branch that would clear the speed bit is never taken. */
    method RecordSpeed(addr: nat, status: Cell?<Speed>)
      modifies this`log, this`newPhyStatus, status
      ensures status == null ==> log == old(log) && newPhyStatus == old(newPhyStatus)
      ensures status != null ==>
                var r := LinkSpeed(hw, old(log), addr, maxTimeout);
                && log == r.log
                && newPhyStatus
                   == if r.status == Success then SetBits(old(newPhyStatus), LINK_SPEED) else old(newPhyStatus)
    {
      hide LinkSpeed, SetBits;
      var result := GetLinkSpeed(addr, status);
      if result == Success {
        if status != null {
          newPhyStatus := SetBits(newPhyStatus, LINK_SPEED);
        } else {
          assert false;
        }
      }
    }

    /** fsl_phy_driver.c, lines 389-399. */
    method RecordLink(addr: nat, unwritten: bool)
      modifies this`log, this`newPhyStatus
      ensures var r := LinkStatus(hw, old(log), addr, maxTimeout);
              var link := if r.link.Some? then r.link.value else unwritten;
              && log == r.log
              && newPhyStatus == (if r.status != Success then old(newPhyStatus)
                                  else if link then SetBits(old(newPhyStatus), LINK_ON)
                                  else ClearBits(old(newPhyStatus), LINK_ON))
    {
      hide LinkStatus, SetBits, ClearBits;
      var link := new Cell<bool>(unwritten);
      var result := GetLinkStatus(addr, link);
      if result == Success {
        if link.value {
          newPhyStatus := SetBits(newPhyStatus, LINK_ON);
        } else {
          newPhyStatus := ClearBits(newPhyStatus, LINK_ON);
        }
      }
    }

    /** fsl_phy_driver.c, lines 401-414. */
    method StatusChanged() returns (changed: bool)
      modifies this`oldPhyStatus
      ensures oldPhyStatus == newPhyStatus
      ensures changed == (newPhyStatus != old(oldPhyStatus) && HasBits(newPhyStatus, LINK_ON))
    {
      if newPhyStatus != oldPhyStatus {
        oldPhyStatus := newPhyStatus;
        if HasBits(newPhyStatus, LINK_ON) {
          return true;
        } else {
          return false;
        }
      }
      return false;
    }

    /** A caller that polls PHY_DRV_UpdateSpeed from the zero state on, with any
        arguments: it is told of as many changes as the link rose, plus one if the speed
        was first read while the link was on and stayed on. */
    method Monitor(qs: seq<Query>, status: Cell<Speed>) returns (trues: nat)
      requires oldPhyStatus == 0 && newPhyStatus == 0
      modifies this, status
      ensures var os := ObserveAll(hw, old(log), qs, maxTimeout).0;
              && log == ObserveAll(hw, old(log), qs, maxTimeout).1
              && trues == Rises(os) + (if SpeedArrivedLate(os) then 1 else 0)
              && oldPhyStatus == newPhyStatus == Encode(SpeedEverRead(os), LinkNow(os))
              && |os| == |qs|
              && forall k :: 0 <= k < |qs| ==>
                   Sampled(hw, ObserveAll(hw, old(log), qs[..k], maxTimeout).1, qs[k], maxTimeout, os[k])
    {
      hide Observe, Update, Trues, AfterCalls, Encode, Sampled;
      trues := 0;
      ghost var start := log;
      NoCalls();
      for k := 0 to |qs|
        invariant var r := ObserveAll(hw, start, qs[..k], maxTimeout);
                  && log == r.1 && trues == Trues(r.0)
                  && Words(oldPhyStatus, newPhyStatus) == AfterCalls(r.0)
      {
        ghost var os := ObserveAll(hw, start, qs[..k], maxTimeout).0;
        ghost var o := Observe(hw, log, qs[k].addr, qs[k].hasStatus, qs[k].unwritten, maxTimeout);
        assert qs[..k + 1][..k] == qs[..k];
        AfterOneMore(os, o.0);
        var changed := UpdateSpeed(qs[k].addr, if qs[k].hasStatus then status else null, qs[k].unwritten);
        if changed {
          trues := trues + 1;
        }
      }
      assert qs[..|qs|] == qs;
      ghost var os := ObserveAll(hw, start, qs, maxTimeout).0;
      TruesCountRises(os);
      WordsRecord(os);
      AllSampled(hw, start, qs, maxTimeout);
    }
  }
}
