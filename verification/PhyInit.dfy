/** PHY_DRV_Init: reset, wait for the reset to clear, auto-negotiation, loopback. */
module PhyInit {
  import opened Logs
  import opened Smi

  /** One register exchange as the driver saw it; `data` of a failed read is void. */
  datatype Txn = Wrote(reg: nat, data: Word, status: Status) | Got(reg: nat, data: Word, status: Status)

  datatype LoopReply = LoopReply(status: Status, data: Word, counter: nat, log: seq<Action>, trace: seq<Txn>)

  /** fsl_phy_driver.c, lines 174-182: read the control register until Reset is clear, a read fails,
      or the counter is used up. */
  function ResetLoop(hw: Hardware, log: seq<Action>, addr: nat, n: nat, counter: nat): LoopReply
    requires counter > 0
    decreases counter
  {
    var r := ReadReply(hw, log, addr, CR, n);
    var t := [Got(CR, r.data, r.status)];
    if r.status != Success then LoopReply(r.status, r.data, counter - 1, r.log, t)
    else if HasReset(r.data) && counter - 1 > 0 then
      var rest := ResetLoop(hw, r.log, addr, n, counter - 1);
      rest.(trace := t + rest.trace)
    else LoopReply(Success, r.data, counter - 1, r.log, t)
  }

  /** fsl_phy_driver.c, lines 200-209: read the status register until negotiation is complete, at
      most `left` times, ignoring reads that fail. */
  function NegotiationLoop(hw: Hardware, log: seq<Action>, addr: nat, n: nat, left: nat): (seq<Action>, seq<Txn>)
    decreases left
  {
    if left == 0 then (log, [])
    else
      var r := ReadReply(hw, log, addr, SR, n);
      var t := [Got(SR, r.data, r.status)];
      if r.status == Success && HasBits(r.data, AUTO_NEG_COMPLETE) then (r.log, t)
      else
        var rest := NegotiationLoop(hw, r.log, addr, n, left - 1);
        (rest.0, t + rest.1)
  }

  /** The outcome, with the exchanges of each of the four phases. */
  datatype InitReply = InitReply(
    status: Status, log: seq<Action>,
    reset: seq<Txn>, ability: seq<Txn>, negotiation: seq<Txn>, loopback: seq<Txn>)

  function Trace(r: InitReply): seq<Txn> {
    r.reset + r.ability + r.negotiation + r.loopback
  }

  lemma TraceSplit(r: InitReply)
    ensures Trace(r) == r.reset + (r.ability + r.negotiation + r.loopback)
  {
  }

  predicate NeedsNegotiation(status: Word) {
    HasBits(status, AUTO_NEG_ABLE) && !HasBits(status, AUTO_NEG_COMPLETE)
  }

  function Negotiate(hw: Hardware, log: seq<Action>, addr: nat, n: nat, control: Word): (seq<Action>, seq<Txn>) {
    var w := WriteReply(hw, log, addr, CR, SetBits(control, AUTO_NEG), n);
    var t := [Wrote(CR, SetBits(control, AUTO_NEG), w.status)];
    if w.status == Success then
      var l := NegotiationLoop(hw, w.log, addr, n, n);
      (l.0, t + l.1)
    else (w.log, t)
  }

  function EnableLoop(hw: Hardware, log: seq<Action>, addr: nat, n: nat): (Status, seq<Action>, seq<Txn>) {
    var r := ReadReply(hw, log, addr, CR, n);
    var t := [Got(CR, r.data, r.status)];
    if r.status == Success then
      var w := WriteReply(hw, r.log, addr, CR, SetBits(r.data, LOOP), n);
      (w.status, w.log, t + [Wrote(CR, SetBits(r.data, LOOP), w.status)])
    else (Success, r.log, t)
  }

  /** fsl_phy_driver.c, lines 190-222, after a reset that was seen to end with `control`. */
  function BringUp(hw: Hardware, log: seq<Action>, addr: nat, isLoopEnabled: bool, n: nat, control: Word,
      reset: seq<Txn>): InitReply
  {
    var s := ReadReply(hw, log, addr, SR, n);
    var ability := [Got(SR, s.data, s.status)];
    if s.status != Success then InitReply(s.status, s.log, reset, ability, [], [])
    else
      var neg := if NeedsNegotiation(s.data) then Negotiate(hw, s.log, addr, n, control) else (s.log, []);
      if isLoopEnabled then
        var e := EnableLoop(hw, neg.0, addr, n);
        InitReply(e.0, e.1, reset, ability, neg.1, e.2)
      else InitReply(Success, neg.0, reset, ability, neg.1, [])
  }

  /** fsl_phy_driver.c, lines 174-222, after the reset frame. */
  function AwaitReset(hw: Hardware, log: seq<Action>, addr: nat, isLoopEnabled: bool, n: nat, t: seq<Txn>): InitReply
    requires n >= 1
  {
    var l := ResetLoop(hw, log, addr, n, n);
    if l.status != Success then InitReply(l.status, l.log, t + l.trace, [], [], [])
    else if l.counter == 0 then InitReply(SmiVisitTimeout, l.log, t + l.trace, [], [], [])
    else BringUp(hw, l.log, addr, isLoopEnabled, n, l.data, t + l.trace)
  }

  function Init(hw: Hardware, log: seq<Action>, addr: nat, isLoopEnabled: bool, n: nat): InitReply
    requires n >= 1
  {
    var w := WriteReply(hw, log, addr, CR, RESET, n);
    var t := [Wrote(CR, RESET, w.status)];
    if w.status != Success then InitReply(w.status, w.log, t, [], [], [])
    else AwaitReset(hw, w.log, addr, isLoopEnabled, n, t)
  }

  // ---------------------------------------------------------------------
  // The recorded exchanges are the ones that took place
  // ---------------------------------------------------------------------

  function Exchange(hw: Hardware, log: seq<Action>, addr: nat, t: Txn, n: nat): Reply {
    match t
    case Wrote(reg, data, _) => WriteReply(hw, log, addr, reg, data, n)
    case Got(reg, _, _) => ReadReply(hw, log, addr, reg, n)
  }

  /** Performing the exchanges of tr in order, from log, ends at end with exactly
      the recorded statuses and values. */
  ghost predicate Genuine(hw: Hardware, log: seq<Action>, addr: nat, n: nat, tr: seq<Txn>, end: seq<Action>)
    decreases |tr|
  {
    if |tr| == 0 then end == log
    else
      var r := Exchange(hw, log, addr, tr[0], n);
      && r.status == tr[0].status
      && (tr[0].Got? ==> r.data == tr[0].data)
      && Genuine(hw, r.log, addr, n, tr[1..], end)
  }

  lemma {:induction false} GenuineConcat(hw: Hardware, a: seq<Action>, addr: nat, n: nat, tr: seq<Txn>,
      b: seq<Action>, tr': seq<Txn>, c: seq<Action>)
    requires Genuine(hw, a, addr, n, tr, b) && Genuine(hw, b, addr, n, tr', c)
    ensures Genuine(hw, a, addr, n, tr + tr', c)
    decreases |tr|
  {
    if |tr| == 0 {
      assert tr + tr' == tr';
    } else {
      assert (tr + tr')[1..] == tr[1..] + tr';
      GenuineConcat(hw, Exchange(hw, a, addr, tr[0], n).log, addr, n, tr[1..], b, tr', c);
    }
  }

  lemma {:induction false} ResetLoopGenuine(hw: Hardware, log: seq<Action>, addr: nat, n: nat, counter: nat)
    requires counter > 0
    ensures var l := ResetLoop(hw, log, addr, n, counter); Genuine(hw, log, addr, n, l.trace, l.log)
    decreases counter
  {
    var r := ReadReply(hw, log, addr, CR, n);
    var t := Got(CR, r.data, r.status);
    if r.status == Success && HasReset(r.data) && counter > 1 {
      ResetLoopGenuine(hw, r.log, addr, n, counter - 1);
      var rest := ResetLoop(hw, r.log, addr, n, counter - 1);
      GenuineConcat(hw, log, addr, n, [t], r.log, rest.trace, rest.log);
    }
  }

  lemma {:induction false} NegotiationLoopGenuine(hw: Hardware, log: seq<Action>, addr: nat, n: nat, left: nat)
    ensures var l := NegotiationLoop(hw, log, addr, n, left); Genuine(hw, log, addr, n, l.1, l.0)
    decreases left
  {
    if left > 0 {
      var r := ReadReply(hw, log, addr, SR, n);
      var t := Got(SR, r.data, r.status);
      NegotiationLoopGenuine(hw, r.log, addr, n, left - 1);
      var rest := NegotiationLoop(hw, r.log, addr, n, left - 1);
      GenuineConcat(hw, log, addr, n, [t], r.log, rest.1, rest.0);
    }
  }

  lemma NegotiateGenuine(hw: Hardware, log: seq<Action>, addr: nat, n: nat, control: Word)
    ensures var g := Negotiate(hw, log, addr, n, control); Genuine(hw, log, addr, n, g.1, g.0)
  {
    var w := WriteReply(hw, log, addr, CR, SetBits(control, AUTO_NEG), n);
    var t := Wrote(CR, SetBits(control, AUTO_NEG), w.status);
    NegotiationLoopGenuine(hw, w.log, addr, n, n);
    var l := NegotiationLoop(hw, w.log, addr, n, n);
    GenuineConcat(hw, log, addr, n, [t], w.log, l.1, l.0);
  }

  lemma BringUpGenuine(hw: Hardware, log: seq<Action>, addr: nat, isLoopEnabled: bool, n: nat, control: Word,
      reset: seq<Txn>)
    ensures var r := BringUp(hw, log, addr, isLoopEnabled, n, control, reset);
            Genuine(hw, log, addr, n, r.ability + r.negotiation + r.loopback, r.log)
  {
    var r := BringUp(hw, log, addr, isLoopEnabled, n, control, reset);
    var s := ReadReply(hw, log, addr, SR, n);
    if s.status != Success {
      assert r.ability + r.negotiation + r.loopback == r.ability;
    } else {
      var neg := if NeedsNegotiation(s.data) then Negotiate(hw, s.log, addr, n, control) else (s.log, []);
      NegotiateGenuine(hw, s.log, addr, n, control);
      GenuineConcat(hw, log, addr, n, r.ability, s.log, r.negotiation, neg.0);
      GenuineConcat(hw, log, addr, n, r.ability + r.negotiation, neg.0, r.loopback, r.log);
    }
  }

  lemma AwaitResetGenuine(hw: Hardware, log: seq<Action>, addr: nat, isLoopEnabled: bool, n: nat, start: seq<Action>,
      t: seq<Txn>)
    requires n >= 1 && Genuine(hw, start, addr, n, t, log)
    ensures var r := AwaitReset(hw, log, addr, isLoopEnabled, n, t);
            Genuine(hw, start, addr, n, Trace(r), r.log)
  {
    hide ResetLoop, ReadReply, WriteReply;
    var r := AwaitReset(hw, log, addr, isLoopEnabled, n, t);
    var l := ResetLoop(hw, log, addr, n, n);
    ResetLoopGenuine(hw, log, addr, n, n);
    GenuineConcat(hw, start, addr, n, t, log, l.trace, l.log);
    if l.status != Success || l.counter == 0 {
      assert Trace(r) == t + l.trace;
    } else {
      var tail := r.ability + r.negotiation + r.loopback;
      BringUpGenuine(hw, l.log, addr, isLoopEnabled, n, l.data, t + l.trace);
      GenuineConcat(hw, start, addr, n, t + l.trace, l.log, tail, r.log);
      TraceSplit(r);
    }
  }

  /** The exchanges that Init records are the ones that took place. */
  lemma InitGenuine(hw: Hardware, log: seq<Action>, addr: nat, isLoopEnabled: bool, n: nat)
    requires n >= 1
    ensures var r := Init(hw, log, addr, isLoopEnabled, n);
            Genuine(hw, log, addr, n, Trace(r), r.log)
  {
    var r := Init(hw, log, addr, isLoopEnabled, n);
    var w := WriteReply(hw, log, addr, CR, RESET, n);
    var t := Wrote(CR, RESET, w.status);
    if w.status != Success {
      assert Trace(r) == [t];
    } else {
      AwaitResetGenuine(hw, w.log, addr, isLoopEnabled, n, log, [t]);
    }
  }

  // ---------------------------------------------------------------------
  // Termination bounds
  // ---------------------------------------------------------------------

  lemma {:induction false} ResetLoopCost(hw: Hardware, log: seq<Action>, addr: nat, n: nat, counter: nat)
    requires counter > 0
    ensures var l := ResetLoop(hw, log, addr, n, counter);
            l.counter < counter && Costs(log, l.log, counter - l.counter, n)
    decreases counter
  {
    hide Costs;
    var r := ReadReply(hw, log, addr, CR, n);
    ReadCost(hw, log, addr, CR, n);
    if r.status == Success && HasReset(r.data) && counter > 1 {
      ResetLoopCost(hw, r.log, addr, n, counter - 1);
      var rest := ResetLoop(hw, r.log, addr, n, counter - 1);
      var used := counter - 1 - rest.counter;
      CostsAdd(log, r.log, rest.log, 1, used, n);
      assert 1 + used == counter - rest.counter;
    }
  }

  lemma {:induction false} NegotiationLoopCost(hw: Hardware, log: seq<Action>, addr: nat, n: nat, left: nat)
    ensures Costs(log, NegotiationLoop(hw, log, addr, n, left).0, left, n)
    decreases left
  {
    if left > 0 {
      var r := ReadReply(hw, log, addr, SR, n);
      ReadCost(hw, log, addr, SR, n);
      if r.status == Success && HasBits(r.data, AUTO_NEG_COMPLETE) {
        CostsWeaken(log, r.log, 1, left, n);
      } else {
        NegotiationLoopCost(hw, r.log, addr, n, left - 1);
        CostsAdd(log, r.log, NegotiationLoop(hw, r.log, addr, n, left - 1).0, 1, left - 1, n);
      }
    }
  }

  lemma NegotiateCost(hw: Hardware, log: seq<Action>, addr: nat, n: nat, control: Word)
    ensures Costs(log, Negotiate(hw, log, addr, n, control).0, n + 1, n)
  {
    var w := WriteReply(hw, log, addr, CR, SetBits(control, AUTO_NEG), n);
    WriteCost(hw, log, addr, CR, SetBits(control, AUTO_NEG), n);
    if w.status == Success {
      NegotiationLoopCost(hw, w.log, addr, n, n);
      CostsAdd(log, w.log, Negotiate(hw, log, addr, n, control).0, 1, n, n);
    } else {
      CostsWeaken(log, w.log, 1, n + 1, n);
    }
  }

  lemma EnableLoopCost(hw: Hardware, log: seq<Action>, addr: nat, n: nat)
    ensures Costs(log, EnableLoop(hw, log, addr, n).1, 2, n)
  {
    var r := ReadReply(hw, log, addr, CR, n);
    ReadCost(hw, log, addr, CR, n);
    if r.status == Success {
      WriteCost(hw, r.log, addr, CR, SetBits(r.data, LOOP), n);
      CostsAdd(log, r.log, EnableLoop(hw, log, addr, n).1, 1, 1, n);
    } else {
      CostsWeaken(log, r.log, 1, 2, n);
    }
  }

  lemma LoopbackCost(hw: Hardware, log: seq<Action>, mid: seq<Action>, addr: nat, n: nat)
    requires Costs(log, mid, n + 2, n)
    ensures Costs(log, mid, n + 4, n) && Costs(log, EnableLoop(hw, mid, addr, n).1, n + 4, n)
  {
    CostsWeaken(log, mid, n + 2, n + 4, n);
    EnableLoopCost(hw, mid, addr, n);
    CostsAdd(log, mid, EnableLoop(hw, mid, addr, n).1, n + 2, 2, n);
  }

  lemma BringUpCost(hw: Hardware, log: seq<Action>, addr: nat, isLoopEnabled: bool, n: nat, control: Word,
      reset: seq<Txn>)
    ensures Costs(log, BringUp(hw, log, addr, isLoopEnabled, n, control, reset).log, n + 4, n)
  {
    var s := ReadReply(hw, log, addr, SR, n);
    ReadCost(hw, log, addr, SR, n);
    CostsWeaken(log, s.log, 1, n + 2, n);
    CostsWeaken(log, s.log, 1, n + 4, n);
    if s.status == Success {
      NegotiateCost(hw, s.log, addr, n, control);
      CostsAdd(log, s.log, Negotiate(hw, s.log, addr, n, control).0, 1, n + 1, n);
      var neg := if NeedsNegotiation(s.data) then Negotiate(hw, s.log, addr, n, control) else (s.log, []);
      LoopbackCost(hw, log, neg.0, addr, n);
    }
  }

  lemma AwaitResetCost(hw: Hardware, log: seq<Action>, addr: nat, isLoopEnabled: bool, n: nat, t: seq<Txn>)
    requires n >= 1
    ensures Costs(log, AwaitReset(hw, log, addr, isLoopEnabled, n, t).log, 2 * n + 3, n)
  {
    hide Costs;
    var r := AwaitReset(hw, log, addr, isLoopEnabled, n, t);
    var l := ResetLoop(hw, log, addr, n, n);
    var used := n - l.counter;
    ResetLoopCost(hw, log, addr, n, n);
    if l.status != Success || l.counter == 0 {
      CostsWeaken(log, l.log, used, 2 * n + 3, n);
    } else {
      CostsWeaken(log, l.log, used, n - 1, n);
      BringUpCost(hw, l.log, addr, isLoopEnabled, n, l.data, t + l.trace);
      CostsAdd(log, l.log, r.log, n - 1, n + 4, n);
      assert n - 1 + (n + 4) == 2 * n + 3;
    }
  }

  lemma InitCost(hw: Hardware, log: seq<Action>, addr: nat, isLoopEnabled: bool, n: nat)
    requires n >= 1
    ensures Costs(log, Init(hw, log, addr, isLoopEnabled, n).log, 2 * n + 4, n)
  {
    hide Costs;
    var w := WriteReply(hw, log, addr, CR, RESET, n);
    var t := [Wrote(CR, RESET, w.status)];
    WriteCost(hw, log, addr, CR, RESET, n);
    CostsWeaken(log, w.log, 1, 2 * n + 4, n);
    AwaitResetCost(hw, w.log, addr, isLoopEnabled, n, t);
    CostsAdd(log, w.log, AwaitReset(hw, w.log, addr, isLoopEnabled, n, t).log, 1, 2 * n + 3, n);
  }

  /** Whatever the hardware does, PHY_DRV_Init returns after at most 2n+4 frames
      and n(2n+4) polls. */
  lemma InitBound(hw: Hardware, log: seq<Action>, addr: nat, isLoopEnabled: bool, n: nat)
    requires n >= 1
    ensures var end := Init(hw, log, addr, isLoopEnabled, n).log;
            && Count(end, IsFrame) <= Count(log, IsFrame) + 2 * n + 4
            && Count(end, IsPoll) <= Count(log, IsPoll) + (2 * n + 4) * n
  {
    hide Times, Count, Init;
    InitCost(hw, log, addr, isLoopEnabled, n);
    TimesIsProduct(2 * n + 4, n);
  }
}
