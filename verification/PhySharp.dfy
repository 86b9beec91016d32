/** One family of hardware on which the statements about PHY_DRV_Init are sharp:
    every frame needs the same number of polls, negotiation never completes, and
    Reset reads clear in answer to the frame numbers one chooses. */
module PhySharp {
  import opened Wrappers
  import opened Logs
  import opened Smi
  import opened PhyInit
  import opened PhyBringUp
  import opened PhyLink

  /** Polls since the last frame. */
  function SinceFrame(log: seq<Action>): nat {
    if |log| == 0 || IsFrame(log[|log| - 1]) then 0
    else SinceFrame(log[..|log| - 1]) + if IsPoll(log[|log| - 1]) then 1 else 0
  }

  predicate Reading(log: seq<Action>) {
    var f := LastFrame(log);
    f.Some? && f.value.ReadFrame?
  }

  function Sluggish(delay: nat, clear: nat -> bool): Hardware {
    Hardware(
      log => true,
      log => Reading(log) == (SinceFrame(log) >= delay),
      log => var f := LastFrame(log);
             if f.Some? && f.value.ReadFrame? && f.value.reg == SR then AUTO_NEG_ABLE
             else if clear(Count(log, IsFrame)) then 0
             else RESET)
  }

  lemma SinceSnoc(log: seq<Action>, a: Action)
    ensures SinceFrame(log + [a]) == if IsFrame(a) then 0 else SinceFrame(log) + if IsPoll(a) then 1 else 0
    ensures LastFrame(log + [a]) == if IsFrame(a) then Some(a) else LastFrame(log)
    ensures Count(log + [a], IsFrame) == Count(log, IsFrame) + if IsFrame(a) then 1 else 0
    ensures Count(log + [a], IsPoll) == Count(log, IsPoll) + if IsPoll(a) then 1 else 0
  {
    assert (log + [a])[..|log|] == log;
    Snoc(log, a, 0);
    CountSnoc(log, a, IsFrame);
    CountSnoc(log, a, IsPoll);
  }

  lemma {:induction false} SluggishPoll(delay: nat, clear: nat -> bool, log: seq<Action>, n: nat)
    requires SinceFrame(log) <= delay && n > delay - SinceFrame(log)
    ensures var p := PollFor(Sluggish(delay, clear), log, Reading(log), n);
            && p.0 > 0
            && LastFrame(p.1) == LastFrame(log)
            && Count(p.1, IsFrame) == Count(log, IsFrame)
            && Count(p.1, IsPoll) == Count(log, IsPoll) + delay - SinceFrame(log) + 1
    decreases n
  {
    var up := Sluggish(delay, clear).flag(log);
    SinceSnoc(log, Poll(up));
    if up != Reading(log) {
      SluggishPoll(delay, clear, log + [Poll(up)], n - 1);
    }
  }

  lemma AfterFrame(log: seq<Action>, frame: Action)
    requires IsFrame(frame)
    ensures var start := log + [CheckConfig(true), ClearFlag, frame];
            && SinceFrame(start) == 0 && LastFrame(start) == Some(frame)
            && Count(start, IsFrame) == Count(log, IsFrame) + 1 && Count(start, IsPoll) == Count(log, IsPoll)
  {
    Snoc3(log, CheckConfig(true), ClearFlag, frame);
    SinceSnoc(log, CheckConfig(true));
    SinceSnoc(log + [CheckConfig(true)], ClearFlag);
    SinceSnoc(log + [CheckConfig(true)] + [ClearFlag], frame);
  }

  /** One frame and delay+1 polls. */
  ghost predicate OneExchange(log: seq<Action>, log': seq<Action>, delay: nat) {
    && Count(log', IsFrame) == Count(log, IsFrame) + 1
    && Count(log', IsPoll) == Count(log, IsPoll) + delay + 1
  }

  lemma SluggishRead(delay: nat, clear: nat -> bool, log: seq<Action>, addr: nat, reg: nat, n: nat)
    requires n > delay
    ensures var r := ReadReply(Sluggish(delay, clear), log, addr, reg, n);
            && r.status == Success && OneExchange(log, r.log, delay)
            && r.data == (if reg == SR then AUTO_NEG_ABLE else if clear(Count(log, IsFrame) + 1) then 0 else RESET)
  {
    var hw := Sluggish(delay, clear);
    var start := log + [CheckConfig(true), ClearFlag, ReadFrame(addr, reg)];
    AfterFrame(log, ReadFrame(addr, reg));
    SluggishPoll(delay, clear, start, n);
    var p := PollFor(hw, start, true, n).1;
    var data := hw.data(p);
    Snoc3(p, Sample(data), ClearFlag, ClearFlag);
    SinceSnoc(p, Sample(data));
    SinceSnoc(p + [Sample(data)], ClearFlag);
  }

  lemma SluggishWrite(delay: nat, clear: nat -> bool, log: seq<Action>, addr: nat, reg: nat, data: Word, n: nat)
    requires n > delay
    ensures var r := WriteReply(Sluggish(delay, clear), log, addr, reg, data, n);
            r.status == Success && OneExchange(log, r.log, delay)
  {
    var start := log + [CheckConfig(true), ClearFlag, WriteFrame(addr, reg, data)];
    AfterFrame(log, WriteFrame(addr, reg, data));
    SluggishPoll(delay, clear, start, n);
    var p := PollFor(Sluggish(delay, clear), start, false, n).1;
    SinceSnoc(p, ClearFlag);
  }

  /** f frames and delay+1 polls for each. */
  ghost predicate Exchanges(log: seq<Action>, log': seq<Action>, f: nat, delay: nat) {
    && Count(log', IsFrame) == Count(log, IsFrame) + f
    && Count(log', IsPoll) == Count(log, IsPoll) + Times(f, delay + 1)
  }

  /** The reset loop ends at the first read, number c, that is answered clear. */
  lemma {:induction false} SluggishReset(delay: nat, clear: nat -> bool, log: seq<Action>, addr: nat, n: nat,
      counter: nat, c: nat)
    requires n > delay && 1 <= c <= counter
    requires clear(Count(log, IsFrame) + c)
    requires forall k: nat :: Count(log, IsFrame) < k < Count(log, IsFrame) + c ==> !clear(k)
    ensures var l := ResetLoop(Sluggish(delay, clear), log, addr, n, counter);
            && l.status == Success && l.data == 0 && l.counter == counter - c
            && Exchanges(log, l.log, c, delay)
    decreases counter
  {
    var r := ReadReply(Sluggish(delay, clear), log, addr, CR, n);
    SluggishRead(delay, clear, log, addr, CR, n);
    if c > 1 {
      SluggishReset(delay, clear, r.log, addr, n, counter - 1, c - 1);
    }
  }

  lemma {:induction false} SluggishNegotiation(delay: nat, clear: nat -> bool, log: seq<Action>, addr: nat, n: nat,
      left: nat)
    requires n > delay
    ensures Exchanges(log, NegotiationLoop(Sluggish(delay, clear), log, addr, n, left).0, left, delay)
    decreases left
  {
    if left > 0 {
      SluggishRead(delay, clear, log, addr, SR, n);
      SluggishNegotiation(delay, clear, ReadReply(Sluggish(delay, clear), log, addr, SR, n).log, addr, n, left - 1);
    }
  }

  /** Everything after the reset: n+4 frames with loopback. */
  lemma SluggishBringUp(delay: nat, clear: nat -> bool, log: seq<Action>, addr: nat, n: nat, control: Word,
      reset: seq<Txn>)
    requires n > delay
    ensures var r := BringUp(Sluggish(delay, clear), log, addr, true, n, control, reset);
            && r.status == Success && Exchanges(log, r.log, n + 4, delay)
            && |r.loopback| == 2 && r.loopback[1].status == Success
            && r.loopback[0].data == (if clear(Count(log, IsFrame) + n + 3) then 0 else RESET)
  {
    hide Count, ReadReply, WriteReply, NegotiationLoop;
    var hw := Sluggish(delay, clear);
    var s := ReadReply(hw, log, addr, SR, n);
    SluggishRead(delay, clear, log, addr, SR, n);
    var w := WriteReply(hw, s.log, addr, CR, SetBits(control, AUTO_NEG), n);
    SluggishWrite(delay, clear, s.log, addr, CR, SetBits(control, AUTO_NEG), n);
    var g := NegotiationLoop(hw, w.log, addr, n, n);
    SluggishNegotiation(delay, clear, w.log, addr, n, n);
    var c := ReadReply(hw, g.0, addr, CR, n);
    SluggishRead(delay, clear, g.0, addr, CR, n);
    SluggishWrite(delay, clear, c.log, addr, CR, SetBits(c.data, LOOP), n);
    TimesAdd(n, 4, delay + 1);
    TimesIsProduct(4, delay + 1);
  }

  /** The bound 2n+4 on frames, with n polls for each, is attained for every n of
      at least 2, by a run that succeeds. */
  lemma InitBoundIsTight(addr: nat, n: nat)
    requires n >= 2
    ensures exists hw ::
              var r := Init(hw, [], addr, true, n);
              && r.status == Success
              && Count(r.log, IsFrame) == 2 * n + 4
              && Count(r.log, IsPoll) == (2 * n + 4) * n
  {
    hide Count, ReadReply, WriteReply, ResetLoop, BringUp;
    var delay := n - 1;
    var clear: nat -> bool := f => f >= n;
    var hw := Sluggish(delay, clear);
    EmptyLog();
    var w := WriteReply(hw, [], addr, CR, RESET, n);
    SluggishWrite(delay, clear, [], addr, CR, RESET, n);
    SluggishReset(delay, clear, w.log, addr, n, n, n - 1);
    var l := ResetLoop(hw, w.log, addr, n, n);
    SluggishBringUp(delay, clear, l.log, addr, n, l.data, [Wrote(CR, RESET, w.status)] + l.trace);
    var r := Init(hw, [], addr, true, n);
    SumOfTimes(n);
    assert Count(r.log, IsPoll) == n + Times(n - 1, n) + Times(n + 4, n);
  }

  lemma EmptyLog()
    ensures Count([], IsFrame) == 0 && Count([], IsPoll) == 0
  {
  }

  lemma SumOfTimes(n: nat)
    requires n >= 1
    ensures n + Times(n - 1, n) + Times(n + 4, n) == (2 * n + 4) * n
  {
    TimesAdd(1, n - 1, n);
    TimesAdd(n, n + 4, n);
    TimesIsProduct(2 * n + 4, n);
    assert Times(1, n) == n;
  }

  /** The counter runs out even when the last allowed read sees Reset clear: for
      every n there is hardware for which Init then reports a timeout. */
  lemma LateClearIsATimeout(addr: nat, isLoopEnabled: bool, n: nat)
    requires n >= 1
    ensures exists hw ::
              var r := Init(hw, [], addr, isLoopEnabled, n);
              && r.status == SmiVisitTimeout && |r.reset| == n + 1
              && var last := r.reset[n]; last.Got? && last.status == Success && !HasReset(last.data)
  {
    hide Count, ReadReply, WriteReply, ResetLoop, BringUp;
    var clear: nat -> bool := f => f >= n + 1;
    var hw := Sluggish(0, clear);
    EmptyLog();
    var w := WriteReply(hw, [], addr, CR, RESET, n);
    SluggishWrite(0, clear, [], addr, CR, RESET, n);
    SluggishReset(0, clear, w.log, addr, n, n, n);
    ResetLoopShape(hw, w.log, addr, n, n);
    var r := Init(hw, [], addr, isLoopEnabled, n);
    assert r.reset[n] == Got(CR, 0, Success);
  }

  /** Without the assumption on the PHY a second frame can carry Reset. */
  lemma TwoResetFramesHappen(addr: nat, n: nat)
    requires n >= 2
    ensures exists hw ::
              var r := Init(hw, [], addr, true, n);
              r.status == Success && Count(r.log, CarriesReset) == 2
  {
    hide ReadReply, WriteReply, ResetLoop, BringUp;
    var clear: nat -> bool := f => f == 2;
    var hw := Sluggish(0, clear);
    var w := WriteReply(hw, [], addr, CR, RESET, n);
    SluggishWrite(0, clear, [], addr, CR, RESET, n);
    SluggishReset(0, clear, w.log, addr, n, n, 1);
    var l := ResetLoop(hw, w.log, addr, n, n);
    SluggishBringUp(0, clear, l.log, addr, n, l.data, [Wrote(CR, RESET, w.status)] + l.trace);
    ResetFrames(hw, [], addr, true, n);
    var r := Init(hw, [], addr, true, n);
    assert LoopbackResets(r);
  }

  lemma {:induction false} SluggishNeverCompletes(delay: nat, clear: nat -> bool, log: seq<Action>, addr: nat,
      n: nat, left: nat)
    requires n > delay
    ensures var g := NegotiationLoop(Sluggish(delay, clear), log, addr, n, left).1;
            |g| == left && forall i :: 0 <= i < |g| ==> g[i] == Got(SR, AUTO_NEG_ABLE, Success)
    decreases left
  {
    if left > 0 {
      SluggishRead(delay, clear, log, addr, SR, n);
      SluggishNeverCompletes(delay, clear, ReadReply(Sluggish(delay, clear), log, addr, SR, n).log, addr, n, left - 1);
    }
  }

  /** Negotiation can be started, be asked for n times, never complete, and Init still
      returns Success. */
  lemma FailedNegotiationIsSuccess(addr: nat, n: nat)
    requires n >= 2
    ensures exists hw ::
              var r := Init(hw, [], addr, false, n);
              && r.status == Success && |r.negotiation| == n + 1
              && r.negotiation[0].Wrote? && r.negotiation[0].status == Success
              && forall i :: 1 <= i <= n ==> !Completed(r.negotiation[i])
  {
    hide Count, ReadReply, WriteReply, ResetLoop, NegotiationLoop;
    var clear: nat -> bool := f => f >= 2;
    var hw := Sluggish(0, clear);
    EmptyLog();
    var w := WriteReply(hw, [], addr, CR, RESET, n);
    SluggishWrite(0, clear, [], addr, CR, RESET, n);
    SluggishReset(0, clear, w.log, addr, n, n, 1);
    var l := ResetLoop(hw, w.log, addr, n, n);
    var s := ReadReply(hw, l.log, addr, SR, n);
    SluggishRead(0, clear, l.log, addr, SR, n);
    var g := WriteReply(hw, s.log, addr, CR, SetBits(l.data, AUTO_NEG), n);
    SluggishWrite(0, clear, s.log, addr, CR, SetBits(l.data, AUTO_NEG), n);
    SluggishNeverCompletes(0, clear, g.log, addr, n, n);
    var r := Init(hw, [], addr, false, n);
    assert r.negotiation == [Wrote(CR, SetBits(l.data, AUTO_NEG), Success)] + NegotiationLoop(hw, g.log, addr, n, n).1;
  }

  /** The same hardware, but with the interface no longer configured after k frames. */
  function Unplugged(hw: Hardware, k: nat): Hardware {
    hw.(config := log => Count(log, IsFrame) < k)
  }

  lemma {:induction false} PollForUnplugged(hw: Hardware, k: nat, log: seq<Action>, want: bool, n: nat)
    ensures PollFor(Unplugged(hw, k), log, want, n) == PollFor(hw, log, want, n)
    decreases n
  {
    if n > 0 {
      PollForUnplugged(hw, k, log + [Poll(hw.flag(log))], want, n - 1);
    }
  }

  lemma ReadUnplugged(hw: Hardware, k: nat, log: seq<Action>, addr: nat, reg: nat, n: nat)
    requires hw.config(log)
    ensures Count(log, IsFrame) < k ==>
              ReadReply(Unplugged(hw, k), log, addr, reg, n) == ReadReply(hw, log, addr, reg, n)
    ensures Count(log, IsFrame) >= k ==> ReadReply(Unplugged(hw, k), log, addr, reg, n).status == SmiUninitialized
  {
    PollForUnplugged(hw, k, log + [CheckConfig(true), ClearFlag, ReadFrame(addr, reg)], true, n);
  }

  lemma WriteUnplugged(hw: Hardware, k: nat, log: seq<Action>, addr: nat, reg: nat, data: Word, n: nat)
    requires hw.config(log)
    ensures Count(log, IsFrame) < k ==>
              WriteReply(Unplugged(hw, k), log, addr, reg, data, n) == WriteReply(hw, log, addr, reg, data, n)
    ensures Count(log, IsFrame) >= k ==>
              var r := WriteReply(Unplugged(hw, k), log, addr, reg, data, n);
              r.status == SmiUninitialized && r.log == log + [CheckConfig(false)]
  {
    PollForUnplugged(hw, k, log + [CheckConfig(true), ClearFlag, WriteFrame(addr, reg, data)], false, n);
  }

  /** The interface can fail for good after the status read: the negotiation frame is
      refused, so is the re-read for loopback, and Init returns Success with neither
      negotiation nor loopback. */
  lemma FailedLoopbackIsSuccess(addr: nat, n: nat)
    requires n >= 2
    ensures exists hw ::
              var r := Init(hw, [], addr, true, n);
              && r.status == Success
              && |r.negotiation| == 1 && r.negotiation[0].status == SmiUninitialized
              && |r.loopback| == 1 && r.loopback[0].Got? && r.loopback[0].status == SmiUninitialized
  {
    hide Count, ReadReply, WriteReply, ResetLoop, Unplugged;
    var clear: nat -> bool := f => true;
    var full := Sluggish(0, clear);
    var hw := Unplugged(full, 3);
    EmptyLog();
    var w := WriteReply(full, [], addr, CR, RESET, n);
    SluggishWrite(0, clear, [], addr, CR, RESET, n);
    WriteUnplugged(full, 3, [], addr, CR, RESET, n);
    var c := ReadReply(full, w.log, addr, CR, n);
    SluggishRead(0, clear, w.log, addr, CR, n);
    ReadUnplugged(full, 3, w.log, addr, CR, n);
    OneReadReset(hw, w.log, addr, n, n);
    var s := ReadReply(full, c.log, addr, SR, n);
    SluggishRead(0, clear, c.log, addr, SR, n);
    ReadUnplugged(full, 3, c.log, addr, SR, n);
    WriteUnplugged(full, 3, s.log, addr, CR, SetBits(c.data, AUTO_NEG), n);
    var log := s.log + [CheckConfig(false)];
    CountSnoc(s.log, CheckConfig(false), IsFrame);
    ReadUnplugged(full, 3, log, addr, CR, n);
    var r := Init(hw, [], addr, true, n);
    assert r.status == Success;
  }

  lemma OneReadReset(hw: Hardware, log: seq<Action>, addr: nat, n: nat, counter: nat)
    requires counter > 0
    requires var r := ReadReply(hw, log, addr, CR, n); r.status == Success && !HasReset(r.data)
    ensures var r := ReadReply(hw, log, addr, CR, n);
            ResetLoop(hw, log, addr, n, counter)
            == LoopReply(Success, r.data, counter - 1, r.log, [Got(CR, r.data, Success)])
  {
  }

  /** On a PHY that stays in reset the link query returns Success and writes nothing. */
  lemma UnwrittenLinkHappens(addr: nat, n: nat)
    requires n >= 1
    ensures exists hw ::
              var r := LinkStatus(hw, [], addr, n);
              r.status == Success && r.link.None?
  {
    var clear: nat -> bool := f => false;
    var hw := Sluggish(0, clear);
    SluggishRead(0, clear, [], addr, CR, n);
    LinkUnwrittenIff(hw, [], addr, n);
    var r := LinkStatus(hw, [], addr, n);
    assert r.status == Success && r.link.None?;
  }

  ghost predicate NobodyAnswers(hw: Hardware, log: seq<Action>, n: nat) {
    forall a: nat :: !FirstToAnswer(hw, log, a, n)
  }

  /** A scan that finds nothing can still return Success: that of its last probe. */
  lemma EmptyScanCanSucceed(n: nat)
    requires n >= 1
    ensures exists hw ::
              && NobodyAnswers(hw, [], n) && Probe(hw, [], REG_ALL - 1, n).status == Success
  {
    var clear: nat -> bool := f => true;
    var hw := Sluggish(0, clear);
    forall a: nat
      ensures !FirstToAnswer(hw, [], a, n)
    {
      SluggishRead(0, clear, ProbeLog(hw, [], a, n), a, ID1, n);
    }
    SluggishRead(0, clear, ProbeLog(hw, [], REG_ALL - 1, n), REG_ALL - 1, ID1, n);
    assert NobodyAnswers(hw, [], n);
  }
}
