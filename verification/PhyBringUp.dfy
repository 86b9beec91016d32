/** What PHY_DRV_Init guarantees, stated on the exchanges it made, and the
    hardware on which the guarantees are sharp. */
module PhyBringUp {
  import opened Wrappers
  import opened Logs
  import opened Smi
  import opened PhyInit

  // ---------------------------------------------------------------------
  // The shape of each phase
  // ---------------------------------------------------------------------

  /** Control reads that succeed with Reset still set, except perhaps the last. */
  ghost predicate Waiting(gets: seq<Txn>) {
    && (forall i :: 0 <= i < |gets| ==> gets[i].Got? && gets[i].reg == CR)
    && (forall i :: 0 <= i < |gets| - 1 ==> gets[i].status == Success && BitSet(gets[i].data, 15))
  }

  lemma {:induction false} ResetLoopShape(hw: Hardware, log: seq<Action>, addr: nat, n: nat, counter: nat)
    requires counter > 0
    ensures var l := ResetLoop(hw, log, addr, n, counter);
            && |l.trace| == counter - l.counter && l.counter < counter
            && Waiting(l.trace)
            && l.trace[|l.trace| - 1] == Got(CR, l.data, l.status)
            && (l.status == Success ==> l.counter == 0 || !HasReset(l.data))
    decreases counter
  {
    var r := ReadReply(hw, log, addr, CR, n);
    if r.status == Success && HasReset(r.data) && counter > 1 {
      ResetLoopShape(hw, r.log, addr, n, counter - 1);
    }
  }

  /** Status reads none of which shows completion, except perhaps the last; fewer
      than `left` of them only if the last one does. */
  ghost predicate Negotiating(gets: seq<Txn>, left: nat) {
    && (forall i :: 0 <= i < |gets| ==> gets[i].Got? && gets[i].reg == SR)
    && (forall i :: 0 <= i < |gets| - 1 ==> !Completed(gets[i]))
    && |gets| <= left
    && (|gets| < left ==> |gets| > 0 && Completed(gets[|gets| - 1]))
  }

  predicate Completed(t: Txn) {
    t.Got? && t.status == Success && BitSet(t.data, 5)
  }

  lemma {:induction false} NegotiationLoopShape(hw: Hardware, log: seq<Action>, addr: nat, n: nat, left: nat)
    ensures Negotiating(NegotiationLoop(hw, log, addr, n, left).1, left)
    decreases left
  {
    if left > 0 {
      NegotiationLoopShape(hw, ReadReply(hw, log, addr, SR, n).log, addr, n, left - 1);
    }
  }

  /** The reset phase is over: at most n-1 control reads, the last one clear. */
  predicate ResetSeenToEnd(reset: seq<Txn>, n: nat) {
    && 2 <= |reset| <= n
    && var last := reset[|reset| - 1];
       last.Got? && last.reg == CR && last.status == Success && !BitSet(last.data, 15)
  }

  lemma InitResetPhase(hw: Hardware, log: seq<Action>, addr: nat, isLoopEnabled: bool, n: nat)
    requires n >= 1
    ensures var r := Init(hw, log, addr, isLoopEnabled, n);
            && 1 <= |r.reset| <= n + 1
            && r.reset[0].Wrote? && r.reset[0].reg == CR && r.reset[0].data == 1 << 15
            && (|r.reset| > 1 <==> r.reset[0].status == Success)
            && Waiting(r.reset[1..])
            && (r.ability != [] <==> ResetSeenToEnd(r.reset, n))
            && (r.ability == [] ==>
                  var last := r.reset[|r.reset| - 1];
                  r.status == if last.status != Success then last.status else SmiVisitTimeout)
  {
    hide Costs, Genuine, BringUp;
    var w := WriteReply(hw, log, addr, CR, RESET, n);
    if w.status == Success {
      var t := [Wrote(CR, RESET, w.status)];
      var l := ResetLoop(hw, w.log, addr, n, n);
      ResetLoopShape(hw, w.log, addr, n, n);
      assert (t + l.trace)[1..] == l.trace;
      assert (t + l.trace)[|t + l.trace| - 1] == l.trace[|l.trace| - 1];
      BringUpShape(hw, l.log, addr, isLoopEnabled, n, l.data, t + l.trace);
    }
  }

  /** What follows the reset. Negotiation is attempted exactly when the status word has bit 3
      (able) set and bit 5 (complete) clear; its frame is the control word read last plus
      bit 12; neither its outcome nor a failing re-read for loopback shows in the returned
      status. */
  ghost predicate BroughtUp(r: InitReply, isLoopEnabled: bool, n: nat, control: Word) {
    && |r.ability| == 1 && r.ability[0].Got? && r.ability[0].reg == SR
    && var s := r.ability[0];
    && (r.negotiation != [] <==> s.status == Success && BitSet(s.data, 3) && !BitSet(s.data, 5))
    && (r.negotiation != [] ==>
          var w := r.negotiation[0];
          && w.Wrote? && w.reg == CR && Adds(w.data, control, 12)
          && (|r.negotiation| > 1 ==> w.status == Success)
          && (w.status == Success ==> Negotiating(r.negotiation[1..], n)))
    && (r.loopback != [] <==> s.status == Success && isLoopEnabled)
    && (r.loopback != [] ==>
          var c := r.loopback[0];
          && c.Got? && c.reg == CR
          && |r.loopback| == (if c.status == Success then 2 else 1)
          && (c.status == Success ==>
                r.loopback[1].Wrote? && r.loopback[1].reg == CR && Adds(r.loopback[1].data, c.data, 14)))
    && r.status == (if s.status != Success then s.status
                    else if |r.loopback| == 2 then r.loopback[1].status
                    else Success)
  }

  lemma NegotiateShape(hw: Hardware, log: seq<Action>, addr: nat, n: nat, control: Word)
    ensures var g := Negotiate(hw, log, addr, n, control).1;
            && |g| > 0 && g[0].Wrote? && g[0].reg == CR && Adds(g[0].data, control, 12)
            && (|g| > 1 ==> g[0].status == Success)
            && (g[0].status == Success ==> Negotiating(g[1..], n))
  {
    var w := WriteReply(hw, log, addr, CR, SetBits(control, AUTO_NEG), n);
    var l := NegotiationLoop(hw, w.log, addr, n, n).1;
    NegotiationLoopShape(hw, w.log, addr, n, n);
    assert ([Wrote(CR, SetBits(control, AUTO_NEG), w.status)] + l)[1..] == l;
  }

  lemma EnableLoopShape(hw: Hardware, log: seq<Action>, addr: nat, n: nat)
    ensures var (status, _, l) := EnableLoop(hw, log, addr, n);
            && |l| > 0 && l[0].Got? && l[0].reg == CR
            && |l| == (if l[0].status == Success then 2 else 1)
            && (l[0].status == Success ==> l[1].Wrote? && l[1].reg == CR && Adds(l[1].data, l[0].data, 14))
            && status == if |l| == 2 then l[1].status else Success
  {
    hide ReadReply, WriteReply;
  }

  lemma BringUpShape(hw: Hardware, log: seq<Action>, addr: nat, isLoopEnabled: bool, n: nat, control: Word,
      reset: seq<Txn>)
    ensures var r := BringUp(hw, log, addr, isLoopEnabled, n, control, reset);
            BroughtUp(r, isLoopEnabled, n, control) && r.reset == reset
  {
    hide ReadReply, WriteReply, Negotiate, EnableLoop, Negotiating, BitSet, HasBits, Adds;
    var s := ReadReply(hw, log, addr, SR, n);
    RegisterBits(s.data);
    NegotiateShape(hw, s.log, addr, n, control);
    EnableLoopShape(hw, s.log, addr, n);
    EnableLoopShape(hw, Negotiate(hw, s.log, addr, n, control).0, addr, n);
  }

  lemma InitAfterReset(hw: Hardware, log: seq<Action>, addr: nat, isLoopEnabled: bool, n: nat)
    requires n >= 1
    ensures var r := Init(hw, log, addr, isLoopEnabled, n);
            ResetSeenToEnd(r.reset, n) ==> BroughtUp(r, isLoopEnabled, n, r.reset[|r.reset| - 1].data)
  {
    hide Costs, Genuine, BringUp, BroughtUp;
    var w := WriteReply(hw, log, addr, CR, RESET, n);
    if w.status == Success {
      var t := [Wrote(CR, RESET, w.status)];
      var l := ResetLoop(hw, w.log, addr, n, n);
      ResetLoopShape(hw, w.log, addr, n, n);
      assert (t + l.trace)[|t + l.trace| - 1] == l.trace[|l.trace| - 1];
      BringUpShape(hw, l.log, addr, isLoopEnabled, n, l.data, t + l.trace);
    }
  }

  /** PHY_DRV_Init returns Success exactly when the reset frame went out, one of
      the first n-1 control reads saw Reset clear with all exchanges before it
      fine, the status read worked, and no loopback frame failed. */
  lemma InitSucceedsIff(hw: Hardware, log: seq<Action>, addr: nat, isLoopEnabled: bool, n: nat)
    requires n >= 1
    ensures var r := Init(hw, log, addr, isLoopEnabled, n);
            r.status == Success <==>
              && ResetSeenToEnd(r.reset, n)
              && |r.ability| == 1 && r.ability[0].status == Success
              && (|r.loopback| == 2 ==> r.loopback[1].status == Success)
  {
    InitResetPhase(hw, log, addr, isLoopEnabled, n);
    InitAfterReset(hw, log, addr, isLoopEnabled, n);
  }

  /** A negotiation frame follows exactly if the reset was seen to end and the status word
      sampled then has bit 3 set and bit 5 clear; it carries the value of the control read
      that saw Reset clear, with bit 12 added and Reset still clear. */
  lemma NegotiationFrame(hw: Hardware, log: seq<Action>, addr: nat, isLoopEnabled: bool, n: nat)
    requires n >= 1
    ensures var r := Init(hw, log, addr, isLoopEnabled, n);
            && (r.negotiation != [] <==>
                  && ResetSeenToEnd(r.reset, n) && |r.ability| == 1 && r.ability[0].status == Success
                  && BitSet(r.ability[0].data, 3) && !BitSet(r.ability[0].data, 5))
            && (r.negotiation != [] ==>
                  && r.negotiation[0].Wrote? && r.negotiation[0].reg == CR
                  && Adds(r.negotiation[0].data, r.reset[|r.reset| - 1].data, 12)
                  && !BitSet(r.negotiation[0].data, 15))
  {
    var r := Init(hw, log, addr, isLoopEnabled, n);
    InitResetPhase(hw, log, addr, isLoopEnabled, n);
    InitAfterReset(hw, log, addr, isLoopEnabled, n);
    NoNegotiationBeforeReset(hw, log, addr, isLoopEnabled, n);
    if r.negotiation != [] {
      AddsNoReset(r.negotiation[0].data, r.reset[|r.reset| - 1].data);
    }
  }

  lemma AddsNoReset(new': Word, old': Word)
    requires Adds(new', old', 12)
    ensures BitSet(new', 15) == BitSet(old', 15)
  {
  }

  lemma NoNegotiationBeforeReset(hw: Hardware, log: seq<Action>, addr: nat, isLoopEnabled: bool, n: nat)
    requires n >= 1
    ensures var r := Init(hw, log, addr, isLoopEnabled, n);
            r.ability == [] ==> r.negotiation == [] && r.loopback == []
  {
    hide Costs, Genuine, ResetLoop;
  }

  // ---------------------------------------------------------------------
  // How many frames carry Reset
  // ---------------------------------------------------------------------

  predicate CarriesReset(a: Action) {
    a.WriteFrame? && a.reg == CR && HasReset(a.data)
  }

  /** The last frame issued. */
  function LastFrame(log: seq<Action>): Option<Action> {
    if |log| == 0 then None
    else if IsFrame(log[|log| - 1]) then Some(log[|log| - 1])
    else LastFrame(log[..|log| - 1])
  }

  /** Since the last frame that carried Reset, a control read of this PHY has
      sampled Reset clear. */
  function SeenClear(log: seq<Action>, addr: nat): bool {
    if |log| == 0 then false
    else
      var before, a := log[..|log| - 1], log[|log| - 1];
      if CarriesReset(a) then false
      else SeenClear(before, addr)
           || (a.Sample? && !HasReset(a.data) && LastFrame(before) == Some(ReadFrame(addr, CR)))
  }

  /** Synchronous hardware whose Reset bit, once read clear, stays clear until it
      is written again. */
  ghost predicate KeepsResetClear(hw: Hardware, addr: nat) {
    forall log :: LastFrame(log) == Some(ReadFrame(addr, CR)) && SeenClear(log, addr) ==> !HasReset(hw.data(log))
  }

  lemma Snoc(log: seq<Action>, a: Action, addr: nat)
    ensures LastFrame(log + [a]) == if IsFrame(a) then Some(a) else LastFrame(log)
    ensures SeenClear(log + [a], addr) ==
            (!CarriesReset(a) && (SeenClear(log, addr)
              || (a.Sample? && !HasReset(a.data) && LastFrame(log) == Some(ReadFrame(addr, CR)))))
    ensures Count(log + [a], CarriesReset) == Count(log, CarriesReset) + if CarriesReset(a) then 1 else 0
  {
    assert (log + [a])[..|log|] == log;
    CountSnoc(log, a, CarriesReset);
  }

  lemma Snoc3(log: seq<Action>, a: Action, b: Action, c: Action)
    ensures log + [a, b, c] == log + [a] + [b] + [c] && log + [a, b] == log + [a] + [b]
  {
  }

  lemma {:induction false} PollForKeeps(hw: Hardware, log: seq<Action>, want: bool, n: nat, addr: nat)
    ensures var p := PollFor(hw, log, want, n).1;
            && LastFrame(p) == LastFrame(log) && SeenClear(p, addr) == SeenClear(log, addr)
            && Count(p, CarriesReset) == Count(log, CarriesReset)
    decreases n
  {
    if n > 0 {
      Snoc(log, Poll(hw.flag(log)), addr);
      if hw.flag(log) != want {
        PollForKeeps(hw, log + [Poll(hw.flag(log))], want, n - 1, addr);
      }
    }
  }

  lemma ReadEffect(hw: Hardware, log: seq<Action>, addr: nat, reg: nat, n: nat)
    ensures var r := ReadReply(hw, log, addr, reg, n);
            && Count(r.log, CarriesReset) == Count(log, CarriesReset)
            && SeenClear(r.log, addr)
               == (SeenClear(log, addr) || (r.status == Success && reg == CR && !HasReset(r.data)))
            && (KeepsResetClear(hw, addr) && SeenClear(log, addr) && r.status == Success && reg == CR ==>
                  !HasReset(r.data))
  {
    var a, b, c := CheckConfig(hw.config(log)), ClearFlag, ReadFrame(addr, reg);
    Snoc3(log, a, b, c);
    Snoc(log, a, addr);
    Snoc(log + [a], b, addr);
    Snoc(log + [a] + [b], c, addr);
    if hw.config(log) {
      var start := log + [a] + [b] + [c];
      var (counter, p) := PollFor(hw, start, true, n);
      PollForKeeps(hw, start, true, n, addr);
      if counter > 0 {
        var data := hw.data(p);
        Snoc3(p, Sample(data), ClearFlag, ClearFlag);
        Snoc(p, Sample(data), addr);
        Snoc(p + [Sample(data)], ClearFlag, addr);
      }
    }
  }

  lemma WriteEffect(hw: Hardware, log: seq<Action>, addr: nat, data: Word, n: nat)
    ensures var r := WriteReply(hw, log, addr, CR, data, n);
            && Count(r.log, CarriesReset)
               == Count(log, CarriesReset) + (if HasReset(data) && r.status != SmiUninitialized then 1 else 0)
            && (!HasReset(data) ==> SeenClear(r.log, addr) == SeenClear(log, addr))
  {
    var a, b, c := CheckConfig(hw.config(log)), ClearFlag, WriteFrame(addr, CR, data);
    Snoc3(log, a, b, c);
    Snoc(log, a, addr);
    Snoc(log + [a], b, addr);
    Snoc(log + [a] + [b], c, addr);
    if hw.config(log) {
      var start := log + [a] + [b] + [c];
      var p := PollFor(hw, start, false, n).1;
      PollForKeeps(hw, start, false, n, addr);
      Snoc(p, ClearFlag, addr);
    }
  }

  lemma {:induction false} ResetLoopEffect(hw: Hardware, log: seq<Action>, addr: nat, n: nat, counter: nat)
    requires counter > 0
    ensures var l := ResetLoop(hw, log, addr, n, counter);
            && Count(l.log, CarriesReset) == Count(log, CarriesReset)
            && (l.status == Success && l.counter > 0 ==> !HasReset(l.data) && SeenClear(l.log, addr))
    decreases counter
  {
    var r := ReadReply(hw, log, addr, CR, n);
    ReadEffect(hw, log, addr, CR, n);
    if r.status == Success && HasReset(r.data) && counter > 1 {
      ResetLoopEffect(hw, r.log, addr, n, counter - 1);
    }
  }

  lemma {:induction false} NegotiationLoopEffect(hw: Hardware, log: seq<Action>, addr: nat, n: nat, left: nat)
    ensures var l := NegotiationLoop(hw, log, addr, n, left);
            && Count(l.0, CarriesReset) == Count(log, CarriesReset)
            && SeenClear(l.0, addr) == SeenClear(log, addr)
    decreases left
  {
    if left > 0 {
      var r := ReadReply(hw, log, addr, SR, n);
      ReadEffect(hw, log, addr, SR, n);
      NegotiationLoopEffect(hw, r.log, addr, n, left - 1);
    }
  }

  lemma NegotiateEffect(hw: Hardware, log: seq<Action>, addr: nat, n: nat, control: Word)
    requires !HasReset(control)
    ensures var g := Negotiate(hw, log, addr, n, control);
            && Count(g.0, CarriesReset) == Count(log, CarriesReset)
            && SeenClear(g.0, addr) == SeenClear(log, addr)
  {
    var w := WriteReply(hw, log, addr, CR, SetBits(control, AUTO_NEG), n);
    WriteEffect(hw, log, addr, SetBits(control, AUTO_NEG), n);
    NegotiationLoopEffect(hw, w.log, addr, n, n);
  }

  /** The loopback frame carries Reset exactly when the re-read did. */
  predicate LoopbackResets(r: InitReply) {
    && |r.loopback| == 2 && r.loopback[1].status != SmiUninitialized
    && HasReset(r.loopback[0].data)
  }

  lemma EnableLoopEffect(hw: Hardware, log: seq<Action>, addr: nat, n: nat)
    requires SeenClear(log, addr)
    ensures var e := EnableLoop(hw, log, addr, n);
            var resets := |e.2| == 2 && e.2[1].status != SmiUninitialized && HasReset(e.2[0].data);
            && Count(e.1, CarriesReset) == Count(log, CarriesReset) + (if resets then 1 else 0)
            && (KeepsResetClear(hw, addr) ==> !resets)
  {
    hide Count, SeenClear, KeepsResetClear, ReadReply, WriteReply;
    var c := ReadReply(hw, log, addr, CR, n);
    ReadEffect(hw, log, addr, CR, n);
    WriteEffect(hw, c.log, addr, SetBits(c.data, LOOP), n);
  }

  lemma BringUpEffect(hw: Hardware, log: seq<Action>, addr: nat, isLoopEnabled: bool, n: nat, control: Word,
      reset: seq<Txn>)
    requires !HasReset(control) && SeenClear(log, addr)
    ensures var r := BringUp(hw, log, addr, isLoopEnabled, n, control, reset);
            && Count(r.log, CarriesReset) == Count(log, CarriesReset) + (if LoopbackResets(r) then 1 else 0)
            && (KeepsResetClear(hw, addr) ==> !LoopbackResets(r))
  {
    hide Count, SeenClear, KeepsResetClear, ReadReply, Negotiate, EnableLoop;
    var s := ReadReply(hw, log, addr, SR, n);
    ReadEffect(hw, log, addr, SR, n);
    NegotiateEffect(hw, s.log, addr, n, control);
    var neg := if NeedsNegotiation(s.data) then Negotiate(hw, s.log, addr, n, control) else (s.log, []);
    EnableLoopEffect(hw, neg.0, addr, n);
  }

  /** On every hardware, a successful Init issues one frame that carries Reset,
      the first, and a second one exactly when loopback re-reads Reset as set. */
  lemma ResetFrames(hw: Hardware, log: seq<Action>, addr: nat, isLoopEnabled: bool, n: nat)
    requires n >= 1
    ensures var r := Init(hw, log, addr, isLoopEnabled, n);
            r.status == Success ==>
              && Count(r.log, CarriesReset) == Count(log, CarriesReset) + (if LoopbackResets(r) then 2 else 1)
              && (KeepsResetClear(hw, addr) ==> !LoopbackResets(r))
  {
    var w := WriteReply(hw, log, addr, CR, RESET, n);
    WriteEffect(hw, log, addr, RESET, n);
    if w.status == Success {
      var l := ResetLoop(hw, w.log, addr, n, n);
      ResetLoopEffect(hw, w.log, addr, n, n);
      if l.status == Success && l.counter > 0 {
        BringUpEffect(hw, l.log, addr, isLoopEnabled, n, l.data, [Wrote(CR, RESET, w.status)] + l.trace);
      }
    }
  }

  /** With a PHY that keeps Reset clear, exactly one frame of a successful run
      carries Reset, loopback or not. */
  lemma {:induction false} OneResetFrame(hw: Hardware, log: seq<Action>, addr: nat, isLoopEnabled: bool, n: nat)
    requires n >= 1 && KeepsResetClear(hw, addr)
    ensures var r := Init(hw, log, addr, isLoopEnabled, n);
            r.status == Success ==> Count(r.log, CarriesReset) == Count(log, CarriesReset) + 1
  {
    ResetFrames(hw, log, addr, isLoopEnabled, n);
  }

  // ---------------------------------------------------------------------
  // A PHY that is not able to negotiate is not asked to
  // ---------------------------------------------------------------------

  predicate IsWrite(a: Action) {
    a.WriteFrame?
  }

  /** Whenever the status register of this PHY is sampled, bit 3 is clear. */
  ghost predicate NeverAble(hw: Hardware, addr: nat) {
    forall log :: LastFrame(log) == Some(ReadFrame(addr, 1)) ==> !BitSet(hw.data(log), 3)
  }

  lemma {:induction false} PollForWrites(hw: Hardware, log: seq<Action>, want: bool, n: nat)
    ensures Count(PollFor(hw, log, want, n).1, IsWrite) == Count(log, IsWrite)
    decreases n
  {
    if n > 0 {
      CountSnoc(log, Poll(hw.flag(log)), IsWrite);
      if hw.flag(log) != want {
        PollForWrites(hw, log + [Poll(hw.flag(log))], want, n - 1);
      }
    }
  }

  /** A read writes nothing, and what it samples comes from the register asked for. */
  lemma ReadWrites(hw: Hardware, log: seq<Action>, addr: nat, reg: nat, n: nat)
    ensures var r := ReadReply(hw, log, addr, reg, n);
            && Count(r.log, IsWrite) == Count(log, IsWrite)
            && (NeverAble(hw, addr) && reg == 1 && r.status == Success ==> !BitSet(r.data, 3))
  {
    var a, b, c := CheckConfig(hw.config(log)), ClearFlag, ReadFrame(addr, reg);
    SnocThree(log, a, b, c, IsWrite);
    if hw.config(log) {
      var start := log + [a, b, c];
      var (counter, p) := PollFor(hw, start, true, n);
      PollForWrites(hw, start, true, n);
      PollForKeeps(hw, start, true, n, addr);
      if counter > 0 {
        SnocTwo(p, Sample(hw.data(p)), ClearFlag, IsWrite);
      }
    }
  }

  lemma {:induction false} ResetLoopWrites(hw: Hardware, log: seq<Action>, addr: nat, n: nat, counter: nat)
    requires counter > 0
    ensures Count(ResetLoop(hw, log, addr, n, counter).log, IsWrite) == Count(log, IsWrite)
    decreases counter
  {
    var r := ReadReply(hw, log, addr, CR, n);
    ReadWrites(hw, log, addr, CR, n);
    if r.status == Success && HasReset(r.data) && counter > 1 {
      ResetLoopWrites(hw, r.log, addr, n, counter - 1);
    }
  }

  lemma WriteWrites(hw: Hardware, log: seq<Action>, addr: nat, data: Word, n: nat)
    ensures var r := WriteReply(hw, log, addr, CR, data, n);
            Count(r.log, IsWrite) == Count(log, IsWrite) + if r.status == SmiUninitialized then 0 else 1
  {
    var a, b, c := CheckConfig(hw.config(log)), ClearFlag, WriteFrame(addr, CR, data);
    SnocThree(log, a, b, c, IsWrite);
    if hw.config(log) {
      var start := log + [a, b, c];
      PollForWrites(hw, start, false, n);
      CountSnoc(PollFor(hw, start, false, n).1, ClearFlag, IsWrite);
    }
  }

  /** With hardware on which every status word sampled has bit 3 clear, a run without
      loopback writes one frame, the one that resets, unless the interface is not set up. */
  lemma OnlyTheResetFrame(hw: Hardware, log: seq<Action>, addr: nat, n: nat)
    requires n >= 1 && NeverAble(hw, addr)
    ensures var r := Init(hw, log, addr, false, n);
            Count(r.log, IsWrite)
            == Count(log, IsWrite) + if r.status == SmiUninitialized && |r.reset| == 1 then 0 else 1
  {
    hide Count, NeverAble, ReadReply, WriteReply, ResetLoop, HasBits, BitSet;
    var w := WriteReply(hw, log, addr, CR, RESET, n);
    WriteWrites(hw, log, addr, RESET, n);
    if w.status == Success {
      var l := ResetLoop(hw, w.log, addr, n, n);
      ResetLoopWrites(hw, w.log, addr, n, n);
      ResetLoopShape(hw, w.log, addr, n, n);
      if l.status == Success && l.counter > 0 {
        ReadWrites(hw, l.log, addr, SR, n);
        RegisterBits(ReadReply(hw, l.log, addr, SR, n).data);
      }
    }
  }
}
