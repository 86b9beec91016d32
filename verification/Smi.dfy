/** Register exchanges over the serial management interface: what PHY_DRV_Read
    and PHY_DRV_Write do to an arbitrary piece of hardware. */
module Smi {
  import opened Logs

  type Word = bv16

  // Registers, and the bits of registers 0 and 1 (IEEE 802.3, clauses 22.2.4.1 and 22.2.4.2)
  const CR := 0
  const SR := 1
  const ID1 := 2
  const CT1 := 0x1e
  const REG_ALL := 0x20

  const AUTO_NEG: Word := 0x1000
  const LOOP: Word := 0x4000
  const RESET: Word := 0x8000
  const LINK_STATUS: Word := 0x0004
  const AUTO_NEG_ABLE: Word := 0x0008
  const AUTO_NEG_COMPLETE: Word := 0x0020

  predicate HasBits(w: Word, mask: Word) {
    w & mask != 0
  }

  function SetBits(w: Word, mask: Word): Word {
    w | mask
  }

  function ClearBits(w: Word, mask: Word): Word {
    w & !mask
  }

  predicate HasReset(w: Word) {
    HasBits(w, RESET)
  }

  /** Bit k of a register, as the standard numbers them. */
  predicate BitSet(w: Word, k: nat)
    requires k < 16
  {
    (w >> k) & 1 == 1
  }

  /** The same word with bit k set. */
  predicate Adds(new': Word, old': Word, k: nat)
    requires k < 16
  {
    new' == old' | (1 << k)
  }

  /** The masks of the driver are the bits of the standard: in the control register (0) 15
      resets, 14 loops back and 12 enables negotiation; in the status register (1) 5 says
      that it is complete, 3 that the PHY is able to negotiate, and 2 that the link is up. */
  lemma RegisterBits(w: Word)
    ensures HasReset(w) == BitSet(w, 15) && RESET == 1 << 15
    ensures HasBits(w, AUTO_NEG_COMPLETE) == BitSet(w, 5)
    ensures HasBits(w, AUTO_NEG_ABLE) == BitSet(w, 3)
    ensures HasBits(w, LINK_STATUS) == BitSet(w, 2)
    ensures Adds(SetBits(w, AUTO_NEG), w, 12) && Adds(SetBits(w, LOOP), w, 14)
    ensures CR == 0 && SR == 1 && ID1 == 2 && CT1 == 30 && REG_ALL == 32
  {
  }

  datatype Status = Success | SmiUninitialized | SmiVisitTimeout | InvalidInput | AutoDiscoverFail

  datatype Action =
    | CheckConfig(on: bool)
    | ClearFlag
    | WriteFrame(addr: nat, reg: nat, data: Word)
    | ReadFrame(addr: nat, reg: nat)
    | Poll(up: bool)
    | Sample(data: Word)

  /** The hardware answers each access in any way it likes, depending on
      everything that has been done to it. */
  datatype Hardware = Hardware(config: seq<Action> -> bool, flag: seq<Action> -> bool, data: seq<Action> -> Word)

  /** `data` means something only on Success. */
  datatype Reply = Reply(status: Status, data: Word, log: seq<Action>)

  /** The polling loop: at most n polls until the flag is `want`; the counter that
      is left (0 on a timeout) and the log. */
  function PollFor(hw: Hardware, log: seq<Action>, want: bool, n: nat): (nat, seq<Action>)
    decreases n
  {
    if n == 0 then (0, log)
    else
      var up := hw.flag(log);
      if up == want then (n, log + [Poll(up)]) else PollFor(hw, log + [Poll(up)], want, n - 1)
  }

  function ReadReply(hw: Hardware, log: seq<Action>, addr: nat, reg: nat, n: nat): Reply {
    var on := hw.config(log);
    if !on then Reply(SmiUninitialized, 0, log + [CheckConfig(on)])
    else
      var (counter, polled) := PollFor(hw, log + [CheckConfig(on), ClearFlag, ReadFrame(addr, reg)], true, n);
      if counter == 0 then Reply(SmiVisitTimeout, 0, polled)
      else
        var data := hw.data(polled);
        Reply(Success, data, polled + [Sample(data), ClearFlag])
  }

  /** The write waits for the flag to be clear, the opposite of the read. */
  function WriteReply(hw: Hardware, log: seq<Action>, addr: nat, reg: nat, data: Word, n: nat): Reply {
    var on := hw.config(log);
    if !on then Reply(SmiUninitialized, 0, log + [CheckConfig(on)])
    else
      var (counter, polled) := PollFor(hw, log + [CheckConfig(on), ClearFlag, WriteFrame(addr, reg, data)], false, n);
      if counter == 0 then Reply(SmiVisitTimeout, 0, polled)
      else Reply(Success, 0, polled + [ClearFlag])
  }

  // ---------------------------------------------------------------------
  // What polling means
  // ---------------------------------------------------------------------

  /** The log after k polls that all saw `up`. */
  function Polled(log: seq<Action>, up: bool, k: nat): seq<Action> {
    log + seq(k, _ => Poll(up))
  }

  lemma PolledOne(log: seq<Action>, up: bool, k: nat)
    ensures Polled(log, up, 0) == log
    ensures Polled(log + [Poll(up)], up, k) == Polled(log, up, k + 1)
  {
    assert [Poll(up)] + seq(k, _ => Poll(up)) == seq(k + 1, _ => Poll(up));
    assert log + [Poll(up)] + seq(k, _ => Poll(up)) == log + ([Poll(up)] + seq(k, _ => Poll(up)));
  }

  /** After j polls that missed, the next one misses too. */
  predicate Misses(hw: Hardware, log: seq<Action>, want: bool, j: nat) {
    hw.flag(Polled(log, !want, j)) != want
  }

  /** Poll k is the first to see `want`, and k is below n. */
  ghost predicate FirstHit(hw: Hardware, log: seq<Action>, want: bool, n: nat, k: nat) {
    k < n && !Misses(hw, log, want, k) && forall j: nat :: j < k ==> Misses(hw, log, want, j)
  }

  /** Polling times out exactly when the first n polls all miss, and otherwise
      stops right after the first hit. */
  lemma {:induction false} PollForMeaning(hw: Hardware, log: seq<Action>, want: bool, n: nat)
    ensures var r := PollFor(hw, log, want, n);
            && (r.0 == 0 <==> forall j: nat :: j < n ==> Misses(hw, log, want, j))
            && (r.0 == 0 ==> r.1 == Polled(log, !want, n))
            && (r.0 > 0 ==> r.0 <= n && FirstHit(hw, log, want, n, n - r.0)
                            && r.1 == Polled(log, !want, n - r.0) + [Poll(want)])
    decreases n
  {
    PolledOne(log, !want, 0);
    assert Misses(hw, log, want, 0) <==> hw.flag(log) != want;
    if n > 0 && hw.flag(log) != want {
      var log1 := log + [Poll(!want)];
      PollForMeaning(hw, log1, want, n - 1);
      forall j: nat
        ensures Misses(hw, log1, want, j) == Misses(hw, log, want, j + 1)
        ensures Polled(log1, !want, j) == Polled(log, !want, j + 1)
      {
        PolledOne(log, !want, j);
      }
      forall j: nat | 0 < j
        ensures Misses(hw, log, want, j) == Misses(hw, log1, want, j - 1)
      {
        assert Misses(hw, log1, want, j - 1) == Misses(hw, log, want, j - 1 + 1);
      }
    }
  }

  /** What a caller of PHY_DRV_Read may rely on, without knowing the loop: with the
      interface configured it times out exactly when n consecutive polls see the
      flag clear; otherwise the word is what the hardware held after the first poll
      that saw it set, and the last action clears the flag. */
  lemma ReadMeaning(hw: Hardware, log: seq<Action>, addr: nat, reg: nat, n: nat)
    ensures var r := ReadReply(hw, log, addr, reg, n);
            var start := log + [CheckConfig(true), ClearFlag, ReadFrame(addr, reg)];
            && (r.status == SmiUninitialized <==> !hw.config(log))
            && (!hw.config(log) ==> r.log == log + [CheckConfig(false)])
            && (hw.config(log) ==>
                  (r.status == SmiVisitTimeout <==> forall j: nat :: j < n ==> Misses(hw, start, true, j)))
            && (r.status == SmiVisitTimeout ==> r.log == Polled(start, false, n))
            && (r.status == Success <==>
                  hw.config(log) && exists k: nat :: FirstHit(hw, start, true, n, k))
            && (forall k: nat :: hw.config(log) && FirstHit(hw, start, true, n, k) ==>
                  var seen := Polled(start, false, k) + [Poll(true)];
                  r.data == hw.data(seen) && r.log == seen + [Sample(r.data), ClearFlag])
  {
    var start := log + [CheckConfig(true), ClearFlag, ReadFrame(addr, reg)];
    PollForMeaning(hw, start, true, n);
    forall k: nat, k': nat | FirstHit(hw, start, true, n, k) && FirstHit(hw, start, true, n, k')
      ensures k == k'
    {
    }
  }

  /** A write succeeds exactly when some poll within the bound sees the flag clear;
      nothing in that says that the frame has been sent. */
  lemma WriteMeaning(hw: Hardware, log: seq<Action>, addr: nat, reg: nat, data: Word, n: nat)
    ensures var r := WriteReply(hw, log, addr, reg, data, n);
            var start := log + [CheckConfig(true), ClearFlag, WriteFrame(addr, reg, data)];
            && (r.status == SmiUninitialized <==> !hw.config(log))
            && (!hw.config(log) ==> r.log == log + [CheckConfig(false)])
            && (hw.config(log) ==>
                  (r.status == SmiVisitTimeout <==> forall j: nat :: j < n ==> Misses(hw, start, false, j)))
            && (r.status == SmiVisitTimeout ==> r.log == Polled(start, true, n))
            && (r.status == Success <==>
                  hw.config(log) && exists k: nat :: FirstHit(hw, start, false, n, k))
            && (forall k: nat :: hw.config(log) && FirstHit(hw, start, false, n, k) ==>
                  r.log == Polled(start, true, k) + [Poll(false), ClearFlag])
  {
    var start := log + [CheckConfig(true), ClearFlag, WriteFrame(addr, reg, data)];
    PollForMeaning(hw, start, false, n);
    forall k: nat, k': nat | FirstHit(hw, start, false, n, k) && FirstHit(hw, start, false, n, k')
      ensures k == k'
    {
    }
  }

  /** If the flag reports completion, up from the end of the frame until cleared,
      then a write succeeds exactly when its frame is NOT finished at the first
      poll, and times out on hardware that finishes sooner. */
  lemma WriteSucceedsOnlyUnfinished(hw: Hardware, log: seq<Action>, addr: nat, reg: nat, data: Word, n: nat)
    requires n >= 1 && hw.config(log)
    requires var start := log + [CheckConfig(true), ClearFlag, WriteFrame(addr, reg, data)];
             forall j: nat :: hw.flag(start) ==> hw.flag(Polled(start, true, j))
    ensures var start := log + [CheckConfig(true), ClearFlag, WriteFrame(addr, reg, data)];
            WriteReply(hw, log, addr, reg, data, n).status == if hw.flag(start) then SmiVisitTimeout else Success
  {
    var start := log + [CheckConfig(true), ClearFlag, WriteFrame(addr, reg, data)];
    PolledOne(start, true, 0);
    PollForMeaning(hw, start, false, n);
    if hw.flag(start) {
      forall j: nat
        ensures Misses(hw, start, false, j)
      {
        assert hw.flag(Polled(start, true, j));
      }
    } else {
      assert !Misses(hw, start, false, 0);
    }
  }

  // ---------------------------------------------------------------------
  // What an exchange costs
  // ---------------------------------------------------------------------

  predicate IsFrame(a: Action) {
    a.WriteFrame? || a.ReadFrame?
  }

  predicate IsPoll(a: Action) {
    a.Poll?
  }

  /** f times n, by repeated addition. */
  function Times(f: nat, n: nat): nat {
    if f == 0 then 0 else n + Times(f - 1, n)
  }

  lemma {:induction false} TimesAdd(f: nat, g: nat, n: nat)
    ensures Times(f + g, n) == Times(f, n) + Times(g, n)
  {
    if f > 0 {
      TimesAdd(f - 1, g, n);
    }
  }

  lemma {:induction false} TimesIsProduct(f: nat, n: nat)
    ensures Times(f, n) == f * n
  {
    if f > 0 {
      TimesIsProduct(f - 1, n);
    }
  }

  /** From log a to log b: at most f frames, and at most n polls for each. */
  ghost predicate Costs(a: seq<Action>, b: seq<Action>, f: nat, n: nat) {
    && Count(b, IsFrame) <= Count(a, IsFrame) + f
    && Count(b, IsPoll) <= Count(a, IsPoll) + Times(f, n)
  }

  lemma CostsAdd(a: seq<Action>, b: seq<Action>, c: seq<Action>, f: nat, g: nat, n: nat)
    requires Costs(a, b, f, n) && Costs(b, c, g, n)
    ensures Costs(a, c, f + g, n)
  {
    TimesAdd(f, g, n);
  }

  lemma CostsWeaken(a: seq<Action>, b: seq<Action>, f: nat, g: nat, n: nat)
    requires Costs(a, b, f, n) && f <= g
    ensures Costs(a, b, g, n)
  {
    TimesAdd(f, g - f, n);
  }

  lemma {:induction false} PollForCost(hw: Hardware, log: seq<Action>, want: bool, n: nat)
    ensures var r := PollFor(hw, log, want, n);
            && Count(r.1, IsFrame) == Count(log, IsFrame)
            && Count(log, IsPoll) <= Count(r.1, IsPoll) <= Count(log, IsPoll) + n
    decreases n
  {
    if n > 0 {
      CountSnoc(log, Poll(hw.flag(log)), IsFrame);
      CountSnoc(log, Poll(hw.flag(log)), IsPoll);
      if hw.flag(log) != want {
        PollForCost(hw, log + [Poll(hw.flag(log))], want, n - 1);
      }
    }
  }

  lemma ReadCost(hw: Hardware, log: seq<Action>, addr: nat, reg: nat, n: nat)
    ensures Costs(log, ReadReply(hw, log, addr, reg, n).log, 1, n)
  {
    var r := ReadReply(hw, log, addr, reg, n);
    SnocThree(log, CheckConfig(hw.config(log)), ClearFlag, ReadFrame(addr, reg), IsFrame);
    SnocThree(log, CheckConfig(hw.config(log)), ClearFlag, ReadFrame(addr, reg), IsPoll);
    if hw.config(log) {
      var polled := PollFor(hw, log + [CheckConfig(true), ClearFlag, ReadFrame(addr, reg)], true, n).1;
      PollForCost(hw, log + [CheckConfig(true), ClearFlag, ReadFrame(addr, reg)], true, n);
      SnocTwo(polled, Sample(r.data), ClearFlag, IsFrame);
      SnocTwo(polled, Sample(r.data), ClearFlag, IsPoll);
    }
  }

  lemma WriteCost(hw: Hardware, log: seq<Action>, addr: nat, reg: nat, data: Word, n: nat)
    ensures Costs(log, WriteReply(hw, log, addr, reg, data, n).log, 1, n)
  {
    var frame := WriteFrame(addr, reg, data);
    SnocThree(log, CheckConfig(hw.config(log)), ClearFlag, frame, IsFrame);
    SnocThree(log, CheckConfig(hw.config(log)), ClearFlag, frame, IsPoll);
    if hw.config(log) {
      var polled := PollFor(hw, log + [CheckConfig(true), ClearFlag, frame], false, n).1;
      PollForCost(hw, log + [CheckConfig(true), ClearFlag, frame], false, n);
      CountSnoc(polled, ClearFlag, IsFrame);
      CountSnoc(polled, ClearFlag, IsPoll);
    }
  }

  lemma SnocTwo(log: seq<Action>, a: Action, b: Action, which: Action -> bool)
    ensures Count(log + [a, b], which) == Count(log + [a], which) + if which(b) then 1 else 0
    ensures Count(log + [a], which) == Count(log, which) + if which(a) then 1 else 0
  {
    assert log + [a, b] == log + [a] + [b];
    CountSnoc(log, a, which);
    CountSnoc(log + [a], b, which);
  }

  lemma SnocThree(log: seq<Action>, a: Action, b: Action, c: Action, which: Action -> bool)
    ensures Count(log + [a], which) == Count(log, which) + if which(a) then 1 else 0
    ensures Count(log + [a, b, c], which)
            == Count(log, which) + (if which(a) then 1 else 0) + (if which(b) then 1 else 0) + if which(c) then 1 else 0
  {
    assert log + [a, b, c] == log + [a, b] + [c];
    SnocTwo(log, a, b, which);
    CountSnoc(log + [a, b], c, which);
  }
}
