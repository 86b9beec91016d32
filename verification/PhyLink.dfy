/** Address scan, link queries, and the change detector of PHY_DRV_UpdateSpeed. */
module PhyLink {
  import opened Wrappers
  import opened Smi

  // ---------------------------------------------------------------------
  // Address scan
  // ---------------------------------------------------------------------

  /** The log before address a is probed, all smaller addresses having been. */
  function ProbeLog(hw: Hardware, log: seq<Action>, a: nat, n: nat): seq<Action>
    decreases a, 0
  {
    if a == 0 then log else Probe(hw, log, a - 1, n).log
  }

  function Probe(hw: Hardware, log: seq<Action>, a: nat, n: nat): Reply
    decreases a, 1
  {
    ReadReply(hw, ProbeLog(hw, log, a, n), a, ID1, n)
  }

  predicate Answers(hw: Hardware, log: seq<Action>, a: nat, n: nat) {
    var r := Probe(hw, log, a, n);
    r.status == Success && r.data != 0 && r.data != 0xffff
  }

  /** a is the smallest address that answers the scan. */
  ghost predicate FirstToAnswer(hw: Hardware, log: seq<Action>, a: nat, n: nat) {
    && a < REG_ALL && Answers(hw, log, a, n)
    && forall b: nat :: b < a ==> !Answers(hw, log, b, n)
  }

  lemma SomeBitSet(w: Word)
    ensures w != 0 ==> exists k: nat :: k < 16 && BitSet(w, k)
    ensures w == 0 ==> forall k: nat :: k < 16 ==> !BitSet(w, k)
  {
    if w != 0 {
      assert || BitSet(w, 0) || BitSet(w, 1) || BitSet(w, 2) || BitSet(w, 3) || BitSet(w, 4) || BitSet(w, 5)
             || BitSet(w, 6) || BitSet(w, 7) || BitSet(w, 8) || BitSet(w, 9) || BitSet(w, 10) || BitSet(w, 11)
             || BitSet(w, 12) || BitSet(w, 13) || BitSet(w, 14) || BitSet(w, 15);
    }
  }

  lemma SomeBitClear(w: Word)
    ensures w != 0xffff ==> exists k: nat :: k < 16 && !BitSet(w, k)
    ensures w == 0xffff ==> forall k: nat :: k < 16 ==> BitSet(w, k)
  {
    if w != 0xffff {
      assert || !BitSet(w, 0) || !BitSet(w, 1) || !BitSet(w, 2) || !BitSet(w, 3) || !BitSet(w, 4) || !BitSet(w, 5)
             || !BitSet(w, 6) || !BitSet(w, 7) || !BitSet(w, 8) || !BitSet(w, 9) || !BitSet(w, 10) || !BitSet(w, 11)
             || !BitSet(w, 12) || !BitSet(w, 13) || !BitSet(w, 14) || !BitSet(w, 15);
    }
  }

  /** An address answers exactly if the read of its register 2 works and the word has a bit
      that is set and one that is clear, as an idle bus never gives. */
  lemma AnswersIff(hw: Hardware, log: seq<Action>, a: nat, n: nat)
    ensures var r := ReadReply(hw, ProbeLog(hw, log, a, n), a, 2, n);
            Answers(hw, log, a, n) <==>
              && r.status == Success
              && (exists i: nat :: i < 16 && BitSet(r.data, i)) && (exists j: nat :: j < 16 && !BitSet(r.data, j))
  {
    var r := ReadReply(hw, ProbeLog(hw, log, a, n), a, 2, n);
    hide ReadReply, BitSet;
    SomeBitSet(r.data);
    SomeBitClear(r.data);
  }

  // ---------------------------------------------------------------------
  // Link queries
  // ---------------------------------------------------------------------

  datatype Speed = Speed10M | Speed100M

  const SPEED_DUPLEX_MASK: Word := 0x0007
  const HALF_100: Word := 0x0002
  const FULL_100: Word := 0x0006

  datatype SpeedReply = SpeedReply(status: Status, speed: Option<Speed>, log: seq<Action>)

  function LinkSpeed(hw: Hardware, log: seq<Action>, addr: nat, n: nat): SpeedReply {
    var r := ReadReply(hw, log, addr, CT1, n);
    var code := r.data & SPEED_DUPLEX_MASK;
    SpeedReply(
      r.status,
      if r.status != Success then None
      else Some(if code == HALF_100 || code == FULL_100 then Speed100M else Speed10M),
      r.log)
  }

  /** `link` is None when the caller's variable is not written, which a PHY still
      in reset makes happen together with Success. */
  datatype LinkReply = LinkReply(status: Status, link: Option<bool>, log: seq<Action>)

  function LinkStatus(hw: Hardware, log: seq<Action>, addr: nat, n: nat): LinkReply {
    var c := ReadReply(hw, log, addr, CR, n);
    if c.status != Success || HasReset(c.data) then LinkReply(c.status, None, c.log)
    else
      var s := ReadReply(hw, c.log, addr, SR, n);
      LinkReply(s.status, if s.status == Success then Some(HasBits(s.data, LINK_STATUS)) else None, s.log)
  }

  /** The variable is left unwritten in spite of a Success exactly when the control
      read worked and showed Reset. */
  lemma LinkUnwrittenIff(hw: Hardware, log: seq<Action>, addr: nat, n: nat)
    ensures var r := LinkStatus(hw, log, addr, n);
            var c := ReadReply(hw, log, addr, CR, n);
            r.status == Success && r.link.None? <==> c.status == Success && HasReset(c.data)
  {
  }

  /** What the link query does, in terms of the words sampled: the one of register 0, and if
      its bit 15 is clear the one of register 1, of which bit 2 is the link. */
  ghost predicate LinkQueried(hw: Hardware, log: seq<Action>, addr: nat, n: nat, r: LinkReply) {
    var c := ReadReply(hw, log, addr, 0, n);
    var s := ReadReply(hw, c.log, addr, 1, n);
    if c.status != Success || BitSet(c.data, 15) then r == LinkReply(c.status, None, c.log)
    else r == LinkReply(s.status, if s.status == Success then Some(BitSet(s.data, 2)) else None, s.log)
  }

  lemma LinkMeaning(hw: Hardware, log: seq<Action>, addr: nat, n: nat)
    ensures LinkQueried(hw, log, addr, n, LinkStatus(hw, log, addr, n))
  {
    var c := ReadReply(hw, log, addr, 0, n);
    var s := ReadReply(hw, c.log, addr, 1, n);
    hide ReadReply, BitSet, HasBits;
    RegisterBits(c.data);
    RegisterBits(s.data);
  }

  /** And the speed query: 100M exactly if bit 1 of the word of register 30 is set and bit 0
      is clear. */
  ghost predicate SpeedQueried(hw: Hardware, log: seq<Action>, addr: nat, n: nat, r: SpeedReply) {
    var c := ReadReply(hw, log, addr, 30, n);
    && r.status == c.status && r.log == c.log
    && r.speed == if c.status != Success then None
                  else Some(if BitSet(c.data, 1) && !BitSet(c.data, 0) then Speed100M else Speed10M)
  }

  lemma SpeedMeaning(hw: Hardware, log: seq<Action>, addr: nat, n: nat)
    ensures SpeedQueried(hw, log, addr, n, LinkSpeed(hw, log, addr, n))
  {
    var c := ReadReply(hw, log, addr, 30, n);
    hide ReadReply;
    SpeedCode(c.data);
  }

  lemma SpeedCode(w: Word)
    ensures var code := w & SPEED_DUPLEX_MASK;
            code == HALF_100 || code == FULL_100 <==> BitSet(w, 1) && !BitSet(w, 0)
  {
  }

  // ---------------------------------------------------------------------
  // The change detector
  // ---------------------------------------------------------------------

  const LINK_SPEED: Word := 0x1
  const LINK_ON: Word := 0x2

  /** The two global status words. */
  datatype Words = Words(old': Word, new': Word)

  /** What one call learns: whether the speed query worked, and the link value it
      goes on to use when the link query worked. */
  datatype Observation = Observation(speedRead: bool, link: Option<bool>)

  /** The observation of one call and the log after it. A null status pointer makes
      the speed query fail at once; when the link query succeeds without writing,
      the value used is whatever the caller's variable held. */
  function Observe(hw: Hardware, log: seq<Action>, addr: nat, hasStatus: bool, unwritten: bool,
      n: nat): (Observation, seq<Action>)
  {
    var speed := LinkSpeed(hw, log, addr, n);
    var log1 := if hasStatus then speed.log else log;
    var l := LinkStatus(hw, log1, addr, n);
    (Observation(hasStatus && speed.status == Success,
                 if l.status != Success then None else Some(if l.link.Some? then l.link.value else unwritten)),
     l.log)
  }

  function Recorded(w: Word, o: Observation): Word {
    var w1 := if o.speedRead then SetBits(w, LINK_SPEED) else w;
    match o.link
    case None => w1
    case Some(true) => SetBits(w1, LINK_ON)
    case Some(false) => ClearBits(w1, LINK_ON)
  }

  function Update(ws: Words, o: Observation): (Words, bool) {
    var w := Recorded(ws.new', o);
    if w != ws.old' then (Words(w, w), HasBits(w, LINK_ON)) else (Words(ws.old', w), false)
  }

  function AfterCalls(os: seq<Observation>): Words {
    if |os| == 0 then Words(0, 0) else Update(AfterCalls(os[..|os| - 1]), os[|os| - 1]).0
  }

  /** The result of the last call of os. */
  predicate Reported(os: seq<Observation>)
    requires |os| > 0
  {
    Update(AfterCalls(os[..|os| - 1]), os[|os| - 1]).1
  }

  /** The link value most recently read, off before any has been. */
  predicate LinkNow(os: seq<Observation>) {
    |os| > 0 && if os[|os| - 1].link.Some? then os[|os| - 1].link.value else LinkNow(os[..|os| - 1])
  }

  ghost predicate SpeedEverRead(os: seq<Observation>) {
    exists i :: 0 <= i < |os| && os[i].speedRead
  }

  function Encode(speed: bool, link: bool): Word {
    if link then (if speed then 3 else 2) else (if speed then 1 else 0)
  }

  /** Between calls the two words are equal and record exactly the link value most
      recently read and whether the speed was ever read. */
  lemma {:induction false} WordsRecord(os: seq<Observation>)
    ensures var ws := AfterCalls(os);
            ws.old' == ws.new' && ws.new' == Encode(SpeedEverRead(os), LinkNow(os))
  {
    if |os| > 0 {
      var before := os[..|os| - 1];
      var o := os[|os| - 1];
      WordsRecord(before);
      var w := AfterCalls(before).new';
    }
  }

  /** A call reports true exactly when the link is on after it and either it was off
      before or the speed is now read for the first time. */
  lemma ReportedIff(os: seq<Observation>)
    requires |os| > 0
    ensures var before := os[..|os| - 1];
            Reported(os) <==> LinkNow(os) && (!LinkNow(before) || (SpeedEverRead(os) && !SpeedEverRead(before)))
  {
    var before := os[..|os| - 1];
    WordsRecord(before);
    WordsRecord(os);
    var w := AfterCalls(before).new';
  }

  function Trues(os: seq<Observation>): nat {
    if |os| == 0 then 0 else Trues(os[..|os| - 1]) + if Reported(os) then 1 else 0
  }

  /** 0-to-1 changes of the link value. */
  function Rises(os: seq<Observation>): nat {
    if |os| == 0 then 0
    else Rises(os[..|os| - 1]) + if LinkNow(os) && !LinkNow(os[..|os| - 1]) then 1 else 0
  }

  /** Call k is the first to read the speed, with the link on before and after it. */
  ghost predicate SpeedArrivesLate(os: seq<Observation>, k: int) {
    && 0 <= k < |os|
    && os[k].speedRead && !SpeedEverRead(os[..k])
    && LinkNow(os[..k]) && LinkNow(os[..k + 1])
  }

  ghost predicate SpeedArrivedLate(os: seq<Observation>) {
    exists k :: SpeedArrivesLate(os, k)
  }

  lemma LateSnoc(os: seq<Observation>)
    requires |os| > 0
    ensures SpeedArrivedLate(os) <==> SpeedArrivedLate(os[..|os| - 1]) || SpeedArrivesLate(os, |os| - 1)
  {
    var before := os[..|os| - 1];
    forall k | 0 <= k < |os| - 1
      ensures SpeedArrivesLate(os, k) <==> SpeedArrivesLate(before, k)
    {
      assert before[..k] == os[..k] && before[..k + 1] == os[..k + 1];
    }
  }

  /** From the zero state, the number of true results is the number of rises of the
      link, plus one if the speed was first read while the link was on and stayed on. */
  lemma {:induction false} TruesCountRises(os: seq<Observation>)
    ensures Trues(os) == Rises(os) + if SpeedArrivedLate(os) then 1 else 0
  {
    if |os| > 0 {
      var before := os[..|os| - 1];
      TruesCountRises(before);
      ReportedIff(os);
      LateSnoc(os);
      assert os[..|os| - 1 + 1] == os;
    }
  }

  // ---------------------------------------------------------------------
  // A run of calls
  // ---------------------------------------------------------------------

  /** What a caller passes to one call, and what its local variable happens to hold. */
  datatype Query = Query(addr: nat, hasStatus: bool, unwritten: bool)

  /** The observations of a run of calls from a log, and the log after it. */
  function ObserveAll(hw: Hardware, log: seq<Action>, qs: seq<Query>, n: nat): (seq<Observation>, seq<Action>) {
    if |qs| == 0 then ([], log)
    else
      var before := ObserveAll(hw, log, qs[..|qs| - 1], n);
      var q := qs[|qs| - 1];
      var o := Observe(hw, before.1, q.addr, q.hasStatus, q.unwritten, n);
      (before.0 + [o.0], o.1)
  }

  /** What one call has observed, in terms of the words sampled from log on: whether
      register 30 could be read, and bit 2 of register 1; the variable that was not written
      when bit 15 of register 0 is set. */
  ghost predicate Sampled(hw: Hardware, log: seq<Action>, q: Query, n: nat, o: Observation) {
    var speed := ReadReply(hw, log, q.addr, 30, n);
    var c := ReadReply(hw, if q.hasStatus then speed.log else log, q.addr, 0, n);
    var s := ReadReply(hw, c.log, q.addr, 1, n);
    && o.speedRead == (q.hasStatus && speed.status == Success)
    && o.link == if c.status != Success then None
                 else if BitSet(c.data, 15) then Some(q.unwritten)
                 else if s.status != Success then None
                 else Some(BitSet(s.data, 2))
  }

  lemma ObserveMeaning(hw: Hardware, log: seq<Action>, q: Query, n: nat)
    ensures Sampled(hw, log, q, n, Observe(hw, log, q.addr, q.hasStatus, q.unwritten, n).0)
  {
    var speed := LinkSpeed(hw, log, q.addr, n);
    hide ReadReply, BitSet, LinkStatus, LinkSpeed;
    SpeedMeaning(hw, log, q.addr, n);
    LinkMeaning(hw, if q.hasStatus then speed.log else log, q.addr, n);
  }

  /** What the two queries of one call do to the word, one behind the other. */
  lemma RecordedTwice(hw: Hardware, log: seq<Action>, q: Query, n: nat, w: Word)
    ensures var speed := LinkSpeed(hw, log, q.addr, n);
            var w1 := if q.hasStatus && speed.status == Success then SetBits(w, LINK_SPEED) else w;
            var l := LinkStatus(hw, if q.hasStatus then speed.log else log, q.addr, n);
            var o := Observe(hw, log, q.addr, q.hasStatus, q.unwritten, n);
            && o.1 == l.log
            && var link := if l.link.Some? then l.link.value else q.unwritten;
               Recorded(w, o.0) == if l.status != Success then w1
                                   else if link then SetBits(w1, LINK_ON)
                                   else ClearBits(w1, LINK_ON)
  {
    hide LinkSpeed, LinkStatus, SetBits, ClearBits;
  }

  /** Every observation of a run of calls is of the words sampled by that call. */
  lemma {:induction false} AllSampled(hw: Hardware, log: seq<Action>, qs: seq<Query>, n: nat)
    ensures var os := ObserveAll(hw, log, qs, n).0;
            && |os| == |qs|
            && forall k :: 0 <= k < |qs| ==> Sampled(hw, ObserveAll(hw, log, qs[..k], n).1, qs[k], n, os[k])
  {
    hide Sampled, Observe;
    if |qs| > 0 {
      var m := |qs| - 1;
      AllSampled(hw, log, qs[..m], n);
      ObserveMeaning(hw, ObserveAll(hw, log, qs[..m], n).1, qs[m], n);
      forall k | 0 <= k < m
        ensures qs[..m][..k] == qs[..k]
      {
      }
    }
  }

  lemma NoCalls()
    ensures AfterCalls([]) == Words(0, 0) && Trues([]) == 0
  {
  }

  lemma AfterOneMore(os: seq<Observation>, o: Observation)
    ensures AfterCalls(os + [o]) == Update(AfterCalls(os), o).0
    ensures Trues(os + [o]) == Trues(os) + if Update(AfterCalls(os), o).1 then 1 else 0
  {
    assert (os + [o])[..|os|] == os;
  }
}
