/** The flag handshake between a port interrupt and a timer interrupt, as a
    transition system. The port handler samples a pin and sets a volatile flag;
    the timer handler tests the flag, clears it and drives an output. Each step
    executes one statement of one handler, so the schedules below are all the
    statement-level interleavings, whatever the interrupt priorities are. */
module Handshake {
  import opened Wrappers

  /** One activation of a handler, numbered in the order of its beginning. */
  datatype Handler = Tick(no: nat) | Port(no: nat)

  /** What one statement did. `Look` is the timer's test of the flag or the port
      handler's reading of its pin (true when the handler will go on to set). */
  datatype Event =
    | Begin(h: Handler)
    | Look(h: Handler, seen: bool)
    | Clear(h: Handler)
    | Set(h: Handler)
    | Drive(h: Handler, on: bool)
    | End(h: Handler)

  datatype TickPc = TIdle | TTest | TClear | TDrive(on: bool) | TEnd
  datatype PortPc = PIdle | PSample | PSet | PEnd

  /** `ticks` and `ports` number the current (or, when idle, the next) activation. */
  datatype State = State(flag: bool, tick: TickPc, ticks: nat, port: PortPc, ports: nat, log: seq<Event>)

  datatype Step = TickStep | PortStep(willSet: bool)

  function Init(flag: bool): State {
    State(flag, TIdle, 0, PIdle, 0, [])
  }

  function TickNext(s: State): State {
    var h := Tick(s.ticks);
    match s.tick
    case TIdle => s.(tick := TTest, log := s.log + [Begin(h)])
    case TTest => s.(tick := if s.flag then TClear else TDrive(false), log := s.log + [Look(h, s.flag)])
    case TClear => s.(tick := TDrive(true), flag := false, log := s.log + [Clear(h)])
    case TDrive(on) => s.(tick := TEnd, log := s.log + [Drive(h, on)])
    case TEnd => s.(tick := TIdle, ticks := s.ticks + 1, log := s.log + [End(h)])
  }

  function PortNext(s: State, willSet: bool): State {
    var h := Port(s.ports);
    match s.port
    case PIdle => s.(port := PSample, log := s.log + [Begin(h)])
    case PSample => s.(port := if willSet then PSet else PEnd, log := s.log + [Look(h, willSet)])
    case PSet => s.(port := PEnd, flag := true, log := s.log + [Set(h)])
    case PEnd => s.(port := PIdle, ports := s.ports + 1, log := s.log + [End(h)])
  }

  function Next(s: State, step: Step): State {
    match step
    case TickStep => TickNext(s)
    case PortStep(willSet) => PortNext(s, willSet)
  }

  function Run(s: State, schedule: seq<Step>): State {
    if |schedule| == 0 then s
    else Next(Run(s, schedule[..|schedule| - 1]), schedule[|schedule| - 1])
  }

  lemma {:induction false} RunConcat(s: State, a: seq<Step>, b: seq<Step>)
    ensures Run(s, a + b) == Run(Run(s, a), b)
    decreases |b|
  {
    if |b| == 0 {
      assert a + b == a;
    } else {
      var n := |b| - 1;
      assert (a + b)[..|a + b| - 1] == a + b[..n];
      RunConcat(s, a, b[..n]);
    }
  }

  /** The sequence of values written to the output. */
  function Outputs(log: seq<Event>): seq<bool> {
    if |log| == 0 then []
    else
      var e := log[|log| - 1];
      Outputs(log[..|log| - 1]) + if e.Drive? then [e.on] else []
  }

  lemma OutputsSnoc(log: seq<Event>, e: Event)
    ensures Outputs(log + [e]) == Outputs(log) + if e.Drive? then [e.on] else []
  {
    assert (log + [e])[..|log|] == log;
  }

  // ---------------------------------------------------------------------
  // The atomic specification
  // ---------------------------------------------------------------------

  /** A whole handler body executed at once. */
  datatype Op = AtomicTick(no: nat) | AtomicPort(no: nat, willSet: bool)

  function By(op: Op): Handler {
    match op
    case AtomicTick(no) => Tick(no)
    case AtomicPort(no, _) => Port(no)
  }

  datatype AtomicState = AtomicState(flag: bool, out: seq<bool>)

  function Apply(a: AtomicState, op: Op): AtomicState {
    match op
    case AtomicTick(_) => AtomicState(false, a.out + [a.flag])
    case AtomicPort(_, willSet) => a.(flag := a.flag || willSet)
  }

  function Atomic(flag: bool, ops: seq<Op>): AtomicState {
    if |ops| == 0 then AtomicState(flag, [])
    else Apply(Atomic(flag, ops[..|ops| - 1]), ops[|ops| - 1])
  }

  /** The handler takes effect at its clear or at a test that sees false (timer),
      at its set or at a sample that sees the pin high (port). */
  function Effect(e: Event): Option<Op> {
    match e
    case Look(Tick(no), seen) => if seen then None else Some(AtomicTick(no))
    case Look(Port(no), seen) => if seen then None else Some(AtomicPort(no, false))
    case Clear(Tick(no)) => Some(AtomicTick(no))
    case Set(Port(no)) => Some(AtomicPort(no, true))
    case _ => None
  }

  function Extend(ops: seq<Op>, op: Option<Op>): seq<Op> {
    if op.None? then ops else ops + [op.value]
  }

  function Effects(log: seq<Event>): seq<Op> {
    if |log| == 0 then [] else Extend(Effects(log[..|log| - 1]), Effect(log[|log| - 1]))
  }

  lemma EffectsSnoc(log: seq<Event>, e: Event)
    ensures Effects(log + [e]) == Extend(Effects(log), Effect(e))
  {
    assert (log + [e])[..|log|] == log;
  }

  lemma AtomicSnoc(flag: bool, ops: seq<Op>, op: Op)
    ensures Atomic(flag, ops + [op]) == Apply(Atomic(flag, ops), op)
  {
    assert (ops + [op])[..|ops|] == ops;
  }

  /** Handler a had returned before handler b began. */
  ghost predicate Precedes(log: seq<Event>, a: Handler, b: Handler) {
    exists i, j :: 0 <= i < j < |log| && log[i] == End(a) && log[j] == Begin(b)
  }

  /** In ops, every occurrence of a comes before every occurrence of b. */
  ghost predicate Ordered(ops: seq<Op>, a: Handler, b: Handler) {
    forall p, q :: 0 <= p < |ops| && 0 <= q < |ops| && By(ops[p]) == a && By(ops[q]) == b ==> p < q
  }

  ghost predicate Occurs(ops: seq<Op>, h: Handler) {
    exists p :: 0 <= p < |ops| && By(ops[p]) == h
  }

  /** ops is an atomic run that explains s: each handler at most once, each
      finished handler exactly once and with the pin value it sampled, the order
      of non-overlapping handlers kept, the same flag, and the same writes up to
      the one an unfinished tick still owes. */
  ghost predicate Explains(flag: bool, ops: seq<Op>, s: State) {
    && (forall p, q :: 0 <= p < |ops| && 0 <= q < |ops| && By(ops[p]) == By(ops[q]) ==> p == q)
    && (forall h :: End(h) in s.log ==> Occurs(ops, h))
    && (forall p :: 0 <= p < |ops| ==> Begin(By(ops[p])) in s.log)
    && (forall p :: 0 <= p < |ops| && ops[p].AtomicPort? ==> Look(Port(ops[p].no), ops[p].willSet) in s.log)
    && (forall a, b :: Precedes(s.log, a, b) ==> Ordered(ops, a, b))
    && Agrees(flag, ops, s)
  }

  ghost predicate Agrees(flag: bool, ops: seq<Op>, s: State) {
    && Atomic(flag, ops).flag == s.flag
    && Atomic(flag, ops).out == Outputs(s.log) + Owed(s.tick)
  }

  function Owed(pc: TickPc): seq<bool> {
    if pc.TDrive? then [pc.on] else []
  }

  // ---------------------------------------------------------------------
  // Bookkeeping invariant: which handlers have begun, taken effect, ended
  // ---------------------------------------------------------------------

  predicate HasBegun(s: State, h: Handler) {
    match h
    case Tick(no) => no < s.ticks || (no == s.ticks && !s.tick.TIdle?)
    case Port(no) => no < s.ports || (no == s.ports && !s.port.PIdle?)
  }

  predicate HasTakenEffect(s: State, h: Handler) {
    match h
    case Tick(no) => no < s.ticks || (no == s.ticks && (s.tick.TDrive? || s.tick.TEnd?))
    case Port(no) => no < s.ports || (no == s.ports && s.port.PEnd?)
  }

  predicate HasEnded(s: State, h: Handler) {
    match h
    case Tick(no) => no < s.ticks
    case Port(no) => no < s.ports
  }

  ghost predicate Bookkeeping(s: State) {
    && (forall h :: Begin(h) in s.log <==> HasBegun(s, h))
    && (forall h :: End(h) in s.log <==> HasEnded(s, h))
    && (forall h :: Occurs(Effects(s.log), h) <==> HasTakenEffect(s, h))
    && (s.port.PSet? ==> Look(Port(s.ports), true) in s.log)
  }

  ghost predicate Linear(flag: bool, s: State) {
    && Bookkeeping(s)
    && Explains(flag, Effects(s.log), s)
    && (s.tick.TClear? ==> s.flag)
  }

  lemma OccursSnoc(ops: seq<Op>, op: Op)
    ensures forall h :: Occurs(ops + [op], h) <==> Occurs(ops, h) || By(op) == h
  {
    forall h
      ensures Occurs(ops + [op], h) <==> Occurs(ops, h) || By(op) == h
    {
      if Occurs(ops, h) {
        var p :| 0 <= p < |ops| && By(ops[p]) == h;
        assert By((ops + [op])[p]) == h;
      }
      if By(op) == h {
        assert By((ops + [op])[|ops|]) == h;
      }
    }
  }

  /** A longer log has the old precedences plus those of a new `Begin`. */
  lemma PrecedesSnoc(log: seq<Event>, e: Event, a: Handler, b: Handler)
    requires Precedes(log + [e], a, b)
    ensures Precedes(log, a, b) || (e == Begin(b) && End(a) in log)
  {
    var i, j :| 0 <= i < j < |log + [e]| && (log + [e])[i] == End(a) && (log + [e])[j] == Begin(b);
    if j < |log| {
      assert log[i] == End(a) && log[j] == Begin(b);
    }
  }

  lemma PrecedesIn(log: seq<Event>, a: Handler, b: Handler)
    requires Precedes(log, a, b)
    ensures End(a) in log && Begin(b) in log
  {
  }

  lemma OrderedSnoc(ops: seq<Op>, op: Op, a: Handler, b: Handler)
    requires Ordered(ops, a, b) && By(op) != a
    ensures Ordered(ops + [op], a, b)
  {
  }

  /** The event that a step appends. */
  function EventOf(s: State, step: Step): Event {
    match step
    case TickStep =>
      var h := Tick(s.ticks);
      (match s.tick
       case TIdle => Begin(h)
       case TTest => Look(h, s.flag)
       case TClear => Clear(h)
       case TDrive(on) => Drive(h, on)
       case TEnd => End(h))
    case PortStep(willSet) =>
      var h := Port(s.ports);
      (match s.port
       case PIdle => Begin(h)
       case PSample => Look(h, willSet)
       case PSet => Set(h)
       case PEnd => End(h))
  }

  lemma NextAppends(s: State, step: Step)
    ensures Next(s, step).log == s.log + [EventOf(s, step)]
  {
  }

  /** A step that takes effect does so for a handler that has begun, has not
      taken effect and has not ended. */
  lemma EffectIsCurrent(s: State, step: Step)
    ensures var eff := Effect(EventOf(s, step));
            eff.Some? ==>
              var h := By(eff.value);
              !HasTakenEffect(s, h) && !HasEnded(s, h) && HasBegun(s, h) && HasTakenEffect(Next(s, step), h)
  {
  }

  lemma OrderStepPair(flag: bool, s: State, step: Step, a: Handler, b: Handler)
    requires Linear(flag, s)
    requires Precedes(Next(s, step).log, a, b)
    ensures Ordered(Effects(Next(s, step).log), a, b)
  {
    var e := EventOf(s, step);
    var ops := Effects(s.log);
    NextAppends(s, step);
    EffectsSnoc(s.log, e);
    EffectIsCurrent(s, step);
    PrecedesSnoc(s.log, e, a, b);
    if e == Begin(b) {
      assert !HasTakenEffect(s, b);
      assert !Occurs(ops, b);
      assert Effect(e).None?;
    } else {
      PrecedesIn(s.log, a, b);
      assert HasEnded(s, a);
      if Effect(e).Some? {
        OrderedSnoc(ops, Effect(e).value, a, b);
      }
    }
  }

  lemma BookkeepingStep(s: State, step: Step)
    requires Bookkeeping(s)
    ensures Bookkeeping(Next(s, step))
  {
    var s' := Next(s, step);
    NextAppends(s, step);
    forall h
      ensures Begin(h) in s'.log <==> HasBegun(s', h)
      ensures End(h) in s'.log <==> HasEnded(s', h)
      ensures Occurs(Effects(s'.log), h) <==> HasTakenEffect(s', h)
    {
      LogMembership(s.log, EventOf(s, step), h);
      BegunStep(s, step, h);
      EffectStep(s, step, h);
    }
  }

  lemma LogMembership(log: seq<Event>, e: Event, h: Handler)
    ensures Begin(h) in log + [e] <==> Begin(h) in log || Begin(h) == e
    ensures End(h) in log + [e] <==> End(h) in log || End(h) == e
  {
  }

  lemma BegunStep(s: State, step: Step, h: Handler)
    ensures HasBegun(Next(s, step), h) <==> HasBegun(s, h) || Begin(h) == EventOf(s, step)
    ensures HasEnded(Next(s, step), h) <==> HasEnded(s, h) || End(h) == EventOf(s, step)
  {
  }

  lemma EffectStep(s: State, step: Step, h: Handler)
    requires Occurs(Effects(s.log), h) <==> HasTakenEffect(s, h)
    ensures Occurs(Effects(Next(s, step).log), h) <==> HasTakenEffect(Next(s, step), h)
  {
    var e := EventOf(s, step);
    NextAppends(s, step);
    EffectsSnoc(s.log, e);
    if Effect(e).Some? {
      OccursSnoc(Effects(s.log), Effect(e).value);
    }
  }

  /** The atomic run follows every step: nothing changes in it except at the
      statement where the handler takes effect. */
  lemma {:induction false} AtomicStep(flag: bool, s: State, step: Step)
    requires Agrees(flag, Effects(s.log), s) && (s.tick.TClear? ==> s.flag)
    ensures var s' := Next(s, step);
            Agrees(flag, Effects(s'.log), s') && (s'.tick.TClear? ==> s'.flag)
  {
    var e := EventOf(s, step);
    var s' := Next(s, step);
    NextAppends(s, step);
    EffectsSnoc(s.log, e);
    OutputsSnoc(s.log, e);
    AgreesStep(flag, Effects(s.log), Outputs(s.log), s, step);
  }

  lemma AgreesStep(flag: bool, ops: seq<Op>, out: seq<bool>, s: State, step: Step)
    requires Atomic(flag, ops) == AtomicState(s.flag, out + Owed(s.tick))
    requires s.tick.TClear? ==> s.flag
    ensures var s' := Next(s, step); var e := EventOf(s, step);
            && Atomic(flag, Extend(ops, Effect(e)))
               == AtomicState(s'.flag, out + (if e.Drive? then [e.on] else []) + Owed(s'.tick))
            && (s'.tick.TClear? ==> s'.flag)
  {
    var e := EventOf(s, step);
    var s' := Next(s, step);
    if Effect(e).Some? {
      AtomicSnoc(flag, ops, Effect(e).value);
    }
    if step.TickStep? {
      match s.tick {
        case TIdle =>
        case TTest =>
        case TClear =>
        case TDrive(_) =>
        case TEnd =>
      }
      assert out + (if e.Drive? then [e.on] else []) + Owed(s'.tick)
             == out + ((if e.Drive? then [e.on] else []) + Owed(s'.tick));
    } else {
      assert s'.tick == s.tick;
    }
  }

  lemma MembershipStep(flag: bool, s: State, step: Step)
    requires Linear(flag, s)
    ensures var s' := Next(s, step); var ops := Effects(s'.log);
            && (forall p, q :: 0 <= p < |ops| && 0 <= q < |ops| && By(ops[p]) == By(ops[q]) ==> p == q)
            && (forall p :: 0 <= p < |ops| ==> Begin(By(ops[p])) in s'.log)
            && (forall p :: 0 <= p < |ops| && ops[p].AtomicPort? ==> Look(Port(ops[p].no), ops[p].willSet) in s'.log)
  {
    var e := EventOf(s, step);
    NextAppends(s, step);
    EffectsSnoc(s.log, e);
    EffectIsCurrent(s, step);
    var ops := Effects(s.log);
    if Effect(e).Some? {
      var op := Effect(e).value;
      assert !Occurs(ops, By(op));
      assert Begin(By(op)) in s.log;
    }
  }

  lemma {:induction false} LinearStep(flag: bool, s: State, step: Step)
    requires Linear(flag, s)
    ensures Linear(flag, Next(s, step))
  {
    BookkeepingStep(s, step);
    AtomicStep(flag, s, step);
    MembershipStep(flag, s, step);
    var s' := Next(s, step);
    forall a, b | Precedes(s'.log, a, b)
      ensures Ordered(Effects(s'.log), a, b)
    {
      OrderStepPair(flag, s, step, a, b);
    }
    forall h | End(h) in s'.log
      ensures Occurs(Effects(s'.log), h)
    {
      assert HasEnded(s', h) && HasTakenEffect(s', h);
    }
  }

  lemma {:induction false} LinearRun(flag: bool, schedule: seq<Step>)
    ensures Linear(flag, Run(Init(flag), schedule))
  {
    if |schedule| > 0 {
      LinearRun(flag, schedule[..|schedule| - 1]);
      LinearStep(flag, Run(Init(flag), schedule[..|schedule| - 1]), schedule[|schedule| - 1]);
    }
  }

  /** Linearizability: every interleaving has an atomic run that explains it. */
  lemma {:induction false} Linearizable(flag: bool, schedule: seq<Step>)
    ensures exists ops :: Explains(flag, ops, Run(Init(flag), schedule))
  {
    LinearRun(flag, schedule);
  }

  // ---------------------------------------------------------------------
  // The converse: every atomic run is an interleaving
  // ---------------------------------------------------------------------

  predicate Idle(s: State) {
    s.tick.TIdle? && s.port.PIdle?
  }

  /** The statements of one uninterrupted handler. */
  function Whole(s: State, op: Op): seq<Step> {
    match op
    case AtomicTick(_) => seq(if s.flag then 5 else 4, _ => TickStep)
    case AtomicPort(_, willSet) => seq(if willSet then 4 else 3, _ => PortStep(willSet))
  }

  lemma {:induction false} RunOne(s: State, step: Step, rest: seq<Step>)
    ensures Run(s, [step] + rest) == Run(Next(s, step), rest)
  {
    RunConcat(s, [step], rest);
    assert [step][..0] == [];
    assert Run(s, [step]) == Next(s, step);
  }

  lemma {:induction false} RunRepeated(s: State, step: Step, n: nat)
    requires n > 0
    ensures Run(s, seq(n, _ => step)) == Run(Next(s, step), seq(n - 1, _ => step))
  {
    assert seq(n, _ => step) == [step] + seq(n - 1, _ => step);
    RunOne(s, step, seq(n - 1, _ => step));
  }

  /** Executing one whole handler from an idle state is the atomic operation. */
  lemma WholeIsAtomic(s: State, op: Op)
    requires Idle(s)
    ensures var s' := Run(s, Whole(s, op));
            Idle(s') && AtomicState(s'.flag, Outputs(s'.log)) == Apply(AtomicState(s.flag, Outputs(s.log)), op)
  {
    match op
    case AtomicTick(_) =>
      TickToIdle(s, if s.flag then 5 else 4);
    case AtomicPort(_, willSet) =>
      PortToIdle(s, willSet, if willSet then 4 else 3);
  }

  lemma {:induction false} TickToIdle(s: State, n: nat)
    requires n == (match s.tick
                   case TIdle => if s.flag then 5 else 4
                   case TTest => if s.flag then 4 else 3
                   case TClear => 3
                   case TDrive(_) => 2
                   case TEnd => 1)
    requires s.tick.TClear? ==> s.flag
    ensures var s' := Run(s, seq(n, _ => TickStep));
            && s'.tick.TIdle? && s'.port == s.port
            && s'.flag == (s.flag && (s.tick.TDrive? || s.tick.TEnd?))
            && Outputs(s'.log) == Outputs(s.log) +
                (if s.tick.TEnd? then [] else if s.tick.TDrive? then [s.tick.on] else [s.flag])
    decreases n
  {
    var s1 := Next(s, TickStep);
    RunRepeated(s, TickStep, n);
    NextAppends(s, TickStep);
    OutputsSnoc(s.log, EventOf(s, TickStep));
    if n > 1 {
      TickToIdle(s1, n - 1);
    } else {
      assert seq(0, _ => TickStep) == [];
    }
  }

  lemma {:induction false} PortToIdle(s: State, willSet: bool, n: nat)
    requires n == (match s.port
                   case PIdle => if willSet then 4 else 3
                   case PSample => if willSet then 3 else 2
                   case PSet => 2
                   case PEnd => 1)
    ensures var s' := Run(s, seq(n, _ => PortStep(willSet)));
            && s'.port.PIdle? && s'.tick == s.tick
            && s'.flag == (s.flag || (if s.port.PEnd? then false else s.port.PSet? || willSet))
            && Outputs(s'.log) == Outputs(s.log)
    decreases n
  {
    var s1 := Next(s, PortStep(willSet));
    RunRepeated(s, PortStep(willSet), n);
    NextAppends(s, PortStep(willSet));
    OutputsSnoc(s.log, EventOf(s, PortStep(willSet)));
    if n > 1 {
      PortToIdle(s1, willSet, n - 1);
    } else {
      assert seq(0, _ => PortStep(willSet)) == [];
    }
  }

  /** Every atomic run is the flag and the writes of some schedule: with
      `Linearizable`, the atomic machine has exactly the observable behaviours
      of the interleaved one. */
  lemma {:induction false} AtomicRunsHappen(flag: bool, ops: seq<Op>)
    ensures exists schedule ::
              var s := Run(Init(flag), schedule);
              Idle(s) && AtomicState(s.flag, Outputs(s.log)) == Atomic(flag, ops)
  {
    if |ops| == 0 {
      assert Idle(Run(Init(flag), []));
    } else {
      AtomicRunsHappen(flag, ops[..|ops| - 1]);
      var schedule :| var s := Run(Init(flag), schedule);
                      Idle(s) && AtomicState(s.flag, Outputs(s.log)) == Atomic(flag, ops[..|ops| - 1]);
      var s := Run(Init(flag), schedule);
      var op := ops[|ops| - 1];
      WholeIsAtomic(s, op);
      RunConcat(Init(flag), schedule, Whole(s, op));
      assert Idle(Run(Init(flag), schedule + Whole(s, op)));
    }
  }
}
