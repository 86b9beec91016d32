/** The PIT2 handler, which serves two flags in one body, against the PORTE
    handler, which sets `cartao` after an optional debounce, and any other
    handler that sets `led7`. Again one step is one statement. */
module Lamps {
  import opened Handshake
  import opened Debounce
  import opened Guarantees

  datatype Lamp = Led5 | Led7

  /** An event of one lamp's handshake, of both, or the end of a debounce. */
  datatype LampEvent = One(lamp: Lamp, e: Event) | Both(e: Event) | Card(inserted: bool)

  datatype Pit2Pc =
    | Off
    | Test5 | Clear5 | Drive5(on: bool)
    | Test7 | Clear7 | Drive7(on: bool)
    | Leave

  datatype PortePc = EIdle | ESample | EFirst | ELoop(state: Pin) | ESet | EEnd

  datatype BoardState = BoardState(
    cartao: bool, led7: bool,
    tick: Pit2Pc, ticks: nat,
    porte: PortePc, portes: nat,
    setter: PortPc, setters: nat,
    cardInserted: bool,
    log: seq<LampEvent>)

  /** `Porte(pin)` carries the level of the card-detect pin, read only by the
      statements that sample it; `Setter` is a statement of the led7 setter. */
  datatype BoardStep = Pit2 | Porte(pin: Pin) | Setter(willSet: bool)

  function InitBoard(cartao: bool, led7: bool): BoardState {
    BoardState(cartao, led7, Off, 0, EIdle, 0, PIdle, 0, false, [])
  }

  function Pit2Next(s: BoardState): BoardState {
    var h := Tick(s.ticks);
    match s.tick
    case Off => s.(tick := Test5, log := s.log + [Both(Begin(h))])
    case Test5 => s.(tick := if s.cartao then Clear5 else Drive5(false), log := s.log + [One(Led5, Look(h, s.cartao))])
    case Clear5 => s.(tick := Drive5(true), cartao := false, log := s.log + [One(Led5, Clear(h))])
    case Drive5(on) => s.(tick := Test7, log := s.log + [One(Led5, Drive(h, on))])
    case Test7 => s.(tick := if s.led7 then Clear7 else Drive7(false), log := s.log + [One(Led7, Look(h, s.led7))])
    case Clear7 => s.(tick := Drive7(true), led7 := false, log := s.log + [One(Led7, Clear(h))])
    case Drive7(on) => s.(tick := Leave, log := s.log + [One(Led7, Drive(h, on))])
    case Leave => s.(tick := Off, ticks := s.ticks + 1, log := s.log + [Both(End(h))])
  }

  function PorteNext(s: BoardState, pin: Pin): BoardState {
    var h := Port(s.portes);
    match s.porte
    case EIdle => s.(porte := ESample, log := s.log + [One(Led5, Begin(h))])
    case ESample => s.(porte := if pin == 0 then EFirst else ESet, log := s.log + [One(Led5, Look(h, true))])
    case EFirst => s.(porte := ELoop(pin))
    case ELoop(state) =>
      if pin == state then s.(porte := ESet, cardInserted := pin == 1, log := s.log + [Card(pin == 1)])
      else s.(porte := ELoop(pin))
    case ESet => s.(porte := EEnd, cartao := true, log := s.log + [One(Led5, Set(h))])
    case EEnd => s.(porte := EIdle, portes := s.portes + 1, log := s.log + [One(Led5, End(h))])
  }

  function SetterNext(s: BoardState, willSet: bool): BoardState {
    var h := Port(s.setters);
    match s.setter
    case PIdle => s.(setter := PSample, log := s.log + [One(Led7, Begin(h))])
    case PSample => s.(setter := if willSet then PSet else PEnd, log := s.log + [One(Led7, Look(h, willSet))])
    case PSet => s.(setter := PEnd, led7 := true, log := s.log + [One(Led7, Set(h))])
    case PEnd => s.(setter := PIdle, setters := s.setters + 1, log := s.log + [One(Led7, End(h))])
  }

  function BoardNext(s: BoardState, step: BoardStep): BoardState {
    match step
    case Pit2 => Pit2Next(s)
    case Porte(pin) => PorteNext(s, pin)
    case Setter(willSet) => SetterNext(s, willSet)
  }

  function BoardRun(s: BoardState, schedule: seq<BoardStep>): BoardState {
    if |schedule| == 0 then s
    else BoardNext(BoardRun(s, schedule[..|schedule| - 1]), schedule[|schedule| - 1])
  }

  lemma {:induction false} BoardRunConcat(s: BoardState, a: seq<BoardStep>, b: seq<BoardStep>)
    ensures BoardRun(s, a + b) == BoardRun(BoardRun(s, a), b)
    decreases |b|
  {
    if |b| == 0 {
      assert a + b == a;
    } else {
      var n := |b| - 1;
      assert (a + b)[..|a + b| - 1] == a + b[..n];
      BoardRunConcat(s, a, b[..n]);
    }
  }

  // ---------------------------------------------------------------------
  // What one lamp sees
  // ---------------------------------------------------------------------

  function Seen(lamp: Lamp, e: LampEvent): seq<Event> {
    match e
    case One(l, ev) => if l == lamp then [ev] else []
    case Both(ev) => [ev]
    case Card(_) => []
  }

  function Project(lamp: Lamp, log: seq<LampEvent>): seq<Event> {
    if |log| == 0 then [] else Project(lamp, log[..|log| - 1]) + Seen(lamp, log[|log| - 1])
  }

  function TickView(lamp: Lamp, pc: Pit2Pc): TickPc {
    match pc
    case Off => TIdle
    case Leave => TEnd
    case Test5 => TTest
    case Clear5 => if lamp.Led5? then TClear else TTest
    case Drive5(on) => if lamp.Led5? then TDrive(on) else TTest
    case Test7 => if lamp.Led5? then TEnd else TTest
    case Clear7 => if lamp.Led5? then TEnd else TClear
    case Drive7(on) => if lamp.Led5? then TEnd else TDrive(on)
  }

  function PorteView(pc: PortePc): PortPc {
    match pc
    case EIdle => PIdle
    case ESample => PSample
    case EFirst => PSet
    case ELoop(_) => PSet
    case ESet => PSet
    case EEnd => PEnd
  }

  /** The board as the handshake of one lamp. */
  function View(lamp: Lamp, s: BoardState): State {
    ViewWith(lamp, s, Project(lamp, s.log))
  }

  function ViewWith(lamp: Lamp, s: BoardState, log: seq<Event>): State {
    if lamp.Led5? then
      State(s.cartao, TickView(lamp, s.tick), s.ticks, PorteView(s.porte), s.portes, log)
    else
      State(s.led7, TickView(lamp, s.tick), s.ticks, s.setter, s.setters, log)
  }

  /** The handshake step that a board step is for one lamp, if it is one at all. */
  function StepView(lamp: Lamp, s: BoardState, step: BoardStep): seq<Step> {
    match step
    case Pit2 =>
      (match s.tick
       case Off => [TickStep]
       case Leave => [TickStep]
       case Test5 => if lamp.Led5? then [TickStep] else []
       case Clear5 => if lamp.Led5? then [TickStep] else []
       case Drive5(_) => if lamp.Led5? then [TickStep] else []
       case Test7 => if lamp.Led5? then [] else [TickStep]
       case Clear7 => if lamp.Led5? then [] else [TickStep]
       case Drive7(_) => if lamp.Led5? then [] else [TickStep])
    case Porte(_) => if lamp.Led5? && !s.porte.EFirst? && !s.porte.ELoop? then [PortStep(true)] else []
    case Setter(willSet) => if lamp.Led7? then [PortStep(willSet)] else []
  }

  function ScheduleView(lamp: Lamp, s: BoardState, schedule: seq<BoardStep>): seq<Step> {
    if |schedule| == 0 then []
    else
      var n := |schedule| - 1;
      ScheduleView(lamp, s, schedule[..n]) + StepView(lamp, BoardRun(s, schedule[..n]), schedule[n])
  }

  /** What a lamp's handshake does in answer to at most one step. */
  function Advance(s: State, steps: seq<Step>): State {
    if |steps| == 0 then s else Next(s, steps[0])
  }

  function BoardEvent(s: BoardState, step: BoardStep): seq<LampEvent> {
    match step
    case Pit2 =>
      var h := Tick(s.ticks);
      (match s.tick
       case Off => [Both(Begin(h))]
       case Test5 => [One(Led5, Look(h, s.cartao))]
       case Clear5 => [One(Led5, Clear(h))]
       case Drive5(on) => [One(Led5, Drive(h, on))]
       case Test7 => [One(Led7, Look(h, s.led7))]
       case Clear7 => [One(Led7, Clear(h))]
       case Drive7(on) => [One(Led7, Drive(h, on))]
       case Leave => [Both(End(h))])
    case Porte(pin) =>
      var h := Port(s.portes);
      (match s.porte
       case EIdle => [One(Led5, Begin(h))]
       case ESample => [One(Led5, Look(h, true))]
       case EFirst => []
       case ELoop(state) => if pin == state then [Card(pin == 1)] else []
       case ESet => [One(Led5, Set(h))]
       case EEnd => [One(Led5, End(h))])
    case Setter(willSet) =>
      var h := Port(s.setters);
      (match s.setter
       case PIdle => [One(Led7, Begin(h))]
       case PSample => [One(Led7, Look(h, willSet))]
       case PSet => [One(Led7, Set(h))]
       case PEnd => [One(Led7, End(h))])
  }

  lemma BoardAppends(s: BoardState, step: BoardStep)
    ensures BoardNext(s, step).log == s.log + BoardEvent(s, step)
  {
  }

  function SeenAll(lamp: Lamp, es: seq<LampEvent>): seq<Event> {
    if |es| == 0 then [] else Seen(lamp, es[0])
  }

  lemma Pit2At5(s: BoardState, log: seq<Event>)
    ensures ViewWith(Led5, Pit2Next(s), log + SeenAll(Led5, BoardEvent(s, Pit2)))
            == Advance(ViewWith(Led5, s, log), StepView(Led5, s, Pit2))
  {
    assert log + [] == log;
    match s.tick
    case Off =>
    case Test5 =>
    case Clear5 =>
    case Drive5(_) =>
    case Test7 =>
    case Clear7 =>
    case Drive7(_) =>
    case Leave =>
  }

  lemma Pit2At7(s: BoardState, log: seq<Event>)
    ensures ViewWith(Led7, Pit2Next(s), log + SeenAll(Led7, BoardEvent(s, Pit2)))
            == Advance(ViewWith(Led7, s, log), StepView(Led7, s, Pit2))
  {
    assert log + [] == log;
    match s.tick
    case Off =>
    case Test5 =>
    case Clear5 =>
    case Drive5(_) =>
    case Test7 =>
    case Clear7 =>
    case Drive7(_) =>
    case Leave =>
  }

  lemma {:induction false} PorteProjects(lamp: Lamp, s: BoardState, pin: Pin, log: seq<Event>)
    ensures ViewWith(lamp, PorteNext(s, pin), log + SeenAll(lamp, BoardEvent(s, Porte(pin))))
            == Advance(ViewWith(lamp, s, log), StepView(lamp, s, Porte(pin)))
  {
    assert log + [] == log;
    match s.porte
    case EIdle =>
    case ESample =>
    case EFirst =>
    case ELoop(_) =>
    case ESet =>
    case EEnd =>
  }

  lemma {:induction false} SetterProjects(lamp: Lamp, s: BoardState, willSet: bool, log: seq<Event>)
    ensures ViewWith(lamp, SetterNext(s, willSet), log + SeenAll(lamp, BoardEvent(s, Setter(willSet))))
            == Advance(ViewWith(lamp, s, log), StepView(lamp, s, Setter(willSet)))
  {
    assert log + [] == log;
    match s.setter
    case PIdle =>
    case PSample =>
    case PSet =>
    case PEnd =>
  }

  lemma {:induction false} ProjectAppends(lamp: Lamp, s: BoardState, step: BoardStep)
    ensures Project(lamp, BoardNext(s, step).log) == Project(lamp, s.log) + SeenAll(lamp, BoardEvent(s, step))
  {
    var es := BoardEvent(s, step);
    BoardAppends(s, step);
    if |es| == 0 {
      assert s.log + es == s.log;
    } else {
      assert es == [es[0]];
    }
  }

  lemma {:induction false} StepProjects(lamp: Lamp, s: BoardState, step: BoardStep)
    ensures View(lamp, BoardNext(s, step)) == Run(View(lamp, s), StepView(lamp, s, step))
  {
    ProjectAppends(lamp, s, step);
    match step
    case Pit2 =>
      if lamp.Led5? {
        Pit2At5(s, Project(lamp, s.log));
      } else {
        Pit2At7(s, Project(lamp, s.log));
      }
    case Porte(pin) => PorteProjects(lamp, s, pin, Project(lamp, s.log));
    case Setter(willSet) => SetterProjects(lamp, s, willSet, Project(lamp, s.log));
  }

  /** Composition: seen from either lamp, every run of the board is a run of that
      lamp's own handshake. */
  lemma {:induction false} RunProjects(lamp: Lamp, s: BoardState, schedule: seq<BoardStep>)
    ensures View(lamp, BoardRun(s, schedule)) == Run(View(lamp, s), ScheduleView(lamp, s, schedule))
  {
    if |schedule| > 0 {
      var n := |schedule| - 1;
      var mid := BoardRun(s, schedule[..n]);
      RunProjects(lamp, s, schedule[..n]);
      StepProjects(lamp, mid, schedule[n]);
      RunConcat(View(lamp, s), ScheduleView(lamp, s, schedule[..n]), StepView(lamp, mid, schedule[n]));
    }
  }

  function FlagOf(lamp: Lamp, cartao: bool, led7: bool): bool {
    if lamp.Led5? then cartao else led7
  }

  /** Both lamps keep the three guarantees and are explained by atomic runs. */
  lemma {:induction false} LampsKeepGuarantees(lamp: Lamp, cartao: bool, led7: bool, schedule: seq<BoardStep>)
    ensures var s := BoardRun(InitBoard(cartao, led7), schedule);
            && Guaranteed(FlagOf(lamp, cartao, led7), Project(lamp, s.log))
            && exists ops :: Explains(FlagOf(lamp, cartao, led7), ops, View(lamp, s))
  {
    var s := InitBoard(cartao, led7);
    RunProjects(lamp, s, schedule);
    assert View(lamp, s) == Init(FlagOf(lamp, cartao, led7));
    EveryRunIsGuaranteed(FlagOf(lamp, cartao, led7), ScheduleView(lamp, s, schedule));
    Linearizable(FlagOf(lamp, cartao, led7), ScheduleView(lamp, s, schedule));
  }

  // ---------------------------------------------------------------------
  // Non-interference: the other lamp's flag might as well never be set
  // ---------------------------------------------------------------------

  /** The steps of the other lamp's setter do not occur. */
  predicate Quiet(lamp: Lamp, schedule: seq<BoardStep>) {
    forall i :: 0 <= i < |schedule| ==> if lamp.Led5? then !schedule[i].Setter? else !schedule[i].Porte?
  }

  /** The board waits where the lamp's own handshake is about to act. */
  predicate Resting(lamp: Lamp, s: BoardState) {
    if lamp.Led5? then
      && !s.led7 && !s.tick.Clear7? && !s.tick.Drive7? && !s.tick.Leave?
      && !s.porte.EFirst? && !s.porte.ELoop?
    else
      !s.cartao && !s.tick.Test5? && !s.tick.Clear5? && !s.tick.Drive5?
  }

  /** The board steps that amount to one handshake step of the lamp. */
  function Lift(lamp: Lamp, s: BoardState, step: Step): seq<BoardStep> {
    match step
    case TickStep =>
      if s.tick == (if lamp.Led5? then Test7 else Off) then [Pit2, Pit2, Pit2] else [Pit2]
    case PortStep(willSet) =>
      if lamp.Led5? then [Porte(1)] else [Setter(willSet)]
  }

  lemma BoardRun3(s: BoardState, a: BoardStep)
    ensures BoardRun(s, [a, a, a]) == BoardNext(BoardNext(BoardNext(s, a), a), a)
  {
    BoardRunConcat(s, [a], [a]);
    BoardRunConcat(s, [a] + [a], [a]);
    assert [a] + [a] + [a] == [a, a, a];
  }

  /** A board step that one lamp sees as exactly that step, or does not see. */
  lemma {:induction false} SeenStep(lamp: Lamp, s: BoardState, b: BoardStep)
    ensures View(lamp, BoardNext(s, b)) == Advance(View(lamp, s), StepView(lamp, s, b))
  {
    StepProjects(lamp, s, b);
  }

  /** The tick passes through the other lamp's part, whose flag is false. */
  lemma LiftDetour(lamp: Lamp, s: BoardState)
    requires Resting(lamp, s) && s.tick == if lamp.Led5? then Test7 else Off
    ensures var s' := BoardNext(BoardNext(BoardNext(s, Pit2), Pit2), Pit2);
            Resting(lamp, s') && View(lamp, s') == Next(View(lamp, s), TickStep)
  {
    var s1 := BoardNext(s, Pit2);
    var s2 := BoardNext(s1, Pit2);
    hide View, Next;
    SeenStep(lamp, s, Pit2);
    SeenStep(lamp, s1, Pit2);
    SeenStep(lamp, s2, Pit2);
  }

  /** Away from the detour one board step is one step of the lamp. */
  lemma LiftPlain(lamp: Lamp, s: BoardState, step: Step, b: BoardStep)
    requires Resting(lamp, s)
    requires lamp.Led5? ==> step != PortStep(false)
    requires step.TickStep? ==> s.tick != if lamp.Led5? then Test7 else Off
    requires b == if step.TickStep? then Pit2 else if lamp.Led5? then Porte(1) else Setter(step.willSet)
    ensures StepView(lamp, s, b) == [step] && Resting(lamp, BoardNext(s, b))
  {
  }

  lemma {:induction false} LiftStep(lamp: Lamp, s: BoardState, step: Step)
    requires Resting(lamp, s)
    requires lamp.Led5? ==> step != PortStep(false)
    ensures var s' := BoardRun(s, Lift(lamp, s, step));
            Resting(lamp, s') && View(lamp, s') == Next(View(lamp, s), step)
  {
    if step.TickStep? && s.tick == (if lamp.Led5? then Test7 else Off) {
      BoardRun3(s, Pit2);
      LiftDetour(lamp, s);
    } else {
      var b := if step.TickStep? then Pit2 else if lamp.Led5? then Porte(1) else Setter(step.willSet);
      assert Lift(lamp, s, step) == [b];
      LiftPlain(lamp, s, step, b);
      hide BoardNext, View, StepView, Resting, Next;
      SeenStep(lamp, s, b);
    }
  }

  ghost predicate Realizes(lamp: Lamp, flag: bool, target: State, quiet: seq<BoardStep>) {
    var s := BoardRun(InitBoard(lamp.Led5? && flag, lamp.Led7? && flag), quiet);
    Quiet(lamp, quiet) && Resting(lamp, s) && View(lamp, s) == target
  }

  lemma RealizesNext(lamp: Lamp, flag: bool, target: State, quiet: seq<BoardStep>,
      step: Step) returns (more: seq<BoardStep>)
    requires Realizes(lamp, flag, target, quiet)
    requires lamp.Led5? ==> step != PortStep(false)
    ensures Realizes(lamp, flag, Next(target, step), more)
  {
    hide View, Next, Resting, BoardRun;
    var init := InitBoard(lamp.Led5? && flag, lamp.Led7? && flag);
    var s := BoardRun(init, quiet);
    LiftStep(lamp, s, step);
    BoardRunConcat(init, quiet, Lift(lamp, s, step));
    more := quiet + Lift(lamp, s, step);
  }

  lemma {:induction false} LiftRun(lamp: Lamp, flag: bool, schedule: seq<Step>)
    requires lamp.Led5? ==> PortStep(false) !in schedule
    ensures exists quiet :: Realizes(lamp, flag, Run(Init(flag), schedule), quiet)
  {
    if |schedule| == 0 {
      assert Realizes(lamp, flag, Run(Init(flag), schedule), []);
    } else {
      var n := |schedule| - 1;
      LiftRun(lamp, flag, schedule[..n]);
      var quiet :| Realizes(lamp, flag, Run(Init(flag), schedule[..n]), quiet);
      var more := RealizesNext(lamp, flag, Run(Init(flag), schedule[..n]), quiet, schedule[n]);
      assert Realizes(lamp, flag, Run(Init(flag), schedule), more);
    }
  }

  lemma {:induction false} PorteAlwaysSets(s: BoardState, schedule: seq<BoardStep>)
    ensures PortStep(false) !in ScheduleView(Led5, s, schedule)
  {
    if |schedule| > 0 {
      PorteAlwaysSets(s, schedule[..|schedule| - 1]);
    }
  }

  /** Whatever the other lamp's flag was and whatever its setter does, this lamp
      behaves as in some run in which that flag is never set at all. */
  lemma {:induction false} LampsDoNotInterfere(lamp: Lamp, cartao: bool, led7: bool, schedule: seq<BoardStep>)
    ensures exists quiet ::
              Realizes(lamp, FlagOf(lamp, cartao, led7), View(lamp, BoardRun(InitBoard(cartao, led7), schedule)), quiet)
  {
    var s := InitBoard(cartao, led7);
    PorteAlwaysSets(s, schedule);
    RunProjects(lamp, s, schedule);
    assert View(lamp, s) == Init(FlagOf(lamp, cartao, led7));
    LiftRun(lamp, FlagOf(lamp, cartao, led7), ScheduleView(lamp, s, schedule));
  }

  // ---------------------------------------------------------------------
  // A bouncing card detect pin holds PORTE up, and nothing else
  // ---------------------------------------------------------------------

  /** The samples that the card handler takes in a schedule, whatever else runs. */
  function Samples(schedule: seq<BoardStep>): seq<Pin> {
    if |schedule| == 0 then []
    else
      var last := schedule[|schedule| - 1];
      Samples(schedule[..|schedule| - 1]) + if last.Porte? then [last.pin] else []
  }

  /** The debounces that have ended, with the card state each decided. */
  function Decided(log: seq<LampEvent>): seq<bool> {
    if |log| == 0 then []
    else
      var last := log[|log| - 1];
      Decided(log[..|log| - 1]) + if last.Card? then [last.inserted] else []
  }

  lemma DecidedSnoc(log: seq<LampEvent>, es: seq<LampEvent>)
    requires |es| <= 1
    ensures Decided(log + es) == Decided(log) + if |es| == 1 && es[0].Card? then [es[0].inserted] else []
  {
    if |es| == 0 {
      assert log + es == log;
    } else {
      assert (log + es)[..|log|] == log;
    }
  }

  /** The handler is inside the debounce of activation s.portes: it has decided nothing
      and set nothing since s. */
  predicate Debouncing(s: BoardState, s': BoardState) {
    && s'.portes == s.portes && s'.cardInserted == s.cardInserted
    && (s'.cartao ==> s.cartao) && Decided(s'.log) == Decided(s.log)
  }

  lemma NoCard(s: BoardState, step: BoardStep)
    requires !step.Porte?
    ensures |BoardEvent(s, step)| == 1 && !BoardEvent(s, step)[0].Card?
  {
    match step
    case Pit2 => match s.tick { case _ => }
    case Setter(_) => match s.setter { case _ => }
  }

  lemma OnlyPorteMoves(s: BoardState, step: BoardStep)
    requires !step.Porte?
    ensures var s' := BoardNext(s, step);
            && s'.porte == s.porte && s'.portes == s.portes && s'.cardInserted == s.cardInserted
            && (s'.cartao ==> s.cartao)
  {
  }

  lemma OnlyPorteDebounces(s: BoardState, step: BoardStep)
    requires !step.Porte?
    ensures Debouncing(s, BoardNext(s, step)) && BoardNext(s, step).porte == s.porte
  {
    OnlyPorteMoves(s, step);
    NoCard(s, step);
    BoardAppends(s, step);
    DecidedSnoc(s.log, BoardEvent(s, step));
    hide BoardNext, BoardEvent, Decided;
  }

  /** One more sample inside the loop. */
  lemma PorteDebounces(s: BoardState, pin: Pin)
    requires s.porte.EFirst? || s.porte.ELoop?
    ensures var s' := BoardNext(s, Porte(pin));
            if s.porte == ELoop(pin) then
              && s'.porte == ESet && s'.portes == s.portes && s'.cartao == s.cartao
              && s'.cardInserted == (pin == 1) && Decided(s'.log) == Decided(s.log) + [pin == 1]
            else Debouncing(s, s') && s'.porte == ELoop(pin)
  {
    BoardAppends(s, Porte(pin));
    DecidedSnoc(s.log, BoardEvent(s, Porte(pin)));
    hide Decided;
  }

  lemma SettledValue(pin: seq<Pin>)
    requires |pin| >= 2 && FirstSettled(pin, |pin| - 2)
    ensures Unsettled(pin[..|pin| - 1])
    ensures pin[|pin| - 2] == pin[|pin| - 1]
    ensures (pin[|pin| - 1] == 1) == ((pin[0] == 1) != (|pin| % 2 == 1))
  {
    var before := pin[..|pin| - 1];
    forall i | 0 <= i < |before|
      ensures !Settles(before, i)
    {
      assert 0 <= i < |pin| - 2 ==> !Settles(pin, i);
    }
    Alternates(pin, |pin| - 2);
  }

  /** Whatever the timer and the other setter do meanwhile, the card handler stays in its
      loop while no two successive samples of its own agree. */
  lemma {:induction false} DebounceHolds(s: BoardState, schedule: seq<BoardStep>)
    requires s.porte.EFirst?
    requires Unsettled(Samples(schedule))
    ensures var s', pin := BoardRun(s, schedule), Samples(schedule);
            && Debouncing(s, s')
            && s'.porte == if |pin| == 0 then EFirst else ELoop(pin[|pin| - 1])
  {
    hide BoardNext, Decided, Unsettled;
    if |schedule| > 0 {
      var n := |schedule| - 1;
      var mid, step := BoardRun(s, schedule[..n]), schedule[n];
      var before, pin := Samples(schedule[..n]), Samples(schedule);
      PrefixUnsettled(before, pin[|before|..], pin);
      DebounceHolds(s, schedule[..n]);
      match step {
        case Porte(sample) => PorteDebounces(mid, sample);
        case _ => OnlyPorteDebounces(mid, step);
      }
    }
  }

  /** The last two of unsettled samples differ, and a prefix is unsettled too. */
  lemma PrefixUnsettled(before: seq<Pin>, more: seq<Pin>, pin: seq<Pin>)
    requires pin == before + more && |more| <= 1 && Unsettled(pin)
    ensures Unsettled(before)
    ensures |before| > 0 && |more| == 1 ==> before[|before| - 1] != more[0]
  {
    forall i | 0 <= i < |before|
      ensures !Settles(before, i)
    {
      assert !Settles(pin, i);
    }
    assert |before| > 0 ==> !Settles(pin, |before| - 1);
  }

  /** Likewise it leaves the loop at its first two equal samples, with the card state
      that their parity decides; nothing but its own set is left for it to do. */
  lemma {:induction false} DebounceEnds(s: BoardState, schedule: seq<BoardStep>)
    requires s.porte.EFirst?
    requires |Samples(schedule)| >= 2 && FirstSettled(Samples(schedule), |Samples(schedule)| - 2)
    ensures var s', pin := BoardRun(s, schedule), Samples(schedule);
            var inserted := (pin[0] == 1) != (|pin| % 2 == 1);
            && s'.porte == ESet && s'.portes == s.portes
            && s'.cardInserted == inserted && Decided(s'.log) == Decided(s.log) + [inserted]
            && (s'.cartao ==> s.cartao)
  {
    hide BoardNext, Decided, Unsettled, FirstSettled;
    var n := |schedule| - 1;
    var mid, step := BoardRun(s, schedule[..n]), schedule[n];
    var pin := Samples(schedule);
    SettledValue(pin);
    match step {
      case Porte(sample) =>
        assert Samples(schedule[..n]) == pin[..|pin| - 1];
        DebounceHolds(s, schedule[..n]);
        PorteDebounces(mid, sample);
      case _ =>
        assert Samples(schedule[..n]) == pin;
        DebounceEnds(s, schedule[..n]);
        OnlyPorteDebounces(mid, step);
    }
  }
}
