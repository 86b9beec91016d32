/** The interrupt handlers as code over their shared volatile flags. A handler
    that is preempted keeps its place in `tickPc` or `portPc`; `log` is the trace
    of what the statements did. */
module Events {
  import opened Handshake
  import opened Guarantees
  import opened Debounce
  import opened Lamps
  import opened Activations

  /** The state after all the statements of one uninterrupted tick. */
  lemma UninterruptedTick(s: State)
    requires s.tick.TIdle?
    ensures var h := Tick(s.ticks);
            Run(s, Whole(s, AtomicTick(s.ticks)))
            == s.(ticks := s.ticks + 1, flag := false,
                  log := s.log + [Begin(h)] + [Look(h, s.flag)]
                         + (if s.flag then [Clear(h)] + [Drive(h, true)] else [Drive(h, false)]) + [End(h)])
  {
    var n := if s.flag then 5 else 4;
    var s1 := TickNext(s);
    var s2 := TickNext(s1);
    var s3 := TickNext(s2);
    var s4 := TickNext(s3);
    RunRepeated(s, TickStep, n);
    RunRepeated(s1, TickStep, n - 1);
    RunRepeated(s2, TickStep, n - 2);
    RunRepeated(s3, TickStep, n - 3);
    if s.flag {
      RunRepeated(s4, TickStep, 1);
    }
  }

  class Buzzer {
    var buzzer: bool
    var tickPc: TickPc
    var ticks: nat
    var portPc: PortPc
    var ports: nat
    ghost var log: seq<Event>

    ghost function Abstract(): State
      reads this
    {
      State(buzzer, tickPc, ticks, portPc, ports, log)
    }

    constructor (buzzer: bool)
      ensures Abstract() == Init(buzzer)
    {
      this.buzzer := buzzer;
      tickPc, ticks, portPc, ports := TIdle, 0, PIdle, 0;
      log := [];
    }

    /** The next statement of PIT1_IRQHandler. */
    method Pit1Statement()
      modifies this
      ensures Abstract() == TickNext(old(Abstract()))
    {
      ghost var h := Tick(ticks);
      match tickPc {
        case TIdle =>
          tickPc := TTest;
          log := log + [Begin(h)];
        case TTest =>
          log := log + [Look(h, buzzer)];
          if buzzer {
            tickPc := TClear;
          } else {
            tickPc := TDrive(false);
          }
        case TClear =>
          buzzer := false;
          tickPc := TDrive(true);
          log := log + [Clear(h)];
        case TDrive(on) =>
          tickPc := TEnd;
          log := log + [Drive(h, on)];
        case TEnd =>
          tickPc, ticks := TIdle, ticks + 1;
          log := log + [End(h)];
      }
    }

    /** The next statement of PORTD_IRQHandler, with the level of the INT2 pin. */
    method PortDStatement(int2: Pin)
      modifies this
      ensures Abstract() == PortNext(old(Abstract()), int2 == 0)
    {
      ghost var h := Port(ports);
      match portPc {
        case PIdle =>
          portPc := PSample;
          log := log + [Begin(h)];
        case PSample =>
          log := log + [Look(h, int2 == 0)];
          if int2 == 0 {
            portPc := PSet;
          } else {
            portPc := PEnd;
          }
        case PSet =>
          buzzer := true;
          portPc := PEnd;
          log := log + [Set(h)];
        case PEnd =>
          portPc, ports := PIdle, ports + 1;
          log := log + [End(h)];
      }
    }

    /** PIT1_IRQHandler when nothing preempts it. */
    method Pit1IrqHandler()
      requires tickPc.TIdle?
      modifies this
      ensures tickPc.TIdle? && ticks == old(ticks) + 1 && portPc == old(portPc) && ports == old(ports)
      ensures !buzzer
      ensures Outputs(log) == Outputs(old(log)) + [old(buzzer)]
      ensures Abstract() == Run(old(Abstract()), Whole(old(Abstract()), AtomicTick(old(ticks))))
    {
      ghost var before := Abstract();
      ghost var h := Tick(ticks);
      log := log + [Begin(h)] + [Look(h, buzzer)];
      if buzzer {
        buzzer := false;
        log := log + ([Clear(h)] + [Drive(h, true)]);
      } else {
        log := log + [Drive(h, false)];
      }
      log := log + [End(h)];
      ticks := ticks + 1;
      UninterruptedTick(before);
      WholeIsAtomic(before.(port := PIdle), AtomicTick(before.ticks));
      UninterruptedTick(before.(port := PIdle));
    }

    /** Any interleaving of the two handlers' statements. */
    method Interleave(schedule: seq<Step>)
      modifies this
      ensures Abstract() == Run(old(Abstract()), schedule)
      ensures old(Abstract()) == Init(old(buzzer)) ==> Guaranteed(old(buzzer), log)
    {
      ghost var before := Abstract();
      for i := 0 to |schedule|
        invariant Abstract() == Run(before, schedule[..i])
      {
        assert schedule[..i + 1][..i] == schedule[..i];
        match schedule[i] {
          case TickStep => Pit1Statement();
          case PortStep(low) => PortDStatement(if low then 0 else 1);
        }
      }
      assert schedule[..|schedule|] == schedule;
      EveryRunIsGuaranteed(before.flag, schedule);
    }
  }

  /** The two lamps, their flags, and the card-detect handler. */
  class CardBoard {
    var cartao: bool
    var led7: bool
    var cardInserted: bool
    var tickPc: Pit2Pc
    var ticks: nat
    var portePc: PortePc
    var portes: nat
    var setterPc: PortPc
    var setters: nat
    ghost var log: seq<LampEvent>

    ghost function Abstract(): BoardState
      reads this
    {
      BoardState(cartao, led7, tickPc, ticks, portePc, portes, setterPc, setters, cardInserted, log)
    }

    constructor ()
      ensures Abstract() == InitBoard(false, false)
    {
      cartao, led7, cardInserted := false, false, false;
      tickPc, ticks, portePc, portes, setterPc, setters := Off, 0, EIdle, 0, PIdle, 0;
      log := [];
    }

    /** The next statement of PIT2_IRQHandler. */
    method Pit2Statement()
      modifies this
      ensures Abstract() == Pit2Next(old(Abstract()))
    {
      ghost var h := Tick(ticks);
      match tickPc {
        case Off =>
          tickPc := Test5;
          log := log + [Both(Begin(h))];
        case Test5 =>
          log := log + [One(Led5, Look(h, cartao))];
          if cartao {
            tickPc := Clear5;
          } else {
            tickPc := Drive5(false);
          }
        case Clear5 =>
          cartao := false;
          tickPc := Drive5(true);
          log := log + [One(Led5, Clear(h))];
        case Drive5(on) =>
          tickPc := Test7;
          log := log + [One(Led5, Drive(h, on))];
        case Test7 =>
          log := log + [One(Led7, Look(h, led7))];
          if led7 {
            tickPc := Clear7;
          } else {
            tickPc := Drive7(false);
          }
        case Clear7 =>
          led7 := false;
          tickPc := Drive7(true);
          log := log + [One(Led7, Clear(h))];
        case Drive7(on) =>
          tickPc := Leave;
          log := log + [One(Led7, Drive(h, on))];
        case Leave =>
          tickPc, ticks := Off, ticks + 1;
          log := log + [Both(End(h))];
      }
    }

    /** The next statement of PORTE_IRQHandler, check_card_inserted included. */
    method PorteStatement(pin: Pin)
      modifies this
      ensures Abstract() == PorteNext(old(Abstract()), pin)
    {
      ghost var h := Port(portes);
      match portePc {
        case EIdle =>
          portePc := ESample;
          log := log + [One(Led5, Begin(h))];
        case ESample =>
          log := log + [One(Led5, Look(h, true))];
          if pin == 0 {
            portePc := EFirst;
          } else {
            portePc := ESet;
          }
        case EFirst =>
          portePc := ELoop(pin);
        case ELoop(matchState) =>
          if pin == matchState {
            cardInserted := pin == 1;
            portePc := ESet;
            log := log + [Card(cardInserted)];
          } else {
            portePc := ELoop(pin);
          }
        case ESet =>
          cartao := true;
          portePc := EEnd;
          log := log + [One(Led5, Set(h))];
        case EEnd =>
          portePc, portes := EIdle, portes + 1;
          log := log + [One(Led5, End(h))];
      }
    }

    /** The next statement of any handler that may set led7. */
    method SetterStatement(willSet: bool)
      modifies this
      ensures Abstract() == SetterNext(old(Abstract()), willSet)
    {
      ghost var h := Port(setters);
      match setterPc {
        case PIdle =>
          setterPc := PSample;
          log := log + [One(Led7, Begin(h))];
        case PSample =>
          log := log + [One(Led7, Look(h, willSet))];
          if willSet {
            setterPc := PSet;
          } else {
            setterPc := PEnd;
          }
        case PSet =>
          led7 := true;
          setterPc := PEnd;
          log := log + [One(Led7, Set(h))];
        case PEnd =>
          setterPc, setters := PIdle, setters + 1;
          log := log + [One(Led7, End(h))];
      }
    }

    /** Any interleaving of the three handlers' statements. */
    method Interleave(schedule: seq<BoardStep>)
      modifies this
      ensures Abstract() == BoardRun(old(Abstract()), schedule)
      ensures old(Abstract()) == InitBoard(old(cartao), old(led7)) ==>
                Guaranteed(old(cartao), Project(Led5, log)) && Guaranteed(old(led7), Project(Led7, log))
      ensures old(portePc).EIdle? ==>
                var pin := Samples(schedule);
                && Decided(log) == Decided(old(log)) + Verdicts(pin)
                && cardInserted == LastOf(old(cardInserted), Verdicts(pin))
                && portes == old(portes) + Finished(pin)
    {
      ghost var before := Abstract();
      for i := 0 to |schedule|
        invariant Abstract() == BoardRun(before, schedule[..i])
      {
        assert schedule[..i + 1][..i] == schedule[..i];
        match schedule[i] {
          case Pit2 => Pit2Statement();
          case Porte(pin) => PorteStatement(pin);
          case Setter(willSet) => SetterStatement(willSet);
        }
      }
      assert schedule[..|schedule|] == schedule;
      if before.porte.EIdle? {
        BoardDecides(before, schedule);
      }
      if before == InitBoard(before.cartao, before.led7) {
        LampsKeepGuarantees(Led5, before.cartao, before.led7, schedule);
        LampsKeepGuarantees(Led7, before.cartao, before.led7, schedule);
      }
    }
  }
}
