/** Whole activations of the PORTE handler on the board, from their first statement to their
    last: when it debounces, how many samples it takes, and what it decides. */
module Activations {
  import opened Wrappers
  import opened Debounce
  import opened Lamps

  // ---------------------------------------------------------------------
  // What the samples decide
  // ---------------------------------------------------------------------

  /** The first sample from i on that the next one agrees with. */
  function FirstPair(pin: seq<Pin>, i: nat): (r: Option<nat>)
    ensures r.Some? ==> i <= r.value && Settles(pin, r.value) && forall j :: i <= j < r.value ==> !Settles(pin, j)
    ensures r.None? ==> forall j :: i <= j ==> !Settles(pin, j)
    decreases |pin| - i
  {
    if i + 1 >= |pin| then None
    else if pin[i] == pin[i + 1] then Some(i)
    else FirstPair(pin, i + 1)
  }

  /** The statements of the activation that begins with the first of these, each with the
      level of the pin meanwhile; more than there are if it is not over. It enters, tests
      the pin, sets its flag and leaves; and if the pin tested low it debounces in between,
      up to the first two successive samples that agree. */
  function Span(pin: seq<Pin>): (n: nat)
    ensures n >= 4
  {
    if |pin| < 2 || pin[1] == 1 then 4
    else
      match FirstPair(pin[2..], 0)
      case Some(i) => 2 + (i + 2) + 2
      case None => |pin| + 4
  }

  /** The card state that this activation decides, if it has come to that: the level on
      which the two samples agree. */
  function Verdict(pin: seq<Pin>): (v: seq<bool>)
    ensures |v| <= 1
  {
    if |pin| < 2 || pin[1] == 1 then []
    else
      match FirstPair(pin[2..], 0)
      case Some(i) => [pin[2 + i] == 1]
      case None => []
  }

  /** All activations, one behind the other. */
  function Verdicts(pin: seq<Pin>): seq<bool>
    decreases |pin|
  {
    Verdict(pin) + if Span(pin) <= |pin| then Verdicts(pin[Span(pin)..]) else []
  }

  function Finished(pin: seq<Pin>): nat
    decreases |pin|
  {
    if Span(pin) <= |pin| then 1 + Finished(pin[Span(pin)..]) else 0
  }

  // ---------------------------------------------------------------------
  // What the handler does, apart from the rest of the board
  // ---------------------------------------------------------------------

  /** The part of the board that the handler's own statements decide. */
  datatype CardState = CardState(pc: PortePc, portes: nat, inserted: bool, decided: seq<bool>)

  function CardView(s: BoardState): CardState {
    CardState(s.porte, s.portes, s.cardInserted, Decided(s.log))
  }

  function CardStep(c: CardState, pin: Pin): CardState {
    match c.pc
    case EIdle => c.(pc := ESample)
    case ESample => c.(pc := if pin == 0 then EFirst else ESet)
    case EFirst => c.(pc := ELoop(pin))
    case ELoop(state) =>
      if pin == state then c.(pc := ESet, inserted := pin == 1, decided := c.decided + [pin == 1])
      else c.(pc := ELoop(pin))
    case ESet => c.(pc := EEnd)
    case EEnd => c.(pc := EIdle, portes := c.portes + 1)
  }

  function CardRun(c: CardState, pin: seq<Pin>): CardState {
    if |pin| == 0 then c else CardStep(CardRun(c, pin[..|pin| - 1]), pin[|pin| - 1])
  }

  lemma {:induction false} CardRunConcat(c: CardState, a: seq<Pin>, b: seq<Pin>)
    ensures CardRun(c, a + b) == CardRun(CardRun(c, a), b)
    decreases |b|
  {
    if |b| == 0 {
      assert a + b == a;
    } else {
      assert (a + b)[..|a + b| - 1] == a + b[..|b| - 1];
      CardRunConcat(c, a, b[..|b| - 1]);
    }
  }

  lemma PorteIsCardStep(s: BoardState, pin: Pin)
    ensures CardView(BoardNext(s, Porte(pin))) == CardStep(CardView(s), pin)
  {
    hide Decided;
    BoardAppends(s, Porte(pin));
    DecidedSnoc(s.log, BoardEvent(s, Porte(pin)));
    assert Decided(s.log) + [] == Decided(s.log);
    match s.porte
    case EIdle =>
    case ESample =>
    case EFirst =>
    case ELoop(_) =>
    case ESet =>
    case EEnd =>
  }

  /** Whatever else runs, only the handler's own statements matter. */
  lemma {:induction false} BoardIsCardRun(s: BoardState, schedule: seq<BoardStep>)
    ensures CardView(BoardRun(s, schedule)) == CardRun(CardView(s), Samples(schedule))
  {
    hide BoardNext, Decided;
    if |schedule| > 0 {
      var n := |schedule| - 1;
      var mid, step := BoardRun(s, schedule[..n]), schedule[n];
      BoardIsCardRun(s, schedule[..n]);
      match step {
        case Porte(pin) => PorteIsCardStep(mid, pin);
        case _ =>
          OnlyPorteDebounces(mid, step);
          assert Samples(schedule) == Samples(schedule[..n]);
      }
    }
  }

  // ---------------------------------------------------------------------
  // One activation
  // ---------------------------------------------------------------------

  lemma {:induction false} LoopHolds(c: CardState, d: seq<Pin>)
    requires c.pc.EFirst? && forall j :: 0 <= j ==> !Settles(d, j)
    ensures CardRun(c, d) == c.(pc := if |d| == 0 then EFirst else ELoop(d[|d| - 1]))
  {
    if |d| > 0 {
      var before := d[..|d| - 1];
      forall j | 0 <= j
        ensures !Settles(before, j)
      {
        assert !Settles(d, j);
      }
      LoopHolds(c, before);
      assert |d| > 1 ==> !Settles(d, |d| - 2);
    }
  }

  lemma LoopEnds(c: CardState, d: seq<Pin>, i: nat)
    requires c.pc.EFirst? && Settles(d, i) && forall j :: 0 <= j < i ==> !Settles(d, j)
    ensures CardRun(c, d[..i + 2]) == c.(pc := ESet, inserted := d[i] == 1, decided := c.decided + [d[i] == 1])
  {
    var before := d[..i + 1];
    forall j | 0 <= j
      ensures !Settles(before, j)
    {
      assert j < i ==> !Settles(d, j);
    }
    LoopHolds(c, before);
    assert d[..i + 2][..i + 1] == before;
  }

  lemma OneStep(c: CardState, a: Pin)
    ensures CardRun(c, [a]) == CardStep(c, a)
  {
    assert [a][..0] == [];
  }

  /** The first two statements: entry and test. */
  lemma Enters(c: CardState, pin: seq<Pin>)
    requires c.pc.EIdle? && |pin| >= 2
    ensures CardRun(c, pin[..2]) == c.(pc := if pin[1] == 0 then EFirst else ESet)
  {
    assert pin[..2] == [pin[0]] + [pin[1]];
    CardRunConcat(c, [pin[0]], [pin[1]]);
    OneStep(c, pin[0]);
    OneStep(CardRun(c, [pin[0]]), pin[1]);
  }

  /** The last two: the flag is set, and the handler left. */
  lemma Leaves(c: CardState, a: Pin, b: Pin)
    requires c.pc.ESet?
    ensures CardRun(c, [a, b]) == c.(pc := EIdle, portes := c.portes + 1)
    ensures CardRun(c, [a]) == c.(pc := EEnd) && CardRun(c, []) == c
  {
    assert [a, b] == [a] + [b];
    CardRunConcat(c, [a], [b]);
    OneStep(c, a);
    OneStep(CardRun(c, [a]), b);
  }

  function Decides(c: CardState, v: seq<bool>): CardState
    requires |v| <= 1
  {
    c.(inserted := if |v| == 1 then v[0] else c.inserted, decided := c.decided + v)
  }

  /** The handler from its entry to the point where its flag is to be set. */
  lemma ComesToSet(c: CardState, pin: seq<Pin>)
    requires c.pc.EIdle? && |pin| >= Span(pin) - 2
    ensures CardRun(c, pin[..Span(pin) - 2]) == Decides(c, Verdict(pin)).(pc := ESet)
  {
    Enters(c, pin);
    var d := pin[2..];
    if pin[1] == 1 {
      assert c.decided + [] == c.decided;
    } else {
      var i := FirstPair(d, 0).value;
      LoopEnds(CardRun(c, pin[..2]), d, i);
      assert pin[..i + 4] == pin[..2] + d[..i + 2];
      CardRunConcat(c, pin[..2], d[..i + 2]);
    }
  }

  /** A whole activation: from entry to entry, in Span(pin) statements, it decides Verdict(pin)
      and nothing else. */
  lemma ActivationEnds(c: CardState, pin: seq<Pin>)
    requires c.pc.EIdle? && |pin| >= Span(pin)
    ensures CardRun(c, pin[..Span(pin)]) == Decides(c, Verdict(pin)).(portes := c.portes + 1)
  {
    var n := Span(pin);
    ComesToSet(c, pin);
    assert pin[..n] == pin[..n - 2] + [pin[n - 2], pin[n - 1]];
    CardRunConcat(c, pin[..n - 2], [pin[n - 2], pin[n - 1]]);
    Leaves(CardRun(c, pin[..n - 2]), pin[n - 2], pin[n - 1]);
  }

  /** One that is still in its loop has decided nothing. */
  lemma LoopGoesOn(c: CardState, pin: seq<Pin>)
    requires c.pc.EIdle? && 2 <= |pin| < Span(pin) - 2
    ensures Verdict(pin) == [] && CardRun(c, pin) == c.(pc := CardRun(c, pin).pc) && !CardRun(c, pin).pc.EIdle?
  {
    var d := pin[2..];
    hide CardRun;
    Enters(c, pin);
    assert pin == pin[..2] + d;
    CardRunConcat(c, pin[..2], d);
    LoopHolds(CardRun(c, pin[..2]), d);
  }

  /** One that is about to set its flag, or has set it. */
  lemma SetGoesOn(c: CardState, pin: seq<Pin>)
    requires c.pc.EIdle? && 2 <= |pin| && Span(pin) - 2 <= |pin| < Span(pin)
    ensures var c' := CardRun(c, pin); c' == Decides(c, Verdict(pin)).(pc := c'.pc) && !c'.pc.EIdle?
  {
    hide CardRun, Verdict;
    var n := Span(pin);
    var atSet := CardRun(c, pin[..n - 2]);
    ComesToSet(c, pin);
    assert pin == pin[..n - 2] + pin[n - 2..];
    CardRunConcat(c, pin[..n - 2], pin[n - 2..]);
    Leaves(atSet, pin[|pin| - 1], 0);
    assert pin[n - 2..] == if |pin| == n - 2 then [] else [pin[|pin| - 1]];
  }

  /** One that is not over yet has decided Verdict(pin), and has not come back. */
  lemma ActivationGoesOn(c: CardState, pin: seq<Pin>)
    requires c.pc.EIdle? && |pin| < Span(pin)
    ensures var c' := CardRun(c, pin);
            c' == Decides(c, Verdict(pin)).(pc := c'.pc) && (c'.pc.EIdle? <==> |pin| == 0)
  {
    assert c.decided + [] == c.decided;
    if |pin| == 1 {
      assert pin == [pin[0]];
      OneStep(c, pin[0]);
    } else if |pin| >= 2 {
      hide CardRun;
      if |pin| >= Span(pin) - 2 {
        SetGoesOn(c, pin);
      } else {
        LoopGoesOn(c, pin);
      }
    }
  }

  // ---------------------------------------------------------------------
  // Any number of activations
  // ---------------------------------------------------------------------

  /** The card state after these verdicts. */
  function LastOf(inserted: bool, v: seq<bool>): bool {
    if |v| == 0 then inserted else v[|v| - 1]
  }

  lemma {:induction false} RunDecides(c: CardState, pin: seq<Pin>)
    requires c.pc.EIdle?
    ensures var c', v := CardRun(c, pin), Verdicts(pin);
            && c'.decided == c.decided + v && c'.inserted == LastOf(c.inserted, v)
            && c'.portes == c.portes + Finished(pin)
    decreases |pin|
  {
    hide CardRun, Verdict, Span;
    var n := Span(pin);
    if n <= |pin| {
      ActivationEnds(c, pin);
      var mid := CardRun(c, pin[..n]);
      assert pin == pin[..n] + pin[n..];
      CardRunConcat(c, pin[..n], pin[n..]);
      RunDecides(mid, pin[n..]);
    } else {
      ActivationGoesOn(c, pin);
      assert Verdict(pin) + [] == Verdict(pin);
    }
  }

  /** Over any schedule of the board that begins between two activations of the handler, it
      decides, activation by activation, what its own samples say: nothing and without a
      further sample when the pin tests high, and the level of the first two successive
      samples that agree when it tests low. */
  lemma BoardDecides(s: BoardState, schedule: seq<BoardStep>)
    requires s.porte.EIdle?
    ensures var s', pin := BoardRun(s, schedule), Samples(schedule);
            && Decided(s'.log) == Decided(s.log) + Verdicts(pin)
            && s'.cardInserted == LastOf(s.cardInserted, Verdicts(pin))
            && s'.portes == s.portes + Finished(pin)
  {
    hide BoardNext, Decided;
    BoardIsCardRun(s, schedule);
    RunDecides(CardView(s), Samples(schedule));
  }

  /** One whole activation, from its beginning to its end, under any schedule. */
  lemma OneActivation(s: BoardState, schedule: seq<BoardStep>)
    requires s.porte.EIdle? && |Samples(schedule)| == Span(Samples(schedule))
    ensures var s', pin := BoardRun(s, schedule), Samples(schedule);
            && s'.porte.EIdle? && s'.portes == s.portes + 1
            && (pin[1] == 1 ==>
                  |pin| == 4 && Decided(s'.log) == Decided(s.log) && s'.cardInserted == s.cardInserted)
            && (pin[1] == 0 ==>
                  var d := pin[2..|pin| - 2];
                  && |d| >= 2 && FirstSettled(d, |d| - 2)
                  && s'.cardInserted == ((d[0] == 1) != (|d| % 2 == 1))
                  && Decided(s'.log) == Decided(s.log) + [s'.cardInserted])
  {
    hide BoardNext, Decided;
    var pin := Samples(schedule);
    BoardIsCardRun(s, schedule);
    ActivationEnds(CardView(s), pin);
    assert pin[..|pin|] == pin;
    assert Decided(s.log) + [] == Decided(s.log);
    if pin[1] == 0 {
      var d, i := pin[2..|pin| - 2], FirstPair(pin[2..], 0).value;
      forall j | 0 <= j <= i
        ensures Settles(d, j) == Settles(pin[2..], j)
      {
      }
      Alternates(d, i);
    }
  }
}
