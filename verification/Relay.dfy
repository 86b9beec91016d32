/** The on-board relay: a pin that the PORTB handler and the relay page of the web
    server both write. */
module Relay {
  import opened Debounce

  /** One statement that may write the pin: the test of INT0, which switches on, the test of
      INT1, which switches off, each with the pin it sampled, and the two writes of the page.
      The page runs where requests are received, in an interrupt as the driver is configured,
      so it may fall between the two tests, and the tests between its statements. */
  datatype Event = Test0(int0: Pin) | Test1(int1: Pin) | PageOff | PageOn

  predicate Decides(e: Event) {
    (e.Test0? ==> e.int0 == 0) && (e.Test1? ==> e.int1 == 0)
  }

  /** What a deciding event leaves on the pin. */
  predicate Decision(e: Event) {
    e.Test0? || e.PageOn?
  }

  /** i is the last event to write the pin. */
  ghost predicate LastDecision(es: seq<Event>, i: int) {
    0 <= i < |es| && Decides(es[i]) && forall j :: i < j < |es| ==> !Decides(es[j])
  }

  predicate IsTest(e: Event) {
    e.Test0? || e.Test1?
  }

  /** PORTB_IRQHandler, undisturbed. */
  function BothTests(int0: Pin, int1: Pin): seq<Event> {
    [Test0(int0), Test1(int1)]
  }

  /** The pin after these events. */
  function After(before: bool, es: seq<Event>): bool {
    if |es| == 0 then before
    else
      var e := es[|es| - 1];
      if Decides(e) then Decision(e) else After(before, es[..|es| - 1])
  }

  lemma {:induction false} AfterConcat(before: bool, a: seq<Event>, b: seq<Event>)
    ensures After(before, a + b) == After(After(before, a), b)
    decreases |b|
  {
    if |b| == 0 {
      assert a + b == a;
    } else {
      assert (a + b)[..|a + b| - 1] == a + b[..|b| - 1];
      AfterConcat(before, a, b[..|b| - 1]);
    }
  }

  /** The last decision stands, and without one the initial value. */
  lemma {:induction false} AfterMeans(before: bool, es: seq<Event>)
    ensures forall i :: LastDecision(es, i) ==> After(before, es) == Decision(es[i])
    ensures (forall i :: 0 <= i < |es| ==> !Decides(es[i])) ==> After(before, es) == before
  {
    if |es| > 0 && !Decides(es[|es| - 1]) {
      var front := es[..|es| - 1];
      AfterMeans(before, front);
      forall i | LastDecision(es, i)
        ensures After(before, es) == Decision(es[i])
      {
        assert LastDecision(front, i);
      }
    }
  }

  /** One parameter of a request to the relay page. */
  datatype Param = Param(name: string, value: string)

  predicate SelectsOnBoard(p: Param) {
    p.name == "rele" && p.value == "5"
  }

  /** The writes of one request, in order. */
  function PageWrites(ps: seq<Param>): (es: seq<Event>)
    ensures |es| > 0
  {
    if |ps| == 0 then [PageOff]
    else PageWrites(ps[..|ps| - 1]) + if SelectsOnBoard(ps[|ps| - 1]) then [PageOn] else []
  }

  /** Some parameter rele has the value 5. */
  ghost predicate SomeSelects(ps: seq<Param>) {
    exists i :: 0 <= i < |ps| && ps[i].name == "rele" && ps[i].value == "5"
  }

  /** A request begins with off and ends with on exactly if it selects the relay. */
  lemma {:induction false} PageWritesEnd(ps: seq<Param>)
    ensures var es := PageWrites(ps);
            && |es| > 0 && es[0] == PageOff && (forall e :: e in es ==> !IsTest(e))
            && (es[|es| - 1] == PageOn <==> SomeSelects(ps))
  {
    if |ps| > 0 {
      var n := |ps| - 1;
      PageWritesEnd(ps[..n]);
      if SomeSelects(ps[..n]) {
        var i :| 0 <= i < n && SelectsOnBoard(ps[..n][i]);
        assert SelectsOnBoard(ps[i]);
      }
      if SelectsOnBoard(ps[n]) {
        assert SomeSelects(ps);
      }
    }
  }

  /** Where a request comes in makes no difference to what it decides. */
  lemma PageDecides(before: bool, ps: seq<Param>)
    ensures After(before, PageWrites(ps)) == SomeSelects(ps)
  {
    PageWritesEnd(ps);
    assert PageWrites(ps)[|PageWrites(ps)| - 1] in PageWrites(ps);
  }

  lemma HandlerDecides(before: bool, int0: Pin, int1: Pin)
    ensures After(before, [Test0(int0)]) == (int0 == 0 || before)
    ensures After(before, BothTests(int0, int1)) == (int1 == 1 && (int0 == 0 || before))
  {
    assert [Test0(int0)][..0] == [];
    AfterConcat(before, [Test0(int0)], [Test1(int1)]);
    assert [Test0(int0)] + [Test1(int1)] == BothTests(int0, int1) && [Test1(int1)][..0] == [];
  }

  /** A request that falls between the two tests of the handler leaves what it would leave
      before the handler, if INT1 is low, or behind it. */
  lemma PageInsideHandler(before: bool, ps: seq<Param>, int0: Pin, int1: Pin)
    ensures After(before, [Test0(int0)] + PageWrites(ps) + [Test1(int1)])
            == if int1 == 0 then After(before, PageWrites(ps) + BothTests(int0, int1))
               else After(before, BothTests(int0, int1) + PageWrites(ps))
  {
    var page := PageWrites(ps);
    AfterConcat(before, [Test0(int0)] + page, [Test1(int1)]);
    AfterConcat(before, [Test0(int0)], page);
    AfterConcat(before, page, BothTests(int0, int1));
    AfterConcat(before, BothTests(int0, int1), page);
    PageDecides(before, ps);
    PageDecides(After(before, [Test0(int0)]), ps);
    PageDecides(After(before, BothTests(int0, int1)), ps);
    HandlerDecides(After(before, page), int0, int1);
    assert [Test1(int1)][..0] == [];
  }

  /** Behind its first write a request only switches on. */
  lemma {:induction false} PageSwitchesOn(ps: seq<Param>)
    ensures forall i :: 0 < i < |PageWrites(ps)| ==> PageWrites(ps)[i] == PageOn
  {
    if |ps| > 0 {
      PageSwitchesOn(ps[..|ps| - 1]);
    }
  }

  /** And a handler that falls between two writes of a request leaves what it would leave
      before the request, if a write follows, or behind it. */
  lemma HandlerInsidePage(before: bool, ps: seq<Param>, j: nat, int0: Pin, int1: Pin)
    requires 1 <= j <= |PageWrites(ps)|
    ensures After(before, PageWrites(ps)[..j] + BothTests(int0, int1) + PageWrites(ps)[j..])
            == if j < |PageWrites(ps)| then After(before, BothTests(int0, int1) + PageWrites(ps))
               else After(before, PageWrites(ps) + BothTests(int0, int1))
  {
    var page, h := PageWrites(ps), BothTests(int0, int1);
    PageSwitchesOn(ps);
    AfterConcat(before, page[..j] + h, page[j..]);
    AfterConcat(before, h, page);
    if j == |page| {
      assert page[..j] == page && page[..j] + h + page[j..] == page + h;
    } else {
      assert page[j..][|page| - j - 1] == page[|page| - 1];
    }
  }

  class RelayLatch {
    var relay: bool

    /** PORTB_IRQHandler: two separate tests, the second one overriding. */
    method PortBIrqHandler(int0: Pin, int1: Pin)
      modifies this
      ensures relay == After(old(relay), BothTests(int0, int1))
      ensures relay == if int1 == 0 then false else if int0 == 0 then true else old(relay)
    {
      HandlerDecides(relay, int0, int1);
      if int0 == 0 {
        relay := true;
      }
      if int1 == 0 {
        relay := false;
      }
    }

    /** Any interleaving of the statements of handler and page: the last decision stands. */
    method Happens(es: seq<Event>)
      modifies this
      ensures relay == After(old(relay), es)
      ensures forall i :: LastDecision(es, i) ==> relay == Decision(es[i])
      ensures (forall i :: 0 <= i < |es| ==> !Decides(es[i])) ==> relay == old(relay)
    {
      for n := 0 to |es|
        invariant relay == After(old(relay), es[..n])
      {
        match es[n] {
          case Test0(int0) => if int0 == 0 { relay := true; }
          case Test1(int1) => if int1 == 0 { relay := false; }
          case PageOff => relay := false;
          case PageOn => relay := true;
        }
        assert es[..n + 1][..n] == es[..n];
      }
      assert es[..|es|] == es;
      AfterMeans(old(relay), es);
    }

    /** The relay page of processaCGI when no interrupt falls into it. */
    method RelayPage(ps: seq<Param>)
      modifies this
      ensures relay <==> SomeSelects(ps)
    {
      relay := false;
      for i := 0 to |ps|
        invariant relay <==> SomeSelects(ps[..i])
      {
        if ps[i].name == "rele" {
          if ps[i].value == "5" {
            relay := true;
          }
        }
        if SomeSelects(ps[..i]) {
          var k :| 0 <= k < i && SelectsOnBoard(ps[..i][k]);
          assert SelectsOnBoard(ps[..i + 1][k]);
        }
        if SelectsOnBoard(ps[i]) {
          assert SelectsOnBoard(ps[..i + 1][i]);
        }
        if SomeSelects(ps[..i + 1]) {
          var k :| 0 <= k < i + 1 && SelectsOnBoard(ps[..i + 1][k]);
          assert k < i ==> SelectsOnBoard(ps[..i][k]);
        }
      }
      assert ps[..|ps|] == ps;
    }

    /** The relay page with any tests between its statements, and any before and after: the
        last test behind the page's last write that saw its pin low decides, and if there is
        none the page does, whatever happened before that write. */
    method PageAmongInterrupts(ps: seq<Param>, es: seq<Event>, at: seq<nat>)
      requires |at| == |PageWrites(ps)|
      requires forall i, j :: 0 <= i < j < |at| ==> at[i] < at[j]
      requires forall i :: 0 <= i < |at| ==> at[i] < |es| && es[at[i]] == PageWrites(ps)[i]
      requires forall k :: 0 <= k < |es| && k !in at ==> IsTest(es[k])
      modifies this
      ensures var last := at[|at| - 1];
              && (forall i :: LastDecision(es, i) && i > last ==> relay == es[i].Test0?)
              && ((forall i :: last < i < |es| ==> !Decides(es[i])) ==> (relay <==> SomeSelects(ps)))
    {
      PageWritesEnd(ps);
      assert PageWrites(ps)[|at| - 1] in PageWrites(ps);
      hide After, PageWrites, SomeSelects;
      Happens(es);
      ghost var last := at[|at| - 1];
      forall i | LastDecision(es, i) && i > last
        ensures IsTest(es[i])
      {
        assert forall j :: 0 <= j < |at| ==> at[j] <= last;
      }
      if forall i :: last < i < |es| ==> !Decides(es[i]) {
        assert Decides(es[last]) && LastDecision(es, last);
      }
    }
  }
}
