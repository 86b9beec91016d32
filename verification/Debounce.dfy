/** The debounce loop of the card-detect pin. GPIO_DRV_ReadPinInput returns 0 or 1. */
module Debounce {
  type Pin = x: int | 0 <= x <= 1

  const UINT32_MAX: int := 0xFFFF_FFFF

  /** Sample i and the next one agree. */
  predicate Settles(pin: seq<Pin>, i: int) {
    0 <= i && i + 1 < |pin| && pin[i] == pin[i + 1]
  }

  /** No two successive samples agree. */
  ghost predicate Unsettled(pin: seq<Pin>) {
    forall i :: 0 <= i < |pin| ==> !Settles(pin, i)
  }

  /** i is the first adjacent equal pair. */
  ghost predicate FirstSettled(pin: seq<Pin>, i: int) {
    Settles(pin, i) && forall j :: 0 <= j < i ==> !Settles(pin, j)
  }

  /** While nothing has settled the samples alternate. */
  lemma {:induction false} Alternates(pin: seq<Pin>, i: nat)
    requires i < |pin|
    requires forall j :: 0 <= j < i ==> !Settles(pin, j)
    ensures (pin[i] == 1) == ((pin[0] == 1) != (i % 2 == 1))
  {
    if i > 0 {
      Alternates(pin, i - 1);
      assert !Settles(pin, i - 1);
    }
  }

  /** check_card_inserted on the samples it is going to see, for as long as they
      last: `taken` counts the samples read and `exited` says whether the loop
      ended. A loop that has used up every sample of a prefix without an exit is
      still spinning, so an exit never comes from a stream that alternates. */
  class CardDetect {
    var cardInserted: bool

    method CheckCardInserted(pin: seq<Pin>) returns (exited: bool, taken: nat)
      modifies this
      ensures exited <==> exists i :: Settles(pin, i)
      ensures exited ==> exists i :: FirstSettled(pin, i) && taken == i + 2
                                     && cardInserted == ((pin[0] == 1) != (i % 2 == 1))
      ensures !exited ==> taken == |pin| && cardInserted == old(cardInserted)
    {
      exited, taken := false, 0;
      if |pin| == 0 {
        return;
      }
      var state: int := pin[0];
      taken := 1;
      var matchState: int := UINT32_MAX;
      while true
        invariant 1 <= taken <= |pin|
        invariant state == pin[taken - 1]
        invariant forall j :: 0 <= j < taken - 1 ==> !Settles(pin, j)
        decreases |pin| - taken
      {
        if taken == |pin| {
          return;
        }
        matchState := state;
        state := pin[taken];
        taken := taken + 1;
        if state == matchState {
          break;
        }
        assert !Settles(pin, taken - 2);
      }
      assert FirstSettled(pin, taken - 2);
      Alternates(pin, taken - 2);
      cardInserted := state == 1;
      exited := true;
    }
  }
}
