/** Counting the entries of a log. */
module Logs {
  function Count<T>(log: seq<T>, which: T -> bool): nat {
    if |log| == 0 then 0
    else Count(log[..|log| - 1], which) + if which(log[|log| - 1]) then 1 else 0
  }

  lemma {:induction false} CountConcat<T>(a: seq<T>, b: seq<T>, which: T -> bool)
    ensures Count(a + b, which) == Count(a, which) + Count(b, which)
    decreases |b|
  {
    if |b| == 0 {
      assert a + b == a;
    } else {
      var m := |b| - 1;
      assert (a + b)[..|a + b| - 1] == a + b[..m];
      CountConcat(a, b[..m], which);
    }
  }

  lemma CountOne<T>(a: T, which: T -> bool)
    ensures Count([a], which) == if which(a) then 1 else 0
  {
    assert [a][..0] == [];
  }

  lemma CountSnoc<T>(log: seq<T>, a: T, which: T -> bool)
    ensures Count(log + [a], which) == Count(log, which) + if which(a) then 1 else 0
  {
    CountConcat(log, [a], which);
    CountOne(a, which);
  }
}
