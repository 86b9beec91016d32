/** What create_chain_for_clusts takes, read off the table: the free clusters behind the
    start in at most two stretches, without a loop. */
module FatStretch {
  import opened FatChain
  import opened FatBatch

  /** The first used entry from a on; |t| if there is none. */
  function FirstUsed(t: Table, a: nat): (z: nat)
    requires a <= |t|
    ensures a <= z <= |t| && (z < |t| ==> t[z] != 0) && forall x :: a <= x < z ==> t[x] == 0
    decreases |t| - a
  {
    if a == |t| || t[a] != 0 then a else FirstUsed(t, a + 1)
  }

  lemma FirstUsedIs(t: Table, a: nat, z: nat)
    requires a <= z <= |t| && (z < |t| ==> t[z] != 0) && forall x :: a <= x < z ==> t[x] == 0
    ensures FirstUsed(t, a) == z
  {
  }

  /** The clusters that are left when no stretch is long enough: the first stretch, the
      first of which ends in front of z; or one cluster, searched for from `first`. */
  function Rest(z: nat, k: nat, first: nat): Batch
    requires k < z
  {
    if k > 0 then Take(z - 1, k) else Single(first)
  }

  /** There are k free clusters behind scl, fewer than asked for, up to the used one z. */
  function BehindUsed(t: Table, scl: nat, want: nat, z: nat, k: nat): Batch
    requires k < z < |t|
  {
    var y := FirstUsed(t, z + 1);
    var k2 := y - (z + 1);
    var first := if k2 > 0 then z + 1 else 0;
    if t[z] == 1 then BatchCorrupt
    else if k2 >= want then Take(z + want, want)
    else if y < |t| then
      if t[y] == 1 then BatchCorrupt else Rest(z, k, first)
    else if scl == 1 then BatchFull
    else if t[2] == 1 then BatchCorrupt
    else if t[2] == 0 then (if k > 0 then Take(z - 1, k) else Take(2, 1))
    else if scl == 2 then BatchFull
    else Rest(z, k, first)
  }

  /** There are k free clusters behind scl, fewer than asked for, and no used one. */
  function Around(t: Table, scl: nat, want: nat, k: nat): Batch {
    var y := FirstUsed(t, 2);
    var k2 := y - 2;
    if scl == 1 then BatchFull
    else if k2 >= want then Take(1 + want, want)
    else if y == |t| then Take(2, 1)
    else if t[y] == 1 then BatchCorrupt
    else if y == scl then BatchFull
    else Single(if k > 0 then scl + 1 else if k2 > 0 then 2 else 0)
  }

  /** What the search from scl for `want` clusters in a row comes to. */
  function Outline(t: Table, scl: nat, want: nat): Batch
    requires 1 <= scl
  {
    if scl >= |t| then Around(t, scl, want, 0)
    else
      var z := FirstUsed(t, scl + 1);
      var k := z - (scl + 1);
      if k >= want then Take(scl + want, want)
      else if z < |t| then BehindUsed(t, scl, want, z, k)
      else Around(t, scl, want, k)
  }

  // ---------------------------------------------------------------------
  // The loop computes it
  // ---------------------------------------------------------------------

  /** The search when it has passed `more` free clusters. */
  function Passed(h: Hunt, more: nat): Hunt {
    h.(ncl := h.ncl + more, num := h.num + more,
       firstIdle := if more > 0 && h.firstIdle == 0 then h.ncl + 1 else h.firstIdle)
  }

  lemma PassesOne(t: Table, scl: nat, want: nat, h: Hunt)
    requires |t| < UNKNOWN && 1 <= h.ncl && h.ncl + 1 < |t| && t[h.ncl + 1] == 0 && h.tries < MAX_TRIES
    ensures var h1 := Passed(h, 1);
            HuntLoop(t, scl, want, h) == if h1.num < want then HuntLoop(t, scl, want, h1) else Going(h1)
  {
    assert HuntRound(t, scl, h) == Going(Passed(h, 1));
  }

  /** The loop counts the free clusters of a stretch one by one, and stops at `want`. */
  lemma {:induction false} PassesFree(t: Table, scl: nat, want: nat, h: Hunt, more: nat)
    requires |t| < UNKNOWN && 1 <= h.ncl && h.ncl + more < |t| && h.tries < MAX_TRIES && h.num < want
    requires forall x :: h.ncl < x <= h.ncl + more ==> t[x] == 0
    ensures if h.num + more < want then HuntLoop(t, scl, want, h) == HuntLoop(t, scl, want, Passed(h, more))
            else HuntLoop(t, scl, want, h) == Going(Passed(h, want - h.num))
    decreases more
  {
    hide HuntLoop, HuntRound;
    if more > 0 {
      PassesOne(t, scl, want, h);
      if h.num + 1 < want {
        PassesFree(t, scl, want, Passed(h, 1), more - 1);
      }
    }
  }

  /** A loop that is about to turn to cluster 2, its first try being over. */
  lemma TurnsAround(t: Table, scl: nat, want: nat, h: Hunt)
    requires |t| < UNKNOWN && |t| <= h.ncl + 1 <= UNKNOWN && h.tries == 0 && 2 <= scl
    ensures HuntLoop(t, scl, want, h) == HuntLoop(t, scl, want, Hunt(1, 0, 1, h.firstIdle, h.firstNum))
  {
    assert HuntRound(t, scl, h) == HuntRound(t, scl, Hunt(1, 0, 1, h.firstIdle, h.firstNum));
  }

  /** The second try, from cluster 2 on; `first` is a free cluster seen in the first one. */
  lemma SecondTry(t: Table, scl: nat, want: nat, k: nat)
    requires |t| < UNKNOWN && 2 <= scl && want >= 1
    ensures Choose(want, HuntLoop(t, scl, want, Hunt(1, 0, 1, if k > 0 then scl + 1 else 0, 0)))
            == Around(t, scl, want, k)
  {
    hide FirstUsed;
    var h := Hunt(1, 0, 1, if k > 0 then scl + 1 else 0, 0);
    var y := FirstUsed(t, 2);
    PassesFree(t, scl, want, h, y - 2);
  }

  /** The second try, behind the used cluster z. */
  lemma BehindTry(t: Table, scl: nat, want: nat, z: nat, k: nat)
    requires |t| < UNKNOWN && 1 <= scl < z < |t| && k == z - (scl + 1) < want && t[z] > 1
    ensures Choose(want, HuntLoop(t, scl, want, Hunt(z, 0, 1, if k > 0 then scl + 1 else 0, k)))
            == BehindUsed(t, scl, want, z, k)
  {
    hide FirstUsed;
    var h := Hunt(z, 0, 1, if k > 0 then scl + 1 else 0, k);
    var y := FirstUsed(t, z + 1);
    PassesFree(t, scl, want, h, y - (z + 1));
  }

  /** The first try stops at the used cluster z, with fewer free ones before it than asked
      for. */
  lemma StopsAtUsed(t: Table, scl: nat, want: nat, z: nat, k: nat)
    requires |t| < UNKNOWN && 1 <= scl < z < |t| && k == z - (scl + 1) < want && t[z] != 0
    ensures Choose(want, HuntLoop(t, scl, want, Passed(HuntStart(scl), k))) == BehindUsed(t, scl, want, z, k)
  {
    hide FirstUsed;
    var h := Passed(HuntStart(scl), k);
    if t[z] > 1 {
      assert HuntRound(t, scl, h) == Going(Hunt(z, 0, 1, h.firstIdle, k));
      BehindTry(t, scl, want, z, k);
    }
  }

  /** The first try comes to the end of the table. */
  lemma StopsAtEnd(t: Table, scl: nat, want: nat, k: nat)
    requires |t| < UNKNOWN && 1 <= scl < |t| && k == |t| - (scl + 1) < want
    ensures Choose(want, HuntLoop(t, scl, want, Passed(HuntStart(scl), k))) == Around(t, scl, want, k)
  {
    hide FirstUsed;
    if scl > 1 {
      TurnsAround(t, scl, want, Passed(HuntStart(scl), k));
      SecondTry(t, scl, want, k);
    }
  }

  /** The loop comes to what the stretches of the table say, for every start and request. */
  lemma OutlineIsRight(t: Table, scl: nat, want: nat)
    requires |t| < UNKNOWN && 1 <= scl < UNKNOWN && want >= 1
    ensures BatchOf(t, scl, want) == Outline(t, scl, want)
  {
    hide Around, BehindUsed, HuntLoop;
    if scl >= |t| {
      BeyondTable(t, scl, want);
    } else {
      var z := FirstUsed(t, scl + 1);
      var k := z - (scl + 1);
      PassesFree(t, scl, want, HuntStart(scl), k);
      if k < want && z < |t| {
        StopsAtUsed(t, scl, want, z, k);
      } else if k < want {
        StopsAtEnd(t, scl, want, k);
      }
    }
  }

  lemma BeyondTable(t: Table, scl: nat, want: nat)
    requires |t| <= scl < UNKNOWN && want >= 1
    ensures BatchOf(t, scl, want) == Around(t, scl, want, 0)
  {
    hide HuntLoop, Around;
    TurnsAround(t, scl, want, HuntStart(scl));
    SecondTry(t, scl, want, 0);
  }

  // ---------------------------------------------------------------------
  // What that means for a caller
  // ---------------------------------------------------------------------

  /** The clusters behind a, num of them, are in the table and free. */
  ghost predicate FreeBehind(t: Table, a: nat, num: nat) {
    a + num < |t| && forall x :: a < x <= a + num ==> t[x] == 0
  }

  /** If as many clusters behind the start as asked for are free, they are taken. */
  lemma AskedIsTaken(t: Table, scl: nat, want: nat)
    requires |t| < UNKNOWN && want >= 1 && 1 <= scl && FreeBehind(t, scl, want)
    ensures BatchOf(t, scl, want) == Take(scl + want, want)
  {
    hide BatchOf;
    OutlineIsRight(t, scl, want);
  }

  /** Behind z there are fewer free clusters than asked for, and then another used one; or
      they go on to the end of the table, and cluster 2 lets the search go on. */
  ghost predicate TryEndsAt(t: Table, scl: nat, want: nat, z: nat) {
    || (exists y :: z < y < |t| && t[y] > 1 && FreeBehind(t, z, y - (z + 1)) && y - (z + 1) < want)
    || (z < |t| && FreeBehind(t, z, |t| - 1 - z) && |t| - 1 - z < want
        && scl > 1 && t[2] != 1 && (scl == 2 ==> t[2] == 0))
  }

  /** Otherwise let z be the first used cluster behind the start: if as many behind z are
      free they are taken; if not, those in front of z are, all of them, when there are any. */
  lemma NextIsTaken(t: Table, scl: nat, want: nat, z: nat)
    requires |t| < UNKNOWN && 1 <= scl < z < |t| && t[z] > 1 && FreeBehind(t, scl, z - (scl + 1))
    requires z - (scl + 1) < want
    ensures FreeBehind(t, z, want) ==> BatchOf(t, scl, want) == Take(z + want, want)
    ensures z > scl + 1 && TryEndsAt(t, scl, want, z) ==> BatchOf(t, scl, want) == Take(z - 1, z - (scl + 1))
  {
    hide BatchOf, FirstUsed;
    OutlineIsRight(t, scl, want);
    FirstUsedIs(t, scl + 1, z);
    if y' :| z < y' < |t| && t[y'] > 1 && FreeBehind(t, z, y' - (z + 1)) && y' - (z + 1) < want {
      FirstUsedIs(t, z + 1, y');
    }
    if FreeBehind(t, z, |t| - 1 - z) {
      FirstUsedIs(t, z + 1, |t|);
    }
  }
}
