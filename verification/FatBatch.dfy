/** create_chain_for_clusts on a table of links: the search for a run of free clusters,
    which gives up after two tries, and the linking of the run. */
module FatBatch {
  import opened Wrappers
  import opened FatChain

  const MAX_TRIES: nat := 2

  /** The variables of the search: the cluster tried last, the free clusters in a row up
      to it, the tries used up, the first free cluster seen and the length of its run. */
  datatype Hunt = Hunt(ncl: nat, num: nat, tries: nat, firstIdle: nat, firstNum: nat)

  datatype HuntStep = Going(h: Hunt) | HuntFull | HuntCorrupt

  function HuntStart(scl: nat): Hunt {
    Hunt(scl, 0, 0, 0, 0)
  }

  /** One round of the search loop. */
  function HuntRound(t: Table, scl: nat, h: Hunt): HuntStep {
    var m := if h.ncl == UNKNOWN then 0 else h.ncl + 1;
    var wraps := m >= |t|;
    if wraps && 2 > scl then HuntFull
    else
      var x := if wraps then 2 else m;
      var num := if wraps then 0 else h.num;
      var tries := if wraps then h.tries + 1 else h.tries;
      if x < 2 || t[x] == 1 then HuntCorrupt
      else if t[x] == 0 then
        Going(Hunt(x, num + 1, tries, if h.firstIdle == 0 then x else h.firstIdle, h.firstNum))
      else if x == scl then HuntFull
      else Going(Hunt(x, 0, tries + 1, h.firstIdle, if tries == 0 then num else h.firstNum))
  }

  predicate GoesOn(h: Hunt, want: nat) {
    h.num < want && h.tries < MAX_TRIES
  }

  /** The loop; it always ends. */
  function HuntLoop(t: Table, scl: nat, want: nat, h: Hunt): HuntStep
    requires h.tries < MAX_TRIES
    decreases MAX_TRIES - h.tries, if h.ncl < |t| then |t| - h.ncl else 0
  {
    var s := HuntRound(t, scl, h);
    if s.Going? && GoesOn(s.h, want) then HuntLoop(t, scl, want, s.h) else s
  }

  /** The rounds of the loop. */
  function HuntRounds(t: Table, scl: nat, want: nat, h: Hunt): nat
    requires h.tries < MAX_TRIES
    decreases MAX_TRIES - h.tries, if h.ncl < |t| then |t| - h.ncl else 0
  {
    var s := HuntRound(t, scl, h);
    if s.Going? && GoesOn(s.h, want) then HuntRounds(t, scl, want, s.h) + 1 else 1
  }

  /** What the search comes to: `num` clusters up to `last`; or none in a row, with the
      first free cluster if there was one. */
  datatype Batch = Take(last: nat, num: nat) | Single(firstIdle: nat) | BatchFull | BatchCorrupt

  function Choose(want: nat, s: HuntStep): Batch {
    match s
    case HuntFull => BatchFull
    case HuntCorrupt => BatchCorrupt
    case Going(h) =>
      if h.num != want && h.firstNum != 0 && h.firstIdle != 0 then Take(h.firstIdle + (h.firstNum - 1), h.firstNum)
      else if h.num != 0 then Take(h.ncl, h.num)
      else Single(h.firstIdle)
  }

  function BatchOf(t: Table, scl: nat, want: nat): Batch {
    Choose(want, HuntLoop(t, scl, want, HuntStart(scl)))
  }

  // ---------------------------------------------------------------------
  // What is found is free
  // ---------------------------------------------------------------------

  /** The num clusters up to last are free. */
  ghost predicate FreeRun(t: Table, last: nat, num: nat) {
    num <= last && last < |t| && 2 <= last - num + 1 && forall x :: last - num < x <= last ==> t[x] == 0
  }

  ghost predicate HuntSound(t: Table, want: nat, h: Hunt) {
    && (h.num > 0 ==> FreeRun(t, h.ncl, h.num))
    && (h.firstIdle != 0 ==> IsFree(t, h.firstIdle))
    && (h.num > 0 ==> h.firstIdle != 0)
    && (h.tries == 0 ==> h.firstNum == 0)
    && (h.tries == 0 && h.num > 0 ==> h.firstIdle == h.ncl - h.num + 1)
    && (h.tries == 0 && h.num == 0 ==> h.firstIdle == 0)
    && (h.firstNum > 0 ==> h.firstIdle != 0 && FreeRun(t, h.firstIdle + h.firstNum - 1, h.firstNum))
    && h.firstNum <= want && h.num <= (if want == 0 then 1 else want)
  }

  lemma {:induction false} HuntIsSound(t: Table, scl: nat, want: nat, h: Hunt)
    requires HuntSound(t, want, h) && h.tries < MAX_TRIES && (h.num < want || h == HuntStart(scl))
    ensures var s := HuntLoop(t, scl, want, h); s.Going? ==> HuntSound(t, want, s.h)
    decreases MAX_TRIES - h.tries, if h.ncl < |t| then |t| - h.ncl else 0
  {
    var s := HuntRound(t, scl, h);
    if s.Going? && GoesOn(s.h, want) {
      HuntIsSound(t, scl, want, s.h);
    }
  }

  /** A run is free, inside the table, and not longer than asked for. */
  lemma BatchIsFree(t: Table, scl: nat, want: nat)
    ensures var b := BatchOf(t, scl, want);
            && (b.Take? ==> 1 <= b.num && FreeRun(t, b.last, b.num) && (want > 0 ==> b.num <= want))
            && (b.Single? && b.firstIdle != 0 ==> IsFree(t, b.firstIdle))
  {
    HuntIsSound(t, scl, want, HuntStart(scl));
  }

  // ---------------------------------------------------------------------
  // What is linked is a chain
  // ---------------------------------------------------------------------

  /** The table after the k last clusters of a run have been linked, back to front. */
  function Linked(t: Table, last: nat, k: nat, mark: nat): (t': Table)
    requires k <= last < |t|
    ensures |t'| == |t|
  {
    if k == 0 then t
    else if k == 1 then t[last := mark]
    else Linked(t, last, k - 1, mark)[last - k + 1 := last - k + 2]
  }

  /** The table after the run has also been linked behind clst, if there is one. */
  function Appended(t: Table, clst: nat, last: nat, num: nat, mark: nat): (t': Table)
    requires num <= last < |t| && clst < |t|
    ensures |t'| == |t|
  {
    var t' := Linked(t, last, num, mark);
    if clst == 0 then t' else t'[clst := last - num + 1]
  }

  /** The clusters of a run, in order. */
  function Clusters(last: nat, num: nat): (cs: seq<nat>)
    requires num <= last + 1
    ensures |cs| == num
  {
    seq(num, i requires 0 <= i < num => last - num + 1 + i)
  }

  lemma RunMembers(last: nat, num: nat, d: nat)
    requires num <= last + 1
    ensures d in Clusters(last, num) <==> last - num < d <= last
  {
    if last - num < d <= last {
      assert Clusters(last, num)[d - (last - num + 1)] == d;
    }
  }

  /** Exactly the run is written. */
  lemma {:induction false} LinkedAt(t: Table, last: nat, k: nat, mark: nat, d: nat)
    requires k <= last < |t| && d < |t|
    ensures Linked(t, last, k, mark)[d]
            == if d == last && k > 0 then mark else if last - k < d < last then d + 1 else t[d]
  {
    if k > 1 {
      LinkedAt(t, last, k - 1, mark, d);
    }
  }

  lemma {:induction false} LinkedFree(t: Table, last: nat, k: nat, mark: nat)
    requires FreeRun(t, last, k) && mark != 0
    ensures FreeCount(Linked(t, last, k, mark)) == FreeCount(t) - k
  {
    if k == 1 {
      FreeUpdate(t, last, mark, |t|);
    } else if k > 1 {
      var t1 := Linked(t, last, k - 1, mark);
      LinkedFree(t, last, k - 1, mark);
      LinkedAt(t, last, k - 1, mark, last - k + 1);
      FreeUpdate(t1, last - k + 1, last - k + 2, |t|);
    }
  }

  /** The run by itself is a sound chain. */
  lemma RunIsChain(t: Table, last: nat, num: nat, mark: nat)
    requires FreeRun(t, last, num) && num >= 1 && mark >= |t|
    ensures Chain(Linked(t, last, num, mark), Clusters(last, num))
  {
    var t', cs := Linked(t, last, num, mark), Clusters(last, num);
    forall i | 0 <= i < num
      ensures t'[cs[i]] == if i == num - 1 then mark else cs[i] + 1
    {
      LinkedAt(t, last, num, mark, cs[i]);
    }
  }

  /** A run of one cluster is linked as create_chain links it. */
  lemma OneIsExtended(t: Table, clst: nat, ncl: nat, mark: nat)
    requires 1 <= ncl < |t| && clst < |t|
    ensures Appended(t, clst, ncl, 1, mark) == Extended(t, clst, ncl, mark)
    ensures Clusters(ncl, 1) == [ncl]
  {
  }

  /** A walk that ends in a link to a chain it does not meet is a longer chain. */
  lemma ChainsJoin(t: Table, cs: seq<nat>, rest: seq<nat>)
    requires |cs| > 0 && Walk(t, cs[0], cs) && Chain(t, rest) && t[cs[|cs| - 1]] == rest[0]
    requires forall d :: d in cs ==> d !in rest
    ensures Chain(t, cs + rest)
  {
    var all := cs + rest;
    forall i | 0 <= i < |all| - 1
      ensures all[i + 1] == t[all[i]]
    {
      if i >= |cs| {
        assert rest[i + 1 - |cs|] == t[rest[i - |cs|]];
      }
    }
    forall i, j | 0 <= i < j < |all|
      ensures all[i] != all[j]
    {
      if i < |cs| <= j {
        assert cs[i] in cs && rest[j - |cs|] in rest;
      }
    }
  }

  /** Appending a free run to a chain gives the longer chain. */
  lemma AppendedChain(t: Table, cs: seq<nat>, last: nat, num: nat, mark: nat)
    requires Chain(t, cs) && FreeRun(t, last, num) && num >= 1 && mark >= |t|
    ensures Chain(Appended(t, cs[|cs| - 1], last, num, mark), cs + Clusters(last, num))
  {
    var clst, run := cs[|cs| - 1], Clusters(last, num);
    var t1, t' := Linked(t, last, num, mark), Appended(t, clst, last, num, mark);
    RunIsChain(t, last, num, mark);
    assert forall d :: d in cs ==> t[d] != 0;
    forall d | 0 <= d < |t|
      ensures (d in run ==> t[d] == 0) && (d !in run ==> t1[d] == t[d])
    {
      LinkedAt(t, last, num, mark, d);
      RunMembers(last, num, d);
    }
    assert clst in cs;
    RunStays(t1, t', run, clst);
    WalkStays(t, t', cs);
    ChainsJoin(t', cs, run);
  }

  lemma RunStays(t: Table, t': Table, run: seq<nat>, clst: nat)
    requires Chain(t, run) && clst !in run && clst < |t| && |t'| == |t|
    requires forall d :: 0 <= d < |t| && d != clst ==> t'[d] == t[d]
    ensures Chain(t', run)
  {
    assert forall i :: 0 <= i < |run| ==> run[i] in run;
  }

  lemma WalkStays(t: Table, t': Table, cs: seq<nat>)
    requires Chain(t, cs) && |t'| == |t|
    requires forall i :: 0 <= i < |cs| - 1 ==> t'[cs[i]] == t[cs[i]]
    requires t'[cs[|cs| - 1]] >= 2
    ensures Walk(t', cs[0], cs)
  {
  }

  /** As many clusters fewer are free as the run has. */
  lemma AppendedFree(t: Table, clst: nat, last: nat, num: nat, mark: nat)
    requires FreeRun(t, last, num) && mark != 0
    requires clst == 0 || (2 <= clst < |t| && t[clst] != 0 && num >= 1)
    ensures FreeCount(Appended(t, clst, last, num, mark)) == FreeCount(t) - num
    ensures FreeCount(t) <= |t|
  {
    LinkedFree(t, last, num, mark);
    FreeBound(t, |t|);
    if clst != 0 {
      LinkedAt(t, last, num, mark, clst);
      FreeUpdate(Linked(t, last, num, mark), clst, last - num + 1, |t|);
    }
  }

  // ---------------------------------------------------------------------
  // When the search reports a full volume
  // ---------------------------------------------------------------------

  ghost predicate FreeBetween(t: Table, a: nat, b: nat) {
    forall x :: a <= x < b && 2 <= x < |t| ==> t[x] == 0
  }

  /** Behind scl at most one cluster is used, number z (or none, z being |t|), and no run
      there is long enough; and the search is at its start again before its second try
      is over: at once for scl = 1, at cluster 2, or after free clusters only. */
  ghost predicate GivesUpAt(t: Table, scl: nat, want: nat, z: nat) {
    && 1 <= scl < z <= |t| && (z < |t| ==> t[z] >= 2)
    && FreeBetween(t, scl + 1, z) && FreeBetween(t, z + 1, |t|)
    && z - scl - 1 < want && |t| - 1 - z < want
    && (|| scl == 1
        || (scl == 2 && t[2] >= 2)
        || (scl > 2 && t[scl] >= 2 && z == |t| && FreeBetween(t, 2, scl) && scl - 2 < want))
  }

  ghost predicate GivesUp(t: Table, scl: nat, want: nat) {
    exists z :: GivesUpAt(t, scl, want, z)
  }

  /** Before the search has gone around; z is the used cluster seen, if any. */
  ghost predicate Upward(t: Table, scl: nat, want: nat, h: Hunt, z: nat) {
    && 1 <= scl <= h.ncl < |t| && h.num < want && h.tries < MAX_TRIES
    && (h.tries == 0 ==> h.num == h.ncl - scl && FreeBetween(t, scl + 1, h.ncl + 1))
    && (h.tries == 1 ==>
          && scl < z <= h.ncl && t[z] >= 2 && h.num == h.ncl - z
          && FreeBetween(t, scl + 1, z) && z - scl - 1 < want && FreeBetween(t, z + 1, h.ncl + 1))
  }

  /** After it has gone around over free clusters only. */
  ghost predicate Around(t: Table, scl: nat, want: nat, h: Hunt) {
    && 2 <= scl < |t| && 2 <= h.ncl < |t| && h.num == h.ncl - 1 && h.num < want && h.tries == 1
    && FreeBetween(t, scl + 1, |t|) && |t| - 1 - scl < want && FreeBetween(t, 2, h.ncl + 1)
  }

  lemma UpwardRound(t: Table, scl: nat, want: nat, h: Hunt, z: nat)
    requires Upward(t, scl, want, h, z) && |t| < UNKNOWN && h.ncl + 1 < |t|
    ensures var s := HuntRound(t, scl, h);
            if s.Going? && GoesOn(s.h, want) then Upward(t, scl, want, s.h, if h.tries == 0 then s.h.ncl else z)
            else !s.HuntFull? && !GivesUp(t, scl, want)
  {
  }

  lemma TurnRound(t: Table, scl: nat, want: nat, h: Hunt, z: nat)
    requires Upward(t, scl, want, h, z) && |t| < UNKNOWN && h.ncl + 1 == |t|
    ensures var s := HuntRound(t, scl, h);
            if s.Going? && GoesOn(s.h, want) then Around(t, scl, want, s.h)
            else s.HuntFull? <==> GivesUp(t, scl, want)
  {
    if scl == 1 || (scl == 2 && t[2] >= 2) {
      assert GivesUpAt(t, scl, want, if h.tries == 0 then |t| else z);
    }
  }

  lemma AroundRound(t: Table, scl: nat, want: nat, h: Hunt)
    requires Around(t, scl, want, h) && |t| < UNKNOWN
    ensures var s := HuntRound(t, scl, h);
            if s.Going? && GoesOn(s.h, want) then Around(t, scl, want, s.h)
            else s.HuntFull? <==> GivesUp(t, scl, want)
  {
    if h.ncl + 1 == scl && t[scl] >= 2 {
      assert GivesUpAt(t, scl, want, |t|);
    }
  }

  lemma {:induction false} UpwardFullIff(t: Table, scl: nat, want: nat, h: Hunt, z: nat)
    requires Upward(t, scl, want, h, z) && |t| < UNKNOWN
    ensures HuntLoop(t, scl, want, h).HuntFull? <==> GivesUp(t, scl, want)
    decreases |t| - h.ncl
  {
    hide HuntRound, GivesUp, Upward, Around;
    var s := HuntRound(t, scl, h);
    UpwardMeasure(t, scl, want, h, z);
    if h.ncl + 1 < |t| {
      UpwardRound(t, scl, want, h, z);
      if s.Going? && GoesOn(s.h, want) {
        UpwardFullIff(t, scl, want, s.h, if h.tries == 0 then s.h.ncl else z);
      }
    } else {
      TurnRound(t, scl, want, h, z);
      if s.Going? && GoesOn(s.h, want) {
        AroundFullIff(t, scl, want, s.h);
      }
    }
  }

  lemma UpwardMeasure(t: Table, scl: nat, want: nat, h: Hunt, z: nat)
    requires Upward(t, scl, want, h, z) && |t| < UNKNOWN
    ensures h.ncl < |t| && h.tries < MAX_TRIES
    ensures h.ncl + 1 < |t| ==>
              var s := HuntRound(t, scl, h); s.Going? ==> s.h.ncl == h.ncl + 1
  {
  }

  lemma {:induction false} AroundFullIff(t: Table, scl: nat, want: nat, h: Hunt)
    requires Around(t, scl, want, h) && |t| < UNKNOWN
    ensures HuntLoop(t, scl, want, h).HuntFull? <==> GivesUp(t, scl, want)
    decreases |t| - h.ncl
  {
    AroundRound(t, scl, want, h);
    var s := HuntRound(t, scl, h);
    if s.Going? && GoesOn(s.h, want) {
      AroundFullIff(t, scl, want, s.h);
    }
  }

  lemma {:induction false} BeyondIsNeverFull(t: Table, scl: nat, want: nat, h: Hunt)
    requires |t| <= scl && h.tries < MAX_TRIES
    ensures !HuntLoop(t, scl, want, h).HuntFull?
    decreases MAX_TRIES - h.tries, if h.ncl < |t| then |t| - h.ncl else 0
  {
    var s := HuntRound(t, scl, h);
    if s.Going? && GoesOn(s.h, want) {
      BeyondIsNeverFull(t, scl, want, s.h);
    }
  }

  /** The search reports a full volume exactly in this case, though nearly all clusters
      may be free. */
  lemma BatchFullIff(t: Table, scl: nat, want: nat)
    requires |t| < UNKNOWN && want >= 1 && scl <= UNKNOWN
    ensures BatchOf(t, scl, want).BatchFull? <==> GivesUp(t, scl, want)
  {
    if scl >= |t| {
      BeyondIsNeverFull(t, scl, want, HuntStart(scl));
    } else if scl >= 1 {
      UpwardFullIff(t, scl, want, HuntStart(scl), 0);
    }
  }

  /** It takes a request of about half the volume. */
  lemma GivesUpOnlySmall(t: Table, scl: nat, want: nat)
    requires GivesUp(t, scl, want)
    ensures |t| <= 2 * want + 3
  {
  }

  lemma {:induction false} SoundIsNeverCorrupt(t: Table, scl: nat, want: nat, h: Hunt)
    requires h.tries < MAX_TRIES && 1 <= h.ncl < UNKNOWN && |t| < UNKNOWN
    requires forall x :: 2 <= x < |t| ==> t[x] != 1
    ensures !HuntLoop(t, scl, want, h).HuntCorrupt?
    decreases MAX_TRIES - h.tries, if h.ncl < |t| then |t| - h.ncl else 0
  {
    var s := HuntRound(t, scl, h);
    if s.Going? && GoesOn(s.h, want) {
      SoundIsNeverCorrupt(t, scl, want, s.h);
    }
  }

  /** On a table without invalid links it fails as corrupt exactly from 0 and from the
      all-ones mark. */
  lemma BatchCorruptIff(t: Table, scl: nat, want: nat)
    requires |t| < UNKNOWN && scl <= UNKNOWN
    requires forall x :: 2 <= x < |t| ==> t[x] != 1
    ensures BatchOf(t, scl, want).BatchCorrupt? <==> scl == 0 || scl == UNKNOWN
  {
    if 1 <= scl < UNKNOWN {
      SoundIsNeverCorrupt(t, scl, want, HuntStart(scl));
    }
  }

  // ---------------------------------------------------------------------
  // Following a chain that goes on
  // ---------------------------------------------------------------------

  /** The contiguous links counted from clst on, num of them before; None at an invalid
      link. */
  function CountFollowing(t: Table, clst: nat, num: nat, want: nat): Option<nat>
    requires 2 <= clst < |t|
    decreases |t| - clst
  {
    var cs := t[clst];
    if cs < 2 then None
    else if cs < |t| && cs == clst + 1 then
      if num + 1 == want then Some(num + 1) else CountFollowing(t, cs, num + 1, want)
    else Some(num)
  }

  /** k clusters from clst on are linked each to the next one. */
  ghost predicate Contiguous(t: Table, clst: nat, k: nat) {
    clst + k <= |t| && forall x :: clst <= x < clst + k - 1 ==> t[x] == x + 1
  }

  lemma {:induction false} FollowFrom(t: Table, clst: nat, num: nat, want: nat)
    requires 2 <= clst < |t| && num >= 1
    ensures var f := CountFollowing(t, clst, num, want);
            f.Some? ==>
              var k := f.value - num + 1;
              && k >= 1 && Contiguous(t, clst, k)
              && (f.value != want || k == 1 ==> clst + k == |t| || t[clst + k - 1] != clst + k)
              && (num < want ==> f.value <= want)
    decreases |t| - clst
  {
    var cs := t[clst];
    if 2 <= cs < |t| && cs == clst + 1 && num + 1 != want {
      FollowFrom(t, cs, num + 1, want);
    }
  }

  /** k contiguous clusters lead into a link that is free or 1, and the count does not end
      before it comes to that. */
  ghost predicate RunsOut(t: Table, clst: nat, num: nat, want: nat, k: nat) {
    k >= 1 && Contiguous(t, clst, k) && t[clst + k - 1] < 2 && !(num < want < num + k)
  }

  lemma {:induction false} FollowFailsFrom(t: Table, clst: nat, num: nat, want: nat)
    requires 2 <= clst < |t| && num >= 1
    ensures CountFollowing(t, clst, num, want).None? <==> exists k: nat :: RunsOut(t, clst, num, want, k)
    decreases |t| - clst
  {
    var cs := t[clst];
    if cs < 2 {
      assert RunsOut(t, clst, num, want, 1);
    } else if cs == clst + 1 < |t| && num + 1 != want {
      var counted := num + 1;
      FollowFailsFrom(t, cs, counted, want);
      if k: nat :| RunsOut(t, cs, counted, want, k) {
        assert RunsOut(t, clst, num, want, k + 1);
      }
      if k: nat :| RunsOut(t, clst, num, want, k) {
        assert RunsOut(t, cs, counted, want, k - 1);
      }
    }
  }

  /** The count is the number of contiguous clusters, but no more than asked for, except
      that a request for one cluster is answered with all of them. It fails exactly if they
      lead into a free link or a 1 before as many as asked for are counted. */
  lemma FollowMeaning(t: Table, clst: nat, want: nat)
    requires 2 <= clst < |t| && want >= 1
    ensures var f := CountFollowing(t, clst, 1, want);
            && (f.Some? ==>
                  && f.value >= 1 && Contiguous(t, clst, f.value)
                  && (f.value > want <==> want == 1 && t[clst] == clst + 1 && clst + 1 < |t|)
                  && (f.value == want >= 2 || clst + f.value == |t| || t[clst + f.value - 1] != clst + f.value))
            && (f.None? <==>
                  exists k: nat :: k >= 1 && Contiguous(t, clst, k) && t[clst + k - 1] < 2 && !(2 <= want <= k))
  {
    FollowFrom(t, clst, 1, want);
    FollowFailsFrom(t, clst, 1, want);
    hide CountFollowing, Contiguous;
    if k: nat :| RunsOut(t, clst, 1, want, k) {
      assert k >= 1 && Contiguous(t, clst, k) && t[clst + k - 1] < 2 && !(2 <= want <= k);
    }
    if k: nat :| k >= 1 && Contiguous(t, clst, k) && t[clst + k - 1] < 2 && !(2 <= want <= k) {
      assert RunsOut(t, clst, 1, want, k);
    }
  }
}
