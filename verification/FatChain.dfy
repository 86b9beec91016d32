/** Cluster chains over a table of links: freeing a chain and searching for a free
    cluster, on any table whatsoever, corrupt ones included. */
module FatChain {

  const UNKNOWN: nat := 0xFFFF_FFFF
  const LAST_LINK: nat := 0x0FFF_FFFF

  datatype Result = Ok | IntErr | DiskErr

  /** Entry c of the table is table[c]; clusters are numbered from 2. */
  type Table = t: seq<nat> | |t| >= 3 witness [0, 0, 0]

  /** Free clusters among the first k entries. */
  function Free(t: Table, k: nat): nat
    requires k <= |t|
  {
    if k <= 2 then 0 else Free(t, k - 1) + if t[k - 1] == 0 then 1 else 0
  }

  function FreeCount(t: Table): nat {
    Free(t, |t|)
  }

  lemma {:induction false} FreeUpdate(t: Table, c: nat, v: nat, k: nat)
    requires 2 <= c < |t| && k <= |t|
    ensures Free(t[c := v], k)
            == Free(t, k) + (if c < k && v == 0 then 1 else 0) - (if c < k && t[c] == 0 then 1 else 0)
  {
    if k > 2 {
      FreeUpdate(t, c, v, k - 1);
    }
  }

  lemma {:induction false} FreeBound(t: Table, k: nat)
    requires k <= |t|
    ensures Free(t, k) <= k
  {
    if k > 2 {
      FreeBound(t, k - 1);
    }
  }

  // ---------------------------------------------------------------------
  // remove_chain
  // ---------------------------------------------------------------------

  datatype Removal = Removal(table: Table, freed: seq<nat>, result: Result)

  /** The loop of remove_chain: free c and go on to its link. Every round frees an
      entry that was not free, so it ends on any table. */
  function Remove(t: Table, c: nat): Removal
    requires c >= 2
    decreases |t| - FreeCount(t)
  {
    if c >= |t| || t[c] == 0 then Removal(t, [], Ok)
    else if t[c] == 1 then Removal(t, [], IntErr)
    else
      FreeUpdate(t, c, 0, |t|);
      FreeBound(t[c := 0], |t|);
      var r := Remove(t[c := 0], t[c]);
      Removal(r.table, [c] + r.freed, r.result)
  }

  /** Where the walk stands after having freed these clusters. */
  function Stop(t: Table, c: nat, freed: seq<nat>): nat
    requires forall i :: 0 <= i < |freed| ==> freed[i] < |t|
  {
    if |freed| == 0 then c else t[freed[|freed| - 1]]
  }

  /** freed is the walk from c along the links: distinct allocated clusters, each
      the link of the one before. */
  ghost predicate Walk(t: Table, c: nat, freed: seq<nat>) {
    && (forall i :: 0 <= i < |freed| ==> 2 <= freed[i] < |t| && t[freed[i]] >= 2)
    && (forall i, j :: 0 <= i < j < |freed| ==> freed[i] != freed[j])
    && (|freed| > 0 ==> freed[0] == c)
    && (forall i :: 0 <= i < |freed| - 1 ==> freed[i + 1] == t[freed[i]])
  }

  /** Exactly the clusters of the walk are freed and no other entry is touched; the
      walk stops at an end mark, at a free entry or back on its own trail (Ok), or at
      an entry that holds the invalid link 1 (IntErr). */
  ghost predicate FreesTheWalk(t: Table, c: nat, r: Removal) {
    && |r.table| == |t|
    && Walk(t, c, r.freed)
    && (forall d :: 0 <= d < |t| ==> r.table[d] == if d in r.freed then 0 else t[d])
    && var e := Stop(t, c, r.freed);
       (r.result == Ok && (e >= |t| || e in r.freed || t[e] == 0))
       || (r.result == IntErr && e < |t| && e !in r.freed && t[e] == 1)
  }

  lemma WalkExtends(t: Table, c: nat, rest: seq<nat>)
    requires 2 <= c < |t| && t[c] >= 2 && c !in rest
    requires Walk(t[c := 0], t[c], rest)
    ensures Walk(t, c, [c] + rest)
  {
    var freed := [c] + rest;
    forall i | 0 <= i < |freed| - 1
      ensures freed[i + 1] == t[freed[i]]
    {
      if i > 0 {
        assert rest[i] == t[c := 0][rest[i - 1]];
      }
    }
  }

  lemma FreesOneMore(t: Table, c: nat, r: Removal)
    requires 2 <= c < |t| && t[c] >= 2 && FreesTheWalk(t[c := 0], t[c], r)
    ensures FreesTheWalk(t, c, Removal(r.table, [c] + r.freed, r.result))
  {
    assert c !in r.freed;
    WalkExtends(t, c, r.freed);
    hide Walk;
    assert Stop(t, c, [c] + r.freed) == Stop(t[c := 0], t[c], r.freed);
  }

  /** What remove_chain does to any table. */
  lemma {:induction false} RemoveMeaning(t: Table, c: nat)
    requires c >= 2
    ensures FreesTheWalk(t, c, Remove(t, c))
    decreases |t| - FreeCount(t)
  {
    if c < |t| && t[c] >= 2 {
      FreeUpdate(t, c, 0, |t|);
      FreeBound(t[c := 0], |t|);
      RemoveMeaning(t[c := 0], t[c]);
      FreesOneMore(t, c, Remove(t[c := 0], t[c]));
    }
  }

  /** Conservation: as many more entries are free as clusters were freed. */
  lemma {:induction false} RemoveFrees(t: Table, c: nat)
    requires c >= 2
    ensures var r := Remove(t, c);
            |r.table| == |t| && FreeCount(r.table) == FreeCount(t) + |r.freed|
    decreases |t| - FreeCount(t)
  {
    if c < |t| && t[c] >= 2 {
      FreeUpdate(t, c, 0, |t|);
      FreeBound(t[c := 0], |t|);
      RemoveFrees(t[c := 0], t[c]);
    }
  }

  /** The first `done` clusters of the walk are free; the next one may have been hit by
      a failing write, everything else is as before. */
  ghost predicate FreedSoFar(before: Table, freed: seq<nat>, done: nat, t: Table)
    requires done <= |freed|
  {
    && |t| == |before|
    && forall d :: 0 <= d < |t| && (done < |freed| ==> d != freed[done])
         ==> t[d] == if d in freed[..done] then 0 else before[d]
  }

  /** The loop stands at c with table t, `done` rounds after it started at start. */
  ghost predicate Underway(before: Table, start: nat, t: Table, c: nat, done: nat)
    requires start >= 2
  {
    var all := Remove(before, start);
    && c >= 2 && done <= |all.freed| && |t| == |before|
    && Remove(t, c) == Removal(all.table, all.freed[done..], all.result)
    && forall d :: 0 <= d < |t| ==> t[d] == if d in all.freed[..done] then 0 else before[d]
  }

  lemma UnderwayFirst(before: Table, start: nat)
    requires start >= 2
    ensures Underway(before, start, before, start, 0)
  {
  }

  lemma UnderwayNext(before: Table, start: nat, t: Table, c: nat, done: nat)
    requires start >= 2 && Underway(before, start, t, c, done) && c < |t| && t[c] >= 2
    ensures done < |Remove(before, start).freed| && Remove(before, start).freed[done] == c
    ensures Underway(before, start, t[c := 0], t[c], done + 1)
    ensures FreeCount(t) < FreeCount(t[c := 0]) <= |t|
  {
    FreeUpdate(t, c, 0, |t|);
    FreeBound(t[c := 0], |t|);
    var freed := Remove(before, start).freed;
    assert Remove(t, c).freed[0] == freed[done];
    assert freed[..done + 1] == freed[..done] + [c];
  }

  lemma UnderwayLast(before: Table, start: nat, t: Table, c: nat, done: nat)
    requires start >= 2 && Underway(before, start, t, c, done) && (c < |t| ==> t[c] < 2)
    ensures var all := Remove(before, start);
            done == |all.freed| && t == all.table && all.result == if c < |t| && t[c] == 1 then IntErr else Ok
  {
  }

  lemma UnderwayFreed(before: Table, start: nat, t: Table, c: nat, done: nat)
    requires start >= 2 && Underway(before, start, t, c, done)
    ensures done <= |Remove(before, start).freed|
    ensures FreedSoFar(before, Remove(before, start).freed, done, t)
    ensures var freed := Remove(before, start).freed;
            done < |freed| ==> freed[done] == c && c < |t| && t[c] == before[c]
  {
    if done < |Remove(before, start).freed| {
      assert Remove(t, c).freed[0] == Remove(before, start).freed[done];
    }
  }

  lemma HalfFreed(before: Table, start: nat, t: Table, c: nat, done: nat, t': Table)
    requires start >= 2 && Underway(before, start, t, c, done) && c < |t| && t[c] >= 2
    requires |t'| == |t| && forall d :: 0 <= d < |t| && d != c ==> t'[d] == t[d]
    ensures done < |Remove(before, start).freed| && Remove(before, start).freed[done] == c && t[c] == before[c]
    ensures FreedSoFar(before, Remove(before, start).freed, done, t')
  {
    UnderwayNext(before, start, t, c, done);
    UnderwayFreed(before, start, t, c, done);
  }

  /** A sound chain: distinct clusters, each linked to the next, the last one to an
      end mark. */
  ghost predicate Chain(t: Table, cs: seq<nat>) {
    |cs| > 0 && Walk(t, cs[0], cs) && t[cs[|cs| - 1]] >= |t|
  }

  /** Of a sound chain all is freed. */
  lemma {:induction false} RemoveWholeChain(t: Table, cs: seq<nat>)
    requires Chain(t, cs)
    ensures var r := Remove(t, cs[0]); r.result == Ok && r.freed == cs
    decreases |cs|
  {
    var c := cs[0];
    var t1: Table := t[c := 0];
    FreeUpdate(t, c, 0, |t|);
    FreeBound(t1, |t|);
    if |cs| == 1 {
      assert Remove(t1, t[c]) == Removal(t1, [], Ok);
    } else {
      assert cs[1] == t[c];
      assert Chain(t1, cs[1..]);
      RemoveWholeChain(t1, cs[1..]);
      assert cs == [c] + cs[1..];
    }
  }

  // ---------------------------------------------------------------------
  // The search of create_chain
  // ---------------------------------------------------------------------

  datatype Search = Running(ncl: nat) | Full | Corrupt | Found(ncl: nat)

  /** One round of the loop. An index below 2 reads as 1, an invalid entry. */
  function SearchStep(t: Table, scl: nat, ncl: nat): Search {
    var m := if ncl == UNKNOWN then 0 else ncl + 1;
    if m >= |t| && 2 > scl then Full
    else
      var x := if m >= |t| then 2 else m;
      if x < 2 || t[x] == 1 then Corrupt
      else if t[x] == 0 then Found(x)
      else if x == scl then Full
      else Running(x)
  }

  /** The search from scl after k rounds. */
  function SearchRun(t: Table, scl: nat, k: nat): Search {
    if k == 0 then Running(scl)
    else
      var s := SearchRun(t, scl, k - 1);
      if s.Running? then SearchStep(t, scl, s.ncl) else s
  }

  /** After as many rounds as there are entries; a search still running then never
      ends. */
  function Outcome(t: Table, scl: nat): Search {
    SearchRun(t, scl, |t|)
  }

  lemma {:induction false} SearchStays(t: Table, scl: nat, k: nat, m: nat)
    requires k <= m && !SearchRun(t, scl, k).Running?
    ensures SearchRun(t, scl, m) == SearchRun(t, scl, k)
    decreases m
  {
    if k < m {
      SearchStays(t, scl, k, m - 1);
    }
  }

  /** The round, of the first k, in which the search ends. */
  function RoundsUpTo(t: Table, scl: nat, k: nat): nat {
    if k > 0 && !SearchRun(t, scl, k - 1).Running? then RoundsUpTo(t, scl, k - 1) else k
  }

  function Rounds(t: Table, scl: nat): nat {
    RoundsUpTo(t, scl, |t|)
  }

  lemma {:induction false} RoundsAre(t: Table, scl: nat, k: nat, m: nat)
    requires SearchRun(t, scl, k).Running? && !SearchRun(t, scl, k + 1).Running? && k < m
    ensures RoundsUpTo(t, scl, m) == k + 1
    decreases m
  {
    if m > k + 1 {
      SearchStays(t, scl, k + 1, m - 1);
      RoundsAre(t, scl, k, m - 1);
    }
  }

  lemma {:induction false} RoundsExceed(t: Table, scl: nat, k: nat, m: nat)
    requires SearchRun(t, scl, k).Running? && k < m
    ensures RoundsUpTo(t, scl, m) > k
    decreases m
  {
    if !SearchRun(t, scl, m - 1).Running? {
      RoundsExceed(t, scl, k, m - 1);
    }
  }

  predicate IsFree(t: Table, c: nat) {
    2 <= c < |t| && t[c] == 0
  }

  lemma {:induction false} SearchSound(t: Table, scl: nat, k: nat)
    ensures SearchRun(t, scl, k).Found? ==> IsFree(t, SearchRun(t, scl, k).ncl)
  {
    if k > 0 {
      SearchSound(t, scl, k - 1);
    }
  }

  /** Round k + 1 either goes on, before the rounds are used up, or is the outcome. */
  lemma SearchRound(t: Table, scl: nat, k: nat)
    requires k <= |t| && SearchRun(t, scl, k).Running? && !Outcome(t, scl).Running?
    ensures k < |t|
    ensures var s := SearchStep(t, scl, SearchRun(t, scl, k).ncl);
            SearchRun(t, scl, k + 1) == s && (s.Running? || Outcome(t, scl) == s)
  {
    if !SearchRun(t, scl, k + 1).Running? && k < |t| {
      SearchStays(t, scl, k + 1, |t|);
    }
  }

  /** The k-th cluster tried from scl, going up and around. */
  function Turn(n: nat, scl: nat, k: nat): nat
    requires n >= 3 && k >= 1
  {
    var m := if k == 1 then scl + 1 else Turn(n, scl, k - 1) + 1;
    if m >= n then 2 else m
  }

  predicate Stops(t: Table, x: nat) {
    x < |t| && t[x] < 2
  }

  /** Round k is the first to try a free or an invalid entry. */
  ghost predicate FirstStop(t: Table, scl: nat, k: nat) {
    && k >= 1 && Stops(t, Turn(|t|, scl, k))
    && forall j :: 1 <= j < k ==> !Stops(t, Turn(|t|, scl, j))
  }

  /** The first n-2 tries in closed form: every cluster once, scl itself last. */
  lemma {:induction false} TurnIs(n: nat, scl: nat, k: nat)
    requires n >= 3 && scl >= 1 && 1 <= k <= n - 2
    ensures var from := if scl < n then scl else 1;
            Turn(n, scl, k) == if from + k < n then from + k else from + k - n + 2
  {
    if k > 1 {
      TurnIs(n, scl, k - 1);
    }
  }

  lemma {:induction false} TurnInRange(n: nat, scl: nat, k: nat)
    requires n >= 3 && scl >= 1 && k >= 1
    ensures 2 <= Turn(n, scl, k) < n
  {
    if k > 1 {
      TurnInRange(n, scl, k - 1);
    }
  }

  lemma TurnCovers(n: nat, scl: nat, x: nat) returns (k: nat)
    requires n >= 3 && scl >= 1 && 2 <= x < n
    ensures 1 <= k <= n - 2 && Turn(n, scl, k) == x
  {
    var from := if scl < n then scl else 1;
    k := if x > from then x - from else x + n - 2 - from;
    TurnIs(n, scl, k);
  }

  /** As long as no try has stopped it, the search stands at its last try, or has
      given up after trying all the clusters of the table. */
  lemma {:induction false} SearchGoesOn(t: Table, scl: nat, k: nat)
    requires 1 <= scl < UNKNOWN && |t| < UNKNOWN
    requires forall j :: 1 <= j <= k ==> !Stops(t, Turn(|t|, scl, j))
    ensures SearchRun(t, scl, k)
            == if k == 0 then Running(scl)
               else if scl < |t| && k >= |t| - (if scl == 1 then 1 else 2) then Full
               else Running(Turn(|t|, scl, k))
  {
    if k > 0 {
      SearchGoesOn(t, scl, k - 1);
      TurnInRange(|t|, scl, k);
      if k > 1 {
        TurnInRange(|t|, scl, k - 1);
      }
      assert !Stops(t, Turn(|t|, scl, k));
      if k <= |t| - 2 {
        TurnIs(|t|, scl, k);
      }
      if 1 < k <= |t| - 1 {
        TurnIs(|t|, scl, k - 1);
      }
    }
  }

  /** The first try that stops the search decides it. */
  lemma SearchStopsAt(t: Table, scl: nat, k: nat)
    requires 1 <= scl < UNKNOWN && |t| < UNKNOWN
    requires FirstStop(t, scl, k) && k <= |t| - 2
    ensures var x := Turn(|t|, scl, k);
            Outcome(t, scl) == if t[x] == 0 then Found(x) else Corrupt
  {
    SearchGoesOn(t, scl, k - 1);
    TurnInRange(|t|, scl, k);
    TurnIs(|t|, scl, k);
    if k > 1 {
      TurnInRange(|t|, scl, k - 1);
      TurnIs(|t|, scl, k - 1);
    }
    hide FirstStop, Turn;
    assert SearchRun(t, scl, k - 1) == if k == 1 then Running(scl) else Running(Turn(|t|, scl, k - 1));
    assert SearchRun(t, scl, k) == SearchStep(t, scl, SearchRun(t, scl, k - 1).ncl);
    SearchStays(t, scl, k, |t|);
  }

  /** Some cluster is free or invalid: then there is a first such try. */
  lemma {:induction false} FirstStopExists(t: Table, scl: nat, k: nat) returns (first: nat)
    requires k >= 1 && Stops(t, Turn(|t|, scl, k))
    ensures first <= k && FirstStop(t, scl, first)
  {
    if j: nat :| 1 <= j < k && Stops(t, Turn(|t|, scl, j)) {
      first := FirstStopExists(t, scl, j);
    } else {
      first := k;
    }
  }

  ghost predicate NothingStops(t: Table) {
    forall x :: 2 <= x < |t| ==> !Stops(t, x)
  }

  lemma SearchWithoutStop(t: Table, scl: nat, k: nat)
    requires 1 <= scl < UNKNOWN && |t| < UNKNOWN && NothingStops(t)
    ensures k > 0 && (scl >= |t| || k < |t| - 2) ==> SearchRun(t, scl, k) == Running(Turn(|t|, scl, k))
    ensures scl < |t| ==> Outcome(t, scl) == Full
  {
    forall j | 1 <= j
      ensures !Stops(t, Turn(|t|, scl, j))
    {
      TurnInRange(|t|, scl, j);
    }
    SearchGoesOn(t, scl, k);
    SearchGoesOn(t, scl, |t|);
  }

  /** From 0, which is the value after mounting, and from the all-ones `unknown`
      mark, the first round already reads an index that is no cluster. */
  lemma BadStartIsCorrupt(t: Table, scl: nat)
    requires scl == 0 || scl == UNKNOWN
    requires |t| < UNKNOWN
    ensures Outcome(t, scl) == Corrupt
  {
    assert SearchRun(t, scl, 1) == SearchStep(t, scl, SearchRun(t, scl, 0).ncl);
    SearchStays(t, scl, 1, |t|);
  }

  /** The search decides: a free cluster is found when every entry is sound, one is
      free, and the starting point is neither 0 nor `unknown`; and only then. */
  lemma SearchFindsIff(t: Table, scl: nat)
    requires |t| < UNKNOWN && scl <= UNKNOWN
    requires forall x :: 2 <= x < |t| ==> t[x] != 1
    requires exists x :: 2 <= x < |t| && t[x] == 0
    ensures Outcome(t, scl).Found? <==> 1 <= scl < UNKNOWN
    ensures Outcome(t, scl).Found? ==> 2 <= Outcome(t, scl).ncl < |t| && t[Outcome(t, scl).ncl] == 0
  {
    if scl == 0 || scl == UNKNOWN {
      BadStartIsCorrupt(t, scl);
    } else {
      var x :| 2 <= x < |t| && t[x] == 0;
      var k := TurnCovers(|t|, scl, x);
      var first := FirstStopExists(t, scl, k);
      SearchStopsAt(t, scl, first);
      TurnInRange(|t|, scl, first);
    }
  }

  ghost predicate Endless(t: Table, scl: nat) {
    forall k: nat :: SearchRun(t, scl, k).Running?
  }

  /** The loop runs for ever exactly when it starts beyond the table and finds no
      entry that is free or invalid. */
  lemma SearchNeverEndsIff(t: Table, scl: nat)
    requires |t| < UNKNOWN && scl <= UNKNOWN
    ensures Endless(t, scl) <==> |t| <= scl < UNKNOWN && NothingStops(t)
    ensures Outcome(t, scl).Running? <==> |t| <= scl < UNKNOWN && NothingStops(t)
  {
    if |t| <= scl < UNKNOWN && NothingStops(t) {
      forall k: nat
        ensures SearchRun(t, scl, k).Running?
      {
        if k > 0 {
          SearchWithoutStop(t, scl, k);
        }
      }
    } else {
      SearchEnds(t, scl);
      var k := |t|;
      assert !SearchRun(t, scl, k).Running?;
    }
  }

  /** A search without an end has a next round. */
  lemma SearchKeepsOn(t: Table, scl: nat, k: nat)
    requires |t| < UNKNOWN && scl <= UNKNOWN && Outcome(t, scl).Running?
    ensures SearchRun(t, scl, k).Running? && SearchRun(t, scl, k + 1).Running?
    ensures SearchRun(t, scl, k + 1) == SearchStep(t, scl, SearchRun(t, scl, k).ncl)
  {
    SearchNeverEndsIff(t, scl);
  }

  lemma SearchEnds(t: Table, scl: nat)
    requires |t| < UNKNOWN && scl <= UNKNOWN && !(|t| <= scl < UNKNOWN && NothingStops(t))
    ensures !Outcome(t, scl).Running?
  {
    if scl == 0 || scl == UNKNOWN {
      BadStartIsCorrupt(t, scl);
    } else if NothingStops(t) {
      SearchWithoutStop(t, scl, |t|);
    } else {
      var x :| 2 <= x < |t| && Stops(t, x);
      var k := TurnCovers(|t|, scl, x);
      var first := FirstStopExists(t, scl, k);
      SearchStopsAt(t, scl, first);
    }
  }

  /** It reports a full volume exactly when it starts inside the table and no entry
      is free or invalid. */
  lemma SearchFullIff(t: Table, scl: nat)
    requires |t| < UNKNOWN && scl <= UNKNOWN
    ensures Outcome(t, scl).Full? <==> 1 <= scl < |t| && NothingStops(t)
  {
    if scl == 0 || scl == UNKNOWN {
      BadStartIsCorrupt(t, scl);
    } else if NothingStops(t) {
      SearchWithoutStop(t, scl, |t|);
    } else {
      var x :| 2 <= x < |t| && Stops(t, x);
      var k := TurnCovers(|t|, scl, x);
      var first := FirstStopExists(t, scl, k);
      SearchStopsAt(t, scl, first);
    }
  }

  // ---------------------------------------------------------------------
  // create_chain
  // ---------------------------------------------------------------------

  /** Where the search for a new chain begins: at the last cluster given out, or at the
      front of the table when there is none inside it. */
  function NewStart(n: nat, lastClust: nat): nat {
    if lastClust == 0 || lastClust >= n then 1 else lastClust
  }

  /** The table after the new cluster has been marked and linked behind clst. */
  function Extended(t: Table, clst: nat, ncl: nat, mark: nat): Table
    requires clst < |t| && ncl < |t|
  {
    if clst == 0 then t[ncl := mark] else t[ncl := mark][clst := ncl]
  }

  /** Linking a free cluster to one that is in use takes one cluster out of the free. */
  lemma ExtendedFree(t: Table, clst: nat, ncl: nat, mark: nat)
    requires IsFree(t, ncl) && mark != 0
    requires clst == 0 || (2 <= clst < |t| && t[clst] != 0)
    ensures |Extended(t, clst, ncl, mark)| == |t|
    ensures FreeCount(Extended(t, clst, ncl, mark)) == FreeCount(t) - 1
    ensures FreeCount(t) <= |t|
  {
    FreeUpdate(t, ncl, mark, |t|);
    FreeBound(t, |t|);
    if clst != 0 {
      FreeUpdate(t[ncl := mark], clst, ncl, |t|);
    }
  }

  /** Appending to a chain whose last cluster is clst gives the chain with ncl behind
      it, one cluster fewer is free, and chains that do not meet it stay. */
  lemma ExtendedChain(t: Table, cs: seq<nat>, ncl: nat, mark: nat)
    requires Chain(t, cs) && 2 <= ncl < |t| && t[ncl] == 0 && mark >= |t|
    ensures var t' := Extended(t, cs[|cs| - 1], ncl, mark);
            && Chain(t', cs + [ncl])
            && FreeCount(t') == FreeCount(t) - 1
            && (forall ds :: Chain(t, ds) && cs[|cs| - 1] !in ds ==> Chain(t', ds))
  {
    var clst := cs[|cs| - 1];
    var t1: Table := t[ncl := mark];
    assert FreeCount(t1[clst := ncl]) == FreeCount(t) - 1 by {
      FreeUpdate(t, ncl, mark, |t|);
      FreeUpdate(t1, clst, ncl, |t|);
    }
    hide FreeCount;
    assert ncl !in cs;
  }

  /** What a failed read of the link of cs[i] leads to: the chain now ends in ncl behind
      cs[i], and the rest of it is a chain that nothing leads to. */
  lemma {:induction false} BlindStretch(t: Table, cs: seq<nat>, i: nat, ncl: nat, mark: nat)
    requires Chain(t, cs) && i < |cs| - 1 && IsFree(t, ncl) && mark >= |t|
    ensures var t' := Extended(t, cs[i], ncl, mark);
            Chain(t', cs[..i + 1] + [ncl]) && Chain(t', cs[i + 1..])
  {
    var t', kept, tail := Extended(t, cs[i], ncl, mark), cs[..i + 1] + [ncl], cs[i + 1..];
    assert forall j :: 0 <= j < |cs| ==> cs[j] != ncl;
    assert forall j :: 0 <= j < |cs| && j != i ==> t'[cs[j]] == t[cs[j]];
    assert Walk(t', kept[0], kept);
    assert Walk(t', tail[0], tail);
  }
}
