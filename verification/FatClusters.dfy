/** create_chain_for_clusts as code: the allocator of f_write, which looks for a run of
    clusters and falls back on create_chain. */
module FatClusters {
  import opened Bytes
  import opened Wrappers
  import opened FatTable
  import opened FatChain
  import opened FatBatch
  import opened FatStretch
  import opened FatLinks
  import opened FatVolume

  /** The free count after `want` clusters have been subtracted from it, with the
      wrap-around of a uint32_t, however many were taken. */
  function Reduced(freeClust: nat, want: nat): nat {
    if freeClust == UNKNOWN then UNKNOWN else (freeClust + (UNKNOWN + 1) - want) % (UNKNOWN + 1)
  }

  /** What an early exit of the search returns. */
  function HuntCode(s: HuntStep): nat {
    if s.HuntFull? then 0 else 1
  }

  /** The access behind a search that begins at access m and is not cut short. */
  ghost function HuntEnd(v: Volume, t: Table, scl: nat, want: nat, m: nat): nat {
    m + v.Reads(HuntRounds(t, scl, want, HuntStart(scl)))
  }

  /** The search loop; `early` is the code it returns by itself, if it does. */
  method FindRun(v: Volume, scl: nat, forNum: nat) returns (early: Option<nat>, h: Hunt)
    requires v.Valid() && scl <= UNKNOWN
    modifies v`moves
    ensures v.Valid() && v.moves >= old(v.moves)
    ensures early == Some(UNKNOWN) <==> v.DiskFailed(old(v.moves), v.moves)
    ensures !v.DiskFailed(old(v.moves), v.moves) ==>
              var s := HuntLoop(v.Table(), scl, forNum, HuntStart(scl));
              if s.Going? then early == None && h == s.h else early == Some(HuntCode(s))
    ensures HuntLoop(v.Table(), scl, forNum, HuntStart(scl)).Going? ==>
              && v.moves <= HuntEnd(v, v.Table(), scl, forNum, old(v.moves))
              && (early == None ==> v.moves == HuntEnd(v, v.Table(), scl, forNum, old(v.moves)))
  {
    hide Links, HoldsAll;
    var ncl: nat, num: nat, tries: nat, firstIdle: nat, firstNum: nat := scl, 0, 0, 0, 0;
    ghost var t, m0 := v.Table(), v.moves;
    ghost var all := HuntLoop(t, scl, forNum, HuntStart(scl));
    h := Hunt(ncl, num, tries, firstIdle, firstNum);
    v.NoFailure(m0, m0);
    ghost var k: nat := 0;
    while true
      invariant v.Valid() && v.moves >= m0 && !v.DiskFailed(m0, v.moves) && t == v.Table() && |t| == v.nFatent
      invariant v.moves == m0 + v.Reads(k)
      invariant ncl <= UNKNOWN && tries < MAX_TRIES
      invariant k + HuntRounds(t, scl, forNum, Hunt(ncl, num, tries, firstIdle, firstNum))
                == HuntRounds(t, scl, forNum, HuntStart(scl))
      invariant HuntLoop(t, scl, forNum, Hunt(ncl, num, tries, firstIdle, firstNum)) == all
      decreases MAX_TRIES - tries, if ncl < |t| then |t| - ncl else 0
    {
      ghost var s := HuntRound(t, scl, Hunt(ncl, num, tries, firstIdle, firstNum));
      v.ReadsAll(v.moves);
      k := k + 1;
      ncl := if ncl == UNKNOWN then 0 else ncl + 1;
      if ncl >= v.nFatent {
        ncl := 2;
        num := 0;
        tries := tries + 1;
        if ncl > scl {
          assert s == HuntFull;
          return Some(0), h;
        }
      }
      ghost var m := v.moves;
      var cs := v.GetFat(ncl);
      v.FailureSplits(m0, m, v.moves);
      v.NoFailure(m, m);
      if cs == 0 {
        if firstIdle == 0 {
          firstIdle := ncl;
        }
        num := num + 1;
      } else if cs == UNKNOWN || cs == 1 {
        return Some(cs), h;
      } else if ncl == scl {
        return Some(0), h;
      } else {
        if tries == 0 {
          firstNum := num;
        }
        num := 0;
        tries := tries + 1;
      }
      assert s == Going(Hunt(ncl, num, tries, firstIdle, firstNum));
      if !(num < forNum && tries < MAX_TRIES) {
        break;
      }
    }
    h := Hunt(ncl, num, tries, firstIdle, firstNum);
    return None, h;
  }

  /** Where a disk failure has left the linking of a run behind clst that began at access
      m: no link outside the run is touched, except that on FAT12 the one of clst is half
      written if all accesses up to its first byte worked. */
  ghost predicate RunCut(v: Volume, t: Table, clst: nat, last: nat, num: nat, m: nat)
    requires v.Valid() && |t| == v.nFatent && clst < |t| && num <= last < |t|
    reads v, v.fat
  {
    && (forall d :: 0 <= d < |t| && !(last - num < d <= last) && (clst == 0 || d != clst) ==> v.Table()[d] == t[d])
    && (last - num < clst <= last || v.Table()[clst] == LinkBehind(v, t, clst, last, num, m))
  }

  ghost function LinkBehind(v: Volume, t: Table, clst: nat, last: nat, num: nat, m: nat): nat
    requires clst < |t| && num <= last
  {
    if clst != 0 && !v.DiskFailed(m, m + v.Reads(num)) then
      v.PutCut(t, clst, last - num + 1, m + v.Reads(num))[clst]
    else t[clst]
  }

  /** The statements that link the clusters of a run, the last one first. */
  method LinkRun(v: Volume, last: nat, num: nat) returns (res: Result)
    requires v.Valid() && FreeRun(v.Table(), last, num) && num >= 1
    modifies v`moves, v.fat
    ensures v.Valid() && v.moves >= old(v.moves)
    ensures res == if v.DiskFailed(old(v.moves), v.moves) then DiskErr else Ok
    ensures res == Ok ==> v.Table() == Linked(old(v.Table()), last, num, v.Mark())
    ensures v.moves <= old(v.moves) + v.Reads(num) && (res == Ok ==> v.moves == old(v.moves) + v.Reads(num))
    ensures forall d :: 0 <= d < v.nFatent && !(last - num < d <= last) ==> v.Table()[d] == old(v.Table())[d]
  {
    hide Links, HoldsAll, Num, Bits, HalfLink, FreeRun;
    ghost var t, m0 := v.Table(), v.moves;
    assert num <= last < v.nFatent && last - num + 1 >= 2 by {
      RunBounds(t, last, num);
    }
    v.NoFailure(m0, m0);
    v.ReadsAll(m0);
    res := v.PutFat(last, LAST_LINK);
    if res == Ok {
      var i := 1;
      while i < num
        invariant 1 <= i <= num && v.Valid() && v.moves >= m0 && !v.DiskFailed(m0, v.moves)
        invariant res == Ok && v.Table() == Linked(t, last, i, v.Mark()) && v.moves == m0 + v.Reads(i)
        invariant forall d :: 0 <= d < v.nFatent && !(last - num < d <= last) ==> v.Table()[d] == t[d]
      {
        ghost var m := v.moves;
        CutValue(v.fsType, last - (i - 1));
        v.ReadsAll(m);
        res := v.PutFat(last - i, last - (i - 1));
        v.FailureSplits(m0, m, v.moves);
        if res != Ok {
          break;
        }
        i := i + 1;
      }
    }
  }

  lemma RunBounds(t: Table, last: nat, num: nat)
    requires FreeRun(t, last, num)
    ensures num <= last < |t| && last - num + 1 >= 2
  {
  }

  /** The access behind the linking of a run that begins at access m and works. */
  ghost function RunEnd(v: Volume, clst: nat, num: nat, m: nat): nat {
    m + v.Reads(if clst == 0 then num else num + 1)
  }

  /** A run is linked, and behind clst if there is one; last_clust and the free count
      move only on success. */
  method TakeRun(v: Volume, clst: nat, last: nat, num: nat, forNum: nat) returns (r: nat)
    requires v.Valid() && FreeRun(v.Table(), last, num) && num >= 1 && forNum <= UNKNOWN
    requires clst == 0 || 2 <= clst < v.nFatent
    modifies v`moves, v`lastClust, v`freeClust, v`fsiFlag, v.fat
    ensures v.Valid() && v.moves >= old(v.moves) && num <= last < v.nFatent
    ensures r == if v.DiskFailed(old(v.moves), v.moves) then UNKNOWN else last - num + 1
    ensures v.moves <= RunEnd(v, clst, num, old(v.moves))
    ensures r != UNKNOWN ==> v.moves == RunEnd(v, clst, num, old(v.moves))
    ensures r != UNKNOWN ==>
              && v.Table() == Appended(old(v.Table()), clst, last, num, v.Mark())
              && v.lastClust == last && v.freeClust == Reduced(old(v.freeClust), forNum)
    ensures r == UNKNOWN ==>
              && v.lastClust == old(v.lastClust) && v.freeClust == old(v.freeClust)
              && RunCut(v, old(v.Table()), clst, last, num, old(v.moves))
  {
    hide Links, HoldsAll, Num, Bits, HalfLink, FreeRun, Linked;
    ghost var t, m0 := v.Table(), v.moves;
    RunBounds(t, last, num);
    var res := LinkRun(v, last, num);
    if res != Ok {
      v.FailureReaches(m0, v.moves, m0 + v.Reads(num));
    }
    if res == Ok && clst != 0 {
      ghost var m := v.moves;
      v.ReadsAll(m);
      CutValue(v.fsType, last - num + 1);
      res := v.PutFat(clst, last - num + 1);
      v.FailureSplits(m0, m, v.moves);
    }
    if res == Ok {
      v.lastClust := last;
      if v.freeClust != UNKNOWN {
        v.freeClust := (v.freeClust + (UNKNOWN + 1) - forNum) % (UNKNOWN + 1);
        v.fsiFlag := true;
      }
      return last - num + 1;
    }
    return ErrorCode(res);
  }

  /** The loop that counts the clusters of a chain that goes on; a failed read counts as
      its end. */
  method FollowRun(v: Volume, first: nat, forNum: nat) returns (num: Option<nat>)
    requires v.Valid() && 2 <= first < v.nFatent
    modifies v`moves
    ensures v.Valid() && v.moves >= old(v.moves)
    ensures !v.DiskFailed(old(v.moves), v.moves) ==> num == CountFollowing(v.Table(), first, 1, forNum)
    ensures num.Some? ==> num.value >= 1 && Contiguous(v.Table(), first, num.value)
  {
    hide Links, HoldsAll;
    ghost var t, m0 := v.Table(), v.moves;
    ghost var all := CountFollowing(t, first, 1, forNum);
    v.NoFailure(m0, m0);
    var n, clst := 1, first;
    while true
      invariant v.Valid() && v.moves >= m0 && !v.DiskFailed(m0, v.moves) && t == v.Table() && |t| == v.nFatent
      invariant n >= 1 && 2 <= clst < |t| && clst == first + n - 1 && Contiguous(t, first, n)
      invariant CountFollowing(t, clst, n, forNum) == all
      decreases |t| - clst
    {
      ghost var m := v.moves;
      var cs := v.GetFat(clst);
      v.FailureSplits(m0, m, v.moves);
      if cs < 2 {
        return None;
      }
      if cs < v.nFatent && cs == clst + 1 {
        n := n + 1;
        if n == forNum {
          return Some(n);
        }
      } else {
        return Some(n);
      }
      clst := cs;
    }
  }

  /** What a call that had to search did, and returned: the links, the next access, the
      last cluster and the free count were t, m, wasLast and wasFree before the search. */
  ghost predicate Wrote(v: Volume, t: Table, clst: nat, want: nat, scl: nat, m: nat, wasLast: nat, wasFree: nat,
      r: nat, num: nat)
    requires v.Valid() && |t| == v.nFatent && clst < |t|
    reads v, v.fat
  {
    var found := HuntEnd(v, t, scl, want, m);
    match BatchOf(t, scl, want)
    case BatchFull =>
      (if v.DiskFailed(m, v.moves) then r == UNKNOWN else r == 0) && num == 0 && Unchanged(v, t, m, wasLast, wasFree)
    case BatchCorrupt =>
      (if v.DiskFailed(m, v.moves) then r == UNKNOWN else r == 1) && num == 0 && Unchanged(v, t, m, wasLast, wasFree)
    case Take(last, n) =>
      && 1 <= n <= last < |t|
      && if v.DiskFailed(m, found) then
           r == UNKNOWN && v.DiskFailed(m, v.moves) && Unchanged(v, t, m, wasLast, wasFree)
         else TookRun(v, t, clst, want, last, n, found, wasLast, wasFree, r, num)
    case Single(first) =>
      && num == (if r != 0 && r != 1 && r != UNKNOWN then 1 else 0)
      && if v.DiskFailed(m, found) then
           r == UNKNOWN && v.DiskFailed(m, v.moves) && Unchanged(v, t, m, wasLast, wasFree)
         else v.Did(t, clst, found, if first != 0 then first else wasLast, wasFree, r)
  }

  ghost predicate Unchanged(v: Volume, t: Table, m: nat, wasLast: nat, wasFree: nat)
    requires v.Valid()
    reads v, v.fat
  {
    m <= v.moves && v.Table() == t && v.lastClust == wasLast && v.freeClust == wasFree
  }

  ghost predicate TookRun(v: Volume, t: Table, clst: nat, want: nat, last: nat, n: nat, m: nat, wasLast: nat,
      wasFree: nat, r: nat, num: nat)
    requires v.Valid() && |t| == v.nFatent && clst < |t| && 1 <= n <= last < |t|
    reads v, v.fat
  {
    && m <= v.moves <= RunEnd(v, clst, n, m) && (r != UNKNOWN ==> v.moves == RunEnd(v, clst, n, m))
    && r == (if v.DiskFailed(m, v.moves) then UNKNOWN else last - n + 1)
    && if r == UNKNOWN then v.lastClust == wasLast && v.freeClust == wasFree && RunCut(v, t, clst, last, n, m)
       else && num == n && v.Table() == Appended(t, clst, last, n, v.Mark())
            && v.lastClust == last && v.freeClust == Reduced(wasFree, want)
  }

  /** create_chain, on which the call falls back when no cluster is free, comes to an end. */
  ghost predicate FallbackEnds(v: Volume, t: Table, clst: nat, scl: nat, want: nat, m: nat)
    requires |t| == v.nFatent
  {
    var found := HuntEnd(v, t, scl, want, m);
    (BatchOf(t, scl, want) == Single(0) && !v.DiskFailed(m, found) && !v.Answered(t, clst, found)
     && Outcome(t, scl).Running?) ==> v.FailsLater(v.AfterLook(clst, found))
  }

  /** create_chain_for_clusts from the search on. */
  method WriteRun(v: Volume, clst: nat, scl: nat, forNum: nat) returns (r: nat, num: nat)
    requires v.Valid() && scl == v.Start(clst) && forNum <= UNKNOWN && (clst == 0 || 2 <= clst < v.nFatent)
    requires FallbackEnds(v, v.Table(), clst, scl, forNum, v.moves)
    modifies v, v.fat
    ensures v.Valid() && v.moves >= old(v.moves)
    ensures Wrote(v, old(v.Table()), clst, forNum, scl, old(v.moves), old(v.lastClust), old(v.freeClust), r, num)
  {
    hide Links, HoldsAll, Outcome, HuntLoop, HuntRounds, FreeRun, Appended, Extended, Reduced, FreeCount, RunCut;
    ghost var t, m0, wasLast := v.Table(), v.moves, v.lastClust;
    ghost var found := HuntEnd(v, t, scl, forNum, m0);
    BatchIsFree(t, scl, forNum);
    v.NoFailure(m0, m0);
    var early, h := FindRun(v, scl, forNum);
    if early.Some? {
      if early == Some(UNKNOWN) && v.moves <= found {
        v.FailureReaches(m0, v.moves, found);
      }
      return early.value, 0;
    }
    var last;
    last, num := h.ncl, h.num;
    if num != forNum && h.firstNum != 0 && h.firstIdle != 0 {
      last, num := h.firstIdle + (h.firstNum - 1), h.firstNum;
    }
    if num != 0 {
      r := TakeRun(v, clst, last, num, forNum);
    } else {
      if h.firstIdle != 0 {
        v.lastClust := h.firstIdle;
      }
      SearchBehindIdleEnds(v, t, clst, scl, h.firstIdle, wasLast);
      r := v.CreateChain(clst);
      num := if r != 0 && r != 1 && r != UNKNOWN then 1 else 0;
    }
  }

  /** create_chain is not left to search for ever, unless no cluster is free. */
  lemma SearchBehindIdleEnds(v: Volume, t: Table, clst: nat, scl: nat, firstIdle: nat, wasLast: nat)
    requires v.Valid() && t == v.Table() && scl == v.StartFrom(clst, wasLast)
    requires v.lastClust == if firstIdle != 0 then firstIdle else wasLast
    requires firstIdle != 0 ==> IsFree(t, firstIdle)
    ensures Outcome(t, v.Start(clst)).Running? ==> firstIdle == 0 && v.Start(clst) == scl
  {
    SearchNeverEndsIff(t, v.Start(clst));
  }

  /** The call needs a search. */
  ghost predicate Searches(v: Volume, t: Table, clst: nat, m: nat)
    requires |t| == v.nFatent
  {
    clst == 0 || (2 <= clst < v.nFatent && !v.Answered(t, clst, m))
  }

  /** What a call that did not search returned: the next cluster and how many follow it
      contiguously, or 1 and no count. */
  ghost predicate Followed(v: Volume, t: Table, clst: nat, want: nat, m: nat, unset: nat, r: nat, getNum: nat)
    requires v.Valid() && |t| == v.nFatent
    reads v, v.fat
  {
    if 2 <= clst < v.nFatent && 2 <= t[clst] < v.nFatent then
      && (r == 1 || (r == t[clst] && getNum >= 1 && Contiguous(t, t[clst], getNum)))
      && (!v.DiskFailed(m, v.moves) ==>
            match CountFollowing(t, t[clst], 1, want)
            case None => r == 1 && getNum == unset
            case Some(k) => r == t[clst] && getNum == k)
    else r == 1 && getNum == unset
  }

  /** The subtraction is right exactly when as many clusters were taken as asked for, and
      ends at the mark for `unknown` exactly for one more than were free. */
  lemma ReducedIsRight(free: nat, num: nat, want: nat)
    requires free < UNKNOWN && num <= free && want <= UNKNOWN
    ensures Reduced(free, want) == free - num <==> num == want
    ensures Reduced(free, want) == UNKNOWN <==> want == free + 1
  {
  }

  /** After a run was taken a free count that was right still is exactly if the run was as
      long as asked for; and it becomes `unknown` exactly for one more than were free. */
  lemma CountAfterRun(v: Volume, t: Table, clst: nat, want: nat, scl: nat, m: nat, wasLast: nat, r: nat, num: nat)
    requires v.Valid() && |t| == v.nFatent && want <= UNKNOWN && BatchOf(t, scl, want).Take?
    requires clst == 0 || (2 <= clst < |t| && t[clst] != 0)
    requires Wrote(v, t, clst, want, scl, m, wasLast, FreeCount(t), r, num) && r != UNKNOWN
    ensures v.freeClust == FreeCount(v.Table()) <==> BatchOf(t, scl, want).num == want
    ensures v.freeClust == UNKNOWN <==> want == FreeCount(t) + 1
  {
    hide Links, HoldsAll, BatchOf, Appended, Free, FreeRun, Reduced, Num, Bits;
    var b := BatchOf(t, scl, want);
    BatchIsFree(t, scl, want);
    CutLastLink(v.fsType);
    AppendedFree(t, clst, b.last, b.num, v.Mark());
    ReducedIsRight(FreeCount(t), b.num, want);
  }

  /** The n clusters up to last are linked, each to the next one, the last one marked, and
      the first one linked behind clst, if there is one; nothing else has changed. The
      caller gets the first one, and the number of them. */
  ghost predicate RunTaken(v: Volume, t: Table, clst: nat, last: nat, n: nat, r: nat, num: nat)
    requires v.Valid() && |t| == v.nFatent && clst < |t|
    reads v, v.fat
  {
    && 1 <= n <= last < |t| && r == last - n + 1 && num == n && v.lastClust == last
    && (forall x :: last - n < x < last ==> v.Table()[x] == x + 1)
    && v.Table()[last] == v.Mark() && (clst != 0 ==> v.Table()[clst] == r)
    && forall d :: 0 <= d < |t| && !(last - n < d <= last) && (clst == 0 || d != clst) ==> v.Table()[d] == t[d]
  }

  /** A call that worked took, and returned, what the stretches of the table say. */
  ghost predicate TookStretch(v: Volume, t: Table, clst: nat, b: Batch, wasLast: nat, r: nat, num: nat)
    requires v.Valid() && |t| == v.nFatent && clst < |t|
    reads v, v.fat
  {
    match b
    case Take(last, n) => RunTaken(v, t, clst, last, n, r, num)
    case Single(first) =>
      var o := Outcome(t, v.StartFrom(clst, if first != 0 then first else wasLast));
      && num == (if r != 0 && r != 1 then 1 else 0)
      && (clst == 0 || t[clst] >= |t| ==>
            && r == SearchCode(o)
            && v.Table() == if o.Found? && o.ncl < |t| then Extended(t, clst, o.ncl, v.Mark()) else t)
    case BatchFull => r == 0 && num == 0 && v.Table() == t
    case BatchCorrupt => r == 1 && num == 0 && v.Table() == t
  }

  lemma StretchTaken(v: Volume, t: Table, clst: nat, want: nat, scl: nat, m: nat, wasLast: nat, wasFree: nat, r: nat,
      num: nat)
    requires v.Valid() && |t| == v.nFatent && 1 <= want && 1 <= scl < UNKNOWN
    requires clst == 0 || (2 <= clst < |t| && t[clst] != 0)
    requires Wrote(v, t, clst, want, scl, m, wasLast, wasFree, r, num) && r != UNKNOWN
    ensures TookStretch(v, t, clst, Outline(t, scl, want), wasLast, r, num)
  {
    hide Links, HoldsAll, BatchOf, Outline, Linked, Num, Bits, HuntRounds, Outcome;
    OutlineIsRight(t, scl, want);
    BatchIsFree(t, scl, want);
    match BatchOf(t, scl, want)
    case Take(last, n) =>
      forall d | 0 <= d < |t|
        ensures Linked(t, last, n, v.Mark())[d]
                == if d == last then v.Mark() else if last - n < d < last then d + 1 else t[d]
      {
        LinkedAt(t, last, n, v.Mark(), d);
      }
    case Single(first) =>
      SearchSound(t, v.StartFrom(clst, if first != 0 then first else wasLast), |t|);
    case _ =>
  }

  /** create_chain_for_clusts; `unset` is what the caller's count held before. */
  method CreateChainForClusts(v: Volume, clst: nat, forNum: nat, unset: nat) returns (r: nat, getNum: nat)
    requires v.Valid() && forNum <= UNKNOWN
    requires Searches(v, v.Table(), clst, v.moves) ==>
               FallbackEnds(v, v.Table(), clst, v.Start(clst), forNum, v.AfterLook(clst, v.moves))
    modifies v, v.fat
    ensures v.Valid() && v.moves >= old(v.moves)
    ensures Searches(v, old(v.Table()), clst, old(v.moves)) ==>
              Wrote(v, old(v.Table()), clst, forNum, old(v.Start(clst)),
                    v.AfterLook(clst, old(v.moves)), old(v.lastClust), old(v.freeClust), r, getNum)
    ensures !Searches(v, old(v.Table()), clst, old(v.moves)) ==>
              && Followed(v, old(v.Table()), clst, forNum, old(v.moves), unset, r, getNum)
              && v.Table() == old(v.Table()) && v.lastClust == old(v.lastClust) && v.freeClust == old(v.freeClust)
    ensures var t, scl := old(v.Table()), old(v.Start(clst));
            Searches(v, t, clst, old(v.moves)) && forNum >= 1 && 1 <= scl < UNKNOWN && r != UNKNOWN
            && (clst == 0 || t[clst] != 0) ==>
              TookStretch(v, t, clst, Outline(t, scl, forNum), old(v.lastClust), r, getNum)
    ensures var t, b := old(v.Table()), BatchOf(old(v.Table()), old(v.Start(clst)), forNum);
            Searches(v, t, clst, old(v.moves)) && b.Take? && r != UNKNOWN
            && old(v.freeClust) == FreeCount(t) && (clst == 0 || t[clst] != 0) ==>
              && (v.freeClust == FreeCount(v.Table()) <==> b.num == forNum)
              && (v.freeClust == UNKNOWN <==> forNum == old(v.freeClust) + 1)
  {
    hide Links, HoldsAll, Outcome, BatchOf, Wrote, FreeCount, Outline, RunTaken;
    var scl;
    ghost var m0 := v.moves;
    v.NoFailure(m0, m0);
    if clst == 0 {
      scl := v.lastClust;
      if scl == 0 || scl >= v.nFatent {
        scl := 1;
      }
    } else {
      var cs := v.GetFat(clst);
      if cs < 2 {
        return 1, unset;
      }
      if cs < v.nFatent {
        ghost var m := v.moves;
        var num := FollowRun(v, cs, forNum);
        v.FailureSplits(m0, m, v.moves);
        if num == None {
          return 1, unset;
        }
        return cs, num.value;
      }
      scl := v.lastClust;
    }
    ghost var t, m, wasLast, wasFree := v.Table(), v.moves, v.lastClust, v.freeClust;
    r, getNum := WriteRun(v, clst, scl, forNum);
    if r != UNKNOWN && (clst == 0 || t[clst] != 0) {
      if forNum >= 1 && 1 <= scl < UNKNOWN {
        StretchTaken(v, t, clst, forNum, scl, m, wasLast, wasFree, r, getNum);
      }
      if BatchOf(t, scl, forNum).Take? && wasFree == FreeCount(t) {
        CountAfterRun(v, t, clst, forNum, scl, m, wasLast, r, getNum);
      }
    }
  }

  // ---------------------------------------------------------------------
  // A run shorter than asked for
  // ---------------------------------------------------------------------

  /** Two free clusters, not next to each other. */
  lemma GappedTable(s: seq<Byte>)
    requires s == [0, 0, 0, 0, 9, 0, 9, 0, 0, 0, 9, 0, 9, 0, 0, 0]
    ensures HoldsAll(s, Fat16, 8) && Links(s, Fat16, 8) == [0, 0, 9, 9, 0, 9, 9, 0]
  {
    forall c | 0 <= c < 8
      ensures Link(s, Fat16, c) == s[2 * c] as int + 256 * (s[2 * c + 1] as int)
    {
      Link16(s, c);
    }
    hide Link;
    assert s[0] as int == 0 && s[4] as int == 9;
  }

  lemma GappedSearch(t: Table)
    requires t == [0, 0, 9, 9, 0, 9, 9, 0]
    ensures BatchOf(t, 3, 2) == Take(4, 1) && FreeCount(t) == 2
  {
    var h1 := Hunt(4, 1, 0, 4, 0);
    var h2 := Hunt(5, 0, 1, 4, 1);
    var h3 := Hunt(6, 0, 2, 4, 1);
    assert HuntRound(t, 3, HuntStart(3)) == Going(h1);
    assert HuntRound(t, 3, h1) == Going(h2);
    assert HuntRound(t, 3, h2) == Going(h3);
    assert HuntLoop(t, 3, 2, h2) == Going(h3);
    assert HuntLoop(t, 3, 2, h1) == Going(h3);
    assert Free(t, 8) == Free(t, 7) + 1 && Free(t, 7) == Free(t, 6) == Free(t, 5) == Free(t, 4) + 1;
    assert Free(t, 4) == Free(t, 3) == Free(t, 2) == 0;
  }

  /** It happens, on a disk that never fails: one cluster is taken where two were asked
      for, and the volume is said to be full while a cluster is free. */
  method ShortRunMiscounts() returns (v: Volume, r: nat, num: nat)
    ensures v.Valid() && r == 4 && num == 1
    ensures v.freeClust == 0 && FreeCount(v.Table()) == 1
  {
    hide Links, BatchOf, FreeCount, Appended, FreeRun, Num, Bits;
    var fat := new Byte[16] [0, 0, 0, 0, 9, 0, 9, 0, 0, 0, 9, 0, 9, 0, 0, 0];
    GappedTable(fat[..]);
    v := new Volume(Fat16, 512, 8, m => true, fat, 3, 2);
    ghost var t := v.Table();
    GappedSearch(t);
    BatchIsFree(t, 3, 2);
    CutLastLink(v.fsType);
    AppendedFree(t, 0, 4, 1, v.Mark());
    r, num := CreateChainForClusts(v, 0, 2, 0);
  }
}
