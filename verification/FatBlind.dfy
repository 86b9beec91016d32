/** create_chain asked for the cluster behind one that is not the last of its chain: the
    disk error that it does not check for. */
module FatBlind {
  import opened Bytes
  import opened FatTable
  import opened FatChain
  import opened FatLinks
  import opened FatVolume
  import opened FatBatch
  import opened FatClusters

  /** The read of the link of a cluster fails. */
  ghost predicate LookFails(v: Volume, m: nat) {
    v.DiskFailed(m, v.AfterRead(m))
  }

  lemma NextInChain(t: Table, cs: seq<nat>, i: nat)
    requires Chain(t, cs) && i < |cs| - 1
    ensures 2 <= cs[i] < |t| && t[cs[i]] == cs[i + 1] && 2 <= cs[i + 1] < |t|
  {
  }

  lemma CutChainIsNoChain(t: Table, cs: seq<nat>, i: nat, ncl: nat, mark: nat)
    requires Chain(t, cs) && i < |cs| - 1 && IsFree(t, ncl) && mark >= |t|
    ensures !Chain(Extended(t, cs[i], ncl, mark), cs)
  {
    NextInChain(t, cs, i);
    var t' := Extended(t, cs[i], ncl, mark);
    assert t'[cs[i]] == ncl != cs[i + 1];
  }

  /** The link of clst that create_chain, searching from scl with access m on, leaves when
      the disk fails: half written on FAT12, if the failing access is the one to its second
      byte. */
  ghost function LinkLeft(v: Volume, t: Table, clst: nat, scl: nat, m: nat): nat
    requires clst < |t|
  {
    var o, second := Outcome(t, scl), v.SearchEnd(t, scl, m) + v.Reads(1);
    if v.fsType.Fat12? && o.Found? && !v.DiskFailed(m, second) && v.disk(second) then
      HalfLink(t[clst], o.ncl, clst % 2 == 1)
    else t[clst]
  }

  /** Some access of create_chain behind its look fails. */
  ghost predicate FailsBehind(v: Volume, t: Table, clst: nat, scl: nat, m: nat) {
    v.DiskFailed(m, v.CreateEnd(t, clst, scl, m))
  }

  lemma CutLink(v: Volume, t: Table, clst: nat, scl: nat, m: nat)
    requires v.Valid() && |t| == v.nFatent && 2 <= clst < |t| && t[clst] >= 2 && Outcome(t, scl).Found?
    ensures v.CreateCut(t, clst, scl, m)[clst] == LinkLeft(v, t, clst, scl, m)
    ensures forall d :: 0 <= d < |t| && t[d] != 0 && d != clst ==> v.CreateCut(t, clst, scl, m)[d] == t[d]
  {
    hide HalfLink, Num, Bits, Outcome;
    var o, found := Outcome(t, scl), v.SearchEnd(t, scl, m);
    FoundCluster(t, scl);
    CutValue(v.fsType, o.ncl);
    v.ReadsAll(found);
    if !v.DiskFailed(m, found) {
      v.FailureSplits(m, found, found + v.Reads(1));
    } else {
      v.FailureReaches(m, found, found + v.Reads(1));
    }
  }

  lemma FoundCluster(t: Table, scl: nat)
    ensures Outcome(t, scl).Found? ==> IsFree(t, Outcome(t, scl).ncl)
  {
    SearchSound(t, scl, |t|);
  }

  /** Only the link inside the chain matters for the chain. */
  lemma ChainByLink(t: Table, t': Table, cs: seq<nat>, i: nat)
    requires Chain(t, cs) && i < |cs| - 1 && |t'| == |t|
    requires forall d :: 0 <= d < |t| && t[d] != 0 && d != cs[i] ==> t'[d] == t[d]
    ensures Chain(t', cs) <==> t'[cs[i]] == cs[i + 1]
  {
    NextInChain(t, cs, i);
  }

  /** create_chain, called for clst at access m with its search starting at scl, leaves the
      link from clst to next: the read of the link works, or no free cluster is found, or a
      later access fails as well and has not left the link half written to another value. */
  ghost predicate Keeps(v: Volume, t: Table, clst: nat, next: nat, scl: nat, m: nat)
    requires clst < |t|
  {
    || !LookFails(v, m)
    || !Outcome(t, scl).Found?
    || (FailsBehind(v, t, clst, scl, v.AfterRead(m)) && LinkLeft(v, t, clst, scl, v.AfterRead(m)) == next)
  }

  /** What create_chain has done to the link, and with it to the chain. */
  lemma KeptIff(v: Volume, t: Table, cs: seq<nat>, i: nat, m: nat, scl: nat, wasFree: nat, r: nat)
    requires v.Valid() && |t| == v.nFatent && Chain(t, cs) && i < |cs| - 1 && v.Did(t, cs[i], m, scl, wasFree, r)
    ensures cs[i] < |t| && (Chain(v.Table(), cs) <==> Keeps(v, t, cs[i], cs[i + 1], scl, m))
    ensures r != UNKNOWN && !Chain(v.Table(), cs) ==>
              Chain(v.Table(), cs[..i + 1] + [r]) && Chain(v.Table(), cs[i + 1..])
  {
    hide Links, Outcome, Extended, Chain, HoldsAll, Num, Bits, FreeCount, LinkLeft;
    NextInChain(t, cs, i);
    CutLastLink(v.fsType);
    var clst, o, m1 := cs[i], Outcome(t, scl), v.AfterRead(m);
    if LookFails(v, m) && o.Found? {
      if r == UNKNOWN {
        CutLink(v, t, clst, scl, m1);
        ChainByLink(t, v.Table(), cs, i);
        v.FailureReaches(m1, v.moves, v.CreateEnd(t, clst, scl, m1));
      } else {
        CutChainIsNoChain(t, cs, i, o.ncl, v.Mark());
        BlindStretch(t, cs, i, o.ncl, v.Mark());
      }
    }
  }

  /** The chain survives the call exactly if the read of the link works, or no free cluster
      is found, or a later access fails as well and has not left the link half written to
      another value; all of this is settled before the call. Otherwise it is cut behind
      cs[i], and if the call returns a cluster its rest is a chain that nothing leads to. */
  method Follow(v: Volume, ghost cs: seq<nat>, ghost i: nat, clst: nat) returns (r: nat)
    requires v.Valid() && Chain(v.Table(), cs) && i < |cs| - 1 && clst == cs[i]
    requires LookFails(v, v.moves) && Outcome(v.Table(), v.lastClust).Running? ==> v.FailsLater(v.AfterRead(v.moves))
    modifies v, v.fat
    ensures v.Valid() && clst < v.nFatent
    ensures Chain(v.Table(), cs) <==> Keeps(v, old(v.Table()), clst, cs[i + 1], old(v.lastClust), old(v.moves))
    ensures LookFails(v, old(v.moves)) ==>
              && v.AfterRead(old(v.moves)) <= v.moves
              && r == if v.DiskFailed(v.AfterRead(old(v.moves)), v.moves) then UNKNOWN
                      else SearchCode(Outcome(old(v.Table()), old(v.lastClust)))
    ensures !LookFails(v, old(v.moves)) ==> r == cs[i + 1] && v.Table() == old(v.Table())
    ensures r != UNKNOWN && !Chain(v.Table(), cs) ==>
              Chain(v.Table(), cs[..i + 1] + [r]) && Chain(v.Table(), cs[i + 1..])
  {
    hide Links, Outcome, Extended, Chain, HoldsAll, Num, Bits, FreeCount, LinkLeft;
    ghost var t, m, scl, wasFree := v.Table(), v.moves, v.lastClust, v.freeClust;
    NextInChain(t, cs, i);
    r := v.CreateChain(clst);
    KeptIff(v, t, cs, i, m, scl, wasFree, r);
  }

  // ---------------------------------------------------------------------
  // create_chain_for_clusts reads the link in the same way
  // ---------------------------------------------------------------------

  /** The same for create_chain_for_clusts: a run that it finds, and links without another
      failure, cuts the chain; when it finds none it looks again. */
  ghost predicate RunKeeps(v: Volume, t: Table, clst: nat, next: nat, want: nat, scl: nat, m: nat)
    requires clst < |t|
  {
    var m1 := v.AfterRead(m);
    var found := HuntEnd(v, t, scl, want, m1);
    || !LookFails(v, m)
    || match BatchOf(t, scl, want)
       case Take(last, num) =>
         || v.DiskFailed(m1, found)
         || (v.DiskFailed(found, RunEnd(v, clst, num, found)) && num <= last
             && LinkBehind(v, t, clst, last, num, found) == next)
       case Single(first) =>
         v.DiskFailed(m1, found) || Keeps(v, t, clst, next, if first != 0 then first else scl, found)
       case _ => true
  }

  lemma FrontAndTail(t: Table, t': Table, cs: seq<nat>, i: nat)
    requires Chain(t, cs) && i < |cs| - 1 && |t'| == |t|
    requires forall d :: 0 <= d < |t| && t[d] != 0 && d != cs[i] ==> t'[d] == t[d]
    ensures t'[cs[i]] >= 2 ==> Walk(t', cs[0], cs[..i + 1])
    ensures Chain(t', cs[i + 1..])
  {
    NextInChain(t, cs, i);
  }

  /** A run behind a cluster inside a chain makes two chains. */
  lemma BlindRun(t: Table, cs: seq<nat>, i: nat, last: nat, num: nat, mark: nat)
    requires Chain(t, cs) && i < |cs| - 1 && FreeRun(t, last, num) && num >= 1 && mark >= |t|
    ensures cs[i] < |t| && num <= last
    ensures var t' := Appended(t, cs[i], last, num, mark);
            !Chain(t', cs) && Chain(t', cs[..i + 1] + Clusters(last, num)) && Chain(t', cs[i + 1..])
  {
    hide FreeRun, Linked;
    RunBounds(t, last, num);
    NextInChain(t, cs, i);
    var run, front, t' := Clusters(last, num), cs[..i + 1], Appended(t, cs[i], last, num, mark);
    UsedIsKept(t, cs[i], last, num, mark);
    FrontAndTail(t, t', cs, i);
    RunIsChain(t, last, num, mark);
    UsedIsNotTaken(t, cs, last, num);
    RunStays(Linked(t, last, num, mark), t', run, cs[i]);
    assert forall d :: d in front ==> d in cs;
    ChainsJoin(t', front, run);
    RunMembers(last, num, last - num + 1);
    ChainByLink(t, t', cs, i);
  }

  lemma UsedIsKept(t: Table, clst: nat, last: nat, num: nat, mark: nat)
    requires FreeRun(t, last, num) && clst < |t|
    ensures forall d :: 0 <= d < |t| && t[d] != 0 && d != clst ==> Appended(t, clst, last, num, mark)[d] == t[d]
  {
    forall d | 0 <= d < |t| && t[d] != 0 && d != clst
      ensures Appended(t, clst, last, num, mark)[d] == t[d]
    {
      LinkedAt(t, last, num, mark, d);
    }
  }

  lemma UsedIsNotTaken(t: Table, cs: seq<nat>, last: nat, num: nat)
    requires Chain(t, cs) && FreeRun(t, last, num)
    ensures forall d :: d in cs ==> d !in Clusters(last, num)
  {
    forall d | d in cs
      ensures d !in Clusters(last, num)
    {
      RunMembers(last, num, d);
    }
  }

  /** What create_chain_for_clusts has done to the link, and with it to the chain. */
  lemma RunKeptIff(v: Volume, t: Table, cs: seq<nat>, i: nat, want: nat, scl: nat, m: nat, wasFree: nat, r: nat,
      num: nat)
    requires v.Valid() && |t| == v.nFatent && Chain(t, cs) && i < |cs| - 1 && cs[i] < |t| && LookFails(v, m)
    requires Wrote(v, t, cs[i], want, scl, v.AfterRead(m), scl, wasFree, r, num)
    ensures Chain(v.Table(), cs) <==> RunKeeps(v, t, cs[i], cs[i + 1], want, scl, m)
    ensures r != UNKNOWN && !Chain(v.Table(), cs) && BatchOf(t, scl, want).Take? ==>
              num <= BatchOf(t, scl, want).last + 1
              && Chain(v.Table(), cs[..i + 1] + Clusters(BatchOf(t, scl, want).last, num))
              && Chain(v.Table(), cs[i + 1..])
  {
    hide Links, HoldsAll, Outcome, BatchOf, FreeRun, Appended, Chain, Num, Bits, Keeps, FreeCount, HalfLink;
    BatchIsFree(t, scl, want);
    CutLastLink(v.fsType);
    var m1 := v.AfterRead(m);
    var found := HuntEnd(v, t, scl, want, m1);
    match BatchOf(t, scl, want)
    case Take(last, n) =>
      if !v.DiskFailed(m1, found) {
        if r == UNKNOWN {
          CutRunLink(v, t, cs, i, last, n, found);
          v.FailureReaches(found, v.moves, RunEnd(v, cs[i], n, found));
        } else {
          BlindRun(t, cs, i, last, n, v.Mark());
        }
      }
    case Single(first) =>
      if !v.DiskFailed(m1, found) {
        KeptIff(v, t, cs, i, found, if first != 0 then first else scl, wasFree, r);
      }
    case _ =>
  }

  lemma CutRunLink(v: Volume, t: Table, cs: seq<nat>, i: nat, last: nat, num: nat, m: nat)
    requires v.Valid() && |t| == v.nFatent && Chain(t, cs) && i < |cs| - 1 && cs[i] < |t|
    requires FreeRun(t, last, num) && RunCut(v, t, cs[i], last, num, m)
    ensures num <= last
    ensures Chain(v.Table(), cs) <==> LinkBehind(v, t, cs[i], last, num, m) == cs[i + 1]
  {
    hide Links, HoldsAll, Num, Bits, HalfLink;
    NextInChain(t, cs, i);
    ChainByLink(t, v.Table(), cs, i);
  }

  /** The chain survives a call of create_chain_for_clusts exactly in that case. */
  method FollowForRun(v: Volume, ghost cs: seq<nat>, ghost i: nat, clst: nat, want: nat, unset: nat)
    returns (r: nat, num: nat)
    requires v.Valid() && Chain(v.Table(), cs) && i < |cs| - 1 && clst == cs[i] && want <= UNKNOWN
    requires LookFails(v, v.moves) && clst < v.nFatent ==>
               FallbackEnds(v, v.Table(), clst, v.lastClust, want, v.AfterRead(v.moves))
    modifies v, v.fat
    ensures v.Valid() && clst < v.nFatent
    ensures Chain(v.Table(), cs) <==>
              RunKeeps(v, old(v.Table()), clst, cs[i + 1], want, old(v.lastClust), old(v.moves))
    ensures !LookFails(v, old(v.moves)) ==> v.Table() == old(v.Table())
  {
    hide Links, Outcome, Chain, HoldsAll, Num, Bits, FreeCount, BatchOf, Wrote, FallbackEnds;
    ghost var t, m, scl, wasFree := v.Table(), v.moves, v.lastClust, v.freeClust;
    NextInChain(t, cs, i);
    r, num := CreateChainForClusts(v, clst, want, unset);
    if LookFails(v, m) {
      RunKeptIff(v, t, cs, i, want, scl, m, wasFree, r, num);
    }
  }

  // ---------------------------------------------------------------------
  // It happens
  // ---------------------------------------------------------------------

  /** Two clusters of one file and a free one behind them. */
  lemma SmallTable(s: seq<Byte>)
    requires s == [0xF8, 0xFF, 0xFF, 0xFF, 3, 0, 0xFF, 0xFF, 0, 0]
    ensures HoldsAll(s, Fat16, 5) && Links(s, Fat16, 5) == [0xFFF8, 0xFFFF, 3, 0xFFFF, 0]
  {
    Link16(s, 0);
    Link16(s, 1);
    Link16(s, 2);
    Link16(s, 3);
    Link16(s, 4);
    hide Link;
    assert s[0] as int == 0xF8 && s[1] as int == 0xFF && s[4] as int == 3 && s[8] as int == 0;
  }

  lemma SmallSearch(t: Table)
    requires t == [0xFFF8, 0xFFFF, 3, 0xFFFF, 0]
    ensures Chain(t, [2, 3]) && Outcome(t, 3) == Found(4)
  {
    assert SearchRun(t, 3, 1) == SearchStep(t, 3, SearchRun(t, 3, 0).ncl);
    SearchStays(t, 3, 1, |t|);
  }

  /** It happens: a disk whose very first access fails, and the code cuts a chain. */
  method CutHappens() returns (v: Volume, ghost before: Table, r: nat)
    ensures v.Valid() && r == 4
    ensures |before| == |v.Table()| && Chain(before, [2, 3]) && IsFree(before, 4)
    ensures !Chain(v.Table(), [2, 3]) && Chain(v.Table(), [2, 4]) && Chain(v.Table(), [3])
  {
    hide Chain, Outcome, Links;
    var fat := new Byte[10] [0xF8, 0xFF, 0xFF, 0xFF, 3, 0, 0xFF, 0xFF, 0, 0];
    SmallTable(fat[..]);
    v := new Volume(Fat16, 512, 5, m => m != 0, fat, 3, 1);
    before := v.Table();
    SmallSearch(before);
    assert v.DiskFailed(0, 1) by {
      assert !v.disk(0);
    }
    r := Follow(v, [2, 3], 0, 2);
    assert [2, 3][..1] + [4] == [2, 4] && [2, 3][1..] == [3];
  }
}
