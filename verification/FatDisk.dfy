/** The steps on files as the code takes them, on the bytes of a volume and a disk that
    may fail at any access. */
module FatDisk {
  import opened Bytes
  import opened FatTable
  import opened FatChain
  import opened FatBatch
  import opened FatLinks
  import opened FatVolume
  import opened FatClusters
  import opened FatBlind
  import opened FatFiles

  /** s describes what the bytes of the volume hold. */
  ghost predicate Describes(s: Fs, v: Volume)
    requires v.Valid()
    reads v, v.fat
  {
    SoundFs(s) && s.table == v.Table() && s.last == v.lastClust
  }

  // ---------------------------------------------------------------------
  // What a disk failure leaves of the files
  // ---------------------------------------------------------------------

  /** Only the clusters of a free run, and perhaps the link of clst, have changed. */
  ghost predicate OnlyRun(t: Table, t': Table, clst: nat, last: nat, num: nat) {
    && |t'| == |t| && FreeRun(t, last, num)
    && forall d :: 0 <= d < |t| && !(last - num < d <= last) && (clst == 0 || d != clst) ==> t'[d] == t[d]
  }

  /** Nothing is lost but clusters of the run. */
  ghost predicate LostInRun(s: Fs, t': Table, last: nat, num: nat) {
    forall d: nat :: Lost(t', s.files, d) ==> Lost(s.table, s.files, d) || last - num < d <= last
  }

  lemma ApartFromRun(t: Table, t': Table, cs: seq<nat>, clst: nat, last: nat, num: nat)
    requires Chain(t, cs) && OnlyRun(t, t', clst, last, num) && clst !in cs
    ensures Chain(t', cs)
  {
    hide Chain;
    InTable(t, cs);
    ChainStays(t, t', cs);
  }

  /** The files other than the one that was to grow are untouched. */
  lemma OthersSurvive(s: Fs, t': Table, f: nat, last: nat, num: nat)
    requires SoundFs(s) && f < |s.files| && |s.files[f]| > 0
    requires OnlyRun(s.table, t', Last(s.files[f]), last, num)
    ensures Sound(t', s.files[..f] + s.files[f + 1..])
    ensures LostInRun(s, t', last, num)
  {
    hide Chain, FreeRun;
    InTable(s.table, s.files[f]);
    var files, files', clst := s.files, s.files[..f] + s.files[f + 1..], Last(s.files[f]);
    forall i | 0 <= i < |files'|
      ensures Chain(t', files'[i])
    {
      var i0 := if i < f then i else i + 1;
      assert files'[i] == files[i0] && Disjoint(files[f], files[i0]);
      ApartFromRun(s.table, t', files[i0], clst, last, num);
    }
    assert Owned(files, clst);
  }

  lemma UsedIsNotInRun(t: Table, last: nat, num: nat, d: nat)
    requires FreeRun(t, last, num) && d < |t| && t[d] != 0
    ensures !(last - num < d <= last)
  {
  }

  /** And the file itself is sound exactly if its last link still is an end mark. */
  lemma SurvivesIff(s: Fs, t': Table, f: nat, last: nat, num: nat)
    requires SoundFs(s) && f < |s.files| && |s.files[f]| > 0
    requires OnlyRun(s.table, t', Last(s.files[f]), last, num)
    ensures Last(s.files[f]) < |t'|
    ensures Sound(t', s.files) <==> t'[Last(s.files[f])] >= |t'|
  {
    hide FreeRun;
    var files, cs := s.files, s.files[f];
    InTable(s.table, cs);
    if t'[Last(cs)] >= |t'| {
      forall d | d in cs
        ensures d == Last(cs) || t'[d] == s.table[d]
      {
        UsedIsNotInRun(s.table, last, num, d);
      }
      forall i | 0 <= i < |files| && i != f
        ensures Chain(t', files[i])
      {
        assert Disjoint(files[f], files[i]);
        ApartFromRun(s.table, t', files[i], Last(cs), last, num);
      }
    } else {
      assert !Chain(t', cs);
    }
  }

  /** While a first cluster was to be allocated no file is touched at all. */
  lemma AllSurvive(s: Fs, t': Table, last: nat, num: nat)
    requires SoundFs(s) && OnlyRun(s.table, t', 0, last, num)
    ensures Sound(t', s.files) && LostInRun(s, t', last, num)
  {
    hide Chain, FreeRun;
    forall i | 0 <= i < |s.files|
      ensures Chain(t', s.files[i])
    {
      ZeroIsUnowned(s.table, s.files, i);
      ApartFromRun(s.table, t', s.files[i], 0, last, num);
    }
  }

  // ---------------------------------------------------------------------
  // One call each
  // ---------------------------------------------------------------------

  /** The next search will end: it starts inside the table, or fails at once. */
  ghost predicate StartIsSafe(v: Volume)
    reads v
  {
    v.lastClust < v.nFatent || v.lastClust == UNKNOWN
  }

  lemma SafeStartEnds(v: Volume, clst: nat)
    requires v.Valid() && StartIsSafe(v)
    ensures !Outcome(v.Table(), v.Start(clst)).Running?
  {
    SearchNeverEndsIff(v.Table(), v.Start(clst));
  }

  /** A call that was to give file f at most `limit` clusters has failed and has left `left`
      as its last link. The other files are sound; f is exactly if that still is an end
      mark: always on FAT16 and FAT32, and on a FAT12 volume of at most 3840 entries if f
      ended in a mark of the format. Only clusters of one free run are lost. */
  ghost predicate GrowthFailed(s: Fs, v: Volume, f: nat, left: nat, limit: nat)
    requires v.Valid() && |s.table| == v.nFatent && f < |s.files| && |s.files[f]| > 0
    requires Last(s.files[f]) < v.nFatent
    reads v, v.fat
  {
    && (v.lastClust == s.last || 1 <= v.lastClust < v.nFatent)
    && v.Table()[Last(s.files[f])] == left && UsedStay(s.table, v.Table(), Last(s.files[f]))
    && Sound(v.Table(), s.files[..f] + s.files[f + 1..])
    && (Sound(v.Table(), s.files) <==> left >= v.nFatent)
    && (!v.fsType.Fat12? ==> Sound(v.Table(), s.files))
    && (v.nFatent <= SMALL_FAT12 && s.table[Last(s.files[f])] >= SMALL_FAT12 ==>
          left >= SMALL_FAT12 && Sound(v.Table(), s.files))
    && SomeRunLost(s, v.Table(), limit)
  }

  /** A call that was to make a new file of at most `limit` clusters has failed: no file is
      touched. */
  ghost predicate CreationFailed(s: Fs, v: Volume, limit: nat)
    requires v.Valid()
    reads v, v.fat
  {
    && (v.lastClust == s.last || 1 <= v.lastClust < v.nFatent)
    && UsedStay(s.table, v.Table(), 0) && Sound(v.Table(), s.files) && SomeRunLost(s, v.Table(), limit)
  }

  /** No link in use has changed, except perhaps that of clst. */
  ghost predicate UsedStay(t: Table, t': Table, clst: nat) {
    |t'| == |t| && forall d :: 2 <= d < |t| && t[d] != 0 && d != clst ==> t'[d] == t[d]
  }

  ghost predicate SomeRunLost(s: Fs, t': Table, limit: nat) {
    exists last, num: nat :: num <= limit && FreeRun(s.table, last, num) && LostInRun(s, t', last, num)
  }

  /** A failed call has changed only links in a free run, and the one of clst to `left`. */
  ghost predicate OnlyRunChanged(t: Table, v: Volume, clst: nat, left: nat, limit: nat)
    requires v.Valid() && |t| == v.nFatent && clst < v.nFatent
    reads v, v.fat
  {
    && (clst == 0 || v.Table()[clst] == left)
    && exists last, num: nat :: num <= limit && OnlyRun(t, v.Table(), clst, last, num)
  }

  /** All bytes of a FAT12 end mark but the last half byte: from 3840 on a half-written link
      is an end mark of a volume that small. */
  const SMALL_FAT12: nat := 3840

  /** A link as it may be left: untouched, or half written on FAT12. */
  ghost predicate MayBeLeft(v: Volume, was: nat, left: nat) {
    left == was || (v.fsType.Fat12? && exists to: nat, odd :: left == HalfLink(was, to, odd))
  }

  lemma SmallMarksStay(was: nat, to: nat, odd: bool)
    requires was >= SMALL_FAT12
    ensures HalfLink(was, to, odd) >= SMALL_FAT12
  {
  }

  /** The ends of a file: its first cluster, and its last link, which is an end mark. */
  lemma EndMark(t: Table, files: seq<seq<nat>>, f: nat)
    requires Sound(t, files) && f < |files|
    ensures Chain(t, files[f]) && |files[f]| > 0 && 2 <= files[f][0] < |t|
    ensures 2 <= Last(files[f]) < |t| && t[Last(files[f])] >= |t|
  {
    InTable(t, files[f]);
  }

  lemma UsedStays(t: Table, t': Table, clst: nat, last: nat, num: nat)
    requires OnlyRun(t, t', clst, last, num)
    ensures UsedStay(t, t', clst)
  {
  }

  lemma GrowthFails(s: Fs, v: Volume, f: nat, left: nat, limit: nat)
    requires v.Valid() && SoundFs(s) && |s.table| == v.nFatent && f < |s.files|
    requires |s.files[f]| > 0 && 2 <= Last(s.files[f]) < v.nFatent
    requires OnlyRunChanged(s.table, v, Last(s.files[f]), left, limit)
    requires MayBeLeft(v, s.table[Last(s.files[f])], left)
    requires v.lastClust == s.last || 1 <= v.lastClust < v.nFatent
    ensures GrowthFailed(s, v, f, left, limit)
  {
    hide Chain, FreeRun, Links, HoldsAll, Sound, HalfLink, UsedStay;
    var t', clst := v.Table(), Last(s.files[f]);
    assert OnlyRunChanged(s.table, v, clst, left, limit);
    var last, num: nat :| num <= limit && OnlyRun(s.table, t', clst, last, num);
    UsedStays(s.table, t', clst, last, num);
    OthersSurvive(s, t', f, last, num);
    SurvivesIff(s, t', f, last, num);
    EndMark(s.table, s.files, f);
    assert FreeRun(s.table, last, num) && LostInRun(s, t', last, num);
    if s.table[clst] >= SMALL_FAT12 && left != s.table[clst] {
      var to: nat, odd :| left == HalfLink(s.table[clst], to, odd);
      SmallMarksStay(s.table[clst], to, odd);
    }
  }

  lemma CreationFails(s: Fs, v: Volume, limit: nat)
    requires v.Valid() && SoundFs(s) && |s.table| == v.nFatent && OnlyRunChanged(s.table, v, 0, 0, limit)
    requires v.lastClust == s.last || 1 <= v.lastClust < v.nFatent
    ensures CreationFailed(s, v, limit)
  {
    hide Chain, Links, HoldsAll, Sound;
    assert OnlyRunChanged(s.table, v, 0, 0, limit);
    var last, num: nat :| num <= limit && OnlyRun(s.table, v.Table(), 0, last, num);
    UsedStays(s.table, v.Table(), 0, last, num);
    AllSurvive(s, v.Table(), last, num);
    assert FreeRun(s.table, last, num) && LostInRun(s, v.Table(), last, num);
  }

  lemma NothingChanged(t: Table, v: Volume, clst: nat, limit: nat)
    requires v.Valid() && |t| == v.nFatent && clst < v.nFatent && v.Table() == t
    ensures OnlyRunChanged(t, v, clst, t[clst], limit)
  {
    assert OnlyRun(t, v.Table(), clst, 2, 0);
  }

  /** The link that a failed create_chain leaves behind clst; none for a new chain. */
  ghost function CreateLeft(v: Volume, t: Table, clst: nat, scl: nat, m: nat): nat
    requires clst < |t|
  {
    if clst == 0 then t[0] else LinkLeft(v, t, clst, scl, m)
  }

  lemma CreateLeftMayBe(v: Volume, t: Table, clst: nat, scl: nat, m: nat)
    requires clst < |t|
    ensures MayBeLeft(v, t[clst], CreateLeft(v, t, clst, scl, m))
  {
    hide HalfLink, Outcome;
  }

  /** A failed call of create_chain. */
  lemma CreateChainChanges(t: Table, v: Volume, clst: nat, m: nat, wasLast: nat, wasFree: nat)
    requires v.Valid() && |t| == v.nFatent && (clst == 0 || (2 <= clst < v.nFatent && t[clst] >= v.nFatent))
    requires v.Did(t, clst, m, wasLast, wasFree, UNKNOWN)
    ensures v.lastClust == wasLast
    ensures OnlyRunChanged(t, v, clst, CreateLeft(v, t, clst, v.StartFrom(clst, wasLast), v.AfterLook(clst, m)), 1)
  {
    hide Links, HoldsAll, Outcome, Extended, HalfLink, Num, Bits;
    var scl := v.StartFrom(clst, wasLast);
    var o := Outcome(t, scl);
    FoundIsFree(t, scl);
    if o.Found? {
      if clst != 0 {
        CutLink(v, t, clst, scl, v.AfterLook(clst, m));
      }
      assert OnlyRun(t, v.Table(), clst, o.ncl, 1);
    } else {
      NothingChanged(t, v, clst, 1);
    }
  }

  /** The clusters that a call has given to a file. */
  function Given(r: nat, num: nat): seq<nat> {
    if r == 0 || r == 1 || r == UNKNOWN then [] else seq(num, i requires 0 <= i < num => r + i)
  }

  function WithFile(files: seq<seq<nat>>, given: seq<nat>): seq<seq<nat>> {
    if given == [] then files else files + [given]
  }

  lemma GivenIsRun(last: nat, num: nat)
    requires 1 <= num <= last < UNKNOWN && last - num + 1 >= 2
    ensures Given(last - num + 1, num) == Clusters(last, num)
  {
  }

  lemma AnyLeft(t: Table, v: Volume, left: nat, limit: nat)
    requires v.Valid() && |t| == v.nFatent && OnlyRunChanged(t, v, 0, left, limit)
    ensures OnlyRunChanged(t, v, 0, 0, limit)
  {
  }

  /** A first cluster for a file. The search always ends, so there is no more to ask. */
  method CreateFile(v: Volume, ghost s: Fs) returns (r: nat)
    requires v.Valid() && Describes(s, v)
    modifies v, v.fat
    ensures v.Valid() && v.Mark() >= |s.table| && v.moves >= old(v.moves)
    ensures r == UNKNOWN <==> v.DiskFailed(old(v.moves), v.moves)
    ensures r != UNKNOWN ==>
              var s' := Step(s, Create, v.Mark());
              && r == SearchCode(Outcome(s.table, NewStart(|s.table|, s.last)))
              && Describes(s', v) && s'.files == WithFile(s.files, Given(r, 1))
    ensures r == UNKNOWN ==> CreationFailed(s, v, 1)
  {
    hide Links, Outcome, Extended, Appended, Sound, HoldsAll, Num, Bits, FreeCount, SomeRunLost, CreationFailed;
    hide OnlyRunChanged;
    v.NewChainsEnd();
    CutLastLink(v.fsType);
    var scl := NewStart(|s.table|, s.last);
    FoundIsFree(s.table, scl);
    ghost var m, wasFree := v.moves, v.freeClust;
    r := v.CreateChain(0);
    if r == UNKNOWN {
      CreateChainChanges(s.table, v, 0, m, s.last, wasFree);
      AnyLeft(s.table, v, CreateLeft(v, s.table, 0, scl, m), 1);
      CreationFails(s, v, 1);
    } else {
      CreatedIsKept(s, v.Mark());
      ghost var o := Outcome(s.table, scl);
      if o.Found? {
        OneIsExtended(s.table, 0, o.ncl, v.Mark());
        GivenIsRun(o.ncl, 1);
      }
    }
  }

  /** One more cluster for file f, whose last cluster is clst. */
  method StretchFile(v: Volume, ghost s: Fs, ghost f: nat, clst: nat) returns (r: nat)
    requires v.Valid() && Describes(s, v) && StartIsSafe(v)
    requires f < |s.files| && |s.files[f]| > 0 && clst == Last(s.files[f])
    modifies v, v.fat
    ensures v.Valid() && v.Mark() >= |s.table| && v.moves >= old(v.moves) && clst < v.nFatent
    ensures r == UNKNOWN ==> v.DiskFailed(old(v.moves), v.moves)
    ensures r != UNKNOWN ==>
              var s' := Step(s, Stretch(f), v.Mark());
              && r == SearchCode(Outcome(s.table, s.last))
              && Describes(s', v) && s'.files == s.files[f := s.files[f] + Given(r, 1)]
    ensures r == UNKNOWN ==>
              GrowthFailed(s, v, f, LinkLeft(v, s.table, clst, s.last, v.AfterRead(old(v.moves))), 1)
  {
    hide Links, Outcome, Extended, Appended, Sound, HoldsAll, Num, Bits, FreeCount, GrowthFailed, OnlyRunChanged;
    hide LinkLeft, MayBeLeft;
    SafeStartEnds(v, clst);
    CutLastLink(v.fsType);
    EndMark(s.table, s.files, f);
    FoundIsFree(s.table, s.last);
    ghost var m, wasFree := v.moves, v.freeClust;
    r := v.CreateChain(clst);
    v.FailureSplits(m, v.AfterRead(m), v.moves);
    if r == UNKNOWN {
      CreateChainChanges(s.table, v, clst, m, s.last, wasFree);
      CreateLeftMayBe(v, s.table, clst, s.last, v.AfterRead(m));
      GrowthFails(s, v, f, LinkLeft(v, s.table, clst, s.last, v.AfterRead(m)), 1);
    } else {
      StretchedIsKept(s, f, v.Mark());
      ghost var o := Outcome(s.table, s.last);
      if o.Found? {
        OneIsExtended(s.table, clst, o.ncl, v.Mark());
        GivenIsRun(o.ncl, 1);
      } else {
        assert s.files[f] + [] == s.files[f] && s.files[f := s.files[f]] == s.files;
      }
    }
  }

  /** The end of f_unlink, for the file whose first cluster is clst, or which has none. On
      a disk failure the other files are sound, and clusters of this one are lost. */
  method DeleteFile(v: Volume, ghost s: Fs, ghost op: Op, clst: nat) returns (res: Result)
    requires v.Valid() && Describes(s, v)
    requires match op
             case Delete(f) => f < |s.files| && |s.files[f]| > 0 && clst == s.files[f][0]
             case _ => op.DeleteEmpty? && clst == 0
    modifies v, v.fat
    ensures v.Valid() && v.Mark() >= |s.table| && v.moves >= old(v.moves)
    ensures res == if v.DiskFailed(old(v.moves), v.moves) then DiskErr else Ok
    ensures res == Ok ==> Describes(Step(s, op, v.Mark()), v)
    ensures res == DiskErr ==>
              && op.Delete? && v.lastClust == s.last && DeletionFailed(s, v.Table(), op.f)
  {
    hide Links, Remove, FreedSoFar, Bumped, FreeCount, HoldsAll, Num, Bits, HalfLink, Sound, DeletionFailed;
    CutLastLink(v.fsType);
    v.NoFailure(v.moves, v.moves);
    if op.Delete? {
      EndMark(s.table, s.files, op.f);
    }
    res := Ok;
    if clst != 0 {
      RemoveWholeChain(s.table, s.files[op.f]);
      ghost var done;
      res, done := v.RemoveChain(clst);
      if res == DiskErr {
        DeletionFails(s, v.Table(), op.f, done);
      }
    }
    if res == Ok {
      v.lastClust := if clst == 0 then UNKNOWN else clst - 1;
      StepIsKept(s, op, v.Mark());
    }
  }

  /** The files other than f are sound, and only clusters of f are lost. */
  ghost predicate DeletionFailed(s: Fs, t': Table, f: nat)
    requires f < |s.files|
  {
    var files' := s.files[..f] + s.files[f + 1..];
    && |t'| == |s.table| && Sound(t', files')
    && (forall d :: 0 <= d < |t'| && d !in s.files[f] ==> t'[d] == s.table[d])
    && forall d: nat :: Lost(t', files', d) ==> Lost(s.table, s.files, d) || d in s.files[f]
  }

  lemma DeletionFails(s: Fs, t': Table, f: nat, done: nat)
    requires SoundFs(s) && f < |s.files| && done <= |s.files[f]| && FreedSoFar(s.table, s.files[f], done, t')
    ensures DeletionFailed(s, t', f)
  {
    hide Chain;
    var cs := s.files[f];
    forall d | 0 <= d < |s.table| && d !in cs
      ensures t'[d] == s.table[d]
    {
      assert done < |cs| ==> cs[done] in cs;
      assert d !in cs[..done];
    }
    OthersStaySound(s.table, s.files, f, t');
    forall d: nat | Lost(t', s.files[..f] + s.files[f + 1..], d) && d !in cs
      ensures Lost(s.table, s.files, d)
    {
      OwnedByOthers(s.files, f, d);
    }
  }

  // ---------------------------------------------------------------------
  // Calls that ask for a run
  // ---------------------------------------------------------------------

  /** The link that a failed create_chain_for_clusts leaves behind clst, having searched
      with access m on. */
  ghost function WriteLeft(v: Volume, t: Table, clst: nat, want: nat, scl: nat, m: nat): nat
    requires clst < |t|
  {
    var found := HuntEnd(v, t, scl, want, m);
    BatchIsFree(t, scl, want);
    if v.DiskFailed(m, found) then t[clst]
    else
      match BatchOf(t, scl, want)
      case Take(last, num) => LinkBehind(v, t, clst, last, num, found)
      case Single(first) =>
        var aim := v.StartFrom(clst, if first != 0 then first else scl);
        CreateLeft(v, t, clst, aim, v.AfterLook(clst, found))
      case _ => t[clst]
  }

  lemma WriteLeftMayBe(v: Volume, t: Table, clst: nat, want: nat, scl: nat, m: nat)
    requires v.Valid() && |t| == v.nFatent && 2 <= clst < |t|
    ensures MayBeLeft(v, t[clst], WriteLeft(v, t, clst, want, scl, m))
  {
    assert MayBeLeft(v, t[clst], t[clst]);
    hide HalfLink, Outcome, BatchOf, HuntRounds, CreateLeft, MayBeLeft;
    BatchIsFree(t, scl, want);
    var found := HuntEnd(v, t, scl, want, m);
    match BatchOf(t, scl, want)
    case Take(last, num) => BehindMayBe(v, t, clst, last, num, found);
    case Single(first) =>
      CreateLeftMayBe(v, t, clst, v.StartFrom(clst, if first != 0 then first else scl), v.AfterLook(clst, found));
    case _ =>
  }

  lemma BehindMayBe(v: Volume, t: Table, clst: nat, last: nat, num: nat, m: nat)
    requires v.Valid() && |t| == v.nFatent && 2 <= clst < |t| && num <= last
    ensures MayBeLeft(v, t[clst], LinkBehind(v, t, clst, last, num, m))
  {
    hide HalfLink, Num, Bits;
    var to := Num(Cut(Fat12, Bits(last - num + 1)));
    assert MayBeLeft(v, t[clst], HalfLink(t[clst], to, clst % 2 == 1)) || !v.fsType.Fat12?;
  }

  lemma RunCutChanges(t: Table, v: Volume, clst: nat, last: nat, num: nat, m: nat, limit: nat)
    requires v.Valid() && |t| == v.nFatent && clst < v.nFatent && FreeRun(t, last, num) && (clst == 0 || t[clst] != 0)
    requires RunCut(v, t, clst, last, num, m) && num <= limit
    ensures OnlyRunChanged(t, v, clst, LinkBehind(v, t, clst, last, num, m), limit)
  {
    hide Links, HoldsAll, HalfLink, Num, Bits;
    assert OnlyRun(t, v.Table(), clst, last, num);
  }

  lemma MoreAllowed(t: Table, v: Volume, clst: nat, left: nat, limit: nat, limit': nat)
    requires v.Valid() && |t| == v.nFatent && clst < v.nFatent && limit <= limit'
    requires OnlyRunChanged(t, v, clst, left, limit)
    ensures OnlyRunChanged(t, v, clst, left, limit')
  {
  }

  /** At most this many clusters are taken. */
  function Asked(want: nat): nat {
    if want == 0 then 1 else want
  }

  /** A call of create_chain_for_clusts that failed. */
  lemma WriteChanges(t: Table, v: Volume, clst: nat, want: nat, wasLast: nat, m: nat, wasFree: nat, num: nat)
    requires v.Valid() && |t| == v.nFatent && (clst == 0 || (2 <= clst < v.nFatent && t[clst] >= v.nFatent))
    requires Wrote(v, t, clst, want, v.StartFrom(clst, wasLast), m, wasLast, wasFree, UNKNOWN, num)
    ensures clst != 0 ==> OnlyRunChanged(t, v, clst, WriteLeft(v, t, clst, want, wasLast, m), Asked(want))
    ensures clst == 0 ==> OnlyRunChanged(t, v, clst, 0, Asked(want))
    ensures v.lastClust == wasLast || 1 <= v.lastClust < v.nFatent
  {
    hide Links, HoldsAll, Outcome, BatchOf, HuntRounds, FreeRun, RunCut, OnlyRunChanged, LinkBehind, LinkLeft, HalfLink;
    var scl := v.StartFrom(clst, wasLast);
    BatchIsFree(t, scl, want);
    var found := HuntEnd(v, t, scl, want, m);
    var left: nat;
    match BatchOf(t, scl, want) {
      case Take(last, n) =>
        if v.DiskFailed(m, found) {
          NothingChanged(t, v, clst, Asked(want));
          left := t[clst];
        } else {
          BatchAsked(t, scl, want);
          RunCutChanges(t, v, clst, last, n, found, Asked(want));
          left := LinkBehind(v, t, clst, last, n, found);
        }
      case Single(first) =>
        var last := if first != 0 then first else wasLast;
        if v.DiskFailed(m, found) {
          NothingChanged(t, v, clst, Asked(want));
          left := t[clst];
        } else {
          CreateChainChanges(t, v, clst, found, last, wasFree);
          left := CreateLeft(v, t, clst, v.StartFrom(clst, last), v.AfterLook(clst, found));
          MoreAllowed(t, v, clst, left, 1, Asked(want));
        }
      case _ =>
        NothingChanged(t, v, clst, Asked(want));
        left := t[clst];
    }
    if clst == 0 {
      AnyLeft(t, v, left, Asked(want));
    }
  }

  lemma BatchAsked(t: Table, scl: nat, want: nat)
    ensures BatchOf(t, scl, want).Take? ==> 1 <= BatchOf(t, scl, want).num <= Asked(want)
  {
    HuntIsSound(t, scl, want, HuntStart(scl));
  }

  /** A call of create_chain_for_clusts for a new file. */
  method WriteNewFile(v: Volume, ghost s: Fs, want: nat, unset: nat) returns (r: nat, num: nat)
    requires v.Valid() && Describes(s, v) && want <= UNKNOWN
    modifies v, v.fat
    ensures v.Valid() && v.Mark() >= |s.table| && v.moves >= old(v.moves)
    ensures r == UNKNOWN ==> v.DiskFailed(old(v.moves), v.moves)
    ensures r != UNKNOWN ==>
              var s' := Step(s, WriteNew(want), v.Mark());
              Describes(s', v) && s'.files == WithFile(s.files, Given(r, num))
    ensures r == UNKNOWN ==> CreationFailed(s, v, Asked(want))
  {
    hide Links, Outcome, Extended, Appended, Sound, HoldsAll, Num, Bits, FreeCount, BatchOf, FreeRun, Wrote;
    hide OnlyRunChanged, CreationFailed;
    v.NewChainsEnd();
    CutLastLink(v.fsType);
    ghost var m, wasFree := v.moves, v.freeClust;
    r, num := CreateChainForClusts(v, 0, want, unset);
    if r == UNKNOWN {
      WriteChanges(s.table, v, 0, want, s.last, m, wasFree, num);
      CreationFails(s, v, Asked(want));
      WroteFailed(s.table, v, 0, want, s.last, m, wasFree, num);
    } else {
      StepIsKept(s, WriteNew(want), v.Mark());
      WroteNew(s, v, want, m, wasFree, r, num);
    }
  }

  lemma WroteFailed(t: Table, v: Volume, clst: nat, want: nat, wasLast: nat, m: nat, wasFree: nat, num: nat)
    requires v.Valid() && |t| == v.nFatent && (clst == 0 || (2 <= clst < v.nFatent && t[clst] >= v.nFatent))
    requires Wrote(v, t, clst, want, v.StartFrom(clst, wasLast), m, wasLast, wasFree, UNKNOWN, num)
    requires !Outcome(t, v.StartFrom(clst, wasLast)).Running?
    ensures v.DiskFailed(m, v.moves)
  {
    hide Links, HoldsAll, BatchOf, HuntRounds, FreeRun, RunCut, Outcome;
    var scl := v.StartFrom(clst, wasLast);
    BatchIsFree(t, scl, want);
    var b, found := BatchOf(t, scl, want), HuntEnd(v, t, scl, want, m);
    if !v.DiskFailed(m, found) {
      if b.Single? {
        var last := if b.firstIdle != 0 then b.firstIdle else wasLast;
        SearchNeverEndsIff(t, v.StartFrom(clst, last));
        v.FailureSplits(m, v.AfterLook(clst, found), v.moves);
      } else if b.Take? {
        v.FailureSplits(m, found, v.moves);
      }
    }
  }

  lemma WroteNew(s: Fs, v: Volume, want: nat, m: nat, wasFree: nat, r: nat, num: nat)
    requires v.Valid() && SoundFs(s) && |s.table| == v.nFatent && r != UNKNOWN
    requires Wrote(v, s.table, 0, want, NewStart(|s.table|, s.last), m, s.last, wasFree, r, num)
    ensures var s' := Step(s, WriteNew(want), v.Mark());
            && s'.table == v.Table() && s'.last == v.lastClust
            && s'.files == WithFile(s.files, Given(r, num))
  {
    hide Links, HoldsAll, BatchOf, HuntRounds, Outcome, Extended, Appended, Num, Bits;
    var t, scl := s.table, NewStart(|s.table|, s.last);
    BatchIsFree(t, scl, want);
    match BatchOf(t, scl, want)
    case Take(last, n) => GivenIsRun(last, n);
    case Single(first) =>
      var last := if first != 0 then first else s.last;
      AimedIsSound(s, scl, want);
      FoundIsFree(t, NewStart(|t|, last));
      var o := Outcome(t, NewStart(|t|, last));
      if o.Found? {
        OneIsExtended(t, 0, o.ncl, v.Mark());
        GivenIsRun(o.ncl, 1);
      }
    case _ =>
  }

  /** A call of create_chain_for_clusts behind file f, whose last cluster is clst. */
  method WriteFile(v: Volume, ghost s: Fs, ghost f: nat, clst: nat, want: nat, unset: nat) returns (r: nat, num: nat)
    requires v.Valid() && Describes(s, v) && StartIsSafe(v) && want <= UNKNOWN
    requires f < |s.files| && |s.files[f]| > 0 && clst == Last(s.files[f])
    modifies v, v.fat
    ensures v.Valid() && v.Mark() >= |s.table| && v.moves >= old(v.moves) && clst < v.nFatent
    ensures r == UNKNOWN ==> v.DiskFailed(old(v.moves), v.moves)
    ensures r != UNKNOWN ==>
              var s' := Step(s, Write(f, want), v.Mark());
              Describes(s', v) && s'.files == s.files[f := s.files[f] + Given(r, num)]
    ensures r == UNKNOWN ==>
              GrowthFailed(s, v, f, WriteLeft(v, s.table, clst, want, s.last, v.AfterRead(old(v.moves))), Asked(want))
  {
    hide Links, Outcome, Extended, Appended, Sound, HoldsAll, Num, Bits, FreeCount, BatchOf, FreeRun, Wrote;
    hide GrowthFailed, OnlyRunChanged, WriteLeft, MayBeLeft;
    SafeStartEnds(v, clst);
    CutLastLink(v.fsType);
    EndMark(s.table, s.files, f);
    ghost var m, wasFree := v.moves, v.freeClust;
    r, num := CreateChainForClusts(v, clst, want, unset);
    if r == UNKNOWN {
      ghost var m1 := v.AfterRead(m);
      WriteChanges(s.table, v, clst, want, s.last, m1, wasFree, num);
      WriteLeftMayBe(v, s.table, clst, want, s.last, m1);
      GrowthFails(s, v, f, WriteLeft(v, s.table, clst, want, s.last, m1), Asked(want));
      WroteFailed(s.table, v, clst, want, s.last, m1, wasFree, num);
      v.FailureSplits(m, m1, v.moves);
    } else {
      StepIsKept(s, Write(f, want), v.Mark());
      WroteBehind(s, v, f, want, v.AfterRead(m), wasFree, r, num);
    }
  }

  lemma WroteBehind(s: Fs, v: Volume, f: nat, want: nat, m: nat, wasFree: nat, r: nat, num: nat)
    requires v.Valid() && SoundFs(s) && |s.table| == v.nFatent && r != UNKNOWN && f < |s.files|
    requires |s.files[f]| > 0 && 2 <= Last(s.files[f]) < v.nFatent <= s.table[Last(s.files[f])]
    requires Wrote(v, s.table, Last(s.files[f]), want, s.last, m, s.last, wasFree, r, num)
    ensures var s' := Step(s, Write(f, want), v.Mark());
            && s'.table == v.Table() && s'.last == v.lastClust
            && s'.files == s.files[f := s.files[f] + Given(r, num)]
  {
    hide Links, HoldsAll, BatchOf, HuntRounds, Outcome, Extended, Appended, Num, Bits, Chain;
    var t, clst := s.table, Last(s.files[f]);
    BatchIsFree(t, s.last, want);
    EndMark(t, s.files, f);
    assert s.files[f] + [] == s.files[f] && s.files[f := s.files[f]] == s.files;
    match BatchOf(t, s.last, want)
    case Take(last, n) => GivenIsRun(last, n);
    case Single(first) =>
      var last := if first != 0 then first else s.last;
      AimedIsSound(s, s.last, want);
      FoundIsFree(t, last);
      var o := Outcome(t, last);
      if o.Found? {
        OneIsExtended(t, clst, o.ncl, v.Mark());
        GivenIsRun(o.ncl, 1);
      }
    case _ =>
  }

  // ---------------------------------------------------------------------
  // On FAT12 a file can be spoilt
  // ---------------------------------------------------------------------

  /** Given a file that ends in the mark of the code, a failed create_chain leaves its last
      link leading into the volume exactly if only its very last access fails and the mark,
      its last eight bits (even cluster) or four (odd one) overwritten by the number of the
      new cluster, is the number of an entry. */
  lemma SpoiltIff(v: Volume, t: Table, clst: nat, scl: nat, m: nat)
    requires v.Valid() && v.fsType.Fat12? && |t| == v.nFatent && 2 <= clst < |t| && t[clst] == 4095
    ensures LinkLeft(v, t, clst, scl, m) < v.nFatent <==>
              && Outcome(t, scl).Found?
              && !v.DiskFailed(m, v.CreateEnd(t, clst, scl, m) - 1)
              && (if clst % 2 == 1 then 4080 + Outcome(t, scl).ncl % 16
                  else 3840 + Outcome(t, scl).ncl % 256) < v.nFatent
  {
    hide Outcome, HoldsAll;
    var o, second := Outcome(t, scl), v.SearchEnd(t, scl, m) + v.Reads(1);
    v.NoFailure(m, second);
  }

  /** The mark that the code writes, half overwritten by the number of a cluster. */
  lemma HalfMark(to: nat, odd: bool)
    ensures HalfLink(4095, to, odd) == if odd then 4080 + to % 16 else 3840 + to % 256
  {
  }

  /** Two files on the largest FAT12 volume, of one cluster each: 682 and 3845. With sectors
      of 512 bytes the entry of 682 lies in two of them, so that its second byte takes an
      access to the disk of its own. */
  function TwoFiles(): (t: Table)
    ensures |t| == 4087
  {
    seq(4087, c => if c == 682 || c == 3845 then 4095 else 0)
  }

  function TwoFilesByte(i: nat): Byte {
    if i == 1023 || i == 5768 then 0xFF
    else if i == 1024 then 0x0F
    else if i == 5767 then 0xF0
    else 0
  }

  lemma Entries12()
    ensures Num(Entry12(0xFF, 0x0F, false)) == 4095 && Num(Entry12(0xF0, 0xFF, true)) == 4095
    ensures Num(Entry12(0x0F, 0, true)) == 0 && Num(Entry12(0, 0xF0, false)) == 0
    ensures Num(Entry12(0, 0, true)) == 0 && Num(Entry12(0, 0, false)) == 0
  {
  }

  lemma TwoFilesTable(s: seq<Byte>)
    requires |s| == 6131 && forall i :: 0 <= i < |s| ==> s[i] == TwoFilesByte(i)
    ensures HoldsAll(s, Fat12, 4087) && Links(s, Fat12, 4087) == TwoFiles()
  {
    hide Num, Entry12;
    Entries12();
    forall c | 0 <= c < 4087
      ensures Links(s, Fat12, 4087)[c] == TwoFiles()[c]
    {
      HoldsEach(s, Fat12, 4087, c);
      var a := Address(Fat12, c);
      assert s[a] == TwoFilesByte(a) && s[a + 1] == TwoFilesByte(a + 1);
    }
  }

  lemma TwoFilesSearch()
    ensures Sound(TwoFiles(), [[682], [3845]])
    ensures Outcome(TwoFiles(), 4) == Found(5) && Rounds(TwoFiles(), 4) == 1
  {
    var t := TwoFiles();
    assert SearchRun(t, 4, 1) == SearchStep(t, 4, SearchRun(t, 4, 0).ncl) == Found(5);
    SearchStays(t, 4, 1, |t|);
    RoundsAre(t, 4, 0, |t|);
  }

  lemma CrossedIsFreed(t: Table)
    requires |t| == 4087 && t[682] == 3845 && t[3845] >= |t|
    ensures Remove(t, 682).result == Ok && |Remove(t, 682).table| == |t| && Remove(t, 682).table[3845] == 0
  {
    var t1 := t[682 := 0];
    var t2 := t1[3845 := 0];
    assert Remove(t2, t[3845]) == Removal(t2, [], Ok);
    assert Remove(t1, 3845) == Removal(t2, [3845], Ok);
  }

  /** A volume with these files, on a disk of which access 7 fails. */
  method TwoFilesVolume() returns (v: Volume)
    ensures v.Valid() && fresh(v) && fresh(v.fat) && v.fsType.Fat12? && v.nFatent == 4087
    ensures v.Table() == TwoFiles() && v.moves == 0 && v.lastClust == 4 && forall m :: v.disk(m) <==> m != 7
  {
    hide Links, HoldsAll, Num, Bits;
    var fat := new Byte[6131](i requires i >= 0 => TwoFilesByte(i));
    TwoFilesTable(fat[..]);
    v := new Volume(Fat12, 512, 4087, m => m != 7, fat, 4, UNKNOWN);
  }

  /** It happens, on a disk of which one access fails: the file of cluster 682 is to grow, its
      link is left leading into the other file, and deleting it frees the other one. The
      access that fails begins with writing back the sector of the new cluster's entry, and a
      failed write does the window no harm. */
  method HalfLinkHappens() returns (v: Volume, r: nat, ghost between: Table, res: Result)
    ensures v.Valid() && v.fsType.Fat12? && v.nFatent == 4087 && Sound(TwoFiles(), [[682], [3845]])
    ensures r == UNKNOWN && |between| == 4087 && between[682] == 3845
    ensures Chain(between, [3845]) && !Chain(between, [682])
    ensures res == Ok && v.Table()[3845] == 0
  {
    hide Links, HoldsAll, Num, Bits, Outcome, HalfLink, Remove, FreeCount;
    TwoFilesSearch();
    v := TwoFilesVolume();
    ghost var t := v.Table();
    assert !v.DiskFailed(0, 7) && !v.disk(7);
    r := v.CreateChain(682);
    between := v.Table();
    HalfMark(5, false);
    CutLink(v, t, 682, 4, 2);
    assert r == UNKNOWN && v.moves >= 8;
    CrossedIsFreed(between);
    ghost var done;
    res, done := v.RemoveChain(682);
  }
}
