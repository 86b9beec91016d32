/** When the allocators succeed on consistent files, and when they fail although clusters
    are free. */
module FatSuccess {
  import opened FatChain
  import opened FatBatch
  import opened FatStretch
  import opened FatFiles

  lemma {:induction false} SomeFree(t: Table, k: nat)
    requires k <= |t|
    ensures Free(t, k) > 0 <==> exists d :: 2 <= d < k && t[d] == 0
  {
    if k > 2 {
      SomeFree(t, k - 1);
      if Free(t, k - 1) > 0 {
        var d :| 2 <= d < k - 1 && t[d] == 0;
      } else if t[k - 1] == 0 {
        assert 2 <= k - 1 < k;
      }
    }
  }

  lemma NoInvalidLinks(s: Fs)
    requires Consistent(s)
    ensures forall d :: 2 <= d < |s.table| ==> s.table[d] != 1
  {
    forall d | 2 <= d < |s.table| && s.table[d] != 0
      ensures s.table[d] != 1
    {
      assert !Lost(s.table, s.files, d);
      var i :| 0 <= i < |s.files| && d in s.files[i];
      InTable(s.table, s.files[i]);
    }
  }

  lemma {:induction false} SearchOfConsistent(s: Fs, scl: nat)
    requires Consistent(s) && scl <= UNKNOWN
    ensures Outcome(s.table, scl).Found? <==> FreeCount(s.table) > 0 && 1 <= scl < UNKNOWN
  {
    SomeFree(s.table, |s.table|);
    NoInvalidLinks(s);
    if FreeCount(s.table) > 0 {
      SearchFindsIff(s.table, scl);
    } else {
      SearchSound(s.table, scl, |s.table|);
    }
  }

  lemma RunIsSomeFree(t: Table, last: nat, num: nat)
    requires FreeRun(t, last, num) && num >= 1
    ensures FreeCount(t) > 0
  {
    SomeFree(t, |t|);
    assert t[last] == 0;
  }

  /** With consistent files, creating one succeeds exactly while a cluster is free. */
  lemma {:induction false} CreateSucceedsIff(s: Fs, mark: nat)
    requires Consistent(s)
    ensures Created(s, mark).files != s.files <==> FreeCount(s.table) > 0
  {
    hide Outcome, Appended, FreeCount, Lost, Sound, Clusters;
    var scl := NewStart(|s.table|, s.last);
    SearchOfConsistent(s, scl);
    FoundIsFree(s.table, scl);
    if Created(s, mark).files == s.files {
      assert |Created(s, mark).files| == |s.files|;
    }
  }

  lemma GrownDiffers(s: Fs, f: nat, last: nat, num: nat, mark: nat)
    requires SoundFs(s) && FreeRun(s.table, last, num) && num >= 1 && f < |s.files|
    ensures Grown(s, f, last, num, mark).files != s.files
  {
    hide Appended, Chain;
    var s' := Grown(s, f, last, num, mark);
    assert |s'.files[f]| == |s.files[f]| + num;
  }

  /** Stretching a file succeeds exactly while a cluster is free and the last cluster
      given out is known. */
  lemma {:induction false} StretchSucceedsIff(s: Fs, f: nat, mark: nat)
    requires Consistent(s) && f < |s.files|
    ensures Stretched(s, f, mark).files != s.files <==> FreeCount(s.table) > 0 && 1 <= s.last < UNKNOWN
  {
    hide Outcome, Appended, FreeCount, Lost, Sound, FreeRun, Grown;
    SearchOfConsistent(s, s.last);
    FoundIsFree(s.table, s.last);
    var o := Outcome(s.table, s.last);
    if o.Found? {
      GrownDiffers(s, f, o.ncl, 1, mark);
    }
  }

  /** Writing behind a file gets it clusters exactly while one is free, the last cluster
      given out is known and the search for a run does not give up. */
  lemma {:induction false} WriteSucceedsIff(s: Fs, f: nat, want: nat, mark: nat)
    requires Consistent(s) && f < |s.files| && want >= 1 && mark >= |s.table|
    ensures Step(s, Write(f, want), mark).files != s.files
            <==> FreeCount(s.table) > 0 && 1 <= s.last < UNKNOWN && !GivesUp(s.table, s.last, want)
  {
    hide BatchOf, Outcome, Appended, FreeCount, Lost, Sound, FreeRun, Grown, GivesUp, Stretched;
    var t := s.table;
    NoInvalidLinks(s);
    BatchIsFree(t, s.last, want);
    BatchFullIff(t, s.last, want);
    BatchCorruptIff(t, s.last, want);
    match BatchOf(t, s.last, want)
    case Take(last, num) =>
      RunIsSomeFree(t, last, num);
      GrownDiffers(s, f, last, num, mark);
    case Single(first) =>
      AimedIsKept(s, s.last, want);
      StretchSucceedsIff(Aimed(s, first), f, mark);
    case _ =>
  }

  /** A new file gets clusters exactly while one is free and the search for a run does not
      give up. */
  lemma {:induction false} WriteNewSucceedsIff(s: Fs, want: nat, mark: nat)
    requires Consistent(s) && want >= 1 && mark >= |s.table|
    ensures Step(s, WriteNew(want), mark).files != s.files
            <==> FreeCount(s.table) > 0 && !GivesUp(s.table, NewStart(|s.table|, s.last), want)
  {
    hide BatchOf, Outcome, Appended, FreeCount, Lost, Sound, FreeRun, GivesUp, Created;
    var t, scl := s.table, NewStart(|s.table|, s.last);
    NoInvalidLinks(s);
    BatchIsFree(t, scl, want);
    BatchFullIff(t, scl, want);
    BatchCorruptIff(t, scl, want);
    match BatchOf(t, scl, want)
    case Take(last, num) =>
      RunIsSomeFree(t, last, num);
      assert |Added(s, last, num, mark).files| == |s.files| + 1;
    case Single(first) =>
      AimedIsKept(s, scl, want);
      CreateSucceedsIff(Aimed(s, first), mark);
    case _ =>
  }

  /** On a volume of more than 2 * want + 1 clusters the search never gives up, and writing
      succeeds exactly when stretching, or creating, does. */
  lemma WriteOnLargeVolume(s: Fs, f: nat, want: nat, mark: nat)
    requires Consistent(s) && want >= 1 && mark >= |s.table| && |s.table| > 2 * want + 3
    ensures Step(s, WriteNew(want), mark).files != s.files <==> FreeCount(s.table) > 0
    ensures f < |s.files| ==>
              (Step(s, Write(f, want), mark).files != s.files <==> FreeCount(s.table) > 0 && 1 <= s.last < UNKNOWN)
  {
    hide Step, Sound, Lost, FreeCount, GivesUp;
    var scl := NewStart(|s.table|, s.last);
    WriteNewSucceedsIff(s, want, mark);
    if GivesUp(s.table, scl, want) {
      GivesUpOnlySmall(s.table, scl, want);
    }
    if f < |s.files| {
      WriteSucceedsIff(s, f, want, mark);
      if GivesUp(s.table, s.last, want) {
        GivesUpOnlySmall(s.table, s.last, want);
      }
    }
  }

  lemma {:induction false} AllFree(t: Table, k: nat)
    requires 2 <= k <= |t| && forall d :: 2 <= d < k ==> t[d] == 0
    ensures Free(t, k) == k - 2
  {
    if k > 2 {
      AllFree(t, k - 1);
    }
  }

  /** A volume without files. */
  lemma FormattedIsConsistent(s: Fs)
    requires s.files == [] && (forall d :: 2 <= d < |s.table| ==> s.table[d] == 0)
    requires |s.table| < UNKNOWN && s.last <= UNKNOWN
    ensures Consistent(s) && FreeCount(s.table) == |s.table| - 2 && Total(s.files) == 0
  {
    AllFree(s.table, |s.table|);
  }

  /** It does give up: an empty volume that has just been mounted has nothing for a
      request of more clusters than there are. */
  lemma EmptyVolumeGivesUp(s: Fs, want: nat, mark: nat)
    requires s.files == [] && s.last == 0 && |s.table| < UNKNOWN && want > |s.table| - 2
    requires forall d :: 2 <= d < |s.table| ==> s.table[d] == 0
    ensures SoundFs(s) && FreeCount(s.table) == |s.table| - 2 && Step(s, WriteNew(want), mark) == s
  {
    FormattedIsConsistent(s);
    BatchFullIff(s.table, 1, want);
    assert GivesUpAt(s.table, 1, want, |s.table|);
  }

  /** Once it is known, the last cluster given out stays known, until a file without
      clusters is deleted. */
  lemma {:induction false} LastStaysKnown(s: Fs, ops: seq<Op>, mark: nat)
    requires SoundFs(s) && mark >= |s.table| && 1 <= s.last < |s.table|
    requires DeleteEmpty !in ops
    ensures 1 <= Run(s, ops, mark).last < |s.table|
    decreases |ops|
  {
    hide Sound, Step, Lost, FreeCount;
    if ops != [] {
      var s' := Step(s, ops[0], mark);
      StepIsKept(s, ops[0], mark);
      LastAfterStep(s, ops[0], mark);
      LastStaysKnown(s', ops[1..], mark);
    }
  }

  lemma CreatedLast(s: Fs, mark: nat)
    requires SoundFs(s)
    ensures Created(s, mark).last == s.last || 1 <= Created(s, mark).last < |s.table|
  {
    FoundIsFree(s.table, NewStart(|s.table|, s.last));
  }

  lemma StretchedLast(s: Fs, f: nat, mark: nat)
    requires SoundFs(s) && f < |s.files|
    ensures Stretched(s, f, mark).last == s.last || 1 <= Stretched(s, f, mark).last < |s.table|
  {
    FoundIsFree(s.table, s.last);
  }

  lemma {:induction false} LastAfterStep(s: Fs, op: Op, mark: nat)
    requires SoundFs(s) && op != DeleteEmpty
    ensures var last := Step(s, op, mark).last; last == s.last || 1 <= last < |s.table|
  {
    hide Remove, Appended, Outcome, BatchOf, Created, Stretched;
    var t := s.table;
    match op
    case Create => CreatedLast(s, mark);
    case Stretch(f) => if f < |s.files| { StretchedLast(s, f, mark); }
    case WriteNew(want) =>
      var scl := NewStart(|t|, s.last);
      BatchIsFree(t, scl, want);
      match BatchOf(t, scl, want) {
        case Single(first) =>
          AimedIsSound(s, scl, want);
          CreatedLast(Aimed(s, first), mark);
        case _ =>
      }
    case Write(f, want) =>
      BatchIsFree(t, s.last, want);
      if f < |s.files| {
        match BatchOf(t, s.last, want) {
          case Single(first) =>
            AimedIsSound(s, s.last, want);
            StretchedLast(Aimed(s, first), f, mark);
          case _ =>
        }
      }
    case Delete(f) => if f < |s.files| { InTable(t, s.files[f]); }
  }

  // ---------------------------------------------------------------------
  // Where the next search begins
  // ---------------------------------------------------------------------

  lemma CreatedAtLast(s: Fs, mark: nat)
    requires SoundFs(s) && Created(s, mark).files != s.files
    ensures var s' := Created(s, mark);
            |s'.files| == |s.files| + 1 && s'.files[|s.files|] == [s'.last]
  {
    hide Outcome, Appended, Sound;
    FoundIsFree(s.table, NewStart(|s.table|, s.last));
  }

  lemma StretchedAtLast(s: Fs, f: nat, mark: nat)
    requires SoundFs(s) && f < |s.files| && Stretched(s, f, mark).files != s.files
    ensures var s' := Stretched(s, f, mark); |s'.files| == |s.files| && s'.files[f] == s.files[f] + [s'.last]
  {
    hide Outcome, Appended, Sound;
    FoundIsFree(s.table, s.last);
  }

  /** Whatever gives clusters to a file leaves last_clust at the last one given. */
  lemma LastIsGiven(s: Fs, op: Op, mark: nat)
    requires SoundFs(s) && Step(s, op, mark).files != s.files && !op.Delete?
    ensures var s', f := Step(s, op, mark), if op.Stretch? || op.Write? then op.f else |s.files|;
            f < |s'.files| && |s'.files[f]| > 0 && s'.last == Last(s'.files[f])
  {
    hide BatchOf, Appended, Sound, Created, Stretched, FreeRun;
    var t := s.table;
    match op
    case Create => CreatedAtLast(s, mark);
    case Stretch(f) => StretchedAtLast(s, f, mark);
    case WriteNew(want) =>
      var scl := NewStart(|t|, s.last);
      BatchIsFree(t, scl, want);
      match BatchOf(t, scl, want) {
        case Single(first) =>
          AimedIsSound(s, scl, want);
          CreatedAtLast(Aimed(s, first), mark);
        case _ =>
      }
    case Write(f, want) =>
      BatchIsFree(t, s.last, want);
      match BatchOf(t, s.last, want) {
        case Single(first) =>
          AimedIsSound(s, s.last, want);
          StretchedAtLast(Aimed(s, first), f, mark);
        case _ =>
      }
    case DeleteEmpty =>
  }

  /** After that deletion no file can be stretched or written to, whatever is free;
      creating a file still works, and makes stretching work again. */
  lemma {:induction false} EmptyDeletionStopsStretching(s: Fs, f: nat, want: nat, mark: nat)
    requires Consistent(s) && mark >= |s.table| && f < |s.files| && want >= 1
    requires FreeCount(s.table) > 1
    ensures var s0 := Step(s, DeleteEmpty, mark);
            && Consistent(s0) && s0.last == 0xFFFF_FFFF
            && Step(s0, Stretch(f), mark).files == s0.files && Step(s0, Write(f, want), mark).files == s0.files
            && var s1 := Step(s0, Create, mark);
               && Consistent(s1) && |s1.files| == |s.files| + 1
               && Step(s1, Stretch(f), mark).files != s1.files
  {
    hide Appended, SearchRun, FreeCount, Sound, Lost, Stretched, GivesUp;
    var s0 := Step(s, DeleteEmpty, mark);
    StepIsKept(s, DeleteEmpty, mark);
    StretchSucceedsIff(s0, f, mark);
    WriteSucceedsIff(s0, f, want, mark);
    CreateSucceedsIff(s0, mark);
    StepIsKept(s0, Create, mark);
    var s1 := Step(s0, Create, mark);
    FoundIsFree(s0.table, NewStart(|s0.table|, s0.last));
    RunInTable(s0.table, s1.last, 1);
    TotalAppend(s0.files, [Clusters(s1.last, 1)]);
    assert Total([Clusters(s1.last, 1)]) == 1;
    StretchSucceedsIff(s1, f, mark);
  }

  // ---------------------------------------------------------------------
  // How many clusters a write gets
  // ---------------------------------------------------------------------

  /** Writing behind a file gets it all the clusters asked for, in a row, if so many are
      free behind the last one given out. */
  lemma WriteGetsAll(s: Fs, f: nat, want: nat, mark: nat)
    requires SoundFs(s) && f < |s.files| && want >= 1 && 1 <= s.last && FreeBehind(s.table, s.last, want)
    ensures Step(s, Write(f, want), mark).files == s.files[f := s.files[f] + Clusters(s.last + want, want)]
  {
    hide BatchOf, Appended, Sound;
    AskedIsTaken(s.table, s.last, want);
    BatchIsFree(s.table, s.last, want);
  }

  /** So does writing a new file, from where its search starts. */
  lemma WriteNewGetsAll(s: Fs, want: nat, mark: nat)
    requires SoundFs(s) && want >= 1 && FreeBehind(s.table, NewStart(|s.table|, s.last), want)
    ensures Step(s, WriteNew(want), mark).files == s.files + [Clusters(NewStart(|s.table|, s.last) + want, want)]
  {
    hide BatchOf, Appended, Sound;
    AskedIsTaken(s.table, NewStart(|s.table|, s.last), want);
    BatchIsFree(s.table, NewStart(|s.table|, s.last), want);
  }

  /** The number of clusters that a write gets of a table with this outline. */
  function Gain(b: Batch, someFree: bool): nat {
    match b
    case Take(_, num) => num
    case Single(_) => if someFree then 1 else 0
    case _ => 0
  }

  /** In every case: the length of the stretch that the outline gives, or one cluster when
      it gives none although some is free. */
  lemma WriteGains(s: Fs, f: nat, want: nat, mark: nat)
    requires Consistent(s) && f < |s.files| && want >= 1 && mark >= |s.table| && 1 <= s.last < UNKNOWN
    ensures var files', gain := Step(s, Write(f, want), mark).files,
                                Gain(Outline(s.table, s.last, want), FreeCount(s.table) > 0);
            && |files'| == |s.files| && |files'[f]| == |s.files[f]| + gain
            && forall i :: 0 <= i < |files'| && i != f ==> files'[i] == s.files[i]
  {
    hide BatchOf, Outline, Outcome, Appended, FreeCount, Lost, Sound, FreeRun;
    OutlineIsRight(s.table, s.last, want);
    BatchIsFree(s.table, s.last, want);
    match BatchOf(s.table, s.last, want)
    case Single(first) =>
      AimedIsKept(s, s.last, want);
      SearchOfConsistent(Aimed(s, first), Aimed(s, first).last);
      FoundIsFree(s.table, Aimed(s, first).last);
    case _ =>
  }

  /** A new file likewise. */
  lemma WriteNewGains(s: Fs, want: nat, mark: nat)
    requires Consistent(s) && want >= 1 && mark >= |s.table|
    ensures var files', gain := Step(s, WriteNew(want), mark).files,
                                Gain(Outline(s.table, NewStart(|s.table|, s.last), want), FreeCount(s.table) > 0);
            && (gain == 0 ==> files' == s.files)
            && (gain > 0 ==> |files'| == |s.files| + 1 && files'[..|s.files|] == s.files && |files'[|s.files|]| == gain)
  {
    hide BatchOf, Outline, Outcome, Appended, FreeCount, Lost, Sound, FreeRun;
    var scl := NewStart(|s.table|, s.last);
    OutlineIsRight(s.table, scl, want);
    BatchIsFree(s.table, scl, want);
    match BatchOf(s.table, scl, want)
    case Single(first) =>
      AimedIsKept(s, scl, want);
      SearchOfConsistent(Aimed(s, first), NewStart(|s.table|, Aimed(s, first).last));
      FoundIsFree(s.table, NewStart(|s.table|, Aimed(s, first).last));
    case _ =>
  }

  // ---------------------------------------------------------------------
  // Which cluster a write gets when there is no stretch
  // ---------------------------------------------------------------------

  /** c is the first free cluster behind aim, going up and around. */
  ghost predicate FirstFreeBehind(t: Table, aim: nat, c: nat) {
    exists k :: FirstStop(t, aim, k) && c == Turn(|t|, aim, k) && t[c] == 0
  }

  lemma SearchFindsFirst(s: Fs, aim: nat)
    requires Consistent(s) && 1 <= aim < UNKNOWN && FreeCount(s.table) > 0
    ensures var o := Outcome(s.table, aim); o.Found? && FirstFreeBehind(s.table, aim, o.ncl)
  {
    hide Outcome, FirstStop, Turn;
    var t := s.table;
    SomeFree(t, |t|);
    NoInvalidLinks(s);
    var x :| 2 <= x < |t| && t[x] == 0;
    var k := TurnCovers(|t|, aim, x);
    var first := FirstStopExists(t, aim, k);
    TurnInRange(|t|, aim, first);
    SearchStopsAt(t, aim, first);
    SearchOfConsistent(s, aim);
  }

  /** Then it gets one cluster: the first free one behind the first free one that its search
      has seen, or behind the start if it has seen none. */
  lemma WriteFallsBack(s: Fs, f: nat, want: nat, mark: nat)
    requires Consistent(s) && f < |s.files| && want >= 1 && mark >= |s.table| && 1 <= s.last < UNKNOWN
    requires Outline(s.table, s.last, want).Single? && FreeCount(s.table) > 0
    ensures var first := Outline(s.table, s.last, want).firstIdle;
            exists c: nat :: FirstFreeBehind(s.table, if first != 0 then first else s.last, c)
                             && Step(s, Write(f, want), mark).files == s.files[f := s.files[f] + [c]]
  {
    hide BatchOf, Outline, Outcome, Appended, FreeCount, Lost, Sound, FreeRun, FirstFreeBehind;
    OutlineIsRight(s.table, s.last, want);
    BatchIsFree(s.table, s.last, want);
    AimedIsKept(s, s.last, want);
    var aim := Aimed(s, BatchOf(s.table, s.last, want).firstIdle).last;
    SearchFindsFirst(s, aim);
    FoundIsFree(s.table, aim);
    var c := Outcome(s.table, aim).ncl;
    assert Clusters(c, 1) == [c];
  }

  /** A new file likewise. */
  lemma WriteNewFallsBack(s: Fs, want: nat, mark: nat)
    requires Consistent(s) && want >= 1 && mark >= |s.table| && FreeCount(s.table) > 0
    requires Outline(s.table, NewStart(|s.table|, s.last), want).Single?
    ensures var scl := NewStart(|s.table|, s.last);
            var first := Outline(s.table, scl, want).firstIdle;
            exists c: nat :: FirstFreeBehind(s.table, if first != 0 then first else scl, c)
                             && Step(s, WriteNew(want), mark).files == s.files + [[c]]
  {
    hide BatchOf, Outline, Outcome, Appended, FreeCount, Lost, Sound, FreeRun, FirstFreeBehind;
    var scl := NewStart(|s.table|, s.last);
    OutlineIsRight(s.table, scl, want);
    BatchIsFree(s.table, scl, want);
    AimedIsKept(s, scl, want);
    var first := BatchOf(s.table, scl, want).firstIdle;
    var aim := if first != 0 then first else scl;
    assert aim == NewStart(|s.table|, Aimed(s, first).last);
    SearchFindsFirst(s, aim);
    FoundIsFree(s.table, aim);
    var c := Outcome(s.table, aim).ncl;
    assert Clusters(c, 1) == [c];
    assert Step(s, WriteNew(want), mark) == Created(Aimed(s, first), mark);
  }

  // ---------------------------------------------------------------------
  // What a deletion leaves is used first
  // ---------------------------------------------------------------------

  lemma SearchFindsNext(t: Table, scl: nat)
    requires |t| < UNKNOWN && 1 <= scl && scl + 1 < |t| && t[scl + 1] == 0
    ensures Outcome(t, scl) == Found(scl + 1)
  {
    assert SearchRun(t, scl, 1) == SearchStep(t, scl, SearchRun(t, scl, 0).ncl);
    SearchStays(t, scl, 1, |t|);
  }

  /** Behind the deletion of a file the next cluster given out is its first one, whether a
      file is created or stretched. */
  lemma HoleIsReused(s: Fs, f: nat, mark: nat)
    requires SoundFs(s) && f < |s.files|
    ensures |s.files[f]| > 0
    ensures var s', hole := Step(s, Delete(f), mark), s.files[f][0];
            && SoundFs(s') && s'.files == s.files[..f] + s.files[f + 1..]
            && Step(s', Create, mark).files == s'.files + [[hole]]
            && (forall g: nat :: g < |s'.files| ==>
                  Step(s', Stretch(g), mark).files == s'.files[g := s'.files[g] + [hole]])
  {
    hide Chain, Remove, Outcome, Appended, Sound;
    var hole := FirstOf(s, f);
    DeletedIsSound(s, f, mark);
    var s' := Step(s, Delete(f), mark);
    DeleteEffect(s.table, s.files[f]);
    SearchFindsNext(s'.table, hole - 1);
    FoundIsFree(s'.table, hole - 1);
    assert Clusters(hole, 1) == [hole];
  }

  lemma FirstOf(s: Fs, f: nat) returns (hole: nat)
    requires SoundFs(s) && f < |s.files|
    ensures Chain(s.table, s.files[f]) && |s.files[f]| > 0 && hole == s.files[f][0] && 2 <= hole < |s.table|
  {
    InTable(s.table, s.files[f]);
    hole := s.files[f][0];
  }

  /** A file that was deleted and whose clusters lay in a row leaves its place to a new
      file of up to the same length. */
  lemma PlaceIsReused(s: Fs, f: nat, last: nat, num: nat, want: nat, mark: nat)
    requires SoundFs(s) && f < |s.files| && num <= last + 1 && s.files[f] == Clusters(last, num) && 1 <= want <= num
    ensures var s' := Step(s, Delete(f), mark);
            && SoundFs(s') && Step(s', WriteNew(want), mark).files == s'.files + [s.files[f][..want]]
  {
    hide Chain, Remove, BatchOf, Appended, Sound;
    var hole := FirstOf(s, f);
    DeletedIsSound(s, f, mark);
    var s' := Step(s, Delete(f), mark);
    DeleteEffect(s.table, s.files[f]);
    assert Chain(s.table, s.files[f]);
    InTable(s.table, s.files[f]);
    forall x | hole - 1 < x <= hole - 1 + want
      ensures x < |s.table| && s'.table[x] == 0
    {
      RunMembers(last, num, x);
    }
    assert s.files[f][want - 1] in s.files[f];
    WriteNewGetsAll(s', want, mark);
    assert Clusters(hole - 1 + want, want) == s.files[f][..want];
  }
}
