/** Whole runs of operations on files, as code on a disk that may fail at any access: what
    is kept, what is lost, and where every file is at the end. */
module FatRuns {
  import opened Wrappers
  import opened FatChain
  import opened FatBatch
  import opened FatLinks
  import opened FatVolume
  import opened FatBlind
  import opened FatFiles
  import opened FatSuccess
  import opened FatDisk

  /** Wants fit in a uint32_t. */
  predicate WantFits(op: Op) {
    match op
    case WriteNew(want) => want <= UNKNOWN
    case Write(_, want) => want <= UNKNOWN
    case _ => true
  }

  /** What became of one operation: the file that is no longer kept, with the clusters it
      had, the clusters that may have been lost, and whether the disk failed. */
  datatype Report = Report(drop: Option<nat>, dropped: seq<nat>, loss: set<nat>, failed: bool)

  /** At most this many clusters were asked for. */
  function AskedBy(op: Op): nat {
    match op
    case Create => 1
    case Stretch(_) => 1
    case WriteNew(want) => Asked(want)
    case Write(_, want) => Asked(want)
    case _ => 0
  }

  predicate Grows(op: Op, f: nat) {
    op == Stretch(f) || (op.Write? && op.f == f)
  }

  function Without(files: seq<seq<nat>>, drop: Option<nat>): seq<seq<nat>>
    requires drop.Some? ==> drop.value < |files|
  {
    if drop.Some? then files[..drop.value] + files[drop.value + 1..] else files
  }

  /** Where a file that is not dropped is afterwards. */
  function Place(i: nat, drop: Option<nat>): nat {
    if drop.Some? && drop.value < i then i - 1 else i
  }

  /** The file that a deletion is about. */
  function Deleted(op: Op, files: seq<seq<nat>>): Option<nat> {
    if op.Delete? && op.f < |files| then Some(op.f) else None
  }

  // ---------------------------------------------------------------------
  // Volumes on which no failed growth spoils a file
  // ---------------------------------------------------------------------

  ghost predicate EndsAbove(t: Table, files: seq<seq<nat>>) {
    forall i :: 0 <= i < |files| && |files[i]| > 0 && Last(files[i]) < |t| ==> t[Last(files[i])] >= SMALL_FAT12
  }

  /** FAT16, FAT32, and FAT12 with at most 3840 entries and the end marks of the format. */
  ghost predicate Hardy(v: Volume, t: Table, files: seq<seq<nat>>) {
    !v.fsType.Fat12? || (v.nFatent <= SMALL_FAT12 && EndsAbove(t, files))
  }

  lemma AddedEnds(s: Fs, last: nat, num: nat, mark: nat)
    requires SoundFs(s) && FreeRun(s.table, last, num) && num >= 1 && mark >= SMALL_FAT12
    requires EndsAbove(s.table, s.files)
    ensures EndsAbove(Added(s, last, num, mark).table, Added(s, last, num, mark).files)
  {
    hide Linked, FreeRun, Chain;
    RunInTable(s.table, last, num);
    var s' := Added(s, last, num, mark);
    forall i | 0 <= i < |s'.files| && |s'.files[i]| > 0 && Last(s'.files[i]) < |s'.table|
      ensures s'.table[Last(s'.files[i])] >= SMALL_FAT12
    {
      LinkedAt(s.table, last, num, mark, Last(s'.files[i]));
      if i < |s.files| {
        InTable(s.table, s.files[i]);
        UsedIsNotInRun(s.table, last, num, Last(s.files[i]));
      }
    }
  }

  lemma GrownEnds(s: Fs, f: nat, last: nat, num: nat, mark: nat)
    requires SoundFs(s) && FreeRun(s.table, last, num) && num >= 1 && mark >= SMALL_FAT12 && f < |s.files|
    requires EndsAbove(s.table, s.files)
    ensures EndsAbove(Grown(s, f, last, num, mark).table, Grown(s, f, last, num, mark).files)
  {
    hide Linked, FreeRun, Chain;
    RunInTable(s.table, last, num);
    var s' := Grown(s, f, last, num, mark);
    InTable(s.table, s.files[f]);
    forall i | 0 <= i < |s'.files| && |s'.files[i]| > 0 && Last(s'.files[i]) < |s'.table|
      ensures s'.table[Last(s'.files[i])] >= SMALL_FAT12
    {
      LinkedAt(s.table, last, num, mark, Last(s'.files[i]));
      if i != f {
        InTable(s.table, s.files[i]);
        assert Disjoint(s.files[i], s.files[f]);
        UsedIsNotInRun(s.table, last, num, Last(s.files[i]));
      } else {
        assert Last(s'.files[f]) == last;
        UsedIsNotInRun(s.table, last, num, Last(s.files[f]));
      }
    }
  }

  lemma CreatedEnds(s: Fs, mark: nat)
    requires SoundFs(s) && mark >= SMALL_FAT12 && EndsAbove(s.table, s.files)
    ensures EndsAbove(Created(s, mark).table, Created(s, mark).files)
  {
    hide Outcome, FreeRun, Appended, Sound, EndsAbove;
    var scl := NewStart(|s.table|, s.last);
    FoundIsFree(s.table, scl);
    if Outcome(s.table, scl).Found? {
      AddedEnds(s, Outcome(s.table, scl).ncl, 1, mark);
    }
  }

  lemma StretchedEnds(s: Fs, f: nat, mark: nat)
    requires SoundFs(s) && mark >= SMALL_FAT12 && EndsAbove(s.table, s.files) && f < |s.files|
    ensures EndsAbove(Stretched(s, f, mark).table, Stretched(s, f, mark).files)
  {
    hide Outcome, FreeRun, Appended, Sound, EndsAbove, Grown;
    FoundIsFree(s.table, s.last);
    if Outcome(s.table, s.last).Found? {
      GrownEnds(s, f, Outcome(s.table, s.last).ncl, 1, mark);
    }
  }

  /** Ends that are not touched stay, in the files that are left. */
  lemma OtherEnds(t: Table, t': Table, files: seq<seq<nat>>, f: nat)
    requires Sound(t, files) && f < |files| && |t'| == |t| && EndsAbove(t, files)
    requires forall d :: 2 <= d < |t| && t[d] != 0 && d !in files[f] ==> t'[d] == t[d]
    ensures EndsAbove(t', Without(files, Some(f)))
  {
    hide Chain;
    var files' := Without(files, Some(f));
    forall i | 0 <= i < |files'| && |files'[i]| > 0 && Last(files'[i]) < |t'|
      ensures t'[Last(files'[i])] >= SMALL_FAT12
    {
      var i0 := if i < f then i else i + 1;
      assert files'[i] == files[i0] && Disjoint(files[i0], files[f]);
      InTable(t, files[i0]);
    }
  }

  lemma DeletedEnds(s: Fs, f: nat, mark: nat)
    requires SoundFs(s) && EndsAbove(s.table, s.files) && f < |s.files|
    ensures EndsAbove(Step(s, Delete(f), mark).table, Step(s, Delete(f), mark).files)
  {
    hide Chain, Remove, Sound, EndsAbove;
    assert Chain(s.table, s.files[f]) by {
      EndMark(s.table, s.files, f);
    }
    InTable(s.table, s.files[f]);
    DeleteEffect(s.table, s.files[f]);
    OtherEnds(s.table, Remove(s.table, s.files[f][0]).table, s.files, f);
  }

  lemma StepKeepsEnds(s: Fs, op: Op, mark: nat)
    requires SoundFs(s) && mark >= SMALL_FAT12 && EndsAbove(s.table, s.files)
    ensures EndsAbove(Step(s, op, mark).table, Step(s, op, mark).files)
  {
    hide Sound, Remove, Appended, Outcome, BatchOf, FreeRun, EndsAbove, Grown, Created, Stretched;
    var t := s.table;
    match op
    case Create => CreatedEnds(s, mark);
    case Stretch(f) => if f < |s.files| { StretchedEnds(s, f, mark); }
    case WriteNew(want) =>
      var scl := NewStart(|t|, s.last);
      BatchIsFree(t, scl, want);
      match BatchOf(t, scl, want) {
        case Take(last, num) => AddedEnds(s, last, num, mark);
        case Single(first) =>
          AimedIsSound(s, scl, want);
          CreatedEnds(Aimed(s, first), mark);
        case _ =>
      }
    case Write(f, want) =>
      BatchIsFree(t, s.last, want);
      if f < |s.files| {
        match BatchOf(t, s.last, want) {
          case Take(last, num) => GrownEnds(s, f, last, num, mark);
          case Single(first) =>
            AimedIsSound(s, s.last, want);
            StretchedEnds(Aimed(s, first), f, mark);
          case _ =>
        }
      }
    case Delete(f) => if f < |s.files| { DeletedEnds(s, f, mark); }
    case DeleteEmpty =>
  }

  // ---------------------------------------------------------------------
  // A step moves no file but the one it deletes
  // ---------------------------------------------------------------------

  /** Every file but the dropped one is still there, perhaps with more clusters. */
  ghost predicate Follows(files: seq<seq<nat>>, drop: Option<nat>, files': seq<seq<nat>>) {
    forall i :: 0 <= i < |files| && drop != Some(i) ==>
      Place(i, drop) < |files'| && files[i] <= files'[Place(i, drop)]
  }

  lemma WithoutFollows(files: seq<seq<nat>>, drop: Option<nat>)
    requires drop.Some? ==> drop.value < |files|
    ensures Follows(files, drop, Without(files, drop))
  {
  }

  lemma CreatedFollows(s: Fs, mark: nat)
    requires SoundFs(s)
    ensures Follows(s.files, None, Created(s, mark).files)
  {
    hide Appended, Outcome, FreeRun;
    FoundIsFree(s.table, NewStart(|s.table|, s.last));
  }

  lemma StretchedFollows(s: Fs, f: nat, mark: nat)
    requires SoundFs(s) && f < |s.files|
    ensures Follows(s.files, None, Stretched(s, f, mark).files)
  {
    hide Appended, Outcome, FreeRun;
    FoundIsFree(s.table, s.last);
  }

  lemma StepFollows(s: Fs, op: Op, mark: nat)
    requires SoundFs(s)
    ensures Follows(s.files, Deleted(op, s.files), Step(s, op, mark).files)
  {
    hide Sound, Remove, Appended, Outcome, BatchOf, FreeRun, Created, Stretched;
    var t := s.table;
    match op
    case Create => CreatedFollows(s, mark);
    case Stretch(f) => if f < |s.files| { StretchedFollows(s, f, mark); }
    case WriteNew(want) =>
      var scl := NewStart(|t|, s.last);
      BatchIsFree(t, scl, want);
      match BatchOf(t, scl, want) {
        case Single(first) =>
          AimedIsSound(s, scl, want);
          CreatedFollows(Aimed(s, first), mark);
        case _ =>
      }
    case Write(f, want) =>
      BatchIsFree(t, s.last, want);
      if f < |s.files| {
        match BatchOf(t, s.last, want) {
          case Single(first) =>
            AimedIsSound(s, s.last, want);
            StretchedFollows(Aimed(s, first), f, mark);
          case _ =>
        }
      }
    case Delete(f) =>
      if f < |s.files| {
        EndMark(t, s.files, f);
        WithoutFollows(s.files, Some(f));
      }
    case DeleteEmpty =>
  }

  // ---------------------------------------------------------------------
  // One operation
  // ---------------------------------------------------------------------

  /** What one operation makes of the files kept. Only a deletion drops a file; or on a
      volume that is not hardy a growth that failed. A failed operation that has not done
      what it should leaves the files as they were. */
  ghost predicate Explained(op: Op, files: seq<seq<nat>>, rep: Report, files': seq<seq<nat>>, hardy: bool) {
    && (rep.drop.Some? ==> rep.drop.value < |files| && rep.dropped == files[rep.drop.value])
    && (rep.drop.None? ==> rep.dropped == [])
    && (if op.Delete? then rep.drop == Deleted(op, files)
        else rep.drop.Some? ==> rep.failed && Grows(op, rep.drop.value) && !hardy)
    && Follows(files, rep.drop, files')
    && |rep.loss| <= AskedBy(op) + |rep.dropped|
    && (rep.loss != {} ==> rep.failed && files' == Without(files, rep.drop))
  }

  /** What one operation has done to the volume and the files of s. */
  ghost predicate Performed(s: Fs, op: Op, v: Volume, files': seq<seq<nat>>, rep: Report)
    requires v.Valid() && SoundFs(s)
    reads v, v.fat
  {
    && Explained(op, s.files, rep, files', Hardy(v, s.table, s.files))
    && (forall d :: Lost(v.Table(), files', d) ==> Lost(s.table, s.files, d) || d in rep.loss)
    && (|| Fs(v.Table(), v.lastClust, files') == Step(s, op, v.Mark())
        || (rep.failed && files' == Without(s.files, rep.drop)))
  }

  lemma TookStep(s: Fs, op: Op, v: Volume, files': seq<seq<nat>>, rep: Report)
    requires v.Valid() && SoundFs(s) && v.Mark() >= |s.table| && |s.table| == v.nFatent
    requires Fs(v.Table(), v.lastClust, files') == Step(s, op, v.Mark())
    requires rep.drop == Deleted(op, s.files) && rep.loss == {}
    requires rep.dropped == if op.Delete? && op.f < |s.files| then s.files[op.f] else []
    ensures Performed(s, op, v, files', rep)
    ensures Hardy(v, s.table, s.files) ==> Hardy(v, v.Table(), files')
  {
    hide Step, Links, HoldsAll, Lost, Sound, Accounted, Follows, EndsAbove, Num, Bits, AskedBy;
    StepIsKept(s, op, v.Mark());
    StepFollows(s, op, v.Mark());
    CutLastLink(v.fsType);
    if EndsAbove(s.table, s.files) && v.fsType.Fat12? {
      StepKeepsEnds(s, op, v.Mark());
    }
  }

  function Members(cs: seq<nat>): (ns: set<nat>)
    ensures forall d :: d in ns <==> d in cs
  {
    set d | d in cs
  }

  lemma {:induction false} MembersSize(cs: seq<nat>)
    ensures |Members(cs)| <= |cs|
  {
    if |cs| > 0 {
      MembersSize(cs[1..]);
      assert cs == [cs[0]] + cs[1..];
      assert Members(cs) == {cs[0]} + Members(cs[1..]);
    }
  }

  /** The clusters that a failed allocation may have lost. */
  lemma RunLoss(s: Fs, t': Table, limit: nat) returns (loss: set<nat>)
    requires SomeRunLost(s, t', limit)
    ensures |loss| <= limit && forall d: nat :: Lost(t', s.files, d) ==> Lost(s.table, s.files, d) || d in loss
  {
    hide Lost, FreeRun;
    var last: nat, num: nat :| num <= limit && FreeRun(s.table, last, num) && LostInRun(s, t', last, num);
    RunInTable(s.table, last, num);
    MembersSize(Clusters(last, num));
    loss := Members(Clusters(last, num));
    forall d: nat | Lost(t', s.files, d)
      ensures Lost(s.table, s.files, d) || d in loss
    {
      RunMembers(last, num, d);
    }
  }

  /** An operation for a new file has failed. */
  lemma CreationReport(s: Fs, op: Op, v: Volume) returns (rep: Report)
    requires v.Valid() && SoundFs(s) && |s.table| == v.nFatent && (op.Create? || op.WriteNew?)
    requires CreationFailed(s, v, AskedBy(op))
    ensures rep.failed && Performed(s, op, v, s.files, rep)
    ensures Hardy(v, s.table, s.files) ==> Hardy(v, v.Table(), s.files)
  {
    hide Step, Links, HoldsAll, Lost, Sound, Accounted, Num, Bits, AskedBy, SomeRunLost;
    var loss := RunLoss(s, v.Table(), AskedBy(op));
    rep := Report(None, [], loss, true);
    assert Sound(s.table, s.files);
    EndsStay(s, v.Table(), 0);
  }

  /** Ends stay above where links in use stay. */
  lemma EndsStay(s: Fs, t': Table, clst: nat)
    requires Sound(s.table, s.files) && UsedStay(s.table, t', clst)
    ensures forall i :: 0 <= i < |s.files| ==> |s.files[i]| > 0 && 2 <= Last(s.files[i]) < |s.table|
    ensures EndsAbove(s.table, s.files) && (2 <= clst < |t'| ==> t'[clst] >= SMALL_FAT12) ==> EndsAbove(t', s.files)
  {
    hide Chain;
    forall i | 0 <= i < |s.files|
      ensures |s.files[i]| > 0 && 2 <= Last(s.files[i]) < |s.table| && s.table[Last(s.files[i])] != 0
    {
      InTable(s.table, s.files[i]);
    }
  }

  /** The files kept when file f was to grow and its last link is left as `left`. */
  function KeptFiles(files: seq<seq<nat>>, f: nat, left: nat, n: nat): seq<seq<nat>>
    requires f < |files|
  {
    Without(files, if left < n then Some(f) else None)
  }

  lemma LostWithout(s: Fs, t': Table, f: nat, d: nat)
    requires f < |s.files| && Lost(t', Without(s.files, Some(f)), d) && d !in s.files[f]
    ensures Lost(t', s.files, d)
  {
    OwnedByOthers(s.files, f, d);
  }

  /** When f is dropped too, its clusters may be lost as well. */
  lemma LostBesides(s: Fs, t': Table, f: nat, loss: set<nat>)
    requires f < |s.files|
    requires forall d: nat :: Lost(t', s.files, d) ==> Lost(s.table, s.files, d) || d in loss
    ensures |loss + Members(s.files[f])| <= |loss| + |s.files[f]|
    ensures forall d: nat :: Lost(t', Without(s.files, Some(f)), d) ==>
              Lost(s.table, s.files, d) || d in loss + Members(s.files[f])
  {
    hide Lost;
    MembersSize(s.files[f]);
    forall d: nat | Lost(t', Without(s.files, Some(f)), d) && d !in s.files[f]
      ensures Lost(s.table, s.files, d) || d in loss
    {
      LostWithout(s, t', f, d);
    }
  }

  /** An operation that was to make file f grow has failed: f is dropped exactly if its
      last link now leads somewhere. */
  lemma GrowthReport(s: Fs, op: Op, v: Volume, f: nat, left: nat) returns (rep: Report)
    requires v.Valid() && SoundFs(s) && |s.table| == v.nFatent && f < |s.files| && Grows(op, f)
    requires |s.files[f]| > 0 && 2 <= Last(s.files[f]) < v.nFatent && GrowthFailed(s, v, f, left, AskedBy(op))
    ensures rep.failed && Performed(s, op, v, KeptFiles(s.files, f, left, v.nFatent), rep)
    ensures SoundFs(Fs(v.Table(), s.last, KeptFiles(s.files, f, left, v.nFatent)))
    ensures Hardy(v, s.table, s.files) ==> Hardy(v, v.Table(), KeptFiles(s.files, f, left, v.nFatent))
  {
    hide Step, Links, HoldsAll, Lost, Sound, Num, Bits, AskedBy, SomeRunLost, UsedStay, Follows;
    WithoutFollows(s.files, if left < v.nFatent then Some(f) else None);
    var loss := RunLoss(s, v.Table(), AskedBy(op));
    EndsStay(s, v.Table(), Last(s.files[f]));
    if left >= v.nFatent {
      rep := Report(None, [], loss, true);
    } else {
      rep := Report(Some(f), s.files[f], loss + Members(s.files[f]), true);
      LostBesides(s, v.Table(), f, loss);
    }
  }

  /** A deletion has failed. */
  lemma DeletionReport(s: Fs, f: nat, v: Volume) returns (rep: Report)
    requires v.Valid() && SoundFs(s) && |s.table| == v.nFatent && f < |s.files| && DeletionFailed(s, v.Table(), f)
    ensures rep.failed && Performed(s, Delete(f), v, Without(s.files, Some(f)), rep)
    ensures Hardy(v, s.table, s.files) ==> Hardy(v, v.Table(), Without(s.files, Some(f)))
  {
    hide Step, Links, HoldsAll, Lost, Sound, Accounted, Num, Bits;
    MembersSize(s.files[f]);
    WithoutFollows(s.files, Some(f));
    rep := Report(Some(f), s.files[f], Members(s.files[f]), true);
    if EndsAbove(s.table, s.files) {
      OtherEnds(s.table, v.Table(), s.files, f);
    }
  }

  lemma NoSuchFile(s: Fs, op: Op, mark: nat)
    requires SoundFs(s)
    requires match op
             case Stretch(f) => f >= |s.files|
             case Write(f, _) => f >= |s.files|
             case Delete(f) => f >= |s.files|
             case _ => op.DeleteEmpty?
    ensures op != DeleteEmpty ==> Step(s, op, mark) == s
    ensures op == DeleteEmpty ==> Step(s, op, mark) == s.(last := UNKNOWN)
  {
  }

  /** An allocation for a new file. */
  method Add(v: Volume, ghost s: Fs, files: seq<seq<nat>>, op: Op)
    returns (files': seq<seq<nat>>, ghost rep: Report)
    requires v.Valid() && Describes(s, v) && files == s.files && (op.Create? || op.WriteNew?) && WantFits(op)
    modifies v, v.fat
    ensures v.Valid() && v.Mark() >= v.nFatent && v.moves >= old(v.moves)
    ensures SoundFs(Fs(v.Table(), v.lastClust, files')) && (v.lastClust == s.last || 1 <= v.lastClust < v.nFatent)
    ensures Performed(s, op, v, files', rep) && rep.failed == v.DiskFailed(old(v.moves), v.moves)
    ensures Hardy(v, s.table, s.files) ==> Hardy(v, v.Table(), files')
  {
    hide Sound, Outcome, Links, HoldsAll, Num, Bits, SomeRunLost, Step, Lost, Performed, Hardy, UsedStay, SoundFs;
    var r, num := 0, 1;
    if op.Create? {
      r := CreateFile(v, s);
    } else {
      r, num := WriteNewFile(v, s, op.want, 0);
    }
    if r == UNKNOWN {
      files' := files;
      rep := CreationReport(s, op, v);
      FailedIsSound(s, v, files);
    } else {
      files' := WithFile(files, Given(r, num));
      rep := Report(None, [], {}, v.DiskFailed(old(v.moves), v.moves));
      LastAfterStep(s, op, v.Mark());
      TookStep(s, op, v, files', rep);
    }
  }

  lemma FailedIsSound(s: Fs, v: Volume, files: seq<seq<nat>>)
    requires v.Valid() && SoundFs(s) && v.lastClust <= UNKNOWN && Sound(v.Table(), files)
    requires |v.Table()| == |s.table|
    ensures SoundFs(Fs(v.Table(), v.lastClust, files))
  {
  }

  /** An allocation behind file f. */
  method Grow(v: Volume, ghost s: Fs, files: seq<seq<nat>>, op: Op, f: nat)
    returns (files': seq<seq<nat>>, ghost rep: Report)
    requires v.Valid() && Describes(s, v) && files == s.files && StartIsSafe(v)
    requires Grows(op, f) && f < |files| && WantFits(op)
    modifies v, v.fat
    ensures v.Valid() && v.Mark() >= v.nFatent && v.moves >= old(v.moves)
    ensures SoundFs(Fs(v.Table(), v.lastClust, files')) && (v.lastClust == s.last || 1 <= v.lastClust < v.nFatent)
    ensures Performed(s, op, v, files', rep) && rep.failed == v.DiskFailed(old(v.moves), v.moves)
    ensures Hardy(v, s.table, s.files) ==> Hardy(v, v.Table(), files')
  {
    EndMark(s.table, files, f);
    hide Sound, Outcome, Links, HoldsAll, Num, Bits, SomeRunLost, Step, Lost, Performed, Hardy, UsedStay, SoundFs;
    hide LinkLeft, WriteLeft;
    ghost var left: nat;
    var r, num, clst := 0, 1, Last(files[f]);
    if op.Stretch? {
      left := LinkLeft(v, s.table, clst, s.last, v.AfterRead(v.moves));
      r := StretchFile(v, s, f, clst);
    } else {
      left := WriteLeft(v, s.table, clst, op.want, s.last, v.AfterRead(v.moves));
      r, num := WriteFile(v, s, f, clst, op.want, 0);
    }
    if r == UNKNOWN {
      files' := KeptFiles(files, f, Links(v.fat[..], v.fsType, v.nFatent)[clst], v.nFatent);
      rep := GrowthReport(s, op, v, f, left);
      FailedIsSound(s, v, files');
    } else {
      files' := files[f := files[f] + Given(r, num)];
      rep := Report(None, [], {}, v.DiskFailed(old(v.moves), v.moves));
      LastAfterStep(s, op, v.Mark());
      TookStep(s, op, v, files', rep);
    }
  }

  /** A deletion of file f. */
  method Drop(v: Volume, ghost s: Fs, files: seq<seq<nat>>, f: nat)
    returns (files': seq<seq<nat>>, ghost rep: Report)
    requires v.Valid() && Describes(s, v) && files == s.files && f < |files|
    modifies v, v.fat
    ensures v.Valid() && v.Mark() >= v.nFatent && v.moves >= old(v.moves)
    ensures SoundFs(Fs(v.Table(), v.lastClust, files')) && (v.lastClust == s.last || 1 <= v.lastClust < v.nFatent)
    ensures Performed(s, Delete(f), v, files', rep) && rep.failed == v.DiskFailed(old(v.moves), v.moves)
    ensures Hardy(v, s.table, s.files) ==> Hardy(v, v.Table(), files')
  {
    EndMark(s.table, files, f);
    hide Sound, Links, HoldsAll, Num, Bits, Step, Lost, Performed, Hardy, SoundFs;
    var res := DeleteFile(v, s, Delete(f), files[f][0]);
    files' := Without(files, Some(f));
    if res == DiskErr {
      rep := DeletionReport(s, f, v);
      FailedIsSound(s, v, files');
    } else {
      rep := Report(Some(f), files[f], {}, false);
      LastAfterStep(s, Delete(f), v.Mark());
      TookStep(s, Delete(f), v, files', rep);
    }
  }

  /** One operation, for a caller that keeps the clusters of its files. It drops a file when
      it deletes it, and when its growth failed and left its last FAT12 link leading
      somewhere. */
  method Perform(v: Volume, files: seq<seq<nat>>, op: Op) returns (files': seq<seq<nat>>, ghost rep: Report)
    requires v.Valid() && SoundFs(Fs(v.Table(), v.lastClust, files)) && StartIsSafe(v) && WantFits(op)
    modifies v, v.fat
    ensures v.Valid() && v.Mark() >= v.nFatent && v.moves >= old(v.moves)
    ensures StartIsSafe(v) && SoundFs(Fs(v.Table(), v.lastClust, files'))
    ensures Performed(old(Fs(v.Table(), v.lastClust, files)), op, v, files', rep)
    ensures rep.failed == v.DiskFailed(old(v.moves), v.moves)
    ensures Hardy(v, old(v.Table()), files) ==> Hardy(v, v.Table(), files')
  {
    hide Sound, Links, HoldsAll, Num, Bits, Step, Lost, Performed, Hardy, SoundFs;
    ghost var s := Fs(v.Table(), v.lastClust, files);
    v.NoFailure(v.moves, v.moves);
    CutLastLink(v.fsType);
    if op.Create? || op.WriteNew? {
      files', rep := Add(v, s, files, op);
    } else if (op.Stretch? || op.Write?) && op.f < |files| {
      files', rep := Grow(v, s, files, op, op.f);
    } else if op.Delete? && op.f < |files| {
      files', rep := Drop(v, s, files, op.f);
    } else {
      files' := files;
      rep := Report(None, [], {}, false);
      NoSuchFile(s, op, v.Mark());
      if op.DeleteEmpty? {
        var _ := DeleteFile(v, s, op, 0);
      }
      StepIsKept(s, op, v.Mark());
      TookStep(s, op, v, files', rep);
    }
  }

  // ---------------------------------------------------------------------
  // Whole runs
  // ---------------------------------------------------------------------

  lemma {:induction false} RunSnoc(s: Fs, ops: seq<Op>, k: nat, mark: nat)
    requires SoundFs(s) && mark >= |s.table| && k < |ops|
    ensures SoundFs(Run(s, ops[..k], mark)) && Run(s, ops[..k + 1], mark) == Step(Run(s, ops[..k], mark), ops[k], mark)
    decreases k
  {
    hide Step, Sound, Lost, FreeCount;
    StepIsKept(s, ops[0], mark);
    var s1 := Step(s, ops[0], mark);
    if k == 0 {
      assert ops[..1][1..] == [];
    } else {
      RunSnoc(s1, ops[1..], k - 1, mark);
      assert ops[..k][1..] == ops[1..][..k - 1] && ops[..k + 1][1..] == ops[1..][..k];
    }
  }

  lemma RunNothing(s: Fs, mark: nat)
    requires SoundFs(s) && mark >= |s.table|
    ensures Run(s, [], mark) == s
  {
  }

  /** Where file i is after these operations, unless one of them dropped it. */
  ghost function Where(i: nat, reps: seq<Report>): Option<nat> {
    if |reps| == 0 then Some(i)
    else
      var drop := reps[|reps| - 1].drop;
      match Where(i, reps[..|reps| - 1])
      case None => None
      case Some(j) => if drop == Some(j) then None else Some(Place(j, drop))
  }

  /** A history of a run: the files kept at each moment, and a report for each operation. */
  ghost predicate History(ops: seq<Op>, trace: seq<seq<seq<nat>>>, reps: seq<Report>, hardy: bool) {
    && |reps| == |ops| && |trace| == |ops| + 1
    && forall k :: 0 <= k < |ops| ==> Explained(ops[k], trace[k], reps[k], trace[k + 1], hardy)
  }

  ghost predicate SomeFailed(reps: seq<Report>) {
    exists k :: 0 <= k < |reps| && reps[k].failed
  }

  ghost predicate LostBy(reps: seq<Report>, d: nat) {
    exists k :: 0 <= k < |reps| && d in reps[k].loss
  }

  /** Operation k has dropped the file that was file i, with clusters cs, in the beginning. */
  ghost predicate DroppedBy(ops: seq<Op>, reps: seq<Report>, hardy: bool, i: nat, cs: seq<nat>, k: int)
    requires |reps| == |ops|
  {
    && 0 <= k < |ops| && reps[k].drop.Some? && reps[k].drop == Where(i, reps[..k]) && cs <= reps[k].dropped
    && (|| ops[k] == Delete(reps[k].drop.value)
        || (!hardy && reps[k].failed && Grows(ops[k], reps[k].drop.value)))
  }

  /** In every history a file that has not been dropped is where it should be, with all its
      clusters in front; and a file that has been dropped was dropped as that file, by its
      deletion, or on a volume that is not hardy by its own failed growth. */
  lemma {:induction false} FilesAreKept(ops: seq<Op>, trace: seq<seq<seq<nat>>>, reps: seq<Report>, hardy: bool, i: nat)
    requires History(ops, trace, reps, hardy) && i < |trace[0]|
    ensures match Where(i, reps)
            case Some(j) => j < |trace[|ops|]| && trace[0][i] <= trace[|ops|][j]
            case None => exists k :: DroppedBy(ops, reps, hardy, i, trace[0][i], k)
    decreases |ops|
  {
    assert |reps| == |ops| && |trace| == |ops| + 1;
    if |ops| > 0 {
      var n := |ops| - 1;
      hide History, Explained, DroppedBy;
      HistoryBefore(ops, trace, reps, hardy);
      FilesAreKept(ops[..n], trace[..n + 1], reps[..n], hardy, i);
      if Where(i, reps[..n]).None? {
        var k :| DroppedBy(ops[..n], reps[..n], hardy, i, trace[0][i], k);
        DroppedBefore(ops, reps, hardy, i, trace[0][i], n, k);
      } else {
        LastStep(ops[n], trace[n], reps[n], trace[n + 1], hardy, trace[0][i], Where(i, reps[..n]).value);
        DroppedLast(ops, reps, hardy, i, trace[0][i]);
      }
    }
  }

  lemma DroppedBefore(ops: seq<Op>, reps: seq<Report>, hardy: bool, i: nat, cs: seq<nat>, n: nat, k: int)
    requires |reps| == |ops| && n <= |ops| && DroppedBy(ops[..n], reps[..n], hardy, i, cs, k)
    ensures DroppedBy(ops, reps, hardy, i, cs, k)
  {
    hide Where;
    assert reps[..n][..k] == reps[..k];
  }

  lemma DroppedLast(ops: seq<Op>, reps: seq<Report>, hardy: bool, i: nat, cs: seq<nat>)
    requires |reps| == |ops| && |ops| > 0 && Where(i, reps[..|ops| - 1]).Some?
    ensures var n, j := |ops| - 1, Where(i, reps[..|ops| - 1]).value;
            reps[n].drop == Some(j) && cs <= reps[n].dropped
            && (ops[n] == Delete(j) || (!hardy && reps[n].failed && Grows(ops[n], j)))
            ==> DroppedBy(ops, reps, hardy, i, cs, n)
  {
    hide Where;
  }

  lemma HistoryBefore(ops: seq<Op>, trace: seq<seq<seq<nat>>>, reps: seq<Report>, hardy: bool)
    requires History(ops, trace, reps, hardy) && |ops| > 0
    ensures var n := |ops| - 1;
            && History(ops[..n], trace[..n + 1], reps[..n], hardy)
            && Explained(ops[n], trace[n], reps[n], trace[n + 1], hardy)
  {
    hide Explained;
  }

  /** One step, for a file that was at j with clusters cs in front. */
  lemma LastStep(op: Op, files: seq<seq<nat>>, rep: Report, files': seq<seq<nat>>, hardy: bool, cs: seq<nat>, j: nat)
    requires Explained(op, files, rep, files', hardy) && j < |files| && cs <= files[j]
    ensures rep.drop != Some(j) ==> Place(j, rep.drop) < |files'| && cs <= files'[Place(j, rep.drop)]
    ensures rep.drop == Some(j) ==>
              cs <= rep.dropped && (op == Delete(j) || (!hardy && rep.failed && Grows(op, j)))
  {
    hide AskedBy;
  }

  lemma HistoryGoesOn(ops: seq<Op>, k: nat, trace: seq<seq<seq<nat>>>, reps: seq<Report>, hardy: bool,
      rep: Report, files': seq<seq<nat>>, now: bool)
    requires k < |ops| && History(ops[..k], trace, reps, hardy) && (hardy ==> now)
    requires Explained(ops[k], trace[k], rep, files', now)
    ensures History(ops[..k + 1], trace + [files'], reps + [rep], hardy)
    ensures SomeFailed(reps + [rep]) <==> SomeFailed(reps) || rep.failed
    ensures forall d :: LostBy(reps + [rep], d) <==> LostBy(reps, d) || d in rep.loss
  {
    hide Follows, AskedBy;
    var reps' := reps + [rep];
    assert reps'[k] == rep && forall j :: 0 <= j < k ==> reps'[j] == reps[j];
    forall j | 0 <= j < k
      ensures Explained(ops[..k + 1][j], (trace + [files'])[j], reps'[j], (trace + [files'])[j + 1], hardy)
    {
      assert Explained(ops[..k][j], trace[j], reps[j], trace[j + 1], hardy);
    }
  }

  /** Any run of operations on a disk that may fail at any access. At every moment the files
      kept are sound chains without a shared cluster; none is dropped but by its deletion,
      or, on a volume that is not hardy, by its own failed growth; all others are kept with
      the clusters they had in front. A cluster can be lost only to an operation during
      which the disk failed, and to that no more than it asked for and its dropped file had.
      If the disk did not fail the run is that of the specification, byte for byte. */
  method Execute(v: Volume, files: seq<seq<nat>>, ops: seq<Op>)
    returns (files': seq<seq<nat>>, ghost trace: seq<seq<seq<nat>>>, ghost reps: seq<Report>)
    requires v.Valid() && SoundFs(Fs(v.Table(), v.lastClust, files)) && StartIsSafe(v)
    requires forall i :: 0 <= i < |ops| ==> WantFits(ops[i])
    modifies v, v.fat
    ensures v.Valid() && v.Mark() >= v.nFatent && v.moves >= old(v.moves)
    ensures StartIsSafe(v) && Sound(v.Table(), files')
    ensures History(ops, trace, reps, old(Hardy(v, v.Table(), files))) && trace[0] == files && trace[|ops|] == files'
    ensures forall i :: 0 <= i < |files| && Where(i, reps).Some? ==>
              Where(i, reps).value < |files'| && files[i] <= files'[Where(i, reps).value]
    ensures forall d :: Lost(v.Table(), files', d) ==> old(Lost(v.Table(), files, d)) || LostBy(reps, d)
    ensures SomeFailed(reps) <==> v.DiskFailed(old(v.moves), v.moves)
    ensures !v.DiskFailed(old(v.moves), v.moves) ==>
              Fs(v.Table(), v.lastClust, files') == Run(Fs(old(v.Table()), old(v.lastClust), files), ops, v.Mark())
  {
    hide Links, HoldsAll, Num, Bits, Step, Run, Lost, Hardy, Explained;
    CutLastLink(v.fsType);
    ghost var s, m0, hardy := Fs(v.Table(), v.lastClust, files), v.moves, Hardy(v, v.Table(), files);
    files', trace, reps := files, [files], [];
    RunNothing(s, v.Mark());
    v.NoFailure(m0, m0);
    assert ops[..0] == [];
    for k := 0 to |ops|
      invariant v.Valid() && v.moves >= m0 && StartIsSafe(v)
      invariant SoundFs(Fs(v.Table(), v.lastClust, files')) && (hardy ==> Hardy(v, v.Table(), files'))
      invariant History(ops[..k], trace, reps, hardy) && trace[0] == files && trace[k] == files'
      invariant SomeFailed(reps) <==> v.DiskFailed(m0, v.moves)
      invariant forall d :: Lost(v.Table(), files', d) ==> Lost(s.table, files, d) || LostBy(reps, d)
      invariant !v.DiskFailed(m0, v.moves) ==>
                  Fs(v.Table(), v.lastClust, files') == Run(s, ops[..k], v.Mark())
    {
      hide Sound, SoundFs, History, SomeFailed, LostBy;
      ghost var m, now := v.moves, Hardy(v, v.Table(), files');
      RunSnoc(s, ops, k, v.Mark());
      ghost var rep;
      files', rep := Perform(v, files', ops[k]);
      v.FailureSplits(m0, m, v.moves);
      HistoryGoesOn(ops, k, trace, reps, hardy, rep, files', now);
      trace, reps := trace + [files'], reps + [rep];
    }
    assert ops[..|ops|] == ops;
    forall i | 0 <= i < |files| && Where(i, reps).Some?
      ensures Where(i, reps).value < |files'| && files[i] <= files'[Where(i, reps).value]
    {
      FilesAreKept(ops, trace, reps, hardy, i);
    }
  }
}
