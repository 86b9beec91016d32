/** Files as cluster chains: over every run of creating, stretching, writing and deleting
    them, they never share a cluster, lose one, or change behind one another's back. */
module FatFiles {
  import opened FatChain
  import opened FatBatch

  /** The volume, the last cluster given out, and the clusters of each file. */
  datatype Fs = Fs(table: Table, last: nat, files: seq<seq<nat>>)

  /** Create and Stretch give one cluster to a new file and to file f, as seeking and
      directories do (create_chain); WriteNew and Write ask for `want` clusters in a row,
      as writing does (create_chain_for_clusts). Files that own no cluster yet are not in
      `files`; deleting one is an operation of its own, and not a harmless one. */
  datatype Op =
    | Create | Stretch(f: nat)
    | WriteNew(want: nat) | Write(f: nat, want: nat)
    | Delete(f: nat) | DeleteEmpty

  ghost predicate Disjoint(a: seq<nat>, b: seq<nat>) {
    forall d :: d in a ==> d !in b
  }

  ghost predicate Sound(t: Table, files: seq<seq<nat>>) {
    && (forall i :: 0 <= i < |files| ==> Chain(t, files[i]))
    && (forall i, j :: 0 <= i < |files| && 0 <= j < |files| && i != j ==> Disjoint(files[i], files[j]))
  }

  ghost predicate Owned(files: seq<seq<nat>>, d: nat) {
    exists i :: 0 <= i < |files| && d in files[i]
  }

  /** d is allocated, but belongs to no file. */
  ghost predicate Lost(t: Table, files: seq<seq<nat>>, d: nat) {
    2 <= d < |t| && t[d] != 0 && !Owned(files, d)
  }

  ghost predicate NothingLost(t: Table, files: seq<seq<nat>>) {
    forall d :: !Lost(t, files, d)
  }

  ghost predicate SoundFs(s: Fs) {
    Sound(s.table, s.files) && |s.table| < UNKNOWN && s.last <= UNKNOWN
  }

  ghost predicate Consistent(s: Fs) {
    SoundFs(s) && NothingLost(s.table, s.files)
  }

  function Last(cs: seq<nat>): nat
    requires |cs| > 0
  {
    cs[|cs| - 1]
  }

  lemma InTable(t: Table, cs: seq<nat>)
    requires Chain(t, cs)
    ensures forall d :: d in cs ==> 2 <= d < |t| && t[d] >= 2
    ensures |cs| > 0 && Last(cs) in cs && cs[0] in cs
  {
  }

  // ---------------------------------------------------------------------
  // The steps
  // ---------------------------------------------------------------------

  /** The run of num free clusters up to last becomes a file. */
  function Added(s: Fs, last: nat, num: nat, mark: nat): Fs
    requires FreeRun(s.table, last, num)
  {
    Fs(Appended(s.table, 0, last, num, mark), last, s.files + [Clusters(last, num)])
  }

  /** The run is appended to file f. */
  ghost function Grown(s: Fs, f: nat, last: nat, num: nat, mark: nat): Fs
    requires SoundFs(s) && FreeRun(s.table, last, num) && f < |s.files|
  {
    InTable(s.table, s.files[f]);
    var cs := s.files[f];
    Fs(Appended(s.table, Last(cs), last, num, mark), last, s.files[f := cs + Clusters(last, num)])
  }

  lemma FoundIsFree(t: Table, scl: nat)
    ensures Outcome(t, scl).Found? ==> FreeRun(t, Outcome(t, scl).ncl, 1)
  {
    SearchSound(t, scl, |t|);
  }

  /** A search that finds nothing changes nothing. */
  ghost function Created(s: Fs, mark: nat): Fs
    requires SoundFs(s)
  {
    var scl := NewStart(|s.table|, s.last);
    FoundIsFree(s.table, scl);
    var o := Outcome(s.table, scl);
    if o.Found? then Added(s, o.ncl, 1, mark) else s
  }

  ghost function Stretched(s: Fs, f: nat, mark: nat): Fs
    requires SoundFs(s) && f < |s.files|
  {
    FoundIsFree(s.table, s.last);
    var o := Outcome(s.table, s.last);
    if o.Found? then Grown(s, f, o.ncl, 1, mark) else s
  }

  /** The search for a run has found none and leaves the first free cluster it saw as the
      place to start from. */
  function Aimed(s: Fs, first: nat): Fs {
    if first != 0 then s.(last := first) else s
  }

  lemma AimedIsSound(s: Fs, scl: nat, want: nat)
    requires SoundFs(s) && BatchOf(s.table, scl, want).Single?
    ensures SoundFs(Aimed(s, BatchOf(s.table, scl, want).firstIdle))
  {
    BatchIsFree(s.table, scl, want);
  }

  /** Where f_unlink wants the next search to begin: one before the hole it left. */
  function Reuse(clst: nat): nat {
    if clst == 0 then UNKNOWN else clst - 1
  }

  /** One call of an allocator, or one deletion; mark is what an end mark reads as. */
  ghost function Step(s: Fs, op: Op, mark: nat): Fs
    requires SoundFs(s)
  {
    var t, n := s.table, |s.files|;
    match op
    case Create => Created(s, mark)
    case Stretch(f) => if f < n then Stretched(s, f, mark) else s
    case WriteNew(want) =>
      var scl := NewStart(|t|, s.last);
      BatchIsFree(t, scl, want);
      (match BatchOf(t, scl, want)
       case Take(last, num) => Added(s, last, num, mark)
       case Single(first) => AimedIsSound(s, scl, want); Created(Aimed(s, first), mark)
       case _ => s)
    case Write(f, want) =>
      BatchIsFree(t, s.last, want);
      if f < n then
        match BatchOf(t, s.last, want)
        case Take(last, num) => Grown(s, f, last, num, mark)
        case Single(first) => AimedIsSound(s, s.last, want); Stretched(Aimed(s, first), f, mark)
        case _ => s
      else s
    case Delete(f) =>
      if f < n then
        InTable(t, s.files[f]);
        var clst := s.files[f][0];
        Fs(Remove(t, clst).table, Reuse(clst), s.files[..f] + s.files[f + 1..])
      else s
    case DeleteEmpty => s.(last := Reuse(0))
  }

  // ---------------------------------------------------------------------
  // Every step keeps the files sound and loses no cluster
  // ---------------------------------------------------------------------

  lemma ChainStays(t: Table, t': Table, cs: seq<nat>)
    requires Chain(t, cs) && |t'| == |t| && forall d :: d in cs ==> t'[d] == t[d]
    ensures Chain(t', cs)
  {
    forall i | 0 <= i < |cs|
      ensures t'[cs[i]] == t[cs[i]]
    {
      assert cs[i] in cs;
    }
  }

  lemma RunInTable(t: Table, last: nat, num: nat)
    requires FreeRun(t, last, num)
    ensures num <= last < |t| && (num >= 1 ==> IsFree(t, last))
  {
  }

  /** A chain that does not end in clst is not touched by the run linked behind clst. */
  lemma ChainIsApart(t: Table, cs: seq<nat>, clst: nat, last: nat, num: nat, mark: nat)
    requires Chain(t, cs) && FreeRun(t, last, num) && clst < |t| && clst !in cs
    ensures Chain(Appended(t, clst, last, num, mark), cs)
    ensures Disjoint(cs, Clusters(last, num)) && Disjoint(Clusters(last, num), cs)
  {
    hide Chain, Linked;
    InTable(t, cs);
    forall d | d in cs
      ensures Appended(t, clst, last, num, mark)[d] == t[d] && d !in Clusters(last, num)
    {
      LinkedAt(t, last, num, mark, d);
      RunMembers(last, num, d);
    }
    ChainStays(t, Appended(t, clst, last, num, mark), cs);
  }

  lemma ZeroIsUnowned(t: Table, files: seq<seq<nat>>, i: nat)
    requires Sound(t, files) && i < |files|
    ensures 0 !in files[i]
  {
    InTable(t, files[i]);
  }

  lemma {:induction false} AddedIsSound(s: Fs, last: nat, num: nat, mark: nat)
    requires SoundFs(s) && FreeRun(s.table, last, num) && num >= 1 && mark >= |s.table|
    ensures var s' := Added(s, last, num, mark); SoundFs(s') && |s'.table| == |s.table|
  {
    hide Chain, Linked, FreeRun;
    RunInTable(s.table, last, num);
    var s', run := Added(s, last, num, mark), Clusters(last, num);
    RunIsChain(s.table, last, num, mark);
    forall i | 0 <= i < |s.files|
      ensures Chain(s'.table, s.files[i]) && Disjoint(s.files[i], run) && Disjoint(run, s.files[i])
    {
      ZeroIsUnowned(s.table, s.files, i);
      ChainIsApart(s.table, s.files[i], 0, last, num, mark);
    }
  }

  lemma {:induction false} GrownIsSound(s: Fs, f: nat, last: nat, num: nat, mark: nat)
    requires SoundFs(s) && FreeRun(s.table, last, num) && num >= 1 && mark >= |s.table| && f < |s.files|
    ensures var s' := Grown(s, f, last, num, mark); SoundFs(s') && |s'.table| == |s.table|
  {
    hide Chain, Linked, FreeRun;
    RunInTable(s.table, last, num);
    var t, cs, run := s.table, s.files[f], Clusters(last, num);
    InTable(t, cs);
    AppendedChain(t, cs, last, num, mark);
    var s' := Grown(s, f, last, num, mark);
    forall i | 0 <= i < |s.files| && i != f
      ensures Chain(s'.table, s.files[i]) && Disjoint(s.files[i], cs + run) && Disjoint(cs + run, s.files[i])
    {
      assert Disjoint(cs, s.files[i]) && Disjoint(s.files[i], cs);
      ChainIsApart(t, s.files[i], Last(cs), last, num, mark);
    }
  }

  lemma DeleteEffect(t: Table, cs: seq<nat>)
    requires Chain(t, cs)
    ensures 2 <= cs[0] && var t' := Remove(t, cs[0]).table;
            |t'| == |t| && FreeCount(t') == FreeCount(t) + |cs|
            && forall d :: 0 <= d < |t| ==> t'[d] == if d in cs then 0 else t[d]
  {
    RemoveWholeChain(t, cs);
    RemoveMeaning(t, cs[0]);
    RemoveFrees(t, cs[0]);
  }

  /** Without the clusters of file f, whatever became of them, the others are sound. */
  lemma OthersStaySound(t: Table, files: seq<seq<nat>>, f: nat, t': Table)
    requires Sound(t, files) && f < |files| && |t'| == |t|
    requires forall d :: 0 <= d < |t| && d !in files[f] ==> t'[d] == t[d]
    ensures Sound(t', files[..f] + files[f + 1..])
  {
    hide Chain;
    var files' := files[..f] + files[f + 1..];
    forall i | 0 <= i < |files'|
      ensures Chain(t', files'[i])
    {
      var i0 := if i < f then i else i + 1;
      assert files'[i] == files[i0] && Disjoint(files[i0], files[f]);
      InTable(t, files[i0]);
      ChainStays(t, t', files[i0]);
    }
  }

  lemma DeletedIsSound(s: Fs, f: nat, mark: nat)
    requires SoundFs(s) && f < |s.files|
    ensures var s' := Step(s, Delete(f), mark); SoundFs(s') && |s'.table| == |s.table|
  {
    hide Chain, Remove;
    InTable(s.table, s.files[f]);
    DeleteEffect(s.table, s.files[f]);
    OthersStaySound(s.table, s.files, f, Remove(s.table, s.files[f][0]).table);
  }

  /** What is lost in s' was lost in s already. */
  ghost predicate LosesNothing(s: Fs, s': Fs) {
    forall d :: Lost(s'.table, s'.files, d) ==> Lost(s.table, s.files, d)
  }

  lemma AddedLosesNothing(s: Fs, last: nat, num: nat, mark: nat)
    requires FreeRun(s.table, last, num)
    ensures LosesNothing(s, Added(s, last, num, mark))
  {
    hide Linked, FreeRun;
    RunInTable(s.table, last, num);
    var s', n := Added(s, last, num, mark), |s.files|;
    forall d | Lost(s'.table, s'.files, d)
      ensures Lost(s.table, s.files, d)
    {
      LinkedAt(s.table, last, num, mark, d);
      RunMembers(last, num, d);
      assert d !in s'.files[n];
      OwnedStays(s.files, s'.files, d);
    }
  }

  /** Files that have only grown, or been added, own what they owned. */
  lemma OwnedStays(files: seq<seq<nat>>, files': seq<seq<nat>>, d: nat)
    requires |files| <= |files'| && forall i :: 0 <= i < |files| ==> files[i] <= files'[i]
    ensures Owned(files, d) ==> Owned(files', d)
  {
    if i :| 0 <= i < |files| && d in files[i] {
      assert d in files'[i];
    }
  }

  lemma GrownLosesNothing(s: Fs, f: nat, last: nat, num: nat, mark: nat)
    requires SoundFs(s) && FreeRun(s.table, last, num) && f < |s.files|
    ensures LosesNothing(s, Grown(s, f, last, num, mark))
  {
    hide Linked, FreeRun, Chain;
    RunInTable(s.table, last, num);
    InTable(s.table, s.files[f]);
    var s' := Grown(s, f, last, num, mark);
    forall d | Lost(s'.table, s'.files, d)
      ensures Lost(s.table, s.files, d)
    {
      LinkedAt(s.table, last, num, mark, d);
      RunMembers(last, num, d);
      assert d !in s'.files[f];
      OwnedStays(s.files, s'.files, d);
    }
  }

  /** Removing file f from the files leaves without an owner only what f owned. */
  lemma OwnedByOthers(files: seq<seq<nat>>, f: nat, d: nat)
    requires f < |files| && d !in files[f]
    ensures Owned(files, d) ==> Owned(files[..f] + files[f + 1..], d)
  {
    if i :| 0 <= i < |files| && d in files[i] {
      var files' := files[..f] + files[f + 1..];
      assert files'[if i < f then i else i - 1] == files[i];
    }
  }

  lemma DeletedLosesNothing(s: Fs, f: nat, mark: nat)
    requires SoundFs(s) && f < |s.files|
    ensures LosesNothing(s, Step(s, Delete(f), mark))
  {
    hide Chain, Remove, Owned;
    InTable(s.table, s.files[f]);
    DeleteEffect(s.table, s.files[f]);
    var s' := Step(s, Delete(f), mark);
    forall d | Lost(s'.table, s'.files, d)
      ensures Lost(s.table, s.files, d)
    {
      OwnedByOthers(s.files, f, d);
    }
  }

  // ---------------------------------------------------------------------
  // Every step conserves the clusters
  // ---------------------------------------------------------------------

  function Total(files: seq<seq<nat>>): nat {
    if files == [] then 0 else |files[0]| + Total(files[1..])
  }

  /** The free clusters and those that belong to files. */
  function Accounted(s: Fs): nat {
    FreeCount(s.table) + Total(s.files)
  }

  lemma {:induction false} TotalAppend(a: seq<seq<nat>>, b: seq<seq<nat>>)
    ensures Total(a + b) == Total(a) + Total(b)
  {
    if a == [] {
      assert a + b == b;
    } else {
      assert (a + b)[1..] == a[1..] + b;
      TotalAppend(a[1..], b);
    }
  }

  lemma TotalAt(files: seq<seq<nat>>, f: nat)
    requires f < |files|
    ensures Total(files) == Total(files[..f]) + |files[f]| + Total(files[f + 1..])
  {
    assert files == files[..f] + files[f..];
    TotalAppend(files[..f], files[f..]);
  }

  lemma AddedConserves(s: Fs, last: nat, num: nat, mark: nat)
    requires FreeRun(s.table, last, num) && mark >= |s.table|
    ensures Accounted(Added(s, last, num, mark)) == Accounted(s)
  {
    hide Linked, FreeRun, FreeCount;
    RunInTable(s.table, last, num);
    AppendedFree(s.table, 0, last, num, mark);
    TotalAppend(s.files, [Clusters(last, num)]);
  }

  lemma GrownConserves(s: Fs, f: nat, last: nat, num: nat, mark: nat)
    requires SoundFs(s) && FreeRun(s.table, last, num) && num >= 1 && mark >= |s.table| && f < |s.files|
    ensures Accounted(Grown(s, f, last, num, mark)) == Accounted(s)
  {
    hide Linked, FreeRun, FreeCount, Chain;
    RunInTable(s.table, last, num);
    InTable(s.table, s.files[f]);
    AppendedFree(s.table, Last(s.files[f]), last, num, mark);
    var files' := Grown(s, f, last, num, mark).files;
    TotalAt(s.files, f);
    TotalAt(files', f);
    assert files'[..f] == s.files[..f] && files'[f + 1..] == s.files[f + 1..];
  }

  lemma DeletedConserves(s: Fs, f: nat, mark: nat)
    requires SoundFs(s) && f < |s.files|
    ensures Accounted(Step(s, Delete(f), mark)) == Accounted(s)
  {
    hide Chain, Remove, FreeCount;
    InTable(s.table, s.files[f]);
    DeleteEffect(s.table, s.files[f]);
    TotalAt(s.files, f);
    TotalAppend(s.files[..f], s.files[f + 1..]);
  }

  // ---------------------------------------------------------------------
  // Whole runs
  // ---------------------------------------------------------------------

  ghost predicate Kept(s: Fs, s': Fs) {
    SoundFs(s') && |s'.table| == |s.table| && LosesNothing(s, s') && Accounted(s') == Accounted(s)
  }

  lemma AddedIsKept(s: Fs, last: nat, num: nat, mark: nat)
    requires SoundFs(s) && FreeRun(s.table, last, num) && num >= 1 && mark >= |s.table|
    ensures Kept(s, Added(s, last, num, mark))
  {
    hide SoundFs, FreeRun, LosesNothing, Accounted, Appended;
    AddedIsSound(s, last, num, mark);
    AddedLosesNothing(s, last, num, mark);
    AddedConserves(s, last, num, mark);
  }

  lemma GrownIsKept(s: Fs, f: nat, last: nat, num: nat, mark: nat)
    requires SoundFs(s) && FreeRun(s.table, last, num) && num >= 1 && mark >= |s.table| && f < |s.files|
    ensures Kept(s, Grown(s, f, last, num, mark))
  {
    hide SoundFs, FreeRun, LosesNothing, Accounted, Appended;
    GrownIsSound(s, f, last, num, mark);
    GrownLosesNothing(s, f, last, num, mark);
    GrownConserves(s, f, last, num, mark);
  }

  lemma CreatedIsKept(s: Fs, mark: nat)
    requires SoundFs(s) && mark >= |s.table|
    ensures Kept(s, Created(s, mark))
  {
    hide Sound, Outcome, FreeRun, Accounted, Lost;
    var scl := NewStart(|s.table|, s.last);
    FoundIsFree(s.table, scl);
    if Outcome(s.table, scl).Found? {
      AddedIsKept(s, Outcome(s.table, scl).ncl, 1, mark);
    }
  }

  lemma StretchedIsKept(s: Fs, f: nat, mark: nat)
    requires SoundFs(s) && mark >= |s.table| && f < |s.files|
    ensures Kept(s, Stretched(s, f, mark))
  {
    hide Sound, Outcome, FreeRun, Accounted, Lost;
    FoundIsFree(s.table, s.last);
    if Outcome(s.table, s.last).Found? {
      GrownIsKept(s, f, Outcome(s.table, s.last).ncl, 1, mark);
    }
  }

  lemma DeletedIsKept(s: Fs, f: nat, mark: nat)
    requires SoundFs(s) && f < |s.files|
    ensures Kept(s, Step(s, Delete(f), mark))
  {
    hide SoundFs, LosesNothing, Accounted, Step;
    DeletedIsSound(s, f, mark);
    DeletedLosesNothing(s, f, mark);
    DeletedConserves(s, f, mark);
  }

  lemma AimedIsKept(s: Fs, scl: nat, want: nat)
    requires SoundFs(s) && BatchOf(s.table, scl, want).Single?
    ensures Kept(s, Aimed(s, BatchOf(s.table, scl, want).firstIdle))
  {
    AimedIsSound(s, scl, want);
  }

  lemma LastIsKept(s: Fs, last: nat)
    requires SoundFs(s) && last <= UNKNOWN
    ensures Kept(s, s.(last := last))
  {
  }

  lemma {:induction false} StepIsKept(s: Fs, op: Op, mark: nat)
    requires SoundFs(s) && mark >= |s.table|
    ensures Kept(s, Step(s, op, mark))
  {
    hide Sound, Remove, Appended, Outcome, BatchOf, FreeRun, Accounted, Lost;
    var t := s.table;
    match op
    case Create => CreatedIsKept(s, mark);
    case Stretch(f) => if f < |s.files| { StretchedIsKept(s, f, mark); }
    case WriteNew(want) =>
      var scl := NewStart(|t|, s.last);
      BatchIsFree(t, scl, want);
      match BatchOf(t, scl, want) {
        case Take(last, num) => AddedIsKept(s, last, num, mark);
        case Single(first) =>
          AimedIsKept(s, scl, want);
          CreatedIsKept(Aimed(s, first), mark);
        case _ =>
      }
    case Write(f, want) =>
      BatchIsFree(t, s.last, want);
      if f < |s.files| {
        match BatchOf(t, s.last, want) {
          case Take(last, num) => GrownIsKept(s, f, last, num, mark);
          case Single(first) =>
            AimedIsKept(s, s.last, want);
            StretchedIsKept(Aimed(s, first), f, mark);
          case _ =>
        }
      }
    case Delete(f) => if f < |s.files| { DeletedIsKept(s, f, mark); }
    case DeleteEmpty => LastIsKept(s, Reuse(0));
  }

  ghost function Run(s: Fs, ops: seq<Op>, mark: nat): Fs
    requires SoundFs(s) && mark >= |s.table|
    decreases |ops|
  {
    if ops == [] then s
    else
      StepIsKept(s, ops[0], mark);
      Run(Step(s, ops[0], mark), ops[1..], mark)
  }

  /** Over every run of creations, stretchings, writes and deletions: files stay sound
      chains without a shared or a lost cluster, and free and used clusters add up to the
      same number. */
  lemma {:induction false} RunKeepsFiles(s: Fs, ops: seq<Op>, mark: nat)
    requires Consistent(s) && mark >= |s.table|
    ensures var s' := Run(s, ops, mark);
            && Consistent(s') && |s'.table| == |s.table|
            && FreeCount(s'.table) + Total(s'.files) == FreeCount(s.table) + Total(s.files)
    decreases |ops|
  {
    hide Sound, Lost, FreeCount, Total, Step;
    if ops != [] {
      StepIsKept(s, ops[0], mark);
      RunKeepsFiles(Step(s, ops[0], mark), ops[1..], mark);
    }
  }
}
