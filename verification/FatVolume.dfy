/** get_fat, put_fat, remove_chain and create_chain as code, over the bytes of the
    allocation table and a disk that may fail at any access. */
module FatVolume {
  import opened Bytes
  import opened FieldCodec
  import opened FatTable
  import opened FatChain
  import opened FatLinks

  /** The free count after k increments, which stop at the unknown mark. */
  function Bumped(freeClust: nat, k: nat): nat {
    if freeClust + k <= UNKNOWN then freeClust + k else UNKNOWN
  }

  function SearchCode(s: Search): nat {
    match s
    case Found(ncl) => ncl
    case Full => 0
    case Corrupt => 1
    case Running(_) => UNKNOWN
  }

  /** What an undisturbed search answers, read off the table: 0 exactly if the start is inside
      the table and no entry is free or invalid; 1 exactly from 0 or the mark for unknown, or
      if the first of those entries in cyclic order is invalid; otherwise that entry. */
  ghost predicate SearchAnswers(t: Table, scl: nat, r: nat) {
    && (r == 0 <==> 1 <= scl < |t| && forall x :: 2 <= x < |t| ==> t[x] >= 2)
    && (r == 1 <==> scl == 0 || scl == UNKNOWN || exists k :: FirstStop(t, scl, k) && t[Turn(|t|, scl, k)] == 1)
    && (r > 1 ==> 1 <= scl < UNKNOWN && 2 <= r < |t| && exists k :: FirstStop(t, scl, k) && r == Turn(|t|, scl, k))
  }

  lemma OneFirstStop(t: Table, scl: nat, k: nat, k': nat)
    requires FirstStop(t, scl, k) && FirstStop(t, scl, k')
    ensures k == k'
  {
  }

  lemma FirstStopIs(t: Table, scl: nat, k: nat)
    requires scl >= 1 && FirstStop(t, scl, k)
    ensures 2 <= Turn(|t|, scl, k) < |t| && t[Turn(|t|, scl, k)] < 2 && !NothingStops(t)
  {
    TurnInRange(|t|, scl, k);
  }

  lemma SearchMeaning(t: Table, scl: nat)
    requires |t| < UNKNOWN && scl <= UNKNOWN && !Outcome(t, scl).Running?
    ensures SearchAnswers(t, scl, SearchCode(Outcome(t, scl)))
  {
    hide Outcome, FirstStop, Turn;
    SearchNeverEndsIff(t, scl);
    SearchFullIff(t, scl);
    if scl == 0 || scl == UNKNOWN {
      BadStartIsCorrupt(t, scl);
    } else if NothingStops(t) {
      forall k | FirstStop(t, scl, k)
        ensures false
      {
        FirstStopIs(t, scl, k);
      }
      forall x | 2 <= x < |t|
        ensures t[x] >= 2
      {
        assert !Stops(t, x);
      }
    } else {
      var x :| 2 <= x < |t| && Stops(t, x);
      var k := TurnCovers(|t|, scl, x);
      var first := FirstStopExists(t, scl, k);
      FirstStopIs(t, scl, first);
      SearchStopsAt(t, scl, first);
      forall j | FirstStop(t, scl, j)
        ensures j == first
      {
        OneFirstStop(t, scl, j, first);
      }
    }
  }

  function ErrorCode(res: Result): nat {
    if res == DiskErr then UNKNOWN else 1
  }

  /** The free count after one decrement, with the wrap-around of a uint32_t. */
  function Decremented(freeClust: nat): nat {
    if freeClust == UNKNOWN || freeClust == 0 then UNKNOWN else freeClust - 1
  }

  /** The part of FATFS that allocation works on. `fat` is the table as the sector window
      stands for it; access number m to it works if disk(m), and `moves` accesses have been
      made. Hypothesis of everything said here about a failing disk: an access that fails
      leaves the table as it was. FatWindow proves it of the window for every write that
      fails, and for a read exactly if its failure is harmless; FatBuffers shows what the
      others do. */
  class Volume {
    const fsType: FatType
    const sectorSize: nat
    const nFatent: nat
    const disk: nat -> bool
    const fat: array<Byte>
    var moves: nat
    var lastClust: nat
    var freeClust: nat
    var fsiFlag: bool

    ghost predicate Valid()
      reads this, fat
    {
      && sectorSize > 0 && sectorSize % 4 == 0
      && 3 <= nFatent <= Limit(fsType)
      && HoldsAll(fat[..], fsType, nFatent)
      && lastClust <= UNKNOWN && freeClust <= UNKNOWN
    }

    ghost function Table(): Table
      requires Valid()
      reads this, fat
    {
      Links(fat[..], fsType, nFatent)
    }

    /** Some access to the disk failed between these two moments. */
    ghost predicate DiskFailed(from: nat, to: nat) {
      exists m :: from <= m < to && !disk(m)
    }

    constructor (fsType: FatType, sectorSize: nat, nFatent: nat, disk: nat -> bool, fat: array<Byte>,
        lastClust: nat, freeClust: nat)
      requires sectorSize > 0 && sectorSize % 4 == 0 && 3 <= nFatent <= Limit(fsType)
      requires HoldsAll(fat[..], fsType, nFatent) && lastClust <= UNKNOWN && freeClust <= UNKNOWN
      ensures Valid() && this.fat == fat && this.fsType == fsType && this.nFatent == nFatent
      ensures this.disk == disk && moves == 0 && this.lastClust == lastClust && this.freeClust == freeClust
    {
      this.fsType, this.sectorSize, this.nFatent, this.disk, this.fat := fsType, sectorSize, nFatent, disk, fat;
      this.moves, this.lastClust, this.freeClust, this.fsiFlag := 0, lastClust, freeClust, false;
    }

    /** move_window: bring a sector of the table into the window, if the disk lets us; if not,
        under the hypothesis above, nothing happens. */
    method MoveWindow(sector: nat) returns (ok: bool)
      modifies this`moves
      ensures ok == disk(old(moves)) && moves == old(moves) + 1
    {
      ok := disk(moves);
      moves := moves + 1;
    }

    lemma NoFailure(from: nat, to: nat)
      requires from <= to
      ensures !DiskFailed(from, from)
      ensures DiskFailed(from, to + 1) <==> DiskFailed(from, to) || !disk(to)
    {
      if !disk(to) {
        assert DiskFailed(from, to + 1);
      }
    }

    /** The number of accesses behind one read of an entry that starts at access m. */
    ghost function AfterRead(m: nat): nat {
      if fsType.Fat12? && disk(m) then m + 2 else m + 1
    }

    /** The number of accesses behind k reads that all work. */
    ghost function Reads(k: nat): nat {
      if fsType.Fat12? then 2 * k else k
    }

    lemma ReadsAll(m: nat)
      ensures m < AfterRead(m) <= m + Reads(1)
      ensures !DiskFailed(m, AfterRead(m)) ==> AfterRead(m) == m + Reads(1)
      ensures DiskFailed(m, AfterRead(m)) <==> DiskFailed(m, m + Reads(1))
    {
      NoFailure(m, m);
      NoFailure(m, m + 1);
    }

    lemma FailureSplits(from: nat, mid: nat, to: nat)
      requires from <= mid <= to
      ensures DiskFailed(from, to) <==> DiskFailed(from, mid) || DiskFailed(mid, to)
    {
      if m: nat :| from <= m < to && !disk(m) {
        assert if m < mid then DiskFailed(from, mid) else DiskFailed(mid, to);
      }
    }

    lemma FailureReaches(from: nat, to: nat, beyond: nat)
      requires to <= beyond && DiskFailed(from, to)
      ensures DiskFailed(from, beyond)
    {
    }

    /** The byte bc of the table, brought into the window. */
    method FetchByte(bc: nat) returns (ok: bool, p: nat)
      requires sectorSize > 0
      modifies this`moves
      ensures ok == disk(old(moves)) && moves == old(moves) + 1 && p == bc
    {
      ok := MoveWindow(bc / sectorSize);
      p := InWindow(bc / sectorSize, bc % sectorSize, sectorSize);
      WindowOfByte(bc, sectorSize);
    }

    /** The first byte of a two-byte entry, brought into the window. */
    method FetchWord(c: nat) returns (ok: bool, p: nat)
      requires sectorSize > 0 && sectorSize % 4 == 0
      modifies this`moves
      ensures ok == disk(old(moves)) && moves == old(moves) + 1 && p == 2 * c
    {
      hide InWindow;
      ok := MoveWindow(c / (sectorSize / 2));
      p := InWindow(c / (sectorSize / 2), c * 2 % sectorSize, sectorSize);
      WindowOfWord(c, sectorSize);
    }

    /** The first byte of a four-byte entry, brought into the window. */
    method FetchDword(c: nat) returns (ok: bool, p: nat)
      requires sectorSize > 0 && sectorSize % 4 == 0
      modifies this`moves
      ensures ok == disk(old(moves)) && moves == old(moves) + 1 && p == 4 * c
    {
      hide InWindow;
      ok := MoveWindow(c / (sectorSize / 4));
      p := InWindow(c / (sectorSize / 4), c * 4 % sectorSize, sectorSize);
      WindowOfDword(c, sectorSize);
    }

    method GetFat12(clst: nat) returns (r: nat)
      requires Valid() && fsType.Fat12? && 2 <= clst < nFatent
      modifies this`moves
      ensures moves == AfterRead(old(moves)) && Holds(fat[..], fsType, clst)
      ensures r == if DiskFailed(old(moves), moves) then UNKNOWN else Link(fat[..], fsType, clst)
    {
      hide Num, Entry12, Links;
      HoldsEach(fat[..], fsType, nFatent, clst);
      NoFailure(moves, moves);
      NoFailure(moves, moves + 1);
      var ok, p := FetchByte(clst + clst / 2);
      if !ok {
        return UNKNOWN;
      }
      var b0 := fat[p];
      ok, p := FetchByte(clst + clst / 2 + 1);
      if !ok {
        return UNKNOWN;
      }
      return Num(Entry12(b0, fat[p], clst % 2 == 1));
    }

    method GetFat16(clst: nat) returns (r: nat)
      requires Valid() && fsType.Fat16? && 2 <= clst < nFatent
      modifies this`moves
      ensures moves == AfterRead(old(moves)) && Holds(fat[..], fsType, clst)
      ensures r == if DiskFailed(old(moves), moves) then UNKNOWN else Link(fat[..], fsType, clst)
    {
      hide Num, LoadWord, Links;
      HoldsEach(fat[..], fsType, nFatent, clst);
      NoFailure(moves, moves);
      var ok, p := FetchWord(clst);
      if !ok {
        return UNKNOWN;
      }
      return Num(LoadWord(fat[..], p) as bv32);
    }

    method GetFat32(clst: nat) returns (r: nat)
      requires Valid() && fsType.Fat32? && 2 <= clst < nFatent
      modifies this`moves
      ensures moves == AfterRead(old(moves)) && Holds(fat[..], fsType, clst)
      ensures r == if DiskFailed(old(moves), moves) then UNKNOWN else Link(fat[..], fsType, clst)
    {
      hide Num, LoadDword, Low28, Links;
      HoldsEach(fat[..], fsType, nFatent, clst);
      NoFailure(moves, moves);
      var ok, p := FetchDword(clst);
      if !ok {
        return UNKNOWN;
      }
      return Num(Low28(LoadDword(fat[..], p)));
    }

    /** get_fat: 1 for an index that is no cluster, all ones when the disk failed. */
    method GetFat(clst: nat) returns (r: nat)
      requires Valid()
      modifies this`moves
      ensures Valid()
      ensures clst < 2 || clst >= nFatent ==> r == 1 && moves == old(moves)
      ensures 2 <= clst < nFatent ==> moves == AfterRead(old(moves))
      ensures 2 <= clst < nFatent ==> Table()[clst] < UNKNOWN
      ensures 2 <= clst < nFatent ==> r == if DiskFailed(old(moves), moves) then UNKNOWN else Table()[clst]
    {
      hide Link;
      if clst < 2 || clst >= nFatent {
        return 1;
      }
      HoldsEach(fat[..], fsType, nFatent, clst);
      LinkBound(fat[..], fsType, clst);
      match fsType {
        case Fat12 => r := GetFat12(clst);
        case Fat16 => r := GetFat16(clst);
        case Fat32 => r := GetFat32(clst);
      }
    }

    method PutFat12(clst: nat, val: bv32) returns (ok: bool)
      requires Valid() && fsType.Fat12? && 2 <= clst < nFatent
      modifies this`moves, fat
      ensures moves == AfterRead(old(moves)) && Holds(old(fat[..]), fsType, clst)
      ensures ok == !DiskFailed(old(moves), moves)
      ensures ok ==> fat[..] == Updated(old(fat[..]), fsType, clst, val)
      ensures !ok ==>
                fat[..] == if disk(old(moves)) then HalfUpdated(old(fat[..]), clst, val) else old(fat[..])
    {
      hide First12, Second12, Links;
      HoldsEach(fat[..], fsType, nFatent, clst);
      NoFailure(moves, moves);
      NoFailure(moves, moves + 1);
      var p: nat;
      ok, p := FetchByte(clst + clst / 2);
      if !ok {
        return;
      }
      fat[p] := First12(fat[p], val, clst % 2 == 1);
      ok, p := FetchByte(clst + clst / 2 + 1);
      if !ok {
        return;
      }
      fat[p] := Second12(fat[p], val, clst % 2 == 1);
    }

    method PutFat16(clst: nat, val: bv32) returns (ok: bool)
      requires Valid() && fsType.Fat16? && 2 <= clst < nFatent
      modifies this`moves, fat
      ensures moves == AfterRead(old(moves)) && Holds(old(fat[..]), fsType, clst)
      ensures ok == !DiskFailed(old(moves), moves)
      ensures fat[..] == if ok then Updated(old(fat[..]), fsType, clst, val) else old(fat[..])
    {
      hide Low16, Apply, Links;
      HoldsEach(fat[..], fsType, nFatent, clst);
      NoFailure(moves, moves);
      var p: nat;
      ok, p := FetchWord(clst);
      if !ok {
        return;
      }
      StWord(fat, p, Low16(val));
    }

    method PutFat32(clst: nat, val: bv32) returns (ok: bool)
      requires Valid() && fsType.Fat32? && 2 <= clst < nFatent
      modifies this`moves, fat
      ensures moves == AfterRead(old(moves)) && Holds(old(fat[..]), fsType, clst)
      ensures ok == !DiskFailed(old(moves), moves)
      ensures fat[..] == if ok then Updated(old(fat[..]), fsType, clst, val) else old(fat[..])
    {
      hide Merge, LoadDword, Apply, Links;
      HoldsEach(fat[..], fsType, nFatent, clst);
      NoFailure(moves, moves);
      var p: nat;
      ok, p := FetchDword(clst);
      if !ok {
        return;
      }
      StDword(fat, p, Merge(val, LoadDword(fat[..], p)));
    }

    /** The table when put_fat failed between the two bytes of a FAT12 entry. */
    ghost function HalfPut(t: Table, clst: nat, val: nat): (t': Table)
      requires clst < |t|
      ensures |t'| == |t|
    {
      t[clst := HalfLink(t[clst], Num(Cut(Fat12, Bits(val))), clst % 2 == 1)]
    }

    /** The table when put_fat, begun at access m, has failed: nothing is written, unless
        the first byte of a FAT12 entry was and the access to the second one failed. */
    ghost function PutCut(t: Table, clst: nat, val: nat, m: nat): (t': Table)
      requires clst < |t|
      ensures |t'| == |t|
    {
      if fsType.Fat12? && disk(m) then HalfPut(t, clst, val) else t
    }

    /** put_fat as an assignment in the table of links; no other link ever changes, and
        only a FAT12 entry can be left half written. */
    method PutFat(clst: nat, val: nat) returns (res: Result)
      requires Valid() && val <= UNKNOWN
      modifies this`moves, fat
      ensures Valid()
      ensures clst < 2 || clst >= nFatent ==> res == IntErr && fat[..] == old(fat[..]) && moves == old(moves)
      ensures 2 <= clst < nFatent ==> moves == AfterRead(old(moves))
      ensures 2 <= clst < nFatent ==> res == if DiskFailed(old(moves), moves) then DiskErr else Ok
      ensures res == Ok ==> clst < nFatent && Table() == old(Table())[clst := Num(Cut(fsType, Bits(val)))]
      ensures res == DiskErr ==>
                clst < nFatent && Table() == PutCut(old(Table()), clst, val, old(moves))
      ensures forall d :: 0 <= d < nFatent && d != clst ==> Table()[d] == old(Table())[d]
    {
      if clst < 2 || clst >= nFatent {
        return IntErr;
      }
      hide Num, Bits, Cut, Updated, HalfUpdated, Links, HalfLink;
      ghost var before := fat[..];
      LinksUpdated(before, fsType, nFatent, clst, val);
      if fsType.Fat12? {
        LinksHalfUpdated(before, nFatent, clst, val);
      }
      var ok;
      match fsType {
        case Fat12 => ok := PutFat12(clst, Bits(val));
        case Fat16 => ok := PutFat16(clst, Bits(val));
        case Fat32 => ok := PutFat32(clst, Bits(val));
      }
      res := if ok then Ok else DiskErr;
    }

    // -------------------------------------------------------------------
    // remove_chain
    // -------------------------------------------------------------------

    /** The free count is the number of free clusters. */
    ghost predicate Counted()
      requires Valid()
      reads this, fat
    {
      freeClust == FreeCount(Table())
    }

    /** What a disk failure after `made` accesses and `done` freed clusters has done to the
        link of the next one: nothing, unless it was the last access of four on FAT12. */
    ghost predicate Hit(before: Table, c: nat, made: nat, done: nat)
      requires Valid() && |before| == nFatent && c < nFatent
      reads this, fat
    {
      Table()[c] == if fsType.Fat12? && made == 4 * done + 4 then HalfPut(before, c, 0)[c] else before[c]
    }

    /** One round of remove_chain: read the link of c and free c. */
    method FreeOne(c: nat) returns (nxt: nat, res: Result)
      requires Valid() && 2 <= c < nFatent
      modifies this`moves, this`freeClust, this`fsiFlag, fat
      ensures Valid() && moves >= old(moves)
      ensures res == DiskErr <==> DiskFailed(old(moves), moves)
      ensures res != DiskErr ==>
                && nxt == old(Table())[c]
                && res == (if nxt == 1 then IntErr else Ok)
                && Table() == if nxt < 2 then old(Table()) else old(Table())[c := 0]
      ensures res == DiskErr ==>
                Table() == if fsType.Fat12? && moves == old(moves) + 4 then HalfPut(old(Table()), c, 0)
                           else old(Table())
      ensures res == DiskErr && fsType.Fat12? && moves == old(moves) + 4 ==> old(Table())[c] >= 2
      ensures res == Ok && nxt != 0 && fsType.Fat12? ==> moves == old(moves) + 4
      ensures forall d :: 0 <= d < nFatent && d != c ==> Table()[d] == old(Table())[d]
      ensures freeClust == Bumped(old(freeClust), if res == Ok && nxt != 0 then 1 else 0)
      ensures fsiFlag == (old(fsiFlag) || freeClust != old(freeClust))
    {
      hide Links, Link, Cut, Num, Bits;
      nxt := GetFat(c);
      ghost var m := moves;
      if nxt == 0 {
        return nxt, Ok;
      }
      if nxt == 1 {
        return nxt, IntErr;
      }
      if nxt == UNKNOWN {
        return nxt, DiskErr;
      }
      res := PutFat(c, 0);
      FailureSplits(old(moves), m, moves);
      CutZero(fsType);
      if res == Ok && freeClust != UNKNOWN {
        freeClust := freeClust + 1;
        fsiFlag := true;
      }
    }

    /** The loop of remove_chain. */
    method FreeAll(clst: nat) returns (res: Result, ghost done: nat)
      requires Valid() && 2 <= clst < nFatent
      modifies this`moves, this`freeClust, this`fsiFlag, fat
      ensures Valid() && moves >= old(moves) && done <= |Remove(old(Table()), clst).freed|
      ensures FreedSoFar(old(Table()), Remove(old(Table()), clst).freed, done, Table())
      ensures freeClust == Bumped(old(freeClust), done)
      ensures res == DiskErr <==> DiskFailed(old(moves), moves)
      ensures var r := Remove(old(Table()), clst);
              && (done < |r.freed| ==>
                    r.freed[done] < nFatent && Hit(old(Table()), r.freed[done], moves - old(moves), done))
              && (res != DiskErr ==> res == r.result && Table() == r.table && done == |r.freed|)
      ensures fsiFlag == (old(fsiFlag) || freeClust != old(freeClust))
    {
      hide Links, Link, Cut, Num, Bits, Remove, Underway, FreedSoFar, FreeCount, HoldsAll, HalfLink;
      done := 0;
      NoFailure(moves, moves);
      ghost var before := Table();
      var c := clst;
      res := Ok;
      UnderwayFirst(before, clst);
      UnderwayFreed(before, clst, before, c, 0);
      while c < nFatent
        invariant Valid() && c >= 2 && moves >= old(moves) && !DiskFailed(old(moves), moves)
        invariant res == Ok && Underway(before, clst, Table(), c, done)
        invariant fsType.Fat12? ==> moves == old(moves) + 4 * done
        invariant freeClust == Bumped(old(freeClust), done)
        invariant fsiFlag == (old(fsiFlag) || freeClust != old(freeClust))
        decreases nFatent - FreeCount(Table())
      {
        ghost var t, m := Table(), moves;
        UnderwayFreed(before, clst, t, c, done);
        var nxt;
        nxt, res := FreeOne(c);
        FailureSplits(old(moves), m, moves);
        if res == DiskErr {
          if t != Table() {
            HalfFreed(before, clst, t, c, done, Table());
          }
          return;
        }
        if res != Ok || nxt == 0 {
          break;
        }
        UnderwayNext(before, clst, t, c, done);
        done := done + 1;
        c := nxt;
      }
      UnderwayLast(before, clst, Table(), c, done);
      UnderwayFreed(before, clst, Table(), c, done);
    }

    method RemoveChain(clst: nat) returns (res: Result, ghost done: nat)
      requires Valid()
      modifies this`moves, this`freeClust, this`fsiFlag, fat
      ensures Valid() && moves >= old(moves)
      ensures clst < 2 || clst >= nFatent
              ==> res == IntErr && done == 0 && fat[..] == old(fat[..]) && freeClust == old(freeClust)
      ensures 2 <= clst < nFatent ==>
                var r := Remove(old(Table()), clst);
                && done <= |r.freed|
                && FreedSoFar(old(Table()), r.freed, done, Table())
                && (done < |r.freed| ==>
                      r.freed[done] < nFatent && Hit(old(Table()), r.freed[done], moves - old(moves), done))
                && freeClust == Bumped(old(freeClust), done)
                && res == (if DiskFailed(old(moves), moves) then DiskErr else r.result)
                && (res != DiskErr ==> Table() == r.table && done == |r.freed|)
      ensures fsiFlag == (old(fsiFlag) || freeClust != old(freeClust))
      ensures old(freeClust) == UNKNOWN ==> freeClust == UNKNOWN
      ensures old(Counted()) && res != DiskErr ==> Counted()
    {
      hide Links, Link, Remove, FreedSoFar, HoldsAll, HalfLink, Num, Cut;
      if clst < 2 || clst >= nFatent {
        return IntErr, 0;
      }
      RemoveFrees(Table(), clst);
      res, done := FreeAll(clst);
      FreeBound(Table(), nFatent);
    }

    // -------------------------------------------------------------------
    // create_chain
    // -------------------------------------------------------------------

    /** Some access from here on will fail. */
    ghost predicate FailsLater(from: nat) {
      exists m :: m >= from && !disk(m)
    }

    /** The access behind a search that begins at access m and finds a cluster. */
    ghost function SearchEnd(t: Table, scl: nat, m: nat): nat {
      m + Reads(Rounds(t, scl))
    }

    lemma SearchEndsAt(t: Table, scl: nat, k: nat)
      requires k < |t| && SearchRun(t, scl, k).Running? && !Outcome(t, scl).Running?
      ensures if SearchRun(t, scl, k + 1).Running? then Rounds(t, scl) > k + 1 else Rounds(t, scl) == k + 1
    {
      if !SearchRun(t, scl, k + 1).Running? {
        RoundsAre(t, scl, k, |t|);
      } else {
        RoundsExceed(t, scl, k + 1, |t|);
      }
    }

    /** The search loop: the free cluster found, 0 when the volume is full, 1 for a
        corrupt entry, all ones when the disk failed. */
    method FindFree(scl: nat) returns (r: nat)
      requires Valid() && scl <= UNKNOWN && (Outcome(Table(), scl).Running? ==> FailsLater(moves))
      modifies this`moves
      ensures Valid() && moves >= old(moves)
      ensures r == if DiskFailed(old(moves), moves) then UNKNOWN else SearchCode(Outcome(Table(), scl))
      ensures Outcome(Table(), scl).Found? ==> IsFree(Table(), Outcome(Table(), scl).ncl)
      ensures Outcome(Table(), scl).Found? ==>
                && moves <= SearchEnd(Table(), scl, old(moves))
                && (r != UNKNOWN ==> moves == SearchEnd(Table(), scl, old(moves)))
    {
      hide Links, Link, HoldsAll;
      NoFailure(moves, moves);
      var ncl: nat := scl;
      ghost var k, t := 0, Table();
      ghost var m0 := moves;
      ghost var endless := Outcome(t, scl).Running?;
      ghost var failure: nat;
      if endless {
        failure :| failure >= m0 && !disk(failure);
      }
      SearchSound(t, scl, |t|);
      hide Outcome;
      while true
        invariant Valid() && moves >= m0 && !DiskFailed(m0, moves) && t == Table() && |t| == nFatent
        invariant 0 <= k && ncl <= UNKNOWN && SearchRun(t, scl, k) == Running(ncl)
        invariant moves == m0 + Reads(k)
        invariant if endless then moves <= failure && !disk(failure) else k <= |t|
        decreases if endless then failure - moves else |t| - k
      {
        if endless {
          SearchKeepsOn(t, scl, k);
        } else {
          SearchRound(t, scl, k);
          SearchEndsAt(t, scl, k);
        }
        ReadsAll(moves);
        ncl := if ncl == UNKNOWN then 0 else ncl + 1;
        if ncl >= nFatent {
          ncl := 2;
          if ncl > scl {
            return 0;
          }
        }
        ghost var m := moves;
        var cs := GetFat(ncl);
        FailureSplits(m0, m, moves);
        NoFailure(m, m);
        if cs == 0 {
          return ncl;
        }
        if cs == UNKNOWN || cs == 1 {
          return cs;
        }
        if ncl == scl {
          return 0;
        }
        k := k + 1;
      }
    }

    /** Where a disk failure has left the linking of ncl behind clst that began at access
        m: before or inside the mark of ncl, or before or inside the link of clst. */
    ghost function LinkCut(t: Table, clst: nat, ncl: nat, m: nat): (t': Table)
      requires clst < |t| && ncl < |t|
      ensures |t'| == |t|
    {
      if DiskFailed(m, AfterRead(m)) then PutCut(t, ncl, LAST_LINK, m)
      else PutCut(t[ncl := Mark()], clst, ncl, AfterRead(m))
    }

    /** The access behind a linking that begins at access m and works. */
    ghost function LinkEnd(clst: nat, m: nat): nat {
      m + Reads(if clst == 0 then 1 else 2)
    }

    /** The end of create_chain: mark ncl as a last cluster, then link clst to it. */
    method LinkCluster(clst: nat, ncl: nat) returns (r: nat)
      requires Valid() && 2 <= ncl < nFatent && (clst == 0 || 2 <= clst < nFatent)
      modifies this`moves, this`lastClust, this`freeClust, this`fsiFlag, fat
      ensures Valid() && moves >= old(moves)
      ensures r == if DiskFailed(old(moves), moves) then UNKNOWN else ncl
      ensures r == ncl ==>
                && Table() == Extended(old(Table()), clst, ncl, Mark())
                && lastClust == ncl && freeClust == Decremented(old(freeClust))
      ensures r == UNKNOWN ==>
                && lastClust == old(lastClust) && freeClust == old(freeClust)
                && Table() == LinkCut(old(Table()), clst, ncl, old(moves))
      ensures forall d :: 0 <= d < nFatent && (clst == 0 || d != clst) && d != ncl ==> Table()[d] == old(Table())[d]
      ensures moves <= LinkEnd(clst, old(moves)) && (r == ncl ==> moves == LinkEnd(clst, old(moves)))
      ensures fsiFlag == (old(fsiFlag) || freeClust != old(freeClust))
    {
      hide Links, Link, Cut, Num, Bits, HoldsAll, HalfLink;
      CutValue(fsType, ncl);
      NoFailure(moves, moves);
      ReadsAll(moves);
      var res := PutFat(ncl, LAST_LINK);
      if res == Ok && clst != 0 {
        ghost var m := moves;
        ReadsAll(m);
        res := PutFat(clst, ncl);
        FailureSplits(old(moves), m, moves);
      }
      if res == Ok {
        lastClust := ncl;
        if freeClust != UNKNOWN {
          fsiFlag := true;
          freeClust := if freeClust == 0 then UNKNOWN else freeClust - 1;
        }
        return ncl;
      }
      return ErrorCode(res);
    }

    /** What an end mark reads as on this volume. */
    ghost function Mark(): nat {
      Num(Cut(fsType, Bits(LAST_LINK)))
    }

    /** The access behind create_chain when its search, begun at access m, finds a cluster
        and the disk works. */
    ghost function CreateEnd(t: Table, clst: nat, scl: nat, m: nat): nat {
      LinkEnd(clst, SearchEnd(t, scl, m))
    }

    /** The same for create_chain from the search on, which began at access m. */
    ghost function CreateCut(t: Table, clst: nat, scl: nat, m: nat): (t': Table)
      requires clst < |t|
      ensures |t'| == |t|
    {
      var o := Outcome(t, scl);
      SearchSound(t, scl, |t|);
      if !o.Found? || DiskFailed(m, SearchEnd(t, scl, m)) then t
      else LinkCut(t, clst, o.ncl, SearchEnd(t, scl, m))
    }

    /** What the search from scl, begun at access m, and the linking behind it, did to the table. */
    ghost predicate Created(t: Table, clst: nat, scl: nat, r: nat, m: nat, wasLast: nat, wasFree: nat)
      requires Valid() && |t| == nFatent && clst < nFatent
      reads this, fat
    {
      var o := Outcome(t, scl);
      && (r == UNKNOWN || !o.Found? ==> lastClust == wasLast && freeClust == wasFree)
      && (!o.Found? ==> Table() == t)
      && (forall d :: 0 <= d < nFatent && (clst == 0 || d != clst) && o != Found(d) ==> Table()[d] == t[d])
      && (o.Found? ==> IsFree(t, o.ncl))
      && (r == UNKNOWN ==> Table() == CreateCut(t, clst, scl, m))
      && (o.Found? ==> moves <= CreateEnd(t, clst, scl, m) && (r != UNKNOWN ==> moves == CreateEnd(t, clst, scl, m)))
      && (o.Found? && r != UNKNOWN ==>
            && Table() == Extended(t, clst, o.ncl, Mark())
            && lastClust == o.ncl && freeClust == Decremented(wasFree))
    }

    /** create_chain from the search on. */
    method Allocate(clst: nat, scl: nat) returns (r: nat)
      requires Valid() && scl <= UNKNOWN && (clst == 0 || 2 <= clst < nFatent)
      requires Outcome(Table(), scl).Running? ==> FailsLater(moves)
      modifies this`moves, this`lastClust, this`freeClust, this`fsiFlag, fat
      ensures Valid() && moves >= old(moves)
      ensures r == if DiskFailed(old(moves), moves) then UNKNOWN else SearchCode(Outcome(old(Table()), scl))
      ensures Created(old(Table()), clst, scl, r, old(moves), old(lastClust), old(freeClust))
      ensures fsiFlag == (old(fsiFlag) || freeClust != old(freeClust))
      ensures old(freeClust) == UNKNOWN ==> freeClust == UNKNOWN
      ensures 1 < r != UNKNOWN && old(freeClust) != UNKNOWN ==> (freeClust + 1) % 0x1_0000_0000 == old(freeClust)
      ensures old(Counted()) && r != UNKNOWN && (clst == 0 || old(Table())[clst] != 0) ==> Counted()
    {
      hide Links, Link, HoldsAll, Outcome, Extended, FreeCount, LinkCut, Num, Cut, Bits;
      ghost var t := Table();
      r := FindFree(scl);
      ghost var m := moves;
      if r < 2 || r == UNKNOWN {
        return;
      }
      if clst == 0 || t[clst] != 0 {
        CutLastLink(fsType);
        ExtendedFree(t, clst, r, Mark());
      }
      r := LinkCluster(clst, r);
      FailureSplits(old(moves), m, moves);
    }

    /** Where the search begins; a new chain distrusts a suggestion outside the table,
        a stretched one does not. */
    ghost function Start(clst: nat): nat
      reads this
    {
      StartFrom(clst, lastClust)
    }

    ghost function StartFrom(clst: nat, last: nat): nat {
      if clst == 0 then NewStart(nFatent, last) else last
    }

    /** The search for a new chain ends on every table. */
    lemma NewChainsEnd()
      requires Valid()
      ensures !Outcome(Table(), Start(0)).Running?
    {
      SearchNeverEndsIff(Table(), Start(0));
    }

    /** The first access behind the read of the link of clst. */
    ghost function AfterLook(clst: nat, m: nat): nat {
      if clst == 0 then m else AfterRead(m)
    }

    /** create_chain asks for the end of a chain; a link that is known to go on, or is
        invalid, is the answer already. A failed read counts as an end. */
    ghost predicate Answered(t: Table, clst: nat, m: nat)
      requires |t| == nFatent
    {
      2 <= clst < nFatent && t[clst] < nFatent && !DiskFailed(m, AfterRead(m))
    }

    /** What create_chain did, and returned: the links, the next access, the last cluster
        and the free count were t, m, wasLast and wasFree before. */
    ghost predicate Did(t: Table, clst: nat, m: nat, wasLast: nat, wasFree: nat, r: nat)
      requires Valid() && |t| == nFatent
      reads this, fat
    {
      if clst == 1 || clst >= nFatent || Answered(t, clst, m) then
        && r == (if 2 <= clst < nFatent && t[clst] >= 2 then t[clst] else 1)
        && Table() == t && lastClust == wasLast && freeClust == wasFree
      else
        var o := Outcome(t, StartFrom(clst, wasLast));
        && AfterLook(clst, m) <= moves
        && r == (if DiskFailed(AfterLook(clst, m), moves) then UNKNOWN else SearchCode(o))
        && Created(t, clst, StartFrom(clst, wasLast), r, AfterLook(clst, m), wasLast, wasFree)
    }

    method CreateChain(clst: nat) returns (r: nat)
      requires Valid()
      requires (clst == 0 || 2 <= clst < nFatent) && !Answered(Table(), clst, moves) ==>
                 Outcome(Table(), Start(clst)).Running? ==> FailsLater(AfterLook(clst, moves))
      modifies this`moves, this`lastClust, this`freeClust, this`fsiFlag, fat
      ensures Valid() && moves >= old(moves)
      ensures Did(old(Table()), clst, old(moves), old(lastClust), old(freeClust), r)
      ensures clst == 1 || clst >= nFatent || Answered(old(Table()), clst, old(moves)) ==> fat[..] == old(fat[..])
      ensures clst == 1 || clst >= nFatent ==> r == 1
      ensures Answered(old(Table()), clst, old(moves)) ==>
                r == if old(Table())[clst] >= 2 then old(Table())[clst] else 1
      ensures (clst == 0 || 2 <= clst < nFatent) && !Answered(old(Table()), clst, old(moves)) && r != UNKNOWN ==>
                && SearchAnswers(old(Table()), old(Start(clst)), r)
                && (r > 1 && old(freeClust) != UNKNOWN ==> (freeClust + 1) % 0x1_0000_0000 == old(freeClust))
      ensures fsiFlag == (old(fsiFlag) || freeClust != old(freeClust))
      ensures old(freeClust) == UNKNOWN ==> freeClust == UNKNOWN
      ensures old(Counted()) && r != UNKNOWN && (2 <= clst < nFatent ==> old(Table())[clst] != 0) ==> Counted()
    {
      hide Links, Link, HoldsAll, Outcome, FreeCount, Created, SearchAnswers;
      var scl;
      NoFailure(moves, moves);
      if clst == 0 {
        scl := lastClust;
        if scl == 0 || scl >= nFatent {
          scl := 1;
        }
      } else {
        var cs := GetFat(clst);
        if cs < 2 {
          return 1;
        }
        if cs < nFatent {
          return cs;
        }
        scl := lastClust;
      }
      ghost var t := Table();
      r := Allocate(clst, scl);
      if r != UNKNOWN {
        SearchMeaning(t, scl);
      }
    }
  }
}
