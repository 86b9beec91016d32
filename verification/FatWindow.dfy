/** The sector window of FatFs with its two buffers, and what a read that fails does to it:
    the table of links that it stands for survives exactly the harmless ones. */
module FatWindow {
  import opened Bytes

  type Sector = seq<Byte>

  /** One transfer. A failed read leaves anything in the buffer, a failed write anything on
      the medium (junk2 in the second sector, when two are written). */
  datatype Io = Works | Breaks(junk: Sector, junk2: Sector)

  /** winsectprev, the two buffers, wflag, the buffer that win points to, winsect,
      winlastindex, the medium, and the number of transfers made. */
  datatype Win = Win(labels: seq<nat>, bufs: seq<Sector>, dirty: seq<bool>, win: nat, winsect: nat, last: nat,
                     disk: seq<Sector>, next: nat)

  datatype Done = Done(w: Win, ok: bool)

  ghost predicate Shaped(w: Win, ss: nat) {
    && |w.labels| == 2 && |w.bufs| == 2 && |w.dirty| == 2 && w.win < 2 && w.last < 2 && ss > 0
    && w.labels[0] < |w.disk| && w.labels[1] < |w.disk|
    && |w.bufs[0]| == ss && |w.bufs[1]| == ss
    && forall s :: 0 <= s < |w.disk| ==> |w.disk[s]| == ss
  }

  /** What a sector can hold of it. */
  function Fitted(junk: Sector, ss: nat): (b: Sector)
    ensures |b| == ss && (|junk| == ss ==> b == junk)
  {
    seq(ss, i => if 0 <= i < |junk| then junk[i] else 0)
  }

  // ---------------------------------------------------------------------
  // What the code does
  // ---------------------------------------------------------------------

  /** Buffer i is written to its sector. */
  ghost function WriteBack(w: Win, i: nat, io: nat -> Io, ss: nat): (r: Done)
    requires Shaped(w, ss) && i < 2
    ensures Shaped(r.w, ss) && |r.w.disk| == |w.disk|
  {
    match io(w.next)
    case Works =>
      Done(w.(disk := w.disk[w.labels[i] := w.bufs[i]], dirty := w.dirty[i := false], next := w.next + 1), true)
    case Breaks(junk, _) => Done(w.(disk := w.disk[w.labels[i] := Fitted(junk, ss)], next := w.next + 1), false)
  }

  /** Both are, to sectors that lie next to each other. */
  ghost function WriteBoth(w: Win, io: nat -> Io, ss: nat): (r: Done)
    requires Shaped(w, ss) && w.labels[0] + 1 == w.labels[1]
    ensures Shaped(r.w, ss) && |r.w.disk| == |w.disk|
  {
    match io(w.next)
    case Works =>
      Done(w.(disk := w.disk[w.labels[0] := w.bufs[0]][w.labels[1] := w.bufs[1]], dirty := [false, false],
              next := w.next + 1), true)
    case Breaks(junk, junk2) =>
      Done(w.(disk := w.disk[w.labels[0] := Fitted(junk, ss)][w.labels[1] := Fitted(junk2, ss)],
              next := w.next + 1), false)
  }

  /** sync_winindex: a dirty buffer is written back, the older one first. */
  ghost function Sync(w: Win, i: nat, io: nat -> Io, ss: nat): (r: Done)
    requires Shaped(w, ss) && i < 2
    ensures Shaped(r.w, ss) && |r.w.disk| == |w.disk|
  {
    if w.labels[i] == 0 || !w.dirty[i] then Done(w, true)
    else if w.last == i && w.dirty[1 - i] then
      if w.labels[0] + 1 == w.labels[1] then WriteBoth(w, io, ss)
      else
        var r := WriteBack(w, 1 - i, io, ss);
        if r.ok then WriteBack(r.w, i, io, ss) else r
    else WriteBack(w, i, io, ss)
  }

  predicate Cached(w: Win, s: nat)
    requires |w.labels| == 2
  {
    w.labels[0] == s || w.labels[1] == s
  }

  /** The buffer that gives way to the next sector; the first one if none is in use. */
  function Oldest(w: Win): nat {
    if w.winsect != 0 && w.last == 0 then 1 else 0
  }

  /** The window when the next sector is about to be read. */
  ghost function Turned(w: Win): Win
    requires |w.labels| == 2
  {
    if w.winsect != 0 then w.(win := Oldest(w), winsect := w.labels[Oldest(w)]) else w
  }

  /** A failed read: the buffer holds junk, and still has its old label. */
  function JunkRead(w: Win, junk: Sector): Win
    requires |w.bufs| == 2 && w.win < 2
  {
    w.(bufs := w.bufs[w.win := junk], next := w.next + 1)
  }

  /** move_window. */
  ghost function Move(w: Win, s: nat, io: nat -> Io, ss: nat): (r: Done)
    requires Shaped(w, ss) && 0 < s < |w.disk|
    ensures Shaped(r.w, ss) && |r.w.disk| == |w.disk|
  {
    if w.labels[0] == s then Done(w.(win := 0, winsect := s), true)
    else if w.labels[1] == s then Done(w.(win := 1, winsect := s), true)
    else
      var r := Sync(Turned(w), Turned(w).win, io, ss);
      if !r.ok then r
      else
        match io(r.w.next)
        case Works =>
          Done(r.w.(bufs := r.w.bufs[r.w.win := r.w.disk[s]], labels := r.w.labels[Oldest(w) := s], winsect := s,
                    last := Oldest(w), next := r.w.next + 1), true)
        case Breaks(junk, _) => Done(JunkRead(r.w, Fitted(junk, ss)), false)
  }

  // ---------------------------------------------------------------------
  // What the window stands for
  // ---------------------------------------------------------------------

  /** Sector s as it will be read: from its buffer, or from the medium. */
  function View(w: Win, s: nat): Sector
    requires |w.labels| == 2 && |w.bufs| == 2 && 0 < s < |w.disk|
  {
    if w.labels[0] == s then w.bufs[0] else if w.labels[1] == s then w.bufs[1] else w.disk[s]
  }

  /** The sectors of the allocation table are those from lo on, below hi. */
  predicate InFat(s: nat, lo: nat, hi: nat) {
    lo <= s < hi
  }

  /** The labels are right, and a clean buffer of the table is what the medium holds. */
  ghost predicate Good(w: Win, ss: nat, lo: nat, hi: nat) {
    && Shaped(w, ss) && 0 < lo <= hi <= |w.disk|
    && (w.labels[0] == w.labels[1] ==> w.labels[0] == 0)
    && (w.winsect != 0 ==> w.labels[w.win] == w.winsect && w.labels[0] != 0)
    && (w.winsect == 0 ==> w.labels[0] == 0 && w.win == 0)
    && (w.labels[0] == 0 ==> w.labels[1] == 0)
    && (w.labels[1] == 0 ==> w.last == 0 && !w.dirty[1])
    && forall i :: 0 <= i < 2 && InFat(w.labels[i], lo, hi) && !w.dirty[i] ==> w.bufs[i] == w.disk[w.labels[i]]
  }

  ghost predicate SameFat(w: Win, w': Win, lo: nat, hi: nat)
    requires |w.labels| == 2 && |w.bufs| == 2 && |w'.labels| == 2 && |w'.bufs| == 2
    requires 0 < lo && hi <= |w.disk| && hi <= |w'.disk|
  {
    forall s :: lo <= s < hi ==> View(w', s) == View(w, s)
  }

  /** The read fails; all writes before it, if there are any, work. */
  ghost predicate ReadFails(w: Win, s: nat, io: nat -> Io, ss: nat)
    requires Shaped(w, ss)
  {
    var r := Sync(Turned(w), Turned(w).win, io, ss);
    !Cached(w, s) && r.ok && io(r.w.next).Breaks?
  }

  /** A read that fails now does no harm to the table: no buffer is in use, or the one
      that gives way holds a sector, and not one of the table. */
  predicate Harmless(w: Win, lo: nat, hi: nat)
    requires |w.labels| == 2
  {
    w.winsect == 0 || (w.labels[Oldest(w)] != 0 && !InFat(w.labels[Oldest(w)], lo, hi))
  }

  // ---------------------------------------------------------------------
  // One move
  // ---------------------------------------------------------------------

  lemma WriteBackKeeps(w: Win, i: nat, io: nat -> Io, ss: nat, lo: nat, hi: nat)
    requires Good(w, ss, lo, hi) && i < 2 && w.labels[i] != 0 && w.dirty[i]
    ensures var r := WriteBack(w, i, io, ss); var w' := r.w;
            && Good(w', ss, lo, hi) && SameFat(w, w', lo, hi)
            && w'.labels == w.labels && w'.win == w.win && w'.winsect == w.winsect && w'.last == w.last
            && w'.bufs == w.bufs && (r.ok ==> !w'.dirty[i]) && w'.dirty[1 - i] == w.dirty[1 - i]
  {
  }

  lemma WriteBothKeeps(w: Win, io: nat -> Io, ss: nat, lo: nat, hi: nat)
    requires Good(w, ss, lo, hi) && w.labels[0] + 1 == w.labels[1] && w.dirty[0] && w.dirty[1]
    ensures var r := WriteBoth(w, io, ss); var w' := r.w;
            && Good(w', ss, lo, hi) && SameFat(w, w', lo, hi)
            && w'.labels == w.labels && w'.win == w.win && w'.winsect == w.winsect && w'.last == w.last
            && w'.bufs == w.bufs && (r.ok ==> !w'.dirty[0] && !w'.dirty[1])
  {
  }

  /** Writing back never changes what the window stands for, whether it works or not. */
  lemma SyncKeeps(w: Win, i: nat, io: nat -> Io, ss: nat, lo: nat, hi: nat)
    requires Good(w, ss, lo, hi) && i < 2
    ensures var r := Sync(w, i, io, ss); var w' := r.w;
            && Good(w', ss, lo, hi) && SameFat(w, w', lo, hi)
            && w'.labels == w.labels && w'.win == w.win && w'.winsect == w.winsect && w'.last == w.last
            && w'.bufs == w.bufs && (r.ok && w.labels[i] != 0 ==> !w'.dirty[i])
  {
    if w.labels[i] != 0 && w.dirty[i] {
      if w.last == i && w.dirty[1 - i] {
        if w.labels[0] + 1 == w.labels[1] {
          WriteBothKeeps(w, io, ss, lo, hi);
        } else {
          WriteBackKeeps(w, 1 - i, io, ss, lo, hi);
          WriteBackKeeps(WriteBack(w, 1 - i, io, ss).w, i, io, ss, lo, hi);
        }
      } else {
        WriteBackKeeps(w, i, io, ss, lo, hi);
      }
    }
  }

  /** The sector of buffer j on the medium holds what the buffer does. */
  predicate OnMedium(w: Win, j: nat, disk: seq<Sector>)
    requires j < |w.labels| && j < |w.bufs| && w.labels[j] < |disk|
  {
    disk[w.labels[j]] == w.bufs[j]
  }

  /** The sector read in last never reaches the medium before a change to the other one: if
      its place there has been touched and the other buffer was dirty, that one has arrived
      and is clean, or the two lie next to each other and went in one transfer. And a call
      that works leaves its buffer clean and on the medium, one that fails leaves it dirty. */
  lemma OlderFirst(w: Win, i: nat, io: nat -> Io, ss: nat)
    requires Shaped(w, ss) && i < 2 && w.labels[0] != w.labels[1]
    ensures var r, older := Sync(w, i, io, ss), 1 - w.last;
            && (w.dirty[older] && r.w.disk[w.labels[w.last]] != w.disk[w.labels[w.last]] ==>
                  || (OnMedium(w, older, r.w.disk) && !r.w.dirty[older])
                  || (w.labels[0] + 1 == w.labels[1] && r.w.next == w.next + 1))
            && (w.labels[i] != 0 && w.dirty[i] ==>
                  if r.ok then OnMedium(w, i, r.w.disk) && !r.w.dirty[i] else r.w.dirty[i])
  {
  }

  /** What a call that works writes: its own buffer if that is dirty, and then the other one
      too if that is dirty and was read in earlier; a clean one or one without a sector is
      not written. */
  lemma WrittenExactly(w: Win, i: nat, io: nat -> Io, ss: nat)
    requires Shaped(w, ss) && i < 2 && w.labels[0] != w.labels[1] && Sync(w, i, io, ss).ok
    ensures var d, needed := Sync(w, i, io, ss).w, w.labels[i] != 0 && w.dirty[i];
            forall s :: 0 <= s < |w.disk| ==>
              d.disk[s] == if needed && s == w.labels[i] then w.bufs[i]
                           else if needed && w.last == i && w.dirty[1 - i] && s == w.labels[1 - i] then w.bufs[1 - i]
                           else w.disk[s]
  {
  }

  /** What the window has come to when the next sector is read. */
  lemma BeforeRead(w: Win, s: nat, io: nat -> Io, ss: nat, lo: nat, hi: nat)
    requires Good(w, ss, lo, hi) && 0 < s < |w.disk| && !Cached(w, s)
    ensures var r := Sync(Turned(w), Turned(w).win, io, ss);
            && r.w.labels == w.labels && r.w.bufs == w.bufs && r.w.win == Oldest(w) && r.w.last == w.last
            && r.w.winsect == Turned(w).winsect && SameFat(w, r.w, lo, hi) && |r.w.disk| == |w.disk|
            && (w.labels[Oldest(w)] != 0 || w.winsect == 0 ==> Good(r.w, ss, lo, hi))
            && (w.labels[Oldest(w)] == 0 ==> r.ok && r.w == Turned(w))
            && (r.ok && w.labels[Oldest(w)] != 0 ==> !r.w.dirty[Oldest(w)])
  {
    var t := Turned(w);
    if w.labels[Oldest(w)] != 0 {
      SyncKeeps(t, t.win, io, ss, lo, hi);
    }
  }

  /** move_window brings the sector as the window stands for it, and changes nothing of
      the table, unless it fails in a harmful read. */
  lemma MoveKeeps(w: Win, s: nat, io: nat -> Io, ss: nat, lo: nat, hi: nat)
    requires Good(w, ss, lo, hi) && 0 < s < |w.disk|
    requires ReadFails(w, s, io, ss) ==> Harmless(w, lo, hi)
    ensures var r := Move(w, s, io, ss);
            && Good(r.w, ss, lo, hi) && SameFat(w, r.w, lo, hi) && |r.w.disk| == |w.disk|
            && (r.ok ==> r.w.winsect == s && r.w.labels[r.w.win] == s)
            && (r.ok && InFat(s, lo, hi) ==> r.w.bufs[r.w.win] == View(w, s))
  {
    hide Sync;
    if !Cached(w, s) {
      BeforeRead(w, s, io, ss, lo, hi);
    }
  }

  // ---------------------------------------------------------------------
  // The harmless failures are exactly these
  // ---------------------------------------------------------------------

  /** Whatever a failed read leaves in the buffer, the table is as it was and the labels
      are right. */
  ghost predicate AnyJunkIsKept(w: Win, s: nat, io: nat -> Io, ss: nat, lo: nat, hi: nat)
    requires Shaped(w, ss) && 0 < lo <= hi <= |w.disk|
  {
    var r := Sync(Turned(w), Turned(w).win, io, ss);
    forall junk: Sector :: |junk| == ss ==>
      Good(JunkRead(r.w, junk), ss, lo, hi) && SameFat(w, JunkRead(r.w, junk), lo, hi)
  }

  function Flipped(b: Sector): (b': Sector)
    requires |b| > 0
    ensures |b'| == |b| && b' != b
  {
    var x: Byte := b[0] ^ 1;
    [x] + b[1..]
  }

  lemma HarmlessIff(w: Win, s: nat, io: nat -> Io, ss: nat, lo: nat, hi: nat)
    requires Good(w, ss, lo, hi) && 0 < s < |w.disk| && ReadFails(w, s, io, ss)
    ensures AnyJunkIsKept(w, s, io, ss, lo, hi) <==> Harmless(w, lo, hi)
  {
    hide Sync, Flipped;
    BeforeRead(w, s, io, ss, lo, hi);
    var r, v := Sync(Turned(w), Turned(w).win, io, ss), w.labels[Oldest(w)];
    if w.winsect != 0 && v != 0 && InFat(v, lo, hi) {
      var junk := Flipped(r.w.bufs[r.w.win]);
      var w' := JunkRead(r.w, junk);
      assert View(w', v) == junk != View(w, v);
      assert !SameFat(w, w', lo, hi);
    } else if w.winsect != 0 && v == 0 {
      var junk := r.w.bufs[r.w.win];
      assert !Good(JunkRead(r.w, junk), ss, lo, hi);
    }
  }

  /** And a harmful one costs what a buffer held: the sector of the table that was to give
      way now reads as the junk that came in. */
  lemma SectorIsLost(w: Win, s: nat, io: nat -> Io, ss: nat, lo: nat, hi: nat)
    requires Good(w, ss, lo, hi) && 0 < s < |w.disk| && ReadFails(w, s, io, ss)
    requires w.winsect != 0 && InFat(w.labels[Oldest(w)], lo, hi)
    ensures var r := Move(w, s, io, ss);
            && !r.ok && |r.w.disk| == |w.disk| && io(r.w.next - 1).Breaks?
            && View(r.w, w.labels[Oldest(w)]) == Fitted(io(r.w.next - 1).junk, ss)
            && Cached(r.w, w.labels[Oldest(w)]) && r.w.win == Oldest(w) && r.w.labels == w.labels
  {
    hide Sync;
    BeforeRead(w, s, io, ss, lo, hi);
  }

  /** When the second buffer has never been used a failed read into it makes the code
      forget that the first one is. The next sector read is then taken for what the first
      buffer holds, and what that held, written back or not, is gone. */
  lemma SectorsAreConfused(w: Win, s: nat, x: nat, io: nat -> Io, ss: nat, lo: nat, hi: nat)
    requires Good(w, ss, lo, hi) && 0 < s < |w.disk| && 0 < x < |w.disk|
    requires w.winsect != 0 && w.labels[1] == 0 && x != w.labels[0] && s != w.labels[0]
    requires io(w.next).Breaks? && io(w.next + 1).Works?
    ensures var r1 := Move(w, s, io, ss);
            && !r1.ok && |r1.w.disk| == |w.disk|
            && var r2 := Move(r1.w, x, io, ss);
               && r2.ok && |r2.w.disk| == |w.disk|
               && View(r2.w, x) == w.bufs[0] && r2.w.disk == w.disk && !Cached(r2.w, w.labels[0])
  {
  }

  // ---------------------------------------------------------------------
  // Whole runs
  // ---------------------------------------------------------------------

  /** What FatFs asks of the window. Visit is a move alone. Patch moves, changes bytes of the
      sector if that worked, and marks the buffer as dirty whether it worked or not, as
      put_fat does. Flush is sync_fs without an FSInfo sector; with one the buffers are
      emptied, and info is written to it. */
  datatype Request =
    | Visit(s: nat)
    | Patch(s: nat, at: nat, bytes: seq<Byte>)
    | Flush
    | FlushInfo(fsi: nat, info: Sector)

  predicate Sensible(r: Request, n: nat, ss: nat, lo: nat, hi: nat) {
    match r
    case Visit(s) => 0 < s < n
    case Patch(s, at, bytes) => 0 < s < n && at + |bytes| <= ss
    case Flush => true
    case FlushInfo(fsi, info) => fsi < n && !InFat(fsi, lo, hi) && |info| == ss
  }

  function Overlay(b: Sector, at: nat, bytes: seq<Byte>): (b': Sector)
    requires at + |bytes| <= |b|
    ensures |b'| == |b|
  {
    b[..at] + bytes + b[at + |bytes|..]
  }

  /** set_dirty. */
  function Marked(w: Win): Win
    requires |w.dirty| == 2 && w.win < 2
  {
    w.(dirty := w.dirty[w.win := true])
  }

  ghost function SyncBoth(w: Win, io: nat -> Io, ss: nat): (r: Done)
    requires Shaped(w, ss)
    ensures Shaped(r.w, ss) && |r.w.disk| == |w.disk|
  {
    var r := Sync(w, 0, io, ss);
    if r.ok then Sync(r.w, 1, io, ss) else r
  }

  /** clear_buff, and the FSInfo sector built in the first buffer and written. */
  ghost function Cleared(w: Win, fsi: nat, info: Sector, io: nat -> Io, ss: nat): (w': Win)
    requires Shaped(w, ss) && fsi < |w.disk| && |info| == ss
    ensures Shaped(w', ss) && |w'.disk| == |w.disk|
  {
    var written := if io(w.next).Works? then info else Fitted(io(w.next).junk, ss);
    w.(labels := [0, 0], win := 0, winsect := 0, last := 0, bufs := w.bufs[0 := info], disk := w.disk[fsi := written],
       next := w.next + 1)
  }

  ghost function Serve(w: Win, q: Request, io: nat -> Io, ss: nat, lo: nat, hi: nat): (r: Done)
    requires Shaped(w, ss) && Sensible(q, |w.disk|, ss, lo, hi)
    ensures Shaped(r.w, ss) && |r.w.disk| == |w.disk|
  {
    match q
    case Visit(s) => Move(w, s, io, ss)
    case Patch(s, at, bytes) =>
      var r := Move(w, s, io, ss);
      if r.ok then Done(Marked(r.w.(bufs := r.w.bufs[r.w.win := Overlay(r.w.bufs[r.w.win], at, bytes)])), true)
      else Done(Marked(r.w), false)
    case Flush => SyncBoth(w, io, ss)
    case FlushInfo(fsi, info) =>
      var r := SyncBoth(w, io, ss);
      if r.ok then Done(Cleared(r.w, fsi, info, io, ss), true) else r
  }

  /** No read of the request fails, or it fails without harm. */
  ghost predicate ServedSafely(w: Win, q: Request, io: nat -> Io, ss: nat, lo: nat, hi: nat)
    requires Shaped(w, ss)
  {
    (q.Visit? || q.Patch?) && ReadFails(w, q.s, io, ss) ==> Harmless(w, lo, hi)
  }

  lemma FlushOrder(w: Win, io: nat -> Io, ss: nat)
    requires Shaped(w, ss) && w.labels[0] != w.labels[1]
    ensures var disk, older, newer := SyncBoth(w, io, ss).w.disk, 1 - w.last, w.last;
            w.dirty[older] && disk[w.labels[newer]] != w.disk[w.labels[newer]] ==>
              OnMedium(w, older, disk) || w.labels[0] + 1 == w.labels[1]
  {
  }

  lemma MoveOrder(w: Win, s: nat, io: nat -> Io, ss: nat, lo: nat, hi: nat)
    requires Good(w, ss, lo, hi) && 0 < s < |w.disk| && w.labels[0] != 0
    ensures Move(w, s, io, ss).w.disk[w.labels[w.last]] == w.disk[w.labels[w.last]]
  {
  }

  /** Where each request writes: a move only what gives way, so what was read in last stays in
      its buffer; flushing both, and then too what was read in earlier first. */
  lemma EarlierFirst(w: Win, q: Request, io: nat -> Io, ss: nat, lo: nat, hi: nat)
    requires Good(w, ss, lo, hi) && Sensible(q, |w.disk|, ss, lo, hi) && w.labels[0] != 0
    requires q.FlushInfo? ==> q.fsi !in w.labels
    ensures var disk, older, newer := Serve(w, q, io, ss, lo, hi).w.disk, 1 - w.last, w.last;
            && (q.Visit? || q.Patch? ==> disk[w.labels[newer]] == w.disk[w.labels[newer]])
            && (w.dirty[older] && disk[w.labels[newer]] != w.disk[w.labels[newer]] ==>
                  OnMedium(w, older, disk) || w.labels[0] + 1 == w.labels[1])
  {
    if q.Flush? || q.FlushInfo? {
      hide Good, Sensible, Fitted, View;
      FlushOrder(w, io, ss);
    } else {
      MoveOrder(w, q.s, io, ss, lo, hi);
      hide Move, Good, Fitted, View;
    }
  }

  lemma SyncBothKeeps(w: Win, io: nat -> Io, ss: nat, lo: nat, hi: nat)
    requires Good(w, ss, lo, hi)
    ensures var r := SyncBoth(w, io, ss);
            && Good(r.w, ss, lo, hi) && SameFat(w, r.w, lo, hi) && |r.w.disk| == |w.disk|
            && r.w.labels == w.labels
            && (r.ok ==> forall i :: 0 <= i < 2 && r.w.labels[i] != 0 ==> !r.w.dirty[i])
  {
    SyncKeeps(w, 0, io, ss, lo, hi);
    SyncKeeps(Sync(w, 0, io, ss).w, 1, io, ss, lo, hi);
  }

  /** The sectors of the table as the window stands for them. */
  ghost function Contents(w: Win, ss: nat, lo: nat, hi: nat): (c: seq<Sector>)
    requires Shaped(w, ss) && 0 < lo <= hi <= |w.disk|
    ensures |c| == hi - lo && forall i :: 0 <= i < |c| ==> |c[i]| == ss && c[i] == View(w, lo + i)
  {
    assert forall s :: lo <= s < hi ==> |View(w, s)| == ss;
    seq(hi - lo, i requires 0 <= i < hi - lo => View(w, lo + i))
  }

  /** What a request does to a memory without a window. */
  function Applied(c: seq<Sector>, q: Request, ok: bool, lo: nat): (c': seq<Sector>)
    requires q.Patch? && lo <= q.s < lo + |c| ==> q.at + |q.bytes| <= |c[q.s - lo]|
    ensures |c'| == |c| && forall i :: 0 <= i < |c| ==> |c'[i]| == |c[i]|
  {
    if ok && q.Patch? && lo <= q.s < lo + |c| then c[q.s - lo := Overlay(c[q.s - lo], q.at, q.bytes)] else c
  }

  lemma SameContents(w: Win, w': Win, ss: nat, lo: nat, hi: nat)
    requires Shaped(w, ss) && Shaped(w', ss) && 0 < lo <= hi <= |w.disk| && |w'.disk| == |w.disk|
    ensures SameFat(w, w', lo, hi) ==> Contents(w', ss, lo, hi) == Contents(w, ss, lo, hi)
  {
  }

  lemma PatchKeeps(w: Win, q: Request, ss: nat, lo: nat, hi: nat)
    requires Good(w, ss, lo, hi) && q.Patch? && Sensible(q, |w.disk|, ss, lo, hi) && w.winsect == q.s
    ensures var w' := Marked(w.(bufs := w.bufs[w.win := Overlay(w.bufs[w.win], q.at, q.bytes)]));
            && Good(w', ss, lo, hi)
            && Contents(w', ss, lo, hi) == Applied(Contents(w, ss, lo, hi), q, true, lo)
            && (InFat(q.s, lo, hi) ==> w'.bufs[w'.win] == Contents(w', ss, lo, hi)[q.s - lo])
  {
    hide Overlay;
    var w' := Marked(w.(bufs := w.bufs[w.win := Overlay(w.bufs[w.win], q.at, q.bytes)]));
    assert w.labels[w.win] == q.s;
    forall i | 0 <= i < hi - lo
      ensures Contents(w', ss, lo, hi)[i] == Applied(Contents(w, ss, lo, hi), q, true, lo)[i]
    {
      assert lo + i != q.s ==> View(w', lo + i) == View(w, lo + i);
    }
  }

  lemma LookServed(w: Win, s: nat, io: nat -> Io, ss: nat, lo: nat, hi: nat)
    requires Good(w, ss, lo, hi) && 0 < s < |w.disk|
    requires ServedSafely(w, Visit(s), io, ss, lo, hi)
    ensures var r := Move(w, s, io, ss);
            && Good(r.w, ss, lo, hi) && Contents(r.w, ss, lo, hi) == Contents(w, ss, lo, hi)
            && (r.ok ==> r.w.winsect == s)
            && (r.ok && InFat(s, lo, hi) ==> r.w.bufs[r.w.win] == Contents(r.w, ss, lo, hi)[s - lo])
  {
    assert Shaped(w, ss) && 0 < lo <= hi <= |w.disk|;
    MoveKeeps(w, s, io, ss, lo, hi);
    hide Move, Good, Harmless, ReadFails, Shaped, View;
    SameContents(w, Move(w, s, io, ss).w, ss, lo, hi);
  }

  lemma FlushServed(w: Win, q: Request, io: nat -> Io, ss: nat, lo: nat, hi: nat)
    requires Good(w, ss, lo, hi) && Sensible(q, |w.disk|, ss, lo, hi) && (q.Flush? || q.FlushInfo?)
    ensures var r := Serve(w, q, io, ss, lo, hi);
            Good(r.w, ss, lo, hi) && Contents(r.w, ss, lo, hi) == Contents(w, ss, lo, hi)
  {
    hide Sync, SyncBoth;
    SyncBothKeeps(w, io, ss, lo, hi);
    var r := SyncBoth(w, io, ss);
    SameContents(w, r.w, ss, lo, hi);
    if r.ok && q.FlushInfo? {
      var w' := Cleared(r.w, q.fsi, q.info, io, ss);
      assert SameFat(r.w, w', lo, hi);
      SameContents(r.w, w', ss, lo, hi);
    }
  }

  /** One request with the window is one request without it. */
  lemma ServeKeeps(w: Win, q: Request, io: nat -> Io, ss: nat, lo: nat, hi: nat)
    requires Good(w, ss, lo, hi) && Sensible(q, |w.disk|, ss, lo, hi)
    requires ServedSafely(w, q, io, ss, lo, hi)
    ensures var r := Serve(w, q, io, ss, lo, hi);
            && Good(r.w, ss, lo, hi) && |r.w.disk| == |w.disk|
            && Contents(r.w, ss, lo, hi) == Applied(Contents(w, ss, lo, hi), q, r.ok, lo)
            && (r.ok && (q.Visit? || q.Patch?) && InFat(q.s, lo, hi) ==>
                  r.w.bufs[r.w.win] == Contents(r.w, ss, lo, hi)[q.s - lo])
  {
    if q.Flush? || q.FlushInfo? {
      FlushServed(w, q, io, ss, lo, hi);
    } else {
      LookServed(w, q.s, io, ss, lo, hi);
      var r := Move(w, q.s, io, ss);
      if q.Patch? && r.ok {
        PatchKeeps(r.w, q, ss, lo, hi);
      } else if q.Patch? {
        SameContents(r.w, Marked(r.w), ss, lo, hi);
      }
      hide Move, Harmless, ReadFails, Shaped, View, Overlay, Good, Contents;
    }
  }

  predicate AllSensible(qs: seq<Request>, n: nat, ss: nat, lo: nat, hi: nat) {
    forall i :: 0 <= i < |qs| ==> Sensible(qs[i], n, ss, lo, hi)
  }

  /** A run of requests: the window at the end, and which of them worked. */
  ghost function ServeAll(w: Win, qs: seq<Request>, io: nat -> Io, ss: nat, lo: nat, hi: nat): (r: (Win, seq<bool>))
    requires Shaped(w, ss) && AllSensible(qs, |w.disk|, ss, lo, hi)
    ensures Shaped(r.0, ss) && |r.0.disk| == |w.disk| && |r.1| == |qs|
    decreases |qs|
  {
    if |qs| == 0 then (w, [])
    else
      var r := Serve(w, qs[0], io, ss, lo, hi);
      var rest := ServeAll(r.w, qs[1..], io, ss, lo, hi);
      (rest.0, [r.ok] + rest.1)
  }

  ghost predicate AllSafe(w: Win, qs: seq<Request>, io: nat -> Io, ss: nat, lo: nat, hi: nat)
    requires Shaped(w, ss) && AllSensible(qs, |w.disk|, ss, lo, hi)
    decreases |qs|
  {
    |qs| > 0 ==>
      && ServedSafely(w, qs[0], io, ss, lo, hi)
      && AllSafe(Serve(w, qs[0], io, ss, lo, hi).w, qs[1..], io, ss, lo, hi)
  }

  /** The same run on a memory without a window, of which the same requests work. */
  ghost function AppliedAll(c: seq<Sector>, qs: seq<Request>, oks: seq<bool>, lo: nat, ss: nat): (c': seq<Sector>)
    requires |oks| == |qs| && forall i :: 0 <= i < |c| ==> |c[i]| == ss
    requires forall i :: 0 <= i < |qs| && qs[i].Patch? ==> qs[i].at + |qs[i].bytes| <= ss
    ensures |c'| == |c|
    decreases |qs|
  {
    if |qs| == 0 then c else AppliedAll(Applied(c, qs[0], oks[0], lo), qs[1..], oks[1..], lo, ss)
  }

  /** Over every run in which no read fails harmfully, whatever writes fail, the two buffers
      laid over the medium are the table as a memory that each successful change has
      reached and no failed one. */
  lemma {:induction false} WindowIsTransparent(w: Win, qs: seq<Request>, io: nat -> Io, ss: nat, lo: nat, hi: nat)
    requires Good(w, ss, lo, hi)
    requires AllSensible(qs, |w.disk|, ss, lo, hi)
    requires AllSafe(w, qs, io, ss, lo, hi)
    ensures var r := ServeAll(w, qs, io, ss, lo, hi);
            && Good(r.0, ss, lo, hi)
            && Contents(r.0, ss, lo, hi) == AppliedAll(Contents(w, ss, lo, hi), qs, r.1, lo, ss)
    decreases |qs|
  {
    if |qs| > 0 {
      assert Shaped(w, ss) && 0 < lo <= hi <= |w.disk|;
      hide Good, Contents, Serve, Applied, ServedSafely, Shaped;
      ServeKeeps(w, qs[0], io, ss, lo, hi);
      WindowIsTransparent(Serve(w, qs[0], io, ss, lo, hi).w, qs[1..], io, ss, lo, hi);
      var r := ServeAll(w, qs, io, ss, lo, hi);
      assert r.1[1..] == ServeAll(Serve(w, qs[0], io, ss, lo, hi).w, qs[1..], io, ss, lo, hi).1;
    }
  }

  /** Behind a flush that works the medium alone is the table, and the FSInfo sector is on it
      if its own write, of which FatFs does not look at the outcome, works. */
  lemma FlushIsDurable(w: Win, q: Request, io: nat -> Io, ss: nat, lo: nat, hi: nat)
    requires Good(w, ss, lo, hi) && Sensible(q, |w.disk|, ss, lo, hi) && (q.Flush? || q.FlushInfo?)
    requires Serve(w, q, io, ss, lo, hi).ok
    ensures var d := Serve(w, q, io, ss, lo, hi).w;
            && |d.disk| == |w.disk| && d.disk[lo..hi] == Contents(w, ss, lo, hi)
            && (q.FlushInfo? && io(d.next - 1).Works? ==> d.disk[q.fsi] == q.info)
  {
    hide Sync, SyncBoth;
    SyncBothKeeps(w, io, ss, lo, hi);
    var r := SyncBoth(w, io, ss);
    forall s | lo <= s < hi
      ensures r.w.disk[s] == View(w, s)
    {
      assert View(r.w, s) == View(w, s);
    }
  }

  /** So behind any run that ends in a flush that works the medium is the table with all
      changes that worked, and no other. */
  lemma RunIsDurable(w: Win, qs: seq<Request>, q: Request, io: nat -> Io, ss: nat, lo: nat, hi: nat)
    requires Good(w, ss, lo, hi) && AllSensible(qs, |w.disk|, ss, lo, hi) && AllSafe(w, qs, io, ss, lo, hi)
    requires Sensible(q, |w.disk|, ss, lo, hi) && (q.Flush? || q.FlushInfo?)
    requires Serve(ServeAll(w, qs, io, ss, lo, hi).0, q, io, ss, lo, hi).ok
    ensures var r := ServeAll(w, qs, io, ss, lo, hi);
            Serve(r.0, q, io, ss, lo, hi).w.disk[lo..hi] == AppliedAll(Contents(w, ss, lo, hi), qs, r.1, lo, ss)
  {
    assert Shaped(w, ss) && 0 < lo <= hi <= |w.disk|;
    hide Serve, Good, Sensible, AllSensible, AllSafe, ServeAll, AppliedAll, Shaped;
    WindowIsTransparent(w, qs, io, ss, lo, hi);
    var r := ServeAll(w, qs, io, ss, lo, hi);
    FlushIsDurable(r.0, q, io, ss, lo, hi);
  }

  lemma ServeWorks(w: Win, q: Request, io: nat -> Io, ss: nat, lo: nat, hi: nat)
    requires Shaped(w, ss) && Sensible(q, |w.disk|, ss, lo, hi) && forall k :: io(k).Works?
    ensures Serve(w, q, io, ss, lo, hi).ok && ServedSafely(w, q, io, ss, lo, hi)
  {
  }

  /** Without a failure every request works, and every run is one of these. */
  lemma {:induction false} NothingFails(w: Win, qs: seq<Request>, io: nat -> Io, ss: nat, lo: nat, hi: nat)
    requires Shaped(w, ss) && AllSensible(qs, |w.disk|, ss, lo, hi) && forall k :: io(k).Works?
    ensures AllSafe(w, qs, io, ss, lo, hi)
    ensures forall i :: 0 <= i < |qs| ==> ServeAll(w, qs, io, ss, lo, hi).1[i]
    decreases |qs|
  {
    hide Serve, ServedSafely, Shaped, Sensible;
    if |qs| > 0 {
      ServeWorks(w, qs[0], io, ss, lo, hi);
      NothingFails(Serve(w, qs[0], io, ss, lo, hi).w, qs[1..], io, ss, lo, hi);
    }
  }

  // ---------------------------------------------------------------------
  // Two runs with one harmful read
  // ---------------------------------------------------------------------

  /** A window that no sector has been read into. */
  ghost predicate Unused(w: Win, ss: nat) {
    && Shaped(w, ss) && w.labels == [0, 0] && w.dirty == [false, false]
    && w.win == 0 && w.winsect == 0 && w.last == 0 && w.next == 0
  }

  /** Two sectors are looked up, and a change in a third one fails in its read. Flushing
      then writes what came in over the first. */
  lemma FirstSectorGoes(w: Win, a: nat, b: nat, q: Request, io: nat -> Io, ss: nat, lo: nat, hi: nat)
    requires Unused(w, ss) && 0 < a < |w.disk| && 0 < b < |w.disk| && a != b && q.Patch? && q.s != a && q.s != b
    requires Sensible(q, |w.disk|, ss, lo, hi)
    requires io(0).Works? && io(1).Works? && io(2).Breaks? && io(3).Works?
    ensures var w2 := Move(Move(w, a, io, ss).w, b, io, ss).w;
            var d := Serve(w2, q, io, ss, lo, hi);
            && !d.ok && SyncBoth(d.w, io, ss).ok
            && SyncBoth(d.w, io, ss).w.disk == w.disk[a := Fitted(io(2).junk, ss)]
  {
    hide Overlay, Fitted;
    var w1 := Move(w, a, io, ss).w;
    var w2 := Move(w1, b, io, ss).w;
    hide Move;
    var d := Serve(w2, q, io, ss, lo, hi);
    assert d.w.dirty == [true, false] && d.w.labels == [a, b] && d.w.last == 1 && d.w.next == 3;
  }

  /** A sector is changed, and a change in a second one fails in its read. Flushing then
      writes what came in to sector 0. */
  lemma SectorZeroGoes(w: Win, p: Request, q: Request, io: nat -> Io, ss: nat, lo: nat, hi: nat)
    requires Unused(w, ss) && p.Patch? && q.Patch? && p.s != q.s
    requires Sensible(p, |w.disk|, ss, lo, hi) && Sensible(q, |w.disk|, ss, lo, hi)
    requires io(0).Works? && io(1).Breaks? && io(2).Works? && io(3).Works?
    ensures var w1 := Serve(w, p, io, ss, lo, hi).w;
            var d := Serve(w1, q, io, ss, lo, hi);
            && !d.ok && SyncBoth(d.w, io, ss).ok
            && SyncBoth(d.w, io, ss).w.disk[0] == Fitted(io(1).junk, ss)
  {
    hide Overlay, Fitted;
    var w1 := Serve(w, p, io, ss, lo, hi).w;
    hide Move;
    var d := Serve(w1, q, io, ss, lo, hi);
    assert d.w.dirty == [true, true] && d.w.labels == [p.s, 0] && d.w.last == 0 && d.w.next == 2;
  }
}
