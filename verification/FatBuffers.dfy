/** The sector window as code: two buffers in one array, their labels and dirty bits, and
    FAT16 entries read and written through it. */
module FatBuffers {
  import opened Bytes
  import opened FieldCodec
  import opened FatTable
  import opened FatChain
  import opened FatLinks
  import opened FatWindow
  import opened FatSectors

  function Bit(i: nat): bv8 {
    if i == 0 then 1 else 2
  }

  predicate IsSet(flags: bv8, i: nat) {
    flags & Bit(i) != 0
  }

  function WithBit(flags: bv8, i: nat): bv8 {
    flags | Bit(i)
  }

  function WithoutBit(flags: bv8, i: nat): bv8 {
    flags & !Bit(i)
  }

  function Flags(flags: bv8): seq<bool> {
    [IsSet(flags, 0), IsSet(flags, 1)]
  }

  lemma SetAndCleared(flags: bv8, i: nat)
    requires i < 2
    ensures Flags(WithBit(flags, i)) == Flags(flags)[i := true]
    ensures Flags(WithoutBit(flags, i)) == Flags(flags)[i := false]
    ensures Flags(0) == [false, false]
  {
  }

  lemma WordInHalf(a: seq<Byte>, b: seq<Byte>, half: nat, off: nat, ss: nat, val: bv32)
    requires |a| == 2 * ss && half < 2 && off + 2 <= ss
    requires var p := (if half == 0 then 0 else ss) + off; b == a[p := Byte0(val)][p + 1 := Byte1(val)]
    ensures [b[..ss], b[ss..]]
            == [a[..ss], a[ss..]][half := Overlay([a[..ss], a[ss..]][half], off, StoredWord(val))]
  {
    hide Byte0, Byte1;
    if half == 0 {
      assert b[..ss] == Overlay(a[..ss], off, StoredWord(val)) && b[ss..] == a[ss..];
    } else {
      assert b[ss..] == Overlay(a[ss..], off, StoredWord(val)) && b[..ss] == a[..ss];
    }
  }

  /** The part of FATFS that makes up the window, and the medium behind it. */
  class Window {
    const sectorSize: nat
    const io: nat -> Io
    const fatbase: nat
    const fsize: nat
    const nFatent: nat
    const winprev: array<Byte>
    const winsectprev: array<nat>
    var win: nat
    var winsect: nat
    var winlastindex: nat
    var wflag: bv8
    var disk: seq<Sector>
    var transfers: nat

    ghost predicate Valid()
      reads this, winprev, winsectprev
    {
      && 0 < fatbase && fatbase + fsize <= |disk|
      && winprev.Length == 2 * sectorSize && winsectprev.Length == 2 && (winprev as object) != winsectprev
      && Shaped(State(), sectorSize)
    }

    ghost function State(): Win
      requires winprev.Length == 2 * sectorSize
      reads this, winprev, winsectprev
    {
      Win(winsectprev[..], [winprev[..sectorSize], winprev[sectorSize..]], Flags(wflag), win, winsect, winlastindex,
          disk, transfers)
    }

    /** A window that no sector has been read into, as mounting leaves it. */
    constructor (sectorSize: nat, io: nat -> Io, disk: seq<Sector>, fatbase: nat, fsize: nat, nFatent: nat)
      requires sectorSize > 0 && 0 < fatbase && fatbase + fsize <= |disk|
      requires forall s :: 0 <= s < |disk| ==> |disk[s]| == sectorSize
      ensures Valid() && fresh(winprev) && fresh(winsectprev)
      ensures this.sectorSize == sectorSize && this.io == io && this.disk == disk && transfers == 0
      ensures this.fatbase == fatbase && this.fsize == fsize && this.nFatent == nFatent
      ensures Good(State(), sectorSize, fatbase, fatbase + fsize)
      ensures State().labels == [0, 0] && State().dirty == [false, false] && win == 0 && winsect == 0
      ensures winlastindex == 0
    {
      this.sectorSize, this.io, this.disk, this.transfers := sectorSize, io, disk, 0;
      this.fatbase, this.fsize, this.nFatent := fatbase, fsize, nFatent;
      winprev := new Byte[2 * sectorSize](_ => 0);
      winsectprev := new nat[2](_ => 0);
      win, winsect, winlastindex, wflag := 0, 0, 0, 0;
      new;
      SetAndCleared(0, 0);
    }

    function Base(i: nat): nat {
      if i == 0 then 0 else sectorSize
    }

    /** Bytes are copied into buffer i. */
    method Fill(i: nat, data: Sector)
      requires Valid() && i < 2 && |data| == sectorSize
      modifies winprev
      ensures Valid() && State() == old(State()).(bufs := old(State()).bufs[i := data])
    {
      var base := Base(i);
      forall k | base <= k < base + sectorSize {
        winprev[k] := data[k - base];
      }
      assert winsectprev[..] == old(winsectprev[..]);
      if i == 0 {
        assert winprev[..sectorSize] == data && winprev[sectorSize..] == old(winprev[sectorSize..]);
      } else {
        assert winprev[sectorSize..] == data && winprev[..sectorSize] == old(winprev[..sectorSize]);
      }
    }

    /** disk_read of one sector to where win points. */
    method DiskRead(sector: nat) returns (ok: bool)
      requires Valid() && sector < |disk|
      modifies this`transfers, winprev
      ensures Valid() && ok == io(old(transfers)).Works?
      ensures var w := old(State());
              State() == if ok then w.(bufs := w.bufs[win := disk[sector]], next := w.next + 1)
                         else JunkRead(w, Fitted(io(old(transfers)).junk, sectorSize))
    {
      match io(transfers) {
        case Works =>
          Fill(win, disk[sector]);
          ok := true;
        case Breaks(junk, _) =>
          Fill(win, Fitted(junk, sectorSize));
          ok := false;
      }
      transfers := transfers + 1;
    }

    /** disk_write of buffer i to its sector; if it works the buffer is clean. */
    method WriteBuffer(i: nat) returns (ok: bool)
      requires Valid() && i < 2
      modifies this`transfers, this`disk, this`wflag
      ensures Valid() && Done(State(), ok) == WriteBack(old(State()), i, io, sectorSize)
    {
      hide Flags, Bit, IsSet, WithBit, WithoutBit, Fitted;
      ghost var w := State();
      assert winsectprev[i] == w.labels[i] < |disk| && Shaped(w, sectorSize);
      SetAndCleared(wflag, i);
      hide Shaped;
      ok := io(transfers).Works?;
      var data := if i == 0 then winprev[..sectorSize] else winprev[sectorSize..];
      if !ok {
        data := Fitted(io(transfers).junk, sectorSize);
      }
      disk, transfers := disk[winsectprev[i] := data], transfers + 1;
      if ok {
        wflag := WithoutBit(wflag, i);
      }
      assert State() == WriteBack(w, i, io, sectorSize).w;
    }

    /** disk_write of both buffers at once; if it works both are clean. */
    method WriteBuffers() returns (ok: bool)
      requires Valid() && winsectprev[0] + 1 == winsectprev[1]
      modifies this`transfers, this`disk, this`wflag
      ensures Valid() && Done(State(), ok) == WriteBoth(old(State()), io, sectorSize)
    {
      hide Flags, Bit, IsSet, WithBit, WithoutBit, Fitted;
      ghost var w := State();
      assert winsectprev[1] == w.labels[1] < |disk| && Shaped(w, sectorSize);
      SetAndCleared(wflag, 0);
      hide Shaped;
      ok := io(transfers).Works?;
      var data, data2 := winprev[..sectorSize], winprev[sectorSize..];
      if !ok {
        data, data2 := Fitted(io(transfers).junk, sectorSize), Fitted(io(transfers).junk2, sectorSize);
      }
      disk, transfers := disk[winsectprev[0] := data][winsectprev[1] := data2], transfers + 1;
      if ok {
        wflag := 0;
      }
      assert State() == WriteBoth(w, io, sectorSize).w;
    }

    /** buff_validation: a buffer labelled with the sector becomes the current one. */
    method BuffValidation(sect: nat) returns (found: bool)
      requires Valid()
      modifies this`win, this`winsect
      ensures Valid() && found == (sect != 0 && Cached(State(), sect))
      ensures found ==> State() == old(State()).(win := win, winsect := sect) && winsectprev[win] == sect
      ensures found && winsectprev[0] == sect ==> win == 0
      ensures !found ==> State() == old(State())
    {
      if sect == 0 {
        return false;
      }
      var i := 0;
      while i < 2
        invariant 0 <= i <= 2 && State() == old(State()) && Valid()
        invariant forall k :: 0 <= k < i ==> winsectprev[k] != sect
      {
        if winsectprev[i] != 0 && winsectprev[i] == sect {
          winsect, win := sect, i;
          return true;
        }
        i := i + 1;
      }
      return false;
    }

    /** sync_winindex, without the writes to a second copy of the table. */
    method SyncWinindex(index: nat) returns (ok: bool)
      requires Valid() && index < 2
      modifies this`transfers, this`disk, this`wflag
      ensures Valid() && Done(State(), ok) == Sync(old(State()), index, io, sectorSize)
    {
      hide WriteBack, WriteBoth, Shaped;
      if winsectprev[index] == 0 {
        return true;
      }
      if IsSet(wflag, index) {
        if winlastindex == index {
          var index2 := if index == 0 then 1 else 0;
          if IsSet(wflag, index2) {
            if winsectprev[0] + 1 == winsectprev[1] {
              ok := WriteBuffers();
              return;
            }
            ok := WriteBuffer(index2);
            if !ok {
              return;
            }
          }
        }
        ok := WriteBuffer(index);
        return;
      }
      return true;
    }

    /** move_window. */
    method MoveWindow(sector: nat) returns (ok: bool)
      requires Valid() && 0 < sector < |disk|
      modifies this`transfers, this`disk, this`wflag, this`win, this`winsect, this`winlastindex, winprev, winsectprev
      ensures Valid() && Done(State(), ok) == Move(old(State()), sector, io, sectorSize)
    {
      ghost var w := State();
      assert Shaped(w, sectorSize) && Shaped(Turned(w), sectorSize);
      hide Sync, Flags, Fitted, Shaped;
      var index := 0;
      var found := BuffValidation(sector);
      if !found {
        if winsect != 0 {
          index := if winlastindex == 0 then 1 else 0;
          win := index;
          winsect := winsectprev[index];
        }
        assert State() == Turned(w);
        ok := SyncWinindex(win);
        if !ok {
          return;
        }
        ok := DiskRead(sector);
        if !ok {
          return;
        }
        winsect := sector;
        winsectprev[index] := sector;
        winlastindex := index;
      }
      assert State() == Move(w, sector, io, sectorSize).w;
      return true;
    }

    /** set_dirty. */
    method SetDirty()
      requires Valid()
      modifies this`wflag
      ensures Valid() && State() == Marked(old(State()))
    {
      SetAndCleared(wflag, win);
      wflag := WithBit(wflag, win);
    }

    /** sync_fs, without an FSInfo sector. */
    method SyncFs() returns (ok: bool)
      requires Valid()
      modifies this`transfers, this`disk, this`wflag
      ensures Valid() && Done(State(), ok) == SyncBoth(old(State()), io, sectorSize)
    {
      ok := SyncWinindex(0);
      if ok {
        ok := SyncWinindex(1);
      }
    }

    /** A FAT16 table of nFatent entries. */
    ghost predicate Fat16Fits() {
      sectorSize > 0 && sectorSize % 2 == 0 && 2 * nFatent <= fsize * sectorSize
    }

    /** The sector of an entry. */
    function SectorOfWord(clst: nat): nat
      requires sectorSize / 2 > 0
    {
      fatbase + clst / (sectorSize / 2)
    }

    /** And where it is in there. */
    function OffsetOfWord(clst: nat): nat
      requires sectorSize > 0
    {
      clst * 2 % sectorSize
    }

    lemma WordPlace(clst: nat)
      requires Fat16Fits() && clst < nFatent
      ensures InFat(SectorOfWord(clst), fatbase, fatbase + fsize) && OffsetOfWord(clst) + 2 <= sectorSize
      ensures InWindow(SectorOfWord(clst) - fatbase, OffsetOfWord(clst), sectorSize) == 2 * clst
    {
      hide InWindow;
      WordPlaced(clst, sectorSize, sectorSize / 2, fsize);
    }

    /** The table is intact, and if the read that brings the entry fails it does no harm. */
    ghost predicate SafeFor(w: Win, clst: nat)
      requires Shaped(w, sectorSize) && sectorSize > 1
    {
      && Good(w, sectorSize, fatbase, fatbase + fsize)
      && ServedSafely(w, Visit(SectorOfWord(clst)), io, sectorSize, fatbase, fatbase + fsize)
    }

    /** The bytes of the allocation table, as the window stands for them. */
    ghost function Fat(w: Win): seq<Byte>
      requires Good(w, sectorSize, fatbase, fatbase + fsize)
    {
      Flatten(Contents(w, sectorSize, fatbase, fatbase + fsize), sectorSize)
    }

    /** LD_WORD in the current buffer. */
    method LdWord(off: nat) returns (r: nat)
      requires Valid() && off + 2 <= sectorSize
      ensures r == Num(LoadWord(State().bufs[win], off) as bv32)
    {
      var data := if win == 0 then winprev[..sectorSize] else winprev[sectorSize..];
      assert data == State().bufs[win];
      hide *;
      r := Num(LoadWord(data, off) as bv32);
    }

    lemma EntrySeen(w: Win, clst: nat)
      requires Shaped(w, sectorSize) && fatbase + fsize <= |w.disk| && 0 < fatbase && Fat16Fits() && clst < nFatent
      ensures 0 < SectorOfWord(clst) < |w.disk| && OffsetOfWord(clst) + 2 <= sectorSize
      ensures SafeFor(w, clst) ==>
                var d := Move(w, SectorOfWord(clst), io, sectorSize);
                && Good(d.w, sectorSize, fatbase, fatbase + fsize)
                && Fat(d.w) == Fat(w) && 2 * clst + 2 <= |Fat(w)|
                && (d.ok ==> LoadWord(d.w.bufs[d.w.win], OffsetOfWord(clst)) == LoadWord(Fat(w), 2 * clst))
    {
      WordPlace(clst);
      hide Move, Flatten, Contents, LoadWord, InWindow, Shaped, Good, ServedSafely;
      hide SectorOfWord, OffsetOfWord;
      if SafeFor(w, clst) {
        WordSeen(w, SectorOfWord(clst), OffsetOfWord(clst), io, sectorSize, fatbase, fatbase + fsize);
      }
    }

    /** get_fat on FAT16. */
    method GetFat16(clst: nat) returns (r: nat)
      requires Valid() && Fat16Fits() && 2 <= clst < nFatent
      modifies this`transfers, this`disk, this`wflag, this`win, this`winsect, this`winlastindex, winprev, winsectprev
      ensures Valid() && 0 < SectorOfWord(clst) < |old(disk)|
      ensures var d := Move(old(State()), SectorOfWord(clst), io, sectorSize);
              && State() == d.w && (!d.ok ==> r == UNKNOWN)
              && (SafeFor(old(State()), clst) ==>
                    && Good(d.w, sectorSize, fatbase, fatbase + fsize)
                    && Fat(d.w) == Fat(old(State())) && 2 * clst + 2 <= |Fat(d.w)|
                    && (d.ok ==> r == Num(LoadWord(Fat(d.w), 2 * clst) as bv32)))
    {
      WordPlace(clst);
      EntrySeen(State(), clst);
      hide *;
      var ok := MoveWindow(SectorOfWord(clst));
      if !ok {
        return UNKNOWN;
      }
      r := LdWord(OffsetOfWord(clst));
    }

    /** ST_WORD in the current buffer. */
    method PutWord(off: nat, val: bv32)
      requires Valid() && off + 2 <= sectorSize
      modifies winprev
      ensures Valid()
      ensures var w := old(State()); State() == w.(bufs := w.bufs[win := Overlay(w.bufs[win], off, StoredWord(val))])
    {
      hide Byte0, Byte1, Flags;
      var p := Base(win) + off;
      ghost var before := winprev[..];
      StWord(winprev, p, val);
      assert winsectprev[..] == old(winsectprev[..]);
      assert winprev[..] == before[p := Byte0(val)][p + 1 := Byte1(val)];
      WordInHalf(before, winprev[..], win, off, sectorSize, val);
    }

    /** A word of a sector is changed and its buffer marked as dirty; the mark is set also when
        the move fails. */
    method PatchWord(s: nat, off: nat, val: bv32) returns (ok: bool)
      requires Valid() && 0 < s < |disk| && off + 2 <= sectorSize
      modifies this`transfers, this`disk, this`wflag, this`win, this`winsect, this`winlastindex, winprev, winsectprev
      ensures Valid()
      ensures Done(State(), ok)
              == Serve(old(State()), Patch(s, off, StoredWord(val)), io, sectorSize, fatbase, fatbase + fsize)
    {
      hide Move, Overlay, Flags, StoredWord;
      ok := MoveWindow(s);
      if ok {
        PutWord(off, val);
      }
      SetDirty();
    }

    ghost function EntryPatch(clst: nat, val: bv32): Request
      requires sectorSize > 1
    {
      Patch(SectorOfWord(clst), OffsetOfWord(clst), StoredWord(Low16(val)))
    }

    lemma EntryPlaced(w: Win, clst: nat, val: bv32)
      requires Shaped(w, sectorSize) && fatbase + fsize <= |w.disk| && 0 < fatbase && Fat16Fits() && clst < nFatent
      ensures Sensible(EntryPatch(clst, val), |w.disk|, sectorSize, fatbase, fatbase + fsize)
    {
      hide InWindow, Low16, Shaped, SectorOfWord, OffsetOfWord;
      WordPlace(clst);
    }

    lemma EntryStored(w: Win, clst: nat, val: bv32)
      requires Shaped(w, sectorSize) && fatbase + fsize <= |w.disk| && 0 < fatbase && Fat16Fits() && clst < nFatent
      ensures Sensible(EntryPatch(clst, val), |w.disk|, sectorSize, fatbase, fatbase + fsize)
      ensures SafeFor(w, clst) ==>
                var d := Serve(w, EntryPatch(clst, val), io, sectorSize, fatbase, fatbase + fsize);
                && Good(d.w, sectorSize, fatbase, fatbase + fsize) && Holds(Fat(w), Fat16, clst)
                && Fat(d.w) == if d.ok then Updated(Fat(w), Fat16, clst, val) else Fat(w)
    {
      hide Serve, Updated, Flatten, Contents, Low16, StoredWord, InWindow, Shaped, Good, ServedSafely, Sensible, Holds;
      hide SectorOfWord, OffsetOfWord;
      EntryPlaced(w, clst, val);
      WordPlace(clst);
      if SafeFor(w, clst) {
        WordStored(w, SectorOfWord(clst), OffsetOfWord(clst), clst, val, io, sectorSize, fatbase, fatbase + fsize);
      }
    }

    /** put_fat on FAT16: whether the move works or not, the buffer is marked as dirty. */
    method PutFat16(clst: nat, val: bv32) returns (ok: bool)
      requires Valid() && Fat16Fits() && 2 <= clst < nFatent
      modifies this`transfers, this`disk, this`wflag, this`win, this`winsect, this`winlastindex, winprev, winsectprev
      ensures Valid() && Sensible(EntryPatch(clst, val), |old(disk)|, sectorSize, fatbase, fatbase + fsize)
      ensures Done(State(), ok) == Serve(old(State()), EntryPatch(clst, val), io, sectorSize, fatbase, fatbase + fsize)
      ensures SafeFor(old(State()), clst) ==>
                && Good(State(), sectorSize, fatbase, fatbase + fsize)
                && Holds(Fat(old(State())), Fat16, clst)
                && Fat(State()) == if ok then Updated(Fat(old(State())), Fat16, clst, val) else Fat(old(State()))
    {
      WordPlace(clst);
      EntryStored(State(), clst, val);
      hide *;
      ok := PatchWord(SectorOfWord(clst), OffsetOfWord(clst), Low16(val));
    }
  }

  // ---------------------------------------------------------------------
  // It happens
  // ---------------------------------------------------------------------

  /** One link of the first sector of the table and one of the second are looked up. */
  method LookAtTwo(w: Window)
    requires w.Valid() && w.Fat16Fits() && w.nFatent > 256 && w.sectorSize == 512 && w.fsize > 1
    modifies w, w.winprev, w.winsectprev
    ensures w.Valid()
    ensures w.State() == Move(Move(old(w.State()), w.fatbase, w.io, 512).w, w.fatbase + 1, w.io, 512).w
  {
    assert w.SectorOfWord(2) == w.fatbase && w.SectorOfWord(256) == w.fatbase + 1;
    hide *;
    var _ := w.GetFat16(2);
    var _ := w.GetFat16(256);
  }

  /** On any volume whose table has three sectors: links of the first and the second one are
      looked up, and the write of one in the third fails because the sector cannot be read.
      sync_fs then works, and writes what came in over the first sector, 256 links. */
  method SectorIsDestroyed(disk: seq<Sector>, fatbase: nat, fsize: nat, junk: Sector, val: bv32)
    returns (w: Window, ok: bool, synced: bool)
    requires 0 < fatbase && 3 <= fsize && fatbase + fsize <= |disk| && |junk| == 512
    requires forall s :: 0 <= s < |disk| ==> |disk[s]| == 512
    ensures w.Valid() && !ok && synced && w.disk == disk[fatbase := junk]
  {
    w := new Window(512, k => if k == 2 then Breaks(junk, []) else Works, disk, fatbase, fsize, 768);
    ghost var s := w.State();
    FirstSectorGoes(s, fatbase, fatbase + 1, w.EntryPatch(512, val), w.io, 512, fatbase, fatbase + fsize);
    LookAtTwo(w);
    hide *;
    ok := w.PutFat16(512, val);
    synced := w.SyncFs();
  }

  /** On any volume whose table has two sectors: a link in the first one is written, and the
      write of one in the second fails because the sector cannot be read. sync_fs then
      works, and writes what came in to sector 0, which no buffer is labelled with. */
  method BootSectorIsDestroyed(disk: seq<Sector>, fatbase: nat, fsize: nat, junk: Sector, val: bv32)
    returns (w: Window, ok: bool, synced: bool)
    requires 0 < fatbase && 2 <= fsize && fatbase + fsize <= |disk| && |junk| == 512
    requires forall s :: 0 <= s < |disk| ==> |disk[s]| == 512
    ensures w.Valid() && !ok && synced && w.disk[0] == junk
  {
    w := new Window(512, k => if k == 1 then Breaks(junk, []) else Works, disk, fatbase, fsize, 512);
    ghost var s := w.State();
    SectorZeroGoes(s, w.EntryPatch(2, val), w.EntryPatch(256, val), w.io, 512, fatbase, fatbase + fsize);
    hide Move, Serve, SyncBoth, Good, Flatten, Contents, Low16;
    ok := w.PutFat16(2, val);
    ok := w.PutFat16(256, val);
    synced := w.SyncFs();
  }
}
