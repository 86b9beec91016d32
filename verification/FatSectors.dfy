/** The allocation table as the bytes of its sectors, one behind the other, and FAT16 entries
    in there: what the window shows of them, and what a change in one buffer changes. */
module FatSectors {
  import opened Bytes
  import opened FieldCodec
  import opened FatTable
  import opened FatLinks
  import opened FatWindow

  lemma Monotone(a: nat, b: nat, m: nat)
    requires a <= b
    ensures a * m <= b * m
  {
  }

  lemma SectorOf(k: nat, n: nat, ss: nat)
    requires ss > 0 && k < n * ss
    ensures 0 <= k / ss < n
  {
    if k / ss >= n {
      Monotone(n, k / ss, ss);
    }
  }

  /** Sectors, one behind the other. */
  function Flatten(c: seq<Sector>, ss: nat): (b: seq<Byte>)
    requires ss > 0 && forall i :: 0 <= i < |c| ==> |c[i]| == ss
    ensures |b| == |c| * ss
  {
    seq(|c| * ss, k requires 0 <= k < |c| * ss => SectorOf(k, |c|, ss); c[k / ss][k % ss])
  }

  lemma FlattenAt(c: seq<Sector>, ss: nat, q: nat, off: nat)
    requires ss > 0 && (forall i :: 0 <= i < |c| ==> |c[i]| == ss) && q < |c| && off < ss
    ensures InWindow(q, off, ss) < |c| * ss && Flatten(c, ss)[InWindow(q, off, ss)] == c[q][off]
  {
    DivModUnique(InWindow(q, off, ss), ss, q, off);
    Monotone(q + 1, |c|, ss);
  }

  lemma NextPlace(q: nat, off: nat, ss: nat)
    ensures InWindow(q, off + 1, ss) == InWindow(q, off, ss) + 1
  {
  }

  lemma SamePlace(k: nat, q: nat, off: nat, ss: nat)
    requires ss > 0 && off < ss
    ensures k == InWindow(q, off, ss) <==> k / ss == q && k % ss == off
  {
    WindowOfByte(k, ss);
    DivModUnique(InWindow(q, off, ss), ss, q, off);
  }

  lemma EvenRest(c: nat, half: nat)
    requires half > 0
    ensures c * 2 % (half * 2) == 2 * (c % half)
  {
    var q := c / half;
    assert c == q * half + c % half;
    Scale(q, half, c % half, 2);
    ScaleBelow(c % half, half, 2);
    DivModUnique(c * 2, half * 2, q, c % half * 2);
  }

  lemma EntryPlace(c: nat, half: nat, fsize: nat)
    requires half > 0 && 2 * c < fsize * (half * 2)
    ensures c / half < fsize && c * 2 % (half * 2) + 2 <= half * 2
    ensures InWindow(c / half, c * 2 % (half * 2), half * 2) == 2 * c
  {
    hide InWindow;
    WindowOfEntry(c, 2, half);
    EvenRest(c, half);
  }

  lemma WordPlaced(c: nat, ss: nat, half: nat, fsize: nat)
    requires half > 0 && ss == half * 2 && 2 * c < fsize * ss
    ensures c / half < fsize && c * 2 % ss + 2 <= ss && InWindow(c / half, c * 2 % ss, ss) == 2 * c
  {
    hide InWindow;
    EntryPlace(c, half, fsize);
  }

  /** The two bytes that ST_WORD writes. */
  function StoredWord(val: bv32): (b: seq<Byte>)
    ensures |b| == 2
  {
    [Byte0(val), Byte1(val)]
  }

  lemma OverlaidWord(b: Sector, off: nat, val: bv32, i: nat)
    requires off + 2 <= |b| && i < |b|
    ensures Overlay(b, off, StoredWord(val))[i]
            == if i == off then Byte0(val) else if i == off + 1 then Byte1(val) else b[i]
  {
    hide Byte0, Byte1;
  }

  lemma ByteInTable(c: seq<Sector>, ss: nat, q: nat, off: nat, val: bv32, k: nat)
    requires ss > 0 && (forall i :: 0 <= i < |c| ==> |c[i]| == ss) && q < |c| && off + 2 <= ss && k < |c| * ss
    ensures Flatten(c[q := Overlay(c[q], off, StoredWord(val))], ss)[k]
            == if k == InWindow(q, off, ss) then Byte0(val)
               else if k == InWindow(q, off, ss) + 1 then Byte1(val) else Flatten(c, ss)[k]
  {
    hide Byte0, Byte1, StoredWord, Overlay;
    SectorOf(k, |c|, ss);
    NextPlace(q, off, ss);
    SamePlace(k, q, off, ss);
    SamePlace(k, q, off + 1, ss);
    OverlaidWord(c[q], off, val, k % ss);
    hide InWindow;
  }

  /** A word changed in its sector is a word changed in the table. */
  lemma WordInTable(c: seq<Sector>, ss: nat, q: nat, off: nat, val: bv32)
    requires ss > 0 && (forall i :: 0 <= i < |c| ==> |c[i]| == ss) && q < |c| && off + 2 <= ss
    ensures InWindow(q, off, ss) + 2 <= |c| * ss
    ensures Flatten(c[q := Overlay(c[q], off, StoredWord(val))], ss)
            == Apply(Flatten(c, ss), StoreWord(InWindow(q, off, ss), val))
  {
    FlattenAt(c, ss, q, off + 1);
    NextPlace(q, off, ss);
    hide Flatten, Byte0, Byte1, InWindow, Overlay, StoredWord;
    var c' := c[q := Overlay(c[q], off, StoredWord(val))];
    forall k | 0 <= k < |c| * ss
      ensures Flatten(c', ss)[k] == Apply(Flatten(c, ss), StoreWord(InWindow(q, off, ss), val))[k]
    {
      ByteInTable(c, ss, q, off, val, k);
    }
  }

  lemma SameWord(a: seq<Byte>, p: nat, b: seq<Byte>, q: nat)
    requires p + 2 <= |a| && q + 2 <= |b| && a[p] == b[q] && a[p + 1] == b[q + 1]
    ensures LoadWord(a, p) == LoadWord(b, q)
  {
  }

  lemma WordOfTable(c: seq<Sector>, ss: nat, q: nat, off: nat)
    requires ss > 0 && (forall i :: 0 <= i < |c| ==> |c[i]| == ss) && q < |c| && off + 2 <= ss
    ensures InWindow(q, off, ss) + 2 <= |Flatten(c, ss)|
    ensures LoadWord(c[q], off) == LoadWord(Flatten(c, ss), InWindow(q, off, ss))
  {
    hide InWindow, Flatten, LoadWord;
    FlattenAt(c, ss, q, off);
    FlattenAt(c, ss, q, off + 1);
    NextPlace(q, off, ss);
    SameWord(c[q], off, Flatten(c, ss), InWindow(q, off, ss));
  }

  /** What a FAT16 entry reads as in the buffer that move_window brought is what it reads as
      in the table. */
  lemma WordSeen(w: Win, s: nat, off: nat, io: nat -> Io, ss: nat, lo: nat, hi: nat)
    requires Good(w, ss, lo, hi) && InFat(s, lo, hi) && off + 2 <= ss && ServedSafely(w, Visit(s), io, ss, lo, hi)
    ensures var d := Move(w, s, io, ss);
            && Good(d.w, ss, lo, hi) && |d.w.disk| == |w.disk|
            && Contents(d.w, ss, lo, hi) == Contents(w, ss, lo, hi)
            && InWindow(s - lo, off, ss) + 2 <= |Flatten(Contents(w, ss, lo, hi), ss)|
            && (d.ok ==> LoadWord(d.w.bufs[d.w.win], off)
                         == LoadWord(Flatten(Contents(w, ss, lo, hi), ss), InWindow(s - lo, off, ss)))
  {
    assert Shaped(w, ss) && 0 < lo <= hi <= |w.disk|;
    hide *;
    LookServed(w, s, io, ss, lo, hi);
    assert InFat(s, lo, hi) && s - lo < hi - lo;
    WordOfTable(Contents(w, ss, lo, hi), ss, s - lo, off);
  }

  lemma EntryApplied(c: seq<Sector>, q: Request, ok: bool, ss: nat, lo: nat, e: nat, val: bv32)
    requires ss > 0 && (forall i :: 0 <= i < |c| ==> |c[i]| == ss)
    requires q.Patch? && lo <= q.s < lo + |c| && q.at + 2 <= ss && q.bytes == StoredWord(Low16(val))
    requires InWindow(q.s - lo, q.at, ss) == 2 * e
    ensures var fat := Flatten(c, ss);
            && Holds(fat, Fat16, e)
            && Flatten(Applied(c, q, ok, lo), ss) == if ok then Updated(fat, Fat16, e, val) else fat
  {
    hide Flatten, InWindow, Low16, Apply, Overlay, StoredWord;
    WordInTable(c, ss, q.s - lo, q.at, Low16(val));
  }

  /** A FAT16 entry written in its buffer is written in the table, if it is written at all. */
  lemma WordStored(w: Win, s: nat, off: nat, c: nat, val: bv32, io: nat -> Io, ss: nat, lo: nat, hi: nat)
    requires Good(w, ss, lo, hi) && InFat(s, lo, hi) && off + 2 <= ss && ServedSafely(w, Visit(s), io, ss, lo, hi)
    requires InWindow(s - lo, off, ss) == 2 * c
    ensures var q := Patch(s, off, StoredWord(Low16(val)));
            var d, fat := Serve(w, q, io, ss, lo, hi), Flatten(Contents(w, ss, lo, hi), ss);
            && Good(d.w, ss, lo, hi) && |d.w.disk| == |w.disk| && Holds(fat, Fat16, c)
            && Flatten(Contents(d.w, ss, lo, hi), ss) == if d.ok then Updated(fat, Fat16, c, val) else fat
  {
    assert Shaped(w, ss) && 0 < lo <= hi <= |w.disk|;
    hide *;
    var q := Patch(s, off, StoredWord(Low16(val)));
    ServeKeeps(w, q, io, ss, lo, hi);
    EntryApplied(Contents(w, ss, lo, hi), q, Serve(w, q, io, ss, lo, hi).ok, ss, lo, c, val);
  }
}
