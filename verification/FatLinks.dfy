/** From the bytes of the allocation table to its links as numbers, and from a byte of
    the table to its place in a sector. */
module FatLinks {
  import opened Bytes
  import opened FieldCodec
  import opened FatTable
  import opened FatChain

  /** The number that a uint32_t stands for. */
  function Num(w: bv32): nat {
    w as int
  }

  /** An entry as a number. */
  function Link(s: seq<Byte>, t: FatType, c: nat): nat
    requires Holds(s, t, c)
  {
    Num(Entry(s, t, c))
  }

  predicate HoldsAll(s: seq<Byte>, t: FatType, n: nat) {
    n >= 3 && Holds(s, t, n - 1)
  }

  lemma HoldsEach(s: seq<Byte>, t: FatType, n: nat, c: nat)
    requires HoldsAll(s, t, n) && c < n
    ensures Holds(s, t, c)
  {
  }

  /** The table of links that the bytes stand for. */
  function Links(s: seq<Byte>, t: FatType, n: nat): (r: Table)
    requires HoldsAll(s, t, n)
    ensures |r| == n
  {
    seq(n, c requires 0 <= c < n => HoldsEach(s, t, n, c); Link(s, t, c))
  }

  /** The largest number of entries of a volume of each type; mounting picks the type
      by the number of clusters. */
  function Limit(t: FatType): nat {
    match t
    case Fat12 => 4087
    case Fat16 => 65527
    case Fat32 => 0x0FFF_FFFF
  }

  /** The uint32_t with a given value. */
  function Bits(v: nat): bv32 {
    if v == 0 then 0 else Double(Bits(v / 2), v % 2 == 1)
  }

  function Double(w: bv32, odd: bool): bv32 {
    if odd then (w << 1) | 1 else w << 1
  }

  lemma DoubleEven(w: bv32, d: bv32)
    requires w as int < 0x8000_0000 && d == w << 1
    ensures d as int == 2 * (w as int)
  {
  }

  lemma DoubleOdd(w: bv32, d: bv32)
    requires w as int < 0x8000_0000 && d == (w << 1) | 1
    ensures d as int == 2 * (w as int) + 1
  {
  }

  lemma DoubleValue(w: bv32, odd: bool)
    requires Num(w) < 0x8000_0000
    ensures Num(Double(w, odd)) == 2 * Num(w) + if odd then 1 else 0
  {
    if odd {
      DoubleOdd(w, Double(w, odd));
    } else {
      DoubleEven(w, Double(w, odd));
    }
  }

  lemma ZeroValue()
    ensures Num(0) == 0
  {
  }

  lemma {:induction false} BitsValue(v: nat)
    requires v <= UNKNOWN
    ensures Num(Bits(v)) == v
  {
    hide Num, Double;
    ZeroValue();
    if v > 0 {
      BitsValue(v / 2);
      DoubleValue(Bits(v / 2), v % 2 == 1);
    }
  }

  lemma CutSmall12(w: bv32)
    requires Num(w) < 4087
    ensures Low12(w) == w
  {
  }

  lemma CutSmall16(w: bv32)
    requires Num(w) < 65527
    ensures Low16(w) == w
  {
  }

  lemma CutSmall28(w: bv32)
    requires Num(w) < 0x0FFF_FFFF
    ensures Low28(w) == w
  {
  }

  /** A cluster number is stored without loss. */
  lemma CutSmall(t: FatType, w: bv32)
    requires Num(w) < Limit(t)
    ensures Cut(t, w) == w
  {
    hide Num, Low12, Low16, Low28;
    match t
    case Fat12 => CutSmall12(w);
    case Fat16 => CutSmall16(w);
    case Fat32 => CutSmall28(w);
  }

  lemma CutValue(t: FatType, v: nat)
    requires v < Limit(t)
    ensures Num(Cut(t, Bits(v))) == v
  {
    hide Num, Bits, Cut;
    BitsValue(v);
    CutSmall(t, Bits(v));
  }

  lemma LastLinkBits(w: bv32)
    requires w == 0 || w as int == 0x0FFF_FFFF
    ensures w == 0
            || ((w & 0xFFF) as int == 4095 && (w & 0xFFFF) as int == 65535 && (w & 0x0FFF_FFFF) as int == 0x0FFF_FFFF)
  {
    assert w == 0 || w == 0x0FFF_FFFF;
  }

  lemma CutLast(t: FatType, w: bv32)
    ensures Num(w) == LAST_LINK ==> Num(Cut(t, w)) >= Limit(t)
  {
    if Num(w) == LAST_LINK {
      ZeroValue();
      LastLinkBits(w);
    }
  }

  /** The end mark stays beyond every cluster number. */
  lemma CutLastLink(t: FatType)
    ensures Num(Cut(t, Bits(LAST_LINK))) >= Limit(t)
  {
    hide Num, Bits, Cut;
    BitsValue(LAST_LINK);
    CutLast(t, Bits(LAST_LINK));
  }

  lemma CutZero(t: FatType)
    ensures Num(Cut(t, Bits(0))) == 0
  {
  }

  /** put_fat on the bytes is an assignment in the table of links. */
  lemma {:induction false} LinksUpdated(s: seq<Byte>, t: FatType, n: nat, c: nat, val: nat)
    requires HoldsAll(s, t, n) && c < n && val <= UNKNOWN
    ensures Holds(s, t, c)
    ensures var s' := Updated(s, t, c, Bits(val));
            |s'| == |s| && Links(s', t, n) == Links(s, t, n)[c := Num(Cut(t, Bits(val)))]
  {
    hide Num, Bits, Cut, Entry, Updated;
    HoldsEach(s, t, n, c);
    UpdatedLength(s, t, c, Bits(val));
    EntryOfUpdated(s, t, c, Bits(val));
    var s' := Updated(s, t, c, Bits(val));
    forall d | 0 <= d < n
      ensures Links(s', t, n)[d] == Links(s, t, n)[c := Num(Cut(t, Bits(val)))][d]
    {
      HoldsEach(s, t, n, d);
      if d != c {
        OtherEntriesStay(s, t, c, d, Bits(val));
      }
    }
  }

  /** The link of which only the first byte has been written: the low eight bits of an
      even entry, the low four of an odd one, are new. */
  function HalfLink(old': nat, val: nat, odd: bool): nat {
    if odd then old' / 16 * 16 + val % 16 else old' / 256 * 256 + val % 256
  }

  function High(w: bv32, odd: bool): bv32 {
    if odd then w >> 4 else w >> 8
  }

  function Low(w: bv32, odd: bool): bv32 {
    if odd then w & 0xF else w & 0xFF
  }

  function Compose(hi: bv32, lo: bv32, odd: bool): bv32 {
    if odd then (hi << 4) | lo else (hi << 8) | lo
  }

  predicate Narrow(hi: bv32, lo: bv32, odd: bool) {
    if odd then hi <= 0xFF && lo <= 0xF else hi <= 0xF && lo <= 0xFF
  }

  lemma NibbleValue(w: bv32, hi: bv32, lo: bv32)
    requires w == (hi << 4) | lo && hi <= 0xFF && lo <= 0xF
    ensures w as int == 16 * (hi as int) + (lo as int) && lo as int < 16
  {
  }

  lemma ByteValue(w: bv32, hi: bv32, lo: bv32)
    requires w == (hi << 8) | lo && hi <= 0xF && lo <= 0xFF
    ensures w as int == 256 * (hi as int) + (lo as int) && lo as int < 256
  {
  }

  lemma ComposeOdd(hi: bv32, lo: bv32)
    requires Narrow(hi, lo, true)
    ensures Num(Compose(hi, lo, true)) == 16 * Num(hi) + Num(lo) && Num(lo) < 16
  {
    NibbleValue(Compose(hi, lo, true), hi, lo);
  }

  lemma ComposeEven(hi: bv32, lo: bv32)
    requires Narrow(hi, lo, false)
    ensures Num(Compose(hi, lo, false)) == 256 * Num(hi) + Num(lo) && Num(lo) < 256
  {
    ByteValue(Compose(hi, lo, false), hi, lo);
  }

  lemma SplitBits(w: bv32, odd: bool)
    requires Low12(w) == w
    ensures w == Compose(High(w, odd), Low(w, odd), odd) && Narrow(High(w, odd), Low(w, odd), odd)
  {
  }

  lemma SplitValue(w: bv32, odd: bool)
    requires Low12(w) == w
    ensures var m := if odd then 16 else 256;
            Num(w) == m * Num(High(w, odd)) + Num(Low(w, odd)) && Num(Low(w, odd)) < m
  {
    hide Num, High, Low, Low12, Compose, Narrow;
    SplitBits(w, odd);
    if odd {
      ComposeOdd(High(w, true), Low(w, true));
    } else {
      ComposeEven(High(w, false), Low(w, false));
    }
  }

  lemma HalfBits(o: bv32, v: bv32, odd: bool)
    requires Low12(o) == o
    ensures var h := Half12(o, v, odd);
            Low12(h) == h && High(h, odd) == High(o, odd) && Low(h, odd) == Low(v, odd)
  {
  }

  lemma Recombine(o: nat, v: nat, h: nat, ohi: nat, olo: nat, vhi: nat, vlo: nat, m: nat)
    requires m > 0 && o == m * ohi + olo && v == m * vhi + vlo && h == m * ohi + vlo && olo < m && vlo < m
    ensures h == o / m * m + v % m
  {
    DivModUnique(o, m, ohi, olo);
    DivModUnique(v, m, vhi, vlo);
  }

  lemma HalfValue(o: bv32, v: bv32, odd: bool)
    requires Low12(o) == o && Low12(v) == v
    ensures Num(Half12(o, v, odd)) == HalfLink(Num(o), Num(v), odd)
  {
    hide Num, Half12, Low12, High, Low;
    HalfBits(o, v, odd);
    SplitValue(o, odd);
    SplitValue(v, odd);
    SplitValue(Half12(o, v, odd), odd);
    Recombine(Num(o), Num(v), Num(Half12(o, v, odd)), Num(High(o, odd)), Num(Low(o, odd)),
      Num(High(v, odd)), Num(Low(v, odd)), if odd then 16 else 256);
  }

  lemma Low12Twice(w: bv32)
    ensures Low12(Low12(w)) == Low12(w)
  {
  }

  /** A FAT12 entry left half written by a disk failure: the others are intact. */
  lemma LinksHalfUpdated(s: seq<Byte>, n: nat, c: nat, val: nat)
    requires HoldsAll(s, Fat12, n) && c < n && val <= UNKNOWN
    ensures Holds(s, Fat12, c)
    ensures var s' := HalfUpdated(s, c, Bits(val));
            && |s'| == |s|
            && Links(s', Fat12, n)
               == Links(s, Fat12, n)[c := HalfLink(Links(s, Fat12, n)[c], Num(Cut(Fat12, Bits(val))), c % 2 == 1)]
  {
    hide Num, Bits, Entry, Updated, Low12, Half12, HalfLink;
    HoldsEach(s, Fat12, n, c);
    var s' := HalfUpdated(s, c, Bits(val));
    EntryOfHalfUpdated(s, c, Bits(val));
    Low12Twice(Bits(val));
    HalfValue(Entry(s, Fat12, c), Low12(Bits(val)), c % 2 == 1);
    var t, t' := Links(s, Fat12, n), Links(s', Fat12, n);
    forall d | 0 <= d < n
      ensures t'[d] == t[c := HalfLink(t[c], Num(Cut(Fat12, Bits(val))), c % 2 == 1)][d]
    {
      HoldsEach(s, Fat12, n, d);
      if d != c {
        OtherEntriesStay(s, Fat12, c, d, Bits(val));
      }
    }
  }

  lemma WidenedWord(w: bv16)
    ensures (w as bv32) as int == w as int
  {
  }

  /** A FAT16 link is the two bytes of its entry. */
  lemma Link16(s: seq<Byte>, c: nat)
    requires Holds(s, Fat16, c)
    ensures Link(s, Fat16, c) == s[2 * c] as int + 256 * (s[2 * c + 1] as int)
  {
    hide LoadWord, MemoryValue;
    WidenedWord(LoadWord(s, 2 * c));
    LoadWordAgrees(s, 2 * c);
    MemoryValue2(s, 2 * c);
  }

  function ByteNum(b: Byte): nat {
    b as int
  }

  function Top4(b: Byte): Byte { b >> 4 }
  function Low4(b: Byte): Byte { b & 0xF }
  function Across(b0: Byte, b1: Byte): Byte { (b1 << 4) | (b0 >> 4) }

  lemma NibbleOf(b: Byte, hi: Byte, lo: Byte)
    requires b == (hi << 4) | lo && hi <= 0xF && lo <= 0xF
    ensures ByteNum(b) == 16 * ByteNum(hi) + ByteNum(lo) && ByteNum(hi) < 16 && ByteNum(lo) < 16
  {
  }

  lemma Nibbles(b: Byte)
    ensures ByteNum(b) == 16 * ByteNum(Top4(b)) + ByteNum(Low4(b)) && ByteNum(b) < 256
    ensures ByteNum(Top4(b)) < 16 && ByteNum(Low4(b)) < 16
  {
    NibbleOf(b, b >> 4, b & 0xF);
  }

  lemma AcrossValue(b0: Byte, b1: Byte)
    ensures ByteNum(Across(b0, b1)) == 16 * ByteNum(Low4(b1)) + ByteNum(Top4(b0))
  {
    hide ByteNum;
    assert Across(b0, b1) == ((b1 & 0xF) << 4) | (b0 >> 4);
    NibbleOf(Across(b0, b1), b1 & 0xF, b0 >> 4);
  }

  lemma JoinNum(b0: Byte, b1: Byte, b2: Byte, b3: Byte)
    ensures Num(Join(b0, b1, b2, b3)) == ByteNum(b0) + 256 * (ByteNum(b1) + 256 * (ByteNum(b2) + 256 * ByteNum(b3)))
    ensures ByteNum(0) == 0
  {
    hide Join;
    JoinValue(b0, b1, b2, b3);
  }

  lemma MemoryPair(s: seq<Byte>, p: nat)
    requires p + 2 <= |s|
    ensures MemoryValue(s, p, 2) == ByteNum(s[p]) + 256 * ByteNum(s[p + 1])
  {
    hide MemoryValue;
    MemoryValue2(s, p);
  }

  /** What remains of joined bytes when nibbles are cut off. */
  lemma CutJoin28(b0: Byte, b1: Byte, b2: Byte, b3: Byte)
    ensures Low28(Join(b0, b1, b2, b3)) == Join(b0, b1, b2, Low4(b3))
  {
  }

  lemma CutJoinEven(b0: Byte, b1: Byte)
    ensures Entry12(b0, b1, false) == Join(b0, Low4(b1), 0, 0)
  {
  }

  lemma CutJoinOdd(b0: Byte, b1: Byte)
    ensures Entry12(b0, b1, true) == Join(Across(b0, b1), Top4(b1), 0, 0)
  {
  }

  lemma EvenValue(b0: Byte, b1: Byte)
    ensures Num(Entry12(b0, b1, false)) == (ByteNum(b0) + 256 * ByteNum(b1)) % 4096
  {
    hide *;
    CutJoinEven(b0, b1);
    JoinNum(b0, Low4(b1), 0, 0);
    Nibbles(b0);
    Nibbles(b1);
    DivModUnique(ByteNum(b0) + 256 * ByteNum(b1), 4096, ByteNum(Top4(b1)), ByteNum(b0) + 256 * ByteNum(Low4(b1)));
  }

  lemma OddValue(b0: Byte, b1: Byte)
    ensures Num(Entry12(b0, b1, true)) == (ByteNum(b0) + 256 * ByteNum(b1)) / 16
  {
    hide *;
    CutJoinOdd(b0, b1);
    JoinNum(Across(b0, b1), Top4(b1), 0, 0);
    AcrossValue(b0, b1);
    Nibbles(b0);
    Nibbles(b1);
    DivModUnique(ByteNum(b0) + 256 * ByteNum(b1), 16, ByteNum(Top4(b0)) + 16 * ByteNum(b1), ByteNum(Low4(b0)));
  }

  lemma Low28Value(b0: Byte, b1: Byte, b2: Byte, b3: Byte)
    ensures Num(Low28(Join(b0, b1, b2, b3))) == Num(Join(b0, b1, b2, b3)) % 0x1000_0000
  {
    hide *;
    CutJoin28(b0, b1, b2, b3);
    JoinNum(b0, b1, b2, b3);
    JoinNum(b0, b1, b2, Low4(b3));
    Nibbles(b0);
    Nibbles(b1);
    Nibbles(b2);
    Nibbles(b3);
    DivModUnique(Num(Join(b0, b1, b2, b3)), 0x1000_0000, ByteNum(Top4(b3)), Num(Join(b0, b1, b2, Low4(b3))));
  }

  lemma LinkInMemory12(s: seq<Byte>, c: nat)
    requires Holds(s, Fat12, c)
    ensures var p := 3 * (c / 2);
            if c % 2 == 0 then p + 2 <= |s| && Link(s, Fat12, c) == MemoryValue(s, p, 2) % 4096
            else p + 3 <= |s| && Link(s, Fat12, c) == MemoryValue(s, p + 1, 2) / 16
  {
    hide Entry12, MemoryValue, Num, ByteNum;
    var a := Address(Fat12, c);
    MemoryPair(s, a);
    if c % 2 == 0 {
      EvenValue(s[a], s[a + 1]);
    } else {
      OddValue(s[a], s[a + 1]);
    }
  }

  lemma LinkInMemory32(s: seq<Byte>, c: nat)
    requires Holds(s, Fat32, c)
    ensures Link(s, Fat32, c) == MemoryValue(s, 4 * c, 4) % 0x1000_0000
  {
    hide LoadDword, MemoryValue, Low28, Join;
    LoadDwordAgrees(s, 4 * c);
    LoadIsJoin(s, 4 * c);
    Low28Value(s[4 * c], s[4 * c + 1], s[4 * c + 2], s[4 * c + 3]);
  }

  /** A link as the number that is in memory: the twelve-bit ones two to three bytes, the
      even one below the odd one; the others one behind the other, of four bytes the lower
      twenty-eight bits. */
  lemma LinkInMemory(s: seq<Byte>, t: FatType, c: nat)
    requires Holds(s, t, c)
    ensures match t
            case Fat12 =>
              if c % 2 == 0 then 3 * (c / 2) + 2 <= |s| && Link(s, t, c) == MemoryValue(s, 3 * (c / 2), 2) % 4096
              else 3 * (c / 2) + 3 <= |s| && Link(s, t, c) == MemoryValue(s, 3 * (c / 2) + 1, 2) / 16
            case Fat16 => 2 * c + 2 <= |s| && Link(s, t, c) == MemoryValue(s, 2 * c, 2)
            case Fat32 => 4 * c + 4 <= |s| && Link(s, t, c) == MemoryValue(s, 4 * c, 4) % 0x1000_0000
  {
    hide Link, MemoryValue;
    match t
    case Fat12 => LinkInMemory12(s, c);
    case Fat16 =>
      Link16(s, c);
      MemoryValue2(s, 2 * c);
    case Fat32 => LinkInMemory32(s, c);
  }

  lemma NumRange(w: bv32)
    ensures Num(w) <= UNKNOWN
  {
  }

  lemma AllOnes(w: bv32)
    requires Num(w) == UNKNOWN
    ensures w == 0xFFFF_FFFF
  {
  }

  lemma NotAllOnes12(b0: Byte, b1: Byte, odd: bool)
    ensures Entry12(b0, b1, odd) != 0xFFFF_FFFF
  {
  }

  lemma NotAllOnes16(w: bv16)
    ensures w as bv32 != 0xFFFF_FFFF
  {
  }

  lemma NotAllOnes28(w: bv32)
    ensures Low28(w) != 0xFFFF_FFFF
  {
  }

  lemma EntryNotAllOnes(s: seq<Byte>, t: FatType, c: nat)
    requires Holds(s, t, c)
    ensures Entry(s, t, c) != 0xFFFF_FFFF
  {
    hide LoadWord, LoadDword, Entry12, Low28;
    var a := Address(t, c);
    match t
    case Fat12 => NotAllOnes12(s[a], s[a + 1], c % 2 == 1);
    case Fat16 => NotAllOnes16(LoadWord(s, a));
    case Fat32 => NotAllOnes28(LoadDword(s, a));
  }

  /** No link reads as the all-ones mark of a disk failure. */
  lemma {:induction false} LinkBound(s: seq<Byte>, t: FatType, c: nat)
    requires Holds(s, t, c)
    ensures Link(s, t, c) < UNKNOWN
  {
    hide Num, Entry;
    NumRange(Entry(s, t, c));
    EntryNotAllOnes(s, t, c);
    if Link(s, t, c) == UNKNOWN {
      AllOnes(Entry(s, t, c));
    }
  }

  // ---------------------------------------------------------------------
  // Where a byte of the table is: a sector, and an offset in the window
  // ---------------------------------------------------------------------

  function InWindow(sector: nat, offset: nat, sectorSize: nat): nat {
    sector * sectorSize + offset
  }

  lemma WindowOfByte(bc: nat, sectorSize: nat)
    requires sectorSize > 0
    ensures InWindow(bc / sectorSize, bc % sectorSize, sectorSize) == bc
  {
  }

  lemma ZeroMultiple(d: int, m: int)
    requires m > 0 && -m < d * m < m
    ensures d == 0
  {
  }

  lemma DivModUnique(a: nat, m: nat, q: nat, r: nat)
    requires m > 0 && r < m && a == q * m + r
    ensures a % m == r && a / m == q
  {
    var q', r' := a / m, a % m;
    assert a == q' * m + r';
    assert (q' - q) * m == r - r';
    ZeroMultiple(q' - q, m);
  }

  lemma Scale(q: nat, per: nat, r: nat, width: nat)
    ensures (q * per + r) * width == q * (per * width) + r * width
  {
  }

  lemma ScaleBelow(r: nat, per: nat, width: nat)
    requires r < per && width > 0
    ensures r * width < per * width
  {
  }

  /** Entries of a width that divides the sector do not straddle sectors. */
  lemma WindowOfEntry(c: nat, width: nat, per: nat)
    requires width > 0 && per > 0
    ensures InWindow(c / per, c * width % (per * width), per * width) == c * width
  {
    var q, r := c / per, c % per;
    assert c == q * per + r;
    Scale(q, per, r, width);
    ScaleBelow(r, per, width);
    DivModUnique(c * width, per * width, q, r * width);
  }

  lemma WindowOfWord(c: nat, sectorSize: nat)
    requires sectorSize > 0 && sectorSize % 4 == 0
    ensures InWindow(c / (sectorSize / 2), c * 2 % sectorSize, sectorSize) == 2 * c
  {
    hide InWindow;
    WindowOfEntry(c, 2, sectorSize / 2);
  }

  lemma WindowOfDword(c: nat, sectorSize: nat)
    requires sectorSize > 0 && sectorSize % 4 == 0
    ensures InWindow(c / (sectorSize / 4), c * 4 % sectorSize, sectorSize) == 4 * c
  {
    hide InWindow;
    WindowOfEntry(c, 4, sectorSize / 4);
  }
}
