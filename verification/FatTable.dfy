/** The file allocation table as bytes, and one entry of it in each of the three
    formats. FAT12 packs two entries into three bytes. */
module FatTable {
  import opened Bytes
  import opened FieldCodec

  datatype FatType = Fat12 | Fat16 | Fat32

  /** The byte where entry c starts, and how many bytes it touches. */
  function Address(t: FatType, c: nat): nat {
    match t
    case Fat12 => c + c / 2
    case Fat16 => 2 * c
    case Fat32 => 4 * c
  }

  function Span(t: FatType): nat {
    if t.Fat32? then 4 else 2
  }

  function Low12(x: bv32): bv32 { x & 0xFFF }
  function Low28(x: bv32): bv32 { x & 0x0FFF_FFFF }
  function High4(x: bv32): bv32 { x & 0xF000_0000 }

  /** The bits of val that an entry has room for. */
  function Cut(t: FatType, val: bv32): bv32 {
    match t
    case Fat12 => Low12(val)
    case Fat16 => Low16(val)
    case Fat32 => Low28(val)
  }

  /** A FAT32 entry keeps its four reserved bits. */
  function Merge(val: bv32, old': bv32): bv32 {
    val | High4(old')
  }

  predicate Holds(s: seq<Byte>, t: FatType, c: nat) {
    Address(t, c) + Span(t) <= |s|
  }

  /** What get_fat makes of the bytes. */
  function Entry(s: seq<Byte>, t: FatType, c: nat): bv32
    requires Holds(s, t, c)
  {
    var a := Address(t, c);
    match t
    case Fat12 => Entry12(s[a], s[a + 1], c % 2 == 1)
    case Fat16 => LoadWord(s, a) as bv32
    case Fat32 => Low28(LoadDword(s, a))
  }

  function Entry12(b0: Byte, b1: Byte, odd: bool): bv32 {
    var wc := (b0 as bv32) | ((b1 as bv32) << 8);
    if odd then wc >> 4 else Low12(wc)
  }

  /** The two bytes that put_fat writes for FAT12, each in its own window. */
  function First12(b0: Byte, val: bv32, odd: bool): Byte {
    if odd then (b0 & 0x0F) | (Low8(val) << 4) else Low8(val)
  }

  function Second12(b1: Byte, val: bv32, odd: bool): Byte {
    if odd then Low8(val >> 4) else (b1 & 0xF0) | (Low8(val >> 8) & 0x0F)
  }

  /** The table when put_fat failed between the two bytes of a FAT12 entry. */
  function HalfUpdated(s: seq<Byte>, c: nat, val: bv32): seq<Byte>
    requires Holds(s, Fat12, c)
  {
    var a := Address(Fat12, c);
    s[a := First12(s[a], val, c % 2 == 1)]
  }

  /** The entry of which only the first byte has been written. */
  function Half12(old': bv32, val: bv32, odd: bool): bv32 {
    if odd then (old' & 0xFF0) | (val & 0xF) else (old' & 0xF00) | (val & 0xFF)
  }

  /** The table after put_fat. */
  function Updated(s: seq<Byte>, t: FatType, c: nat, val: bv32): seq<Byte>
    requires Holds(s, t, c)
  {
    var a := Address(t, c);
    match t
    case Fat12 => HalfUpdated(s, c, val)[a + 1 := Second12(s[a + 1], val, c % 2 == 1)]
    case Fat16 => Apply(s, StoreWord(a, Low16(val)))
    case Fat32 => Apply(s, StoreDword(a, Merge(val, LoadDword(s, a))))
  }

  // ---------------------------------------------------------------------
  // Bits
  // ---------------------------------------------------------------------

  lemma Pack12(b0: Byte, b1: Byte, val: bv32, odd: bool)
    ensures Entry12(First12(b0, val, odd), Second12(b1, val, odd), odd) == Low12(val)
  {
  }

  /** An even entry survives a write to the odd one above it, and the reverse: they
      share the middle byte. */
  lemma Share12(b0: Byte, b1: Byte, b2: Byte, val: bv32)
    ensures Entry12(b0, First12(b1, val, true), false) == Entry12(b0, b1, false)
    ensures Entry12(Second12(b1, val, false), b2, true) == Entry12(b1, b2, true)
  {
  }

  lemma HalfPack12(b0: Byte, b1: Byte, val: bv32, odd: bool)
    ensures Entry12(First12(b0, val, odd), b1, odd) == Half12(Entry12(b0, b1, odd), Low12(val), odd)
    ensures Low12(Entry12(b0, b1, odd)) == Entry12(b0, b1, odd)
  {
  }

  lemma MaskWord(val: bv32)
    ensures Low16(Low16(val)) == Low16(val)
  {
  }

  lemma MaskDword(val: bv32, old': bv32)
    ensures Low28(Merge(val, old')) == Low28(val)
    ensures High4(Merge(val, old')) == High4(val) | High4(old')
  {
  }

  // ---------------------------------------------------------------------
  // Entries
  // ---------------------------------------------------------------------

  lemma UpdatedLength(s: seq<Byte>, t: FatType, c: nat, val: bv32)
    requires Holds(s, t, c)
    ensures |Updated(s, t, c, val)| == |s|
  {
  }

  lemma ApplyThenLoad(s: seq<Byte>, st: Store)
    requires Fits(st, |s|)
    ensures |Apply(s, st)| == |s| && Load(Apply(s, st), st) == Stored(st)
  {
    hide Load, Stored;
    assert ApplyAll(s, [st]) == Apply(s, st) by {
      assert [st][..0] == [];
    }
    LoadReturnsLastStore(s, [st], 0);
  }

  lemma EntryOfUpdated12(s: seq<Byte>, c: nat, val: bv32)
    requires Holds(s, Fat12, c)
    ensures Entry(Updated(s, Fat12, c, val), Fat12, c) == Low12(val)
  {
    var a := Address(Fat12, c);
    Pack12(s[a], s[a + 1], val, c % 2 == 1);
    hide First12, Second12, Entry12, Low12;
  }

  /** get_fat after a put_fat that failed between the two bytes of a FAT12 entry. */
  lemma EntryOfHalfUpdated(s: seq<Byte>, c: nat, val: bv32)
    requires Holds(s, Fat12, c)
    ensures Entry(HalfUpdated(s, c, val), Fat12, c) == Half12(Entry(s, Fat12, c), Low12(val), c % 2 == 1)
    ensures Low12(Entry(s, Fat12, c)) == Entry(s, Fat12, c)
  {
    hide First12, Half12, Entry12, Low12;
    var a := Address(Fat12, c);
    HalfPack12(s[a], s[a + 1], val, c % 2 == 1);
  }

  lemma EntryOfUpdated16(s: seq<Byte>, c: nat, val: bv32)
    requires Holds(s, Fat16, c)
    ensures |Updated(s, Fat16, c, val)| == |s|
    ensures Entry(Updated(s, Fat16, c, val), Fat16, c) == Low16(val)
  {
    ApplyThenLoad(s, StoreWord(2 * c, Low16(val)));
    MaskWord(val);
    hide Apply, LoadWord, Low16;
  }

  lemma EntryOfUpdated32(s: seq<Byte>, c: nat, val: bv32)
    requires Holds(s, Fat32, c)
    ensures |Updated(s, Fat32, c, val)| == |s|
    ensures Entry(Updated(s, Fat32, c, val), Fat32, c) == Low28(val)
  {
    var v := Merge(val, LoadDword(s, 4 * c));
    ApplyThenLoad(s, StoreDword(4 * c, v));
    MaskDword(val, LoadDword(s, 4 * c));
    hide Apply, LoadDword, Low28, High4, Merge;
  }

  /** get_fat after put_fat: the value, cut to the width of the format. */
  lemma EntryOfUpdated(s: seq<Byte>, t: FatType, c: nat, val: bv32)
    requires Holds(s, t, c)
    ensures |Updated(s, t, c, val)| == |s|
    ensures Entry(Updated(s, t, c, val), t, c) == Cut(t, val)
  {
    UpdatedLength(s, t, c, val);
    hide Updated, Entry, Low12, Low16, Low28;
    match t
    case Fat12 => EntryOfUpdated12(s, c, val);
    case Fat16 => EntryOfUpdated16(s, c, val);
    case Fat32 => EntryOfUpdated32(s, c, val);
  }

  /** Two buffers agree on the bytes of an entry. */
  lemma SameBytesSameEntry(s: seq<Byte>, s': seq<Byte>, t: FatType, d: nat)
    requires |s| == |s'| && Holds(s, t, d)
    requires forall i :: Address(t, d) <= i < Address(t, d) + Span(t) ==> s[i] == s'[i]
    ensures Entry(s, t, d) == Entry(s', t, d)
  {
  }

  lemma Neighbours12(s: seq<Byte>, c: nat, d: nat, val: bv32)
    requires Holds(s, Fat12, c) && Holds(s, Fat12, d) && c != d
    ensures Entry(HalfUpdated(s, c, val), Fat12, d) == Entry(s, Fat12, d)
    ensures Entry(Updated(s, Fat12, c, val), Fat12, d) == Entry(s, Fat12, d)
  {
    hide First12, Second12, Entry12, Low12;
    var a, b := Address(Fat12, c), Address(Fat12, d);
    if c == d + 1 && d % 2 == 0 {
      assert a == b + 1;
      Share12(s[b], s[a], s[a + 1], val);
    } else if d == c + 1 && c % 2 == 0 {
      assert b == a + 1;
      Share12(s[a], s[b], s[b + 1], val);
    } else {
      assert a + 2 <= b || b + 2 <= a;
    }
  }

  /** put_fat leaves every other entry alone, also the FAT12 entry that shares a
      byte with it, and also when the disk fails between the two bytes. */
  lemma OtherEntriesStay(s: seq<Byte>, t: FatType, c: nat, d: nat, val: bv32)
    requires Holds(s, t, c) && Holds(s, t, d) && c != d
    ensures |Updated(s, t, c, val)| == |s|
    ensures Entry(Updated(s, t, c, val), t, d) == Entry(s, t, d)
    ensures t.Fat12? ==> Entry(HalfUpdated(s, c, val), t, d) == Entry(s, t, d)
  {
    match t
    case Fat12 =>
      Neighbours12(s, c, d, val);
    case Fat16 =>
      ApplyElsewhere(s, StoreWord(Address(t, c), Low16(val)), t, d);
    case Fat32 =>
      ApplyElsewhere(s, StoreDword(Address(t, c), Merge(val, LoadDword(s, Address(t, c)))), t, d);
  }

  lemma ApplyElsewhere(s: seq<Byte>, st: Store, t: FatType, d: nat)
    requires Fits(st, |s|) && Holds(s, t, d)
    requires st.p + Width(st) <= Address(t, d) || Address(t, d) + Span(t) <= st.p
    ensures |Apply(s, st)| == |s| && Entry(Apply(s, st), t, d) == Entry(s, t, d)
  {
    forall i | Address(t, d) <= i < Address(t, d) + Span(t)
      ensures s[i] == Apply(s, st)[i]
    {
      ApplyAt(s, st, i);
    }
    SameBytesSameEntry(s, Apply(s, st), t, d);
  }

  /** The four reserved bits of a FAT32 entry are never cleared; those of the value are added
      to them, so that a cluster number, which has none, keeps them as they were. */
  lemma ReservedBitsStay(s: seq<Byte>, c: nat, val: bv32)
    requires Holds(s, Fat32, c)
    ensures |Updated(s, Fat32, c, val)| == |s|
    ensures High4(LoadDword(Updated(s, Fat32, c, val), 4 * c)) == High4(val) | High4(LoadDword(s, 4 * c))
  {
    hide Apply, LoadDword, Low28, High4, Merge;
    var v := Merge(val, LoadDword(s, 4 * c));
    ApplyThenLoad(s, StoreDword(4 * c, v));
    MaskDword(val, LoadDword(s, 4 * c));
  }
}
