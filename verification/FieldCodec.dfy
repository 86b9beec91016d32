/** The field access macros of FatFs: little-endian words and double words at any
    byte offset of a sector buffer. */
module FieldCodec {
  import opened Bytes

  // ---------------------------------------------------------------------
  // Byte-by-byte access (_WORD_ACCESS == 0)
  // ---------------------------------------------------------------------

  function Low8(x: bv32): Byte {
    (x & 0xFF) as Byte
  }

  function Low16(x: bv32): bv32 {
    x & 0xFFFF
  }

  // The casts and shifts of the store macros
  function Byte0(val: bv32): Byte { Low8(val) }
  function Byte1(val: bv32): Byte { Low8(Low16(val) >> 8) }
  function Byte2(val: bv32): Byte { Low8(val >> 16) }
  function Byte3(val: bv32): Byte { Low8(val >> 24) }

  /** LD_WORD */
  function LoadWord(s: seq<Byte>, p: nat): bv16
    requires p + 2 <= |s|
  {
    ((s[p + 1] as bv16) << 8) | (s[p] as bv16)
  }

  /** LD_DWORD */
  function LoadDword(s: seq<Byte>, p: nat): bv32
    requires p + 4 <= |s|
  {
    ((s[p + 3] as bv32) << 24) | ((s[p + 2] as bv32) << 16) | ((s[p + 1] as bv32) << 8) | (s[p] as bv32)
  }

  /** A store of val at p: ST_WORD or ST_DWORD. */
  datatype Store = StoreWord(p: nat, val: bv32) | StoreDword(p: nat, val: bv32)

  function Width(st: Store): nat {
    if st.StoreWord? then 2 else 4
  }

  /** Byte k of what the store writes. */
  function Part(st: Store, k: nat): Byte
    requires k < Width(st)
  {
    if k == 0 then Byte0(st.val)
    else if k == 1 then Byte1(st.val)
    else if k == 2 then Byte2(st.val)
    else Byte3(st.val)
  }

  predicate Fits(st: Store, n: nat) {
    st.p + Width(st) <= n
  }

  /** The buffer after the statements of the macro, one byte each. */
  function Apply(s: seq<Byte>, st: Store): seq<Byte>
    requires Fits(st, |s|)
  {
    var s2 := s[st.p := Part(st, 0)][st.p + 1 := Part(st, 1)];
    if st.StoreWord? then s2 else s2[st.p + 2 := Part(st, 2)][st.p + 3 := Part(st, 3)]
  }

  method StWord(a: array<Byte>, p: nat, val: bv32)
    requires p + 2 <= a.Length
    modifies a
    ensures a[..] == Apply(old(a[..]), StoreWord(p, val))
  {
    hide Byte0, Byte1;
    a[p] := Byte0(val);
    a[p + 1] := Byte1(val);
  }

  method StDword(a: array<Byte>, p: nat, val: bv32)
    requires p + 4 <= a.Length
    modifies a
    ensures a[..] == Apply(old(a[..]), StoreDword(p, val))
  {
    hide Byte0, Byte1, Byte2, Byte3;
    a[p] := Byte0(val);
    a[p + 1] := Byte1(val);
    a[p + 2] := Byte2(val);
    a[p + 3] := Byte3(val);
  }

  // ---------------------------------------------------------------------
  // Word access on little-endian memory (_WORD_ACCESS == 1)
  // ---------------------------------------------------------------------

  /** The number that n bytes from p stand for, least significant first. */
  function MemoryValue(s: seq<Byte>, p: nat, n: nat): nat
    requires p + n <= |s|
    decreases n
  {
    if n == 0 then 0 else s[p] as int + 256 * MemoryValue(s, p + 1, n - 1)
  }

  /** n bytes for a number, least significant first. */
  function MemoryBytes(v: nat, n: nat): (bytes: seq<Byte>)
    ensures |bytes| == n
    decreases n
  {
    if n == 0 then [] else [(v % 256) as Byte] + MemoryBytes(v / 256, n - 1)
  }

  /** An assignment through a uint16_t or uint32_t pointer. */
  function DirectStore(s: seq<Byte>, st: Store): seq<Byte>
    requires Fits(st, |s|)
  {
    var v := if st.StoreWord? then Low16(st.val) as int else st.val as int;
    s[..st.p] + MemoryBytes(v, Width(st)) + s[st.p + Width(st)..]
  }

  lemma JoinWord(b0: Byte, b1: Byte)
    ensures (((b1 as bv16) << 8) | (b0 as bv16)) as int == b0 as int + 256 * (b1 as int)
  {
  }

  function Join(b0: Byte, b1: Byte, b2: Byte, b3: Byte): bv32 {
    ((b3 as bv32) << 24) | ((b2 as bv32) << 16) | ((b1 as bv32) << 8) | (b0 as bv32)
  }

  lemma DwordValue(v: bv32, b0: Byte, b1: Byte, b2: Byte, b3: Byte)
    requires v == ((b3 as bv32) << 24) | ((b2 as bv32) << 16) | ((b1 as bv32) << 8) | (b0 as bv32)
    ensures v as int == b0 as int + 256 * (b1 as int + 256 * (b2 as int + 256 * (b3 as int)))
  {
  }

  lemma JoinValue(b0: Byte, b1: Byte, b2: Byte, b3: Byte)
    ensures Join(b0, b1, b2, b3) as int == b0 as int + 256 * (b1 as int + 256 * (b2 as int + 256 * (b3 as int)))
  {
    DwordValue(Join(b0, b1, b2, b3), b0, b1, b2, b3);
  }

  lemma MemoryValue2(s: seq<Byte>, p: nat)
    requires p + 2 <= |s|
    ensures MemoryValue(s, p, 2) == s[p] as int + 256 * (s[p + 1] as int)
  {
    assert MemoryValue(s, p + 1, 1) == s[p + 1] as int + 256 * MemoryValue(s, p + 2, 0);
  }

  /** The byte-wise loads return the number that is in memory. */
  lemma LoadWordAgrees(s: seq<Byte>, p: nat)
    requires p + 2 <= |s|
    ensures LoadWord(s, p) as int == MemoryValue(s, p, 2)
  {
    JoinWord(s[p], s[p + 1]);
    MemoryValue2(s, p);
  }

  lemma MemoryValue4(s: seq<Byte>, p: nat)
    requires p + 4 <= |s|
    ensures MemoryValue(s, p, 4)
            == s[p] as int + 256 * (s[p + 1] as int + 256 * (s[p + 2] as int + 256 * (s[p + 3] as int)))
  {
    MemoryValue2(s, p + 2);
    assert MemoryValue(s, p + 1, 3) == s[p + 1] as int + 256 * MemoryValue(s, p + 2, 2);
  }

  lemma LoadIsJoin(s: seq<Byte>, p: nat)
    requires p + 4 <= |s|
    ensures LoadDword(s, p) == Join(s[p], s[p + 1], s[p + 2], s[p + 3])
  {
  }

  lemma LoadDwordAgrees(s: seq<Byte>, p: nat)
    requires p + 4 <= |s|
    ensures LoadDword(s, p) as int == MemoryValue(s, p, 4)
  {
    LoadIsJoin(s, p);
    hide LoadDword, Join;
    JoinValue(s[p], s[p + 1], s[p + 2], s[p + 3]);
    MemoryValue4(s, p);
  }

  /** A double word is put together again from the bytes that are stored for it. */
  lemma SplitJoin(v: bv32)
    ensures Join(Byte0(v), Byte1(v), Byte2(v), Byte3(v)) == v
    ensures Join(Byte0(v), Byte1(v), 0, 0) == Low16(v)
  {
  }

  lemma Digits(v: nat, b0: nat, rest: nat)
    requires v == b0 + 256 * rest && b0 < 256
    ensures v % 256 == b0 && v / 256 == rest
  {
  }

  lemma {:induction false} MemoryBytesAre(v: nat, n: nat, bytes: seq<Byte>)
    requires |bytes| == n && v == MemoryValue(bytes, 0, n)
    ensures MemoryBytes(v, n) == bytes
    decreases n
  {
    if n > 0 {
      var rest := MemoryValue(bytes, 1, n - 1);
      Digits(v, bytes[0] as int, rest);
      MemoryShift(bytes, 1, n - 1);
      MemoryBytesAre(rest, n - 1, bytes[1..]);
      assert bytes == [bytes[0]] + bytes[1..];
    }
  }

  lemma {:induction false} MemoryShift(s: seq<Byte>, p: nat, n: nat)
    requires p + n <= |s|
    ensures MemoryValue(s[p..], 0, n) == MemoryValue(s, p, n)
    decreases n
  {
    if n > 0 {
      MemoryShift(s, p + 1, n - 1);
      MemoryShift(s[p..], 1, n - 1);
      assert s[p..][1..] == s[p + 1..];
    }
  }

  /** The bytes of the byte-wise store, as one sequence. */
  function Parts(st: Store): seq<Byte> {
    if st.StoreWord? then [Part(st, 0), Part(st, 1)]
    else [Part(st, 0), Part(st, 1), Part(st, 2), Part(st, 3)]
  }

  lemma ValueOfParts(v: bv32)
    ensures v as int == Byte0(v) as int + 256 * (Byte1(v) as int + 256 * (Byte2(v) as int + 256 * (Byte3(v) as int)))
    ensures Low16(v) as int == Byte0(v) as int + 256 * (Byte1(v) as int)
  {
    SplitJoin(v);
    hide Low16, Join, Byte0, Byte1, Byte2, Byte3;
    JoinValue(Byte0(v), Byte1(v), Byte2(v), Byte3(v));
    JoinValue(Byte0(v), Byte1(v), 0, 0);
  }

  lemma DwordBytes(v: bv32)
    ensures MemoryBytes(v as int, 4) == [Byte0(v), Byte1(v), Byte2(v), Byte3(v)]
  {
    ValueOfParts(v);
    hide Byte0, Byte1, Byte2, Byte3, MemoryBytes, MemoryValue;
    var bytes := [Byte0(v), Byte1(v), Byte2(v), Byte3(v)];
    MemoryValue4(bytes, 0);
    MemoryBytesAre(v as int, 4, bytes);
  }

  lemma WordBytes(v: bv32)
    ensures MemoryBytes(Low16(v) as int, 2) == [Byte0(v), Byte1(v)]
  {
    ValueOfParts(v);
    hide Low16, Byte0, Byte1, Byte2, Byte3, MemoryBytes, MemoryValue;
    var bytes := [Byte0(v), Byte1(v)];
    MemoryValue2(bytes, 0);
    MemoryBytesAre(Low16(v) as int, 2, bytes);
  }

  lemma PartsAreMemoryBytes(st: Store)
    ensures MemoryBytes(if st.StoreWord? then Low16(st.val) as int else st.val as int, Width(st)) == Parts(st)
  {
    hide Low16, Byte0, Byte1, Byte2, Byte3, MemoryBytes;
    if st.StoreWord? {
      WordBytes(st.val);
    } else {
      DwordBytes(st.val);
    }
  }

  /** Byte-wise and direct stores leave the same buffer. */
  lemma StoresAgree(s: seq<Byte>, st: Store)
    requires Fits(st, |s|)
    ensures DirectStore(s, st) == Apply(s, st)
  {
    hide Low16, Part, MemoryBytes;
    PartsAreMemoryBytes(st);
  }

  // ---------------------------------------------------------------------
  // Runs of stores
  // ---------------------------------------------------------------------

  function ApplyAll(s: seq<Byte>, sts: seq<Store>): (r: seq<Byte>)
    requires forall i :: 0 <= i < |sts| ==> Fits(sts[i], |s|)
    ensures |r| == |s|
  {
    if |sts| == 0 then s else Apply(ApplyAll(s, sts[..|sts| - 1]), sts[|sts| - 1])
  }

  predicate Covers(st: Store, i: nat) {
    st.p <= i < st.p + Width(st)
  }

  predicate Apart(a: Store, b: Store) {
    a.p + Width(a) <= b.p || b.p + Width(b) <= a.p
  }

  /** One store writes exactly its own bytes. */
  lemma ApplyAt(s: seq<Byte>, st: Store, i: nat)
    requires Fits(st, |s|) && i < |s|
    ensures |Apply(s, st)| == |s|
    ensures Apply(s, st)[i] == if Covers(st, i) then Part(st, i - st.p) else s[i]
  {
  }

  /** sts[k] is the last of the stores to write byte i. */
  ghost predicate LastWriter(sts: seq<Store>, i: nat, k: nat) {
    k < |sts| && Covers(sts[k], i) && forall j :: k < j < |sts| ==> !Covers(sts[j], i)
  }

  /** After any run of stores, overlapping or not, every byte is the one its last
      writer put there, and a byte nobody wrote is as before. */
  lemma {:induction false} EveryByteHasItsLastWriter(s: seq<Byte>, sts: seq<Store>, i: nat)
    requires forall j :: 0 <= j < |sts| ==> Fits(sts[j], |s|)
    requires i < |s|
    ensures forall k: nat :: LastWriter(sts, i, k) ==> ApplyAll(s, sts)[i] == Part(sts[k], i - sts[k].p)
    ensures (forall j :: 0 <= j < |sts| ==> !Covers(sts[j], i)) ==> ApplyAll(s, sts)[i] == s[i]
  {
    if |sts| > 0 {
      var n := |sts| - 1;
      EveryByteHasItsLastWriter(s, sts[..n], i);
      ApplyAt(ApplyAll(s, sts[..n]), sts[n], i);
      forall k: nat | LastWriter(sts, i, k)
        ensures ApplyAll(s, sts)[i] == Part(sts[k], i - sts[k].p)
      {
        if k < n {
          assert !Covers(sts[n], i);
          assert LastWriter(sts[..n], i, k);
        }
      }
    }
  }

  /** The field that st writes, as a number. */
  function Load(s: seq<Byte>, st: Store): bv32
    requires Fits(st, |s|)
  {
    if st.StoreWord? then LoadWord(s, st.p) as bv32 else LoadDword(s, st.p)
  }

  function Stored(st: Store): bv32 {
    if st.StoreWord? then Low16(st.val) else st.val
  }

  lemma WordRoundTrip(v: bv32)
    ensures (((Byte1(v) as bv16) << 8) | (Byte0(v) as bv16)) as bv32 == Low16(v)
  {
  }

  lemma WordOfParts(s: seq<Byte>, p: nat, v: bv32)
    requires p + 2 <= |s| && s[p] == Byte0(v) && s[p + 1] == Byte1(v)
    ensures LoadWord(s, p) as bv32 == Low16(v)
  {
    WordRoundTrip(v);
  }

  lemma DwordOfParts(s: seq<Byte>, p: nat, v: bv32)
    requires p + 4 <= |s| && s[p] == Byte0(v) && s[p + 1] == Byte1(v) && s[p + 2] == Byte2(v) && s[p + 3] == Byte3(v)
    ensures LoadDword(s, p) == v
  {
    hide LoadDword, Join, Byte0, Byte1, Byte2, Byte3;
    LoadIsJoin(s, p);
    SplitJoin(v);
  }

  lemma LoadOfParts(s: seq<Byte>, st: Store)
    requires Fits(st, |s|)
    requires forall k: nat :: k < Width(st) ==> s[st.p + k] == Part(st, k)
    ensures Load(s, st) == Stored(st)
  {
    hide LoadWord, LoadDword, Low16, Byte0, Byte1, Byte2, Byte3;
    assert s[st.p + 0] == Part(st, 0) && s[st.p + 1] == Part(st, 1);
    if st.StoreWord? {
      WordOfParts(s, st.p, st.val);
    } else {
      assert s[st.p + 2] == Part(st, 2) && s[st.p + 3] == Part(st, 3);
      DwordOfParts(s, st.p, st.val);
    }
  }

  lemma PartOfLastStore(s: seq<Byte>, sts: seq<Store>, k: nat, m: nat)
    requires forall j :: 0 <= j < |sts| ==> Fits(sts[j], |s|)
    requires k < |sts| && m < Width(sts[k]) && forall j :: k < j < |sts| ==> Apart(sts[k], sts[j])
    ensures ApplyAll(s, sts)[sts[k].p + m] == Part(sts[k], m)
  {
    hide Part, Apply, ApplyAll;
    EveryByteHasItsLastWriter(s, sts, sts[k].p + m);
    assert LastWriter(sts, sts[k].p + m, k);
  }

  /** A load of a field returns the value of its last store, truncated to the
      field, if no later store of the run overlaps it. */
  lemma {:induction false} LoadReturnsLastStore(s: seq<Byte>, sts: seq<Store>, k: nat)
    requires forall j :: 0 <= j < |sts| ==> Fits(sts[j], |s|)
    requires k < |sts| && forall j :: k < j < |sts| ==> Apart(sts[k], sts[j])
    ensures Load(ApplyAll(s, sts), sts[k]) == Stored(sts[k])
  {
    hide Load, Stored, Part, Apply, ApplyAll, Apart;
    forall m: nat | m < Width(sts[k])
      ensures ApplyAll(s, sts)[sts[k].p + m] == Part(sts[k], m)
    {
      PartOfLastStore(s, sts, k, m);
    }
    LoadOfParts(ApplyAll(s, sts), sts[k]);
  }

  /** Disjoint stores commute. */
  lemma DisjointStoresCommute(s: seq<Byte>, a: Store, b: Store)
    requires Fits(a, |s|) && Fits(b, |s|) && Apart(a, b)
    ensures Apply(Apply(s, a), b) == Apply(Apply(s, b), a)
  {
    forall i: nat | i < |s|
      ensures Apply(Apply(s, a), b)[i] == Apply(Apply(s, b), a)[i]
    {
      ApplyAt(s, a, i);
      ApplyAt(s, b, i);
      ApplyAt(Apply(s, a), b, i);
      ApplyAt(Apply(s, b), a, i);
    }
  }

  /** The buffer determines the field: storing back what was loaded changes nothing. */
  lemma StoreOfLoad(s: seq<Byte>, st: Store)
    requires Fits(st, |s|) && st.val == Load(s, st)
    ensures Apply(s, st) == s
  {
    JoinSplit(s[st.p], s[st.p + 1], if st.StoreWord? then 0 else s[st.p + 2], if st.StoreWord? then 0 else s[st.p + 3]);
    WordIsJoin(s[st.p], s[st.p + 1]);
    forall i: nat | i < |s|
      ensures Apply(s, st)[i] == s[i]
    {
      ApplyAt(s, st, i);
    }
  }

  lemma JoinSplit(b0: Byte, b1: Byte, b2: Byte, b3: Byte)
    ensures var v := Join(b0, b1, b2, b3);
            Byte0(v) == b0 && Byte1(v) == b1 && Byte2(v) == b2 && Byte3(v) == b3
  {
  }

  lemma WordIsJoin(b0: Byte, b1: Byte)
    ensures (((b1 as bv16) << 8) | (b0 as bv16)) as bv32 == Join(b0, b1, 0, 0)
  {
  }
}
