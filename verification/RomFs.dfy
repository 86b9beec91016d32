/** The ROM file system: first-match lookup along a linked chain, and a reader
    that hands a file out in chunks. */
module RomFs {
  import opened Bytes
  import opened Wrappers

  datatype Err = Ok | ErrArg | ErrVal

  const FS_READ_EOF := -1
  const FS_READ_DELAYED := -2

  // ---------------------------------------------------------------------
  // C strings
  // ---------------------------------------------------------------------

  /** The characters before the first NUL. */
  function Chars(s: seq<Byte>): seq<Byte> {
    if |s| == 0 || s[0] == 0 then [] else [s[0]] + Chars(s[1..])
  }

  ghost predicate Terminated(s: seq<Byte>) {
    exists i :: 0 <= i < |s| && s[i] == 0
  }

  lemma {:induction false} CharsAre(s: seq<Byte>, k: nat)
    requires k < |s| && s[k] == 0 && forall i :: 0 <= i < k ==> s[i] != 0
    ensures Chars(s) == s[..k]
  {
    if k > 0 {
      CharsAre(s[1..], k - 1);
      assert s[..k] == [s[0]] + s[1..][..k - 1];
    }
  }

  lemma {:induction false} CharsDiffer(a: seq<Byte>, b: seq<Byte>, k: nat)
    requires k < |a| && k < |b| && a[k] != b[k]
    requires forall i :: 0 <= i < k ==> a[i] == b[i] && a[i] != 0
    ensures Chars(a) != Chars(b)
  {
    if k > 0 {
      CharsDiffer(a[1..], b[1..], k - 1);
      assert Chars(a)[1..] == Chars(a[1..]) && Chars(b)[1..] == Chars(b[1..]);
    } else {
      assert a[0] != 0 ==> Chars(a)[0] == a[0];
      assert b[0] != 0 ==> Chars(b)[0] == b[0];
    }
  }

  /** strcmp, as far as fs_open looks at it. */
  method SameString(a: array<Byte>, b: seq<Byte>) returns (same: bool)
    requires Terminated(a[..]) && Terminated(b)
    ensures same <==> Chars(a[..]) == Chars(b)
  {
    var i := 0;
    ghost var end :| 0 <= end < a.Length && a[..][end] == 0;
    ghost var end' :| 0 <= end' < |b| && b[end'] == 0;
    while a[i] == b[i] && a[i] != 0
      invariant 0 <= i <= end && i <= end'
      invariant forall j :: 0 <= j < i ==> a[j] == b[j] && a[j] != 0
      decreases end - i
    {
      i := i + 1;
    }
    if a[i] == b[i] {
      CharsAre(a[..], i);
      CharsAre(b, i);
      assert a[..][..i] == b[..i];
      return true;
    }
    CharsDiffer(a[..], b, i);
    return false;
  }

  // ---------------------------------------------------------------------
  // The chain and the handle
  // ---------------------------------------------------------------------

  /** struct fsdata_chksum */
  datatype Chksum = Chksum(offset: nat, chksum: nat, len: nat)

  /** A pointer that the file system only stores. */
  type Handle = nat

  /** struct fsdata_file, a constant in ROM; `len` is the length of `data`. */
  class FsDataFile {
    const next: FsDataFile?
    const name: seq<Byte>
    const data: array<Byte>
    const httpHeaderIncluded: bool
    const chksumCount: nat
    const chksum: seq<Chksum>

    constructor (next: FsDataFile?, name: seq<Byte>, data: array<Byte>, httpHeaderIncluded: bool,
        chksumCount: nat, chksum: seq<Chksum>)
      ensures this.next == next && this.name == name && this.data == data
      ensures this.httpHeaderIncluded == httpHeaderIncluded
      ensures this.chksumCount == chksumCount && this.chksum == chksum
    {
      this.next, this.name, this.data := next, name, data;
      this.httpHeaderIncluded, this.chksumCount, this.chksum := httpHeaderIncluded, chksumCount, chksum;
    }
  }

  /** files are the nodes reached from f, in order; being finite, the chain has no
      cycle. */
  ghost predicate IsChain(f: FsDataFile?, files: seq<FsDataFile>) {
    if |files| == 0 then f == null
    else f == files[0] && IsChain(f.next, files[1..])
  }

  ghost predicate NamesTerminated(files: seq<FsDataFile>) {
    forall f :: f in files ==> Terminated(f.name)
  }

  /** The first file of that name. */
  ghost predicate FirstMatch(files: seq<FsDataFile>, name: seq<Byte>, i: nat) {
    && i < |files| && Chars(files[i].name) == Chars(name)
    && forall j :: 0 <= j < i ==> Chars(files[j].name) != Chars(name)
  }

  /** What fs_open_custom did with the handle, when the custom hook exists and
      accepts the name. */
  datatype CustomOpen = CustomOpen(data: array<Byte>, len: nat, index: nat)

  method Memcpy(dst: array<Byte>, src: array<Byte>, from: nat, n: nat)
    requires dst != src && n <= dst.Length && from + n <= src.Length
    modifies dst
    ensures dst[..n] == src[from..from + n] && dst[n..] == old(dst[..])[n..]
  {
    forall i | 0 <= i < n {
      dst[i] := src[from + i];
    }
  }

  /** struct fs_file. `len` never exceeds the data it describes, nor `index` len. */
  class FsFile {
    var data: array<Byte>
    var len: int
    var index: int
    var httpHeaderIncluded: bool
    var chksumCount: nat
    var chksum: seq<Chksum>
    var isCustomFile: bool
    var pextension: Option<Handle>
    var state: Option<Handle>

    ghost predicate Valid()
      reads this
    {
      0 <= index <= len <= data.Length
    }

    constructor (data: array<Byte>, len: int, index: int)
      requires 0 <= index <= len <= data.Length
      ensures Valid() && this.data == data && this.len == len && this.index == index
    {
      this.data, this.len, this.index := data, len, index;
      httpHeaderIncluded, chksumCount, chksum, isCustomFile := false, 0, [], false;
      pextension, state := None, None;
    }

    /** The bytes not yet read. */
    ghost function Rest(): seq<Byte>
      requires Valid()
      reads this, data
    {
      data[index..len]
    }

    /** The handle after fs_open found f: its cursor already stands at the end. */
    ghost predicate Holds(f: FsDataFile)
      reads this, f.data
    {
      && data == f.data && len == data.Length && Valid()
      && Rest() == [] && BytesLeft() == 0
      && httpHeaderIncluded == f.httpHeaderIncluded
      && chksumCount == f.chksumCount && chksum == f.chksum && pextension == None
    }

    /** fs.c, lines 98-109: the handle is filled from the node f. */
    method Fill(f: FsDataFile, fileState: Option<Handle>)
      modifies this
      ensures Holds(f) && isCustomFile == old(isCustomFile)
      ensures state == if fileState.Some? then fileState else old(state)
    {
      data := f.data;
      len := f.data.Length;
      index := f.data.Length;
      pextension := None;
      httpHeaderIncluded := f.httpHeaderIncluded;
      chksumCount := f.chksumCount;
      chksum := f.chksum;
      if fileState.Some? {
        state := fileState;
      }
    }

    /** fs_bytes_left */
    function BytesLeft(): (left: int)
      requires Valid()
      reads this, data
      ensures left == |Rest()| && (left == 0 <==> index == len)
    {
      len - index
    }

    /** fs_read, or fs_read_async with the custom hooks answering as given. */
    method Read(buffer: array<Byte>, count: int, hooks: ReadHooks) returns (read: int)
      requires Valid() && buffer != data
      requires index != len ==> 0 <= count && (count <= buffer.Length || len - index <= buffer.Length)
      modifies this`index, buffer
      ensures Valid()
      ensures var step := ReadStep(old(Rest()), count, Delays(hooks));
              && read == step.result && Rest() == step.rest
              && |step.bytes| <= buffer.Length
              && buffer[..|step.bytes|] == step.bytes
              && buffer[|step.bytes|..] == old(buffer[..])[|step.bytes|..]
      ensures read == FS_READ_DELAYED <==> old(index) != len && hooks == Custom(false, true)
      ensures old(index) != len ==> (read == FS_READ_DELAYED <==> !IsFileReady(this, hooks))
    {
      if index == len {
        return FS_READ_EOF;
      }
      if hooks.Custom? && !hooks.canRead {
        if hooks.waits {
          return FS_READ_DELAYED;
        }
      }
      read := len - index;
      if read > count {
        read := count;
      }
      Memcpy(buffer, data, index, read);
      index := index + read;
    }
  }

  /** How the two custom hooks would answer, when they are compiled in. */
  datatype ReadHooks = Builtin | Custom(canRead: bool, waits: bool)

  predicate Delays(hooks: ReadHooks) {
    hooks.Custom? && !hooks.canRead && hooks.waits
  }

  /** fs_is_file_ready */
  predicate IsFileReady(file: FsFile?, hooks: ReadHooks) {
    if file != null then !(hooks.Custom? && !hooks.canRead && hooks.waits) else true
  }

  /** The loop of fs_open over the chain, whose sequence of nodes is `files`. */
  method Lookup(name: array<Byte>, root: FsDataFile?, ghost files: seq<FsDataFile>) returns (f: FsDataFile?,
      ghost k: nat)
    requires Terminated(name[..]) && IsChain(root, files) && NamesTerminated(files)
    ensures f != null ==> FirstMatch(files, name[..], k) && f == files[k]
    ensures f == null ==> forall i: nat :: !FirstMatch(files, name[..], i)
  {
    f := root;
    k := 0;
    while f != null
      invariant k <= |files| && IsChain(f, files[k..])
      invariant forall j :: 0 <= j < k ==> Chars(files[j].name) != Chars(name[..])
      decreases |files| - k
    {
      assert f == files[k];
      var same := SameString(name, f.name);
      if same {
        return;
      }
      f := f.next;
      k := k + 1;
    }
  }

  /** fs_open. `custom` is None when custom files are not compiled in, and otherwise
      what the custom hook answers; `fileState` likewise for the state hook. */
  method Open(file: FsFile?, name: array?<Byte>, root: FsDataFile?, custom: Option<Option<CustomOpen>>,
      fileState: Option<Handle>, ghost files: seq<FsDataFile>)
    returns (err: Err)
    requires name != null ==> Terminated(name[..])
    requires IsChain(root, files) && NamesTerminated(files)
    modifies file
    ensures err == ErrArg <==> file == null || name == null
    ensures err == ErrArg && file != null ==> unchanged(file)
    ensures err != ErrArg && custom.Some? ==> file.isCustomFile == custom.value.Some?
    ensures err != ErrArg && custom.Some? && custom.value.Some? ==>
              var c := custom.value.value;
              err == Ok && file.data == c.data && file.len == c.len && file.index == c.index
    ensures err != ErrArg && (custom.None? || custom.value.None?) ==>
              forall i: nat :: FirstMatch(files, name[..], i) ==>
                && err == Ok && file.Holds(files[i])
                && file.state == if fileState.Some? then fileState else old(file.state)
    ensures err != ErrArg && (custom.None? || custom.value.None?)
            && (forall i: nat :: !FirstMatch(files, name[..], i)) ==>
              && err == ErrVal && file.data == old(file.data) && file.len == old(file.len)
              && file.index == old(file.index)
              && file.httpHeaderIncluded == old(file.httpHeaderIncluded)
              && file.chksumCount == old(file.chksumCount) && file.chksum == old(file.chksum)
              && file.pextension == old(file.pextension) && file.state == old(file.state)
  {
    if file == null || name == null {
      return ErrArg;
    }
    if custom.Some? {
      if custom.value.Some? {
        var c := custom.value.value;
        file.data, file.len, file.index := c.data, c.len, c.index;
        file.isCustomFile := true;
        return Ok;
      }
      file.isCustomFile := false;
    }
    var f, k := Lookup(name, root, files);
    if f == null {
      return ErrVal;
    }
    forall i: nat | FirstMatch(files, name[..], i)
      ensures i == k
    {
    }
    file.Fill(f, fileState);
    return Ok;
  }

  // ---------------------------------------------------------------------
  // One read, and runs of reads, on the bytes that are left
  // ---------------------------------------------------------------------

  datatype Step = Step(result: int, bytes: seq<Byte>, rest: seq<Byte>)

  /** The return value, the bytes delivered and the bytes still left. */
  function ReadStep(rest: seq<Byte>, count: int, delayed: bool): Step {
    if |rest| == 0 then Step(FS_READ_EOF, [], rest)
    else if delayed then Step(FS_READ_DELAYED, [], rest)
    else if count < 0 then Step(count, [], rest)
    else
      var read := if |rest| > count then count else |rest|;
      Step(read, rest[..read], rest[read..])
  }

  datatype Call = Call(count: nat, delayed: bool)

  /** The bytes of a run of calls put together, what is left after it, and how many
      of its calls returned data, EOF and a delay. */
  datatype Reading = Reading(bytes: seq<Byte>, rest: seq<Byte>, chunks: nat, eofs: nat, delays: nat)

  function ReadRun(rest: seq<Byte>, calls: seq<Call>): Reading {
    if |calls| == 0 then Reading([], rest, 0, 0, 0)
    else
      NextReading(ReadRun(rest, calls[..|calls| - 1]), calls[|calls| - 1])
  }

  function NextReading(before: Reading, call: Call): Reading {
    var step := ReadStep(before.rest, call.count, call.delayed);
    Reading(before.bytes + step.bytes, step.rest,
            before.chunks + (if step.result >= 0 then 1 else 0),
            before.eofs + (if step.result == FS_READ_EOF then 1 else 0),
            before.delays + (if step.result == FS_READ_DELAYED then 1 else 0))
  }

  ghost predicate Accounts(r: Reading, rest: seq<Byte>, calls: nat) {
    && r.bytes + r.rest == rest
    && (r.eofs > 0 ==> r.bytes == rest && r.rest == [])
    && r.chunks + r.eofs + r.delays == calls
  }

  /** Nothing is lost, repeated or reordered: at every moment the bytes delivered
      followed by the bytes left are the file; EOF comes only when all are delivered. */
  lemma {:induction false} ReadsAccountForAll(rest: seq<Byte>, calls: seq<Call>)
    ensures Accounts(ReadRun(rest, calls), rest, |calls|)
  {
    if |calls| > 0 {
      ReadsAccountForAll(rest, calls[..|calls| - 1]);
    }
  }

  /** Chunk independence: however the buffers are sized and whenever delays occur,
      two runs that reach EOF deliver the same bytes. */
  lemma {:induction false} ChunkIndependence(rest: seq<Byte>, calls: seq<Call>, calls': seq<Call>)
    requires ReadRun(rest, calls).eofs > 0 && ReadRun(rest, calls').eofs > 0
    ensures ReadRun(rest, calls).bytes == ReadRun(rest, calls').bytes == rest
  {
    ReadsAccountForAll(rest, calls);
    ReadsAccountForAll(rest, calls');
  }

  /** With positive buffers every undelayed call makes progress, so a run reaches EOF
      as soon as it has more undelayed calls than there are bytes. */
  lemma {:induction false} PositiveBuffersReachEof(rest: seq<Byte>, calls: seq<Call>)
    requires forall i :: 0 <= i < |calls| ==> calls[i].count > 0
    ensures var r := ReadRun(rest, calls);
            && r.chunks <= |r.bytes|
            && (r.chunks + r.eofs > |rest| ==> r.eofs > 0)
  {
    ReadsAccountForAll(rest, calls);
    if |calls| > 0 {
      PositiveBuffersReachEof(rest, calls[..|calls| - 1]);
    }
  }

  function CeilDiv(n: nat, c: nat): nat
    requires c > 0
  {
    (n + c - 1) / c
  }

  /** The bytes delivered by k calls of size c. */
  function Taken(n: nat, c: nat, k: nat): nat {
    if k * c <= n then k * c else n
  }

  lemma TakenNext(n: nat, c: nat, k: nat)
    requires c > 0 && k > 0
    ensures Taken(n, c, k) == if Taken(n, c, k - 1) + c <= n then Taken(n, c, k - 1) + c else n
  {
    assert k * c == (k - 1) * c + c;
  }

  lemma TakenAll(n: nat, c: nat, k: nat)
    requires c > 0
    ensures Taken(n, c, k) == n <==> k >= CeilDiv(n, c)
  {
    var q := CeilDiv(n, c);
    assert q * c >= n && (q > 0 ==> (q - 1) * c < n);
    if k >= q {
      assert k * c >= q * c;
    } else {
      assert k * c <= (q - 1) * c;
    }
  }

  /** Undelayed calls with one positive size c: call k is an EOF exactly from
      k = ceil(|rest| / c) on, after exactly that many calls that return data, each
      of which shrinks what is left. */
  lemma {:induction false} FixedSizeReads(rest: seq<Byte>, c: nat, k: nat)
    requires c > 0
    ensures var r := ReadRun(rest, seq(k, _ => Call(c, false)));
            && |r.bytes| == Taken(|rest|, c, k)
            && r.chunks == (if k <= CeilDiv(|rest|, c) then k else CeilDiv(|rest|, c))
            && (r.eofs > 0 <==> k > CeilDiv(|rest|, c))
  {
    hide CeilDiv, Taken;
    var calls := seq(k, _ => Call(c, false));
    ReadsAccountForAll(rest, calls);
    if k > 0 {
      var before := seq(k - 1, _ => Call(c, false));
      assert calls[..k - 1] == before;
      FixedSizeReads(rest, c, k - 1);
      ReadsAccountForAll(rest, before);
      var r := ReadRun(rest, before);
      assert |r.bytes| + |r.rest| == |rest|;
      TakenNext(|rest|, c, k);
      TakenAll(|rest|, c, k - 1);
    } else {
      TakenZero(|rest|, c);
    }
  }

  lemma TakenZero(n: nat, c: nat)
    requires c > 0
    ensures Taken(n, c, 0) == 0
  {
  }

  /** A handle that fs_open has just filled has nothing left to read, so every read
      on it is an EOF, whatever the file holds. */
  lemma {:induction false} OpenedHandleIsAtEof(calls: seq<Call>)
    ensures ReadRun([], calls) == Reading([], [], 0, |calls|, 0)
  {
    if |calls| > 0 {
      OpenedHandleIsAtEof(calls[..|calls| - 1]);
    }
  }

  // ---------------------------------------------------------------------
  // The code makes these runs
  // ---------------------------------------------------------------------

  /** What a caller passes to one read, and how the hooks answer it. */
  datatype Request = Request(count: nat, hooks: ReadHooks)

  function Calls(rs: seq<Request>): seq<Call> {
    seq(|rs|, i requires 0 <= i < |rs| => Call(rs[i].count, Delays(rs[i].hooks)))
  }

  lemma ReadRunNext(rest: seq<Byte>, rs: seq<Request>, k: nat)
    requires k < |rs|
    ensures ReadRun(rest, Calls(rs[..k + 1]))
            == NextReading(ReadRun(rest, Calls(rs[..k])), Call(rs[k].count, Delays(rs[k].hooks)))
  {
    assert Calls(rs[..k + 1])[..k] == Calls(rs[..k]);
  }

  lemma ReadRunFirst(rest: seq<Byte>, rs: seq<Request>)
    ensures ReadRun(rest, Calls(rs[..0])) == Reading([], rest, 0, 0, 0)
  {
  }

  /** A run of reads on one handle: it delivers what ReadRun says, and leaves the handle
      with the rest. */
  method ReadAll(file: FsFile, buffer: array<Byte>, rs: seq<Request>)
    returns (bytes: seq<Byte>, chunks: nat, eofs: nat, delays: nat)
    requires file.Valid() && buffer != file.data
    requires forall i :: 0 <= i < |rs| ==> rs[i].count <= buffer.Length
    modifies file`index, buffer
    ensures file.Valid()
    ensures Reading(bytes, file.Rest(), chunks, eofs, delays) == ReadRun(old(file.Rest()), Calls(rs))
    ensures bytes + file.Rest() == old(file.Rest()) && chunks + eofs + delays == |rs|
    ensures eofs > 0 ==> bytes == old(file.Rest())
  {
    hide ReadRun, Calls;
    ghost var rest := file.Rest();
    bytes, chunks, eofs, delays := [], 0, 0, 0;
    ReadRunFirst(rest, rs);
    for k := 0 to |rs|
      invariant file.Valid()
      invariant Reading(bytes, file.Rest(), chunks, eofs, delays) == ReadRun(rest, Calls(rs[..k]))
    {
      ReadRunNext(rest, rs, k);
      var read := file.Read(buffer, rs[k].count, rs[k].hooks);
      if read == FS_READ_EOF {
        eofs := eofs + 1;
      } else if read == FS_READ_DELAYED {
        delays := delays + 1;
      } else {
        bytes, chunks := bytes + buffer[..read], chunks + 1;
      }
    }
    assert rs[..|rs|] == rs;
    ReadsAccountForAll(rest, Calls(rs));
    assert |Calls(rs)| == |rs| by {
      CallsLength(rs);
    }
  }

  lemma CallsLength(rs: seq<Request>)
    ensures |Calls(rs)| == |rs|
  {
  }

  /** fs_open followed by any run of reads: a file of the chain yields EOFs and nothing
      else. */
  method OpenAndRead(file: FsFile, name: array<Byte>, root: FsDataFile?, fileState: Option<Handle>,
      buffer: array<Byte>, rs: seq<Request>, ghost files: seq<FsDataFile>)
    returns (err: Err, bytes: seq<Byte>, chunks: nat, eofs: nat, delays: nat)
    requires Terminated(name[..]) && IsChain(root, files) && NamesTerminated(files)
    requires forall f :: f in files ==> f.data != buffer
    requires forall i :: 0 <= i < |rs| ==> rs[i].count <= buffer.Length
    modifies file, buffer
    ensures err == Ok <==> exists i: nat :: FirstMatch(files, old(name[..]), i)
    ensures err == Ok ==> bytes == [] && chunks == 0 && delays == 0 && eofs == |rs|
    ensures err == Ok ==> file.Valid() && file.BytesLeft() == 0
  {
    hide ReadRun, Calls;
    err := Open(file, name, root, None, fileState, files);
    bytes, chunks, eofs, delays := [], 0, 0, 0;
    if err == Ok {
      ghost var i: nat :| FirstMatch(files, name[..], i);
      assert files[i] in files;
      bytes, chunks, eofs, delays := ReadAll(file, buffer, rs);
      OpenedHandleIsAtEof(Calls(rs));
      CallsLength(rs);
    }
  }
}
