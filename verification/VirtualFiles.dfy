/** The virtual file layer: fake handles over immutable file data, each with its own position. */
module VirtualFiles {
  import opened Words
  import NameHash

  const RECORDS: nat := 50
  const ATTEMPTS: nat := 128
  const HANDLE_BASE: nat := 0xFF000001
  const HANDLE_LIMIT: nat := 0xFF000101
  const MAIN_HASH: word := 0xD83F24DD
  const SCRIPT_HASH: word := 0x11A462D1

  const FILE_BEGIN: nat := 0
  const FILE_CURRENT: nat := 1
  const FILE_END: nat := 2

  type File = s: seq<byte> | |s| < W

  datatype Record = Record(handle: nat, data: File, position: word, active: bool)

  const FREE: Record := Record(0, [], 0, false)

  // ----- what a handle means: a cursor on an immutable sequence of octets

  datatype Cursor = Cursor(data: File, position: word)

  /** The octets a read of `want` octets delivers. */
  function Delivered(c: Cursor, want: nat): seq<byte> {
    if c.position >= |c.data| then []
    else c.data[c.position..if c.position + want <= |c.data| then c.position + want else |c.data|]
  }

  function AfterRead(c: Cursor, want: nat): Cursor {
    c.(position := c.position + |Delivered(c, want)|)
  }

  function Target(c: Cursor, distance: int, how: nat): Option<int> {
    if how == FILE_BEGIN then Some(distance)
    else if how == FILE_CURRENT then Some(c.position + distance)
    else if how == FILE_END then Some(|c.data|)
    else None
  }

  function AfterSeek(c: Cursor, distance: int, how: nat): Option<Cursor> {
    match Target(c, distance, how)
    case Some(next) => if 0 <= next < W then Some(c.(position := next)) else None
    case None => None
  }

  /** What reads of `n` octets in all deliver from a place in a file. */
  function From(data: seq<byte>, p: nat, n: nat): seq<byte> {
    if p <= |data| then if n <= |data| - p then data[p..p + n] else data[p..] else []
  }

  lemma DeliveredFrom(c: Cursor, want: nat)
    ensures Delivered(c, want) == From(c.data, c.position, want)
  {
  }

  /** A seek from the start is to the octet it names, and reads go on from there, or deliver nothing past the end. */
  lemma SeekFromStart(c: Cursor, d: int, want: nat)
    ensures AfterSeek(c, d, 0).Some? <==> 0 <= d <= 0xFFFF_FFFF
    ensures 0 <= d <= 0xFFFF_FFFF ==>
      && AfterSeek(c, d, 0) == Some(Cursor(c.data, d))
      && Delivered(AfterSeek(c, d, 0).value, want) == From(c.data, d, want)
  {
  }

  /** A relative seek after one from the start is one from the start; by 0 it reports the position. */
  lemma SeekOnwards(c: Cursor, d: int, e: int)
    ensures 0 <= d <= 0xFFFF_FFFF ==> AfterSeek(AfterSeek(c, d, 0).value, e, 1) == AfterSeek(c, d + e, 0)
    ensures AfterSeek(c, 0, 1) == Some(c)
  {
  }

  /** A seek to the end ignores the distance; a read then delivers nothing and reaches the end. */
  lemma SeekToEnd(c: Cursor, d: int, want: nat)
    ensures AfterSeek(c, d, 2) == Some(Cursor(c.data, |c.data|))
    ensures Delivered(AfterSeek(c, d, 2).value, want) == [] && AfterSeek(c, d, 2).value.position + want >= |c.data|
  {
  }

  /** Exactly when a seek is refused. */
  lemma SeekRefusedExactly(c: Cursor, d: int, how: nat)
    ensures AfterSeek(c, d, how).None? <==>
      how > 2 || (how == 0 && !(0 <= d <= 0xFFFF_FFFF)) || (how == 1 && !(0 <= c.position + d <= 0xFFFF_FFFF))
  {
  }

  function Total(wants: seq<nat>): nat {
    if wants == [] then 0 else wants[0] + Total(wants[1..])
  }

  /** Everything a series of reads delivers. */
  function Transcript(c: Cursor, wants: seq<nat>): seq<byte>
    decreases |wants|
  {
    if wants == [] then [] else Delivered(c, wants[0]) + Transcript(AfterRead(c, wants[0]), wants[1..])
  }

  /** Reads of arbitrary sizes deliver, joined together, what one read of their total size would. */
  lemma {:induction false} ReadsConcatenate(c: Cursor, wants: seq<nat>)
    ensures Transcript(c, wants) == Delivered(c, Total(wants))
    decreases |wants|
  {
    if wants != [] {
      ReadsConcatenate(AfterRead(c, wants[0]), wants[1..]);
    }
  }

  /** From the start of a file, reads that ask for at least its size return exactly the file. */
  lemma WholeFileRead(data: File, wants: seq<nat>)
    requires Total(wants) >= |data|
    ensures Transcript(Cursor(data, 0), wants) == data
  {
    ReadsConcatenate(Cursor(data, 0), wants);
  }

  // ----- the handle window

  function Handle(k: nat): nat { HANDLE_BASE + 2 * k }

  predicate InWindow(h: nat) {
    HANDLE_BASE <= h < HANDLE_LIMIT && h % 2 == 1
  }

  function Window(n: nat): (s: set<nat>)
    ensures |s| == n
    ensures forall h :: h in s <==> exists k :: 0 <= k < n && h == Handle(k)
  {
    if n == 0 then {} else
    var s := Window(n - 1);
    assert Handle(n - 1) !in s;
    s + {Handle(n - 1)}
  }

  lemma {:induction false} CursorCount(rs: seq<Record>)
    ensures |Cursors(rs).Keys| <= |rs|
    ensures (exists i :: 0 <= i < |rs| && !rs[i].active) ==> |Cursors(rs).Keys| < |rs|
    decreases |rs|
  {
    if rs != [] {
      var front, r := rs[..|rs| - 1], rs[|rs| - 1];
      CursorCount(front);
      if r.active {
        assert Cursors(rs).Keys == Cursors(front).Keys + {r.handle};
        assert (exists i :: 0 <= i < |rs| && !rs[i].active) ==> exists i :: 0 <= i < |front| && !front[i].active;
      }
    }
  }

  /** Every record is in use exactly when there are as many open files as records. */
  lemma {:induction false} Full(rs: seq<Record>)
    requires Sound(rs)
    ensures (forall i | 0 <= i < |rs| :: rs[i].active) <==> |Cursors(rs)| == |rs|
    decreases |rs|
  {
    CursorCount(rs);
    assert |Cursors(rs).Keys| == |Cursors(rs)|;
    if rs != [] && forall i | 0 <= i < |rs| :: rs[i].active {
      var front, r := rs[..|rs| - 1], rs[|rs| - 1];
      Full(front);
      CursorsAre(front);
      assert r.handle !in Cursors(front);
      assert Cursors(rs).Keys == Cursors(front).Keys + {r.handle};
    }
  }

  lemma SubsetSize(a: set<nat>, b: set<nat>)
    requires a <= b
    ensures |a| <= |b|
  {
    if a != {} {
      var x :| x in a;
      SubsetSize(a - {x}, b - {x});
    }
  }

  /** The handle of the `j`-th attempt after `start`. */
  function Attempt(start: nat, j: nat): nat { Handle((start + j) % ATTEMPTS) }

  /** While a record is free, one of the 128 attempts meets an unused handle: 128 pigeons do not fit in 49 holes. */
  lemma SomeAttemptIsFree(rs: seq<Record>, start: nat)
    requires |rs| == RECORDS && exists i :: 0 <= i < RECORDS && !rs[i].active
    ensures exists j :: 0 <= j < ATTEMPTS && Attempt(start, j) !in Cursors(rs)
  {
    hide Cursors, Window;
    var used := Cursors(rs).Keys;
    CursorCount(rs);
    if forall k :: 0 <= k < ATTEMPTS ==> Handle(k) in used {
      SubsetSize(Window(ATTEMPTS), used);
      assert false;
    }
    var k :| 0 <= k < ATTEMPTS && Handle(k) !in used;
    var j := (k - start) % ATTEMPTS;
    Wrap(start, k);
    assert Attempt(start, j) == Handle(k);
  }

  lemma Wrap(start: nat, k: nat)
    requires k < ATTEMPTS
    ensures (start + (k - start) % ATTEMPTS) % ATTEMPTS == k
  {
  }

  lemma NextAttempt(start: nat, j: nat)
    ensures Attempt(start, j) + 2 >= HANDLE_LIMIT ==> Attempt(start, j + 1) == HANDLE_BASE
    ensures Attempt(start, j) + 2 < HANDLE_LIMIT ==> Attempt(start, j + 1) == Attempt(start, j) + 2
    ensures InWindow(Attempt(start, j))
  {
  }

  /** The next candidate not in use, counting on from `next` and round; `after` is the candidate after it. */
  ghost predicate HandedOut(next: nat, files: map<nat, Cursor>, h: nat, after: nat) {
    exists j :: HandedOutAt(StartOf(next), files, h, after, j)
  }

  function StartOf(next: nat): nat {
    if next >= 0xFF00_0001 then (next - 0xFF00_0001) / 2 else 0
  }

  ghost predicate HandedOutAt(start: nat, files: map<nat, Cursor>, h: nat, after: nat, j: nat) {
    && j < 128 && h == Attempt(start, j) && h !in files && after == Attempt(start, j + 1)
    && forall i | 0 <= i < j :: Attempt(start, i) in files
  }

  /** A handle that was just closed is not the next one given out. */
  lemma NotGivenOutAgain(next: nat, files: map<nat, Cursor>, h: nat, next': nat, files': map<nat, Cursor>, h': nat,
                         next'': nat)
    requires HandedOut(next, files, h, next') && HandedOut(next', files', h', next'') && |files'| <= 50
    ensures h' != h
  {
    hide Window, Attempt;
    if h' == h {
      var start, start' := StartOf(next), StartOf(next');
      var j: nat :| HandedOutAt(start, files, h, next', j);
      var k: nat :| HandedOutAt(start', files', h', next'', k);
      RoundTo(start, j, next', k);
      Crowded(start', files', 127);
    }
  }

  /** As many attempts in use, as many open files. */
  lemma Crowded(start: nat, files: map<nat, Cursor>, k: nat)
    requires k <= 128 && forall i | 0 <= i < k :: Attempt(start, i) in files
    ensures |files| >= k
  {
    var tried := Tried(start, k);
    SubsetSize(tried, files.Keys);
    assert |files.Keys| == |files|;
  }

  lemma {:induction false} Tried(start: nat, k: nat) returns (tried: set<nat>)
    requires k <= 128
    ensures |tried| == k && forall h :: h in tried <==> exists i :: 0 <= i < k && h == Attempt(start, i)
  {
    if k == 0 {
      tried := {};
    } else {
      var rest := Tried(start, k - 1);
      tried := rest + {Attempt(start, k - 1)};
      forall i | 0 <= i < k - 1
        ensures Attempt(start, i) != Attempt(start, k - 1)
      {
        Apart(start, i, k - 1);
      }
    }
  }

  lemma Apart(start: nat, i: nat, k: nat)
    requires i < k < 128
    ensures Attempt(start, i) != Attempt(start, k)
  {
  }

  lemma RoundTo(start: nat, j: nat, next: nat, k: nat)
    requires k < 128 && next == Attempt(start, j + 1) && Attempt(StartOf(next), k) == Attempt(start, j)
    ensures k == 127
  {
    var from := (start + j + 1) % 128;
    assert StartOf(next) == from;
    assert (from + k) % 128 == (start + j) % 128;
  }

  // ----- the table of records and the cursors it stands for

  /** Records in use have distinct handles of the window. */
  predicate Sound(rs: seq<Record>) {
    && (forall i | 0 <= i < |rs| && rs[i].active :: InWindow(rs[i].handle))
    && (forall i, j | 0 <= i < j < |rs| && rs[i].active && rs[j].active :: rs[i].handle != rs[j].handle)
  }

  /** The open files: independent cursors, one per handle. */
  function Cursors(rs: seq<Record>): map<nat, Cursor> {
    if rs == [] then map[]
    else
      var r := rs[|rs| - 1];
      var rest := Cursors(rs[..|rs| - 1]);
      if r.active then rest[r.handle := Cursor(r.data, r.position)] else rest
  }

  lemma {:induction false} CursorsAre(rs: seq<Record>)
    requires Sound(rs)
    ensures forall i | 0 <= i < |rs| && rs[i].active ::
              rs[i].handle in Cursors(rs) && Cursors(rs)[rs[i].handle] == Cursor(rs[i].data, rs[i].position)
    ensures forall h | h in Cursors(rs) :: exists i :: 0 <= i < |rs| && rs[i].active && rs[i].handle == h
    decreases |rs|
  {
    if rs != [] {
      var front := rs[..|rs| - 1];
      CursorsAre(front);
      forall h | h in Cursors(rs)
        ensures exists i :: 0 <= i < |rs| && rs[i].active && rs[i].handle == h
      {
        if h in Cursors(front) {
          var i :| 0 <= i < |front| && front[i].active && front[i].handle == h;
          assert rs[i].active && rs[i].handle == h;
        }
      }
    }
  }

  /** Opening: a free record given an unused handle adds one cursor. */
  lemma Occupied(rs: seq<Record>, slot: nat, handle: nat, data: File)
    requires Sound(rs) && slot < |rs| && !rs[slot].active && InWindow(handle) && handle !in Cursors(rs)
    ensures var rs' := rs[slot := Record(handle, data, 0, true)];
            Sound(rs') && Cursors(rs') == Cursors(rs)[handle := Cursor(data, 0)]
  {
    hide Cursors, InWindow;
    var rs' := rs[slot := Record(handle, data, 0, true)];
    CursorsAre(rs);
    CursorsAre(rs');
    assert forall i | 0 <= i < |rs| && i != slot :: rs'[i] == rs[i];
    assert rs'[slot].handle == handle;
    assert Cursors(rs').Keys == Cursors(rs).Keys + {handle};
  }

  /** Reading and seeking: a new position moves one cursor. */
  lemma Moved(rs: seq<Record>, slot: nat, position: word)
    requires Sound(rs) && slot < |rs| && rs[slot].active
    ensures var rs' := rs[slot := rs[slot].(position := position)];
            Sound(rs') && Cursors(rs') == Cursors(rs)[rs[slot].handle := Cursor(rs[slot].data, position)]
  {
    hide Cursors, InWindow;
    var rs' := rs[slot := rs[slot].(position := position)];
    CursorsAre(rs);
    CursorsAre(rs');
    assert forall i | 0 <= i < |rs| && i != slot :: rs'[i] == rs[i];
    assert rs'[slot].handle == rs[slot].handle;
    assert Cursors(rs').Keys == Cursors(rs).Keys;
  }

  /** Closing removes one cursor. */
  lemma Freed(rs: seq<Record>, slot: nat)
    requires Sound(rs) && slot < |rs| && rs[slot].active
    ensures var rs' := rs[slot := FREE];
            Sound(rs') && Cursors(rs') == Cursors(rs) - {rs[slot].handle}
  {
    hide Cursors, InWindow;
    var rs' := rs[slot := FREE];
    CursorsAre(rs);
    CursorsAre(rs');
    assert forall i | 0 <= i < |rs| && i != slot :: rs'[i] == rs[i];
    assert Cursors(rs').Keys == Cursors(rs).Keys - {rs[slot].handle};
  }

  // ----- the layer

  datatype ReadResult = ToSystem | Refused | Read(count: nat, eof: bool)
  datatype SeekResult = SeekToSystem | SeekRefused | Positioned(position: word)
  datatype OpenResult = OpenToSystem | TooManyFiles | Opened(handle: nat)

  class Layer {
    const records: array<Record>
    var nextHandle: nat
    var active: bool
    const mainData: File
    const scriptData: File

    ghost predicate Valid()
      reads this, records
    {
      records.Length == RECORDS && InWindow(nextHandle) && Sound(records[..])
    }

    ghost function Files(): map<nat, Cursor>
      reads records
    {
      Cursors(records[..])
    }

    constructor (main: File, script: File)
      ensures Valid() && active && Files() == map[] && mainData == main && scriptData == script
      ensures nextHandle == 0xFF00_0001
    {
      records := new Record[RECORDS](_ => FREE);
      nextHandle := HANDLE_BASE;
      active := true;
      mainData, scriptData := main, script;
      new;
      CursorsAre(records[..]);
      assert Files().Keys == {};
    }

    /** `find_record`: the record in use with that handle, or -1. */
    method FindRecord(handle: nat) returns (slot: int)
      requires Valid()
      ensures -1 <= slot < RECORDS
      ensures slot >= 0 <==> handle in Files()
      ensures slot >= 0 ==> records[slot].active && records[slot].handle == handle
      ensures slot >= 0 ==> Files()[handle] == Cursor(records[slot].data, records[slot].position)
    {
      CursorsAre(records[..]);
      assert forall i | 0 <= i < RECORDS :: records[..][i] == records[i];
      hide Cursors;
      for i := 0 to RECORDS
        invariant forall j | 0 <= j < i :: !(records[j].active && records[j].handle == handle)
      {
        if records[i].active && records[i].handle == handle {
          return i;
        }
      }
      return -1;
    }

    /** `allocate_record`: fails exactly when every record is in use. */
    method AllocateRecord(data: File) returns (handle: Option<nat>)
      requires Valid()
      modifies this`nextHandle, records
      ensures Valid()
      ensures handle.None? <==> old(forall i | 0 <= i < RECORDS :: records[i].active)
      ensures handle.None? <==> |old(Files())| == 50
      ensures handle.None? ==> Files() == old(Files()) && nextHandle == old(nextHandle)
      ensures handle.Some? ==> HandedOut(old(nextHandle), old(Files()), handle.value, nextHandle)
      ensures handle.Some? ==> 0xFF00_0001 <= handle.value < 0xFF00_0101 && handle.value % 2 == 1
      ensures handle.Some? ==> handle.value !in old(Files()) && Files() == old(Files())[handle.value := Cursor(data, 0)]
    {
      Full(records[..]);
      assert forall i | 0 <= i < RECORDS :: records[..][i] == records[i];
      hide Cursors, Sound, InWindow;
      for slot := 0 to RECORDS
        invariant forall i | 0 <= i < slot :: records[i].active
      {
        if !records[slot].active {
          var candidate := NextFreeHandle(slot);
          Occupied(records[..], slot, candidate, data);
          ghost var before := records[..];
          records[slot] := Record(candidate, data, 0, true);
          assert records[..] == before[slot := records[slot]];
          return Some(candidate);
        }
      }
      return None;
    }

    /** The inner loop of `allocate_record`: with a record free, it always ends with a handle. */
    method NextFreeHandle(slot: nat) returns (candidate: nat)
      requires Valid() && slot < RECORDS && !records[slot].active
      modifies this`nextHandle
      ensures Valid() && InWindow(candidate) && candidate !in Files()
      ensures HandedOut(old(nextHandle), Files(), candidate, nextHandle)
    {
      hide Cursors, Sound;
      ghost var start := (nextHandle - HANDLE_BASE) / 2;
      for attempts := 0 to ATTEMPTS
        invariant Valid() && nextHandle == Attempt(start, attempts)
        invariant forall j | 0 <= j < attempts :: Attempt(start, j) in Files()
      {
        candidate := nextHandle;
        NextAttempt(start, attempts);
        nextHandle := nextHandle + 2;
        if nextHandle >= HANDLE_LIMIT {
          nextHandle := HANDLE_BASE;
        }
        var other := FindRecord(candidate);
        if other < 0 {
          assert HandedOutAt(StartOf(old(nextHandle)), Files(), candidate, nextHandle, attempts);
          return;
        }
      }
      assert !records[..][slot].active;
      SomeAttemptIsFree(records[..], start);
      assert false;
    }

    /** `archive_create_file_a`: the two virtual files are recognised by the hash of the path. */
    method CreateFile(path: seq<byte>) returns (r: OpenResult)
      requires Valid() && NameHash.CString(path)
      modifies this`nextHandle, records
      ensures Valid()
      ensures var h := NameHash.PathHash(path);
              r.OpenToSystem? <==> !active || (h != Some(0xD83F_24DD) && h != Some(0x11A4_62D1))
      ensures r.TooManyFiles? <==> !r.OpenToSystem? && old(forall i | 0 <= i < RECORDS :: records[i].active)
      ensures r.TooManyFiles? <==> !r.OpenToSystem? && |old(Files())| == 50
      ensures !r.Opened? ==> Files() == old(Files())
      ensures r.Opened? ==> HandedOut(old(nextHandle), old(Files()), r.handle, nextHandle)
      ensures r.Opened? ==> 0xFF00_0001 <= r.handle < 0xFF00_0101 && r.handle % 2 == 1 && r.handle !in old(Files())
      ensures r.Opened? ==>
        var data := if NameHash.PathHash(path) == Some(0xD83F_24DD) then mainData else scriptData;
        Files() == old(Files())[r.handle := Cursor(data, 0)]
    {
      hide NameHash.PathHash;
      if !active {
        return OpenToSystem;
      }
      var hash := NameHash.HashPath(path);
      if hash != Some(MAIN_HASH) && hash != Some(SCRIPT_HASH) {
        return OpenToSystem;
      }
      var handle := AllocateRecord(if hash == Some(MAIN_HASH) then mainData else scriptData);
      r := if handle.Some? then Opened(handle.value) else TooManyFiles;
    }

    method MoveTo(slot: nat, position: word)
      requires Valid() && slot < RECORDS && records[slot].active
      modifies records
      ensures Valid() && records[slot] == old(records[slot]).(position := position)
      ensures Files() == old(Files())[records[slot].handle := Cursor(records[slot].data, position)]
    {
      hide Cursors, Sound, InWindow;
      Moved(records[..], slot, position);
      ghost var before := records[..];
      records[slot] := records[slot].(position := position);
      assert records[..] == before[slot := records[slot]];
    }

    /** `archive_read_file`. An overlapped read first moves the cursor, even when the read is then refused. */
    method ReadFile(handle: nat, buffer: array?<byte>, want: word, offset: Option<word>) returns (r: ReadResult)
      requires Valid() && (buffer != null ==> want <= buffer.Length)
      modifies records, buffer
      ensures Valid()
      ensures r.ToSystem? <==> !active || handle !in old(Files())
      ensures r.ToSystem? ==> Files() == old(Files()) && (buffer != null ==> buffer[..] == old(buffer[..]))
      ensures !r.ToSystem? ==>
        var c0 := old(Files())[handle];
        var c := if offset.Some? then c0.(position := offset.value) else c0;
        && (r.Refused? <==> Delivered(c, want) != [] && buffer == null)
        && (r.Refused? ==> Files() == old(Files())[handle := c])
        && (r.Read? ==> Files() == old(Files())[handle := AfterRead(c, want)])
        && (r.Read? ==> r.count == |Delivered(c, want)| && (r.eof <==> c.position + want >= |c.data|))
        && (r.Read? && buffer != null ==> r.count <= buffer.Length)
        && (r.Read? && buffer != null ==> buffer[..] == Delivered(c, want) + old(buffer[r.count..]))
    {
      hide Cursors, Sound, InWindow;
      if !active {
        return ToSystem;
      }
      var slot := FindRecord(handle);
      if slot < 0 {
        return ToSystem;
      }
      hide Delivered, AfterRead;
      if offset.Some? {
        MoveTo(slot, offset.value);
      } else {
        assert Files() == old(Files())[handle := old(Files())[handle]];
      }
      r := Deliver(slot, buffer, want);
    }

    /** The part of a read that follows the lookup: copy what is available and advance. */
    method Deliver(slot: nat, buffer: array?<byte>, want: word) returns (r: ReadResult)
      requires Valid() && (buffer != null ==> want <= buffer.Length)
      requires slot < RECORDS && records[slot].active
      modifies records, buffer
      ensures Valid() && !r.ToSystem?
      ensures var rec := old(records[slot]);
        var c := Cursor(rec.data, rec.position);
        && (r.Refused? <==> Delivered(c, want) != [] && buffer == null)
        && (r.Refused? ==> Files() == old(Files()))
        && (r.Read? ==> Files() == old(Files())[rec.handle := AfterRead(c, want)])
        && (r.Read? ==> r.count == |Delivered(c, want)| && (r.eof <==> c.position + want >= |c.data|))
        && (r.Read? && buffer != null ==> r.count <= buffer.Length)
        && (r.Read? && buffer != null ==> buffer[..] == Delivered(c, want) + old(buffer[r.count..]))
    {
      hide Cursors, Sound, InWindow;
      var rec := records[slot];
      ghost var c := Cursor(rec.data, rec.position);
      if rec.position >= |rec.data| {
        Moved(records[..], slot, rec.position);
        assert records[..] == records[..][slot := rec];
        return Read(0, true);
      }
      var available := |rec.data| - rec.position;
      var copy := if want < available then want else available;
      assert Delivered(c, want) == rec.data[rec.position..rec.position + copy];
      if copy != 0 && buffer == null {
        return Refused;
      }
      if copy != 0 {
        forall i | 0 <= i < copy { buffer[i] := rec.data[rec.position + i]; }
        assert buffer[..] == Delivered(c, want) + old(buffer[copy..]);
      }
      MoveTo(slot, rec.position + copy);
      r := Read(copy, want >= available);
    }

    /** `archive_set_file_pointer` */
    method SetFilePointer(handle: nat, distance: int, how: nat) returns (r: SeekResult)
      requires Valid()
      modifies records
      ensures Valid()
      ensures r.SeekToSystem? <==> !active || handle !in old(Files())
      ensures !r.Positioned? ==> Files() == old(Files())
      ensures !r.SeekToSystem? ==>
        var moved := AfterSeek(old(Files())[handle], distance, how);
        && (r.SeekRefused? <==> moved.None?)
        && (r.Positioned? ==> r.position == moved.value.position && Files() == old(Files())[handle := moved.value])
    {
      hide Cursors, Sound, InWindow;
      if !active {
        return SeekToSystem;
      }
      var slot := FindRecord(handle);
      if slot < 0 {
        return SeekToSystem;
      }
      var next: int;
      if how == FILE_BEGIN {
        next := distance;
      } else if how == FILE_CURRENT {
        next := records[slot].position + distance;
      } else if how == FILE_END {
        next := |records[slot].data|;
      } else {
        return SeekRefused;
      }
      if next < 0 || next > 0xFFFFFFFF {
        return SeekRefused;
      }
      MoveTo(slot, next);
      r := Positioned(next);
    }

    /** `archive_get_file_size` */
    method GetFileSize(handle: nat) returns (size: Option<nat>)
      requires Valid()
      ensures size == if active && handle in Files() then Some(|Files()[handle].data|) else None
    {
      if !active {
        return None;
      }
      var slot := FindRecord(handle);
      size := if slot < 0 then None else Some(|records[slot].data|);
    }

    /** `archive_close_handle` */
    method CloseHandle(handle: nat) returns (closed: bool)
      requires Valid()
      modifies records
      ensures Valid()
      ensures closed <==> active && handle in old(Files())
      ensures Files() == if closed then old(Files()) - {handle} else old(Files())
    {
      if !active {
        return false;
      }
      var slot := FindRecord(handle);
      if slot < 0 {
        return false;
      }
      hide Cursors, Sound, InWindow;
      Freed(records[..], slot);
      ghost var before := records[..];
      records[slot] := FREE;
      assert records[..] == before[slot := FREE];
      closed := true;
    }
  }

  // ----- runs: any calls on any handles, in any order

  type Path = p: seq<byte> | NameHash.CString(p)

  datatype Op =
    | OpenPath(path: Path)
    | ReadFrom(handle: nat, want: word, offset: Option<word>, buffered: bool)
    | SeekTo(handle: nat, distance: int, how: nat)
    | SizeOf(handle: nat)
    | CloseIt(handle: nat)

  datatype Reply =
    | OfOpen(creation: OpenResult)
    | OfRead(read: ReadResult, octets: seq<byte>)
    | OfSeek(sought: SeekResult)
    | OfSize(size: Option<nat>)
    | OfClose(closed: bool)

  datatype Event = Event(op: Op, reply: Reply)

  /** The handle an event is about; an open that failed is about none. */
  function Concerned(e: Event): Option<nat> {
    match e.op
    case OpenPath(_) => if e.reply.OfOpen? && e.reply.creation.Opened? then Some(e.reply.creation.handle) else None
    case _ => Some(e.op.handle)
  }

  function FileAt(main: File, script: File, path: Path): Option<File> {
    var h := NameHash.PathHash(path);
    if h == Some(MAIN_HASH) then Some(main) else if h == Some(SCRIPT_HASH) then Some(script) else None
  }

  function Placed(c: Cursor, offset: Option<word>): Cursor {
    if offset.Some? then c.(position := offset.value) else c
  }

  /** What becomes of the one cursor an event is about. */
  function CursorAfter(main: File, script: File, c: Option<Cursor>, op: Op): Option<Cursor> {
    if op.OpenPath? then
      var data := FileAt(main, script, op.path);
      if data.Some? then Some(Cursor(data.value, 0)) else c
    else if c.None? || op.SizeOf? then c
    else if op.CloseIt? then None
    else if op.SeekTo? then
      var moved := AfterSeek(c.value, op.distance, op.how);
      if moved.Some? then moved else c
    else
      var at := Placed(c.value, op.offset);
      Some(if op.buffered then AfterRead(at, op.want) else at)
  }

  /** The right answer to a call on a handle, given what the handle stands for. */
  ghost predicate Answers(c: Option<Cursor>, e: Event) {
    match e.op
    case OpenPath(_) => c.None?
    case ReadFrom(_, want, offset, buffered) =>
      && e.reply.OfRead?
      && (match c
          case None => e.reply.read.ToSystem? && e.reply.octets == []
          case Some(was) =>
            var at := Placed(was, offset);
            var got := Delivered(at, want);
            if got != [] && !buffered then e.reply == OfRead(Refused, [])
            else e.reply == OfRead(Read(|got|, at.position + want >= |at.data|), got))
    case SeekTo(_, distance, how) =>
      && e.reply.OfSeek?
      && (match c
          case None => e.reply.sought.SeekToSystem?
          case Some(was) =>
            match AfterSeek(was, distance, how)
            case None => e.reply.sought.SeekRefused?
            case Some(now) => e.reply.sought == Positioned(now.position))
    case SizeOf(_) => e.reply == OfSize(if c.Some? then Some(|c.value.data|) else None)
    case CloseIt(_) => e.reply == OfClose(c.Some?)
  }

  function Lookup(files: map<nat, Cursor>, h: nat): Option<Cursor> {
    if h in files then Some(files[h]) else None
  }

  function Put(files: map<nat, Cursor>, h: nat, c: Option<Cursor>): map<nat, Cursor> {
    if c.Some? then files[h := c.value] else files - {h}
  }

  function Next(main: File, script: File, files: map<nat, Cursor>, e: Event): map<nat, Cursor> {
    match Concerned(e)
    case None => files
    case Some(h) => Put(files, h, CursorAfter(main, script, Lookup(files, h), e.op))
  }

  /** The reply is right for the open files there are; only an open depends on more than one of them. */
  ghost predicate Answered(main: File, script: File, files: map<nat, Cursor>, e: Event) {
    && (Concerned(e).Some? ==> Answers(Lookup(files, Concerned(e).value), e))
    && (e.op.OpenPath? ==>
          && e.reply.OfOpen?
          && (e.reply.creation.OpenToSystem? <==> FileAt(main, script, e.op.path).None?)
          && (e.reply.creation.TooManyFiles? <==> FileAt(main, script, e.op.path).Some? && |files| == RECORDS)
          && (e.reply.creation.Opened? ==> InWindow(e.reply.creation.handle)))
  }

  function After(main: File, script: File, files: map<nat, Cursor>, log: seq<Event>): map<nat, Cursor> {
    if log == [] then files else Next(main, script, After(main, script, files, log[..|log| - 1]), log[|log| - 1])
  }

  ghost predicate AllAnswered(main: File, script: File, files: map<nat, Cursor>, log: seq<Event>) {
    forall k | 0 <= k < |log| :: Answered(main, script, After(main, script, files, log[..k]), log[k])
  }

  /** The events about one handle, in their order. */
  function About(log: seq<Event>, h: nat): seq<Event> {
    if log == [] then []
    else
      var rest, e := About(log[..|log| - 1], h), log[|log| - 1];
      if Concerned(e) == Some(h) then rest + [e] else rest
  }

  /** One cursor followed through events of its own. */
  function Alone(main: File, script: File, c: Option<Cursor>, own: seq<Event>): Option<Cursor> {
    if own == [] then c
    else CursorAfter(main, script, Alone(main, script, c, own[..|own| - 1]), own[|own| - 1].op)
  }

  lemma NextAt(main: File, script: File, files: map<nat, Cursor>, e: Event, h: nat)
    ensures Lookup(Next(main, script, files, e), h)
            == if Concerned(e) == Some(h) then CursorAfter(main, script, Lookup(files, h), e.op) else Lookup(files, h)
  {
    hide CursorAfter;
  }

  /** However calls on other handles are interleaved, a handle stands where its own calls alone leave it. */
  lemma {:induction false} HandlesAreIndependent(main: File, script: File, files: map<nat, Cursor>, log: seq<Event>,
                                                 h: nat)
    ensures Lookup(After(main, script, files, log), h) == Alone(main, script, Lookup(files, h), About(log, h))
    decreases |log|
  {
    hide CursorAfter, Next, Lookup;
    if log != [] {
      var front, e := log[..|log| - 1], log[|log| - 1];
      HandlesAreIndependent(main, script, files, front, h);
      NextAt(main, script, After(main, script, files, front), e, h);
      if Concerned(e) == Some(h) {
        assert About(log, h)[..|About(log, h)| - 1] == About(front, h);
      }
    }
  }

  lemma FrontAnswered(main: File, script: File, files: map<nat, Cursor>, log: seq<Event>)
    requires AllAnswered(main, script, files, log) && log != []
    ensures var front := log[..|log| - 1];
            AllAnswered(main, script, files, front)
              && Answered(main, script, After(main, script, files, front), log[|log| - 1])
  {
    hide Answered, After;
    var front := log[..|log| - 1];
    assert forall k | 0 <= k < |front| :: front[..k] == log[..k] && front[k] == log[k];
  }

  ghost predicate AnsweredAlone(main: File, script: File, c: Option<Cursor>, own: seq<Event>) {
    forall k | 0 <= k < |own| :: Answers(Alone(main, script, c, own[..k]), own[k])
  }

  /** So the calls on a handle are answered as if they had been the only ones. */
  lemma {:induction false} AnswersAreIndependent(main: File, script: File, files: map<nat, Cursor>, log: seq<Event>,
                                                 h: nat)
    requires AllAnswered(main, script, files, log)
    ensures AnsweredAlone(main, script, Lookup(files, h), About(log, h))
    decreases |log|
  {
    if log != [] {
      hide Answers, Next, Alone, AllAnswered, After;
      var front, e := log[..|log| - 1], log[|log| - 1];
      FrontAnswered(main, script, files, log);
      AnswersAreIndependent(main, script, files, front, h);
      HandlesAreIndependent(main, script, files, front, h);
      var c, rest, own := Lookup(files, h), About(front, h), About(log, h);
      forall k | 0 <= k < |own|
        ensures Answers(Alone(main, script, c, own[..k]), own[k])
      {
        assert own[..k] == rest[..k];
        if k == |rest| {
          assert own[..k] == rest;
        } else {
          assert own[k] == rest[k];
        }
      }
    }
  }

  /** In every run at most 50 handles are open, all of them odd numbers of the window. */
  lemma {:induction false} NeverMoreThanFifty(main: File, script: File, files: map<nat, Cursor>, log: seq<Event>)
    requires |files| <= RECORDS && forall h | h in files :: InWindow(h)
    requires AllAnswered(main, script, files, log)
    ensures var now := After(main, script, files, log);
            |now| <= 50 && forall h | h in now :: 0xFF00_0001 <= h < 0xFF00_0101 && h % 2 == 1
    decreases |log|
  {
    if log != [] {
      hide Answered, Next, AllAnswered;
      var front, e := log[..|log| - 1], log[|log| - 1];
      FrontAnswered(main, script, files, log);
      NeverMoreThanFifty(main, script, files, front);
      var was := After(main, script, files, front);
      OneMoreAtMost(main, script, was, e);
    }
  }

  lemma OneMoreAtMost(main: File, script: File, files: map<nat, Cursor>, e: Event)
    requires |files| <= RECORDS && (forall h | h in files :: InWindow(h)) && Answered(main, script, files, e)
    ensures var now := Next(main, script, files, e);
            |now| <= RECORDS && forall h | h in now :: InWindow(h)
  {
    hide FileAt, InWindow;
    var now := Next(main, script, files, e);
    if Concerned(e).Some? {
      var h := Concerned(e).value;
      if h in files || !e.op.OpenPath? {
        KeysSubset(now, files);
      } else {
        assert now.Keys == files.Keys + {h};
        assert |now.Keys| == |now| && |files.Keys| == |files|;
      }
    }
  }

  lemma KeysSubset(a: map<nat, Cursor>, b: map<nat, Cursor>)
    requires a.Keys <= b.Keys
    ensures |a| <= |b|
  {
    SubsetSize(a.Keys, b.Keys);
    assert |a| == |a.Keys| && |b| == |b.Keys|;
  }

  // ----- a file read to its end, whatever happens on other handles

  /** The octets that the reads of a log delivered, joined in order. */
  function Gathered(own: seq<Event>): seq<byte> {
    if own == [] then []
    else
      Gathered(own[..|own| - 1])
      + if own[|own| - 1].reply.OfRead? then own[|own| - 1].reply.octets else []
  }

  predicate PlainReads(own: seq<Event>, wants: seq<nat>) {
    && |own| == |wants|
    && forall k | 0 <= k < |own| ::
      own[k].op.ReadFrom? && own[k].op.buffered && own[k].op.offset.None? && own[k].op.want == wants[k]
  }

  lemma {:induction false} AloneSplit(main: File, script: File, c: Option<Cursor>, a: seq<Event>, b: seq<Event>)
    ensures Alone(main, script, c, a + b) == Alone(main, script, Alone(main, script, c, a), b)
    decreases |b|
  {
    if b == [] {
      assert a + b == a;
    } else {
      AloneSplit(main, script, c, a, b[..|b| - 1]);
      assert (a + b)[..|a + b| - 1] == a + b[..|b| - 1];
    }
  }

  lemma {:induction false} TotalOfAll(wants: seq<nat>)
    requires wants != []
    ensures Total(wants) == Total(wants[..|wants| - 1]) + wants[|wants| - 1]
  {
    if |wants| > 1 {
      TotalOfAll(wants[1..]);
      assert wants[1..][..|wants| - 2] == wants[..|wants| - 1][1..];
    }
  }

  lemma ReadAgain(c: Cursor, first: nat, second: nat)
    ensures Delivered(c, first) + Delivered(AfterRead(c, first), second) == Delivered(c, first + second)
    ensures AfterRead(AfterRead(c, first), second) == AfterRead(c, first + second)
  {
    var d, p := c.data, c.position;
    if p + first < |d| {
      assert Delivered(c, first) == d[p..p + first] && AfterRead(c, first).position == p + first;
      var end := if p + first + second <= |d| then p + first + second else |d|;
      assert d[p..p + first] + d[p + first..end] == d[p..end];
    }
  }

  lemma FrontAlone(main: File, script: File, c: Cursor, own: seq<Event>, wants: seq<nat>)
    requires AnsweredAlone(main, script, Some(c), own) && PlainReads(own, wants) && own != []
    ensures var front, last := own[..|own| - 1], wants[..|wants| - 1];
            && AnsweredAlone(main, script, Some(c), front) && PlainReads(front, last)
            && Answers(Alone(main, script, Some(c), front), own[|own| - 1])
  {
    hide Answers, Alone;
    var front := own[..|own| - 1];
    assert forall k | 0 <= k < |front| :: front[..k] == own[..k] && front[k] == own[k];
  }

  lemma PlainRead(main: File, script: File, c: Cursor, e: Event)
    requires Answers(Some(c), e) && e.op.ReadFrom? && e.op.buffered && e.op.offset.None?
    ensures e.reply.OfRead? && e.reply.octets == Delivered(c, e.op.want)
    ensures CursorAfter(main, script, Some(c), e.op) == Some(AfterRead(c, e.op.want))
  {
  }

  lemma Nothing(c: Cursor)
    ensures Total([]) == 0 && Delivered(c, 0) == [] && AfterRead(c, 0) == c
  {
  }

  /** Plain reads on one handle deliver what one read of their total size would. */
  lemma {:induction false} ReadsGather(main: File, script: File, c: Cursor, own: seq<Event>, wants: seq<nat>)
    requires AnsweredAlone(main, script, Some(c), own) && PlainReads(own, wants)
    ensures Gathered(own) == Delivered(c, Total(wants))
    ensures Alone(main, script, Some(c), own) == Some(AfterRead(c, Total(wants)))
    decreases |own|
  {
    hide Answers, Delivered, AfterRead, CursorAfter, Total, AnsweredAlone;
    if own == [] {
      assert wants == [];
      Nothing(c);
    } else {
      var front, last := own[..|own| - 1], wants[..|wants| - 1];
      FrontAlone(main, script, c, own, wants);
      ReadsGather(main, script, c, front, last);
      TotalOfAll(wants);
      PlainRead(main, script, AfterRead(c, Total(last)), own[|own| - 1]);
      ReadAgain(c, Total(last), wants[|wants| - 1]);
    }
  }

  /**
   * A handle that is opened and then only read, whatever calls on other handles come in between: its reads deliver the
   * octets of its file in order, and all of them once as many have been asked for.
   */
  lemma InterleavedReads(main: File, script: File, files: map<nat, Cursor>, log: seq<Event>, h: nat,
                         start: Event, own: seq<Event>, wants: seq<nat>, data: File)
    requires AllAnswered(main, script, files, log) && About(log, h) == [start] + own
    requires start.op.OpenPath? && FileAt(main, script, start.op.path) == Some(data) && PlainReads(own, wants)
    ensures Gathered(own) == Delivered(Cursor(data, 0), Total(wants))
    ensures Total(wants) >= |data| ==> Gathered(own) == data
  {
    hide FileAt, Answers;
    AnswersAreIndependent(main, script, files, log, h);
    var all, c, first := About(log, h), Lookup(files, h), Some(Cursor(data, 0));
    assert Alone(main, script, c, [start]) == first by {
      assert [start][..0] == [];
    }
    forall k | 0 <= k < |own|
      ensures Answers(Alone(main, script, first, own[..k]), own[k])
    {
      AloneSplit(main, script, c, [start], own[..k]);
      assert all[..k + 1] == [start] + own[..k] && all[k + 1] == own[k];
    }
    ReadsGather(main, script, Cursor(data, 0), own, wants);
  }

  lemma {:induction false} StaysOpen(main: File, script: File, c: Cursor, own: seq<Event>)
    requires AnsweredAlone(main, script, Some(c), own) && forall e <- own :: !e.op.CloseIt?
    ensures Alone(main, script, Some(c), own).Some? && Alone(main, script, Some(c), own).value.data == c.data
    decreases |own|
  {
    if own != [] {
      var front, last := own[..|own| - 1], own[|own| - 1];
      assert forall k | 0 <= k < |front| :: front[..k] == own[..k] && front[k] == own[k];
      assert last in own && forall e <- front :: e in own;
      StaysOpen(main, script, c, front);
      assert Answers(Alone(main, script, Some(c), front), last);
    }
  }

  lemma AnsweredSplit(main: File, script: File, c: Option<Cursor>, a: seq<Event>, b: seq<Event>)
    requires AnsweredAlone(main, script, c, a + b)
    ensures AnsweredAlone(main, script, c, a) && AnsweredAlone(main, script, Alone(main, script, c, a), b)
  {
    hide Answers, Alone;
    forall k | 0 <= k < |a|
      ensures Answers(Alone(main, script, c, a[..k]), a[k])
    {
      assert (a + b)[..k] == a[..k] && (a + b)[k] == a[k];
    }
    forall k | 0 <= k < |b|
      ensures Answers(Alone(main, script, Alone(main, script, c, a), b[..k]), b[k])
    {
      assert (a + b)[..|a| + k] == a + b[..k] && (a + b)[|a| + k] == b[k];
      AloneSplit(main, script, c, a, b[..k]);
    }
  }

  /** Where a seek that is answered with a position goes, and what the reads after it deliver. */
  lemma SeekThenReads(main: File, script: File, c: Cursor, before: seq<Event>, seek: Event, own: seq<Event>,
                      wants: seq<nat>)
    requires AnsweredAlone(main, script, Some(c), before + [seek] + own) && forall e <- before :: !e.op.CloseIt?
    requires seek.op.SeekTo? && seek.reply.OfSeek? && seek.reply.sought.Positioned? && PlainReads(own, wants)
    ensures var p := seek.reply.sought.position;
            && Gathered(own) == From(c.data, p, Total(wants))
            && (seek.op.how == 0 ==> p == seek.op.distance)
            && (seek.op.how == 2 ==> p == |c.data|)
            && Alone(main, script, Some(c), before).Some?
            && (seek.op.how == 1 ==> p == Alone(main, script, Some(c), before).value.position + seek.op.distance)
  {
    hide Answers, Alone, CursorAfter, AnsweredAlone, Gathered, Total, PlainReads;
    AnsweredSplit(main, script, Some(c), before + [seek], own);
    AnsweredSplit(main, script, Some(c), before, [seek]);
    StaysOpen(main, script, c, before);
    AloneSplit(main, script, Some(c), before, [seek]);
    var at := Alone(main, script, Some(c), before).value;
    OneSeek(main, script, at, seek);
    var now := Cursor(c.data, seek.reply.sought.position);
    ReadsGather(main, script, now, own, wants);
    DeliveredFrom(now, Total(wants));
  }

  lemma OneSeek(main: File, script: File, at: Cursor, seek: Event)
    requires AnsweredAlone(main, script, Some(at), [seek])
    requires seek.op.SeekTo? && seek.reply.OfSeek? && seek.reply.sought.Positioned?
    ensures var p := seek.reply.sought.position;
            && Alone(main, script, Some(at), [seek]) == Some(Cursor(at.data, p))
            && (seek.op.how == 0 ==> p == seek.op.distance)
            && (seek.op.how == 2 ==> p == |at.data|)
            && (seek.op.how == 1 ==> p == at.position + seek.op.distance)
  {
    assert [seek][..0] == [];
    assert Answers(Alone(main, script, Some(at), [seek][..0]), [seek][0]);
  }

  /**
   * A handle that is opened, used in any way short of closing, then moved by a seek and read, whatever calls on other
   * handles come in between: its reads deliver the octets of its file from the position the seek was answered with.
   */
  lemma InterleavedSeeks(main: File, script: File, files: map<nat, Cursor>, log: seq<Event>, h: nat, start: Event,
                         before: seq<Event>, seek: Event, own: seq<Event>, wants: seq<nat>, data: File)
    requires AllAnswered(main, script, files, log) && About(log, h) == [start] + (before + [seek] + own)
    requires start.op.OpenPath? && FileAt(main, script, start.op.path) == Some(data)
    requires forall e <- before :: !e.op.CloseIt?
    requires seek.op.SeekTo? && seek.reply.OfSeek? && seek.reply.sought.Positioned? && PlainReads(own, wants)
    ensures var p := seek.reply.sought.position;
            && Gathered(own) == From(data, p, Total(wants))
            && (seek.op.how == 0 ==> p == seek.op.distance)
            && (seek.op.how == 2 ==> p == |data|)
  {
    hide FileAt, Answers, AnsweredAlone, PlainReads, About, Gathered;
    var c := Lookup(files, h);
    AnswersAreIndependent(main, script, files, log, h);
    AnsweredSplit(main, script, c, [start], before + [seek] + own);
    assert Alone(main, script, c, [start]) == Some(Cursor(data, 0)) by {
      assert [start][..0] == [];
    }
    SeekThenReads(main, script, Cursor(data, 0), before, seek, own, wants);
  }

  /** A relative seek counts from the last position answered and what was read since. */
  lemma SeekReadSeek(main: File, script: File, c: Cursor, before: seq<Event>, first: Event, own: seq<Event>,
                     wants: seq<nat>, second: Event)
    requires AnsweredAlone(main, script, Some(c), before + [first] + own + [second])
    requires forall e <- before :: !e.op.CloseIt?
    requires first.op.SeekTo? && first.reply.OfSeek? && first.reply.sought.Positioned? && PlainReads(own, wants)
    requires second.op.SeekTo? && second.reply.OfSeek? && second.reply.sought.Positioned? && second.op.how == 1
    ensures second.reply.sought.position == first.reply.sought.position + |Gathered(own)| + second.op.distance
  {
    hide Answers, Alone, CursorAfter, AnsweredAlone, Gathered, Total, PlainReads;
    AnsweredSplit(main, script, Some(c), before + [first] + own, [second]);
    AnsweredSplit(main, script, Some(c), before + [first], own);
    AnsweredSplit(main, script, Some(c), before, [first]);
    StaysOpen(main, script, c, before);
    AloneSplit(main, script, Some(c), before, [first]);
    OneSeek(main, script, Alone(main, script, Some(c), before).value, first);
    var now := Cursor(c.data, first.reply.sought.position);
    ReadsGather(main, script, now, own, wants);
    AloneSplit(main, script, Some(c), before + [first], own);
    OneSeek(main, script, AfterRead(now, Total(wants)), second);
  }

  /** A read at an offset delivers the octets of the file from there. */
  lemma OffsetRead(c: Cursor, e: Event)
    requires Answers(Some(c), e) && e.op.ReadFrom? && e.op.buffered && e.op.offset.Some?
    ensures e.reply.OfRead? && e.reply.octets == From(c.data, e.op.offset.value, e.op.want)
  {
  }

  // ----- the layer performs such runs

  method Perform(layer: Layer, op: Op) returns (e: Event)
    requires layer.Valid() && layer.active
    modifies layer`nextHandle, layer.records
    ensures layer.Valid() && e.op == op
    ensures Answered(layer.mainData, layer.scriptData, old(layer.Files()), e)
    ensures layer.Files() == Next(layer.mainData, layer.scriptData, old(layer.Files()), e)
  {
    match op
    case OpenPath(_) =>
      e := PerformOpen(layer, op);
    case ReadFrom(_, _, _, _) =>
      e := PerformRead(layer, op);
    case SeekTo(handle, distance, how) =>
      var r := layer.SetFilePointer(handle, distance, how);
      e := Event(op, OfSeek(r));
    case SizeOf(handle) =>
      var r := layer.GetFileSize(handle);
      e := Event(op, OfSize(r));
    case CloseIt(handle) =>
      var r := layer.CloseHandle(handle);
      e := Event(op, OfClose(r));
  }

  method PerformOpen(layer: Layer, op: Op) returns (e: Event)
    requires layer.Valid() && layer.active && op.OpenPath?
    modifies layer`nextHandle, layer.records
    ensures layer.Valid() && e.op == op
    ensures Answered(layer.mainData, layer.scriptData, old(layer.Files()), e)
    ensures layer.Files() == Next(layer.mainData, layer.scriptData, old(layer.Files()), e)
  {
    hide Cursors, HandedOut, NameHash.PathHash;
    var r := layer.CreateFile(op.path);
    e := Event(op, OfOpen(r));
  }

  method PerformRead(layer: Layer, op: Op) returns (e: Event)
    requires layer.Valid() && layer.active && op.ReadFrom?
    modifies layer.records
    ensures layer.Valid() && e.op == op
    ensures Answers(Lookup(old(layer.Files()), op.handle), e)
    ensures layer.Files() == Next(layer.mainData, layer.scriptData, old(layer.Files()), e)
  {
    var buffer: array?<byte> := null;
    if op.buffered {
      buffer := new byte[op.want];
    }
    var r := layer.ReadFile(op.handle, buffer, op.want, op.offset);
    e := Event(op, OfRead(r, if op.buffered && r.Read? then buffer[..r.count] else []));
  }

  /** Any calls on a started layer, in any order: every one is answered as the open files so far say. */
  method Run(layer: Layer, ops: seq<Op>) returns (log: seq<Event>)
    requires layer.Valid() && layer.active
    modifies layer`nextHandle, layer.records
    ensures layer.Valid() && |log| == |ops| && forall k | 0 <= k < |ops| :: log[k].op == ops[k]
    ensures AllAnswered(layer.mainData, layer.scriptData, old(layer.Files()), log)
    ensures layer.Files() == After(layer.mainData, layer.scriptData, old(layer.Files()), log)
  {
    hide Answered, Next;
    ghost var before := layer.Files();
    log := [];
    for i := 0 to |ops|
      invariant layer.Valid() && |log| == i && forall k | 0 <= k < i :: log[k].op == ops[k]
      invariant AllAnswered(layer.mainData, layer.scriptData, before, log)
      invariant layer.Files() == After(layer.mainData, layer.scriptData, before, log)
    {
      var e := Perform(layer, ops[i]);
      assert (log + [e])[..i] == log;
      assert forall k | 0 <= k < i :: (log + [e])[..k] == log[..k];
      log := log + [e];
    }
  }
}
