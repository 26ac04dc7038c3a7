/** What the object and material store means: pure steps over its whole state, and what every run keeps. */
module ObjectModel {
  import opened Words
  import opened EventRing

  const MAX_OBJECTS: nat := 2000
  const SLOTS: nat := 16
  const TEXT_CAPACITY: nat := 2049
  const TEXT_BUDGET: nat := 8 * 1024 * 1024
  const DEFAULT: byte := 1
  const TEXT: byte := 2

  /** The fields that are only carried along. */
  datatype Look = Look(source: byte, size: byte, fontSize: byte, bold: byte, alignment: byte, model: int,
                       color: word, background: word, nameA: string, nameB: string)

  datatype Material = Material(kind: byte, slot: byte, look: Look, text: string)

  /** A retained material: one heap allocation of the store, `text` cut to the capacity of its buffer. */
  datatype Record = Record(generation: word, revision: word, material: Material) {
    function Bytes(): nat {
      if material.kind == TEXT then |material.text| + 1 else 0
    }
  }

  type Row = r: seq<Option<Record>> | |r| == 16 witness seq(16, _ => None)

  function Empty(): (r: Row)
    ensures forall s | 0 <= s < 16 :: r[s] == None
  {
    seq(16, _ => None)
  }

  datatype Event =
    | Created(id: nat, generation: word, model: int, materials: nat)
    | Destroyed(id: nat, generation: word)
    | MaterialSet(id: nat, generation: word, slot: byte, revision: word, kind: byte, source: byte)
    | Other(id: nat, generation: word, action: nat)

  datatype Object = Object(generation: word, alive: bool, create: Option<Event>)

  const NO_OBJECT: Object := Object(0, false, None)

  /**
   * The increments of the two counters, uncounted modulo anything, at which something got its generation and
   * revision.
   */
  datatype Stamp = Stamp(born: nat, made: nat)

  type Ages = a: seq<nat> | |a| == 16 witness seq(16, _ => 0)

  /**
   * `generationBumps` and `revisionBumps` count the increments of the two 32-bit counters since the last reset. The
   * last three fields keep those counts for every object, record and event; no step's other results depend on them.
   */
  datatype State = State(rows: seq<Row>, objects: seq<Object>, generationBumps: nat, revisionBumps: nat,
                         textBytes: int, log: seq<Event>, attached: bool,
                         born: seq<nat>, made: seq<Ages>, stamps: seq<Stamp>)

  function Fresh(): State {
    State(EmptyRows(), seq(MAX_OBJECTS, _ => NO_OBJECT), 0, 0, 0, [], true, Unborn(),
          seq(MAX_OBJECTS, _ => NoAges()), [])
  }

  function Unborn(): (born: seq<nat>)
    ensures |born| == MAX_OBJECTS && forall o | 0 <= o < MAX_OBJECTS :: born[o] == 0
  {
    seq(MAX_OBJECTS, _ => 0)
  }

  function NoAges(): Ages {
    seq(16, _ => 0)
  }

  function EmptyRows(): (rows: seq<Row>)
    ensures |rows| == MAX_OBJECTS && forall o | 0 <= o < |rows| :: rows[o] == Empty()
  {
    seq(MAX_OBJECTS, _ => Empty())
  }

  /** How the two allocations for a record turn out. */
  datatype Alloc = NoRecord | NoText | Granted

  // ----- sizes

  function CellBytes(c: Option<Record>): nat {
    if c.Some? then c.value.Bytes() else 0
  }

  function RowBytes(row: seq<Option<Record>>): nat {
    if row == [] then 0 else RowBytes(row[..|row| - 1]) + CellBytes(row[|row| - 1])
  }

  function TotalBytes(rows: seq<Row>): nat {
    if rows == [] then 0 else TotalBytes(rows[..|rows| - 1]) + RowBytes(rows[|rows| - 1])
  }

  lemma {:induction false} RowBytesUpdate(row: seq<Option<Record>>, s: nat, c: Option<Record>)
    requires s < |row|
    ensures RowBytes(row[s := c]) == RowBytes(row) - CellBytes(row[s]) + CellBytes(c)
    ensures CellBytes(row[s]) <= RowBytes(row)
    decreases |row|
  {
    var last := |row| - 1;
    var row' := row[s := c];
    if s < last {
      RowBytesUpdate(row[..last], s, c);
      assert row'[..last] == row[..last][s := c];
    } else {
      assert row'[..last] == row[..last];
    }
  }

  lemma {:induction false} TotalBytesUpdate(rows: seq<Row>, o: nat, row: Row)
    requires o < |rows|
    ensures TotalBytes(rows[o := row]) == TotalBytes(rows) - RowBytes(rows[o]) + RowBytes(row)
    ensures RowBytes(rows[o]) <= TotalBytes(rows)
    decreases |rows|
  {
    hide RowBytes;
    var last := |rows| - 1;
    var rows' := rows[o := row];
    if o < last {
      TotalBytesUpdate(rows[..last], o, row);
      assert rows'[..last] == rows[..last][o := row];
    } else {
      assert rows'[..last] == rows[..last];
    }
  }

  lemma {:induction false} EmptyRowBytes(row: seq<Option<Record>>)
    requires forall c <- row :: c.None?
    ensures RowBytes(row) == 0
    decreases |row|
  {
    if row != [] {
      EmptyRowBytes(row[..|row| - 1]);
      assert row[|row| - 1] in row;
    }
  }

  lemma {:induction false} EmptyTotalBytes(rows: seq<Row>)
    requires forall o | 0 <= o < |rows| :: rows[o] == Empty()
    ensures TotalBytes(rows) == 0
    decreases |rows|
  {
    if rows != [] {
      EmptyTotalBytes(rows[..|rows| - 1]);
      EmptyRowBytes(Empty());
    }
  }

  // ----- one record

  function Acceptable(m: Material): bool {
    m.slot < SLOTS && (m.kind == DEFAULT || m.kind == TEXT)
  }

  /** Whether allocation yields a record: text needs its second allocation too. */
  function Makes(m: Material, a: Alloc): bool {
    Acceptable(m) && (a == Granted || (a == NoText && m.kind == DEFAULT))
  }

  /** Characters up to the terminator, at most one less than the buffer's capacity. */
  function TextLength(text: string, start: nat): (n: nat)
    requires start <= |text| && start < TEXT_CAPACITY
    ensures start <= n <= |text| && n < TEXT_CAPACITY && forall i | start <= i < n :: text[i] != '\0'
    ensures n == |text| || text[n] == '\0' || n == TEXT_CAPACITY - 1
    decreases |text| - start
  {
    if start + 1 >= TEXT_CAPACITY || start == |text| || text[start] == '\0' then start else TextLength(text, start + 1)
  }

  function Cut(m: Material): Material {
    m.(text := if m.kind == TEXT then m.text[..TextLength(m.text, 0)] else "")
  }

  function MakeRecord(m: Material, generation: word, revision: word): Record {
    Record(generation, revision, Cut(m))
  }

  // ----- the steps

  function SetMaterial(st: State, o: nat, m: Material, a: Alloc): State
    requires Shaped(st)
  {
    if o >= MAX_OBJECTS || m.slot >= SLOTS || st.objects[o].generation == 0 then st else
    var bumped := st.(revisionBumps := st.revisionBumps + 1);
    if !Makes(m, a) then bumped else
    var r := MakeRecord(m, st.objects[o].generation, CounterAfter(bumped.revisionBumps));
    var retained := st.textBytes - CellBytes(st.rows[o][m.slot]);
    if retained > TEXT_BUDGET || r.Bytes() > TEXT_BUDGET - retained then bumped else
    bumped.(rows := st.rows[o := st.rows[o][m.slot := Some(r)]], textBytes := retained + r.Bytes(),
            log := st.log + [MaterialSet(o, r.generation, m.slot, r.revision, m.kind, m.look.source)],
            made := st.made[o := st.made[o][m.slot := bumped.revisionBumps]],
            stamps := st.stamps + [Stamp(st.born[o], bumped.revisionBumps)])
  }

  /** The replacement row after the first `n` listed materials, and whether none of them failed. */
  datatype Built = Built(row: Row, bumps: nat, ok: bool)

  /** One more material: it takes the place of an earlier one for its slot, unless it cannot be made or afforded. */
  function BuildOne(row: Row, bumps: nat, m: Material, a: Alloc, generation: word, retained: int): Built {
    if !Makes(m, a) then Built(row, bumps + 1, false) else
    var r := MakeRecord(m, generation, CounterAfter(bumps + 1));
    var cleared: Row := row[m.slot := None];
    if retained > TEXT_BUDGET || RowBytes(cleared) + r.Bytes() > TEXT_BUDGET - retained
    then Built(cleared, bumps + 1, false)
    else Built(cleared[m.slot := Some(r)], bumps + 1, true)
  }

  function Build(ms: seq<Material>, allocs: seq<Alloc>, n: nat, generation: word, bumps: nat, retained: int): Built
    requires n <= |ms| == |allocs|
  {
    if n == 0 then Built(Empty(), bumps, true) else
    var b := Build(ms, allocs, n - 1, generation, bumps, retained);
    if !b.ok then b else BuildOne(b.row, b.bumps, ms[n - 1], allocs[n - 1], generation, retained)
  }

  lemma {:induction false} BuildStops(ms: seq<Material>, allocs: seq<Alloc>, n: nat, generation: word, bumps: nat,
                                      retained: int)
    requires n <= |ms| == |allocs| && !Build(ms, allocs, n, generation, bumps, retained).ok
    ensures Build(ms, allocs, |ms|, generation, bumps, retained) == Build(ms, allocs, n, generation, bumps, retained)
    decreases |ms| - n
  {
    hide BuildOne;
    if n < |ms| {
      BuildStops(ms, allocs, n + 1, generation, bumps, retained);
    }
  }

  /** What an accepted create makes of its list; `scratch` says whether the list itself could be allocated. */
  function Replacement(ms: seq<Material>, allocs: seq<Alloc>, scratch: bool, generation: word, bumps: nat,
                       retained: int): Built
    requires |ms| == |allocs|
  {
    if scratch then Build(ms, allocs, |ms|, generation, bumps, retained) else Built(Empty(), bumps, false)
  }

  /** The counts at which the last materials listed for each slot get their revisions. */
  function ListedAt(ms: seq<Material>, bumps: nat): Ages {
    seq(16, s requires 0 <= s < 16 => ListedAtSlot(ms, bumps, s))
  }

  function ListedAtSlot(ms: seq<Material>, bumps: nat, s: nat): nat {
    var k := LastFor(ms, |ms|, s);
    if k.None? then 0 else bumps + k.value + 1
  }

  /** An accepted create message. */
  function Create(st: State, o: nat, model: int, ms: seq<Material>, allocs: seq<Alloc>, scratch: bool): State
    requires Shaped(st) && o < MAX_OBJECTS && |ms| == |allocs| <= SLOTS
  {
    var generation := CounterAfter(st.generationBumps + 1);
    var retained := st.textBytes - RowBytes(st.rows[o]);
    var b := Replacement(ms, allocs, scratch, generation, st.revisionBumps, retained);
    var row := if b.ok then b.row else Empty();
    var event := Created(o, generation, model, |ms|);
    st.(rows := st.rows[o := row], textBytes := retained + RowBytes(row), revisionBumps := b.bumps,
        generationBumps := st.generationBumps + 1, objects := st.objects[o := Object(generation, true, Some(event))],
        log := st.log + [event], born := st.born[o := st.generationBumps + 1],
        made := st.made[o := ListedAt(ms, st.revisionBumps)],
        stamps := st.stamps + [Stamp(st.generationBumps + 1, 0)])
  }

  function Destroy(st: State, o: nat): State
    requires Shaped(st) && o < MAX_OBJECTS
  {
    st.(rows := st.rows[o := Empty()], textBytes := st.textBytes - RowBytes(st.rows[o]),
        objects := st.objects[o := NO_OBJECT],
        log := st.log + [Destroyed(o, st.objects[o].generation)], born := st.born[o := 0],
        stamps := st.stamps + [Stamp(0, 0)])
  }

  /** Destroying the client empties the table and the generations, but not what says which objects are alive. */
  function Detach(st: State): State
    requires Shaped(st)
  {
    st.(rows := EmptyRows(), textBytes := 0, generationBumps := 0, revisionBumps := 0, attached := false,
        objects := Orphaned(st.objects), born := Unborn())
  }

  function Orphaned(objects: seq<Object>): (os: seq<Object>)
    ensures |os| == |objects|
    ensures forall i | 0 <= i < |os| :: os[i] == Object(0, objects[i].alive, objects[i].create)
  {
    seq(|objects|, i requires 0 <= i < |objects| => Object(0, objects[i].alive, objects[i].create))
  }

  function Logged(st: State, e: Event): State {
    st.(log := st.log + [e], stamps := st.stamps + [Stamp(0, 0)])
  }

  datatype Action =
    | GetCreate(id: nat, model: int, materials: seq<Material>, allocs: seq<Alloc>, scratch: bool)
    | GetDestroy(id: nat)
    | GetMaterial(id: nat, material: Material, alloc: Alloc)
    | GetOther(id: nat, action: nat)
    | Reset
    | DestroyClient

  /**
   * A message with a valid object number and a list of at most sixteen materials is accepted; messages need a client.
   */
  function Step(st: State, a: Action): State
    requires Shaped(st)
  {
    match a
    case Reset => Fresh()
    case DestroyClient => if st.attached then Detach(st) else st
    case GetCreate(o, model, ms, allocs, scratch) =>
      if st.attached && o < MAX_OBJECTS && |ms| == |allocs| <= SLOTS then Create(st, o, model, ms, allocs, scratch)
        else st
    case GetDestroy(o) => if st.attached && o < MAX_OBJECTS then Destroy(st, o) else st
    case GetMaterial(o, m, alloc) => if st.attached then SetMaterial(st, o, m, alloc) else st
    case GetOther(o, action) =>
      if st.attached then Logged(st, Other(o, if o < MAX_OBJECTS then st.objects[o].generation else 0, action)) else st
  }

  // ----- the queries

  datatype Answer = BadCall | Gone | Behind(revision: word) | Found(record: Record)

  /** `samp_raknet_client_get_object_material`, return codes -1, -2, -3 and 0. */
  function Lookup(st: State, o: nat, generation: word, slot: nat, minimum: word): Answer
    requires Shaped(st)
  {
    if !st.attached || o >= MAX_OBJECTS || slot >= SLOTS then BadCall
    else if st.rows[o][slot].None? || generation == 0 || st.rows[o][slot].value.generation != generation then Gone
    else if minimum != 0 && st.rows[o][slot].value.revision < minimum then Behind(st.rows[o][slot].value.revision)
    else Found(st.rows[o][slot].value)
  }

  datatype Life = LifeBadCall | Inconsistent | NotAlive | Alive(create: Event)

  /** `samp_raknet_client_get_object_lifecycle`, return codes -1, -2 and 0 with the flag. */
  function Lifecycle(st: State, o: nat): Life
    requires Shaped(st)
  {
    if !st.attached || o >= MAX_OBJECTS then LifeBadCall
    else if !st.objects[o].alive then NotAlive
    else
      var create := st.objects[o].create;
      if create.None? || !create.value.Created? || create.value.id != o || create.value.generation == 0
        then Inconsistent
      else Alive(create.value)
  }

  // ----- what every run keeps

  predicate Shaped(st: State) {
    |st.rows| == |st.objects| == |st.born| == |st.made| == MAX_OBJECTS && |st.log| == |st.stamps|
  }

  /** The text counter is the sum of what is retained, and never exceeds the budget. */
  predicate Budgeted(st: State) {
    st.textBytes == TotalBytes(st.rows) <= TEXT_BUDGET
  }

  /** Every retained record belongs to the current generation of its object and stands in its own slot. */
  predicate RowCurrent(row: Row, generation: word) {
    forall s | 0 <= s < SLOTS && row[s].Some? ::
      row[s].value.generation == generation != 0 && row[s].value.material.slot == s
  }

  predicate ObjectSound(x: Object, o: nat) {
    if x.generation == 0 then !x.alive && x.create.None?
    else
      && x.alive && x.create.Some? && x.create.value.Created?
      && x.create.value.id == o && x.create.value.generation == x.generation
  }

  predicate Current(st: State)
    requires Shaped(st)
  {
    && (forall o | 0 <= o < MAX_OBJECTS :: RowCurrent(st.rows[o], st.objects[o].generation))
    && (st.attached ==> forall o | 0 <= o < MAX_OBJECTS :: ObjectSound(st.objects[o], o))
    && (!st.attached ==> forall o | 0 <= o < MAX_OBJECTS :: st.objects[o].generation == 0)
  }

  /** Every live object has its generation from an increment of its own. */
  predicate Distinct(st: State)
    requires Shaped(st)
  {
    && (forall o | 0 <= o < MAX_OBJECTS :: Born(st.objects[o], st.born[o]) && st.born[o] <= st.generationBumps)
    && (forall o, p | 0 <= o < p < MAX_OBJECTS :: st.born[o] != 0 ==> st.born[o] != st.born[p])
  }

  predicate Born(x: Object, born: nat) {
    x.generation == CounterAfter(born)
  }

  /** Every retained record has its revision from the increment that its age names. */
  predicate RowDated(row: Row, ages: Ages, bumps: nat) {
    forall s | 0 <= s < SLOTS && row[s].Some? :: 0 < ages[s] <= bumps && row[s].value.revision == CounterAfter(ages[s])
  }

  predicate Dated(st: State)
    requires Shaped(st)
  {
    forall o | 0 <= o < MAX_OBJECTS :: RowDated(st.rows[o], st.made[o], st.revisionBumps)
  }

  /** A queued material descriptor of the life an object is in names a slot that holds a record at least as young. */
  predicate Resolvable(st: State, k: nat)
    requires Shaped(st) && k < |st.log|
  {
    var (e, stamp) := (st.log[k], st.stamps[k]);
    e.MaterialSet? ==>
      && e.id < MAX_OBJECTS && e.slot < SLOTS
      && 0 < stamp.born <= st.generationBumps && e.generation == CounterAfter(stamp.born)
      && 0 < stamp.made <= st.revisionBumps && e.revision == CounterAfter(stamp.made)
      && (st.born[e.id] == stamp.born ==> st.rows[e.id][e.slot].Some? && st.made[e.id][e.slot] >= stamp.made)
  }

  predicate AllResolvable(st: State)
    requires Shaped(st)
  {
    forall k | 0 <= k < |st.log| :: Resolvable(st, k)
  }

  predicate Unwrapped(st: State) {
    st.generationBumps < W && st.revisionBumps < W
  }

  predicate Invariant(st: State) {
    && Shaped(st) && Budgeted(st) && Current(st) && Distinct(st) && Dated(st)
    && (st.attached ==> AllResolvable(st))
  }

  // ----- what a build does

  /** The last of the first `n` materials listed for a slot. */
  function LastFor(ms: seq<Material>, n: nat, s: nat): (k: Option<nat>)
    requires n <= |ms|
    ensures k.Some? ==> k.value < n && ms[k.value].slot == s && forall j | k.value < j < n :: ms[j].slot != s
    ensures k.None? ==> forall j | 0 <= j < n :: ms[j].slot != s
  {
    if n == 0 then None else if ms[n - 1].slot == s then Some(n - 1) else LastFor(ms, n - 1, s)
  }

  /** The row that remembers, slot by slot, the last of the first `n` materials listed for it. */
  function Kept(ms: seq<Material>, n: nat, generation: word, bumps: nat): Row
    requires n <= |ms|
  {
    seq(16, s requires 0 <= s < 16 => KeptAt(ms, n, generation, bumps, s))
  }

  function KeptAt(ms: seq<Material>, n: nat, generation: word, bumps: nat, s: nat): Option<Record>
    requires n <= |ms|
  {
    var k := LastFor(ms, n, s);
    if k.None? then None else Some(MakeRecord(ms[k.value], generation, CounterAfter(bumps + k.value + 1)))
  }

  /** Every one of the first `n` materials can be made, and no prefix of them breaks the text budget. */
  predicate Keepable(ms: seq<Material>, allocs: seq<Alloc>, n: nat, generation: word, bumps: nat, retained: int)
    requires n <= |ms| == |allocs|
  {
    && (forall k | 0 <= k < n :: Makes(ms[k], allocs[k]))
    && (forall k | 1 <= k <= n :: retained + RowBytes(Kept(ms, k, generation, bumps)) <= TEXT_BUDGET)
  }

  lemma KeptNext(ms: seq<Material>, n: nat, generation: word, bumps: nat)
    requires 0 < n <= |ms| && ms[n - 1].slot < SLOTS
    ensures Kept(ms, n, generation, bumps) ==
            Kept(ms, n - 1, generation, bumps)
            [ms[n - 1].slot := Some(MakeRecord(ms[n - 1], generation, CounterAfter(bumps + n)))]
  {
    hide CounterAfter, MakeRecord;
  }

  /**
   * A build succeeds exactly when every material can be made and no prefix of the list breaks the budget; it then holds
   * the last material listed for each slot.
   */
  lemma {:induction false} BuildSucceeds(ms: seq<Material>, allocs: seq<Alloc>, n: nat, generation: word, bumps: nat,
                                         retained: int)
    requires n <= |ms| == |allocs| && retained <= TEXT_BUDGET
    ensures var b := Build(ms, allocs, n, generation, bumps, retained);
            && (b.ok <==> Keepable(ms, allocs, n, generation, bumps, retained))
            && (b.ok ==> b.bumps == bumps + n && b.row == Kept(ms, n, generation, bumps))
    decreases n
  {
    hide CounterAfter, RowBytes, Kept, MakeRecord;
    if n > 0 {
      BuildSucceeds(ms, allocs, n - 1, generation, bumps, retained);
      var b := Build(ms, allocs, n - 1, generation, bumps, retained);
      var m := ms[n - 1];
      if b.ok && Makes(m, allocs[n - 1]) {
        var r := Some(MakeRecord(m, generation, CounterAfter(b.bumps + 1)));
        var cleared: Row := b.row[m.slot := None];
        RowBytesUpdate(cleared, m.slot, r);
        KeptNext(ms, n, generation, bumps);
        assert cleared[m.slot := r] == b.row[m.slot := r];
      }
    } else {
      KeptNone(ms, generation, bumps);
    }
  }

  lemma KeptNone(ms: seq<Material>, generation: word, bumps: nat)
    ensures Kept(ms, 0, generation, bumps) == Empty()
  {
  }

  lemma {:induction false} BuildBounds(ms: seq<Material>, allocs: seq<Alloc>, n: nat, generation: word, bumps: nat,
                                       retained: int)
    requires n <= |ms| == |allocs| && retained <= TEXT_BUDGET && generation != 0
    ensures var b := Build(ms, allocs, n, generation, bumps, retained);
            && retained + RowBytes(b.row) <= TEXT_BUDGET
            && RowCurrent(b.row, generation)
            && bumps <= b.bumps
    decreases n
  {
    hide CounterAfter, RowBytes;
    if n > 0 {
      BuildBounds(ms, allocs, n - 1, generation, bumps, retained);
      var b := Build(ms, allocs, n - 1, generation, bumps, retained);
      var m := ms[n - 1];
      if b.ok && Makes(m, allocs[n - 1]) {
        var r := Some(MakeRecord(m, generation, CounterAfter(b.bumps + 1)));
        var cleared: Row := b.row[m.slot := None];
        RowBytesUpdate(b.row, m.slot, None);
        RowBytesUpdate(cleared, m.slot, r);
      }
    } else {
      EmptyRowBytes(Empty());
    }
  }

  // ----- each step keeps the invariant

  lemma RowMoves(st: State, o: nat, row: Row)
    requires Shaped(st) && Budgeted(st) && o < MAX_OBJECTS
    ensures TotalBytes(st.rows[o := row]) == st.textBytes - RowBytes(st.rows[o]) + RowBytes(row)
    ensures 0 <= st.textBytes - RowBytes(st.rows[o]) <= TEXT_BUDGET
  {
    TotalBytesUpdate(st.rows, o, row);
  }

  lemma TextIsTotal(st: State)
    requires Invariant(st)
    ensures Shaped(st) && st.textBytes == TotalBytes(st.rows)
  {
  }

  /**
   * Nothing that a descriptor may name is lost: an object's life goes on with no slot older or emptied, or it is
   * another.
   */
  predicate Progress(st: State, st': State)
    requires Shaped(st) && Shaped(st')
  {
    && st.log <= st'.log && st.stamps <= st'.stamps
    && st.generationBumps <= st'.generationBumps && st.revisionBumps <= st'.revisionBumps
    && forall o | 0 <= o < MAX_OBJECTS :: LivesOn(st, st', o) || st'.born[o] == 0 || st'.born[o] > st.generationBumps
  }

  predicate LivesOn(st: State, st': State, o: nat)
    requires Shaped(st) && Shaped(st') && o < MAX_OBJECTS
  {
    && st'.born[o] == st.born[o]
    && forall s | 0 <= s < SLOTS && st.rows[o][s].Some? :: st'.rows[o][s].Some? && st'.made[o][s] >= st.made[o][s]
  }

  lemma StillResolvable(st: State, st': State, k: nat)
    requires Shaped(st) && Shaped(st') && Progress(st, st') && k < |st.log| && Resolvable(st, k)
    ensures Resolvable(st', k)
  {
    hide CounterAfter;
    assert st'.log[k] == st.log[k] && st'.stamps[k] == st.stamps[k];
  }

  lemma AllStillResolvable(st: State, st': State)
    requires Shaped(st) && Shaped(st') && Progress(st, st') && AllResolvable(st)
    requires forall k | |st.log| <= k < |st'.log| :: Resolvable(st', k)
    ensures AllResolvable(st')
  {
    hide Resolvable, Progress;
    forall k | 0 <= k < |st'.log|
      ensures Resolvable(st', k)
    {
      if k < |st.log| {
        StillResolvable(st, st', k);
      }
    }
  }

  lemma KeptDated(ms: seq<Material>, generation: word, bumps: nat)
    ensures RowDated(Kept(ms, |ms|, generation, bumps), ListedAt(ms, bumps), bumps + |ms|)
  {
    hide CounterAfter, Cut;
  }

  /** What becomes of the row of a created object. */
  lemma CreatedRow(st: State, o: nat, model: int, ms: seq<Material>, allocs: seq<Alloc>, scratch: bool)
    requires Invariant(st) && o < MAX_OBJECTS && |ms| == |allocs| <= SLOTS
    ensures var st' := Create(st, o, model, ms, allocs, scratch);
            && Budgeted(st') && RowCurrent(st'.rows[o], CounterAfter(st.generationBumps + 1))
            && st.revisionBumps <= st'.revisionBumps && RowDated(st'.rows[o], st'.made[o], st'.revisionBumps)
  {
    hide Build, RowBytes, TotalBytes, CounterAfter, RowCurrent, Kept, ListedAt, Distinct, AllResolvable;
    var st' := Create(st, o, model, ms, allocs, scratch);
    var (generation, retained) := (CounterAfter(st.generationBumps + 1), st.textBytes - RowBytes(st.rows[o]));
    CounterPositive(st.generationBumps + 1);
    RowMoves(st, o, st'.rows[o]);
    BuildBounds(ms, allocs, |ms|, generation, st.revisionBumps, retained);
    BuildSucceeds(ms, allocs, |ms|, generation, st.revisionBumps, retained);
    KeptDated(ms, generation, st.revisionBumps);
    EmptyRowBytes(Empty());
    EmptyRowCurrent(generation);
  }

  lemma CreateKeeps(st: State, o: nat, model: int, ms: seq<Material>, allocs: seq<Alloc>, scratch: bool)
    requires Invariant(st) && st.attached && o < MAX_OBJECTS && |ms| == |allocs| <= SLOTS
    ensures Invariant(Create(st, o, model, ms, allocs, scratch))
  {
    CreateKeepsRows(st, o, model, ms, allocs, scratch);
    CreateKeepsLives(st, o, model, ms, allocs, scratch);
    hide Replacement, RowBytes, TotalBytes, CounterAfter, ListedAt, Current, Distinct, Dated, AllResolvable, Budgeted;
  }

  lemma CreateKeepsRows(st: State, o: nat, model: int, ms: seq<Material>, allocs: seq<Alloc>, scratch: bool)
    requires Invariant(st) && st.attached && o < MAX_OBJECTS && |ms| == |allocs| <= SLOTS
    ensures var st' := Create(st, o, model, ms, allocs, scratch);
            Shaped(st') && Budgeted(st') && Current(st') && Dated(st') && st.revisionBumps <= st'.revisionBumps
  {
    var st' := Create(st, o, model, ms, allocs, scratch);
    hide Replacement, RowBytes, TotalBytes, CounterAfter, RowCurrent, RowDated, Budgeted, AllResolvable, Distinct,
      ListedAt;
    CounterPositive(st.generationBumps + 1);
    CreatedRow(st, o, model, ms, allocs, scratch);
    DatedLater(st, st'.revisionBumps);
  }

  lemma CreateKeepsLives(st: State, o: nat, model: int, ms: seq<Material>, allocs: seq<Alloc>, scratch: bool)
    requires Invariant(st) && st.attached && o < MAX_OBJECTS && |ms| == |allocs| <= SLOTS
    requires Shaped(Create(st, o, model, ms, allocs, scratch))
    requires st.revisionBumps <= Create(st, o, model, ms, allocs, scratch).revisionBumps
    ensures var st' := Create(st, o, model, ms, allocs, scratch);
            Distinct(st') && AllResolvable(st')
  {
    var st' := Create(st, o, model, ms, allocs, scratch);
    hide Replacement, RowBytes, TotalBytes, CounterAfter, Budgeted, Resolvable, ListedAt, Current, Dated;
    NoMaterial(st', |st.log|);
    AllStillResolvable(st, st');
  }

  lemma NoMaterial(st: State, k: nat)
    requires Shaped(st) && k < |st.log| && !st.log[k].MaterialSet?
    ensures Resolvable(st, k)
  {
  }

  lemma DatedLater(st: State, bumps: nat)
    requires Shaped(st) && Dated(st) && st.revisionBumps <= bumps
    ensures forall o | 0 <= o < MAX_OBJECTS :: RowDated(st.rows[o], st.made[o], bumps)
  {
    hide CounterAfter;
    forall o | 0 <= o < MAX_OBJECTS
      ensures RowDated(st.rows[o], st.made[o], bumps)
    {
      assert RowDated(st.rows[o], st.made[o], st.revisionBumps);
    }
  }

  lemma CounterPositive(n: nat)
    requires n > 0
    ensures CounterAfter(n) > 0
  {
  }

  lemma EmptyRowCurrent(generation: word)
    ensures RowCurrent(Empty(), generation)
    ensures forall ages: Ages, bumps :: RowDated(Empty(), ages, bumps)
  {
  }

  lemma DestroyKeeps(st: State, o: nat)
    requires Invariant(st) && st.attached && o < MAX_OBJECTS
    ensures Invariant(Destroy(st, o))
  {
    var st' := Destroy(st, o);
    BumpCounts(0);
    hide RowBytes, TotalBytes, CounterAfter, RowCurrent, RowDated, Resolvable;
    RowMoves(st, o, Empty());
    EmptyRowBytes(Empty());
    EmptyRowCurrent(0);
    NoMaterial(st', |st.log|);
    AllStillResolvable(st, st');
  }

  lemma SetMaterialKeeps(st: State, o: nat, m: Material, a: Alloc)
    requires Invariant(st) && st.attached
    ensures Invariant(SetMaterial(st, o, m, a))
  {
    var st' := SetMaterial(st, o, m, a);
    hide RowBytes, TotalBytes, CounterAfter, Makes, Resolvable, AllResolvable, RowDated, Cut;
    if st'.log == st.log {
      Unmoved(st, st');
    } else {
      StoredRow(st, o, m, a);
      DatedLater(st, st'.revisionBumps);
      StoredResolvable(st, o, m, a);
    }
  }

  lemma StoredRow(st: State, o: nat, m: Material, a: Alloc)
    requires Invariant(st) && o < MAX_OBJECTS && SetMaterial(st, o, m, a).log != st.log
    ensures var st' := SetMaterial(st, o, m, a);
            && m.slot < SLOTS && st.objects[o].generation != 0 && st'.rows[o][m.slot].Some?
            && Budgeted(st') && RowCurrent(st'.rows[o], st.objects[o].generation)
            && RowDated(st'.rows[o], st'.made[o], st'.revisionBumps)
  {
    var st' := SetMaterial(st, o, m, a);
    hide RowBytes, TotalBytes, CounterAfter, Makes, AllResolvable, Distinct;
    RowBytesUpdate(st.rows[o], m.slot, st'.rows[o][m.slot]);
    RowMoves(st, o, st'.rows[o]);
    assert RowCurrent(st.rows[o], st.objects[o].generation);
    assert RowDated(st.rows[o], st.made[o], st.revisionBumps);
    assert Cut(m).slot == m.slot;
  }

  lemma StoredResolvable(st: State, o: nat, m: Material, a: Alloc)
    requires Invariant(st) && st.attached && o < MAX_OBJECTS && SetMaterial(st, o, m, a).log != st.log
    ensures AllResolvable(SetMaterial(st, o, m, a))
  {
    var st' := SetMaterial(st, o, m, a);
    BumpCounts(0);
    hide RowBytes, TotalBytes, CounterAfter, Makes, RowCurrent, Cut;
    assert Born(st.objects[o], st.born[o]);
    forall p | 0 <= p < MAX_OBJECTS
      ensures LivesOn(st, st', p)
    {
      assert RowDated(st.rows[p], st.made[p], st.revisionBumps);
    }
    assert Resolvable(st', |st.log|);
    hide Resolvable, LivesOn, RowDated;
    AllStillResolvable(st, st');
  }

  /** Spending numbers without storing anything keeps everything. */
  lemma Unmoved(st: State, st': State)
    requires Invariant(st) && st.attached && st.revisionBumps <= st'.revisionBumps
    requires st' == st.(revisionBumps := st'.revisionBumps)
    ensures Invariant(st')
  {
    hide RowBytes, TotalBytes, RowCurrent, RowDated, Resolvable, CounterAfter;
    DatedLater(st, st'.revisionBumps);
    AllStillResolvable(st, st');
  }

  lemma FreshKeeps()
    ensures Invariant(Fresh())
  {
    BumpCounts(0);
    hide RowBytes, TotalBytes, CounterAfter;
    EmptyTotalBytes(EmptyRows());
  }

  lemma DetachKeeps(st: State)
    requires Invariant(st)
    ensures Invariant(Detach(st))
  {
    BumpCounts(0);
    hide RowBytes, TotalBytes, CounterAfter, AllResolvable;
    EmptyTotalBytes(EmptyRows());
  }

  lemma OtherKeeps(st: State, e: Event)
    requires Invariant(st) && st.attached && e.Other?
    ensures Invariant(Logged(st, e))
  {
    var st' := Logged(st, e);
    hide RowBytes, TotalBytes, RowCurrent, RowDated, Resolvable, CounterAfter;
    NoMaterial(st', |st.log|);
    AllStillResolvable(st, st');
  }

  lemma StepKeeps(st: State, a: Action)
    requires Invariant(st)
    ensures Invariant(Step(st, a))
  {
    match a
    case GetCreate(o, model, ms, allocs, scratch) =>
      if st.attached && o < MAX_OBJECTS && |ms| == |allocs| <= SLOTS { CreateKeeps(st, o, model, ms, allocs, scratch); }
    case GetDestroy(o) => if st.attached && o < MAX_OBJECTS { DestroyKeeps(st, o); }
    case GetMaterial(o, m, alloc) => if st.attached { SetMaterialKeeps(st, o, m, alloc); }
    case GetOther(o, action) =>
      if st.attached { OtherKeeps(st, Other(o, if o < MAX_OBJECTS then st.objects[o].generation else 0, action)); }
    case Reset => FreshKeeps();
    case DestroyClient => DetachKeeps(st);
  }

  function RunOf(actions: seq<Action>): (st: State)
    ensures Shaped(st)
  {
    if actions == [] then Fresh() else Step(RunOf(actions[..|actions| - 1]), actions[|actions| - 1])
  }

  /** Every run of the store, with any allocation failures, keeps the invariant. */
  lemma {:induction false} EveryRunKeeps(actions: seq<Action>)
    ensures Invariant(RunOf(actions))
    decreases |actions|
  {
    hide Step, Invariant;
    if actions == [] {
      FreshKeeps();
    } else {
      EveryRunKeeps(actions[..|actions| - 1]);
      StepKeeps(RunOf(actions[..|actions| - 1]), actions[|actions| - 1]);
    }
  }

  /**
   * The text counter is exact and within the budget, whatever allocations failed and however often the counters
   * wrapped.
   */
  lemma TextIsAccountedFor(actions: seq<Action>)
    ensures RunOf(actions).textBytes == TotalBytes(RunOf(actions).rows) <= TEXT_BUDGET
  {
    EveryRunKeeps(actions);
  }

  /** No two live objects share a generation, until the counter wraps. */
  lemma LiveGenerationsDiffer(actions: seq<Action>, o: nat, p: nat)
    requires RunOf(actions).generationBumps < W && o < p < MAX_OBJECTS
    ensures RunOf(actions).objects[o].generation == 0
      || RunOf(actions).objects[o].generation != RunOf(actions).objects[p].generation
  {
    EveryRunKeeps(actions);
    var st := RunOf(actions);
    hide CounterAfter, RunOf;
    assert Born(st.objects[o], st.born[o]) && Born(st.objects[p], st.born[p]);
    BumpCounts(st.born[o]);
    BumpCounts(st.born[p]);
  }

  // ----- the promises to a consumer

  /**
   * How a descriptor resolves, in any run and past any number of wraps. In the life of the object it was queued for,
   * the slot still holds a record, made when it was queued or later, and the answer is that record unless its 32-bit
   * number is smaller. In another life the answer is gone, unless both lives got the same 32-bit generation.
   */
  lemma HowDescriptorsResolve(actions: seq<Action>, k: nat)
    requires RunOf(actions).attached && k < |RunOf(actions).log| && RunOf(actions).log[k].MaterialSet?
    ensures RunOf(actions).log[k].id < MAX_OBJECTS && RunOf(actions).log[k].slot < SLOTS && k < |RunOf(actions).stamps|
    ensures var (st, e, stamp) := (RunOf(actions), RunOf(actions).log[k], RunOf(actions).stamps[k]);
            var answer := Lookup(st, e.id, e.generation, e.slot, e.revision);
            var cell := st.rows[e.id][e.slot];
            && 0 < stamp.born && 0 < stamp.made
            && (st.born[e.id] == stamp.born ==>
                  && cell.Some? && st.made[e.id][e.slot] >= stamp.made
                  && answer == if CounterAfter(st.made[e.id][e.slot]) < CounterAfter(stamp.made)
                    then Behind(cell.value.revision)
                               else Found(cell.value))
            && (st.born[e.id] != stamp.born ==>
                  (answer == Gone <==> cell.None? || CounterAfter(st.born[e.id]) != CounterAfter(stamp.born)))
  {
    EveryRunKeeps(actions);
    var st := RunOf(actions);
    hide RunOf, TotalBytes, RowBytes;
    assert Resolvable(st, k);
    var e := st.log[k];
    CounterPositive(st.stamps[k].born);
    CounterPositive(st.stamps[k].made);
    hide CounterAfter;
    assert RowCurrent(st.rows[e.id], st.objects[e.id].generation) && Born(st.objects[e.id], st.born[e.id]);
    assert RowDated(st.rows[e.id], st.made[e.id], st.revisionBumps);
  }

  /** The counter started again between its `q`-th and its `n`-th value. */
  predicate WrappedBetween(q: nat, n: nat)
    requires q > 0 && n > 0
  {
    (q - 1) / (W - 1) < (n - 1) / (W - 1)
  }

  /**
   * Fewer than 2^32 - 1 updates apart, the younger number is the smaller one exactly when the counter wrapped in
   * between.
   */
  lemma BehindExactlyWhenWrapped(q: nat, n: nat)
    requires 0 < q <= n < q + W - 1
    ensures CounterAfter(n) < CounterAfter(q) <==> WrappedBetween(q, n)
  {
    var (a, b) := ((q - 1) / (W - 1), (n - 1) / (W - 1));
    assert q - 1 == (W - 1) * a + (q - 1) % (W - 1) && n - 1 == (W - 1) * b + (n - 1) % (W - 1);
    assert (W - 1) * (b - a) == (W - 1) * b - (W - 1) * a;
    NoMultipleBetween(W - 1, b - a);
    if b > a {
      MulMonotone(W - 1, 1, b - a);
    } else {
      MulMonotone(W - 1, b - a, 0);
    }
  }

  /** Two lives get the same 32-bit generation exactly when a multiple of 2^32 - 1 creates lie between them. */
  lemma SameGenerationExactly(a: nat, b: nat)
    requires 0 < a && 0 < b
    ensures CounterAfter(a) == CounterAfter(b) <==> (a - b) % (W - 1) == 0
  {
    var (p, q) := ((a - 1) / (W - 1), (b - 1) / (W - 1));
    var (x, y) := ((a - 1) % (W - 1), (b - 1) % (W - 1));
    assert a - 1 == (W - 1) * p + x && b - 1 == (W - 1) * q + y;
    assert a - b == (W - 1) * (p - q) + (x - y) by {
      assert (W - 1) * (p - q) == (W - 1) * p - (W - 1) * q;
    }
    ShiftedMod(p - q, x - y);
  }

  lemma ShiftedMod(q: int, d: int)
    requires -(W - 1) < d < W - 1
    ensures ((W - 1) * q + d) % (W - 1) == 0 <==> d == 0
  {
    if d >= 0 {
      ModOfAny(q, d);
    } else {
      ModOfAny(q - 1, d + (W - 1));
      assert (W - 1) * (q - 1) + (d + (W - 1)) == (W - 1) * q + d;
    }
  }

  lemma ModOfAny(q: int, r: nat)
    requires r < W - 1
    ensures ((W - 1) * q + r) % (W - 1) == r
  {
  }

  /**
   * No stale resolution: after any run in which the counters have not wrapped since the last reset, a descriptor queued
   * since then resolves to a record at least as new if its generation is still the object's, and is gone otherwise.
   */
  lemma NoStaleResolution(actions: seq<Action>, k: nat)
    requires RunOf(actions).attached && Unwrapped(RunOf(actions))
    requires k < |RunOf(actions).log| && RunOf(actions).log[k].MaterialSet?
    ensures var (st, e) := (RunOf(actions), RunOf(actions).log[k]);
            var answer := Lookup(st, e.id, e.generation, e.slot, e.revision);
            && e.id < MAX_OBJECTS
            && if st.objects[e.id].generation == e.generation
               then answer.Found? && answer.record.generation == e.generation && answer.record.revision >= e.revision
                    && answer.record.material.slot == e.slot
               else answer == Gone
  {
    HowDescriptorsResolve(actions, k);
    EveryRunKeeps(actions);
    var st := RunOf(actions);
    hide RunOf, TotalBytes, RowBytes, CounterAfter;
    assert Resolvable(st, k);
    var (e, stamp) := (st.log[k], st.stamps[k]);
    BumpCounts(stamp.born);
    BumpCounts(stamp.made);
    BumpCounts(st.born[e.id]);
    BumpCounts(st.made[e.id][e.slot]);
    assert RowCurrent(st.rows[e.id], st.objects[e.id].generation) && Born(st.objects[e.id], st.born[e.id]);
    assert RowDated(st.rows[e.id], st.made[e.id], st.revisionBumps);
  }

  /** `n` characters of a text are retained: up to its terminator or end, and at most 2048. */
  predicate Retained(text: string, n: nat) {
    && n <= |text| && n <= 2048 && (forall i | 0 <= i < n :: text[i] != '\0')
    && (n == |text| || text[n] == '\0' || n == 2048)
  }

  /** The record that keeps a material: all its fields, and of a text as much as is retained. */
  predicate Keeps(r: Record, m: Material, generation: word, revision: word) {
    && r.generation == generation && r.revision == revision
    && r.material.kind == m.kind && r.material.slot == m.slot && r.material.look == m.look
    && (m.kind == 1 ==> r.material.text == "" && r.Bytes() == 0)
    && (m.kind == 2 ==>
          exists n: nat :: Retained(m.text, n) && r.material.text == m.text[..n] && r.Bytes() == n + 1)
  }

  /** A text has one retained part. */
  lemma RetainedUnique(text: string, n: nat, k: nat)
    requires Retained(text, n) && Retained(text, k)
    ensures n == k
  {
  }

  /** A text of at most 2048 characters without a terminator is retained whole. */
  lemma ShortText(text: string, n: nat)
    requires |text| <= 2048 && '\0' !in text && Retained(text, n)
    ensures text[..n] == text
  {
    assert forall i | 0 <= i < |text| :: text[i] in text;
  }

  lemma RecordKeeps(m: Material, generation: word, revision: word)
    requires m.kind == 1 || m.kind == 2
    ensures Keeps(MakeRecord(m, generation, revision), m, generation, revision)
  {
    assert Retained(m.text, TextLength(m.text, 0));
  }

  /**
   * An update of a live object whose material can be made, and whose text can be afforded, is what its descriptor
   * resolves to afterwards; one that cannot changes no answer. No other slot is touched either way.
   */
  lemma SetThenGet(actions: seq<Action>, o: nat, m: Material, a: Alloc, n: nat)
    requires RunOf(actions).attached && o < 2000 && m.slot < 16 && RunOf(actions).objects[o].generation != 0
    requires m.kind == 2 ==> Retained(m.text, n)
    ensures var (st, st') := (RunOf(actions), Step(RunOf(actions), GetMaterial(o, m, a)));
            var (generation, revision) := (st.objects[o].generation, CounterAfter(st.revisionBumps + 1));
            var made := (m.kind == 1 && a != NoRecord) || (m.kind == 2 && a == Granted);
            var size := if m.kind == 2 then n + 1 else 0;
            var freed := if st.rows[o][m.slot].Some? then st.rows[o][m.slot].value.Bytes() else 0;
            var answer := Lookup(st', o, generation, m.slot, revision);
            if made && st.textBytes - freed + size <= 0x80_0000
            then st'.log == st.log + [MaterialSet(o, generation, m.slot, revision, m.kind, m.look.source)]
                 && answer.Found? && Keeps(answer.record, m, generation, revision)
                 && st'.textBytes == st.textBytes - freed + size
            else st'.log == st.log && st'.rows == st.rows && st'.textBytes == st.textBytes
    ensures forall p: nat, s: nat, g: word, r: word | p != o || s != m.slot ::
              Lookup(Step(RunOf(actions), GetMaterial(o, m, a)), p, g, s, r) == Lookup(RunOf(actions), p, g, s, r)
    ensures Step(RunOf(actions), GetMaterial(o, m, a)).objects == RunOf(actions).objects
  {
    var st := RunOf(actions);
    if Acceptable(m) {
      RecordKeeps(m, st.objects[o].generation, CounterAfter(st.revisionBumps + 1));
      SizeIs(m, st.objects[o].generation, CounterAfter(st.revisionBumps + 1), n);
    }
    hide CounterAfter, RunOf, MakeRecord, Keeps, Retained, Record.Bytes, SetMaterial, Lookup;
    SetFinds(st, o, m, a);
    SetLeavesOthers(st, o, m, a);
  }

  lemma SetFinds(st: State, o: nat, m: Material, a: Alloc)
    requires Shaped(st) && st.attached && o < MAX_OBJECTS && m.slot < SLOTS && st.objects[o].generation != 0
    ensures var (st', r) := (SetMaterial(st, o, m, a),
                             MakeRecord(m, st.objects[o].generation, CounterAfter(st.revisionBumps + 1)));
            var kept := st.textBytes - CellBytes(st.rows[o][m.slot]);
            if Makes(m, a) && kept + r.Bytes() <= TEXT_BUDGET
            then st'.log == st.log + [MaterialSet(o, r.generation, m.slot, r.revision, m.kind, m.look.source)]
                 && Lookup(st', o, r.generation, m.slot, r.revision) == Found(r)
                 && r.generation == st.objects[o].generation && r.revision == CounterAfter(st.revisionBumps + 1)
                 && st'.textBytes == kept + r.Bytes()
            else st'.log == st.log && st'.rows == st.rows && st'.textBytes == st.textBytes
  {
    hide CounterAfter, Cut;
  }

  lemma SetLeavesOthers(st: State, o: nat, m: Material, a: Alloc)
    requires Shaped(st) && o < MAX_OBJECTS && m.slot < SLOTS
    ensures Shaped(SetMaterial(st, o, m, a)) && SetMaterial(st, o, m, a).objects == st.objects
    ensures forall p: nat, s: nat, g: word, r: word | p != o || s != m.slot ::
              Lookup(SetMaterial(st, o, m, a), p, g, s, r) == Lookup(st, p, g, s, r)
  {
    hide CounterAfter, MakeRecord;
  }

  lemma SizeIs(m: Material, generation: word, revision: word, n: nat)
    requires m.kind == 2 ==> Retained(m.text, n)
    ensures MakeRecord(m, generation, revision).Bytes() == if m.kind == 2 then n + 1 else 0
  {
    if m.kind == 2 {
      RetainedUnique(m.text, TextLength(m.text, 0), n);
    }
  }

  /**
   * After an accepted create the slots are all empty, or each holds the last material listed for it: material `k`, if
   * none after it is for the same slot, is what a query then finds.
   */
  lemma CreateThenGet(actions: seq<Action>, o: nat, model: int, ms: seq<Material>, allocs: seq<Alloc>, scratch: bool,
                      k: nat)
    requires RunOf(actions).attached && o < 2000 && |ms| == |allocs| <= 16
    requires k < |ms| && forall j | k < j < |ms| :: ms[j].slot != ms[k].slot
    ensures var st := RunOf(actions);
            var st' := Step(st, GetCreate(o, model, ms, allocs, scratch));
            var generation := CounterAfter(st.generationBumps + 1);
            var revision := CounterAfter(st.revisionBumps + k + 1);
            var answer := Lookup(st', o, generation, ms[k].slot, revision);
            (forall s | 0 <= s < 16 :: st'.rows[o][s].None?)
            || (answer.Found? && Keeps(answer.record, ms[k], generation, revision))
  {
    hide RowBytes, TotalBytes, CounterAfter, RunOf, Kept, Keepable, Create;
    var st := RunOf(actions);
    var generation := CounterAfter(st.generationBumps + 1);
    var retained := st.textBytes - RowBytes(st.rows[o]);
    CreateIsTransaction(actions, o, model, ms, allocs, scratch);
    CounterPositive(st.generationBumps + 1);
    if scratch && Keepable(ms, allocs, |ms|, generation, st.revisionBumps, retained) {
      KeptMakes(ms, allocs, generation, st.revisionBumps, retained, k);
      RecordKeeps(ms[k], generation, CounterAfter(st.revisionBumps + k + 1));
      KeptLast(ms, generation, st.revisionBumps, k);
      RecordNumbers(ms[k], generation, CounterAfter(st.revisionBumps + k + 1));
      hide MakeRecord, Keeps;
    }
  }

  lemma RecordNumbers(m: Material, generation: word, revision: word)
    ensures MakeRecord(m, generation, revision).generation == generation
    ensures MakeRecord(m, generation, revision).revision == revision
  {
  }

  lemma KeptMakes(ms: seq<Material>, allocs: seq<Alloc>, generation: word, bumps: nat, retained: int, k: nat)
    requires k < |ms| == |allocs| && Keepable(ms, allocs, |ms|, generation, bumps, retained)
    ensures ms[k].slot < SLOTS && (ms[k].kind == 1 || ms[k].kind == 2)
  {
    hide RowBytes, Kept, CounterAfter;
    assert Makes(ms[k], allocs[k]);
  }

  lemma KeptLast(ms: seq<Material>, generation: word, bumps: nat, k: nat)
    requires k < |ms| && ms[k].slot < SLOTS && forall j | k < j < |ms| :: ms[j].slot != ms[k].slot
    ensures Kept(ms, |ms|, generation, bumps)[ms[k].slot]
            == Some(MakeRecord(ms[k], generation, CounterAfter(bumps + k + 1)))
  {
    hide CounterAfter, MakeRecord;
    var last := LastFor(ms, |ms|, ms[k].slot);
    assert last == Some(k);
  }

  // ----- runs past the wrap of a counter

  lemma RunOneMore(actions: seq<Action>, a: Action)
    ensures RunOf(actions + [a]) == Step(RunOf(actions), a)
  {
    hide Step;
    assert (actions + [a])[..|actions|] == actions;
  }

  function Repeated(a: Action, n: nat): (actions: seq<Action>)
    ensures |actions| == n && forall i | 0 <= i < n :: actions[i] == a
  {
    seq(n, _ => a)
  }

  lemma RunRepeated(actions: seq<Action>, a: Action, n: nat)
    requires n > 0
    ensures RunOf(actions + Repeated(a, n)) == Step(RunOf(actions + Repeated(a, n - 1)), a)
  {
    assert actions + Repeated(a, n) == actions + Repeated(a, n - 1) + [a];
    RunOneMore(actions + Repeated(a, n - 1), a);
  }

  /** Updates for which nothing can be allocated only spend revisions. */
  lemma {:induction false} SpendRevisions(actions: seq<Action>, o: nat, m: Material, n: nat)
    requires RunOf(actions).attached && o < MAX_OBJECTS && m.slot < SLOTS && RunOf(actions).objects[o].generation != 0
    ensures RunOf(actions + Repeated(GetMaterial(o, m, NoRecord), n)) ==
            RunOf(actions).(revisionBumps := RunOf(actions).revisionBumps + n)
    decreases n
  {
    hide RunOf;
    if n > 0 {
      SpendRevisions(actions, o, m, n - 1);
      RunRepeated(actions, GetMaterial(o, m, NoRecord), n);
    } else {
      assert actions + Repeated(GetMaterial(o, m, NoRecord), 0) == actions;
    }
  }

  lemma FirstCreate(model: int)
    ensures var st := RunOf([GetCreate(0, model, [], [], true)]);
            && st.attached && st.rows == EmptyRows() && st.textBytes == 0 && st.generationBumps == 1
            && st.revisionBumps == 0
            && st.objects[0].generation == 1 && st.log == [Created(0, 1, model, 0)]
  {
    BumpCounts(1);
    RunOneMore([], GetCreate(0, model, [], [], true));
    assert [] + [GetCreate(0, model, [], [], true)] == [GetCreate(0, model, [], [], true)];
    EmptyRowBytes(Empty());
    hide CounterAfter;
    assert EmptyRows()[0 := Empty()] == EmptyRows();
  }

  /**
   * A run in which the revision counter wraps between two updates: the older descriptor then looks newer than the
   * record.
   */
  lemma WrappedRevisionIsBehind(model: int, m: Material, m': Material) returns (actions: seq<Action>)
    requires m.slot == m'.slot < SLOTS && m.kind == m'.kind == DEFAULT
    ensures actions == [GetCreate(0, model, [], [], true)] + Repeated(GetMaterial(0, m, NoRecord), W - 2)
                       + [GetMaterial(0, m, Granted)] + [GetMaterial(0, m', Granted)]
    ensures var st := RunOf(actions);
            && st.log == [Created(0, 1, model, 0), MaterialSet(0, 1, m.slot, W - 1, DEFAULT, m.look.source),
                          MaterialSet(0, 1, m.slot, 1, DEFAULT, m'.look.source)]
            && Lookup(st, 0, 1, m.slot, W - 1) == Behind(1)
  {
    var created := [GetCreate(0, model, [], [], true)];
    var spent := created + Repeated(GetMaterial(0, m, NoRecord), W - 2);
    FirstCreate(model);
    SpendRevisions(created, 0, m, W - 2);
    RunOneMore(spent, GetMaterial(0, m, Granted));
    RunOneMore(spent + [GetMaterial(0, m, Granted)], GetMaterial(0, m', Granted));
    TwoUpdates(RunOf(spent), m, m');
    actions := spent + [GetMaterial(0, m, Granted)] + [GetMaterial(0, m', Granted)];
  }

  lemma TwoUpdates(st: State, m: Material, m': Material)
    requires Shaped(st) && st.attached && st.objects[0].generation == 1 && st.revisionBumps == W - 2
      && st.textBytes == 0
    requires st.rows == EmptyRows() && m.slot == m'.slot < SLOTS && m.kind == m'.kind == DEFAULT
    ensures var end := SetMaterial(SetMaterial(st, 0, m, Granted), 0, m', Granted);
            && end.log == st.log + [MaterialSet(0, 1, m.slot, W - 1, DEFAULT, m.look.source),
                                    MaterialSet(0, 1, m.slot, 1, DEFAULT, m'.look.source)]
            && end.attached && Lookup(end, 0, 1, m.slot, W - 1) == Behind(1)
  {
    assert CounterAfter(W - 1) == W - 1 && CounterAfter(W) == 1;
  }

  /** Creating another object over and over, without materials, only spends generations. */
  lemma {:induction false} SpendGenerations(actions: seq<Action>, model: int, n: nat)
    requires RunOf(actions).attached && RunOf(actions).rows[1] == Empty()
    ensures var (st, st') := (RunOf(actions), RunOf(actions + Repeated(GetCreate(1, model, [], [], true), n)));
            && st'.attached && st'.rows == st.rows && st'.textBytes == st.textBytes && st'.objects[0] == st.objects[0]
            && st'.generationBumps == st.generationBumps + n && st'.revisionBumps == st.revisionBumps
            && st.log <= st'.log
    decreases n
  {
    hide RunOf, CounterAfter, RowBytes;
    if n > 0 {
      SpendGenerations(actions, model, n - 1);
      RunRepeated(actions, GetCreate(1, model, [], [], true), n);
      assert RunOf(actions).rows[1 := Empty()] == RunOf(actions).rows;
    } else {
      assert actions + Repeated(GetCreate(1, model, [], [], true), 0) == actions;
    }
  }

  /**
   * A run in which the generation counter comes round: an old descriptor then reads the material of a re-created
   * object.
   */
  lemma ReusedGenerationIsStale(model: int, m: Material, m': Material) returns (actions: seq<Action>)
    requires m.slot == m'.slot < SLOTS && m.kind == m'.kind == DEFAULT
    ensures actions == [GetCreate(0, model, [], [], true)] + [GetMaterial(0, m, Granted)]
                       + Repeated(GetCreate(1, model, [], [], true), W - 2)
                       + [GetCreate(0, model, [m'], [Granted], true)]
    ensures var st := RunOf(actions);
            && |st.log| > 1 && st.log[1] == MaterialSet(0, 1, m.slot, 1, DEFAULT, m.look.source)
            && Lookup(st, 0, 1, m.slot, 1) == Found(Record(1, 2, Cut(m')))
  {
    var created := [GetCreate(0, model, [], [], true)];
    var updated := created + [GetMaterial(0, m, Granted)];
    var spent := updated + Repeated(GetCreate(1, model, [], [], true), W - 2);
    FirstCreate(model);
    RunOneMore(created, GetMaterial(0, m, Granted));
    OneUpdate(RunOf(created), m);
    SpendGenerations(updated, model, W - 2);
    RunOneMore(spent, GetCreate(0, model, [m'], [Granted], true));
    Recreated(RunOf(spent), model, m');
    actions := spent + [GetCreate(0, model, [m'], [Granted], true)];
  }

  lemma OneUpdate(st: State, m: Material)
    requires Shaped(st) && st.attached && st.objects[0].generation == 1 && st.revisionBumps == 0 && st.textBytes == 0
    requires st.rows == EmptyRows() && m.slot < SLOTS && m.kind == DEFAULT
    ensures var end := SetMaterial(st, 0, m, Granted);
            && end.log == st.log + [MaterialSet(0, 1, m.slot, 1, DEFAULT, m.look.source)] && end.rows[1] == Empty()
            && end.attached && end.textBytes == 0 && RowBytes(end.rows[0]) == 0 && end.revisionBumps == 1
            && end.generationBumps == st.generationBumps && end.objects == st.objects
  {
    BumpCounts(1);
    hide CounterAfter;
    EmptyRowBytes(Empty());
    RowBytesUpdate(Empty(), m.slot, Some(MakeRecord(m, 1, 1)));
  }

  lemma Recreated(st: State, model: int, m: Material)
    requires Shaped(st) && st.attached && st.generationBumps == W - 1 && st.revisionBumps == 1 && st.textBytes == 0
    requires RowBytes(st.rows[0]) == 0 && m.slot < SLOTS && m.kind == DEFAULT
    ensures var end := Create(st, 0, model, [m], [Granted], true);
            end.attached && st.log <= end.log && Lookup(end, 0, 1, m.slot, 1) == Found(Record(1, 2, Cut(m)))
  {
    assert CounterAfter(W) == 1 && CounterAfter(2) == 2;
    var b := BuildOne(Empty(), 1, m, Granted, 1, 0);
    assert Build([m], [Granted], 0, 1, 1, 0) == Built(Empty(), 1, true);
    assert Empty()[m.slot := None] == Empty();
    EmptyRowBytes(Empty());
    assert Build([m], [Granted], 1, 1, 1, 0) == b && b.ok;
  }

  /**
   * After any accepted create, on any run: the object is alive with the new generation, its slots hold the listed
   * materials or nothing.
   */
  lemma CreateIsTransaction(actions: seq<Action>, o: nat, model: int, ms: seq<Material>, allocs: seq<Alloc>,
                            scratch: bool)
    requires RunOf(actions).attached && o < MAX_OBJECTS && |ms| == |allocs| <= SLOTS
    ensures var st := RunOf(actions);
            var generation := CounterAfter(st.generationBumps + 1);
            var retained := st.textBytes - RowBytes(st.rows[o]);
            Create(st, o, model, ms, allocs, scratch).rows[o] ==
              if scratch && Keepable(ms, allocs, |ms|, generation, st.revisionBumps, retained)
              then Kept(ms, |ms|, generation, st.revisionBumps) else Empty()
    ensures Lifecycle(Create(RunOf(actions), o, model, ms, allocs, scratch), o) ==
              Alive(Created(o, CounterAfter(RunOf(actions).generationBumps + 1), model, |ms|))
    ensures forall p | 0 <= p < MAX_OBJECTS && p != o ::
              && Create(RunOf(actions), o, model, ms, allocs, scratch).rows[p] == RunOf(actions).rows[p]
              && Create(RunOf(actions), o, model, ms, allocs, scratch).objects[p] == RunOf(actions).objects[p]
    ensures RunOf(actions).generationBumps + 1 < W ==>
              forall p | 0 <= p < MAX_OBJECTS ::
                RunOf(actions).objects[p].generation < CounterAfter(RunOf(actions).generationBumps + 1)
  {
    EveryRunKeeps(actions);
    var st := RunOf(actions);
    hide Build, RowBytes, TotalBytes, CounterAfter, RowCurrent, Kept, RunOf;
    var generation := CounterAfter(st.generationBumps + 1);
    BumpCounts(st.generationBumps + 1);
    CounterPositive(st.generationBumps + 1);
    RowMoves(st, o, Empty());
    BuildSucceeds(ms, allocs, |ms|, generation, st.revisionBumps, st.textBytes - RowBytes(st.rows[o]));
    forall p | 0 <= p < MAX_OBJECTS && st.generationBumps + 1 < W
      ensures st.objects[p].generation < generation
    {
      assert Born(st.objects[p], st.born[p]);
      BumpCounts(st.born[p]);
    }
  }

  /**
   * While the client is attached the lifecycle query is never inconsistent, and says alive exactly for nonzero
   * generations.
   */
  lemma LifecycleIsConsistent(actions: seq<Action>, o: nat)
    requires RunOf(actions).attached && o < MAX_OBJECTS
    ensures var (st, life) := (RunOf(actions), Lifecycle(RunOf(actions), o));
            if st.objects[o].generation == 0 then life == NotAlive
            else life.Alive? && life.create.id == o && life.create.generation == st.objects[o].generation
  {
    EveryRunKeeps(actions);
    assert ObjectSound(RunOf(actions).objects[o], o);
  }

  /** Which query finds a record: one of the right life, and at least as new as asked, where 0 asks for any. */
  lemma FoundExactly(st: State, o: nat, generation: word, slot: nat, minimum: word)
    requires Shaped(st) && st.attached && o < 2000 && slot < 16
    ensures var c := st.rows[o][slot];
            Lookup(st, o, generation, slot, minimum).Found? <==>
            c.Some? && generation != 0 && c.value.generation == generation && c.value.revision >= minimum
    ensures Lookup(st, o, generation, slot, minimum).Found? ==>
            Lookup(st, o, generation, slot, minimum).record == st.rows[o][slot].value
    ensures Lookup(st, o, generation, slot, 0) != Lookup(st, o, generation, slot, minimum) ==>
            Lookup(st, o, generation, slot, minimum).Behind?
  {
  }

  /** After a destroy nothing is found of the object and its life is over; what it retained is given back. */
  lemma DestroyThenGet(actions: seq<Action>, o: nat, slot: nat, generation: word, minimum: word)
    requires RunOf(actions).attached && o < 2000 && slot < 16
    ensures var (st, st') := (RunOf(actions), Step(RunOf(actions), GetDestroy(o)));
            && Lookup(st', o, generation, slot, minimum) == Gone && Lifecycle(st', o) == NotAlive
            && st'.textBytes == st.textBytes - RowBytes(st.rows[o])
            && st'.log == st.log + [Destroyed(o, st.objects[o].generation)]
            && forall p: nat, s: nat, g: word, m: word | p != o :: Lookup(st', p, g, s, m) == Lookup(st, p, g, s, m)
  {
    hide RunOf, RowBytes;
  }

  /** After a reset nothing is there, and the first create makes the first generation again. */
  lemma ResetThenCreate(actions: seq<Action>, o: nat, model: int, slot: nat, generation: word, minimum: word)
    requires o < 2000 && slot < 16
    ensures var st := Step(RunOf(actions), Reset);
            && Lookup(st, o, generation, slot, minimum) == Gone && Lifecycle(st, o) == NotAlive
            && st.log == [] && st.textBytes == 0 && st.attached
            && Lifecycle(Step(st, GetCreate(o, model, [], [], true)), o) == Alive(Created(o, 1, model, 0))
  {
    BumpCounts(0);
    BumpCounts(1);
    hide RunOf, CounterAfter;
  }

  /** Once the client is destroyed every query is a bad call, and only a reset makes a difference. */
  lemma DetachedThenGet(actions: seq<Action>, o: nat, slot: nat, generation: word, minimum: word, a: Action)
    ensures var st := Step(RunOf(actions), DestroyClient);
            && (RunOf(actions).attached ==>
                  Lookup(st, o, generation, slot, minimum) == BadCall && Lifecycle(st, o) == LifeBadCall)
            && (!st.attached && !a.Reset? ==> Step(st, a) == st)
  {
    hide RunOf;
  }

  /** Any other object message leaves a descriptor with the generation of the object, and nothing else. */
  lemma OtherIsLogged(actions: seq<Action>, o: nat, action: nat)
    requires RunOf(actions).attached && o < 2000
    ensures var (st, st') := (RunOf(actions), Step(RunOf(actions), GetOther(o, action)));
            && st'.log == st.log + [Other(o, st.objects[o].generation, action)]
            && st'.rows == st.rows && st'.objects == st.objects && st'.textBytes == st.textBytes
  {
    hide RunOf;
  }

  lemma {:induction false} RowBound(row: seq<Option<Record>>)
    requires forall s | 0 <= s < |row| && row[s].Some? :: row[s].value.Bytes() <= 2049
    ensures RowBytes(row) <= 2049 * |row|
    decreases |row|
  {
    if row != [] {
      RowBound(row[..|row| - 1]);
    }
  }

  /**
   * A create whose materials are all acceptable and allocated keeps them all, if sixteen texts of full length still
   * fit; one with a material that is not, or without its list, keeps none.
   */
  lemma CreateSucceeds(actions: seq<Action>, o: nat, model: int, ms: seq<Material>, allocs: seq<Alloc>, scratch: bool)
    requires RunOf(actions).attached && o < 2000 && |ms| == |allocs| <= 16
    ensures var (st, st') := (RunOf(actions), Step(RunOf(actions), GetCreate(o, model, ms, allocs, scratch)));
            var good := scratch && forall k | 0 <= k < |ms| ::
              && ms[k].slot < 16
              && ((ms[k].kind == 1 && allocs[k] != NoRecord) || (ms[k].kind == 2 && allocs[k] == Granted));
            && (good && st.textBytes - RowBytes(st.rows[o]) + 16 * 2049 <= 0x80_0000 ==>
                  forall s | 0 <= s < 16 :: st'.rows[o][s].Some? <==> exists k :: 0 <= k < |ms| && ms[k].slot == s)
            && (!good ==> forall s | 0 <= s < 16 :: st'.rows[o][s].None?)
  {
    hide RowBytes, TotalBytes, CounterAfter, RunOf, Kept, Keepable, Create;
    var st := RunOf(actions);
    var generation := CounterAfter(st.generationBumps + 1);
    var retained := st.textBytes - RowBytes(st.rows[o]);
    CreateIsTransaction(actions, o, model, ms, allocs, scratch);
    if scratch {
      if forall k | 0 <= k < |ms| :: Makes(ms[k], allocs[k]) {
        forall n | 0 <= n <= |ms|
          ensures RowBytes(Kept(ms, n, generation, st.revisionBumps)) <= 16 * 2049
        {
          KeptBound(ms, n, generation, st.revisionBumps);
        }
        KeepableIf(ms, allocs, generation, st.revisionBumps, retained);
        KeptSlots(ms, generation, st.revisionBumps);
      } else {
        NotKeepable(ms, allocs, generation, st.revisionBumps, retained);
      }
    }
  }

  lemma KeptBound(ms: seq<Material>, n: nat, generation: word, bumps: nat)
    requires n <= |ms|
    ensures RowBytes(Kept(ms, n, generation, bumps)) <= 16 * 2049
  {
    hide CounterAfter, RowBytes;
    RowBound(Kept(ms, n, generation, bumps));
  }

  lemma KeptSlots(ms: seq<Material>, generation: word, bumps: nat)
    ensures forall s | 0 <= s < 16 ::
      Kept(ms, |ms|, generation, bumps)[s].Some? <==> exists k :: 0 <= k < |ms| && ms[k].slot == s
  {
    hide CounterAfter, MakeRecord;
  }

  lemma KeepableIf(ms: seq<Material>, allocs: seq<Alloc>, generation: word, bumps: nat, retained: int)
    requires |ms| == |allocs| && forall k | 0 <= k < |ms| :: Makes(ms[k], allocs[k])
    requires forall n | 0 <= n <= |ms| :: RowBytes(Kept(ms, n, generation, bumps)) <= 16 * 2049
    ensures retained + 16 * 2049 <= TEXT_BUDGET ==> Keepable(ms, allocs, |ms|, generation, bumps, retained)
  {
    hide RowBytes, Kept, Makes;
  }

  lemma NotKeepable(ms: seq<Material>, allocs: seq<Alloc>, generation: word, bumps: nat, retained: int)
    requires |ms| == |allocs| && exists k :: 0 <= k < |ms| && !Makes(ms[k], allocs[k])
    ensures !Keepable(ms, allocs, |ms|, generation, bumps, retained)
  {
    hide RowBytes, Kept, Makes;
  }
}
