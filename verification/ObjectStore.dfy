/** The object and material store as it is kept: a table of allocations, counters, and a ring of compact descriptors. */
module ObjectStore {
  import opened Words
  import opened EventRing
  import opened ObjectModel

  const OBJECT_RING: nat := 1024

  /** One allocation of the store. */
  class MaterialState {
    const record: Record

    constructor (record: Record)
      ensures this.record == record
    {
      this.record := record;
    }
  }

  type Cell = MaterialState?

  /** Where the one reference to a live allocation is kept. */
  datatype Place = Local | Spare(slot: nat) | Slot(o: nat, slot: nat)

  type Ledger = map<MaterialState, Place>

  function Held(c: Cell): Option<Record> {
    if c == null then None else Some(c.record)
  }

  /** A row of cells stands for a row of records, and its allocations are live and belong where they stand. */
  ghost predicate StandsFor(cells: seq<Cell>, row: Row, live: Ledger, place: Place) {
    && |cells| == SLOTS
    && forall s | 0 <= s < SLOTS :: Held(cells[s]) == row[s] && (cells[s] != null ==> OwnedAt(live, cells[s], place, s))
  }

  /** `x` is live and kept in column `s` of the row that `place` names. */
  ghost predicate OwnedAt(live: Ledger, x: MaterialState, place: Place, s: nat) {
    x in live && live[x] == (if place.Slot? then Slot(place.o, s) else Spare(s))
  }

  /** The whole table stands for `rows`, and no live allocation in it is lost. */
  ghost predicate Tabled(table: seq<seq<Cell>>, rows: seq<Row>, live: Ledger) {
    && |table| == |rows| == MAX_OBJECTS
    && (forall o | 0 <= o < MAX_OBJECTS :: StandsFor(table[o], rows[o], live, Slot(o, 0)))
    && (forall x | x in live && live[x].Slot? :: live[x].o < MAX_OBJECTS && KeptIn(table[live[x].o], live[x].slot, x))
  }

  /** The cell at `o`, `s`. */
  lemma TableAt(table: seq<seq<Cell>>, rows: seq<Row>, live: Ledger, o: nat, s: nat)
    requires Tabled(table, rows, live) && o < MAX_OBJECTS && s < SLOTS
    ensures |rows| == |table| == MAX_OBJECTS && |table[o]| == SLOTS && Held(table[o][s]) == rows[o][s]
    ensures table[o][s] != null ==> table[o][s] in live && live[table[o][s]] == Slot(o, s)
  {
    assert StandsFor(table[o], rows[o], live, Slot(o, 0));
    assert table[o][s] != null ==> OwnedAt(live, table[o][s], Slot(o, 0), s);
  }

  /** In a table that owns everything live, every allocation that has not been freed stands in exactly one cell. */
  lemma ExactlyOneCell(table: seq<seq<Cell>>, rows: seq<Row>, live: Ledger, x: MaterialState)
    requires Tabled(table, rows, live) && x in live && live[x].Slot?
    ensures live[x].o < MAX_OBJECTS && live[x].slot < SLOTS && Stands(table, live[x].o, live[x].slot, x)
    ensures forall o, s :: Stands(table, o, s, x) ==> o == live[x].o && s == live[x].slot
  {
    forall o, s | Stands(table, o, s, x)
      ensures o == live[x].o && s == live[x].slot
    {
      TableAt(table, rows, live, o, s);
    }
    assert KeptIn(table[live[x].o], live[x].slot, x);
    assert StandsFor(table[live[x].o], rows[live[x].o], live, Slot(live[x].o, 0));
  }

  ghost predicate Stands(table: seq<seq<Cell>>, o: nat, s: nat, x: MaterialState) {
    o < |table| && s < SLOTS && s < |table[o]| && table[o][s] == x
  }

  lemma TableGains(table: seq<seq<Cell>>, rows: seq<Row>, live: Ledger, o: nat, s: nat, x: MaterialState)
    requires Tabled(table, rows, live) && o < MAX_OBJECTS && s < SLOTS && rows[o][s] == None
    requires x in live && !live[x].Slot?
    ensures |table[o]| == SLOTS
    ensures Tabled(table[o := table[o][s := x]], rows[o := rows[o][s := Some(x.record)]], live[x := Slot(o, s)])
  {
    TableAt(table, rows, live, o, s);
    var row: Row := rows[o][s := Some(x.record)];
    forall p | 0 <= p < MAX_OBJECTS
      ensures StandsFor(table[o := table[o][s := x]][p], rows[o := row][p], live[x := Slot(o, s)], Slot(p, 0))
    {
      assert StandsFor(table[p], rows[p], live, Slot(p, 0));
    }
  }

  lemma TableLoses(table: seq<seq<Cell>>, rows: seq<Row>, live: Ledger, o: nat, s: nat)
    requires Tabled(table, rows, live) && o < MAX_OBJECTS && s < SLOTS
    ensures |table[o]| == SLOTS
    ensures Tabled(table[o := table[o][s := null]], rows[o := rows[o][s := None]], Without(live, table[o][s]))
  {
    TableAt(table, rows, live, o, s);
    var row: Row := rows[o][s := None];
    forall p | 0 <= p < MAX_OBJECTS
      ensures StandsFor(table[o := table[o][s := null]][p], rows[o := row][p], Without(live, table[o][s]), Slot(p, 0))
    {
      assert StandsFor(table[p], rows[p], live, Slot(p, 0));
    }
  }

  ghost predicate KeptIn(cells: seq<Cell>, s: nat, x: MaterialState) {
    s < |cells| && cells[s] == x
  }

  /** What is kept in the table stays there, and nothing joins it. */
  ghost predicate TableKept(before: Ledger, after: Ledger) {
    && (forall x | x in before && before[x].Slot? :: x in after && after[x] == before[x])
    && (forall x | x in after && after[x].Slot? :: x in before && before[x] == after[x])
  }

  /** The spare cells stand for `row`, and no allocation outside the table is lost. */
  ghost predicate Spares(cells: seq<Cell>, row: Row, live: Ledger) {
    && StandsFor(cells, row, live, Spare(0))
    && forall x | x in live && !live[x].Slot? :: live[x].Spare? && KeptIn(cells, live[x].slot, x)
  }

  function Without(live: Ledger, x: Cell): Ledger {
    if x == null then live else live - {x}
  }

  lemma SpareDropped(cells: seq<Cell>, row: Row, live: Ledger, s: nat)
    requires Spares(cells, row, live) && s < SLOTS
    ensures Spares(cells[s := null], row[s := None], Without(live, cells[s]))
    ensures TableKept(live, Without(live, cells[s]))
  {
    if cells[s] != null {
      assert OwnedAt(live, cells[s], Spare(0), s);
    }
  }

  lemma SpareAt(cells: seq<Cell>, row: Row, live: Ledger, s: nat)
    requires Spares(cells, row, live) && s < SLOTS
    ensures |cells| == SLOTS && Held(cells[s]) == row[s] && (cells[s] != null ==> cells[s] in live)
  {
    assert cells[s] != null ==> OwnedAt(live, cells[s], Spare(0), s);
  }

  lemma SpareMoves(cells: seq<Cell>, row: Row, live: Ledger, s: nat, o: nat)
    requires Spares(cells, row, live) && s < SLOTS
    ensures cells[s] != null ==>
              cells[s] in live && !live[cells[s]].Slot?
                && Spares(cells[s := null], row[s := None], live[cells[s] := Slot(o, s)])
  {
    assert cells[s] != null ==> OwnedAt(live, cells[s], Spare(0), s);
  }

  lemma SpareAdded(cells: seq<Cell>, row: Row, live: Ledger, s: nat, x: MaterialState)
    requires Spares(cells, row, live) && s < SLOTS && cells[s] == null && x !in live
    ensures Spares(cells[s := x], row[s := Some(x.record)], live[x := Spare(s)])
    ensures TableKept(live, live[x := Spare(s)])
  {
  }

  /** Whatever becomes of a new allocation, the rest of the ledger is as if it had not been there. */
  lemma NewcomerLeaves(live: Ledger, x: MaterialState, last: Cell, s: nat)
    requires x !in live && (last != null ==> last in live)
    ensures Without(live[x := Local], last) - {x} == Without(live, last)
    ensures Without(live[x := Local], last)[x := Spare(s)] == Without(live, last)[x := Spare(s)]
  {
  }

  function EmptyCells(): (cells: seq<Cell>)
    ensures |cells| == SLOTS && forall s | 0 <= s < SLOTS :: cells[s] == null
  {
    seq(SLOTS, _ => null)
  }

  /** Freeing in the table: nothing new is live, what stays is where it was, and what is kept elsewhere stays. */
  ghost predicate OnlyTableFreed(before: Ledger, after: Ledger) {
    && (forall x | x in after :: x in before && after[x] == before[x])
    && (forall x | x in before && !before[x].Slot? :: x in after)
  }

  /** A row without its first `n` records. */
  function Cleared(row: Row, n: nat): Row {
    seq(16, s requires 0 <= s < 16 => if s < n then None else row[s])
  }

  class Store {
    const slots: array<seq<Cell>>
    const objects: array<Object>
    const ring: Ring<Event>
    var generationSeq: word
    var revisionSeq: word
    var textBytes: int
    var attached: bool
    /** Every allocation that has not been freed. */
    ghost var live: Ledger
    ghost var view: State

    /** The table stands for `rows`, no live allocation in the table is lost, and the text counter is exact. */
    ghost predicate Consistent(rows: seq<Row>)
      reads this`live, this`textBytes, slots
    {
      slots.Length == MAX_OBJECTS && Tabled(slots[..], rows, live) && textBytes == TotalBytes(rows)
    }

    /** Nothing is live outside the table. */
    ghost predicate Settled()
      reads this`live
    {
      forall x | x in live :: live[x].Slot?
    }

    ghost predicate Valid()
      reads this, slots, objects, ring, ring.slots
    {
      && ring.Valid() && ring.slots.Length == OBJECT_RING && ring.log == view.log
      && Invariant(view) && Consistent(view.rows) && Settled() && objects[..] == view.objects
      && generationSeq == CounterAfter(view.generationBumps) && revisionSeq == CounterAfter(view.revisionBumps)
      && attached == view.attached
    }

    constructor ()
      ensures Valid() && view == Fresh()
      ensures fresh(slots) && fresh(objects) && fresh(ring) && fresh(ring.slots)
    {
      slots := new seq<Cell>[MAX_OBJECTS](_ => EmptyCells());
      objects := new Object[MAX_OBJECTS](_ => NO_OBJECT);
      ring := new Ring<Event>(OBJECT_RING);
      generationSeq, revisionSeq, textBytes, attached := 0, 0, 0, true;
      live, view := map[], Fresh();
      new;
      hide Invariant, RowBytes, TotalBytes;
      FreshKeeps();
      EmptyTotalBytes(view.rows);
    }

    // ----- allocations

    /** `free_object_material_state`: only a live allocation can be freed, and it is then no longer live. */
    method Free(x: Cell)
      requires x != null ==> x in live
      modifies this`live
      ensures live == if x == null then old(live) else old(live) - {x}
    {
      if x != null {
        live := live - {x};
      }
    }

    /** `object_material_text_size` */
    method TextSize(text: string) returns (size: nat)
      ensures size == TextLength(text, 0) + 1
    {
      var length := 0;
      while length + 1 < TEXT_CAPACITY && length < |text| && text[length] != '\0'
        invariant length <= |text| && length < TEXT_CAPACITY && TextLength(text, length) == TextLength(text, 0)
      {
        length := length + 1;
      }
      size := length + 1;
    }

    /** `create_object_material_state` */
    method Allocate(m: Material, generation: word, revision: word, a: Alloc) returns (x: Cell)
      requires generation != 0 && revision != 0
      modifies this`live
      ensures if Makes(m, a)
              then x != null && fresh(x) && x.record == MakeRecord(m, generation, revision)
                && live == old(live)[x := Local]
              else x == null && live == old(live)
    {
      if m.slot >= SLOTS || (m.kind != DEFAULT && m.kind != TEXT) {
        return null;
      }
      if a == NoRecord {
        return null;
      }
      if m.kind == DEFAULT {
        x := new MaterialState(Record(generation, revision, m.(text := "")));
        live := live[x := Local];
      } else {
        var size := TextSize(m.text);
        x := new MaterialState(Record(generation, revision, m.(text := m.text[..size - 1])));
        live := live[x := Local];
        if a == NoText {
          Free(x);
          assert live == old(live);
          x := null;
        }
      }
    }

    /** `release_object_material_slot_state`: the text counter never falls short, so the second arm is dead. */
    method ReleaseSlot(o: nat, s: nat, ghost rows: seq<Row>)
      requires Consistent(rows) && o < MAX_OBJECTS && s < SLOTS
      modifies this`live, this`textBytes, slots
      ensures Consistent(rows[o := rows[o][s := None]]) && textBytes == old(textBytes) - CellBytes(rows[o][s])
      ensures OnlyTableFreed(old(live), live)
    {
      hide RowBytes, TotalBytes, Tabled;
      CellHeld(o, s, rows);
      TableLoses(slots[..], rows, live, o, s);
      RowBytesUpdate(rows[o], s, None);
      TotalBytesUpdate(rows, o, rows[o][s := None]);
      ghost var table := slots[..];
      var state := slots[o][s];
      if state == null {
        assert table[o][s := null] == table[o];
        assert table[o := table[o]] == table;
        return;
      }
      slots[o] := slots[o][s := null];
      assert slots[..] == table[o := table[o][s := null]];
      assert state.record.Bytes() <= textBytes;
      textBytes := if state.record.Bytes() <= textBytes then textBytes - state.record.Bytes() else 0;
      Free(state);
    }

    /** `release_object_material_states` */
    method ReleaseObject(o: nat, ghost rows: seq<Row>)
      requires Consistent(rows) && o < MAX_OBJECTS
      modifies this`live, this`textBytes, slots
      ensures Consistent(rows[o := Empty()])
      ensures OnlyTableFreed(old(live), live)
    {
      hide RowBytes, TotalBytes, StandsFor;
      assert Cleared(rows[o], 0) == rows[o] && rows[o := rows[o]] == rows;
      for i := 0 to SLOTS
        invariant Consistent(rows[o := Cleared(rows[o], i)])
        invariant OnlyTableFreed(old(live), live)
      {
        ghost var now := rows[o := Cleared(rows[o], i)];
        assert Cleared(rows[o], i)[i := None] == Cleared(rows[o], i + 1);
        assert now[o := Cleared(rows[o], i + 1)] == rows[o := Cleared(rows[o], i + 1)];
        ReleaseSlot(o, i, now);
      }
      assert Cleared(rows[o], SLOTS) == Empty();
    }

    /** `release_all_object_material_states`: clearing the counter and the table at the end changes nothing. */
    method ReleaseAll(ghost rows: seq<Row>)
      requires Consistent(rows) && Settled()
      modifies this`live, this`textBytes, slots
      ensures Consistent(EmptyRows()) && live == map[]
    {
      hide RowBytes, TotalBytes, StandsFor;
      ghost var now: seq<Row> := rows;
      for o := 0 to MAX_OBJECTS
        invariant Consistent(now) && Settled()
        invariant forall p | 0 <= p < o :: now[p] == Empty()
      {
        ReleaseObject(o, now);
        now := now[o := Empty()];
      }
      assert now == EmptyRows();
      EmptyTotalBytes(now);
      NothingLeft();
      assert textBytes == 0;
      textBytes := 0;
      for o := 0 to MAX_OBJECTS
        modifies slots
        invariant Consistent(EmptyRows())
      {
        ClearedAlready(o);
        ghost var table := slots[..];
        slots[o] := EmptyCells();
        assert slots[..] == table;
      }
    }

    lemma ClearedAlready(o: nat)
      requires Consistent(EmptyRows()) && o < MAX_OBJECTS
      ensures slots[o] == EmptyCells()
    {
      hide TotalBytes;
      assert StandsFor(slots[o], Empty(), live, Slot(o, 0));
    }

    /** An empty table owns nothing. */
    lemma NothingLeft()
      requires Consistent(EmptyRows()) && Settled()
      ensures live == map[]
    {
      assert forall x :: x !in live;
    }

    /** `object_material_text_bytes_for_object` */
    method TextBytesOf(o: nat, ghost rows: seq<Row>) returns (bytes: nat)
      requires Consistent(rows) && o < MAX_OBJECTS
      ensures bytes == RowBytes(rows[o]) <= textBytes
    {
      hide TotalBytes;
      TotalBytesUpdate(rows, o, rows[o]);
      ghost var row := rows[o];
      assert StandsFor(slots[o], row, live, Slot(o, 0));
      bytes := 0;
      for i := 0 to SLOTS
        invariant bytes == RowBytes(row[..i])
      {
        assert row[..i + 1][..i] == row[..i];
        var state := slots[o][i];
        if state != null {
          bytes := bytes + state.record.Bytes();
        }
      }
      assert row[..SLOTS] == row;
    }

    // ----- replacing the materials of one object

    method BumpRevision(ghost bumps: nat) returns (revision: word)
      requires revisionSeq == CounterAfter(bumps)
      modifies this`revisionSeq
      ensures revision == revisionSeq == CounterAfter(bumps + 1) && revision != 0
    {
      BumpCounts(bumps);
      CounterPositive(bumps + 1);
      hide CounterAfter;
      revisionSeq := (revisionSeq + 1) % W;
      if revisionSeq == 0 {
        revisionSeq := 1;
      }
      revision := revisionSeq;
    }

    /** A later material for a slot takes the place of an earlier one. */
    method DropSpare(cells: seq<Cell>, bytes: int, s: nat) returns (cells': seq<Cell>, bytes': int)
      requires s < |cells| && (cells[s] != null ==> cells[s] in live)
      modifies this`live
      ensures cells' == cells[s := null] && bytes' == bytes - CellBytes(Held(cells[s]))
      ensures live == Without(old(live), cells[s])
    {
      cells', bytes' := cells, bytes;
      if cells[s] != null {
        bytes' := bytes' - cells[s].record.Bytes();
        Free(cells[s]);
        cells' := cells'[s := null];
      }
    }

    /** One turn of the loop of `replace_create_object_material_states`. */
    method AddSpare(cells: seq<Cell>, bytes: int, m: Material, a: Alloc, generation: word, retained: int,
                    ghost row: Row, ghost bumps: nat)
        returns (cells': seq<Cell>, bytes': int, ok: bool)
      requires Spares(cells, row, live) && bytes == RowBytes(row) && revisionSeq == CounterAfter(bumps)
        && generation != 0
      modifies this`live, this`revisionSeq
      ensures var b := BuildOne(row, bumps, m, a, generation, retained);
              && ok == b.ok && revisionSeq == CounterAfter(b.bumps)
              && Spares(cells', b.row, live) && (ok ==> bytes' == RowBytes(b.row))
      ensures TableKept(old(live), live)
    {
      hide RowBytes, CounterAfter, MakeRecord, Spares, StandsFor, OwnedAt;
      var revision := BumpRevision(bumps);
      ok, cells', bytes' := false, cells, bytes;
      var x := Allocate(m, generation, revision, a);
      if x == null {
        return;
      }
      RowBytesUpdate(row, m.slot, None);
      SpareDropped(cells, row, old(live), m.slot);
      SpareAt(cells, row, old(live), m.slot);
      var last := cells[m.slot];
      cells', bytes' := DropSpare(cells, bytes, m.slot);
      NewcomerLeaves(old(live), x, last, m.slot);
      if retained > TEXT_BUDGET || bytes' + x.record.Bytes() > TEXT_BUDGET - retained {
        Free(x);
        return;
      }
      RowBytesUpdate(row[m.slot := None], m.slot, Some(x.record));
      SpareAdded(cells', row[m.slot := None], Without(old(live), last), m.slot, x);
      bytes' := bytes' + x.record.Bytes();
      cells' := cells'[m.slot := x];
      live := live[x := Spare(m.slot)];
      ok := true;
    }

    /** The loop of `replace_create_object_material_states`: it ends at the first material that fails. */
    method BuildSpares(ms: seq<Material>, allocs: seq<Alloc>, generation: word, retained: int, ghost bumps: nat)
        returns (cells: seq<Cell>, ok: bool)
      requires |ms| == |allocs| && Settled() && revisionSeq == CounterAfter(bumps) && generation != 0
      modifies this`live, this`revisionSeq
      ensures var b := Build(ms, allocs, |ms|, generation, bumps, retained);
              ok == b.ok && revisionSeq == CounterAfter(b.bumps) && Spares(cells, b.row, live)
      ensures TableKept(old(live), live)
    {
      hide RowBytes, CounterAfter, BuildOne;
      EmptyRowBytes(Empty());
      cells, ok := EmptyCells(), true;
      var bytes, i := 0, 0;
      ghost var b := Built(Empty(), bumps, true);
      assert Spares(cells, b.row, live);
      hide Spares;
      while ok && i < |ms|
        invariant i <= |ms| && b == Build(ms, allocs, i, generation, bumps, retained) && ok == b.ok
        invariant revisionSeq == CounterAfter(b.bumps) && Spares(cells, b.row, live)
        invariant ok ==> bytes == RowBytes(b.row)
        invariant TableKept(old(live), live)
      {
        cells, bytes, ok := AddSpare(cells, bytes, ms[i], allocs[i], generation, retained, b.row, b.bumps);
        b := BuildOne(b.row, b.bumps, ms[i], allocs[i], generation, retained);
        i := i + 1;
      }
      if !ok {
        BuildStops(ms, allocs, i, generation, bumps, retained);
      }
    }

    /** The cleanup of `replace_create_object_material_states`. */
    method FreeSpares(cells: seq<Cell>, ghost row: Row)
      requires Spares(cells, row, live)
      modifies this`live
      ensures Settled() && TableKept(old(live), live)
    {
      SparesAre(cells, row, live);
      ghost var left, leftRow := cells, row;
      for i := 0 to SLOTS
        invariant |left| == SLOTS && left[i..] == cells[i..] && forall s | 0 <= s < i :: left[s] == null
        invariant Spares(left, leftRow, live) && TableKept(old(live), live)
      {
        assert cells[i] == left[i];
        SpareAt(left, leftRow, live, i);
        SpareDropped(left, leftRow, live, i);
        Free(cells[i]);
        left, leftRow := left[i := null], leftRow[i := None];
      }
    }

    lemma SparesAre(cells: seq<Cell>, row: Row, l: Ledger)
      requires Spares(cells, row, l)
      ensures |cells| == SLOTS
    {
    }

    /** A change of what is live outside the table leaves the table as it is. */
    twostate lemma StillConsistent(rows: seq<Row>)
      requires old(Consistent(rows)) && TableKept(old(live), live)
      requires slots.Length == MAX_OBJECTS && old(slots[..]) == slots[..] && textBytes == old(textBytes)
      ensures Consistent(rows)
    {
      hide TotalBytes;
      forall o | 0 <= o < MAX_OBJECTS
        ensures StandsFor(slots[o], rows[o], live, Slot(o, 0))
      {
        assert old(slots[..])[o] == slots[..][o];
        assert StandsFor(old(slots[o]), rows[o], old(live), Slot(o, 0));
      }
      forall x | x in live && live[x].Slot?
        ensures live[x].o < MAX_OBJECTS && KeptIn(slots[live[x].o], live[x].slot, x)
      {
        assert old(slots[..])[live[x].o] == slots[..][live[x].o];
      }
    }

    /** Moving one spare into its empty slot. */
    method InstallOne(o: nat, s: nat, cells: seq<Cell>, ghost row: Row, ghost rows: seq<Row>)
      requires Consistent(rows) && o < MAX_OBJECTS && s < SLOTS && rows[o][s] == None
      requires Spares(cells, row, live)
      modifies this`live, this`textBytes, slots
      ensures Consistent(rows[o := rows[o][s := row[s]]]) && Spares(cells[s := null], row[s := None], live)
    {
      hide RowBytes, TotalBytes, Tabled, Spares;
      Shape(rows);
      SpareAt(cells, row, live, s);
      SpareMoves(cells, row, live, s, o);
      if cells[s] == null {
        assert rows[o][s := None] == rows[o];
        assert rows[o := rows[o]] == rows;
        assert cells[s := null] == cells && row[s := None] == row;
        return;
      }
      Put(o, s, cells[s], textBytes + cells[s].record.Bytes(), rows);
    }

    method Install(o: nat, cells: seq<Cell>, ghost row: Row, ghost rows: seq<Row>) returns (rest: seq<Cell>)
      requires Consistent(rows) && o < MAX_OBJECTS && rows[o] == Empty() && Spares(cells, row, live)
      modifies this`live, this`textBytes, slots
      ensures Consistent(rows[o := row]) && Spares(rest, Empty(), live)
    {
      hide Consistent, Spares, RowBytes, TotalBytes;
      Shape(rows);
      SparesAre(cells, row, live);
      rest := cells;
      ghost var now, left: Row := rows, row;
      for i := 0 to SLOTS
        invariant |rest| == SLOTS && |now| == MAX_OBJECTS && now == rows[o := now[o]]
        invariant forall s | 0 <= s < SLOTS :: now[o][s] == (if s < i then row[s] else None)
        invariant forall s | 0 <= s < SLOTS :: left[s] == (if s < i then None else row[s])
        invariant Consistent(now) && Spares(rest, left, live)
      {
        InstallOne(o, i, rest, left, now);
        now := now[o := now[o][i := left[i]]];
        rest, left := rest[i := null], left[i := None];
      }
      assert now[o] == row && left == Empty();
    }

    lemma Shape(rows: seq<Row>)
      requires Consistent(rows)
      ensures |rows| == MAX_OBJECTS
    {
    }

    /** `replace_create_object_material_states`: the whole row changes, or on any failure none of it. */
    method Replace(o: nat, ms: seq<Material>, allocs: seq<Alloc>, generation: word, ghost rows: seq<Row>,
                   ghost bumps: nat)
        returns (ok: bool)
      requires Consistent(rows) && Settled() && o < MAX_OBJECTS && |ms| == |allocs| <= SLOTS
      requires revisionSeq == CounterAfter(bumps) && generation != 0
      modifies this`live, this`textBytes, this`revisionSeq, slots
      ensures var b := Build(ms, allocs, |ms|, generation, bumps, TotalBytes(rows) - RowBytes(rows[o]));
              && ok == b.ok && revisionSeq == CounterAfter(b.bumps)
              && Consistent(rows[o := if ok then b.row else rows[o]]) && Settled()
    {
      hide RowBytes, TotalBytes, CounterAfter, Spares, StandsFor, Build;
      var bytes := TextBytesOf(o, rows);
      var retained := textBytes;
      assert bytes <= retained;
      retained := if bytes <= retained then retained - bytes else 0;
      ghost var row := Build(ms, allocs, |ms|, generation, bumps, retained).row;
      var cells;
      cells, ok := BuildSpares(ms, allocs, generation, retained, bumps);
      StillConsistent(rows);
      assert rows[o := rows[o]] == rows;
      if ok {
        label L:
        ReleaseObject(o, rows);
        SparesStay(cells, row, old@L(live), live);
        ghost var cleared := rows[o := Empty()];
        TotalBytesUpdate(rows, o, Empty());
        EmptyRowBytes(Empty());
        textBytes := retained;
        cells := Install(o, cells, row, cleared);
        assert cleared[o := row] == rows[o := row];
        row := Empty();
      }
      label M:
      FreeSpares(cells, row);
      StillConsistent@M(rows[o := if ok then Build(ms, allocs, |ms|, generation, bumps, retained).row else rows[o]]);
    }

    // ----- messages

    /** `queue_object_event` */
    method Queue(e: Event)
      requires ring.Valid()
      modifies ring, ring.slots
      ensures ring.Valid() && ring.log == old(ring.log) + [e]
    {
      var number := ring.Push(e);
    }

    method BumpGeneration(ghost bumps: nat) returns (generation: word)
      requires generationSeq == CounterAfter(bumps)
      modifies this`generationSeq
      ensures generation == generationSeq == CounterAfter(bumps + 1) && generation != 0
    {
      BumpCounts(bumps);
      CounterPositive(bumps + 1);
      hide CounterAfter;
      generationSeq := (generationSeq + 1) % W;
      if generationSeq == 0 {
        generationSeq := 1;
      }
      generation := generationSeq;
    }

    /** The materials of an accepted create: replaced as a whole, or dropped. */
    method ReplaceOrDrop(o: nat, ms: seq<Material>, allocs: seq<Alloc>, scratch: bool, generation: word,
                         ghost rows: seq<Row>, ghost bumps: nat)
      requires Consistent(rows) && Settled() && o < MAX_OBJECTS && |ms| == |allocs| <= SLOTS
      requires revisionSeq == CounterAfter(bumps) && generation != 0
      modifies this`live, this`textBytes, this`revisionSeq, slots
      ensures var b := Replacement(ms, allocs, scratch, generation, bumps, TotalBytes(rows) - RowBytes(rows[o]));
              && revisionSeq == CounterAfter(b.bumps)
              && Consistent(rows[o := if b.ok then b.row else Empty()]) && Settled()
    {
      hide RowBytes, TotalBytes, CounterAfter, StandsFor, Build;
      var ok := false;
      assert rows[o := rows[o]] == rows;
      if scratch {
        ok := Replace(o, ms, allocs, generation, rows, bumps);
      }
      if !ok {
        ReleaseObject(o, rows);
      }
    }

    /** The object's own state, and the event for the consumer. */
    method Announce(o: nat, generation: word, event: Event)
      requires ring.Valid() && o < objects.Length
      modifies objects, ring, ring.slots
      ensures ring.Valid() && ring.log == old(ring.log) + [event]
      ensures objects[..] == old(objects[..])[o := Object(generation, true, Some(event))]
    {
      hide Holds, CounterAfter;
      objects[o] := objects[o].(generation := generation);
      Queue(event);
      objects[o] := objects[o].(alive := true, create := Some(event));
    }

    /** `decode_object_create_payload`, from the decoded fields of an acceptable message on. */
    method OnCreate(o: nat, model: int, ms: seq<Material>, allocs: seq<Alloc>, scratch: bool)
      requires Valid() && attached && o < MAX_OBJECTS && |ms| == |allocs| <= SLOTS
      modifies this, slots, objects, ring, ring.slots
      ensures Valid() && view == Create(old(view), o, model, ms, allocs, scratch)
    {
      hide RowBytes, TotalBytes, CounterAfter, StandsFor, Build, Holds, Invariant, Replacement;
      CreateKeeps(view, o, model, ms, allocs, scratch);
      TextIsTotal(view);
      var generation := BumpGeneration(view.generationBumps);
      ReplaceOrDrop(o, ms, allocs, scratch, generation, view.rows, view.revisionBumps);
      Announce(o, generation, Created(o, generation, model, |ms|));
      view := Create(view, o, model, ms, allocs, scratch);
    }

    /** `decode_object_destroy_payload`, from the decoded object number on. */
    method OnDestroy(o: nat)
      requires Valid() && attached && o < MAX_OBJECTS
      modifies this, slots, objects, ring, ring.slots
      ensures Valid() && view == Destroy(old(view), o)
    {
      hide RowBytes, TotalBytes, CounterAfter, StandsFor, Holds, Invariant;
      DestroyKeeps(view, o);
      TextIsTotal(view);
      Queue(Destroyed(o, objects[o].generation));
      ReleaseObject(o, view.rows);
      objects[o] := NO_OBJECT;
      view := Destroy(view, o);
      TextIsTotal(view);
    }

    /** The second half of `store_object_material_state`: the record is made, and stored if the budget allows. */
    method StoreRecord(o: nat, m: Material, a: Alloc, generation: word, ghost rows: seq<Row>, ghost bumps: nat)
        returns (revision: word)
      requires Consistent(rows) && Settled() && o < MAX_OBJECTS && m.slot < SLOTS && generation != 0
      requires revisionSeq == CounterAfter(bumps)
      modifies this`live, this`textBytes, this`revisionSeq, slots
      ensures var retained := TotalBytes(rows) - CellBytes(rows[o][m.slot]);
              var r := MakeRecord(m, generation, CounterAfter(bumps + 1));
              && revisionSeq == CounterAfter(bumps + 1) && Settled()
              && (revision != 0 <==> Makes(m, a) && retained + r.Bytes() <= TEXT_BUDGET)
              && Consistent(if revision == 0 then rows else rows[o := rows[o][m.slot := Some(r)]])
              && (revision != 0 ==> revision == CounterAfter(bumps + 1))
    {
      hide RowBytes, TotalBytes, CounterAfter, MakeRecord, Tabled;
      CellHeld(o, m.slot, rows);
      var previous := slots[o][m.slot];
      var retained := textBytes;
      if previous != null {
        assert previous.record.Bytes() <= retained;
        retained := if previous.record.Bytes() <= retained then retained - previous.record.Bytes() else 0;
      }
      var number := BumpRevision(bumps);
      label L:
      var x := Allocate(m, generation, number, a);
      StillConsistent@L(rows);
      if x == null {
        return 0;
      }
      label M:
      if retained > TEXT_BUDGET || x.record.Bytes() > TEXT_BUDGET - retained {
        Free(x);
        StillConsistent@M(rows);
        return 0;
      }
      ReleaseSlot(o, m.slot, rows);
      Put(o, m.slot, x, retained + x.record.Bytes(), rows[o := rows[o][m.slot := None]]);
      assert rows[o := rows[o][m.slot := None]][o := rows[o][m.slot := None][m.slot := Some(x.record)]]
          == rows[o := rows[o][m.slot := Some(x.record)]] by {
        assert rows[o][m.slot := None][m.slot := Some(x.record)] == rows[o][m.slot := Some(x.record)];
      }
      revision := number;
    }

    lemma CellHeld(o: nat, s: nat, rows: seq<Row>)
      requires Consistent(rows) && o < MAX_OBJECTS && s < SLOTS
      ensures slots.Length == |rows| == MAX_OBJECTS && |slots[o]| == SLOTS
      ensures Held(slots[o][s]) == rows[o][s] && CellBytes(rows[o][s]) <= textBytes
      ensures slots[o][s] != null ==> slots[o][s] in live && live[slots[o][s]] == Slot(o, s)
    {
      hide RowBytes, TotalBytes, Tabled;
      TableAt(slots[..], rows, live, o, s);
      RowBytesUpdate(rows[o], s, None);
      TotalBytesUpdate(rows, o, rows[o]);
    }

    /** Storing an allocation that is not yet in the table into an empty slot. */
    method Put(o: nat, s: nat, x: MaterialState, total: int, ghost rows: seq<Row>)
      requires Consistent(rows) && o < MAX_OBJECTS && s < SLOTS && rows[o][s] == None
      requires x in live && !live[x].Slot? && total == textBytes + x.record.Bytes()
      modifies this`live, this`textBytes, slots
      ensures Consistent(rows[o := rows[o][s := Some(x.record)]]) && live == old(live)[x := Slot(o, s)]
    {
      hide RowBytes, TotalBytes, Tabled;
      Shape(rows);
      RowBytesUpdate(rows[o], s, Some(x.record));
      TotalBytesUpdate(rows, o, rows[o][s := Some(x.record)]);
      TableGains(slots[..], rows, live, o, s, x);
      ghost var table := slots[..];
      textBytes := total;
      slots[o] := slots[o][s := x];
      assert slots[..] == table[o := table[o][s := x]];
      live := live[x := Slot(o, s)];
    }

    /** `decode_set_object_material_payload` and `set_object_material_event`, from the decoded fields on. */
    method OnMaterial(o: nat, m: Material, a: Alloc) returns (accepted: bool)
      requires Valid() && attached
      modifies this, slots, objects, ring, ring.slots
      ensures Valid() && view == SetMaterial(old(view), o, m, a) && accepted == (view.log != old(view.log))
    {
      hide RowBytes, TotalBytes, CounterAfter, StandsFor, Holds, Invariant, Cut;
      SetMaterialKeeps(view, o, m, a);
      TextIsTotal(view);
      if o >= MAX_OBJECTS || m.slot >= SLOTS {
        return false;
      }
      var generation := objects[o].generation;
      if generation == 0 {
        return false;
      }
      CellHeld(o, m.slot, view.rows);
      var revision := StoreRecord(o, m, a, generation, view.rows, view.revisionBumps);
      if revision != 0 {
        Queue(MaterialSet(o, generation, m.slot, revision, m.kind, m.look.source));
      }
      view := SetMaterial(view, o, m, a);
      accepted := revision != 0;
    }

    /** Every other object event: it carries the object's generation. */
    method OnOther(o: nat, action: nat)
      requires Valid() && attached
      modifies this, ring, ring.slots
      ensures Valid() && view == Step(old(view), GetOther(o, action))
    {
      hide RowBytes, TotalBytes, CounterAfter, StandsFor, Holds, Invariant;
      TextIsTotal(view);
      StepKeeps(view, GetOther(o, action));
      Queue(Other(o, if o < MAX_OBJECTS then objects[o].generation else 0, action));
      view := Step(view, GetOther(o, action));
    }

    /** `reset_rpc_probe_runtime` */
    method OnReset()
      requires Valid()
      modifies this, slots, objects, ring, ring.slots
      ensures Valid() && view == Fresh() && live == map[]
    {
      hide RowBytes, TotalBytes, StandsFor, Holds, Invariant;
      TextIsTotal(view);
      FreshKeeps();
      ReleaseAll(view.rows);
      attached := true;
      ring.Clear();
      for i := 0 to MAX_OBJECTS
        modifies objects
        invariant forall j | 0 <= j < i :: objects[j] == NO_OBJECT
      {
        objects[i] := NO_OBJECT;
      }
      generationSeq, revisionSeq := 0, 0;
      view := Fresh();
      assert objects[..] == view.objects;
    }

    /** `samp_raknet_client_destroy`, for the client the store belongs to. */
    method OnDestroyClient()
      requires Valid() && attached
      modifies this, slots, objects
      ensures Valid() && view == Detach(old(view)) && live == map[]
    {
      hide RowBytes, TotalBytes, StandsFor, Holds, Invariant;
      TextIsTotal(view);
      DetachKeeps(view);
      ReleaseAll(view.rows);
      for i := 0 to MAX_OBJECTS
        modifies objects
        invariant forall j | 0 <= j < i :: objects[j] == view.objects[j].(generation := 0)
        invariant forall j | i <= j < MAX_OBJECTS :: objects[j] == view.objects[j]
      {
        objects[i] := objects[i].(generation := 0);
      }
      generationSeq, revisionSeq, attached := 0, 0, false;
      view := Detach(view);
      assert objects[..] == view.objects;
    }

    // ----- queries

    /** `samp_raknet_client_get_object_material` */
    method GetMaterial(o: nat, generation: word, s: nat, minimum: word) returns (answer: Answer)
      requires Valid()
      ensures Shaped(view) && answer == Lookup(view, o, generation, s, minimum)
    {
      hide RowBytes, TotalBytes, CounterAfter, Holds, Invariant;
      TextIsTotal(view);
      if !attached || o >= MAX_OBJECTS || s >= SLOTS {
        return BadCall;
      }
      assert StandsFor(slots[o], view.rows[o], live, Slot(o, 0));
      var state := slots[o][s];
      if state == null || generation == 0 || state.record.generation != generation {
        return Gone;
      }
      if minimum != 0 && state.record.revision < minimum {
        return Behind(state.record.revision);
      }
      answer := Found(state.record);
    }

    /** `samp_raknet_client_get_object_lifecycle` */
    method GetLifecycle(o: nat) returns (life: Life)
      requires Valid()
      ensures Shaped(view) && life == Lifecycle(view, o)
    {
      hide RowBytes, TotalBytes, CounterAfter, Holds, Invariant, StandsFor;
      TextIsTotal(view);
      if !attached || o >= MAX_OBJECTS {
        return LifeBadCall;
      }
      if !objects[o].alive {
        return NotAlive;
      }
      var create := objects[o].create;
      if create.None? || !create.value.Created? || create.value.id != o || create.value.generation == 0 {
        return Inconsistent;
      }
      life := Alive(create.value);
    }

    method Perform(a: Action)
      requires Valid()
      modifies this, slots, objects, ring, ring.slots
      ensures Valid() && Shaped(old(view)) && view == Step(old(view), a)
    {
      hide Consistent, Invariant, Create, Destroy, SetMaterial, Detach, Fresh, Holds;
      TextIsTotal(view);
      match a {
        case GetCreate(o, model, ms, allocs, scratch) =>
          if attached && o < MAX_OBJECTS && |ms| == |allocs| <= SLOTS {
            OnCreate(o, model, ms, allocs, scratch);
          }
        case GetDestroy(o) =>
          if attached && o < MAX_OBJECTS {
            OnDestroy(o);
          }
        case GetMaterial(o, m, alloc) =>
          if attached {
            var accepted := OnMaterial(o, m, alloc);
          }
        case GetOther(o, action) =>
          if attached {
            OnOther(o, action);
          }
        case Reset => OnReset();
        case DestroyClient =>
          if attached {
            OnDestroyClient();
          }
      }
    }
  }

  lemma SparesStay(cells: seq<Cell>, row: Row, before: Ledger, after: Ledger)
    requires Spares(cells, row, before) && OnlyTableFreed(before, after)
    ensures Spares(cells, row, after)
  {
    forall s | 0 <= s < SLOTS
      ensures cells[s] != null ==> OwnedAt(after, cells[s], Spare(0), s)
    {
      assert cells[s] != null ==> OwnedAt(before, cells[s], Spare(0), s);
    }
  }

  /** The store after any run is what the run of the steps says, and nothing is live outside its table. */
  method Run(actions: seq<Action>) returns (store: Store)
    ensures fresh(store) && store.Valid() && store.view == RunOf(actions)
    ensures forall x | x in store.live :: store.live[x].Slot?
  {
    store := new Store();
    for i := 0 to |actions|
      invariant fresh(store) && fresh(store.slots) && fresh(store.objects) && fresh(store.ring)
        && fresh(store.ring.slots)
      invariant store.Valid() && store.view == RunOf(actions[..i])
    {
      assert actions[..i + 1][..i] == actions[..i];
      store.Perform(actions[i]);
    }
    assert actions[..|actions|] == actions;
  }
}
