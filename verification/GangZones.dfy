/** Gang zones: every message for a valid zone is queued and numbers its slot, whether or not the zone is active. */
module GangZones {
  import opened Words
  import opened EventRing
  import opened Recovery

  const MAX_ZONES: nat := 1024
  const ZONE_RING: nat := 128

  /** Bounds are bit patterns of four floats, never computed with. */
  datatype Bounds = Bounds(minX: word, minY: word, maxX: word, maxY: word)

  datatype Zone = Zone(active: bool, bounds: Bounds, baseColor: word, alternateColor: word)

  const NO_ZONE: Zone := Zone(false, Bounds(0, 0, 0, 0), 0, 0)

  datatype Event = Create(bounds: Bounds, color: word) | Destroy | Flash(color: word) | StopFlash

  function Apply(z: Zone, e: Event): Zone {
    match e
    case Create(bounds, color) => Zone(true, bounds, color, color)
    case Destroy => NO_ZONE
    case Flash(color) => if z.active then z.(alternateColor := color) else z
    case StopFlash => if z.active then z.(alternateColor := z.baseColor) else z
  }

  function Current(log: seq<Update<Event>>): seq<Revised<Zone>> {
    Fold(log, NO_ZONE, Apply, MAX_ZONES)
  }

  datatype Snapshot = Snapshot(events: seq<Numbered<Update<Event>>>, zones: seq<Revised<Zone>>, stateNumber: word)

  ghost predicate SnapshotOf(snapshot: Snapshot, log: seq<Update<Event>>) {
    && NewestOf(snapshot.events, log, CounterAfter(|log|), ZONE_RING)
    && snapshot.zones == Current(log) && snapshot.stateNumber == CounterAfter(|log|)
  }

  class Store {
    const ring: Ring<Update<Event>>
    const zones: array<Revised<Zone>>
    var stateNumber: word

    ghost predicate Valid()
      reads this, ring, ring.slots, zones
    {
      && ring.Valid() && ring.slots.Length == ZONE_RING && zones.Length == MAX_ZONES
      && zones[..] == Current(ring.log) && stateNumber == ring.counter
    }

    constructor ()
      ensures Valid() && ring.log == [] && fresh(ring) && fresh(ring.slots) && fresh(zones)
    {
      ring := new Ring<Update<Event>>(ZONE_RING);
      zones := new Revised<Zone>[MAX_ZONES](_ => Revised(0, NO_ZONE));
      stateNumber := 0;
      new;
      assert zones[..] == Current([]);
    }

    /** `queue_gang_zone_event`, for the zone numbers `decode_gang_zone_payload` lets through;
        `plausible` stands for its other tests. */
    method Receive(id: nat, e: Event, plausible: bool)
      requires Valid()
      modifies this, ring, ring.slots, zones
      ensures Valid()
      ensures ring.log == if id < MAX_ZONES && plausible then old(ring.log) + [Update(id, e)] else old(ring.log)
    {
      hide Fold;
      if id >= MAX_ZONES || !plausible {
        return;
      }
      ghost var before := zones[..];
      LogGrows(ring.log, id, e);
      var number := ring.Push(Update(id, e));
      match e {
        case Create(bounds, color) =>
          zones[id] := Revised(0, NO_ZONE);
          zones[id] := zones[id].(state := Zone(true, bounds, color, color));
        case Destroy =>
          zones[id] := Revised(0, NO_ZONE);
        case Flash(color) =>
          if zones[id].state.active {
            zones[id] := zones[id].(state := zones[id].state.(alternateColor := color));
          }
        case StopFlash =>
          if zones[id].state.active {
            zones[id] := zones[id].(state := zones[id].state.(alternateColor := zones[id].state.baseColor));
          }
      }
      zones[id] := zones[id].(revision := number);
      stateNumber := number;
      assert zones[id] == Revised(number, Apply(before[id].state, e));
      assert zones[..] == before[id := zones[id]];
    }

    /** The gang-zone part of a snapshot: the ring read by its loop, and a copy of every slot. */
    method TakeSnapshot() returns (snapshot: Snapshot)
      requires Valid()
      ensures SnapshotOf(snapshot, ring.log)
    {
      hide Fold, Holds, CounterAfter;
      var events := ring.Snapshot();
      snapshot := Snapshot(events, zones[..], stateNumber);
    }
  }

  lemma LogGrows(log: seq<Update<Event>>, id: nat, e: Event)
    requires id < MAX_ZONES
    ensures Current(log + [Update(id, e)]) ==
            Current(log)[id := Revised(CounterAfter(|log| + 1), Apply(Current(log)[id].state, e))]
  {
    assert (log + [Update(id, e)])[..|log|] == log;
  }

  /** Every zone is the fold of its own events, whatever the other zones received. */
  lemma ZoneIsFold(log: seq<Update<Event>>, id: nat)
    requires id < MAX_ZONES
    ensures Current(log)[id].state == FoldEvents(EventsOf(log, id), NO_ZONE, Apply)
  {
    SlotIsFold(log, NO_ZONE, Apply, MAX_ZONES, id);
  }

  /** While a zone is active, its base colour is that of its creation, and flashing never changes it. */
  lemma {:induction false} FlashingKeepsBase(z: Zone, events: seq<Event>)
    requires z.active && forall k | 0 <= k < |events| :: events[k].Flash? || events[k].StopFlash?
    ensures var after := FoldEvents(events, z, Apply);
            && after.active && after.bounds == z.bounds && after.baseColor == z.baseColor
            && (events != [] && events[|events| - 1].StopFlash? ==> after.alternateColor == z.baseColor)
    decreases |events|
  {
    if events != [] {
      FlashingKeepsBase(z, events[..|events| - 1]);
    }
  }

  // ----- what can be said of a zone from the messages alone

  /** No zone is there before a create, or after a destroy with no create since. */
  lemma {:induction false} GoneUntilCreated(log: seq<Update<Event>>, id: nat, k: nat)
    requires id < 1024 && k <= |log|
    requires k == 0 || log[k - 1] == Update(id, Destroy)
    requires forall j | k <= j < |log| && log[j].target == id :: !log[j].event.Create?
    ensures Current(log)[id].state == NO_ZONE && !NO_ZONE.active
    decreases |log|
  {
    hide CounterAfter;
    if log != [] && k < |log| {
      var front := log[..|log| - 1];
      assert forall j | 0 <= j < |front| :: front[j] == log[j];
      GoneUntilCreated(front, id, k);
    }
  }

  /**
   * From its last create on, a zone has the bounds and the base colour of that message; the colour shown is that of the
   * last flash, if no stop came after it, and the base colour otherwise.
   */
  lemma {:induction false} LastCreateDecides(log: seq<Update<Event>>, id: nat, k: nat, last: nat)
    requires id < 1024 && k <= last < |log| && log[k].target == log[last].target == id && log[k].event.Create?
    requires forall j | k < j < |log| && log[j].target == id :: !log[j].event.Create? && !log[j].event.Destroy?
    requires forall j | last < j < |log| :: log[j].target != id
    ensures var (z, e) := (Current(log)[id].state, log[k].event);
            && z.active && z.bounds == e.bounds && z.baseColor == e.color
            && z.alternateColor == if log[last].event.Flash? then log[last].event.color else e.color
    decreases |log|
  {
    hide CounterAfter;
    var front := log[..|log| - 1];
    if k < |log| - 1 {
      assert forall j | 0 <= j < |front| :: front[j] == log[j];
      if last < |log| - 1 {
        LastCreateDecides(front, id, k, last);
      } else {
        var before := LastBefore(front, id, k);
        LastCreateDecides(front, id, k, before);
      }
    }
  }

  lemma {:induction false} LastBefore(log: seq<Update<Event>>, id: nat, k: nat) returns (last: nat)
    requires k < |log| && log[k].target == id
    ensures k <= last < |log| && log[last].target == id && forall j | last < j < |log| :: log[j].target != id
    decreases |log|
  {
    last := |log| - 1;
    if log[last].target != id {
      last := LastBefore(log[..last], id, k);
      assert forall j | 0 <= j < |log| - 1 :: log[..|log| - 1][j] == log[j];
    }
  }

  /** A snapshot holds the last 128 events, or all while there are fewer. */
  lemma SnapshotHolds(snapshot: Snapshot, log: seq<Update<Event>>)
    requires SnapshotOf(snapshot, log)
    ensures |log| <= 128 ==> |snapshot.events| == |log|
    ensures 128 <= |log| < W ==> |snapshot.events| == 128
    ensures |log| < W ==>
      forall k | 0 <= k < |snapshot.events| :: snapshot.events[k].event == log[|log| - |snapshot.events| + k]
  {
    BumpCounts(|log|);
    hide CounterAfter, Fold;
    if |log| < W {
      forall k | 0 <= k < |snapshot.events|
        ensures snapshot.events[k].event == log[|log| - |snapshot.events| + k]
      {
        EventsAgree(snapshot.events, log, ZONE_RING, k);
      }
    }
  }
}
