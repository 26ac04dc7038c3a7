/** The consumer's copy of the gang zones, brought up to date from one snapshot to the next. */
module ZoneMirror {
  import opened Words
  import opened EventRing
  import opened Recovery
  import opened GangZones

  /** Bounds in the order the game wants them. */
  datatype Corners = Corners(left: word, top: word, right: word, bottom: word)

  datatype MirrorZone = MirrorZone(active: bool, revision: word, corners: Corners, baseColor: word,
                                   alternateColor: word)

  const NO_MIRROR: MirrorZone := MirrorZone(false, 0, Corners(0, 0, 0, 0), 0, 0)

  /** `gang_zone_compat_store_bounds` */
  function Reordered(b: Bounds): Corners {
    Corners(b.minX, b.maxY, b.maxX, b.minY)
  }

  /** What the mirror should hold of a zone. */
  function Taken(r: Revised<Zone>): MirrorZone {
    if !r.state.active then NO_MIRROR
    else MirrorZone(true, r.revision, Reordered(r.state.bounds), r.state.baseColor, r.state.alternateColor)
  }

  function AllTaken(zones: seq<Revised<Zone>>): (mirror: seq<MirrorZone>)
    ensures |mirror| == |zones| && forall i | 0 <= i < |zones| :: mirror[i] == Taken(zones[i])
  {
    seq(|zones|, i requires 0 <= i < |zones| => Taken(zones[i]))
  }

  /** What an event does to the mirror of its zone. */
  function ApplyEvent(z: MirrorZone, number: word, e: Event): MirrorZone {
    match e
    case Create(bounds, color) => MirrorZone(true, number, Reordered(bounds), color, color)
    case Destroy => NO_MIRROR
    case Flash(color) => if z.active then z.(revision := number, alternateColor := color) else z
    case StopFlash => if z.active then z.(revision := number, alternateColor := z.baseColor) else z
  }

  /** What a synchronised mirror that stands at number `c0` becomes. */
  function Updated(mirror: seq<MirrorZone>, c0: word, snapshot: Snapshot): seq<MirrorZone> {
    var (c1, n) := (snapshot.stateNumber, |snapshot.events|);
    if c1 == c0 then mirror
    else if c1 < c0 || c1 - c0 > n then AllTaken(snapshot.zones)
    else Replayed(mirror, snapshot.events[n - (c1 - c0)..], ApplyEvent)
  }

  function ActiveCount(mirror: seq<MirrorZone>): nat {
    if mirror == [] then 0
    else ActiveCount(mirror[..|mirror| - 1]) + if mirror[|mirror| - 1].active then 1 else 0
  }

  lemma {:induction false} ActiveCountUpdate(mirror: seq<MirrorZone>, i: nat, z: MirrorZone)
    requires i < |mirror|
    ensures ActiveCount(mirror[i := z]) ==
            ActiveCount(mirror) - (if mirror[i].active then 1 else 0) + (if z.active then 1 else 0)
    ensures mirror[i].active ==> ActiveCount(mirror) > 0
    decreases |mirror|
  {
    var last := |mirror| - 1;
    if i < last {
      ActiveCountUpdate(mirror[..last], i, z);
      assert mirror[i := z][..last] == mirror[..last][i := z];
    } else {
      assert mirror[i := z][..last] == mirror[..last];
    }
  }

  class Mirror {
    const zones: array<MirrorZone>
    var eventNumber: word
    var synced: bool
    var activeCount: int

    ghost predicate Valid()
      reads this, zones
    {
      zones.Length == MAX_ZONES && activeCount == ActiveCount(zones[..])
    }

    constructor ()
      ensures Valid() && !synced && fresh(zones)
    {
      zones := new MirrorZone[MAX_ZONES](_ => NO_MIRROR);
      eventNumber, synced, activeCount := 0, false, 0;
      new;
      NoneActive(zones[..]);
    }

    lemma {:induction false} NoneActive(m: seq<MirrorZone>)
      requires forall i | 0 <= i < |m| :: !m[i].active
      ensures ActiveCount(m) == 0
      decreases |m|
    {
      if m != [] { NoneActive(m[..|m| - 1]); }
    }

    /** `gang_zone_compat_decrement_active_count`: the count never falls below zero, so the correction is dead. */
    method DecrementActiveCount()
      requires activeCount > 0
      modifies this`activeCount
      ensures activeCount == old(activeCount) - 1
    {
      activeCount := activeCount - 1;
      activeCount := if activeCount < 0 then 0 else activeCount;
    }

    /** `gang_zone_compat_apply_event`; the test of the bounds repeats the decoder's, which the event has passed. */
    method ApplyToSlot(u: Numbered<Update<Event>>)
      requires Valid() && u.number != 0
      modifies this`activeCount, zones
      ensures Valid() && zones[..] == Applied(old(zones[..]), u, ApplyEvent)
    {
      var id := u.event.target;
      if id >= MAX_ZONES {
        return;
      }
      ghost var before := zones[..];
      var wasActive := zones[id].active;
      ActiveCountUpdate(before, id, ApplyEvent(before[id], u.number, u.event.event));
      match u.event.event {
        case Create(bounds, color) =>
          zones[id] := MirrorZone(true, u.number, Reordered(bounds), color, color);
          if !wasActive {
            activeCount := activeCount + 1;
          }
        case Destroy =>
          zones[id] := NO_MIRROR;
          if wasActive {
            DecrementActiveCount();
          }
        case Flash(color) =>
          if wasActive {
            zones[id] := zones[id].(revision := u.number, alternateColor := color);
          }
        case StopFlash =>
          if wasActive {
            zones[id] := zones[id].(revision := u.number, alternateColor := zones[id].baseColor);
          }
      }
      assert zones[..] == before[id := zones[id]];
    }

    /** `gang_zone_compat_resync_from_snapshot`: every slot is cleared and then the active zones are taken over. */
    method Resync(snapshot: Snapshot)
      requires Valid() && |snapshot.zones| == MAX_ZONES
      modifies this, zones
      ensures Valid() && synced && eventNumber == snapshot.stateNumber && zones[..] == AllTaken(snapshot.zones)
    {
      for i := 0 to MAX_ZONES
        invariant forall j | 0 <= j < i :: zones[j] == NO_MIRROR
      {
        zones[i] := NO_MIRROR;
      }
      var count := 0;
      for i := 0 to MAX_ZONES
        invariant forall j | 0 <= j < i :: zones[j] == Taken(snapshot.zones[j])
        invariant forall j | i <= j < MAX_ZONES :: zones[j] == NO_MIRROR
        invariant count == ActiveCount(zones[..i])
      {
        var state := snapshot.zones[i];
        ghost var done := zones[..i];
        if state.state.active {
          zones[i] := MirrorZone(true, state.revision, Reordered(state.state.bounds), state.state.baseColor,
                                 state.state.alternateColor);
          count := count + 1;
        }
        assert zones[..i + 1][..i] == done;
      }
      assert zones[..MAX_ZONES] == zones[..];
      activeCount, eventNumber, synced := count, snapshot.stateNumber, true;
    }

    /** `gang_zone_compat_update_from_snapshot`: no update, an update event by event, or a copy of every slot. */
    method UpdateFromSnapshot(snapshot: Snapshot, ghost log: seq<Update<Event>>)
      requires Valid() && SnapshotOf(snapshot, log)
      modifies this, zones
      ensures Valid() && synced && eventNumber == snapshot.stateNumber
      ensures zones[..] == if old(synced) then Updated(old(zones[..]), old(eventNumber), snapshot)
        else AllTaken(snapshot.zones)
    {
      hide CounterAfter, Fold;
      if !synced {
        Resync(snapshot);
        return;
      }
      var previous := eventNumber;
      if snapshot.stateNumber == previous {
        return;
      }
      if snapshot.stateNumber < previous {
        Resync(snapshot);
        return;
      }
      ReplayLoop(snapshot, log);
    }

    /** The rest of it: the events after the last one seen, unless the ring no longer holds them all. */
    method ReplayLoop(snapshot: Snapshot, ghost log: seq<Update<Event>>)
      requires Valid() && synced && SnapshotOf(snapshot, log) && eventNumber < snapshot.stateNumber
      modifies this, zones
      ensures Valid() && synced && eventNumber == snapshot.stateNumber
      ensures zones[..] == Updated(old(zones[..]), old(eventNumber), snapshot)
    {
      hide CounterAfter, Fold, ActiveCount, Applied, Replayed;
      var expected := eventNumber + 1;
      var events := snapshot.events;
      ghost var missed := snapshot.stateNumber - eventNumber;
      ghost var from := |events| - missed;
      ghost var before, done := zones[..], [];
      ReplayedNone(before, ApplyEvent);
      var i := 0;
      while i < |events|
        invariant i <= |events| && Valid() && synced && eventNumber == old(eventNumber) && (from < 0 ==> i == 0)
        invariant |done| == if 0 <= from < i then i - from else 0
        invariant from >= 0 ==> done == events[from..from + |done|]
        invariant expected == eventNumber + 1 + |done| && zones[..] == Replayed(before, done, ApplyEvent)
      {
        if events[i].number >= expected {
          if events[i].number != expected {
            Resync(snapshot);
            return;
          }
          ReplayedOneMore(before, done, events[i], ApplyEvent);
          done := done + [events[i]];
          ApplyToSlot(events[i]);
          expected := expected + 1;
        }
        i := i + 1;
      }
      assert expected - 1 == snapshot.stateNumber;
      assert done == events[from..];
      eventNumber := snapshot.stateNumber;
    }
  }

  // ----- when an update is enough

  /** Whether an update from number `c0` to `c1` copies every slot. */
  predicate Resyncs(c0: word, c1: word) {
    c1 < c0 || c1 - c0 > Least(c1, ZONE_RING)
  }

  /** A mirror that was right after `s` events is right again after the update. */
  ghost predicate CaughtUp(log: seq<Update<Event>>, snapshot: Snapshot, s: nat)
    requires s <= |log|
  {
    SnapshotOf(snapshot, log) ==>
      Updated(AllTaken(Current(log[..s])), CounterAfter(s), snapshot) == AllTaken(Current(log))
  }

  /** Applying an event to what should be held of a zone gives what should be held of it afterwards. */
  lemma StepAgrees(r: Revised<Zone>, number: word, e: Event)
    ensures ApplyEvent(Taken(r), number, e) == Taken(Revised(number, Apply(r.state, e)))
  {
  }

  lemma AppliedAgrees(log: seq<Update<Event>>, u: Numbered<Update<Event>>)
    requires log != [] && u == Numbered(CounterAfter(|log|), log[|log| - 1])
    ensures Applied(AllTaken(Current(log[..|log| - 1])), u, ApplyEvent) == AllTaken(Current(log))
  {
    hide CounterAfter, Taken, ApplyEvent, Apply;
    var before := Current(log[..|log| - 1]);
    if u.event.target < MAX_ZONES {
      StepAgrees(before[u.event.target], u.number, u.event.event);
    }
  }

  lemma {:induction false} ReplayAgrees(log: seq<Update<Event>>, s: nat, events: seq<Numbered<Update<Event>>>)
    requires NewestOf(events, log, CounterAfter(|log|), ZONE_RING) && s <= |log| <= s + |events|
    ensures Replayed(AllTaken(Current(log[..s])), events[|events| - (|log| - s)..], ApplyEvent) ==
      AllTaken(Current(log))
  {
    hide CounterAfter, NewestOf, Current, AllTaken, Applied;
    var from := |events| - (|log| - s);
    for n := s to |log|
      invariant Replayed(AllTaken(Current(log[..s])), events[from..from + (n - s)], ApplyEvent)
                == AllTaken(Current(log[..n]))
    {
      var k := from + (n - s);
      assert events[from..k + 1][..n - s] == events[from..k];
      assert log[..n + 1][..n] == log[..n];
      NumbersAgree(events, log, ZONE_RING, k);
      EventsAgree(events, log, ZONE_RING, k);
      AppliedAgrees(log[..n + 1], events[k]);
    }
    assert events[from..|events|] == events[from..] && log[..|log|] == log;
  }

  /** A mirror catches up if fewer than 2^32 - 1 events have come since, and also whenever every slot is copied. */
  lemma CatchesUp(log: seq<Update<Event>>, snapshot: Snapshot, s: nat)
    requires s <= |log| && (|log| - s < W - 1 || Resyncs(CounterAfter(s), CounterAfter(|log|)))
    ensures CaughtUp(log, snapshot, s)
  {
    hide CounterAfter, Current, AllTaken, Replayed;
    if SnapshotOf(snapshot, log) {
      var (c0, c1) := (CounterAfter(s), CounterAfter(|log|));
      if !Resyncs(c0, c1) {
        CounterDistance(s, |log| - s);
        if c1 == c0 {
          assert log[..s] == log;
        } else {
          ReplayAgrees(log, s, snapshot.events);
        }
      }
    }
  }

  // ----- and that nothing less is

  const NOWHERE: Bounds := Bounds(0, 0, 0, 0)

  /** A log in which zone 0 is created as event `m + 1` and all other events are for zone 1. */
  function Distracted(m: nat, n: nat): (log: seq<Update<Event>>)
    ensures |log| == n && forall i | 0 <= i < n ::
      log[i] == if i == m then Update(0, Create(NOWHERE, 0)) else Update(1, Destroy)
  {
    seq(n, i => if i == m then Update(0, Create(NOWHERE, 0)) else Update(1, Destroy))
  }

  lemma {:induction false} DistractedZone(m: nat, n: nat)
    ensures Current(Distracted(m, n))[0].state.active == (m < n)
    decreases n
  {
    hide CounterAfter;
    if n > 0 {
      assert Distracted(m, n)[..n - 1] == Distracted(m, n - 1);
      DistractedZone(m, n - 1);
    }
  }

  /** The snapshot of a log. */
  ghost function TheSnapshot(log: seq<Update<Event>>): (snapshot: Snapshot)
    ensures SnapshotOf(snapshot, log)
  {
    Snapshot(TheNewest(log, ZONE_RING), Current(log), CounterAfter(|log|))
  }

  lemma FallsBehind(m: nat, n: nat)
    requires n >= W - 1 && !Resyncs(CounterAfter(m), CounterAfter(m + n))
    ensures !CaughtUp(Distracted(m, m + n), TheSnapshot(Distracted(m, m + n)), m)
  {
    var log := Distracted(m, m + n);
    hide CounterAfter, Current, Distracted, TheSnapshot, Replayed;
    assert log[..m] == Distracted(m, m);
    DistractedZone(m, m + n);
    DistractedZone(m, m);
    ZoneZeroUntouched(m, n, TheSnapshot(log));
  }

  lemma ZoneZeroUntouched(m: nat, n: nat, snapshot: Snapshot)
    requires n >= W - 1 && !Resyncs(CounterAfter(m), CounterAfter(m + n)) && SnapshotOf(snapshot, Distracted(m, m + n))
    ensures var mirror := AllTaken(Current(Distracted(m, m)));
            Updated(mirror, CounterAfter(m), snapshot)[0] == mirror[0]
  {
    var log := Distracted(m, m + n);
    hide CounterAfter, Current, Distracted, Replayed, Taken;
    var from := |snapshot.events| - (CounterAfter(m + n) - CounterAfter(m));
    forall i | from <= i < |snapshot.events|
      ensures snapshot.events[i].event.target == 1
    {
      EventsAgree(snapshot.events, log, ZONE_RING, i);
    }
    OthersReplayed(AllTaken(Current(Distracted(m, m))), snapshot.events[from..], ApplyEvent, 0);
  }

  /** For instance, 2^32 - 1 events after the first one: the number is the same again, and nothing is updated. */
  lemma FallsBehindAtWrap()
    ensures !CaughtUp(Distracted(1, W), TheSnapshot(Distracted(1, W)), 1)
  {
    BumpCounts(1);
    assert CounterAfter(W) == 1;
    FallsBehind(1, W - 1);
  }

  /** Exactly when an update is enough, whatever the events were. */
  lemma CatchesUpExactly(m: nat, n: nat)
    ensures (forall log: seq<Update<Event>>, snapshot | |log| == m + n :: CaughtUp(log, snapshot, m)) <==>
            n < W - 1 || Resyncs(CounterAfter(m), CounterAfter(m + n))
  {
    hide CounterAfter, CaughtUp;
    if n < W - 1 || Resyncs(CounterAfter(m), CounterAfter(m + n)) {
      forall log: seq<Update<Event>>, snapshot | |log| == m + n
        ensures CaughtUp(log, snapshot, m)
      {
        CatchesUp(log, snapshot, m);
      }
    } else {
      FallsBehind(m, n);
    }
  }

  // ----- a session

  datatype Message = Message(id: nat, event: Event, plausible: bool)

  /** The messages received between two snapshots, and the update from the second. */
  method Turn(store: Store, mirror: Mirror, batch: seq<Message>)
    requires store.Valid() && mirror.Valid() && |batch| < W - 1
    requires {store, store.ring, store.ring.slots, store.zones} !! {mirror, mirror.zones}
    requires mirror.synced ==> mirror.zones[..] == AllTaken(store.zones[..]) && mirror.eventNumber == store.ring.counter
    modifies store, store.ring, store.ring.slots, store.zones, mirror, mirror.zones
    ensures store.Valid() && mirror.Valid() && mirror.synced
    ensures mirror.zones[..] == AllTaken(store.zones[..]) && mirror.eventNumber == store.ring.counter
  {
    hide Fold, CounterAfter, AllTaken, Holds;
    ghost var early, was := store.ring.log, mirror.zones[..];
    assert mirror.synced ==> was == AllTaken(Current(early));
    for i := 0 to |batch|
      modifies store, store.ring, store.ring.slots, store.zones
      invariant store.Valid() && early <= store.ring.log && |store.ring.log| <= |early| + i
    {
      store.Receive(batch[i].id, batch[i].event, batch[i].plausible);
    }
    assert mirror.zones[..] == was;
    var snapshot := store.TakeSnapshot();
    CatchesUp(store.ring.log, snapshot, |early|);
    assert store.ring.log[..|early|] == early;
    mirror.UpdateFromSnapshot(snapshot, store.ring.log);
  }

  /**
   * After every snapshot of a session the mirror holds what it should of every zone, if fewer than 2^32 - 1 messages
   * arrive between snapshots.
   */
  method Follow(batches: seq<seq<Message>>) returns (store: Store, mirror: Mirror)
    requires forall b <- batches :: |b| < W - 1
    ensures store.Valid() && mirror.Valid() && (batches != [] ==> mirror.zones[..] == AllTaken(store.zones[..]))
  {
    hide Fold, CounterAfter, AllTaken, Holds;
    store := new Store();
    mirror := new Mirror();
    for k := 0 to |batches|
      invariant fresh(store) && fresh(store.ring) && fresh(store.ring.slots) && fresh(store.zones)
      invariant fresh(mirror) && fresh(mirror.zones)
      invariant {store, store.ring, store.ring.slots, store.zones} !! {mirror, mirror.zones}
      invariant store.Valid() && mirror.Valid() && mirror.synced == (k > 0)
      invariant k > 0 ==> mirror.zones[..] == AllTaken(store.zones[..]) && mirror.eventNumber == store.ring.counter
    {
      Turn(store, mirror, batches[k]);
    }
  }

  /** The mirror of a zone, corner by corner: left, top, right, bottom from the bounds the message has. */
  lemma TakenIs(r: Revised<Zone>)
    ensures var z := Taken(r);
            if r.state.active
            then z.active && z.revision == r.revision && z.baseColor == r.state.baseColor
                 && z.alternateColor == r.state.alternateColor
                 && z.corners.left == r.state.bounds.minX && z.corners.top == r.state.bounds.maxY
                 && z.corners.right == r.state.bounds.maxX && z.corners.bottom == r.state.bounds.minY
            else !z.active
  {
  }

}
