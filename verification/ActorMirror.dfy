/** The consumer's copy of the actors: replayed from the ring, or copied slot by slot when the ring has a gap. */
module ActorMirror {
  import opened Words
  import opened EventRing
  import opened Recovery
  import opened Actors

  /** The consumer accepts fewer positions than the decoder; which ones is a parameter, since floats are opaque here. */
  type Range = Vector -> bool

  /** For each part of an actor the number of the event or state it comes from. */
  datatype Parts = Parts(create: word, position: word, facing: word, health: word, invulnerable: word, animation: word)

  /** What the consumer keeps of an actor. */
  datatype Desired = Desired(revision: word, state: Actor, parts: Parts)

  function AllParts(number: word): Parts {
    Parts(number, number, number, number, number, number)
  }

  function Nobody(revision: word): Desired {
    Desired(revision, NO_ACTOR, AllParts(0))
  }

  const NO_DESIRED: Desired := Nobody(0)

  /** `actor_compat_apply_authoritative_state_logical`, on the state of a slot. */
  function Taken(near: Range, r: Revised<Actor>): Desired {
    if !r.state.active || r.revision == 0 || !near(r.state.position) then Nobody(r.revision)
    else Desired(r.revision, r.state, AllParts(r.revision))
  }

  /** `actor_compat_apply_event_logical` */
  function ApplyEvent(near: Range, d: Desired, number: word, e: Event): Desired {
    if e.Create? then
      if !near(e.position) then d
      else
        var state := Actor(true, e.invulnerable, e.skin, e.position, e.rotation, e.health, false, NO_ANIMATION);
        Desired(number, state, AllParts(number))
    else if e.Destroy? then d.(revision := number, state := d.state.(active := false, hasAnimation := false))
    else if !d.state.active then d
    else ApplyToActive(near, d.(revision := number), number, e)
  }

  function ApplyToActive(near: Range, d: Desired, number: word, e: Event): Desired {
    var (a, p) := (d.state, d.parts);
    match e
    case Animate(animation) =>
      if Ignored(animation.library) then d
      else d.(state := a.(hasAnimation := true, animation := animation), parts := p.(animation := number))
    case ClearAnimations =>
      var cleared := a.animation.(library := "", name := "");
      d.(state := a.(hasAnimation := false, animation := cleared), parts := p.(animation := number))
    case SetFacing(rotation) => d.(state := a.(rotation := rotation), parts := p.(facing := number))
    case SetPosition(position) =>
      if near(position) then d.(state := a.(position := position), parts := p.(position := number)) else d
    case SetHealth(health) => d.(state := a.(health := health), parts := p.(health := number))
    case _ => d
  }

  /** What of it can be seen: nothing of an inactive actor, no animation where none is set. */
  function Seen(d: Desired): Revised<Actor> {
    if !d.state.active then Revised(0, NO_ACTOR)
    else Revised(d.revision, if d.state.hasAnimation then d.state else d.state.(animation := NO_ANIMATION))
  }

  /** The mirror shows of an actor what a fresh copy of its state would show. */
  predicate Shows(near: Range, d: Desired, r: Revised<Actor>) {
    Seen(d) == Seen(Taken(near, r))
  }

  ghost predicate AllShow(near: Range, mirror: seq<Desired>, actors: seq<Revised<Actor>>) {
    |mirror| == |actors| && forall i | 0 <= i < |actors| :: Shows(near, mirror[i], actors[i])
  }

  /** Whether the consumer's narrower range of positions leaves replaying an event in step with copying. */
  predicate InStep(near: Range, d: Desired, a: Actor, e: Event) {
    match e
    case Create(_, position, _, _, _) => near(position) || !d.state.active
    case SetPosition(position) => a.active ==> near(position) == near(a.position)
    case _ => true
  }

  /** Exactly then one event keeps the mirror in agreement. */
  lemma StepShowsExactly(near: Range, d: Desired, r: Revised<Actor>, number: word, e: Event)
    requires Shows(near, d, r) && number != 0 && (r.state.active ==> r.revision != 0)
    ensures Shows(near, ApplyEvent(near, d, number, e), Revised(number, Apply(r.state, e))) <==>
      InStep(near, d, r.state, e)
  {
    hide Ignored;
  }

  predicate EventNear(near: Range, e: Event) {
    (e.Create? || e.SetPosition?) ==> near(e.position)
  }

  // ----- the update

  /** What an event does to the mirror of the actor it is for. */
  function Following(near: Range): (Desired, word, Event) -> Desired {
    (d: Desired, number: word, e: Event) => ApplyEvent(near, d, number, e)
  }

  function AllTaken(near: Range, actors: seq<Revised<Actor>>): (mirror: seq<Desired>)
    ensures |mirror| == |actors| && forall i | 0 <= i < |actors| :: mirror[i] == Taken(near, actors[i])
  {
    seq(|actors|, i requires 0 <= i < |actors| => Taken(near, actors[i]))
  }

  /** What a mirror that stands at number `c0` becomes; a smaller number than `c0` is not noticed. */
  function Updated(near: Range, mirror: seq<Desired>, c0: word, snapshot: Snapshot, actors: seq<Revised<Actor>>)
    : seq<Desired>
  {
    var (c1, n) := (snapshot.stateNumber, |snapshot.events|);
    if c1 <= c0 then mirror
    else if c1 - c0 > n then AllTaken(near, actors)
    else Replayed(mirror, snapshot.events[n - (c1 - c0)..], Following(near))
  }

  class Mirror {
    const near: Range
    const actors: array<Desired>
    var eventNumber: word
    var stateNumber: word

    ghost predicate Valid()
      reads this
    {
      actors.Length == MAX_ACTORS
    }

    constructor (near: Range)
      ensures Valid() && fresh(actors) && eventNumber == 0 && this.near == near
      ensures forall i | 0 <= i < MAX_ACTORS :: actors[i] == NO_DESIRED
    {
      this.near := near;
      actors := new Desired[MAX_ACTORS](_ => NO_DESIRED);
      eventNumber, stateNumber := 0, 0;
    }

    /** `actor_compat_apply_event_logical` */
    method ApplyToSlot(u: Numbered<Update<Event>>)
      requires Valid() && u.number != 0
      modifies actors
      ensures actors[..] == Applied(old(actors[..]), u, Following(near))
    {
      hide Ignored;
      var id := u.event.target;
      if id >= MAX_ACTORS {
        return;
      }
      ghost var before := actors[..];
      var d := actors[id];
      match u.event.event {
        case Create(skin, position, rotation, health, invulnerable) =>
          if !near(position) {
            return;
          }
          d := Desired(u.number, NO_ACTOR, AllParts(u.number));
          d := d.(state := d.state.(active := true, invulnerable := invulnerable, skin := skin));
          d := d.(state := d.state.(position := position, rotation := rotation, health := health));
        case Destroy =>
          d := d.(revision := u.number, state := d.state.(active := false, hasAnimation := false));
        case _ =>
          if d.state.active {
            d := d.(revision := u.number);
            match u.event.event {
              case Animate(animation) =>
                if !Ignored(animation.library) {
                  d := d.(state := d.state.(hasAnimation := true, animation := animation));
                  d := d.(parts := d.parts.(animation := u.number));
                }
              case ClearAnimations =>
                d := d.(state := d.state.(hasAnimation := false,
                                          animation := d.state.animation.(library := "", name := "")));
                d := d.(parts := d.parts.(animation := u.number));
              case SetFacing(rotation) =>
                d := d.(state := d.state.(rotation := rotation), parts := d.parts.(facing := u.number));
              case SetPosition(position) =>
                if near(position) {
                  d := d.(state := d.state.(position := position), parts := d.parts.(position := u.number));
                }
              case SetHealth(health) =>
                d := d.(state := d.state.(health := health), parts := d.parts.(health := u.number));
              case _ =>
            }
          }
      }
      actors[id] := d;
      assert actors[..] == before[id := d];
    }

    /** `actor_compat_resync_authoritative`: every slot is queried and taken over. */
    method Resync(store: Store, number: word)
      requires Valid() && store.Valid()
      modifies this`eventNumber, this`stateNumber, actors
      ensures actors[..] == AllTaken(near, store.actors[..]) && eventNumber == number
    {
      hide Fold;
      for i := 0 to MAX_ACTORS
        invariant store.Valid()
        invariant forall j | 0 <= j < i :: actors[j] == Taken(near, store.actors[..][j])
      {
        var state := store.GetActorState(i);
        var r := state.value;
        if !r.state.active {
          actors[i] := Nobody(r.revision);
        } else if r.revision == 0 || !near(r.state.position) {
          actors[i] := Nobody(r.revision);
        } else {
          actors[i] := Desired(r.revision, r.state, AllParts(r.revision));
        }
      }
      eventNumber, stateNumber := number, number;
    }

    /**
     * The first loop of `actor_compat_update_from_snapshot`: whether the ring has lost events after the last one
     * seen.
     */
    method HasGap(events: seq<Numbered<Update<Event>>>, previous: word, ghost counter: word,
                  ghost log: seq<Update<Event>>)
        returns (gap: bool)
      requires NewestOf(events, log, counter, ACTOR_RING)
      ensures gap <==> counter > previous && counter - previous > |events|
    {
      var expected := previous + 1;
      gap := false;
      var i := 0;
      while i < |events| && !gap
        invariant i <= |events|
        invariant gap ==> counter > previous && counter - previous > |events|
        invariant !gap && i > 0 ==> counter <= previous || counter - previous <= |events|
        invariant !gap ==> expected == if events[..i] != [] && events[i - 1].number > previous
          then events[i - 1].number + 1 else previous + 1
      {
        if events[i].number != 0 && events[i].number > previous {
          if events[i].number != expected {
            gap := true;
          } else {
            expected := events[i].number + 1;
          }
        }
        i := i + 1;
      }
    }

    /** The second loop: the events after the last one seen. */
    method ApplyNewer(events: seq<Numbered<Update<Event>>>, previous: word, ghost counter: word,
                      ghost log: seq<Update<Event>>)
        returns (latest: word)
      requires Valid() && NewestOf(events, log, counter, ACTOR_RING)
        && (counter > previous ==> counter - previous <= |events|)
      modifies actors
      ensures latest == if counter > previous then counter else previous
      ensures actors[..] == if counter > previous
                            then Replayed(old(actors[..]), events[|events| - (counter - previous)..], Following(near))
                            else old(actors[..])
    {
      hide Applied, Replayed, NewestOf;
      latest := previous;
      ghost var from := |events| - (if counter > previous then counter - previous else 0);
      ghost var before, done := actors[..], [];
      ReplayedNone(before, Following(near));
      for i := 0 to |events|
        invariant done == if from <= i then events[from..i] else []
        invariant latest == previous + |done| && actors[..] == Replayed(before, done, Following(near))
      {
        NumberAt(events, log, counter, ACTOR_RING, i);
        if events[i].number != 0 && events[i].number > previous {
          ReplayedOneMore(before, done, events[i], Following(near));
          done := done + [events[i]];
          ApplyToSlot(events[i]);
          latest := events[i].number;
        }
      }
      assert done == events[from..];
    }

    /**
     * `actor_compat_update_from_snapshot`; the ring ends with the state number, so there is never a gap at its tail.
     */
    method UpdateFromSnapshot(snapshot: Snapshot, store: Store)
      requires Valid() && store.Valid() && SnapshotOf(snapshot, store.ring.log)
      modifies this`eventNumber, this`stateNumber, actors
      ensures actors[..] == Updated(near, old(actors[..]), old(eventNumber), snapshot, store.actors[..])
      ensures eventNumber == if snapshot.stateNumber > old(eventNumber) then snapshot.stateNumber else old(eventNumber)
    {
      hide Fold, CounterAfter, Applied, Replayed, Taken;
      var previous := eventNumber;
      var gap := HasGap(snapshot.events, previous, snapshot.stateNumber, store.ring.log);
      if gap {
        Resync(store, snapshot.stateNumber);
        return;
      }
      var latest := ApplyNewer(snapshot.events, previous, snapshot.stateNumber, store.ring.log);
      assert snapshot.stateNumber <= latest;
      if latest != previous {
        eventNumber := latest;
      }
      stateNumber := snapshot.stateNumber;
    }
  }

  // ----- how a replay goes

  /** Whether an event of a log leaves a mirror that showed every actor before it in step. */
  ghost predicate InStepAt(near: Range, log: seq<Update<Event>>, k: nat)
    requires k < |log|
  {
    log[k].target < MAX_ACTORS ==>
      var r := Current(log[..k])[log[k].target];
      InStep(near, Taken(near, r), r.state, log[k].event)
  }

  ghost predicate InStepFrom(near: Range, log: seq<Update<Event>>, s: nat) {
    forall k | s <= k < |log| :: InStepAt(near, log, k)
  }

  lemma CounterAfterIsPositive(n: nat)
    ensures n > 0 ==> CounterAfter(n) > 0
  {
  }

  lemma {:induction false} ActiveHasRevision(log: seq<Update<Event>>, i: nat)
    requires i < MAX_ACTORS
    ensures Current(log)[i].state.active ==> Current(log)[i].revision != 0
    decreases |log|
  {
    hide CounterAfter, Apply;
    if log != [] {
      CounterAfterIsPositive(|log|);
      ActiveHasRevision(log[..|log| - 1], i);
    }
  }

  /** From a mirror that shows every actor, the last event leads to one that does exactly when it is in step. */
  lemma AppliedShowsExactly(near: Range, mirror: seq<Desired>, log: seq<Update<Event>>, u: Numbered<Update<Event>>)
    requires log != [] && u == Numbered(CounterAfter(|log|), log[|log| - 1])
    requires AllShow(near, mirror, Current(log[..|log| - 1]))
    ensures AllShow(near, Applied(mirror, u, Following(near)), Current(log)) <==> InStepAt(near, log, |log| - 1)
  {
    hide CounterAfter, ApplyEvent, Apply, Shows, InStep, Taken;
    var (id, before) := (u.event.target, Current(log[..|log| - 1]));
    CounterAfterIsPositive(|log|);
    if id < MAX_ACTORS {
      ActiveHasRevision(log[..|log| - 1], id);
      StepShowsExactly(near, mirror[id], before[id], u.number, u.event.event);
      InStepAsShown(near, mirror[id], before[id], u.event.event);
      var after := Applied(mirror, u, Following(near));
      assert after[id] == ApplyEvent(near, mirror[id], u.number, u.event.event);
      assert Current(log)[id] == Revised(u.number, Apply(before[id].state, u.event.event));
      if InStepAt(near, log, |log| - 1) {
        assert forall i | 0 <= i < MAX_ACTORS && i != id :: after[i] == mirror[i] && Current(log)[i] == before[i];
      }
    }
  }

  /** Being in step depends on the mirror only through what it shows. */
  lemma InStepAsShown(near: Range, d: Desired, r: Revised<Actor>, e: Event)
    requires Shows(near, d, r)
    ensures InStep(near, d, r.state, e) <==> InStep(near, Taken(near, r), r.state, e)
  {
  }

  /** The mirror after the events up to the `n`-th of the log shows every actor. */
  ghost predicate ShowsAfter(near: Range, mirror: seq<Desired>, log: seq<Update<Event>>, s: nat,
                             events: seq<Numbered<Update<Event>>>, n: nat)
    requires s <= n <= |log| <= s + |events|
  {
    var from := |events| - (|log| - s);
    AllShow(near, Replayed(mirror, events[from..from + (n - s)], Following(near)), Current(log[..n]))
  }

  lemma OneMoreShows(near: Range, mirror: seq<Desired>, log: seq<Update<Event>>, s: nat,
                     events: seq<Numbered<Update<Event>>>, n: nat)
    requires NewestOf(events, log, CounterAfter(|log|), ACTOR_RING) && s <= n < |log| <= s + |events|
    requires ShowsAfter(near, mirror, log, s, events, n)
    ensures ShowsAfter(near, mirror, log, s, events, n + 1) <==> InStepAt(near, log, n)
  {
    hide CounterAfter, NewestOf, Current, Applied, AllShow, InStep, Taken;
    var k := |events| - (|log| - s) + (n - s);
    var from := k - (n - s);
    assert events[from..k + 1] == events[from..k] + [events[k]];
    assert log[..n + 1][..n] == log[..n];
    NumbersAgree(events, log, ACTOR_RING, k);
    EventsAgree(events, log, ACTOR_RING, k);
    AppliedShowsExactly(near, Replayed(mirror, events[from..k], Following(near)), log[..n + 1], events[k]);
    ReplayedOneMore(mirror, events[from..k], events[k], Following(near));
  }

  lemma ShowsUntil(near: Range, mirror: seq<Desired>, log: seq<Update<Event>>, s: nat,
                   events: seq<Numbered<Update<Event>>>, n: nat)
    requires NewestOf(events, log, CounterAfter(|log|), ACTOR_RING) && s <= n <= |log| <= s + |events|
    requires AllShow(near, mirror, Current(log[..s])) && forall k | s <= k < n :: InStepAt(near, log, k)
    ensures ShowsAfter(near, mirror, log, s, events, n)
    decreases n
  {
    hide CounterAfter, NewestOf, Current, ShowsAfter, InStepAt, AllShow;
    if n == s {
      ShowsAtFirst(near, mirror, log, s, events);
    } else {
      ShowsUntil(near, mirror, log, s, events, n - 1);
      OneMoreShows(near, mirror, log, s, events, n - 1);
    }
  }

  /** A replay shows every actor after each of its events exactly when each of them is in step. */
  lemma ReplayShowsExactly(near: Range, mirror: seq<Desired>, log: seq<Update<Event>>, s: nat,
                           events: seq<Numbered<Update<Event>>>)
    requires NewestOf(events, log, CounterAfter(|log|), ACTOR_RING) && s <= |log| <= s + |events|
    requires AllShow(near, mirror, Current(log[..s]))
    ensures (forall n | s <= n <= |log| :: ShowsAfter(near, mirror, log, s, events, n)) <==> InStepFrom(near, log, s)
  {
    hide CounterAfter, NewestOf, Current, ShowsAfter, InStepAt, AllShow;
    if forall n | s <= n <= |log| :: ShowsAfter(near, mirror, log, s, events, n) {
      forall k | s <= k < |log|
        ensures InStepAt(near, log, k)
      {
        assert ShowsAfter(near, mirror, log, s, events, k + 1);
        OneMoreShows(near, mirror, log, s, events, k);
      }
    }
    if InStepFrom(near, log, s) {
      forall n | s <= n <= |log|
        ensures ShowsAfter(near, mirror, log, s, events, n)
      {
        ShowsUntil(near, mirror, log, s, events, n);
      }
    }
  }

  lemma ShowsAtFirst(near: Range, mirror: seq<Desired>, log: seq<Update<Event>>, s: nat,
                     events: seq<Numbered<Update<Event>>>)
    requires s <= |log| <= s + |events| && AllShow(near, mirror, Current(log[..s]))
    ensures ShowsAfter(near, mirror, log, s, events, s)
  {
    hide CounterAfter, Current, AllShow;
    var from := |events| - (|log| - s);
    assert events[from..from] == [];
    ReplayedNone(mirror, Following(near));
  }

  lemma ShowsAtLast(near: Range, mirror: seq<Desired>, log: seq<Update<Event>>, s: nat,
                    events: seq<Numbered<Update<Event>>>)
    requires s <= |log| <= s + |events|
    ensures ShowsAfter(near, mirror, log, s, events, |log|) <==>
            AllShow(near, Replayed(mirror, events[|events| - (|log| - s)..], Following(near)), Current(log))
  {
    hide CounterAfter, Current, AllShow;
    var from := |events| - (|log| - s);
    assert events[from..|events|] == events[from..] && log[..|log|] == log;
  }

  // ----- when positions are in range

  ghost predicate AllNear(near: Range, log: seq<Update<Event>>) {
    forall i | 0 <= i < |log| :: EventNear(near, log[i].event)
  }

  /** While every position is in the consumer's range, so is that of every active actor ... */
  lemma {:induction false} ActiveIsNear(near: Range, log: seq<Update<Event>>, i: nat)
    requires AllNear(near, log) && i < MAX_ACTORS && Current(log)[i].state.active
    ensures near(Current(log)[i].state.position)
    decreases |log|
  {
    hide CounterAfter, Ignored;
    assert EventNear(near, log[|log| - 1].event);
    if log[|log| - 1].target != i || !log[|log| - 1].event.Create? {
      ActiveIsNear(near, log[..|log| - 1], i);
    }
  }

  /** ... and every event is in step. */
  lemma NearIsInStep(near: Range, log: seq<Update<Event>>)
    requires AllNear(near, log)
    ensures InStepFrom(near, log, 0)
  {
    hide CounterAfter, Fold;
    forall k | 0 <= k < |log|
      ensures InStepAt(near, log, k)
    {
      assert EventNear(near, log[k].event);
      if log[k].target < MAX_ACTORS && Current(log[..k])[log[k].target].state.active {
        ActiveIsNear(near, log[..k], log[k].target);
      }
    }
  }

  // ----- when an update is enough

  /** The update copies every slot: the ring has visibly lost events. */
  predicate Copies(m: nat, n: nat) {
    CounterAfter(m + n) - CounterAfter(m) > Least(CounterAfter(m + n), ACTOR_RING)
  }

  /** The counter has not started again between `m` and `m + n` events. */
  predicate Counted(m: nat, n: nat) {
    CounterAfter(m + n) == CounterAfter(m) + n
  }

  /** A mirror that showed every actor after `s` events shows every actor again after the update. */
  ghost predicate CaughtUp(near: Range, log: seq<Update<Event>>, snapshot: Snapshot, mirror: seq<Desired>, s: nat)
    requires s <= |log|
  {
    SnapshotOf(snapshot, log) && AllShow(near, mirror, Current(log[..s])) ==>
      AllShow(near, Updated(near, mirror, CounterAfter(s), snapshot, Current(log)), Current(log))
  }

  /** A copy shows every actor, whatever the mirror held. */
  lemma CopyShows(near: Range, log: seq<Update<Event>>, snapshot: Snapshot, mirror: seq<Desired>, s: nat)
    requires s <= |log| && SnapshotOf(snapshot, log) && Copies(s, |log| - s)
    ensures AllShow(near, Updated(near, mirror, CounterAfter(s), snapshot, Current(log)), Current(log))
  {
    hide CounterAfter, Current, Shows;
    TakenShows(near, Current(log));
  }

  /** A replay shows every actor again if every event is in step. */
  lemma CatchesUp(near: Range, log: seq<Update<Event>>, snapshot: Snapshot, mirror: seq<Desired>, s: nat)
    requires s <= |log|
    requires Copies(s, |log| - s) || (Counted(s, |log| - s) && InStepFrom(near, log, s))
    ensures CaughtUp(near, log, snapshot, mirror, s)
  {
    hide CounterAfter, Current, Replayed, AllShow, InStepFrom, ShowsAfter;
    if SnapshotOf(snapshot, log) && AllShow(near, mirror, Current(log[..s])) {
      if Copies(s, |log| - s) {
        CopyShows(near, log, snapshot, mirror, s);
      } else if s == |log| {
        assert log[..s] == log;
      } else {
        UpdatedIsReplay(near, mirror, log, snapshot, s);
        ReplayShowsExactly(near, mirror, log, s, snapshot.events);
        assert ShowsAfter(near, mirror, log, s, snapshot.events, |log|);
        ShowsAtLast(near, mirror, log, s, snapshot.events);
      }
    }
  }

  lemma TakenShows(near: Range, actors: seq<Revised<Actor>>)
    ensures AllShow(near, AllTaken(near, actors), actors)
  {
    forall i | 0 <= i < |actors|
      ensures Shows(near, AllTaken(near, actors)[i], actors[i])
    {
      TakenTwice(near, actors[i]);
    }
  }

  lemma TakenTwice(near: Range, r: Revised<Actor>)
    ensures Shows(near, Taken(near, r), r)
  {
  }

  // ----- and that nothing less is

  function Someone(v: Vector): Event {
    Create(0, v, 0, 0, false)
  }

  /** A log in which actor 0 is created as event `m + 1` and all other events create actor 1. */
  function Distracted(v: Vector, m: nat, n: nat): (log: seq<Update<Event>>)
    ensures |log| == n && forall i | 0 <= i < n :: log[i] == Update(if i == m then 0 else 1, Someone(v))
  {
    seq(n, i => Update(if i == m then 0 else 1, Someone(v)))
  }

  lemma {:induction false} DistractedActor(v: Vector, m: nat, n: nat)
    ensures var r := Current(Distracted(v, m, n))[0];
            if m < n then r.state.active && r.revision == CounterAfter(m + 1) != 0 && r.state.position == v
            else !r.state.active
    decreases n
  {
    hide CounterAfter;
    CounterAfterIsPositive(m + 1);
    if n > 0 {
      assert Distracted(v, m, n)[..n - 1] == Distracted(v, m, n - 1);
      DistractedActor(v, m, n - 1);
      CounterAfterIsPositive(n);
    }
  }

  /** The snapshot of a log. */
  ghost function TheSnapshot(log: seq<Update<Event>>): (snapshot: Snapshot)
    ensures SnapshotOf(snapshot, log)
  {
    Snapshot(TheNewest(log, ACTOR_RING), CounterAfter(|log|))
  }

  /** In that log the update leaves actor 0 as it was. */
  lemma ActorZeroUntouched(near: Range, v: Vector, m: nat, n: nat, snapshot: Snapshot, mirror: seq<Desired>)
    requires !Copies(m, n) && !Counted(m, n)
    requires SnapshotOf(snapshot, Distracted(v, m, m + n)) && |mirror| == MAX_ACTORS
    ensures Updated(near, mirror, CounterAfter(m), snapshot, Current(Distracted(v, m, m + n)))[0] == mirror[0]
  {
    var log := Distracted(v, m, m + n);
    var (c0, c1) := (CounterAfter(m), CounterAfter(m + n));
    FewerReplayed(m, n);
    hide CounterAfter, Current, Distracted, Replayed, Taken;
    if c1 > c0 {
      var from := |snapshot.events| - (c1 - c0);
      forall i | from <= i < |snapshot.events|
        ensures snapshot.events[i].event.target == 1
      {
        EventsAgree(snapshot.events, log, ACTOR_RING, i);
      }
      OthersReplayed(mirror, snapshot.events[from..], Following(near), 0);
    }
  }

  lemma FewerReplayed(m: nat, n: nat)
    requires !Counted(m, n)
    ensures n > 0 && CounterAfter(m + n) - CounterAfter(m) < n
  {
    if n < W - 1 && CounterAfter(m) <= CounterAfter(m + n) {
      CounterDistance(m, n);
    }
  }

  lemma FallsBehind(near: Range, v: Vector, m: nat, n: nat)
    requires near(v) && !Copies(m, n) && !Counted(m, n)
    ensures var log := Distracted(v, m, m + n);
            && InStepFrom(near, log, 0)
            && !CaughtUp(near, log, TheSnapshot(log), AllTaken(near, Current(log[..m])), m)
  {
    var log := Distracted(v, m, m + n);
    FewerReplayed(m, n);
    NearIsInStep(near, log);
    hide CounterAfter, Current, Distracted, TheSnapshot, Replayed, Copies, Counted, Updated, InStepFrom;
    assert log[..m] == Distracted(v, m, m);
    DistractedActor(v, m, m + n);
    DistractedActor(v, m, m);
    var mirror := AllTaken(near, Current(log[..m]));
    TakenShows(near, Current(log[..m]));
    ActorZeroUntouched(near, v, m, n, TheSnapshot(log), mirror);
    var after := Updated(near, mirror, CounterAfter(m), TheSnapshot(log), Current(log));
    assert !Shows(near, after[0], Current(log)[0]);
  }

  /** Exactly when an update is enough for events that are in step. */
  lemma CatchesUpExactly(near: Range, v: Vector, m: nat, n: nat)
    requires near(v)
    ensures (forall log: seq<Update<Event>>, snapshot, mirror | |log| == m + n && InStepFrom(near, log, m) ::
               CaughtUp(near, log, snapshot, mirror, m)) <==>
            Copies(m, n) || Counted(m, n)
  {
    hide CounterAfter, CaughtUp, Copies, Counted, InStepAt;
    if Copies(m, n) || Counted(m, n) {
      forall log: seq<Update<Event>>, snapshot, mirror | |log| == m + n && InStepFrom(near, log, m)
        ensures CaughtUp(near, log, snapshot, mirror, m)
      {
        CatchesUp(near, log, snapshot, mirror, m);
      }
    } else {
      FallsBehind(near, v, m, n);
    }
  }

  /** A log in which actor 0 is created over and over and then moved out of range. */
  function MovedLast(v: Vector, far: Vector, n: nat): (log: seq<Update<Event>>)
    requires n > 0
    ensures |log| == n && log[n - 1] == Update(0, SetPosition(far))
    ensures forall i | 0 <= i < n - 1 :: log[i] == Update(0, Someone(v))
  {
    seq(n - 1, _ => Update(0, Someone(v))) + [Update(0, SetPosition(far))]
  }

  lemma MovedOutOfStep(near: Range, v: Vector, far: Vector, n: nat)
    requires near(v) && !near(far) && n > 1
    ensures var log := MovedLast(v, far, n);
            (forall k | 0 <= k < n - 1 :: InStepAt(near, log, k)) && !InStepAt(near, log, n - 1)
  {
    var log := MovedLast(v, far, n);
    var front := log[..n - 1];
    NearIsInStep(near, front);
    forall k | 0 <= k < n - 1
      ensures InStepAt(near, log, k)
    {
      assert InStepAt(near, front, k) && front[..k] == log[..k];
    }
    CounterAfterIsPositive(n - 1);
    hide CounterAfter, MovedLast;
    assert front[n - 2] == Update(0, Someone(v));
    var r := Current(front)[0];
    assert r.state.active && r.state.position == v && r.revision != 0;
  }

  /** The branch of the update that replays. */
  lemma UpdatedIsReplay(near: Range, mirror: seq<Desired>, log: seq<Update<Event>>, snapshot: Snapshot, m: nat)
    requires SnapshotOf(snapshot, log) && m < |log| && Counted(m, |log| - m) && !Copies(m, |log| - m)
    ensures |log| - m <= |snapshot.events|
    ensures Updated(near, mirror, CounterAfter(m), snapshot, Current(log))
            == Replayed(mirror, snapshot.events[|snapshot.events| - (|log| - m)..], Following(near))
  {
    hide CounterAfter, Replayed, Current;
  }

  lemma MovedFallsBehind(near: Range, v: Vector, far: Vector, m: nat, n: nat)
    requires near(v) && !near(far) && n > 0 && m + n > 1 && Counted(m, n) && !Copies(m, n)
    ensures var log := MovedLast(v, far, m + n);
            !CaughtUp(near, log, TheSnapshot(log), AllTaken(near, Current(log[..m])), m)
  {
    var log := MovedLast(v, far, m + n);
    var snapshot := TheSnapshot(log);
    var mirror := AllTaken(near, Current(log[..m]));
    MovedOutOfStep(near, v, far, m + n);
    UpdatedIsReplay(near, mirror, log, snapshot, m);
    TakenShows(near, Current(log[..m]));
    hide *;
    ShowsUntil(near, mirror, log, m, snapshot.events, m + n - 1);
    OneMoreShows(near, mirror, log, m, snapshot.events, m + n - 1);
    ShowsAtLast(near, mirror, log, m, snapshot.events);
    NotCaughtUp(near, log, snapshot, mirror, m);
  }

  lemma NotCaughtUp(near: Range, log: seq<Update<Event>>, snapshot: Snapshot, mirror: seq<Desired>, s: nat)
    requires s <= |log| && SnapshotOf(snapshot, log) && AllShow(near, mirror, Current(log[..s]))
    requires !AllShow(near, Updated(near, mirror, CounterAfter(s), snapshot, Current(log)), Current(log))
    ensures !CaughtUp(near, log, snapshot, mirror, s)
  {
  }

  /** Exactly when an update is enough whatever the events are: with positions out of range, only a copy is. */
  lemma OnlyCopiesCatchUp(near: Range, v: Vector, far: Vector, m: nat, n: nat)
    requires near(v) && !near(far) && n > 0 && m + n > 1
    ensures (forall log: seq<Update<Event>>, snapshot, mirror | |log| == m + n ::
             CaughtUp(near, log, snapshot, mirror, m))
            <==> Copies(m, n)
  {
    hide CounterAfter, CaughtUp, Copies, Counted, InStepFrom;
    if Copies(m, n) {
      forall log: seq<Update<Event>>, snapshot, mirror | |log| == m + n
        ensures CaughtUp(near, log, snapshot, mirror, m)
      {
        CatchesUp(near, log, snapshot, mirror, m);
      }
    } else if Counted(m, n) {
      MovedFallsBehind(near, v, far, m, n);
    } else {
      FallsBehind(near, v, m, n);
    }
  }

  /** One event is enough: the first one after the counter has started again is not shown. */
  lemma FallsBehindAtWrap(near: Range, v: Vector)
    requires near(v)
    ensures var log := Distracted(v, W - 1, W);
            !CaughtUp(near, log, TheSnapshot(log), AllTaken(near, Current(log[..W - 1])), W - 1)
  {
    BumpCounts(W - 1);
    assert CounterAfter(W) == 1;
    FallsBehind(near, v, W - 1, 1);
  }

  // ----- what the numbers of the parts tell

  /** None of the numbers is one of those from `c0 + 1` to `c1`. */
  predicate Unused(p: Parts, c0: word, c1: word) {
    && !(c0 < p.create <= c1) && !(c0 < p.position <= c1) && !(c0 < p.facing <= c1)
    && !(c0 < p.health <= c1) && !(c0 < p.invulnerable <= c1) && !(c0 < p.animation <= c1)
  }

  /** Whatever part of an active actor is no longer as it was has another number, so that it is carried out again. */
  predicate Told(was: Desired, now: Desired) {
    was.state.active && now.state.active ==>
      && (now.parts.create == was.parts.create ==> now.state.skin == was.state.skin)
      && (now.parts.position == was.parts.position ==> now.state.position == was.state.position)
      && (now.parts.facing == was.parts.facing ==> now.state.rotation == was.state.rotation)
      && (now.parts.health == was.parts.health ==> now.state.health == was.state.health)
      && (now.parts.invulnerable == was.parts.invulnerable ==> now.state.invulnerable == was.state.invulnerable)
      && (now.parts.animation == was.parts.animation ==>
            && now.state.hasAnimation == was.state.hasAnimation
            && (now.state.hasAnimation ==> now.state.animation == was.state.animation))
  }

  ghost predicate AllTold(was: seq<Desired>, now: seq<Desired>) {
    |was| == |now| && forall i | 0 <= i < |now| :: Told(was[i], now[i])
  }

  ghost predicate AllUnused(mirror: seq<Desired>, c0: word, c1: word) {
    forall i | 0 <= i < |mirror| && mirror[i].state.active :: Unused(mirror[i].parts, c0, c1)
  }

  lemma EventTells(near: Range, was: Desired, d: Desired, number: word, e: Event)
    requires Told(was, d) && number > 0 && (was.state.active ==> Unused(was.parts, number - 1, number))
    ensures Told(was, ApplyEvent(near, d, number, e))
  {
    hide Ignored;
  }

  lemma {:induction false} ReplayTells(near: Range, mirror: seq<Desired>, events: seq<Numbered<Update<Event>>>, c: word,
                                       i: nat)
    requires i < |mirror| && c + |events| < W
    requires mirror[i].state.active ==> Unused(mirror[i].parts, c, c + |events|)
    requires forall k | 0 <= k < |events| :: events[k].number == c + 1 + k
    ensures Told(mirror[i], Replayed(mirror, events, Following(near))[i])
    decreases |events|
  {
    hide ApplyEvent;
    if events != [] {
      var front, last := events[..|events| - 1], events[|events| - 1];
      ReplayTells(near, mirror, front, c, i);
      EventTells(near, mirror[i], Replayed(mirror, front, Following(near))[i], last.number, last.event.event);
    }
  }

  /** A part that has the number of the whole actor is as it is there. */
  predicate Agreed(d: Desired, r: Revised<Actor>) {
    var (a, b, p, q) := (d.state, r.state, d.parts, r.revision);
    a.active && b.active ==>
      && (p.create == q ==> a.skin == b.skin) && (p.position == q ==> a.position == b.position)
      && (p.facing == q ==> a.rotation == b.rotation) && (p.health == q ==> a.health == b.health)
      && (p.invulnerable == q ==> a.invulnerable == b.invulnerable)
      && (p.animation == q ==> a.hasAnimation == b.hasAnimation && (a.hasAnimation ==> a.animation == b.animation))
  }

  ghost predicate AllAgreed(mirror: seq<Desired>, actors: seq<Revised<Actor>>) {
    |mirror| == |actors| && forall i | 0 <= i < |actors| :: Agreed(mirror[i], actors[i])
  }

  lemma ShownIsAgreed(near: Range, mirror: seq<Desired>, actors: seq<Revised<Actor>>)
    requires AllShow(near, mirror, actors)
    ensures AllAgreed(mirror, actors)
  {
  }

  lemma CopyTells(near: Range, was: Desired, before: Revised<Actor>, now: Revised<Actor>, c0: word, c1: word)
    requires Agreed(was, before) && (was.state.active ==> Unused(was.parts, c0, c1))
    requires c0 < now.revision <= c1 || now == before
    ensures Told(was, Taken(near, now))
  {
  }

  /** While the counter has not started again, an actor that received something has one of the new numbers. */
  lemma NewOrUntouched(log: seq<Update<Event>>, s: nat, i: nat)
    requires s <= |log| && Counted(s, |log| - s) && i < MAX_ACTORS
    ensures var now := Current(log)[i];
            CounterAfter(s) < now.revision <= CounterAfter(|log|) || now == Current(log[..s])[i]
  {
    hide CounterAfter, Fold;
    var last := LastAt(log, i);
    RevisionIsLast(log, NO_ACTOR, Apply, MAX_ACTORS, i);
    if last <= s {
      UntouchedSince(log, NO_ACTOR, Apply, MAX_ACTORS, s, i);
    } else {
      CounterBack(|log|, |log| - last);
    }
  }

  /** An update tells of every change if no active actor has one of the new numbers already. */
  lemma UpdateTells(near: Range, mirror: seq<Desired>, log: seq<Update<Event>>, snapshot: Snapshot, s: nat)
    requires s <= |log| && SnapshotOf(snapshot, log) && Counted(s, |log| - s)
    requires AllAgreed(mirror, Current(log[..s]))
    requires AllUnused(mirror, CounterAfter(s), CounterAfter(|log|))
    ensures AllTold(mirror, Updated(near, mirror, CounterAfter(s), snapshot, Current(log)))
  {
    hide CounterAfter, Fold, Updated, Told, Unused, Agreed;
    var after := Updated(near, mirror, CounterAfter(s), snapshot, Current(log));
    UpdateTellsOne(near, mirror, log, snapshot, s, 0);
    forall i | 0 <= i < MAX_ACTORS
      ensures Told(mirror[i], after[i])
    {
      UpdateTellsOne(near, mirror, log, snapshot, s, i);
    }
  }

  lemma UpdateTellsOne(near: Range, mirror: seq<Desired>, log: seq<Update<Event>>, snapshot: Snapshot, s: nat, i: nat)
    requires s <= |log| && SnapshotOf(snapshot, log) && Counted(s, |log| - s) && i < MAX_ACTORS
    requires AllAgreed(mirror, Current(log[..s]))
    requires mirror[i].state.active ==> Unused(mirror[i].parts, CounterAfter(s), CounterAfter(|log|))
    ensures var after := Updated(near, mirror, CounterAfter(s), snapshot, Current(log));
            |after| == MAX_ACTORS && Told(mirror[i], after[i])
  {
    hide CounterAfter, Fold, Replayed, Told, Unused, Agreed, Taken;
    var (c0, c1) := (CounterAfter(s), CounterAfter(|log|));
    var n := |snapshot.events|;
    Unchanged(mirror[i]);
    if c1 > c0 && c1 - c0 > n {
      NewOrUntouched(log, s, i);
      CopyTells(near, mirror[i], Current(log[..s])[i], Current(log)[i], c0, c1);
    } else if c1 > c0 {
      NewNumbers(snapshot.events, log, c0, c1);
      ReplayTells(near, mirror, snapshot.events[n - (c1 - c0)..], c0, i);
    }
  }

  lemma NewNumbers(events: seq<Numbered<Update<Event>>>, log: seq<Update<Event>>, c0: word, c1: word)
    requires NewestOf(events, log, c1, ACTOR_RING) && c0 <= c1 <= c0 + |events|
    ensures var newer := events[|events| - (c1 - c0)..];
            forall k | 0 <= k < |newer| :: newer[k].number == c0 + 1 + k
  {
    var newer := events[|events| - (c1 - c0)..];
    forall k | 0 <= k < |newer|
      ensures newer[k].number == c0 + 1 + k
    {
      NumberAt(events, log, c1, ACTOR_RING, |events| - (c1 - c0) + k);
    }
  }

  lemma Unchanged(d: Desired)
    ensures Told(d, d)
  {
  }

  /** An event that changes a part which has its number already. */
  function Retouch(d: Desired, number: word, v: Vector): (e: Event)
    ensures e.Create? ==> e.position == v
  {
    var a := d.state;
    if d.parts.animation == number && !a.hasAnimation then Animate(NO_ANIMATION)
    else Create(a.skin + 1, v, (a.rotation + 1) % W, (a.health + 1) % W, !a.invulnerable)
  }

  lemma RetouchedIsNotTold(near: Range, d: Desired, r: Revised<Actor>, number: word, v: Vector)
    requires d.state.active && Shows(near, d, r) && near(v) && v != d.state.position
    requires number > 0 && !Unused(d.parts, number - 1, number)
    ensures var e := Retouch(d, number, v);
            && !Told(d, ApplyEvent(near, d, number, e))
            && !Told(d, Taken(near, Revised(number, Apply(r.state, e))))
  {
    assert TextOf("") == "";
  }

  /** After the log, an event for actor `i` as the `k`-th of `n`; the others destroy another actor. */
  function Aimed(log: seq<Update<Event>>, i: nat, k: nat, e: Event, n: nat): (r: seq<Update<Event>>)
    ensures log <= r && |r| == |log| + n
    ensures forall j | |log| <= j < |r| ::
      r[j] == if j == |log| + k then Update(i, e) else Update(if i == 0 then 1 else 0, Destroy)
  {
    log + seq(n, j => if j == k then Update(i, e) else Update(if i == 0 then 1 else 0, Destroy))
  }

  lemma {:induction false} AimedActor(log: seq<Update<Event>>, i: nat, k: nat, e: Event, n: nat)
    requires i < MAX_ACTORS && k < n
    ensures Current(Aimed(log, i, k, e, n))[i]
            == Revised(CounterAfter(|log| + k + 1), Apply(Current(log)[i].state, e))
    decreases n
  {
    hide CounterAfter, Apply;
    var all := Aimed(log, i, k, e, n);
    assert all[..|all| - 1] == Aimed(log, i, k, e, n - 1);
    if k < n - 1 {
      AimedActor(log, i, k, e, n - 1);
    } else {
      AimedElsewhere(log, i, k, e, n - 1);
    }
  }

  lemma {:induction false} AimedElsewhere(log: seq<Update<Event>>, i: nat, k: nat, e: Event, n: nat)
    requires i < MAX_ACTORS && n <= k
    ensures Current(Aimed(log, i, k, e, n))[i] == Current(log)[i]
    decreases n
  {
    hide CounterAfter, Apply;
    var all := Aimed(log, i, k, e, n);
    if n == 0 {
      assert all == log;
    } else {
      assert all[..|all| - 1] == Aimed(log, i, k, e, n - 1);
      AimedElsewhere(log, i, k, e, n - 1);
    }
  }

  lemma {:induction false} OneReplayed(near: Range, mirror: seq<Desired>, events: seq<Numbered<Update<Event>>>, i: nat,
                                       k: nat)
    requires i < |mirror| && k < |events| && forall j | 0 <= j < |events| :: events[j].event.target == i <==> j == k
    ensures Replayed(mirror, events, Following(near))[i]
            == ApplyEvent(near, mirror[i], events[k].number, events[k].event.event)
    decreases |events|
  {
    hide ApplyEvent;
    if k < |events| - 1 {
      OneReplayed(near, mirror, events[..|events| - 1], i, k);
    } else {
      OthersReplayed(mirror, events[..|events| - 1], Following(near), i);
    }
  }

  lemma AimedReplayed(near: Range, mirror: seq<Desired>, all: seq<Update<Event>>, snapshot: Snapshot, s: nat, i: nat,
                      k: nat)
    requires s <= |all| <= s + |snapshot.events| && SnapshotOf(snapshot, all) && Counted(s, |all| - s)
    requires i < |mirror| && s + k < |all| && forall j | s <= j < |all| :: all[j].target == i <==> j == s + k
    ensures Replayed(mirror, snapshot.events[|snapshot.events| - (|all| - s)..], Following(near))[i]
            == ApplyEvent(near, mirror[i], CounterAfter(s) + k + 1, all[s + k].event)
  {
    hide CounterAfter, Replayed, ApplyEvent;
    var newer := snapshot.events[|snapshot.events| - (|all| - s)..];
    NewNumbers(snapshot.events, all, CounterAfter(s), CounterAfter(|all|));
    forall j | 0 <= j < |newer|
      ensures newer[j].event == all[s + j]
    {
      EventsAgree(snapshot.events, all, ACTOR_RING, |snapshot.events| - (|all| - s) + j);
    }
    OneReplayed(near, mirror, newer, i, k);
  }

  /** What the update makes of the actor that one event is aimed at. */
  lemma AimedAfter(near: Range, mirror: seq<Desired>, log: seq<Update<Event>>, n: nat, i: nat, k: nat, e: Event)
    requires Counted(|log|, n) && i < MAX_ACTORS && k < n && |mirror| == MAX_ACTORS
    ensures var all := Aimed(log, i, k, e, n);
            var after := Updated(near, mirror, CounterAfter(|log|), TheSnapshot(all), Current(all));
            var number := CounterAfter(|log|) + k + 1;
            && |after| == MAX_ACTORS && number < W
            && (after[i] == ApplyEvent(near, mirror[i], number, e)
                || after[i] == Taken(near, Revised(number, Apply(Current(log)[i].state, e))))
  {
    var all := Aimed(log, i, k, e, n);
    var snapshot := TheSnapshot(all);
    hide CounterAfter, Fold, Replayed, ApplyEvent, Apply, Taken, TheSnapshot, Aimed;
    if Copies(|log|, n) {
      CounterBack(|all|, n - k - 1);
      AimedActor(log, i, k, e, n);
    } else {
      UpdatedIsReplay(near, mirror, all, snapshot, |log|);
      AimedReplayed(near, mirror, all, snapshot, |log|, i, k);
    }
  }

  lemma NotTold(near: Range, v: Vector, mirror: seq<Desired>, log: seq<Update<Event>>, n: nat, i: nat, k: nat)
    requires Counted(|log|, n) && i < MAX_ACTORS && k < n && AllShow(near, mirror, Current(log))
    requires mirror[i].state.active && near(v) && v != mirror[i].state.position && CounterAfter(|log|) + k + 1 < W
    requires !Unused(mirror[i].parts, CounterAfter(|log|) + k, CounterAfter(|log|) + k + 1)
    ensures var all := Aimed(log, i, k, Retouch(mirror[i], CounterAfter(|log|) + k + 1, v), n);
            !AllTold(mirror, Updated(near, mirror, CounterAfter(|log|), TheSnapshot(all), Current(all)))
  {
    hide CounterAfter, Fold, ApplyEvent, Apply, Taken, Told, Unused, Shows, Retouch, Aimed, TheSnapshot, Updated;
    var number := CounterAfter(|log|) + k + 1;
    AimedAfter(near, mirror, log, n, i, k, Retouch(mirror[i], number, v));
    RetouchedIsNotTold(near, mirror[i], Current(log)[i], number, v);
  }

  /** Exactly when an update tells of every change, whatever the events are. */
  lemma UpdateTellsExactly(near: Range, v: Vector, v': Vector, mirror: seq<Desired>, log: seq<Update<Event>>, n: nat)
    requires near(v) && near(v') && v != v' && Counted(|log|, n) && AllShow(near, mirror, Current(log))
    ensures (forall all: seq<Update<Event>>, snapshot | log <= all && |all| == |log| + n && SnapshotOf(snapshot, all) ::
               AllTold(mirror, Updated(near, mirror, CounterAfter(|log|), snapshot, Current(all))))
            <==> AllUnused(mirror, CounterAfter(|log|), CounterAfter(|log| + n))
  {
    var (c0, c1) := (CounterAfter(|log|), CounterAfter(|log| + n));
    if AllUnused(mirror, c0, c1) {
      ShownIsAgreed(near, mirror, Current(log));
      hide CounterAfter, Fold, Updated, AllTold, AllUnused, AllShow, AllAgreed;
      forall all: seq<Update<Event>>, snapshot | log <= all && |all| == |log| + n && SnapshotOf(snapshot, all)
        ensures AllTold(mirror, Updated(near, mirror, c0, snapshot, Current(all)))
      {
        assert all[..|log|] == log;
        UpdateTells(near, mirror, all, snapshot, |log|);
      }
    } else {
      var i :| 0 <= i < |mirror| && mirror[i].state.active && !Unused(mirror[i].parts, c0, c1);
      var k := UsedNumber(mirror[i].parts, c0, c1);
      hide CounterAfter, Fold, Updated, AllTold, AllUnused, Unused, Shows, Retouch, Aimed;
      NotTold(near, if mirror[i].state.position == v then v' else v, mirror, log, n, i, k);
    }
  }

  lemma UsedNumber(p: Parts, c0: word, c1: word) returns (k: nat)
    requires !Unused(p, c0, c1)
    ensures c0 + k + 1 <= c1 && !Unused(p, c0 + k, c0 + k + 1)
  {
    var q := if c0 < p.create <= c1 then p.create else if c0 < p.position <= c1 then p.position
             else if c0 < p.facing <= c1 then p.facing else if c0 < p.health <= c1 then p.health
             else if c0 < p.invulnerable <= c1 then p.invulnerable else p.animation;
    k := q - c0 - 1;
  }

  // ----- any number of updates

  datatype Place = Place(mirror: seq<Desired>, number: word)

  /** The mirror after updates from the snapshots taken after the given numbers of events. */
  ghost function After(near: Range, start: Place, log: seq<Update<Event>>, points: seq<nat>): Place
    requires forall k | 0 <= k < |points| :: points[k] <= |log|
  {
    if points == [] then start
    else
      var p := After(near, start, log, points[..|points| - 1]);
      var seen := log[..points[|points| - 1]];
      var snapshot := TheSnapshot(seen);
      Place(Updated(near, p.mirror, p.number, snapshot, Current(seen)),
            if snapshot.stateNumber > p.number then snapshot.stateNumber else p.number)
  }

  /** From the last value of the counter on, an actor created afterwards is never shown, however many updates follow. */
  lemma NeverShownAgain(near: Range, mirror: seq<Desired>, log: seq<Update<Event>>, m: nat, points: seq<nat>, i: nat)
    requires m <= |log| && CounterAfter(m) == W - 1 && AllShow(near, mirror, Current(log[..m]))
    requires forall k | 0 <= k < |points| :: points[k] <= |log|
    requires i < MAX_ACTORS && !Current(log[..m])[i].state.active
    requires Current(log)[i].state.active && near(Current(log)[i].state.position)
    ensures var after := After(near, Place(mirror, CounterAfter(m)), log, points);
            |after.mirror| == MAX_ACTORS && !Shows(near, after.mirror[i], Current(log)[i])
  {
    StaysAtLastNumber(near, Place(mirror, W - 1), log, points);
    ActiveHasRevision(log, i);
    hide CounterAfter, Current, After;
    assert Shows(near, mirror[i], Current(log[..m])[i]);
  }

  lemma {:induction false} StaysAtLastNumber(near: Range, start: Place, log: seq<Update<Event>>, points: seq<nat>)
    requires start.number == W - 1 && forall k | 0 <= k < |points| :: points[k] <= |log|
    ensures After(near, start, log, points) == start
    decreases |points|
  {
    hide CounterAfter, Current;
    if points != [] {
      StaysAtLastNumber(near, start, log, points[..|points| - 1]);
    }
  }

  // ----- whether a run of updates tells of every change

  function Start(): Place {
    Place(seq(MAX_ACTORS, _ => NO_DESIRED), 0)
  }

  ghost predicate Ordered(points: seq<nat>, log: seq<Update<Event>>) {
    forall j, k | 0 <= j <= k < |points| :: points[j] <= points[k] <= |log|
  }

  function LastOf(points: seq<nat>): nat {
    if points == [] then 0 else points[|points| - 1]
  }

  predicate Within(p: Parts, number: nat) {
    && p.create <= number && p.position <= number && p.facing <= number
    && p.health <= number && p.invulnerable <= number && p.animation <= number
  }

  /** An event sets a part of the mirror to what the store has, or gives it no new number. */
  lemma EventAgrees(near: Range, d: Desired, r: Revised<Actor>, number: word, e: Event)
    requires Agreed(d, r) && number > 0 && Within(d.parts, number - 1)
    ensures Agreed(ApplyEvent(near, d, number, e), Revised(number, Apply(r.state, e)))
    ensures Within(ApplyEvent(near, d, number, e).parts, number)
  {
    hide Ignored;
  }

  /** How far the mirror has come: parts as in the store where their numbers are the same, and none beyond `n`. */
  ghost predicate Upto(mirror: seq<Desired>, log: seq<Update<Event>>, n: nat)
    requires n <= |log|
  {
    && AllAgreed(mirror, Current(log[..n]))
    && forall i | 0 <= i < |mirror| :: Within(mirror[i].parts, n)
  }

  lemma AppliedUpto(near: Range, mirror: seq<Desired>, log: seq<Update<Event>>, u: Numbered<Update<Event>>, n: nat)
    requires n < |log| && n + 1 < W && Upto(mirror, log, n) && u == Numbered(n + 1, log[n])
    ensures Upto(Applied(mirror, u, Following(near)), log, n + 1)
  {
    hide CounterAfter, Agreed, Within, ApplyEvent, Apply;
    BumpCounts(n + 1);
    assert log[..n + 1][..n] == log[..n];
    var (id, after) := (u.event.target, Applied(mirror, u, Following(near)));
    forall i | 0 <= i < MAX_ACTORS
      ensures Agreed(after[i], Current(log[..n + 1])[i]) && Within(after[i].parts, n + 1)
    {
      WithinMore(mirror[i].parts, n);
      if i == id {
        EventAgrees(near, mirror[i], Current(log[..n])[i], u.number, u.event.event);
      }
    }
  }

  lemma WithinMore(p: Parts, n: nat)
    requires Within(p, n)
    ensures Within(p, n + 1)
  {
  }

  lemma ReplayedUpto(near: Range, mirror: seq<Desired>, log: seq<Update<Event>>, s: nat,
                     events: seq<Numbered<Update<Event>>>)
    requires |log| < W && NewestOf(events, log, |log|, ACTOR_RING) && s <= |log| <= s + |events|
    requires Upto(mirror, log, s)
    ensures Upto(Replayed(mirror, events[|events| - (|log| - s)..], Following(near)), log, |log|)
  {
    hide Upto, Applied, Replayed, NewestOf;
    BumpCounts(|log|);
    var newer := events[|events| - (|log| - s)..];
    NewNumbers(events, log, s, |log|);
    ReplayedNone(mirror, Following(near));
    assert newer[..0] == [];
    for n := s to |log|
      invariant Upto(Replayed(mirror, newer[..n - s], Following(near)), log, n)
    {
      var k := n - s;
      EventsAgree(events, log, ACTOR_RING, |events| - (|log| - s) + k);
      assert newer[..k + 1] == newer[..k] + [newer[k]];
      ReplayedOneMore(mirror, newer[..k], newer[k], Following(near));
      AppliedUpto(near, Replayed(mirror, newer[..k], Following(near)), log, newer[k], n);
    }
    assert newer[..|log| - s] == newer;
  }

  lemma TakenUpto(near: Range, log: seq<Update<Event>>)
    requires |log| < W
    ensures Upto(AllTaken(near, Current(log)), log, |log|)
  {
    hide CounterAfter, Fold;
    assert log[..|log|] == log;
    forall i | 0 <= i < MAX_ACTORS
      ensures Current(log)[i].revision <= |log|
    {
      RevisionIsLast(log, NO_ACTOR, Apply, MAX_ACTORS, i);
      BumpCounts(LastAt(log, i));
    }
  }

  lemma UpdatedUpto(near: Range, mirror: seq<Desired>, log: seq<Update<Event>>, snapshot: Snapshot, s: nat)
    requires s <= |log| < W && SnapshotOf(snapshot, log) && Upto(mirror, log, s)
    ensures Upto(Updated(near, mirror, s, snapshot, Current(log)), log, |log|)
  {
    BumpCounts(|log|);
    hide CounterAfter, Fold, Replayed, Upto;
    if |log| > s + |snapshot.events| {
      TakenUpto(near, log);
    } else if |log| > s {
      ReplayedUpto(near, mirror, log, s, snapshot.events);
    }
  }

  /** Where the updates of a session stand until the counter starts again. */
  lemma {:induction false} StandsAt(near: Range, log: seq<Update<Event>>, points: seq<nat>)
    requires |log| < W && Ordered(points, log)
    ensures var p := After(near, Start(), log, points);
            p.number == LastOf(points) && Upto(p.mirror, log, LastOf(points))
    decreases |points|
  {
    hide CounterAfter, Fold, Updated, Upto, TheSnapshot;
    if points == [] {
      FreshUpto(log);
    } else {
      var front, s := points[..|points| - 1], LastOf(points[..|points| - 1]);
      var seen := log[..LastOf(points)];
      StandsAt(near, log, front);
      BumpCounts(|seen|);
      UptoPrefix(After(near, Start(), log, front).mirror, log, seen, s);
      UpdatedUpto(near, After(near, Start(), log, front).mirror, seen, TheSnapshot(seen), s);
      UptoPrefix(After(near, Start(), log, points).mirror, log, seen, |seen|);
    }
  }

  lemma UptoPrefix(mirror: seq<Desired>, log: seq<Update<Event>>, seen: seq<Update<Event>>, n: nat)
    requires seen <= log && n <= |seen|
    ensures Upto(mirror, log, n) <==> Upto(mirror, seen, n)
  {
    assert seen[..n] == log[..n];
  }

  lemma FreshUpto(log: seq<Update<Event>>)
    ensures Upto(Start().mirror, log, 0)
  {
    assert log[..0] == [];
  }

  lemma OneMoreUpdate(near: Range, start: Place, log: seq<Update<Event>>, points: seq<nat>, k: nat)
    requires k < |points| && forall j | 0 <= j < |points| :: points[j] <= |log|
    ensures var (p, seen) := (After(near, start, log, points[..k]), log[..points[k]]);
            After(near, start, log, points[..k + 1]).mirror
            == Updated(near, p.mirror, p.number, TheSnapshot(seen), Current(seen))
  {
    hide CounterAfter, Fold, Updated, TheSnapshot;
    assert points[..k + 1][..k] == points[..k];
  }

  /** Until the counter starts again, every update of a session tells of every change it makes. */
  lemma EveryUpdateTells(near: Range, log: seq<Update<Event>>, points: seq<nat>, k: nat)
    requires |log| < W && Ordered(points, log) && k < |points|
    ensures AllTold(After(near, Start(), log, points[..k]).mirror, After(near, Start(), log, points[..k + 1]).mirror)
  {
    hide CounterAfter, Fold, Updated, Upto, TheSnapshot, AllTold, After, AllUnused, AllAgreed;
    var (front, s, seen) := (points[..k], LastOf(points[..k]), log[..points[k]]);
    var mirror := After(near, Start(), log, front).mirror;
    StandsAt(near, log, front);
    OneMoreUpdate(near, Start(), log, points, k);
    BumpCounts(s);
    BumpCounts(|seen|);
    UptoIsUnused(mirror, log, s, |seen|);
    assert seen[..s] == log[..s];
    UpdateTells(near, mirror, seen, TheSnapshot(seen), s);
  }

  lemma UptoIsUnused(mirror: seq<Desired>, log: seq<Update<Event>>, s: word, c1: word)
    requires s <= |log| && Upto(mirror, log, s)
    ensures AllUnused(mirror, s, c1) && AllAgreed(mirror, Current(log[..s]))
  {
    hide Agreed;
  }

  /** A log that reaches number 200 for the second time; actor 0 was created with number 201 in the first round. */
  function SecondRound(here: Vector, there: Vector): seq<Update<Event>> {
    Distracted(here, 200, W + 199) + [Update(0, SetPosition(there))]
  }

  /**
   * Once the counter has started again an event may carry the number a part has already: the mirror, first updated
   * after `W + 199` events, then replays a move that leaves the number of the position as it was.
   */
  lemma SameNumberAgain(near: Range, here: Vector, there: Vector)
    requires near(here) && near(there) && here != there
    ensures var log := SecondRound(here, there);
            !AllTold(After(near, Start(), log, [W + 199]).mirror, After(near, Start(), log, [W + 199, W + 200]).mirror)
  {
    var log := SecondRound(here, there);
    var early := Distracted(here, 200, W + 199);
    var (first, second) := (After(near, Start(), log, [W + 199]), After(near, Start(), log, [W + 199, W + 200]));
    RoundAgain();
    DistractedActor(here, 200, W + 199);
    assert log[..W + 199] == early && log[..W + 200] == log;
    assert [W + 199][..0] == [] && [W + 199, W + 200][..1] == [W + 199];
    assert After(near, Start(), log, []) == Start();
    assert TheSnapshot(early).stateNumber == 200 && |TheSnapshot(early).events| == ACTOR_RING;
    assert first == Place(AllTaken(near, Current(early)), 200);
    hide CounterAfter, Fold, Distracted, Replayed;
    assert first.mirror[0].parts.position == 201 && first.mirror[0].state.position == here;
    var events := TheSnapshot(log).events;
    assert second.mirror == Replayed(first.mirror, events[|events| - 1..], Following(near));
    NewNumbers(events, log, 200, 201);
    EventsAgree(events, log, ACTOR_RING, |events| - 1);
    OneReplayed(near, first.mirror, events[|events| - 1..], 0, 0);
    assert !Told(first.mirror[0], second.mirror[0]);
  }

  lemma RoundAgain()
    ensures CounterAfter(W + 199) == 200 && CounterAfter(W + 200) == 201 && CounterAfter(201) == 201
  {
  }

  /**
   * An actor moved out of range stays visible where it was if the event is replayed, and vanishes if the slot is
   * copied.
   */
  lemma FarMoveDiverges(near: Range, here: Vector, far: Vector)
    requires near(here) && !near(far)
    ensures var log := [Update(0, Someone(here)), Update(0, SetPosition(far))];
            var mirror := AllTaken(near, Current(log[..1]));
            var after := Updated(near, mirror, 1, TheSnapshot(log), Current(log));
            && after[0].state.active && after[0].state.position == here
            && !AllTaken(near, Current(log))[0].state.active
  {
    var log := [Update(0, Someone(here)), Update(0, SetPosition(far))];
    BumpCounts(1);
    BumpCounts(2);
    hide CounterAfter, Ignored;
    assert log[..2] == log && log[..2][..1] == log[..1] && log[..1][..0] == [];
    assert Current([]) == seq(MAX_ACTORS, _ => Revised(0, NO_ACTOR));
    var first, second := Current(log[..1]), Current(log);
    assert first[0] == Revised(1, Actor(true, false, 0, here, 0, 0, false, NO_ANIMATION));
    assert second[0] == Revised(2, Actor(true, false, 0, far, 0, 0, false, NO_ANIMATION));
    var snapshot := TheSnapshot(log);
    assert snapshot.stateNumber == 2 && |snapshot.events| == 2 && snapshot.events[1] == Numbered(2, log[1]);
    var mirror := AllTaken(near, first);
    assert snapshot.events[1..] == [snapshot.events[1]] && [snapshot.events[1]][..0] == [];
    ReplayedNone(mirror, Following(near));
    assert Replayed(mirror, [snapshot.events[1]], Following(near)) ==
      Applied(mirror, snapshot.events[1], Following(near));
  }

  // ----- a session

  datatype Message = Message(id: nat, event: Event, plausible: bool)

  function Total(batches: seq<seq<Message>>): nat {
    if batches == [] then 0 else Total(batches[..|batches| - 1]) + |batches[|batches| - 1]|
  }

  /** Any messages received between two snapshots, and the update from the second. */
  method Turn(store: Store, mirror: Mirror, batch: seq<Message>)
    requires store.Valid() && mirror.Valid() && mirror.eventNumber == store.ring.counter
    requires {store, store.ring, store.ring.slots, store.actors} !! {mirror, mirror.actors}
    modifies store, store.ring, store.ring.slots, store.actors, mirror, mirror.actors
    ensures store.Valid() && mirror.Valid()
    ensures old(store.ring.log) <= store.ring.log && |store.ring.log| <= old(|store.ring.log|) + |batch|
    ensures mirror.eventNumber == if store.ring.counter > old(store.ring.counter) then store.ring.counter
                                  else old(store.ring.counter)
    ensures var (m, n) := (old(|store.ring.log|), |store.ring.log| - old(|store.ring.log|));
            Copies(m, n)
            || (Counted(m, n) && InStepFrom(mirror.near, store.ring.log, m)
                && old(AllShow(mirror.near, mirror.actors[..], store.actors[..]))) ==>
              AllShow(mirror.near, mirror.actors[..], store.actors[..])
    ensures Counted(old(|store.ring.log|), |store.ring.log| - old(|store.ring.log|))
            && old(AllAgreed(mirror.actors[..], store.actors[..]))
            && AllUnused(old(mirror.actors[..]), old(store.ring.counter), store.ring.counter) ==>
              AllTold(old(mirror.actors[..]), mirror.actors[..])
  {
    hide Fold, CounterAfter, AllTold, AllUnused, AllAgreed, AllShow, Updated, Holds, Accepted, Copies, Counted,
      InStepFrom;
    ghost var early, was := store.ring.log, mirror.actors[..];
    for i := 0 to |batch|
      modifies store, store.ring, store.ring.slots, store.actors
      invariant store.Valid() && early <= store.ring.log && |store.ring.log| <= |early| + i
    {
      store.Receive(batch[i].id, batch[i].event, batch[i].plausible);
    }
    assert mirror.actors[..] == was;
    var snapshot := store.TakeSnapshot();
    assert store.ring.log[..|early|] == early;
    ghost var (log, m) := (store.ring.log, |early|);
    if Copies(m, |log| - m) {
      CopyShows(mirror.near, log, snapshot, was, m);
    } else if Counted(m, |log| - m) && InStepFrom(mirror.near, log, m) {
      CatchesUp(mirror.near, log, snapshot, was, m);
    }
    if Counted(m, |log| - m) && AllAgreed(was, Current(early))
       && AllUnused(was, CounterAfter(m), CounterAfter(|log|)) {
      UpdateTells(mirror.near, was, log, snapshot, m);
    }
    mirror.UpdateFromSnapshot(snapshot, store);
  }

  /**
   * After every snapshot of a session of fewer than 2^32 messages the mirror shows every actor, if every event was in
   * step; in particular if every position was in range.
   */
  method Follow(near: Range, batches: seq<seq<Message>>) returns (store: Store, mirror: Mirror)
    requires Total(batches) < W
    ensures store.Valid() && mirror.Valid() && mirror.near == near
    ensures InStepFrom(near, store.ring.log, 0) || AllNear(near, store.ring.log) ==>
              AllShow(near, mirror.actors[..], store.actors[..])
  {
    hide Fold, CounterAfter, Holds, Shows, InStepFrom, AllNear, AllShow, Copies;
    store := new Store();
    mirror := new Mirror(near);
    BumpCounts(0);
    FreshShows(near, mirror.actors[..], store.actors[..]);
    for k := 0 to |batches|
      invariant fresh(store) && fresh(store.ring) && fresh(store.ring.slots) && fresh(store.actors)
      invariant fresh(mirror) && fresh(mirror.actors) && mirror.near == near
      invariant {store, store.ring, store.ring.slots, store.actors} !! {mirror, mirror.actors}
      invariant store.Valid() && mirror.Valid() && mirror.eventNumber == store.ring.counter
      invariant |store.ring.log| <= Total(batches[..k])
      invariant InStepFrom(near, store.ring.log, 0) ==> AllShow(near, mirror.actors[..], store.actors[..])
    {
      assert batches[..k + 1][..k] == batches[..k];
      TotalGrows(batches, k + 1);
      ghost var early := store.ring.log;
      Turn(store, mirror, batches[k]);
      BumpCounts(|early|);
      BumpCounts(|store.ring.log|);
      InStepSoFar(near, early, store.ring.log);
    }
    if AllNear(near, store.ring.log) {
      NearIsInStep(near, store.ring.log);
    }
  }

  lemma InStepSoFar(near: Range, early: seq<Update<Event>>, log: seq<Update<Event>>)
    requires early <= log
    ensures InStepFrom(near, log, 0) ==> InStepFrom(near, early, 0) && InStepFrom(near, log, |early|)
  {
    hide CounterAfter, Current, InStep, Taken;
    if InStepFrom(near, log, 0) {
      forall k | 0 <= k < |early|
        ensures InStepAt(near, early, k)
      {
        assert InStepAt(near, log, k) && early[..k] == log[..k];
      }
    }
  }

  lemma {:induction false} TotalGrows(batches: seq<seq<Message>>, k: nat)
    requires k <= |batches|
    ensures Total(batches[..k]) <= Total(batches)
    decreases |batches|
  {
    if k < |batches| {
      TotalGrows(batches[..|batches| - 1], k);
      assert batches[..|batches| - 1][..k] == batches[..k];
    } else {
      assert batches[..k] == batches;
    }
  }

  lemma FreshShows(near: Range, mirror: seq<Desired>, actors: seq<Revised<Actor>>)
    requires |mirror| == MAX_ACTORS && actors == Current([]) && forall i | 0 <= i < MAX_ACTORS ::
      mirror[i] == NO_DESIRED
    ensures AllShow(near, mirror, actors)
  {
  }

  /** What it is for a mirror to show an actor, field by field. */
  lemma ShowsMeans(near: Range, d: Desired, r: Revised<Actor>)
    ensures Shows(near, d, r) <==>
      var (a, b) := (d.state, r.state);
      if b.active && r.revision != 0 && near(b.position)
      then a.active && d.revision == r.revision && a.position == b.position && a.rotation == b.rotation
           && a.health == b.health && a.skin == b.skin && a.invulnerable == b.invulnerable
           && a.hasAnimation == b.hasAnimation && (a.hasAnimation ==> a.animation == b.animation)
      else !a.active
  {
  }

}
