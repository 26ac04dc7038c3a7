/** Actor slots: the receive side applies each message and keeps it in a ring for the consumer. */
module Actors {
  import opened Words
  import opened EventRing
  import opened Recovery

  const MAX_ACTORS: nat := 1000
  const ACTOR_RING: nat := 128
  const SKIN_LIMIT: int := 311
  const MISSING_SKIN: int := 74
  const IGNORED_LIBRARY: string := "SEX"

  /** Floating-point values are carried as bit patterns and never computed with. */
  type float = word

  datatype Vector = Vector(x: float, y: float, z: float)

  datatype Animation = Animation(library: string, name: string, delta: float, time: int,
                                 loop: bool, lockX: bool, lockY: bool, freeze: bool)

  const NO_ANIMATION: Animation := Animation("", "", 0, 0, false, false, false, false)

  datatype Actor = Actor(active: bool, invulnerable: bool, skin: int, position: Vector, rotation: float, health: float,
                         hasAnimation: bool, animation: Animation)

  const NO_ACTOR: Actor := Actor(false, false, 0, Vector(0, 0, 0), 0, 0, false, NO_ANIMATION)

  datatype Event =
    | Create(skin: int, position: Vector, rotation: float, health: float, invulnerable: bool)
    | Destroy
    | Animate(animation: Animation)
    | ClearAnimations
    | SetFacing(rotation: float)
    | SetPosition(position: Vector)
    | SetHealth(health: float)

  /** The text in a buffer: what stands before the first terminator. */
  function TextOf(buffer: string): string {
    if buffer == [] || buffer[0] == '\0' then [] else [buffer[0]] + TextOf(buffer[1..])
  }

  predicate Ignored(library: string) {
    TextOf(library) == IGNORED_LIBRARY
  }

  /** What the event does to the actor. */
  function Apply(a: Actor, e: Event): Actor {
    match e
    case Create(skin, position, rotation, health, invulnerable) =>
      Actor(true, invulnerable, skin, position, rotation, health, false, NO_ANIMATION)
    case Destroy => NO_ACTOR
    case Animate(animation) =>
      if Ignored(animation.library) then a else a.(hasAnimation := true, animation := animation)
    case ClearAnimations => a.(hasAnimation := false, animation := NO_ANIMATION)
    case SetFacing(rotation) => a.(rotation := rotation)
    case SetPosition(position) => a.(position := position)
    case SetHealth(health) => a.(health := health)
  }

  function Current(log: seq<Update<Event>>): seq<Revised<Actor>> {
    Fold(log, NO_ACTOR, Apply, MAX_ACTORS)
  }

  /** Whether a decoded message is taken up; `plausible` stands for the tests on its floating-point fields. */
  predicate Accepted(actors: seq<Revised<Actor>>, id: nat, e: Event, plausible: bool) {
    && id < |actors| && plausible
    && (if e.Create? then 0 <= e.skin <= SKIN_LIMIT && e.skin != MISSING_SKIN else actors[id].state.active)
  }

  datatype Snapshot = Snapshot(events: seq<Numbered<Update<Event>>>, stateNumber: word)

  ghost predicate SnapshotOf(snapshot: Snapshot, log: seq<Update<Event>>) {
    NewestOf(snapshot.events, log, CounterAfter(|log|), ACTOR_RING) && snapshot.stateNumber == CounterAfter(|log|)
  }

  class Store {
    const ring: Ring<Update<Event>>
    const actors: array<Revised<Actor>>
    var stateNumber: word

    ghost predicate Valid()
      reads this, ring, ring.slots, actors
    {
      && ring.Valid() && ring.slots.Length == ACTOR_RING && actors.Length == MAX_ACTORS
      && actors[..] == Current(ring.log) && stateNumber == ring.counter
    }

    constructor ()
      ensures Valid() && ring.log == [] && fresh(ring) && fresh(ring.slots) && fresh(actors)
    {
      ring := new Ring<Update<Event>>(ACTOR_RING);
      actors := new Revised<Actor>[MAX_ACTORS](_ => Revised(0, NO_ACTOR));
      stateNumber := 0;
      new;
      assert actors[..] == Current([]);
    }

    /** `queue_actor_event` */
    method QueueEvent(id: nat, e: Event) returns (number: word)
      requires ring.Valid()
      modifies this`stateNumber, ring, ring.slots
      ensures ring.Valid() && ring.log == old(ring.log) + [Update(id, e)]
      ensures number == ring.counter == stateNumber == CounterAfter(|ring.log|)
    {
      number := ring.Push(Update(id, e));
      stateNumber := number;
    }

    /** `decode_actor_payload`, from the decoded fields on: the slot is written branch by branch. */
    method Receive(id: nat, e: Event, plausible: bool)
      requires Valid()
      modifies this`stateNumber, ring, ring.slots, actors
      ensures Valid()
      ensures ring.log == if Accepted(old(actors[..]), id, e, plausible) then old(ring.log) + [Update(id, e)]
        else old(ring.log)
    {
      hide Fold, Ignored;
      if id >= MAX_ACTORS || !plausible {
        return;
      }
      if e.Create? && (e.skin < 0 || e.skin > SKIN_LIMIT || e.skin == MISSING_SKIN) {
        return;
      }
      if !e.Create? && !actors[id].state.active {
        return;
      }
      ghost var before := actors[..];
      LogGrows(ring.log, id, e);
      var number := QueueEvent(id, e);
      match e {
        case Create(skin, position, rotation, health, invulnerable) =>
          var state := NO_ACTOR.(active := true, invulnerable := invulnerable, skin := skin);
          actors[id] := Revised(number, state.(position := position, rotation := rotation, health := health));
        case Destroy =>
          actors[id] := Revised(number, NO_ACTOR);
        case Animate(animation) =>
          actors[id] := actors[id].(revision := number);
          if !Ignored(animation.library) {
            actors[id] := actors[id].(state := actors[id].state.(hasAnimation := true, animation := animation));
          }
        case ClearAnimations =>
          actors[id] := Revised(number, actors[id].state.(hasAnimation := false, animation := NO_ANIMATION));
        case SetFacing(rotation) =>
          actors[id] := Revised(number, actors[id].state.(rotation := rotation));
        case SetPosition(position) =>
          actors[id] := Revised(number, actors[id].state.(position := position));
        case SetHealth(health) =>
          actors[id] := Revised(number, actors[id].state.(health := health));
      }
      assert actors[id] == Revised(number, Apply(before[id].state, e));
      assert actors[..] == before[id := actors[id]];
    }

    /** `samp_raknet_client_get_actor_state`: what the consumer's scan reads. */
    method GetActorState(id: nat) returns (r: Option<Revised<Actor>>)
      requires Valid()
      ensures r == if id < MAX_ACTORS then Some(Current(ring.log)[id]) else None
    {
      hide Fold;
      r := if id < MAX_ACTORS then Some(actors[id]) else None;
    }

    /** The actor part of a snapshot: the ring read by its loop; the slots are queried one by one. */
    method TakeSnapshot() returns (snapshot: Snapshot)
      requires Valid()
      ensures SnapshotOf(snapshot, ring.log)
    {
      hide Fold, Holds, CounterAfter;
      var events := ring.Snapshot();
      snapshot := Snapshot(events, stateNumber);
    }
  }

  lemma LogGrows(log: seq<Update<Event>>, id: nat, e: Event)
    requires id < MAX_ACTORS
    ensures Current(log + [Update(id, e)]) ==
            Current(log)[id := Revised(CounterAfter(|log| + 1), Apply(Current(log)[id].state, e))]
  {
    assert (log + [Update(id, e)])[..|log|] == log;
  }

  /** Every actor is the fold of its own events, whatever the other actors received. */
  lemma ActorIsFold(log: seq<Update<Event>>, id: nat)
    requires id < MAX_ACTORS
    ensures Current(log)[id].state == FoldEvents(EventsOf(log, id), NO_ACTOR, Apply)
  {
    SlotIsFold(log, NO_ACTOR, Apply, MAX_ACTORS, id);
  }

  // ----- what can be said of an actor from the messages alone

  /** The animation library that is ignored is exactly the text `SEX`, whatever stands behind its terminator. */
  lemma IgnoredIs(library: string)
    ensures Ignored(library) <==> library == "SEX" || (|library| > 3 && library[..4] == "SEX\0")
  {
    if |library| >= 1 && library[0] != '\0' {
      assert TextOf(library) == [library[0]] + TextOf(library[1..]);
      if |library| >= 2 && library[1] != '\0' {
        assert TextOf(library[1..]) == [library[1]] + TextOf(library[2..]);
        if |library| >= 3 && library[2] != '\0' {
          assert TextOf(library[2..]) == [library[2]] + TextOf(library[3..]);
          if |library| >= 4 && library[3] != '\0' {
            assert TextOf(library[3..]) == [library[3]] + TextOf(library[4..]);
          }
        }
      }
    }
    assert |library| >= 3 ==> library[..3] == [library[0], library[1], library[2]];
    assert |library| > 3 ==> library[..4] == [library[0], library[1], library[2], library[3]];
  }

  /** A later event says something else about what `e` set. */
  predicate Supersedes(later: Event, e: Event) {
    later.Create? || later.Destroy?
    || (e.SetPosition? && later.SetPosition?) || (e.SetFacing? && later.SetFacing?)
    || (e.SetHealth? && later.SetHealth?)
    || ((e.Animate? || e.ClearAnimations?) && (later.Animate? || later.ClearAnimations?))
  }

  predicate LastSaid(log: seq<Update<Event>>, i: nat, k: nat) {
    && k < |log| && log[k].target == i
    && forall j | k < j < |log| && log[j].target == i :: !Supersedes(log[j].event, log[k].event)
  }

  /** What the last event to say something about a part of an actor said is how that part stands. */
  lemma {:induction false} LastEventDecides(log: seq<Update<Event>>, i: nat, k: nat)
    requires i < 1000 && LastSaid(log, i, k)
    ensures var a := Current(log)[i].state;
            match log[k].event
            case Create(skin, position, rotation, health, invulnerable) =>
              a.active && a.skin == skin && a.invulnerable == invulnerable
            case Destroy => !a.active
            case Animate(animation) => !Ignored(animation.library) ==> a.hasAnimation && a.animation == animation
            case ClearAnimations => !a.hasAnimation
            case SetFacing(rotation) => a.rotation == rotation
            case SetPosition(position) => a.position == position
            case SetHealth(health) => a.health == health
    decreases |log|
  {
    hide CounterAfter, Ignored;
    var front := log[..|log| - 1];
    if k < |log| - 1 {
      assert forall j | k < j < |front| :: front[j] == log[j];
      LastEventDecides(front, i, k);
      assert log[|log| - 1].target == i ==> !Supersedes(log[|log| - 1].event, log[k].event);
    }
  }

  /** Position, rotation and health are also as created, until a message sets them; there is no animation before one. */
  lemma {:induction false} CreationDecides(log: seq<Update<Event>>, i: nat, k: nat)
    requires i < 1000 && k < |log| && log[k].target == i && log[k].event.Create?
    requires forall j | k < j < |log| && log[j].target == i :: !log[j].event.Create? && !log[j].event.Destroy?
    ensures var (a, e) := (Current(log)[i].state, log[k].event);
            && ((forall j | k < j < |log| && log[j].target == i :: !log[j].event.SetPosition?)
                  ==> a.position == e.position)
            && ((forall j | k < j < |log| && log[j].target == i :: !log[j].event.SetFacing?)
                  ==> a.rotation == e.rotation)
            && ((forall j | k < j < |log| && log[j].target == i :: !log[j].event.SetHealth?) ==> a.health == e.health)
            && ((forall j | k < j < |log| && log[j].target == i :: !log[j].event.Animate?) ==> !a.hasAnimation)
    decreases |log|
  {
    hide CounterAfter, Ignored;
    var front := log[..|log| - 1];
    if k < |log| - 1 {
      assert forall j | k < j < |front| :: front[j] == log[j];
      CreationDecides(front, i, k);
    }
  }

  /** An ignored animation changes nothing but the number of the actor. */
  lemma IgnoredChangesNothing(log: seq<Update<Event>>, i: nat, animation: Animation)
    requires i < 1000 && Ignored(animation.library)
    ensures Current(log + [Update(i, Animate(animation))])[i].state == Current(log)[i].state
  {
    hide CounterAfter, Ignored;
    LogGrows(log, i, Animate(animation));
  }

  /** Which messages are taken up. */
  lemma AcceptedExactly(log: seq<Update<Event>>, id: nat, e: Event)
    ensures Accepted(Current(log), id, e, true) <==>
      id < 1000 && if e.Create? then 0 <= e.skin <= 311 && e.skin != 74 else Current(log)[id].state.active
    ensures !Accepted(Current(log), id, e, false)
  {
    hide Fold;
  }

  /** A snapshot holds the last 128 events, or all while there are fewer. */
  lemma SnapshotHolds(snapshot: Snapshot, log: seq<Update<Event>>)
    requires SnapshotOf(snapshot, log)
    ensures |log| <= 128 ==> |snapshot.events| == |log|
    ensures 128 <= |log| < W ==> |snapshot.events| == 128
    ensures |log| < W ==>
      forall k | 0 <= k < |snapshot.events| :: snapshot.events[k].event == log[|log| - |snapshot.events| + k]
  {
    BumpCounts(|log|);
    hide CounterAfter;
    if |log| < W {
      forall k | 0 <= k < |snapshot.events|
        ensures snapshot.events[k].event == log[|log| - |snapshot.events| + k]
      {
        EventsAgree(snapshot.events, log, ACTOR_RING, k);
      }
    }
  }
}
