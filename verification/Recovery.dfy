/** State slots driven by a log of events, and the two ways a consumer can catch up with them. */
module Recovery {
  import opened Words
  import opened EventRing

  /** An event for one slot; a slot's state with the sequence number of the last event it received. */
  datatype Update<E> = Update(target: nat, event: E)
  datatype Revised<S> = Revised(revision: word, state: S)

  /** The slots after a whole log: each the fold of its own events, numbered as `bump_seq` numbers them. */
  function Fold<S, E>(log: seq<Update<E>>, zero: S, apply: (S, E) -> S, size: nat): (slots: seq<Revised<S>>)
    ensures |slots| == size
    decreases |log|
  {
    if log == [] then seq(size, _ => Revised(0, zero))
    else
      var before := Fold(log[..|log| - 1], zero, apply, size);
      Received(before, log[|log| - 1], apply, CounterAfter(|log|))
  }

  function Received<S, E>(slots: seq<Revised<S>>, u: Update<E>, apply: (S, E) -> S, number: word): (r: seq<Revised<S>>)
    ensures |r| == |slots|
  {
    if u.target < |slots| then slots[u.target := Revised(number, apply(slots[u.target].state, u.event))] else slots
  }

  /** The events of one slot, in order. */
  function EventsOf<E>(log: seq<Update<E>>, i: nat): seq<E> {
    if log == [] then []
    else
      var last := log[|log| - 1];
      EventsOf(log[..|log| - 1], i) + if last.target == i then [last.event] else []
  }

  function FoldEvents<S, E>(events: seq<E>, zero: S, apply: (S, E) -> S): S {
    if events == [] then zero else apply(FoldEvents(events[..|events| - 1], zero, apply), events[|events| - 1])
  }

  /** Slots do not interfere: each state is the fold of the events addressed to it. */
  lemma {:induction false} SlotIsFold<S, E>(log: seq<Update<E>>, zero: S, apply: (S, E) -> S, size: nat, i: nat)
    requires i < size
    ensures Fold(log, zero, apply, size)[i].state == FoldEvents(EventsOf(log, i), zero, apply)
    decreases |log|
  {
    if log != [] {
      SlotIsFold(log[..|log| - 1], zero, apply, size, i);
      var e := EventsOf(log[..|log| - 1], i);
      var last := log[|log| - 1];
      if last.target == i {
        assert (e + [last.event])[..|e|] == e;
      } else {
        assert e + [] == e;
      }
    }
  }

  /** How many events had come when a slot received its last one. */
  function LastAt<E>(log: seq<Update<E>>, i: nat): (n: nat)
    ensures n <= |log|
  {
    if log == [] then 0 else if log[|log| - 1].target == i then |log| else LastAt(log[..|log| - 1], i)
  }

  lemma {:induction false} RevisionIsLast<S, E>(log: seq<Update<E>>, zero: S, apply: (S, E) -> S, size: nat, i: nat)
    requires i < size
    ensures Fold(log, zero, apply, size)[i].revision == CounterAfter(LastAt(log, i))
    decreases |log|
  {
    hide CounterAfter;
    if log != [] {
      RevisionIsLast(log[..|log| - 1], zero, apply, size, i);
    } else {
      assert CounterAfter(0) == 0 by { BumpCounts(0); }
    }
  }

  /** A slot that received nothing since is as it was. */
  lemma {:induction false} UntouchedSince<S, E>(log: seq<Update<E>>, zero: S, apply: (S, E) -> S, size: nat, s: nat,
                                                i: nat)
    requires i < size && LastAt(log, i) <= s <= |log|
    ensures Fold(log, zero, apply, size)[i] == Fold(log[..s], zero, apply, size)[i]
    decreases |log|
  {
    hide CounterAfter;
    if s < |log| {
      UntouchedSince(log[..|log| - 1], zero, apply, size, s, i);
      assert log[..|log| - 1][..s] == log[..s];
    } else {
      assert log[..s] == log;
    }
  }

  /** Copying by revision: take over the slots whose revision is greater than `s`. */
  function CopyNewer<S>(mirror: seq<Revised<S>>, current: seq<Revised<S>>, s: word): seq<Revised<S>>
    requires |mirror| == |current|
  {
    seq(|mirror|, i requires 0 <= i < |mirror| => if current[i].revision > s then current[i] else mirror[i])
  }

  /** From any earlier mirror, copying by revision gives exactly the current store while the counter has not wrapped. */
  lemma CopyRecovers<S, E>(log: seq<Update<E>>, zero: S, apply: (S, E) -> S, size: nat, s: nat)
    requires s <= |log| < W
    ensures CopyNewer(Fold(log[..s], zero, apply, size), Fold(log, zero, apply, size), s) ==
      Fold(log, zero, apply, size)
  {
    hide Fold, CounterAfter;
    BumpCounts(s);
    forall i | 0 <= i < size
      ensures CopyNewer(Fold(log[..s], zero, apply, size), Fold(log, zero, apply, size), s)[i] ==
        Fold(log, zero, apply, size)[i]
    {
      BumpCounts(LastAt(log, i));
      CopyIsExact(log, zero, apply, size, s, i);
    }
  }

  /**
   * For logs of any length: a slot is missed exactly when its last event came later, was numbered from the start again,
   * and changed it.
   */
  lemma CopyIsExact<S, E>(log: seq<Update<E>>, zero: S, apply: (S, E) -> S, size: nat, s: nat, i: nat)
    requires s <= |log| && i < size
    ensures var (mirror, current) := (Fold(log[..s], zero, apply, size), Fold(log, zero, apply, size));
            CopyNewer(mirror, current, CounterAfter(s))[i] != current[i] <==>
            LastAt(log, i) > s && CounterAfter(LastAt(log, i)) <= CounterAfter(s) && mirror[i] != current[i]
  {
    hide Fold, CounterAfter;
    RevisionIsLast(log, zero, apply, size, i);
    if LastAt(log, i) <= s {
      UntouchedSince(log, zero, apply, size, s, i);
    }
  }

  /** A numbered event applied to the slot it is for; `move` says what it does there. */
  function Applied<M, E>(mirror: seq<M>, u: Numbered<Update<E>>, move: (M, word, E) -> M): (r: seq<M>)
    ensures |r| == |mirror|
  {
    var id := u.event.target;
    if id < |mirror| then mirror[id := move(mirror[id], u.number, u.event.event)] else mirror
  }

  /** Numbered events applied one after the other. */
  function Replayed<M, E>(mirror: seq<M>, events: seq<Numbered<Update<E>>>, move: (M, word, E) -> M): (r: seq<M>)
    ensures |r| == |mirror|
  {
    if events == [] then mirror
    else Applied(Replayed(mirror, events[..|events| - 1], move), events[|events| - 1], move)
  }

  lemma ReplayedNone<M, E>(mirror: seq<M>, move: (M, word, E) -> M)
    ensures Replayed(mirror, [], move) == mirror
  {
  }

  lemma ReplayedOneMore<M, E>(mirror: seq<M>, events: seq<Numbered<Update<E>>>, u: Numbered<Update<E>>,
                              move: (M, word, E) -> M)
    ensures Replayed(mirror, events + [u], move) == Applied(Replayed(mirror, events, move), u, move)
  {
    hide Applied;
    assert (events + [u])[..|events|] == events;
  }

  /** A slot that none of the events is for stays as it is. */
  lemma {:induction false} OthersReplayed<M, E>(mirror: seq<M>, events: seq<Numbered<Update<E>>>,
                                                move: (M, word, E) -> M, i: nat)
    requires i < |mirror| && forall k | 0 <= k < |events| :: events[k].event.target != i
    ensures Replayed(mirror, events, move)[i] == mirror[i]
    decreases |events|
  {
    if events != [] {
      OthersReplayed(mirror, events[..|events| - 1], move, i);
    }
  }

  /** What an event does to a slot of the store itself. */
  function Moving<S, E>(apply: (S, E) -> S): (Revised<S>, word, E) -> Revised<S> {
    (r: Revised<S>, number: word, e: E) => Revised(number, apply(r.state, e))
  }

  /** The events of a snapshot carry the numbers they were queued under. */
  lemma NumbersAgree<T(!new)>(events: seq<Numbered<T>>, log: seq<T>, size: nat, i: nat)
    requires NewestOf(events, log, CounterAfter(|log|), size) && i < |events|
    ensures events[i].number == CounterAfter(|log| - |events| + i + 1)
  {
    hide CounterAfter;
    CounterBack(|log|, |events| - 1 - i);
  }

  /**
   * From any earlier mirror, replaying the events of a ring snapshot that came after `s` gives exactly the current
   * store, provided no more events were queued since than the snapshot holds.
   */
  lemma {:induction false} ReplayRecovers<S, E(!new)>(log: seq<Update<E>>, zero: S, apply: (S, E) -> S, size: nat,
                                                      s: nat, ring: nat, events: seq<Numbered<Update<E>>>)
    requires NewestOf(events, log, CounterAfter(|log|), ring) && s <= |log| <= s + |events|
    ensures Replayed(Fold(log[..s], zero, apply, size), events[|events| - (|log| - s)..], Moving(apply))
            == Fold(log, zero, apply, size)
  {
    hide CounterAfter, NewestOf;
    assert log[..|log|] == log;
    var from := |events| - (|log| - s);
    for n := s to |log|
      invariant Replayed(Fold(log[..s], zero, apply, size), events[from..from + (n - s)], Moving(apply))
                == Fold(log[..n], zero, apply, size)
    {
      var k := from + (n - s);
      assert events[from..k + 1][..n - s] == events[from..k];
      assert log[..n + 1][..n] == log[..n];
      NumbersAgree(events, log, ring, k);
      EventsAgree(events, log, ring, k);
    }
    assert events[from..|events|] == events[from..];
  }

  lemma EventsAgree<T(!new)>(events: seq<Numbered<T>>, log: seq<T>, size: nat, i: nat)
    requires NewestOf(events, log, CounterAfter(|log|), size) && i < |events|
    ensures |events| <= |log| && events[i].event == log[|log| - |events| + i]
  {
    hide CounterAfter;
  }
}
