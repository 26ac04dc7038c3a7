/** Bounded event rings with a 32-bit sequence counter that skips zero, and their snapshots. */
module EventRing {
  import opened Words

  /** The counter after `n` events: it runs through 1 .. 2^32 - 1 and starts again at 1. */
  function CounterAfter(n: nat): word {
    if n == 0 then 0 else (n - 1) % (W - 1) + 1
  }

  /** `bump_seq` */
  function Bumped(counter: word): word {
    if counter == W - 1 then 1 else counter + 1
  }

  lemma BumpCounts(n: nat)
    ensures Bumped(CounterAfter(n)) == CounterAfter(n + 1)
    ensures CounterAfter(n) <= n && (n < W ==> CounterAfter(n) == n)
  {
    if n > 0 {
      var q, r := (n - 1) / (W - 1), (n - 1) % (W - 1);
      assert n - 1 == (W - 1) * q + r;
      if r == W - 2 {
        assert n == (W - 1) * (q + 1);
        assert n % (W - 1) == 0 by { ModOf(q + 1, 0); }
      } else {
        assert n % (W - 1) == r + 1 by { ModOf(q, r + 1); }
      }
    }
  }

  /** Counting back within the values counted since the counter last started. */
  lemma {:induction false} CounterBack(n: nat, k: nat)
    requires k < CounterAfter(n)
    ensures k <= n && CounterAfter(n - k) == CounterAfter(n) - k
    decreases k
  {
    BumpCounts(n);
    if k > 0 {
      BumpCounts(n - 1);
      CounterBack(n - 1, k - 1);
    }
  }

  /** Fewer than 2^32 - 1 events apart, counter values that have not fallen differ by the number of events. */
  lemma CounterDistance(s: nat, n: nat)
    requires n < W - 1 && CounterAfter(s) <= CounterAfter(s + n)
    ensures CounterAfter(s + n) == CounterAfter(s) + n
  {
    if s > 0 {
      var (p, q) := ((s - 1) / (W - 1), (s + n - 1) / (W - 1));
      assert s - 1 == (W - 1) * p + (s - 1) % (W - 1) && s + n - 1 == (W - 1) * q + (s + n - 1) % (W - 1);
      NoMultipleBetween(W - 1, q - p);
      assert (W - 1) * (q - p) == (W - 1) * q - (W - 1) * p;
    }
  }

  lemma ModOf(q: nat, r: nat)
    requires r < W - 1
    ensures ((W - 1) * q + r) % (W - 1) == r
  {
  }

  lemma NoMultipleBetween(size: nat, d: int)
    ensures !(0 < size * d < size)
  {
    if d >= 1 {
      assert size * d >= size * 1 by { MulMonotone(size, 1, d); }
    } else {
      assert size * d <= size * 0 by { MulMonotone(size, d, 0); }
    }
  }

  lemma MulMonotone(x: nat, a: int, b: int)
    requires a <= b
    ensures x * a <= x * b
  {
  }

  /** The slot of sequence number `q`. */
  function Place(q: nat, size: nat): (slot: nat)
    requires q > 0 && size > 0
    ensures slot < size
  {
    (q - 1) % size
  }

  lemma DifferentSlots(a: nat, b: nat, size: nat)
    requires size > 0 && 0 < a < b < a + size
    ensures Place(a, size) != Place(b, size)
  {
    var p, q := (a - 1) / size, (b - 1) / size;
    assert a - 1 == size * p + Place(a, size) && b - 1 == size * q + Place(b, size);
    assert size * q - size * p == size * (q - p);
    NoMultipleBetween(size, q - p);
  }

  datatype Slot<T> = Blank | Filled(number: word, event: T)

  function Least(a: nat, b: nat): nat { if a < b then a else b }

  datatype Numbered<T> = Numbered(number: word, event: T)

  /** The newest events of a log with their numbers, as many as a ring of that size still holds, in order. */
  ghost predicate NewestOf<T(!new)>(events: seq<Numbered<T>>, log: seq<T>, counter: word, size: nat) {
    && |events| == Least(counter, size) <= |log|
    && forall i | 0 <= i < |events| :: events[i] == Numbered(counter - |events| + 1 + i, log[|log| - |events| + i])
  }

  /** The events numbered by the last `Least(counter, size)` values of the counter stand in their slots. */
  ghost predicate Holds<T(!new)>(slots: seq<Slot<T>>, counter: word, log: seq<T>) {
    && |slots| > 0 && counter <= |log|
    && forall q | 0 < q <= counter < q + |slots| ::
      slots[Place(q, |slots|)] == Filled(q, log[|log| - 1 - (counter - q)])
  }

  lemma HeldAt<T(!new)>(slots: seq<Slot<T>>, counter: word, log: seq<T>, q: nat)
    requires Holds(slots, counter, log) && 0 < q <= counter < q + |slots|
    ensures counter <= |log| && slots[Place(q, |slots|)] == Filled(q, log[|log| - 1 - (counter - q)])
  {
  }

  lemma PushKeeps<T(!new)>(slots: seq<Slot<T>>, counter: word, log: seq<T>, event: T)
    requires Holds(slots, counter, log)
    ensures var c := Bumped(counter);
            Holds(slots[Place(c, |slots|) := Filled(c, event)], c, log + [event])
  {
    var c, size := Bumped(counter), |slots|;
    var slots' := slots[Place(c, size) := Filled(c, event)];
    forall q | 0 < q <= c < q + size
      ensures slots'[Place(q, size)] == Filled(q, (log + [event])[|log| - (c - q)])
    {
      if q < c {
        DifferentSlots(q, c, size);
        assert slots[Place(q, size)] == Filled(q, log[|log| - 1 - (counter - q)]);
      }
    }
  }

  lemma NumberAt<T(!new)>(events: seq<Numbered<T>>, log: seq<T>, counter: word, size: nat, i: nat)
    requires NewestOf(events, log, counter, size) && i < |events|
    ensures |events| <= counter && events[i].number == counter - |events| + 1 + i
  {
  }

  ghost function TheNewest<T(!new)>(log: seq<T>, size: nat): (events: seq<Numbered<T>>)
    ensures NewestOf(events, log, CounterAfter(|log|), size)
  {
    BumpCounts(|log|);
    var c := CounterAfter(|log|);
    var n := Least(c, size);
    seq(n, i requires 0 <= i < n => Numbered(c - n + 1 + i, log[|log| - n + i]))
  }

  class Ring<T(!new)> {
    const slots: array<Slot<T>>
    var counter: word
    ghost var log: seq<T>

    ghost predicate Valid()
      reads this, slots
    {
      slots.Length > 0 && counter == CounterAfter(|log|) && Holds(slots[..], counter, log)
    }

    constructor (size: nat)
      requires size > 0
      ensures Valid() && log == [] && slots.Length == size && fresh(slots)
    {
      slots := new Slot<T>[size](_ => Blank);
      counter, log := 0, [];
    }

    method Push(event: T) returns (number: word)
      requires Valid()
      modifies this, slots
      ensures Valid() && log == old(log) + [event] && number == counter == CounterAfter(|log|)
    {
      hide Holds;
      BumpCounts(|log|);
      PushKeeps(slots[..], counter, log, event);
      ghost var before := slots[..];
      counter := if counter == W - 1 then 1 else counter + 1;
      number := counter;
      PositiveSize(before, old(counter), log);
      slots[Place(number, slots.Length)] := Filled(number, event);
      assert slots[..] == before[Place(number, |before|) := Filled(number, event)];
      log := log + [event];
    }

    lemma PositiveSize(s: seq<Slot<T>>, c: word, l: seq<T>)
      requires Holds(s, c, l)
      ensures |s| > 0
    {
    }

    /** Forgets every event, as when the session is reset. */
    method Clear()
      requires Valid()
      modifies this, slots
      ensures Valid() && log == []
    {
      for i := 0 to slots.Length {
        slots[i] := Blank;
      }
      counter, log := 0, [];
    }

    /** One turn of a snapshot loop: the slot is read, and its event kept if the number in it is the one asked for. */
    method Read(number: word) returns (events: seq<Numbered<T>>)
      requires Valid() && 0 < number <= counter < number + slots.Length
      ensures counter <= |log| && events == [Numbered(number, log[|log| - 1 - (counter - number)])]
    {
      HeldAt(slots[..], counter, log, number);
      hide Holds;
      var slot := slots[Place(number, slots.Length)];
      events := if slot.Filled? && slot.number == number then [Numbered(slot.number, slot.event)] else [];
    }

    /** The snapshot loop: the newest events, in order, and none of them dropped by the test of its number. */
    method Snapshot() returns (events: seq<Numbered<T>>)
      requires Valid()
      ensures NewestOf(events, log, counter, slots.Length)
    {
      BumpCounts(|log|);
      hide Holds, CounterAfter;
      events := [];
      if counter > 0 {
        var available := if counter < slots.Length then counter else slots.Length;
        var first := counter - available + 1;
        for i := 0 to available
          invariant |events| == i
          invariant forall j | 0 <= j < i :: events[j] == Numbered(first + j, log[|log| - available + j])
        {
          var read := Read(first + i);
          events := events + read;
        }
      }
    }

    /** The other form of the loop, running while `number <= counter`: the same result, below the last counter value. */
    method SnapshotUpTo() returns (events: seq<Numbered<T>>)
      requires Valid() && counter < W - 1
      ensures NewestOf(events, log, counter, slots.Length)
    {
      BumpCounts(|log|);
      hide Holds, CounterAfter;
      events := [];
      if counter > 0 {
        var available := if counter < slots.Length then counter else slots.Length;
        var first := counter - available + 1;
        var number := first;
        while number <= counter
          invariant first <= number <= counter + 1 && |events| == number - first
          invariant forall j | 0 <= j < |events| :: events[j] == Numbered(first + j, log[|log| - available + j])
        {
          var read := Read(number);
          events := events + read;
          InRange(number + 1);
          number := (number + 1) % W;
        }
      }
    }
  }

  lemma InRange(x: nat)
    requires x < W
    ensures x % W == x
  {
  }

  /** The loop variable of that form after `k` turns. */
  function LoopVariable(first: word, k: nat): word {
    (first + k) % W
  }

  /** With a 32-bit loop variable that form comes to an end exactly when the counter is not the last value. */
  lemma LoopEnds(first: word, counter: word)
    requires first <= counter
    ensures (exists k: nat :: LoopVariable(first, k) > counter) <==> counter < W - 1
  {
    if counter < W - 1 {
      assert LoopVariable(first, counter + 1 - first) == counter + 1;
    }
  }
}
