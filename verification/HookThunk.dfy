/** The generated hook thunks: the bytes that are emitted, and what running them does. */
module HookThunk {
  import opened Words

  const STUB_SIZE: nat := 25

  // ----- the instruction forms the emitter uses

  datatype Instr =
    | LoadEax(address: word)    // mov eax, [address]
    | TestEax                   // test eax, eax
    | JumpIfZero(skip: byte)    // jz short
    | CallEax
    | JumpEax
    | PushAll                   // pushad
    | PopAll                    // popad
    | Return

  /** The instruction at an offset, if the bytes there are one of the known forms. */
  function Fetch(code: seq<byte>, at: nat): Option<Instr> {
    if at >= |code| then None
    else if code[at] == 0x60 then Some(PushAll)
    else if code[at] == 0x61 then Some(PopAll)
    else if code[at] == 0xC3 then Some(Return)
    else if code[at] == 0xA1 then if at + 5 <= |code| then Some(LoadEax(LoadLe32(code, at + 1))) else None
    else if at + 2 > |code| then None
    else if code[at] == 0x85 && code[at + 1] == 0xC0 then Some(TestEax)
    else if code[at] == 0x74 then Some(JumpIfZero(code[at + 1]))
    else if code[at] == 0xFF && code[at + 1] == 0xD0 then Some(CallEax)
    else if code[at] == 0xFF && code[at + 1] == 0xE0 then Some(JumpEax)
    else None
  }

  /** The thunk that calls the callback before handing over to the original. */
  predicate CallbackFirst(code: seq<byte>, callback: word, original: word) {
    && |code| == STUB_SIZE
    && Fetch(code, 0) == Some(PushAll)
    && Guarded(code, 1, callback) && Fetch(code, 10) == Some(CallEax)
    && Fetch(code, 12) == Some(PopAll)
    && Guarded(code, 13, original) && Fetch(code, 22) == Some(JumpEax)
    && Fetch(code, 24) == Some(Return)
  }

  /** The thunk that calls the original before the callback. */
  predicate OriginalFirst(code: seq<byte>, callback: word, original: word) {
    && |code| == STUB_SIZE
    && Guarded(code, 0, original) && Fetch(code, 9) == Some(CallEax)
    && Fetch(code, 11) == Some(PushAll)
    && Guarded(code, 12, callback) && Fetch(code, 21) == Some(CallEax)
    && Fetch(code, 23) == Some(PopAll)
    && Fetch(code, 24) == Some(Return)
  }

  /** `mov eax, [slot] ; test eax, eax ; jz +2` */
  predicate Guarded(code: seq<byte>, at: nat, slot: word) {
    Fetch(code, at) == Some(LoadEax(slot)) && Fetch(code, at + 5) == Some(TestEax)
      && Fetch(code, at + 7) == Some(JumpIfZero(2))
  }

  method EmitByte(thunk: array<byte>, cursor: nat, b: byte) returns (next: nat)
    requires cursor < thunk.Length
    modifies thunk
    ensures next == cursor + 1 && thunk[..next] == old(thunk[..cursor]) + [b]
  {
    thunk[cursor] := b;
    next := cursor + 1;
  }

  method EmitBytes(thunk: array<byte>, cursor: nat, bytes: seq<byte>) returns (next: nat)
    requires cursor + |bytes| <= thunk.Length
    modifies thunk
    ensures next == cursor + |bytes| && thunk[..next] == old(thunk[..cursor]) + bytes
  {
    next := cursor;
    for i := 0 to |bytes|
      invariant next == cursor + i && thunk[..next] == old(thunk[..cursor]) + bytes[..i]
    {
      next := EmitByte(thunk, next, bytes[i]);
    }
    assert bytes[..|bytes|] == bytes;
  }

  /** `create_generated_graphics_hook_thunk`: the cursor ends exactly at the size allocated, in both modes. */
  method EmitThunk(thunk: array<byte>, callbackSlot: word, originalSlot: word, callbackAfterOriginal: bool)
    returns (cursor: nat)
    requires thunk.Length == STUB_SIZE
    modifies thunk
    ensures cursor == STUB_SIZE
    ensures if callbackAfterOriginal then OriginalFirst(thunk[..], callbackSlot, originalSlot)
            else CallbackFirst(thunk[..], callbackSlot, originalSlot)
    ensures callbackAfterOriginal ==>
      thunk[..] == [0xA1] + StoreLe32(originalSlot) + [0x85, 0xC0, 0x74, 0x02, 0xFF, 0xD0, 0x60, 0xA1]
                   + StoreLe32(callbackSlot) + [0x85, 0xC0, 0x74, 0x02, 0xFF, 0xD0, 0x61, 0xC3]
    ensures !callbackAfterOriginal ==>
      thunk[..] == [0x60, 0xA1] + StoreLe32(callbackSlot) + [0x85, 0xC0, 0x74, 0x02, 0xFF, 0xD0, 0x61, 0xA1]
                   + StoreLe32(originalSlot) + [0x85, 0xC0, 0x74, 0x02, 0xFF, 0xE0, 0xC3]
  {
    hide StoreLe32, CallbackFirst, OriginalFirst;
    if callbackAfterOriginal {
      cursor := EmitOriginalFirst(thunk, StoreLe32(originalSlot), StoreLe32(callbackSlot));
      OriginalFirstBytes(thunk[..], callbackSlot, originalSlot);
    } else {
      cursor := EmitCallbackFirst(thunk, StoreLe32(originalSlot), StoreLe32(callbackSlot));
      CallbackFirstBytes(thunk[..], callbackSlot, originalSlot);
    }
  }

  /** The branch for the callback after the original. */
  method EmitOriginalFirst(thunk: array<byte>, original: seq<byte>, callback: seq<byte>) returns (cursor: nat)
    requires thunk.Length == STUB_SIZE && |original| == |callback| == 4
    modifies thunk
    ensures cursor == STUB_SIZE
    ensures thunk[..] == [0xA1] + original + [0x85, 0xC0, 0x74, 0x02, 0xFF, 0xD0, 0x60, 0xA1] + callback
                         + [0x85, 0xC0, 0x74, 0x02, 0xFF, 0xD0, 0x61, 0xC3]
  {
    cursor := EmitByte(thunk, 0, 0xA1);
    cursor := EmitBytes(thunk, cursor, original);
    cursor := EmitBytes(thunk, cursor, [0x85, 0xC0, 0x74, 0x02, 0xFF, 0xD0]);
    cursor := EmitBytes(thunk, cursor, [0x60, 0xA1]);
    cursor := EmitBytes(thunk, cursor, callback);
    cursor := EmitBytes(thunk, cursor, [0x85, 0xC0, 0x74, 0x02, 0xFF, 0xD0]);
    cursor := EmitBytes(thunk, cursor, [0x61, 0xC3]);
    assert thunk[..] == thunk[..cursor];
  }

  /** The branch for the callback before the original. */
  method EmitCallbackFirst(thunk: array<byte>, original: seq<byte>, callback: seq<byte>) returns (cursor: nat)
    requires thunk.Length == STUB_SIZE && |original| == |callback| == 4
    modifies thunk
    ensures cursor == STUB_SIZE
    ensures thunk[..] == [0x60, 0xA1] + callback + [0x85, 0xC0, 0x74, 0x02, 0xFF, 0xD0, 0x61, 0xA1] + original
                         + [0x85, 0xC0, 0x74, 0x02, 0xFF, 0xE0, 0xC3]
  {
    cursor := EmitByte(thunk, 0, 0x60);
    cursor := EmitByte(thunk, cursor, 0xA1);
    cursor := EmitBytes(thunk, cursor, callback);
    cursor := EmitBytes(thunk, cursor, [0x85, 0xC0, 0x74, 0x02, 0xFF, 0xD0]);
    cursor := EmitBytes(thunk, cursor, [0x61, 0xA1]);
    cursor := EmitBytes(thunk, cursor, original);
    cursor := EmitBytes(thunk, cursor, [0x85, 0xC0, 0x74, 0x02, 0xFF, 0xE0]);
    cursor := EmitByte(thunk, cursor, 0xC3);
    assert thunk[..] == thunk[..cursor];
  }

  lemma OriginalFirstBytes(code: seq<byte>, callback: word, original: word)
    requires code == [0xA1] + StoreLe32(original) + [0x85, 0xC0, 0x74, 0x02, 0xFF, 0xD0, 0x60, 0xA1]
                     + StoreLe32(callback) + [0x85, 0xC0, 0x74, 0x02, 0xFF, 0xD0, 0x61, 0xC3]
    ensures OriginalFirst(code, callback, original)
  {
    hide StoreLe32, Le32;
    assert code[1..5] == StoreLe32(original) && code[13..17] == StoreLe32(callback);
    LoadStored(code, 1, original);
    LoadStored(code, 13, callback);
  }

  lemma CallbackFirstBytes(code: seq<byte>, callback: word, original: word)
    requires code == [0x60, 0xA1] + StoreLe32(callback) + [0x85, 0xC0, 0x74, 0x02, 0xFF, 0xD0, 0x61, 0xA1]
                     + StoreLe32(original) + [0x85, 0xC0, 0x74, 0x02, 0xFF, 0xE0, 0xC3]
    ensures CallbackFirst(code, callback, original)
  {
    hide StoreLe32, Le32;
    assert code[2..6] == StoreLe32(callback) && code[14..18] == StoreLe32(original);
    LoadStored(code, 2, callback);
    LoadStored(code, 14, original);
  }

  // ----- a small machine

  datatype Regs = Regs(eax: word, ecx: word, edx: word, ebx: word, esp: word, ebp: word, esi: word, edi: word)

  /** Either inside the thunk at an offset, or gone to an address. */
  datatype Where = At(offset: nat) | Gone(to: word) | Stuck

  type Memory = map<int, word>

  function Peek(m: Memory, a: int): word {
    if a in m then m[a] else 0
  }

  datatype Machine = Machine(pc: Where, regs: Regs, zero: bool, memory: Memory, calls: seq<word>)

  /** How a called function leaves the machine: the convention fixes ESP and the caller's frame and nothing else. */
  datatype Outcome = Outcome(regs: Regs, zero: bool, memory: Memory)

  predicate Conventional(o: Outcome, esp: word, memory: Memory, frameEnd: int) {
    o.regs.esp == esp && forall a :: esp <= a < frameEnd ==> Peek(o.memory, a) == Peek(memory, a)
  }

  function Pushed(r: Regs, m: Memory): Memory {
    m[r.esp - 4 := r.eax][r.esp - 8 := r.ecx][r.esp - 12 := r.edx][r.esp - 16 := r.ebx]
     [r.esp - 20 := r.esp][r.esp - 24 := r.ebp][r.esp - 28 := r.esi][r.esp - 32 := r.edi]
  }

  function Popped(esp: word, m: Memory): Regs
    requires esp + 32 < W
  {
    Regs(Peek(m, esp + 28), Peek(m, esp + 24), Peek(m, esp + 20), Peek(m, esp + 16), esp + 32,
         Peek(m, esp + 8), Peek(m, esp + 4), Peek(m, esp))
  }

  /** One instruction; the `k`-th call made is answered by `answers[k]`. */
  function Step(code: seq<byte>, answers: seq<Outcome>, m: Machine): Machine {
    if !m.pc.At? then m else
    var at, r := m.pc.offset, m.regs;
    match Fetch(code, at)
    case None => m.(pc := Stuck)
    case Some(i) =>
      match i
      case LoadEax(a) => m.(pc := At(at + 5), regs := r.(eax := Peek(m.memory, a)))
      case TestEax => m.(pc := At(at + 2), zero := r.eax == 0)
      case JumpIfZero(n) => m.(pc := At(if m.zero then at + 2 + n else at + 2))
      case CallEax => if |m.calls| >= |answers| then m.(pc := Stuck) else
                      var o := answers[|m.calls|];
                      Machine(At(at + 2), o.regs, o.zero, o.memory, m.calls + [r.eax])
      case JumpEax => m.(pc := Gone(r.eax))
      case PushAll => if r.esp < 32 then m.(pc := Stuck)
                      else m.(pc := At(at + 1), regs := r.(esp := r.esp - 32), memory := Pushed(r, m.memory))
      case PopAll => if r.esp + 32 >= W then m.(pc := Stuck)
                     else m.(pc := At(at + 1), regs := Popped(r.esp, m.memory))
      case Return => if r.esp + 4 >= W then m.(pc := Stuck)
                     else m.(pc := Gone(Peek(m.memory, r.esp)), regs := r.(esp := r.esp + 4))
  }

  function Run(code: seq<byte>, answers: seq<Outcome>, m: Machine, n: nat): Machine {
    if n == 0 then m else Step(code, answers, Run(code, answers, m, n - 1))
  }

  /** Running from `m` comes to `end`. A machine that has gone stays gone, so it comes to only one such end. */
  ghost predicate Leads(code: seq<byte>, answers: seq<Outcome>, m: Machine, end: Machine) {
    exists n: nat :: Run(code, answers, m, n) == end
  }

  lemma LeadsOn(code: seq<byte>, answers: seq<Outcome>, m: Machine, mid: Machine)
    requires Leads(code, answers, m, mid)
    ensures Leads(code, answers, m, Step(code, answers, mid))
  {
    hide Step;
    var n: nat :| Run(code, answers, m, n) == mid;
    assert Run(code, answers, m, n + 1) == Step(code, answers, mid);
  }

  lemma {:induction false} GoneStays(code: seq<byte>, answers: seq<Outcome>, m: Machine, n: nat, k: nat)
    requires Run(code, answers, m, n).pc.Gone? && n <= k
    ensures Run(code, answers, m, k) == Run(code, answers, m, n)
    decreases k
  {
    if n < k {
      GoneStays(code, answers, m, n, k - 1);
    }
  }

  /** The end of a run is unique. */
  lemma EndUnique(code: seq<byte>, answers: seq<Outcome>, m: Machine, e: Machine, e': Machine)
    requires Leads(code, answers, m, e) && Leads(code, answers, m, e') && e.pc.Gone? && e'.pc.Gone?
    ensures e == e'
  {
    hide Run;
    var n: nat :| Run(code, answers, m, n) == e;
    var k: nat :| Run(code, answers, m, k) == e';
    if n <= k { GoneStays(code, answers, m, n, k); } else { GoneStays(code, answers, m, k, n); }
  }

  /** The load, the test and the jump: three instructions later the machine skips or is about to act on EAX. */
  lemma GuardRuns(code: seq<byte>, answers: seq<Outcome>, start: Machine, m: Machine, slot: word)
    requires Leads(code, answers, start, m) && m.pc.At? && Guarded(code, m.pc.offset, slot)
    ensures var v := Peek(m.memory, slot);
            Leads(code, answers, start,
                  m.(pc := At(m.pc.offset + if v == 0 then 11 else 9), regs := m.regs.(eax := v), zero := v == 0))
  {
    hide Fetch, Leads;
    var m1 := Step(code, answers, m);
    var m2 := Step(code, answers, m1);
    LeadsOn(code, answers, start, m);
    LeadsOn(code, answers, start, m1);
    LeadsOn(code, answers, start, m2);
  }

  /** The machine after a call through a slot, unless the slot is null. */
  function AfterCall(m: Machine, slot: word, answers: seq<Outcome>): Machine
    requires m.pc.At? && |m.calls| < |answers|
  {
    var v, o := Peek(m.memory, slot), answers[|m.calls|];
    if v == 0 then m.(pc := At(m.pc.offset + 11), regs := m.regs.(eax := 0), zero := true)
    else Machine(At(m.pc.offset + 11), o.regs, o.zero, o.memory, m.calls + [v])
  }

  lemma CallRuns(code: seq<byte>, answers: seq<Outcome>, start: Machine, m: Machine, slot: word)
    requires Leads(code, answers, start, m) && m.pc.At? && |m.calls| < |answers|
    requires Guarded(code, m.pc.offset, slot) && Fetch(code, m.pc.offset + 9) == Some(CallEax)
    ensures Leads(code, answers, start, AfterCall(m, slot, answers))
  {
    GuardRuns(code, answers, start, m, slot);
    hide Fetch, Leads, Guarded;
    var v := Peek(m.memory, slot);
    if v != 0 {
      LeadsOn(code, answers, start, m.(pc := At(m.pc.offset + 9), regs := m.regs.(eax := v), zero := false));
    }
  }

  /** What was pushed is popped again, if the frame is still there. */
  lemma PushPop(r: Regs, m: Memory, m': Memory)
    requires 32 <= r.esp
    requires forall a :: r.esp - 32 <= a < r.esp ==> Peek(m', a) == Peek(Pushed(r, m), a)
    ensures Popped(r.esp - 32, m') == r
  {
    var p := Pushed(r, m);
    assert Peek(m', r.esp - 4) == Peek(p, r.esp - 4) && Peek(m', r.esp - 8) == Peek(p, r.esp - 8);
    assert Peek(m', r.esp - 12) == Peek(p, r.esp - 12) && Peek(m', r.esp - 16) == Peek(p, r.esp - 16);
    assert Peek(m', r.esp - 24) == Peek(p, r.esp - 24) && Peek(m', r.esp - 28) == Peek(p, r.esp - 28);
    assert Peek(m', r.esp - 32) == Peek(p, r.esp - 32);
  }

  lemma PushKeeps(r: Regs, m: Memory, a: int)
    requires a >= r.esp || a < r.esp - 32
    ensures Peek(Pushed(r, m), a) == Peek(m, a)
  {
  }

  /** About to run a thunk: at its first byte, the return address on top of the stack, room below it. */
  predicate Entered(m: Machine) {
    m.pc == At(0) && m.calls == [] && 64 <= m.regs.esp < W - 64
  }

  /**
   * No octet of the slot is among the 32 that the thunk pushes; memory is kept by words, so a partial overlap would
   * be lost.
   */
  predicate Clear(slot: word, esp: word) {
    slot + 4 <= esp - 32 || slot >= esp
  }

  function CallIf(target: word): seq<word> {
    if target == 0 then [] else [target]
  }

  /** Pushing, calling through a slot and popping gives the registers back, even if the callee spoils all of them. */
  lemma Bracketed(code: seq<byte>, answers: seq<Outcome>, start: Machine, m: Machine, slot: word) returns (end: Machine)
    requires Leads(code, answers, start, m) && m.pc.At? && |m.calls| < |answers|
    requires 64 <= m.regs.esp < W - 64 && Clear(slot, m.regs.esp)
    requires Fetch(code, m.pc.offset) == Some(PushAll) && Guarded(code, m.pc.offset + 1, slot)
    requires Fetch(code, m.pc.offset + 10) == Some(CallEax) && Fetch(code, m.pc.offset + 12) == Some(PopAll)
    requires Conventional(answers[|m.calls|], m.regs.esp - 32, Pushed(m.regs, m.memory), m.regs.esp + 4)
    ensures Leads(code, answers, start, end)
    ensures end.pc == At(m.pc.offset + 13) && end.regs == m.regs && end.calls == m.calls + CallIf(Peek(m.memory, slot))
    ensures Peek(end.memory, m.regs.esp) == Peek(m.memory, m.regs.esp)
    ensures end.memory == if Peek(m.memory, slot) == 0 then Pushed(m.regs, m.memory) else answers[|m.calls|].memory
  {
    hide Fetch, Leads, Guarded, Pushed, Popped;
    LeadsOn(code, answers, start, m);
    var m1 := Step(code, answers, m);
    assert m1 == m.(pc := At(m.pc.offset + 1), regs := m.regs.(esp := m.regs.esp - 32),
                    memory := Pushed(m.regs, m.memory));
    PushKeeps(m.regs, m.memory, slot);
    PushKeeps(m.regs, m.memory, m.regs.esp);
    CallRuns(code, answers, start, m1, slot);
    var m2 := AfterCall(m1, slot, answers);
    PushPop(m.regs, m.memory, m2.memory);
    LeadsOn(code, answers, start, m2);
    end := Step(code, answers, m2);
  }

  /**
   * Callback first: the callback is called iff its slot is not null; all registers come back as they were but EAX,
   * and control passes to the original, with the caller's own return address on the stack, or straight home.
   */
  lemma CallbackFirstRuns(code: seq<byte>, callback: word, original: word, m: Machine, cb: Outcome)
    returns (end: Machine)
    requires CallbackFirst(code, callback, original) && Entered(m) && Clear(callback, m.regs.esp)
    requires Clear(original, m.regs.esp) || (m.regs.esp - original) % 4 == 0
    requires Conventional(cb, m.regs.esp - 32, Pushed(m.regs, m.memory), m.regs.esp + 4)
    ensures Leads(code, [cb], m, end) && end.pc.Gone?
    ensures end.calls == CallIf(Peek(m.memory, callback))
    ensures end.memory == if Peek(m.memory, callback) == 0 then Pushed(m.regs, m.memory) else cb.memory
    ensures var next, home := Peek(end.memory, original), Peek(m.memory, m.regs.esp);
            if next != 0 then end.pc == Gone(next) && end.regs == m.regs.(eax := next)
              && Peek(end.memory, end.regs.esp) == home
            else end.pc == Gone(home) && end.regs == m.regs.(eax := 0, esp := m.regs.esp + 4)
  {
    hide Fetch, Leads, Guarded, Pushed, Popped;
    assert Leads(code, [cb], m, m) by { LeadsNow(code, [cb], m); }
    var m1 := Bracketed(code, [cb], m, m, callback);
    GuardRuns(code, [cb], m, m1, original);
    var v := Peek(m1.memory, original);
    var m2 := m1.(pc := At(13 + if v == 0 then 11 else 9), regs := m1.regs.(eax := v), zero := v == 0);
    LeadsOn(code, [cb], m, m2);
    end := Step(code, [cb], m2);
  }

  lemma LeadsNow(code: seq<byte>, answers: seq<Outcome>, m: Machine)
    ensures Leads(code, answers, m, m)
  {
    assert Run(code, answers, m, 0) == m;
  }

  /**
   * Original first: the original is called iff its slot is not null, then the callback iff its slot is not null, and
   * the thunk returns home with exactly the registers the original left, even if the callback spoils all of them.
   */
  lemma OriginalFirstRuns(code: seq<byte>, callback: word, original: word, m: Machine, orig: Outcome, cb: Outcome)
    returns (end: Machine)
    requires OriginalFirst(code, callback, original) && Entered(m) && Clear(callback, m.regs.esp)
    requires Conventional(orig, m.regs.esp, m.memory, m.regs.esp + 4)
    requires var mid := AfterCall(m, original, [orig]);
             Conventional(cb, m.regs.esp - 32, Pushed(mid.regs, mid.memory), m.regs.esp + 4)
    ensures var mid := AfterCall(m, original, [orig]);
            var answers := if Peek(m.memory, original) == 0 then [cb] else [orig, cb];
            && Leads(code, answers, m, end)
            && end.calls == CallIf(Peek(m.memory, original)) + CallIf(Peek(mid.memory, callback))
            && end.pc == Gone(Peek(m.memory, m.regs.esp))
            && end.regs == mid.regs.(esp := m.regs.esp + 4)
  {
    hide Fetch, Leads, Guarded, Pushed, Popped;
    var answers := if Peek(m.memory, original) == 0 then [cb] else [orig, cb];
    LeadsNow(code, answers, m);
    CallRuns(code, answers, m, m, original);
    var mid := AfterCall(m, original, answers);
    assert mid.regs.esp == m.regs.esp && Peek(mid.memory, m.regs.esp) == Peek(m.memory, m.regs.esp);
    var m2 := Bracketed(code, answers, m, mid, callback);
    LeadsOn(code, answers, m, m2);
    end := Step(code, answers, m2);
  }
}
