/** The class-selection and spawn handshake: pending requests, replies, dialogs and the after-death latch. */
module ClassSelection {
  import opened Words

  const RESELECT_DELAY_MS: nat := 250
  const SPAWN_INFO_BYTES: nat := 45

  /** The part of the session state the handshake uses. */
  datatype Probe = Probe(
    sawInitGame: bool, sawClassReply: bool, sawDialog: bool,
    pendingClass: bool, pendingSpawn: bool, pendingDialog: bool, pendingClassId: int,
    sentClass: bool, waiting: bool, spawnSends: nat, shiftDown: bool,
    deathRequested: bool, deathConsumed: bool, selected: int, lastDialogId: nat,
    spawns: nat, classOutcome: byte, lastClassTime: nat)

  const FRESH: Probe :=
    Probe(false, false, false, false, false, false, 0, false, false, 0, false, false, false, 0, 0, 0, 0, 0)

  /** What happened on the wire, at the session boundary and to the after-death latch, in order. */
  datatype Event =
    | InitGame(spawns: Option<nat>)
    | ClassSent(id: int)
    | SpawnSent
    | ClassReply(outcome: Option<byte>, unlatches: bool)
    | SpawnReply(outcome: Option<byte>)
    | DialogShown
    | DialogAnswered
    | Reset
    | Marked
    | Reselected
    /** A class change by hand under the latch: it no longer waits for the reply to an earlier request. */
    | Forced
    /** A spawn confirmed by hand under the latch, when selection is not otherwise ready. */
    | Confirmed

  /** Messages, calls and service turns; whether a send succeeds, the keys and the clock are inputs. */
  datatype Action =
    | GetInitGame(decoded: Option<nat>)
    | GetClassReply(payload: seq<byte>)
    | GetSpawnReply(payload: seq<byte>)
    | GetDialog(id: Option<nat>)
    | Serve(input: Inputs)
    | MarkAfterDeath
    | ReselectAfterDeath
    | ChangeClass(delta: int, now: nat)
    | AskSpawn
    | AnswerDialog(dialog: nat)
    | ResetSession

  datatype Inputs = Inputs(dialogSent: bool, classSent: bool, spawnSent: bool, shift: bool, left: bool, right: bool,
                           now: nat)

  datatype World = World(p: Probe, trace: seq<Event>)

  // ----- the steps

  function Clamp(spawns: nat, c: int): int {
    var n := if spawns != 0 then spawns else 1;
    if c < 0 then n - 1 else if c >= n then 0 else c
  }

  function Schedule(p: Probe, c: int): Probe {
    p.(selected := Clamp(p.spawns, c), pendingClassId := Clamp(p.spawns, c), pendingClass := true)
  }

  predicate ManualReady(p: Probe) {
    !p.sawDialog && !p.pendingSpawn && !p.pendingClass && !p.waiting && p.sawClassReply && p.classOutcome != 0
      && p.spawnSends == 0
  }

  function Elapsed(p: Probe, now: nat): nat {
    if now >= p.lastClassTime then now - p.lastClassTime else 0
  }

  function AfterInitGame(w: World, decoded: Option<nat>): World {
    var p := w.p.(sawInitGame := true, spawns := if decoded.Some? then decoded.value else w.p.spawns);
    World(if !p.sentClass && !p.pendingClass && !p.waiting then Schedule(p, p.selected) else p,
          w.trace + [InitGame(decoded)])
  }

  function FirstOctet(payload: seq<byte>): Option<byte> {
    if payload == [] then None else Some(payload[0])
  }

  function AfterClassReply(w: World, payload: seq<byte>): World {
    var unlatch := payload != [] && payload[0] != 0 && |payload| >= 1 + SPAWN_INFO_BYTES;
    World(w.p.(sawClassReply := true, waiting := false,
               classOutcome := if payload == [] then w.p.classOutcome else payload[0],
               deathRequested := w.p.deathRequested && !unlatch, deathConsumed := w.p.deathConsumed && !unlatch),
          w.trace + [ClassReply(FirstOctet(payload), unlatch)])
  }

  function AfterSpawnReply(w: World, payload: seq<byte>): World {
    var denied := payload != [] && payload[0] != 1 && payload[0] != 2;
    World(w.p.(pendingSpawn := w.p.pendingSpawn && payload == [], spawnSends := if denied then 0 else w.p.spawnSends),
          w.trace + [SpawnReply(FirstOctet(payload))])
  }

  function ServeDialog(w: World, i: Inputs): World {
    if !w.p.pendingDialog then w
    else World(w.p.(pendingDialog := false, sawDialog := w.p.sawDialog && !i.dialogSent),
               if i.dialogSent then w.trace + [DialogAnswered] else w.trace)
  }

  function ServeClass(w: World, i: Inputs): World {
    if !w.p.pendingClass || w.p.waiting || !i.classSent then w else
    var id := Clamp(w.p.spawns, w.p.pendingClassId);
    World(w.p.(sentClass := true, pendingClass := false, waiting := true, selected := id, lastClassTime := i.now),
          w.trace + [ClassSent(id)])
  }

  function ServeKeys(p: Probe, i: Inputs): Probe {
    if !ManualReady(p) then p
    else if i.shift && !p.shiftDown then p.(pendingSpawn := true, shiftDown := i.shift)
    else if (i.left || i.right) && Elapsed(p, i.now) >= RESELECT_DELAY_MS then
      Schedule(p, Clamp(p.spawns, p.selected + if i.left then -1 else 1)).(shiftDown := i.shift)
    else p.(shiftDown := i.shift)
  }

  function ServeSpawn(w: World, i: Inputs): World {
    if !w.p.pendingSpawn || w.p.sawDialog then w
    else World(w.p.(spawnSends := if i.spawnSent then w.p.spawnSends + 1 else 0, pendingSpawn := false),
               if i.spawnSent then w.trace + [SpawnSent] else w.trace)
  }

  function AfterServe(w: World, i: Inputs): World {
    var w1 := ServeClass(ServeDialog(w, i), i);
    ServeSpawn(w1.(p := ServeKeys(w1.p, i)), i)
  }

  function CanMark(p: Probe): bool {
    p.sawInitGame && !(p.deathRequested && !p.deathConsumed)
  }

  function CanReselect(p: Probe): bool {
    p.sawInitGame && p.deathRequested && !p.deathConsumed
  }

  function Reselect(p: Probe): Probe {
    var id := Clamp(p.spawns, p.selected);
    p.(deathRequested := false, deathConsumed := true, sawClassReply := false, classOutcome := 0, waiting := false,
       pendingSpawn := false, spawnSends := 0, shiftDown := false, selected := id,
       pendingClassId := id, pendingClass := true)
  }

  function CanChange(p: Probe, delta: int, now: nat): bool {
    delta != 0 && (ManualReady(p) || p.deathConsumed) && Elapsed(p, now) >= RESELECT_DELAY_MS
  }

  function AfterChange(w: World, delta: int): World {
    var id := Clamp(w.p.spawns, Clamp(w.p.spawns, w.p.selected + if delta < 0 then -1 else 1));
    var forced := w.p.deathConsumed;
    World(w.p.(selected := id, pendingClassId := id, pendingClass := true, waiting := w.p.waiting && !forced,
               sawClassReply := w.p.sawClassReply && !forced, classOutcome := if forced then 0 else w.p.classOutcome),
          if forced then w.trace + [Forced] else w.trace)
  }

  function CanAskSpawn(p: Probe): bool {
    && (ManualReady(p) || p.deathConsumed)
    && !p.pendingClass && !p.waiting && p.sawClassReply && p.classOutcome != 0
  }

  function AfterDialog(w: World, id: Option<nat>): World {
    World(w.p.(sawDialog := true, lastDialogId := if id.Some? then id.value else w.p.lastDialogId),
          w.trace + [DialogShown])
  }

  function AfterMark(w: World): World {
    if CanMark(w.p) then World(w.p.(deathRequested := true, deathConsumed := false), w.trace + [Marked]) else w
  }

  function AfterReselect(w: World): World {
    if CanReselect(w.p) then World(Reselect(w.p), w.trace + [Reselected]) else w
  }

  function AfterAskSpawn(w: World): World {
    if !CanAskSpawn(w.p) then w
    else World(w.p.(pendingSpawn := true), if ManualReady(w.p) then w.trace else w.trace + [Confirmed])
  }

  function AfterAnswer(w: World, id: nat): World {
    if w.p.sawDialog || w.p.lastDialogId == id then w.(p := w.p.(pendingDialog := true)) else w
  }

  function Step(w: World, a: Action): World {
    match a
    case GetInitGame(decoded) => AfterInitGame(w, decoded)
    case GetClassReply(payload) => AfterClassReply(w, payload)
    case GetSpawnReply(payload) => AfterSpawnReply(w, payload)
    case GetDialog(id) => AfterDialog(w, id)
    case Serve(input) => AfterServe(w, input)
    case MarkAfterDeath => AfterMark(w)
    case ReselectAfterDeath => AfterReselect(w)
    case ChangeClass(delta, now) => if CanChange(w.p, delta, now) then AfterChange(w, delta) else w
    case AskSpawn => AfterAskSpawn(w)
    case AnswerDialog(id) => AfterAnswer(w, id)
    case ResetSession => World(FRESH, w.trace + [Reset])
  }

  function RunOf(actions: seq<Action>): World {
    if actions == [] then World(FRESH, []) else Step(RunOf(actions[..|actions| - 1]), actions[|actions| - 1])
  }

  // ----- what a trace must look like

  /** Conditions decided by the last event that has a say in them. */
  datatype Condition =
    /** A nonzero class reply has come since the last reset or re-selection. */
    | ReplyIn
    | DialogOpen
    /** A mark waits for its re-selection. */
    | MarkPending
    /** A re-selection waits for a full class reply. */
    | Latched
    /** There has been a re-selection since the last reset. */
    | ReselectedSinceReset

  function Says(c: Condition, e: Event): Option<bool> {
    match c
    case ReplyIn =>
      if e.ClassReply? && e.outcome.Some? && e.outcome.value != 0 then Some(true)
      else if e.Reset? || e.Reselected? then Some(false) else None
    case DialogOpen => if e.DialogShown? then Some(true) else if e.DialogAnswered? || e.Reset? then Some(false)
      else None
    case MarkPending =>
      if e.Marked? then Some(true)
      else if e.Reselected? || e.Reset? || (e.ClassReply? && e.unlatches) then Some(false) else None
    case Latched =>
      if e.Reselected? then Some(true)
      else if e.Marked? || e.Reset? || (e.ClassReply? && e.unlatches) then Some(false) else None
    case ReselectedSinceReset => if e.Reselected? then Some(true) else if e.Reset? then Some(false) else None
  }

  predicate On(c: Condition, t: seq<Event>) {
    t != [] &&
    var said := Says(c, t[|t| - 1]);
    if said.Some? then said.value else On(c, t[..|t| - 1])
  }

  /** The number of classes last announced in this session. */
  function Offered(t: seq<Event>): nat {
    if t == [] || t[|t| - 1].Reset? then 0
    else if t[|t| - 1].InitGame? && t[|t| - 1].spawns.Some? then t[|t| - 1].spawns.value
    else Offered(t[..|t| - 1])
  }

  datatype Request = ClassRequest | SpawnRequest

  predicate Sends(q: Request, e: Event) {
    if q.ClassRequest? then e.ClassSent? else e.SpawnSent?
  }

  /** What separates two requests: a reply to a class request, a denial of a spawn request, a reset. */
  predicate Closes(q: Request, e: Event) {
    e.Reset? || (if q.ClassRequest? then e.ClassReply?
                 else e.SpawnReply? && e.outcome.Some? && e.outcome.value != 1 && e.outcome.value != 2)
  }

  /** What sets an open request aside instead: a re-selection, or the same request made by hand under the latch. */
  predicate Overrides(q: Request, e: Event) {
    e.Reselected? || (if q.ClassRequest? then e.Forced? else e.Confirmed?)
  }

  /** A request has been sent, and neither closed since ... */
  predicate Open(q: Request, t: seq<Event>) {
    t != [] && (Sends(q, t[|t| - 1]) || (!Closes(q, t[|t| - 1]) && Open(q, t[..|t| - 1])))
  }

  /** ... nor set aside. */
  predicate Standing(q: Request, t: seq<Event>) {
    t != [] &&
    (Sends(q, t[|t| - 1]) || (!Closes(q, t[|t| - 1]) && !Overrides(q, t[|t| - 1]) && Standing(q, t[..|t| - 1])))
  }

  /** A request was set aside while it was open, and neither closed nor sent again since. */
  predicate SetAside(q: Request, t: seq<Event>) {
    t != [] &&
    var e := t[|t| - 1];
    if Sends(q, e) || Closes(q, e) then false
      else (Overrides(q, e) && Open(q, t[..|t| - 1])) || SetAside(q, t[..|t| - 1])
  }

  /** An open request either stands or was set aside, and not both. */
  lemma {:induction false} OpenIsStandingOrSetAside(q: Request, t: seq<Event>)
    ensures Open(q, t) <==> Standing(q, t) || SetAside(q, t)
    ensures !(Standing(q, t) && SetAside(q, t))
    decreases |t|
  {
    if t != [] {
      OpenIsStandingOrSetAside(q, t[..|t| - 1]);
    }
  }

  function Count(t: seq<Event>, e: Event): nat {
    if t == [] then 0 else Count(t[..|t| - 1], e) + if t[|t| - 1] == e then 1 else 0
  }

  /** Every event respects the handshake, given what came before it. */
  predicate Orderly(t: seq<Event>, k: nat)
    requires k < |t|
  {
    match t[k]
    case ClassSent(id) => 0 <= id < (if Offered(t[..k]) > 0 then Offered(t[..k]) else 1)
      && !Standing(ClassRequest, t[..k])
    case SpawnSent => !On(DialogOpen, t[..k]) && On(ReplyIn, t[..k]) && !Standing(SpawnRequest, t[..k])
    case Reselected => On(MarkPending, t[..k])
    case Forced => On(Latched, t[..k])
    case Confirmed => On(Latched, t[..k])
    case _ => true
  }

  /** What every reachable state keeps: an orderly trace, and flags that say of it what they should. */
  predicate Invariant(w: World) {
    var p, t := w.p, w.trace;
    && (forall k | 0 <= k < |t| :: Orderly(t, k))
    && p.spawns == Offered(t)
    && p.sawDialog == On(DialogOpen, t)
    && p.deathRequested == On(MarkPending, t)
    && p.deathConsumed == On(Latched, t)
    && !(p.deathRequested && p.deathConsumed)
    && Count(t, Reselected) + (if p.deathRequested then 1 else 0) <= Count(t, Marked)
    && (p.classOutcome != 0 || p.pendingSpawn ==> On(ReplyIn, t))
    && p.waiting == Standing(ClassRequest, t)
    && (Standing(SpawnRequest, t) ==> p.spawnSends > 0 && !p.pendingSpawn)
    && (p.spawnSends > 0 ==> Open(SpawnRequest, t))
  }

  /** Adding one event keeps the trace orderly when the event itself is. */
  lemma TraceGrows(t: seq<Event>, e: Event)
    requires forall k | 0 <= k < |t| :: Orderly(t, k)
    requires Orderly(t + [e], |t|)
    ensures forall k | 0 <= k < |t + [e]| :: Orderly(t + [e], k)
  {
    hide Standing, On, Offered;
    forall k | 0 <= k < |t|
      ensures Orderly(t + [e], k)
    {
      assert (t + [e])[..k] == t[..k];
      assert Orderly(t, k);
    }
  }

  /** What one more event changes. */
  lemma OneMore(t: seq<Event>, e: Event)
    ensures (t + [e])[..|t|] == t
    ensures forall c :: On(c, t + [e]) == if Says(c, e).Some? then Says(c, e).value else On(c, t)
    ensures forall q :: Standing(q, t + [e]) == (Sends(q, e) || (!Closes(q, e) && !Overrides(q, e) && Standing(q, t)))
    ensures forall q :: Open(q, t + [e]) == (Sends(q, e) || (!Closes(q, e) && Open(q, t)))
    ensures Offered(t + [e]) == if e.Reset? then 0 else if e.InitGame? && e.spawns.Some? then e.spawns.value
      else Offered(t)
    ensures forall x :: Count(t + [e], x) == Count(t, x) + if e == x then 1 else 0
  {
    assert (t + [e])[..|t|] == t;
  }

  /** Recording an event that is orderly after the trace so far. */
  lemma Records(w: World, e: Event)
    requires Invariant(w)
    requires e.ClassSent? ==> 0 <= e.id < (if w.p.spawns > 0 then w.p.spawns else 1) && !w.p.waiting
    requires e.SpawnSent? ==> !w.p.sawDialog && w.p.pendingSpawn
    requires e.Reselected? ==> w.p.deathRequested
    requires e.Forced? || e.Confirmed? ==> w.p.deathConsumed
    ensures forall k | 0 <= k < |w.trace + [e]| :: Orderly(w.trace + [e], k)
  {
    hide On, Standing, Open, Offered, Count;
    assert (w.trace + [e])[..|w.trace|] == w.trace;
    TraceGrows(w.trace, e);
  }

  lemma ClassReplyKeepsInvariant(w: World, payload: seq<byte>)
    requires Invariant(w)
    ensures Invariant(AfterClassReply(w, payload))
  {
    var e := ClassReply(FirstOctet(payload), payload != [] && payload[0] != 0 && |payload| >= 1 + SPAWN_INFO_BYTES);
    Records(w, e);
    OneMore(w.trace, e);
    hide Orderly, On, Standing, Open, Offered, Count;
  }

  lemma SpawnReplyKeepsInvariant(w: World, payload: seq<byte>)
    requires Invariant(w)
    ensures Invariant(AfterSpawnReply(w, payload))
  {
    Records(w, SpawnReply(FirstOctet(payload)));
    OneMore(w.trace, SpawnReply(FirstOctet(payload)));
    hide Orderly, On, Standing, Open, Offered, Count;
  }

  lemma LatchKeepsInvariant(w: World)
    requires Invariant(w)
    ensures Invariant(Step(w, MarkAfterDeath)) && Invariant(Step(w, ReselectAfterDeath))
  {
    Records(w, Marked);
    OneMore(w.trace, Marked);
    if CanReselect(w.p) { Records(w, Reselected); }
    OneMore(w.trace, Reselected);
    hide Orderly, On, Standing, Open, Offered, Count, Clamp;
  }

  lemma ResetKeepsInvariant(w: World)
    requires Invariant(w)
    ensures Invariant(Step(w, ResetSession))
  {
    Records(w, Reset);
    OneMore(w.trace, Reset);
    hide Orderly, On, Standing, Open, Offered, Count;
  }

  lemma MessageKeepsInvariant(w: World, decoded: Option<nat>, dialog: Option<nat>)
    requires Invariant(w)
    ensures Invariant(AfterInitGame(w, decoded)) && Invariant(AfterDialog(w, dialog))
  {
    Records(w, InitGame(decoded));
    OneMore(w.trace, InitGame(decoded));
    Records(w, DialogShown);
    OneMore(w.trace, DialogShown);
    hide Orderly, On, Standing, Open, Offered, Count, Clamp;
  }

  lemma ChangeKeepsInvariant(w: World, delta: int, now: nat)
    requires Invariant(w)
    ensures Invariant(Step(w, ChangeClass(delta, now)))
  {
    if w.p.deathConsumed { Records(w, Forced); }
    OneMore(w.trace, Forced);
    hide Orderly, On, Standing, Open, Offered, Count, Clamp, CanChange;
  }

  lemma AskKeepsInvariant(w: World)
    requires Invariant(w)
    ensures Invariant(AfterAskSpawn(w))
  {
    if w.p.deathConsumed { Records(w, Confirmed); }
    OneMore(w.trace, Confirmed);
    hide Orderly, On, Standing, Open, Offered, Count;
  }

  lemma AnswerKeepsInvariant(w: World, id: nat)
    requires Invariant(w)
    ensures Invariant(AfterAnswer(w, id))
  {
    hide Orderly, On, Standing, Open, Offered, Count;
  }

  lemma StepKeepsInvariant(w: World, a: Action)
    requires Invariant(w)
    ensures Invariant(Step(w, a))
  {
    hide Invariant;
    match a
    case Serve(input) => ServeKeepsInvariant(w, input);
    case GetInitGame(decoded) => MessageKeepsInvariant(w, decoded, None);
    case GetDialog(id) => MessageKeepsInvariant(w, None, id);
    case GetClassReply(payload) => ClassReplyKeepsInvariant(w, payload);
    case GetSpawnReply(payload) => SpawnReplyKeepsInvariant(w, payload);
    case MarkAfterDeath => LatchKeepsInvariant(w);
    case ReselectAfterDeath => LatchKeepsInvariant(w);
    case ResetSession => ResetKeepsInvariant(w);
    case ChangeClass(delta, now) => ChangeKeepsInvariant(w, delta, now);
    case AskSpawn => AskKeepsInvariant(w);
    case AnswerDialog(id) => AnswerKeepsInvariant(w, id);
  }

  lemma ServeKeepsInvariant(w: World, i: Inputs)
    requires Invariant(w)
    ensures Invariant(AfterServe(w, i))
  {
    ServeDialogKeepsInvariant(w, i);
    ServeClassKeepsInvariant(ServeDialog(w, i), i);
    var w1 := ServeClass(ServeDialog(w, i), i);
    ServeKeysKeepsInvariant(w1, i);
    ServeSpawnKeepsInvariant(w1.(p := ServeKeys(w1.p, i)), i);
  }

  lemma ServeDialogKeepsInvariant(w: World, i: Inputs)
    requires Invariant(w)
    ensures Invariant(ServeDialog(w, i))
  {
    Records(w, DialogAnswered);
    OneMore(w.trace, DialogAnswered);
    hide Orderly, On, Standing, Open, Offered, Count;
  }

  lemma ServeClassKeepsInvariant(w: World, i: Inputs)
    requires Invariant(w)
    ensures Invariant(ServeClass(w, i))
  {
    var e := ClassSent(Clamp(w.p.spawns, w.p.pendingClassId));
    if !w.p.waiting { Records(w, e); }
    OneMore(w.trace, e);
    hide Orderly, On, Standing, Open, Offered, Count;
  }

  lemma ServeKeysKeepsInvariant(w: World, i: Inputs)
    requires Invariant(w)
    ensures Invariant(w.(p := ServeKeys(w.p, i)))
  {
    hide Orderly, On, Standing, Open, Offered, Count, Clamp;
  }

  lemma ServeSpawnKeepsInvariant(w: World, i: Inputs)
    requires Invariant(w)
    ensures Invariant(ServeSpawn(w, i))
  {
    if w.p.pendingSpawn && !w.p.sawDialog { Records(w, SpawnSent); }
    OneMore(w.trace, SpawnSent);
    hide Orderly, On, Standing, Open, Offered, Count;
  }

  /** Handshake safety over every run. */
  lemma {:induction false} EveryRunIsSafe(actions: seq<Action>)
    ensures Invariant(RunOf(actions))
    decreases |actions|
  {
    hide Step, Invariant;
    if actions == [] {
      FreshIsSafe();
    } else {
      EveryRunIsSafe(actions[..|actions| - 1]);
      StepKeepsInvariant(RunOf(actions[..|actions| - 1]), actions[|actions| - 1]);
    }
  }

  lemma FreshIsSafe()
    ensures Invariant(World(FRESH, []))
  {
  }

  // ----- how requests are separated

  /** In every run, between two requests of a kind there is an event that closes the first or sets it aside. */
  lemma RequestsAreSeparated(actions: seq<Action>, q: Request, i: nat, k: nat)
    requires i < k < |RunOf(actions).trace| && Sends(q, RunOf(actions).trace[i]) && Sends(q, RunOf(actions).trace[k])
    ensures exists j | i < j < k :: Closes(q, RunOf(actions).trace[j]) || Overrides(q, RunOf(actions).trace[j])
  {
    EveryRunIsSafe(actions);
    var t := RunOf(actions).trace;
    assert Orderly(t, k);
    var j := NotStanding(q, t[..k], i);
    assert t[..k][j] == t[j];
  }

  lemma {:induction false} NotStanding(q: Request, t: seq<Event>, i: nat) returns (j: nat)
    requires i < |t| && Sends(q, t[i]) && !Standing(q, t)
    ensures i < j < |t| && (Closes(q, t[j]) || Overrides(q, t[j]))
    decreases |t|
  {
    var last := |t| - 1;
    if Closes(q, t[last]) || Overrides(q, t[last]) {
      j := last;
    } else {
      j := NotStanding(q, t[..last], i);
    }
  }

  /**
   * Exactly when that is not enough: a request is sent while an earlier one of its kind is open if and only if, while
   * that one was open, a re-selection or the same request by hand under the latch set it aside, and nothing closed it
   * since.
   */
  lemma RepeatedExactlyWhenSetAside(actions: seq<Action>, q: Request, k: nat)
    requires k < |RunOf(actions).trace| && Sends(q, RunOf(actions).trace[k])
    ensures Open(q, RunOf(actions).trace[..k]) <==> SetAside(q, RunOf(actions).trace[..k])
  {
    EveryRunIsSafe(actions);
    var t := RunOf(actions).trace;
    assert Orderly(t, k);
    OpenIsStandingOrSetAside(q, t[..k]);
  }

  /**
   * When that happens, in the terms of the session: an override sets a class request aside exactly if a reply is
   * awaited (or one was set aside already), and a spawn request exactly if one is open, as it is while spawn sends
   * are counted.
   */
  lemma OverrideSetsAside(actions: seq<Action>, a: Action, e: Event)
    requires RunOf(actions + [a]).trace == RunOf(actions).trace + [e]
    ensures var (w, t) := (RunOf(actions), RunOf(actions + [a]).trace);
            && (Overrides(ClassRequest, e) ==>
                  (SetAside(ClassRequest, t) <==> w.p.waiting || SetAside(ClassRequest, w.trace)))
            && (Overrides(SpawnRequest, e) ==> (SetAside(SpawnRequest, t) <==> Open(SpawnRequest, w.trace)))
            && (w.p.spawnSends > 0 ==> Open(SpawnRequest, w.trace))
  {
    EveryRunIsSafe(actions);
    var t := RunOf(actions).trace;
    assert (t + [e])[..|t|] == t;
    OpenIsStandingOrSetAside(ClassRequest, t);
    OpenIsStandingOrSetAside(SpawnRequest, t);
    hide RunOf, Orderly, On, Standing, Open, Offered, Count;
  }

  /** So in a session without a re-selection no request is sent while an earlier one is open. */
  lemma SeparatedWithoutReselection(actions: seq<Action>, q: Request, k: nat)
    requires k < |RunOf(actions).trace| && Sends(q, RunOf(actions).trace[k])
    requires !On(ReselectedSinceReset, RunOf(actions).trace[..k])
    ensures !Open(q, RunOf(actions).trace[..k])
  {
    RepeatedExactlyWhenSetAside(actions, q, k);
    EveryRunIsSafe(actions);
    var t := RunOf(actions).trace;
    forall i | 0 <= i < k
      ensures Orderly(t[..k], i)
    {
      assert Orderly(t, i) && t[..k][..i] == t[..i];
    }
    SetAsideByReselection(q, t[..k]);
  }

  lemma {:induction false} SetAsideByReselection(q: Request, t: seq<Event>)
    requires forall i | 0 <= i < |t| :: Orderly(t, i)
    ensures SetAside(q, t) ==> On(ReselectedSinceReset, t)
    decreases |t|
  {
    if t != [] {
      var front := t[..|t| - 1];
      forall i | 0 <= i < |front|
        ensures Orderly(front, i)
      {
        assert Orderly(t, i) && front[..i] == t[..i];
      }
      SetAsideByReselection(q, front);
      LatchedByReselection(front);
      assert Orderly(t, |t| - 1);
    }
  }

  lemma {:induction false} LatchedByReselection(t: seq<Event>)
    ensures On(Latched, t) ==> On(ReselectedSinceReset, t)
    decreases |t|
  {
    if t != [] {
      LatchedByReselection(t[..|t| - 1]);
    }
  }

  // ----- runs in which a request is repeated

  const PRESS: Inputs := Inputs(false, true, true, false, false, false, 0)

  const STARTED: Probe := FRESH.(sawInitGame := true, spawns := 3, sentClass := true, waiting := true)

  lemma RunOneMore(actions: seq<Action>, a: Action)
    ensures RunOf(actions + [a]) == Step(RunOf(actions), a)
  {
    hide Step;
    assert (actions + [a])[..|actions|] == actions;
  }

  /** Re-selecting while a class request is unanswered sends a second one with no reply or reset between. */
  lemma SecondClassRequest() returns (actions: seq<Action>)
    ensures actions == [GetInitGame(Some(3)), Serve(PRESS), MarkAfterDeath, ReselectAfterDeath, Serve(PRESS)]
    ensures RunOf(actions).trace == [InitGame(Some(3)), ClassSent(0), Marked, Reselected, ClassSent(0)]
    ensures Idle(RunOf(actions).p)
  {
    hide Step;
    assert RunOf([]) == World(FRESH, []);
    RunOneMore([], GetInitGame(Some(3)));
    RunOneMore([] + [GetInitGame(Some(3))], Serve(PRESS));
    FirstHalf();
    var half := [GetInitGame(Some(3)), Serve(PRESS)];
    assert [] + [GetInitGame(Some(3))] + [Serve(PRESS)] == half;
    RunOneMore(half, MarkAfterDeath);
    RunOneMore(half + [MarkAfterDeath], ReselectAfterDeath);
    RunOneMore(half + [MarkAfterDeath] + [ReselectAfterDeath], Serve(PRESS));
    SecondHalf(RunOf(half));
    actions := half + [MarkAfterDeath] + [ReselectAfterDeath] + [Serve(PRESS)];
  }

  /** After a re-selection, with nothing scheduled and no dialog. */
  predicate Idle(p: Probe) {
    p.deathConsumed && !p.sawDialog && !p.pendingDialog && !p.pendingClass && !p.pendingSpawn && p.spawnSends == 0
  }

  lemma FirstHalf()
    ensures Step(Step(World(FRESH, []), GetInitGame(Some(3))), Serve(PRESS)) ==
      World(STARTED, [InitGame(Some(3)), ClassSent(0)])
  {
  }

  lemma SecondHalf(w: World)
    requires w == World(STARTED, [InitGame(Some(3)), ClassSent(0)])
    ensures var end := Step(Step(Step(w, MarkAfterDeath), ReselectAfterDeath), Serve(PRESS));
            end.trace == [InitGame(Some(3)), ClassSent(0), Marked, Reselected, ClassSent(0)] && Idle(end.p)
  {
  }

  /** After a re-selection and a short class reply, confirming by hand repeats a spawn request that is still open. */
  lemma SecondSpawnRequest() returns (actions: seq<Action>)
    ensures RunOf(actions).trace == [InitGame(Some(3)), ClassSent(0), Marked, Reselected, ClassSent(0),
                                     ClassReply(Some(1), false), SpawnSent, Confirmed, SpawnSent]
  {
    hide Step;
    actions := SecondClassRequest();
    TwoSpawns(RunOf(actions));
    RunOneMore(actions, GetClassReply([1]));
    actions := actions + [GetClassReply([1])];
    RunOneMore(actions, AskSpawn);
    actions := actions + [AskSpawn];
    RunOneMore(actions, Serve(PRESS));
    actions := actions + [Serve(PRESS)];
    RunOneMore(actions, AskSpawn);
    actions := actions + [AskSpawn];
    RunOneMore(actions, Serve(PRESS));
    actions := actions + [Serve(PRESS)];
  }

  lemma TwoSpawns(w: World)
    requires Idle(w.p)
    ensures var w1 := Step(Step(Step(w, GetClassReply([1])), AskSpawn), Serve(PRESS));
            var w2 := Step(Step(w1, AskSpawn), Serve(PRESS));
            w2.trace == w.trace + [ClassReply(Some(1), false), SpawnSent, Confirmed, SpawnSent]
  {
  }

  // ----- which class is chosen, and what is sent for it

  /** The next class in the direction of `delta`, round the `n` classes announced. */
  function Neighbour(n: nat, s: int, delta: int): int
    requires n > 0 && delta != 0
  {
    (if delta > 0 then s + 1 else s - 1) % n
  }

  lemma NeighbourIs(n: nat, s: int, delta: int)
    requires 0 <= s < n && delta != 0
    ensures Neighbour(n, s, delta)
            == if delta > 0 then if s + 1 < n then s + 1 else 0 else if s > 0 then s - 1 else n - 1
  {
  }

  /** Clamping a class one off the range is going round. */
  lemma ClampIs(n: nat, s: int, delta: int)
    requires 0 <= s < n && delta != 0
    ensures Clamp(n, if delta < 0 then s - 1 else s + 1) == Neighbour(n, s, delta)
    ensures Clamp(n, Neighbour(n, s, delta)) == Neighbour(n, s, delta)
  {
    hide Neighbour;
    NeighbourIs(n, s, delta);
  }

  /** A change by hand is accepted exactly when it may be and is not too early, and takes the next class round. */
  lemma ChangeSelects(w: World, delta: int, now: nat)
    requires w.p.spawns > 0 && 0 <= w.p.selected < w.p.spawns && delta != 0
    ensures var p, p' := w.p, Step(w, ChangeClass(delta, now)).p;
            var ready := !p.sawDialog && !p.pendingSpawn && !p.pendingClass && !p.waiting && p.sawClassReply
                         && p.classOutcome != 0 && p.spawnSends == 0;
            if (ready || p.deathConsumed) && now - p.lastClassTime >= 250
            then p'.pendingClass && p'.selected == p'.pendingClassId == Neighbour(p.spawns, p.selected, delta)
            else Step(w, ChangeClass(delta, now)) == w
  {
    ClampIs(w.p.spawns, w.p.selected, delta);
    hide Clamp, Neighbour;
  }

  /** A change by 0 is none. */
  lemma NoChange(w: World, now: nat)
    ensures Step(w, ChangeClass(0, now)) == w
  {
  }

  /** The left and right keys choose in the same way, the left one first; shift comes before both. */
  lemma KeysSelect(w: World, i: Inputs)
    requires w.p.spawns > 0 && 0 <= w.p.selected < w.p.spawns && ManualReady(w.p)
    requires (i.left || i.right) && (!i.shift || w.p.shiftDown) && !w.p.pendingDialog
    ensures var p, p' := w.p, Step(w, Serve(i)).p;
            if i.now - p.lastClassTime >= 250
            then p'.pendingClass && p'.selected == p'.pendingClassId
                 && p'.selected == Neighbour(p.spawns, p.selected, if i.left then -1 else 1)
            else p'.selected == p.selected && !p'.pendingClass
  {
    ClampIs(w.p.spawns, w.p.selected, if i.left then -1 else 1);
    hide Clamp, Neighbour;
  }

  /** Everything a service turn sends. */
  lemma TurnSends(w: World, i: Inputs)
    requires w.p.pendingClass ==> 0 <= w.p.pendingClassId < if w.p.spawns > 0 then w.p.spawns else 1
    ensures var p := w.p;
            var answered := p.pendingDialog && i.dialogSent;
            var chosen := p.pendingClass && !p.waiting && i.classSent;
            var open := p.sawDialog && !answered;
            var ready := !open && !p.pendingSpawn && !p.pendingClass && !p.waiting && p.sawClassReply
                         && p.classOutcome != 0 && p.spawnSends == 0;
            var confirmed := !open && i.spawnSent && (p.pendingSpawn || (ready && i.shift && !p.shiftDown));
            Step(w, Serve(i)).trace
            == w.trace + (if answered then [DialogAnswered] else [])
               + (if chosen then [ClassSent(p.pendingClassId)] else [])
               + (if confirmed then [SpawnSent] else [])
  {
    hide ManualReady;
    TurnSendsClass(w, i);
    TurnSendsSpawn(w, i);
  }

  lemma TurnSendsClass(w: World, i: Inputs)
    requires w.p.pendingClass ==> 0 <= w.p.pendingClassId < if w.p.spawns > 0 then w.p.spawns else 1
    ensures var p, v := w.p, ServeClass(ServeDialog(w, i), i);
            var answered := p.pendingDialog && i.dialogSent;
            var chosen := p.pendingClass && !p.waiting && i.classSent;
            && v.trace == w.trace + (if answered then [DialogAnswered] else [])
                          + (if chosen then [ClassSent(p.pendingClassId)] else [])
            && v.p.sawDialog == (p.sawDialog && !answered) && v.p.pendingSpawn == p.pendingSpawn
            && v.p.shiftDown == p.shiftDown && v.p.sawClassReply == p.sawClassReply
            && v.p.classOutcome == p.classOutcome && v.p.spawnSends == p.spawnSends
            && (!v.p.pendingClass && !v.p.waiting <==> !p.pendingClass && !p.waiting)
  {
  }

  lemma TurnSendsSpawn(w: World, i: Inputs)
    ensures var v := ServeClass(ServeDialog(w, i), i);
            var p := v.p;
            var ready := !p.sawDialog && !p.pendingSpawn && !p.pendingClass && !p.waiting && p.sawClassReply
                         && p.classOutcome != 0 && p.spawnSends == 0;
            var confirmed := !p.sawDialog && i.spawnSent && (p.pendingSpawn || (ready && i.shift && !p.shiftDown));
            Step(w, Serve(i)).trace == v.trace + if confirmed then [SpawnSent] else []
  {
    hide ServeDialog, ServeClass;
  }

  /** And how it leaves the session. */
  lemma TurnLeaves(w: World, i: Inputs)
    ensures var (p, p') := (w.p, Step(w, Serve(i)).p);
            var open := p.sawDialog && !(p.pendingDialog && i.dialogSent);
            var chosen := p.pendingClass && !p.waiting && i.classSent;
            var ready := !open && !p.pendingSpawn && !p.pendingClass && !p.waiting && p.sawClassReply
                         && p.classOutcome != 0 && p.spawnSends == 0;
            var pressed := ready && i.shift && !p.shiftDown;
            var moved := ready && !pressed && (i.left || i.right) && i.now - p.lastClassTime >= 250;
            var due := !open && (p.pendingSpawn || pressed);
            && !p'.pendingDialog && p'.sawDialog == open && p'.lastDialogId == p.lastDialogId
            && p'.sentClass == (p.sentClass || chosen) && p'.waiting == (p.waiting || chosen)
            && p'.lastClassTime == (if chosen then i.now else p.lastClassTime)
            && p'.pendingClass == ((p.pendingClass && !chosen) || moved)
            && p'.shiftDown == (if ready then i.shift else p.shiftDown)
            && p'.pendingSpawn == (p.pendingSpawn && open)
            && p'.spawnSends == (if due then if i.spawnSent then p.spawnSends + 1 else 0 else p.spawnSends)
            && p'.deathRequested == p.deathRequested && p'.deathConsumed == p.deathConsumed
            && p'.sawInitGame == p.sawInitGame && p'.spawns == p.spawns
            && p'.sawClassReply == p.sawClassReply && p'.classOutcome == p.classOutcome
  {
    hide Clamp, ServeDialog, ServeClass, ServeKeys, ServeSpawn, ManualReady;
    var w1 := ServeDialog(w, i);
    var w2 := ServeClass(w1, i);
    DialogLeaves(w, i);
    RequestLeaves(w1, i);
    KeysLeave(w2.p, i);
    SpawnLeaves(w2.(p := ServeKeys(w2.p, i)), i);
  }

  lemma DialogLeaves(w: World, i: Inputs)
    ensures ServeDialog(w, i).p
            == w.p.(pendingDialog := false, sawDialog := w.p.sawDialog && !(w.p.pendingDialog && i.dialogSent))
  {
  }

  lemma RequestLeaves(w: World, i: Inputs)
    ensures var (p, v) := (w.p, ServeClass(w, i).p);
            var chosen := p.pendingClass && !p.waiting && i.classSent;
            v == p.(sentClass := p.sentClass || chosen, waiting := p.waiting || chosen,
                    lastClassTime := if chosen then i.now else p.lastClassTime,
                    pendingClass := p.pendingClass && !chosen, selected := v.selected)
  {
    hide Clamp;
  }

  lemma KeysLeave(p: Probe, i: Inputs)
    ensures var v := ServeKeys(p, i);
            var ready := !p.sawDialog && !p.pendingSpawn && !p.pendingClass && !p.waiting && p.sawClassReply
                         && p.classOutcome != 0 && p.spawnSends == 0;
            var pressed := ready && i.shift && !p.shiftDown;
            var moved := ready && !pressed && (i.left || i.right) && i.now - p.lastClassTime >= 250;
            v == p.(pendingSpawn := p.pendingSpawn || pressed, pendingClass := p.pendingClass || moved,
                    shiftDown := if ready then i.shift else p.shiftDown,
                    selected := v.selected, pendingClassId := v.pendingClassId)
  {
    hide Clamp;
  }

  lemma SpawnLeaves(w: World, i: Inputs)
    ensures var (p, v) := (w.p, ServeSpawn(w, i).p);
            v == p.(pendingSpawn := p.pendingSpawn && p.sawDialog,
                    spawnSends := if p.pendingSpawn && !p.sawDialog then if i.spawnSent then p.spawnSends + 1 else 0
                                  else p.spawnSends)
  {
  }

  /** The turn after an accepted change sends exactly the class it chose. */
  lemma ChangeIsSent(w: World, delta: int, now: nat, i: Inputs)
    requires w.p.spawns > 0 && 0 <= w.p.selected < w.p.spawns && delta != 0 && CanChange(w.p, delta, now)
    requires !w.p.pendingDialog && !w.p.pendingSpawn && i.classSent && (w.p.waiting ==> w.p.deathConsumed)
    ensures var v := Step(w, ChangeClass(delta, now));
            Step(v, Serve(i)).trace == v.trace + [ClassSent(Neighbour(w.p.spawns, w.p.selected, delta))]
  {
    var v := Step(w, ChangeClass(delta, now));
    ChangeSelects(w, delta, now);
    assert !v.p.waiting && !v.p.pendingDialog && !v.p.pendingSpawn && v.p.spawns == w.p.spawns;
    hide Step, CanChange;
    TurnSends(v, i);
  }

  /** A change forth and one back. */
  lemma NeighbourOfNeighbour(n: nat, s: int, delta: int)
    requires 0 <= s < n && delta != 0
    ensures 0 <= Neighbour(n, s, delta) < n
    ensures Neighbour(n, Neighbour(n, s, delta), -delta) == s
  {
    hide Neighbour;
    NeighbourIs(n, s, delta);
    NeighbourIs(n, Neighbour(n, s, delta), -delta);
  }

  /** The class reached by `k` changes one way. */
  function Along(n: nat, s: int, delta: int, k: nat): int
    requires n > 0 && delta != 0
  {
    if k == 0 then s else Neighbour(n, Along(n, s, delta, k - 1), delta)
  }

  lemma {:induction false} AlongIs(n: nat, s: int, delta: int, k: nat)
    requires 0 <= s < n && delta != 0 && k <= n
    ensures Along(n, s, delta, k)
            == if delta > 0 then if s + k < n then s + k else s + k - n else if s >= k then s - k else s - k + n
    decreases k
  {
    hide Neighbour;
    if k > 0 {
      AlongIs(n, s, delta, k - 1);
      NeighbourIs(n, Along(n, s, delta, k - 1), delta);
    }
  }

  /** `n` changes one way visit every class and end where they began. */
  lemma ChangesVisitAll(n: nat, s: int, delta: int, c: int) returns (k: nat)
    requires 0 <= s < n && 0 <= c < n && delta != 0
    ensures k < n && Along(n, s, delta, k) == c
    ensures Along(n, s, delta, n) == s
  {
    hide Along;
    k := if delta > 0 then if c >= s then c - s else c - s + n else if s >= c then s - c else s - c + n;
    AlongIs(n, s, delta, k);
    AlongIs(n, s, delta, n);
  }

  /** A change, a turn that sends it, and a full reply that accepts it. */
  function Tour(delta: int, times: seq<nat>): seq<Action> {
    if times == [] then []
    else
      var now := times[|times| - 1];
      Tour(delta, times[..|times| - 1])
      + [ChangeClass(delta, now), Serve(PRESS.(now := now)), GetClassReply([1] + seq(45, _ => 0))]
  }

  /** Selection is ready, and nothing else is going on. */
  predicate Choosing(p: Probe) {
    ManualReady(p) && !p.pendingDialog && !p.deathConsumed && p.spawns > 0 && 0 <= p.selected < p.spawns
  }

  function LastTime(start: nat, times: seq<nat>): nat {
    if times == [] then start else times[|times| - 1]
  }

  /** The times are at least the delay of 250 ms apart. */
  predicate Paced(start: nat, times: seq<nat>) {
    times == [] ||
    (Paced(start, times[..|times| - 1])
     && times[|times| - 1] - LastTime(start, times[..|times| - 1]) >= 250)
  }

  function RunFrom(w: World, actions: seq<Action>): World {
    if actions == [] then w else Step(RunFrom(w, actions[..|actions| - 1]), actions[|actions| - 1])
  }

  /** The classes a tour sends: from each to the next, round and round. */
  lemma {:induction false} TourSends(w: World, delta: int, times: seq<nat>)
    requires Choosing(w.p) && delta != 0
    requires Paced(w.p.lastClassTime, times)
    ensures var p, p' := w.p, RunFrom(w, Tour(delta, times)).p;
            && Choosing(p') && p'.spawns == p.spawns && p'.selected == Along(p.spawns, p.selected, delta, |times|)
            && p'.lastClassTime == LastTime(p.lastClassTime, times)
    ensures Chosen(RunFrom(w, Tour(delta, times)).trace)
            == Chosen(w.trace) + seq(|times|, k requires 0 <= k < |times| =>
                                       Along(w.p.spawns, w.p.selected, delta, k + 1))
    decreases |times|
  {
    hide Step, Choosing, Chosen;
    if times == [] {
      assert Tour(delta, times) == [];
    } else {
      var front, now := times[..|times| - 1], times[|times| - 1];
      TourSends(w, delta, front);
      var v := RunFrom(w, Tour(delta, front));
      var (a, b, c) := (ChangeClass(delta, now), Serve(PRESS.(now := now)), GetClassReply([1] + seq(45, _ => 0)));
      RunFromThree(w, Tour(delta, front), a, b, c);
      assert Tour(delta, times) == Tour(delta, front) + [a, b, c];
      OneStage(v, delta, now);
    }
  }

  lemma RunFromThree(w: World, actions: seq<Action>, a: Action, b: Action, c: Action)
    ensures RunFrom(w, actions + [a, b, c]) == Step(Step(Step(RunFrom(w, actions), a), b), c)
  {
    hide Step, RunFrom;
    assert actions + [a, b, c] == actions + [a] + [b] + [c];
    RunFromOneMore(w, actions, a);
    RunFromOneMore(w, actions + [a], b);
    RunFromOneMore(w, actions + [a] + [b], c);
  }

  lemma RunFromOneMore(w: World, actions: seq<Action>, a: Action)
    ensures RunFrom(w, actions + [a]) == Step(RunFrom(w, actions), a)
  {
    hide Step;
    assert (actions + [a])[..|actions|] == actions;
  }

  /** The classes requested, in order. */
  function Chosen(t: seq<Event>): seq<int> {
    if t == [] then []
    else Chosen(t[..|t| - 1]) + if t[|t| - 1].ClassSent? then [t[|t| - 1].id] else []
  }

  lemma OneStage(v: World, delta: int, now: nat)
    requires Choosing(v.p) && delta != 0 && now - v.p.lastClassTime >= 250
    ensures var u := Step(Step(Step(v, ChangeClass(delta, now)), Serve(PRESS.(now := now))),
                          GetClassReply([1] + seq(45, _ => 0)));
            && Choosing(u.p) && u.p.spawns == v.p.spawns && u.p.lastClassTime == now
            && u.p.selected == Neighbour(v.p.spawns, v.p.selected, delta)
            && Chosen(u.trace) == Chosen(v.trace) + [Neighbour(v.p.spawns, v.p.selected, delta)]
  {
    var i := PRESS.(now := now);
    var x := Step(v, ChangeClass(delta, now));
    ChangeSelects(v, delta, now);
    ChangeIsSent(v, delta, now, i);
    var y := Step(x, Serve(i));
    assert x.trace == v.trace && y.p.spawns == v.p.spawns && y.p.selected == x.p.selected;
    var u := Step(y, GetClassReply([1] + seq(45, _ => 0)));
    assert u.trace == y.trace + [ClassReply(Some(1), true)];
    assert (v.trace + [ClassSent(x.p.selected)])[..|v.trace|] == v.trace;
    assert u.trace[..|y.trace|] == y.trace;
  }

  // ----- what replies and calls do

  /** Exactly which class reply takes the after-death latch away: a nonzero outcome with full spawn information. */
  lemma ReplyUnlatches(w: World, payload: seq<byte>)
    ensures var p, p' := w.p, Step(w, GetClassReply(payload)).p;
            var full := |payload| >= 46 && payload[0] != 0;
            && p'.deathConsumed == (p.deathConsumed && !full) && p'.deathRequested == (p.deathRequested && !full)
            && p'.sawClassReply && !p'.waiting
            && p'.classOutcome == if payload == [] then p.classOutcome else payload[0]
  {
  }

  /** A spawn is accepted by outcome 1 or 2 and denied by any other; both take the pending request away. */
  lemma ReplyToSpawn(w: World, payload: seq<byte>)
    ensures var p, p' := w.p, Step(w, GetSpawnReply(payload)).p;
            && p'.pendingSpawn == (p.pendingSpawn && payload == [])
            && p'.spawnSends == if payload != [] && payload[0] !in {1, 2} then 0 else p.spawnSends
  {
  }

  /** The turn after a spawn asked for by hand sends it, if no dialog is open; and exactly when asking is of use. */
  lemma AskedSpawnIsSent(w: World, i: Inputs)
    requires !w.p.pendingSpawn && !w.p.pendingDialog && !w.p.sawDialog && !i.shift && i.spawnSent && !w.p.pendingClass
    ensures var p, v := w.p, Step(w, AskSpawn);
            var may := !p.waiting && p.sawClassReply && p.classOutcome != 0 && (p.spawnSends == 0 || p.deathConsumed);
            Step(v, Serve(i)).trace == v.trace + if may then [SpawnSent] else []
  {
    var v := Step(w, AskSpawn);
    TurnSends(v, i);
  }

  /** A dialog is open once shown, and remembered by its number if that could be read. */
  lemma DialogIsShown(w: World, id: Option<nat>)
    ensures Step(w, GetDialog(id))
            == World(w.p.(sawDialog := true, lastDialogId := if id.Some? then id.value else w.p.lastDialogId),
                     w.trace + [DialogShown])
  {
  }

  /** A response is taken exactly for a dialog that is open or was the last, and the next turn sends it. */
  lemma AnswerIsSent(w: World, id: nat, i: Inputs)
    requires !w.p.pendingDialog && !w.p.pendingClass && !w.p.pendingSpawn && i.dialogSent && !i.shift
    ensures Step(Step(w, AnswerDialog(id)), Serve(i)).trace
            == w.trace + if w.p.sawDialog || w.p.lastDialogId == id then [DialogAnswered] else []
  {
    TurnSends(Step(w, AnswerDialog(id)), i);
  }

  /** The first announcement of a session schedules class 0, and the next turn requests it. */
  lemma FirstClass(n: nat, i: Inputs)
    requires i.classSent
    ensures Step(Step(World(FRESH, []), GetInitGame(Some(n))), Serve(i)).trace == [InitGame(Some(n)), ClassSent(0)]
  {
    var v := Step(World(FRESH, []), GetInitGame(Some(n)));
    assert v.trace == [] + [InitGame(Some(n))] == [InitGame(Some(n))];
    TurnSends(v, i);
  }

  /** A later announcement changes only the number of classes while a class is requested or scheduled. */
  lemma LaterInitGame(w: World, decoded: Option<nat>)
    requires w.p.sentClass || w.p.pendingClass || w.p.waiting
    ensures Step(w, GetInitGame(decoded)).p
            == w.p.(sawInitGame := true, spawns := if decoded.Some? then decoded.value else w.p.spawns)
  {
  }

  /**
   * A death is marked once the session has begun, unless a mark is pending; re-selection needs a pending mark, uses it
   * up, and requests the selected class in the next turn even while a reply is awaited.
   */
  lemma MarkThenReselect(w: World, i: Inputs)
    requires w.p.sawInitGame && w.p.spawns > 0 && 0 <= w.p.selected < w.p.spawns && !w.p.pendingDialog && i.classSent
    ensures var v := Step(w, MarkAfterDeath);
            var u := Step(v, ReselectAfterDeath);
            && v.trace == w.trace + (if w.p.deathRequested && !w.p.deathConsumed then [] else [Marked])
            && Step(v, MarkAfterDeath) == v
            && u.trace == v.trace + [Reselected] && Step(u, ReselectAfterDeath) == u
            && Step(u, Serve(i)).trace == u.trace + [ClassSent(w.p.selected)]
  {
    var v := Step(w, MarkAfterDeath);
    var u := Step(v, ReselectAfterDeath);
    assert u.p.pendingClass && u.p.pendingClassId == w.p.selected && !u.p.waiting && !u.p.pendingSpawn;
    assert !u.p.sawClassReply && !u.p.pendingDialog && u.p.spawns == w.p.spawns;
    hide Step;
    TurnSends(u, i);
  }

  /** Before the session has begun there is neither. */
  lemma NothingBeforeInitGame(w: World)
    requires !w.p.sawInitGame
    ensures Step(w, MarkAfterDeath) == w && Step(w, ReselectAfterDeath) == w
  {
  }

  /** Only a pending mark allows a re-selection. */
  lemma NoReselection(w: World)
    requires !w.p.deathRequested || w.p.deathConsumed
    ensures Step(w, ReselectAfterDeath) == w
  {
  }

  // ----- the session object

  class Session {
    var sawInitGame: bool
    var sawClassReply: bool
    var sawDialog: bool
    var pendingClass: bool
    var pendingSpawn: bool
    var pendingDialog: bool
    var pendingClassId: int
    var sentClass: bool
    var waiting: bool
    var spawnSends: nat
    var shiftDown: bool
    var deathRequested: bool
    var deathConsumed: bool
    var selected: int
    var lastDialogId: nat
    var spawns: nat
    var classOutcome: byte
    var lastClassTime: nat
    ghost var trace: seq<Event>

    ghost function State(): Probe
      reads this
    {
      Probe(sawInitGame, sawClassReply, sawDialog, pendingClass, pendingSpawn, pendingDialog, pendingClassId, sentClass,
            waiting, spawnSends, shiftDown, deathRequested, deathConsumed, selected, lastDialogId, spawns, classOutcome,
            lastClassTime)
    }

    ghost function Now(): World
      reads this
    {
      World(State(), trace)
    }

    constructor ()
      ensures Now() == World(FRESH, [])
    {
      sawInitGame, sawClassReply, sawDialog := false, false, false;
      pendingClass, pendingSpawn, pendingDialog, pendingClassId := false, false, false, 0;
      sentClass, waiting, spawnSends, shiftDown := false, false, 0, false;
      deathRequested, deathConsumed, selected, lastDialogId := false, false, 0, 0;
      spawns, classOutcome, lastClassTime := 0, 0, 0;
      trace := [];
    }

    /** `clamp_class_id` */
    function ClampClassId(c: int): (id: int)
      reads this
      ensures id == Clamp(spawns, c)
    {
      var available := if spawns != 0 then spawns else 1;
      if c < 0 then available - 1 else if c >= available then 0 else c
    }

    /** `schedule_request_class` */
    method ScheduleRequestClass(c: int)
      modifies this`selected, this`pendingClassId, this`pendingClass
      ensures State() == Schedule(old(State()), c)
    {
      var clamped := ClampClassId(c);
      selected := clamped;
      pendingClassId := clamped;
      pendingClass := true;
    }

    /** `class_selection_manual_ready` */
    predicate ClassSelectionManualReady()
      reads this
      ensures ClassSelectionManualReady() == ManualReady(State())
    {
      !sawDialog && !pendingSpawn && !pendingClass && !waiting && sawClassReply && classOutcome != 0 && spawnSends == 0
    }

    method OnInitGame(decoded: Option<nat>)
      modifies this
      ensures Now() == AfterInitGame(old(Now()), decoded)
    {
      hide Clamp;
      sawInitGame := true;
      trace := trace + [InitGame(decoded)];
      spawns := if decoded.Some? then decoded.value else spawns;
      if !sentClass && !pendingClass && !waiting {
        ScheduleRequestClass(selected);
      }
    }

    method OnClassReply(payload: seq<byte>)
      modifies this
      ensures Now() == AfterClassReply(old(Now()), payload)
    {
      trace := trace + [ClassReply(FirstOctet(payload),
                                   payload != [] && payload[0] != 0 && |payload| >= 1 + SPAWN_INFO_BYTES)];
      TakeClassReply(if payload == [] then classOutcome else payload[0]);
      if |payload| > 0 && classOutcome != 0 && |payload| >= 1 + SPAWN_INFO_BYTES {
        SetLatch(false);
      }
    }

    method TakeClassReply(outcome: byte)
      modifies this`sawClassReply, this`waiting, this`classOutcome
      ensures sawClassReply && !waiting && classOutcome == outcome
    {
      sawClassReply := true;
      waiting := false;
      classOutcome := outcome;
    }

    method OnSpawnReply(payload: seq<byte>)
      modifies this
      ensures Now() == AfterSpawnReply(old(Now()), payload)
    {
      trace := trace + [SpawnReply(FirstOctet(payload))];
      if |payload| > 0 {
        pendingSpawn := false;
        if payload[0] != 2 && payload[0] != 1 {
          spawnSends := 0;
        }
      }
    }

    method OnDialog(id: Option<nat>)
      modifies this
      ensures Now() == AfterDialog(old(Now()), id)
    {
      sawDialog := true;
      trace := trace + [DialogShown];
      lastDialogId := if id.Some? then id.value else lastDialogId;
    }

    /** `service_rpc_probe_actions` up to the score updates; the oracles say whether each send succeeds. */
    method Service(i: Inputs)
      modifies this
      ensures Now() == AfterServe(old(Now()), i)
    {
      hide ServeDialog, ServeClass, ServeKeys, ServeSpawn;
      ServiceDialogResponse(i);
      ServiceRequestClass(i);
      ServiceKeys(i);
      ServiceRequestSpawn(i);
    }

    method ServiceDialogResponse(i: Inputs)
      modifies this`pendingDialog, this`sawDialog, this`trace
      ensures Now() == ServeDialog(old(Now()), i)
    {
      if pendingDialog {
        pendingDialog := false;
        if i.dialogSent {
          sawDialog := false;
          trace := trace + [DialogAnswered];
        }
      }
    }

    method ServiceRequestClass(i: Inputs)
      modifies this
      ensures Now() == ServeClass(old(Now()), i)
    {
      if pendingClass && !waiting {
        var id := ClampClassId(pendingClassId);
        if i.classSent {
          ClassWasSent(id, i.now);
          trace := trace + [ClassSent(id)];
        }
      }
    }

    method ClassWasSent(id: int, now: nat)
      modifies this`sentClass, this`pendingClass, this`waiting, this`selected, this`lastClassTime
      ensures sentClass && !pendingClass && waiting && selected == id && lastClassTime == now
    {
      sentClass := true;
      pendingClass := false;
      waiting := true;
      selected := id;
      lastClassTime := now;
    }

    method ServiceKeys(i: Inputs)
      modifies this`pendingSpawn, this`shiftDown, this`selected, this`pendingClassId, this`pendingClass
      ensures State() == ServeKeys(old(State()), i)
    {
      hide Clamp;
      if ClassSelectionManualReady() {
        var elapsed := if i.now >= lastClassTime then i.now - lastClassTime else 0;
        if i.shift && !shiftDown {
          pendingSpawn := true;
        } else if (i.left || i.right) && elapsed >= RESELECT_DELAY_MS {
          var next := ClampClassId(selected + if i.left then -1 else 1);
          ScheduleRequestClass(next);
        }
        shiftDown := i.shift;
      }
    }

    method ServiceRequestSpawn(i: Inputs)
      modifies this`spawnSends, this`pendingSpawn, this`trace
      ensures Now() == ServeSpawn(old(Now()), i)
    {
      if pendingSpawn {
        if sawDialog {
          return;
        }
        var attempt := spawnSends + 1;
        spawnSends := if i.spawnSent then attempt else 0;
        pendingSpawn := false;
        if i.spawnSent {
          trace := trace + [SpawnSent];
        }
      }
    }

    /** `samp_raknet_client_mark_class_selection_after_death` */
    method MarkClassSelectionAfterDeath() returns (rc: int)
      modifies this
      ensures Now() == AfterMark(old(Now()))
      ensures rc == if CanMark(old(State())) then 0 else if !old(sawInitGame) then -2 else 1
    {
      if !sawInitGame {
        return -2;
      }
      if deathRequested && !deathConsumed {
        return 1;
      }
      deathRequested := true;
      deathConsumed := false;
      trace := trace + [Marked];
      return 0;
    }

    /** `samp_raknet_client_request_class_selection_after_death` */
    method RequestClassSelectionAfterDeath() returns (rc: int)
      modifies this
      ensures Now() == AfterReselect(old(Now()))
      ensures rc == if CanReselect(old(State())) then 0 else if !old(sawInitGame) then -2 else -3
    {
      if !sawInitGame {
        return -2;
      }
      if !deathRequested || deathConsumed {
        return -3;
      }
      ConsumeMark();
      return 0;
    }

    /** The accepted branch of `samp_raknet_client_request_class_selection_after_death`. */
    method ConsumeMark()
      modifies this
      ensures Now() == World(Reselect(old(State())), old(trace) + [Reselected])
    {
      hide Clamp;
      trace := trace + [Reselected];
      StartOver();
      ScheduleRequestClass(selected);
    }

    method StartOver()
      modifies this`deathRequested, this`deathConsumed, this`sawClassReply, this`classOutcome, this`waiting,
        this`pendingSpawn, this`spawnSends, this`shiftDown
      ensures !deathRequested && deathConsumed && !sawClassReply && classOutcome == 0 && !waiting
      ensures !pendingSpawn && spawnSends == 0 && !shiftDown
    {
      SetLatch(true);
      ForgetClassReply();
      ForgetSpawn();
    }

    method SetLatch(on: bool)
      modifies this`deathRequested, this`deathConsumed
      ensures !deathRequested && deathConsumed == on
    {
      deathRequested := false;
      deathConsumed := on;
    }

    method ForgetClassReply()
      modifies this`sawClassReply, this`classOutcome, this`waiting
      ensures !sawClassReply && classOutcome == 0 && !waiting
    {
      sawClassReply := false;
      classOutcome := 0;
      waiting := false;
    }

    method ForgetSpawn()
      modifies this`pendingSpawn, this`spawnSends, this`shiftDown
      ensures !pendingSpawn && spawnSends == 0 && !shiftDown
    {
      pendingSpawn := false;
      spawnSends := 0;
      shiftDown := false;
    }

    /** The accepted branch of `samp_raknet_client_request_class_delta`. */
    method ChangeClassBy(delta: int)
      modifies this
      ensures Now() == AfterChange(old(Now()), delta)
    {
      var step := if delta < 0 then -1 else 1;
      var next := ClampClassId(selected + step);
      if deathConsumed {
        ForgetClassReply();
        trace := trace + [Forced];
      }
      ScheduleRequestClass(next);
    }

    /** `samp_raknet_client_request_class_delta` */
    method RequestClassDelta(delta: int, now: nat) returns (rc: int)
      modifies this
      ensures rc == if CanChange(old(State()), delta, now) then 0
                    else if delta != 0 && (ManualReady(old(State())) || old(deathConsumed)) then -2 else -1
      ensures Now() == Step(old(Now()), ChangeClass(delta, now))
    {
      hide AfterChange;
      if delta == 0 || (!ClassSelectionManualReady() && !deathConsumed) {
        return -1;
      }
      var elapsed := if now >= lastClassTime then now - lastClassTime else 0;
      if elapsed < RESELECT_DELAY_MS {
        return -2;
      }
      ChangeClassBy(delta);
      return 0;
    }

    /** `samp_raknet_client_request_spawn` */
    method RequestSpawn() returns (rc: int)
      modifies this
      ensures Now() == AfterAskSpawn(old(Now()))
      ensures rc == if CanAskSpawn(old(State())) then 0
                    else if ManualReady(old(State())) || old(deathConsumed) then -2 else -1
    {
      var forced := deathConsumed;
      if !ClassSelectionManualReady() && !forced {
        return -1;
      }
      if pendingClass || waiting || !sawClassReply || classOutcome == 0 {
        return -2;
      }
      if !ClassSelectionManualReady() {
        trace := trace + [Confirmed];
      }
      pendingSpawn := true;
      return 0;
    }

    /** `samp_raknet_client_queue_dialog_response` */
    method QueueDialogResponse(id: nat) returns (rc: int)
      modifies this
      ensures Now() == AfterAnswer(old(Now()), id)
      ensures rc == if old(sawDialog) || old(lastDialogId) == id then 0 else -1
    {
      if !sawDialog && lastDialogId != id {
        return -1;
      }
      pendingDialog := true;
      return 0;
    }

    /** The handshake part of `reset_rpc_probe_runtime`. */
    method ResetRuntime()
      modifies this
      ensures Now() == World(FRESH, old(trace) + [Reset])
    {
      ForgetClassReply();
      ForgetSpawn();
      ForgetRequests();
      ForgetSession();
      trace := trace + [Reset];
    }

    method ForgetRequests()
      modifies this`pendingClass, this`pendingDialog, this`pendingClassId, this`sentClass, this`selected,
        this`lastClassTime
      ensures !pendingClass && !pendingDialog && pendingClassId == 0 && !sentClass && selected == 0
        && lastClassTime == 0
    {
      pendingClass := false;
      pendingDialog := false;
      pendingClassId := 0;
      sentClass := false;
      selected := 0;
      lastClassTime := 0;
    }

    method ForgetSession()
      modifies this`sawInitGame, this`sawDialog, this`deathRequested, this`deathConsumed, this`lastDialogId, this`spawns
      ensures !sawInitGame && !sawDialog && !deathRequested && !deathConsumed && lastDialogId == 0 && spawns == 0
    {
      sawInitGame := false;
      sawDialog := false;
      deathRequested := false;
      deathConsumed := false;
      lastDialogId := 0;
      spawns := 0;
    }

    method Perform(a: Action)
      modifies this
      ensures Now() == Step(old(Now()), a)
    {
      hide AfterInitGame, AfterClassReply, AfterSpawnReply, AfterDialog, AfterServe, AfterMark, AfterReselect,
        AfterChange, AfterAskSpawn, AfterAnswer, CanChange, CanMark, CanReselect, CanAskSpawn, ManualReady;
      var rc: int;
      match a
      case GetInitGame(decoded) => OnInitGame(decoded);
      case GetClassReply(payload) => OnClassReply(payload);
      case GetSpawnReply(payload) => OnSpawnReply(payload);
      case GetDialog(id) => OnDialog(id);
      case Serve(input) => Service(input);
      case MarkAfterDeath => rc := MarkClassSelectionAfterDeath();
      case ReselectAfterDeath => rc := RequestClassSelectionAfterDeath();
      case ChangeClass(delta, now) => rc := RequestClassDelta(delta, now);
      case AskSpawn => rc := RequestSpawn();
      case AnswerDialog(id) => rc := QueueDialogResponse(id);
      case ResetSession => ResetRuntime();
    }
  }

  /** Any sequence of messages, calls and service turns, run on a session object. */
  method RunSession(actions: seq<Action>) returns (s: Session)
    ensures s.Now() == RunOf(actions) && Invariant(s.Now())
  {
    hide Step, Invariant;
    s := new Session();
    for k := 0 to |actions|
      invariant fresh(s) && s.Now() == RunOf(actions[..k])
    {
      assert actions[..k + 1][..k] == actions[..k];
      s.Perform(actions[k]);
    }
    assert actions[..|actions|] == actions;
    EveryRunIsSafe(actions);
  }
}
