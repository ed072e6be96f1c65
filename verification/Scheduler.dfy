/** The daily scheduler as a state machine. */
module Scheduler {
  import opened Wrappers
  import opened Schedules
  import Order

  // `service.rs`: any number of ticks, each one effect at a time, among manual operations, schedule
  // edits, store calls that fail before or after they took effect, and crashes at any point
  // followed by a reopening that may itself be cut short.

  datatype SlotId = SlotId(kind: string, day: int)

  datatype SlotState = Claimed | Dispatched(operation: nat) | Interrupted

  type Slots = map<SlotId, SlotState>
  type Rows = map<string, Schedule>

  // ---------- the store's statements ----------

  /** `INSERT OR IGNORE INTO slots … 'claimed'` */
  function ClaimRow(slots: Slots, id: SlotId): Slots {
    if id in slots then slots else slots[id := Claimed]
  }

  /** `UPDATE slots SET state='dispatched', operation=…` */
  function DispatchRow(slots: Slots, id: SlotId, operation: nat): Slots {
    if id in slots then slots[id := Dispatched(operation)] else slots
  }

  /** `DELETE FROM slots … AND state='claimed'` */
  function ReleaseRow(slots: Slots, id: SlotId): Slots {
    if id in slots && slots[id].Claimed? then slots - {id} else slots
  }

  /** `UPDATE slots SET state='interrupted' WHERE state='claimed'` */
  function InterruptRows(slots: Slots): Slots {
    map id | id in slots :: if slots[id].Claimed? then Interrupted else slots[id]
  }

  /** `INSERT OR IGNORE INTO schedules` */
  function AddRow(rows: Rows, s: Schedule): Rows {
    if s.kind in rows then rows else rows[s.kind := s]
  }

  /** `DaemonConfig`, as far as scheduling reads it. */
  datatype Config = Config(publishAt: Option<string>, backupAt: Option<string>, offset: int)

  function Default(kind: string, at: Option<string>, offset: int): Schedule {
    Schedule(kind, if at.Some? then at.value else "03:00", at.Some?, offset)
  }

  predicate IsLeast(k: string, keys: set<string>) {
    k in keys && forall x :: x in keys ==> !Order.Less(x, k)
  }

  lemma {:induction false} LeastExists(keys: set<string>)
    requires keys != {}
    ensures exists k :: IsLeast(k, keys)
    ensures forall k, l :: IsLeast(k, keys) && IsLeast(l, keys) ==> k == l
    decreases |keys|
  {
    hide Order.Less;
    var x :| x in keys;
    var rest := keys - {x};
    if rest == {} {
      Order.Trichotomy(x, x);
      assert keys == {x};
      assert IsLeast(x, keys);
    } else {
      LeastExists(rest);
      var m :| IsLeast(m, rest);
      LeastOfMore(x, m, rest);
      assert keys == rest + {x};
    }
    forall k, l | IsLeast(k, keys) && IsLeast(l, keys) ensures k == l {
      Order.Trichotomy(k, l);
    }
  }

  lemma LeastOfMore(x: string, m: string, rest: set<string>)
    requires IsLeast(m, rest)
    ensures IsLeast(if Order.Less(x, m) then x else m, rest + {x})
  {
    hide Order.Less;
    Order.Trichotomy(x, m);
    Order.Trichotomy(x, x);
    if Order.Less(x, m) {
      forall y | y in rest ensures !Order.Less(y, x) {
        Order.Trichotomy(y, x);
        Order.Transitive(x, m, y);
      }
    }
  }

  function LeastKey(keys: set<string>): (k: string)
    requires keys != {}
    ensures IsLeast(k, keys)
  {
    LeastExists(keys);
    var k :| IsLeast(k, keys);
    k
  }

  /** The keys of a table, in the order of the column. */
  function OrderedKeys(keys: set<string>): (r: seq<string>)
    ensures forall k :: k in r <==> k in keys
    decreases |keys|
  {
    if keys == {} then []
    else
      var k := LeastKey(keys);
      [k] + OrderedKeys(keys - {k})
  }

  function RowsAt(keys: seq<string>, rows: Rows): seq<Schedule>
    requires forall k :: k in keys ==> k in rows
  {
    seq(|keys|, i requires 0 <= i < |keys| => rows[keys[i]])
  }

  lemma NextRow(keys: set<string>, rows: Rows)
    requires keys != {} && keys <= rows.Keys
    ensures var k := LeastKey(keys);
      RowsAt(OrderedKeys(keys), rows) == [rows[k]] + RowsAt(OrderedKeys(keys - {k}), rows)
  {
    hide LeastKey;
    var k := LeastKey(keys);
    assert OrderedKeys(keys) == [k] + OrderedKeys(keys - {k});
  }

  lemma NoRows(rows: Rows)
    ensures RowsAt(OrderedKeys({}), rows) == []
  {
  }

  /** `SELECT body FROM schedules ORDER BY kind` */
  function InOrder(rows: Rows): seq<Schedule> {
    RowsAt(OrderedKeys(rows.Keys), rows)
  }

  lemma {:induction false} OrderedKeysExact(keys: set<string>)
    ensures var r := OrderedKeys(keys);
      && |r| == |keys| && (forall k :: k in r <==> k in keys)
      && forall i, j :: 0 <= i < j < |r| ==> Order.Less(r[i], r[j])
    decreases |keys|
  {
    hide Order.Less;
    if keys != {} {
      var k := LeastKey(keys);
      var rest := OrderedKeys(keys - {k});
      OrderedKeysExact(keys - {k});
      forall x | x in rest ensures Order.Less(k, x) {
        Order.Trichotomy(k, x);
      }
      assert OrderedKeys(keys) == [k] + rest;
    }
  }

  /** The query lists every stored schedule exactly once, in the order of the kinds they are stored under. */
  lemma InOrderExact(rows: Rows)
    ensures var keys := OrderedKeys(rows.Keys);
      && |InOrder(rows)| == |keys| == |rows| && (forall k :: k in rows <==> k in keys)
      && (forall i, j :: 0 <= i < j < |keys| ==> Order.Less(keys[i], keys[j]))
      && forall i :: 0 <= i < |keys| ==> InOrder(rows)[i] == rows[keys[i]]
  {
    OrderedKeysExact(rows.Keys);
  }

  // ---------- the machine ----------

  type TickId = nat

  /** Where one call of `tick` stands: the effect it performs next. */
  datatype Phase =
    | Checking(now: int)
    | Reading(now: int)
    | Visiting(now: int, rest: seq<Schedule>)
    | Starting(slot: SlotId)
    | Recording(slot: SlotId, operation: nat)
    | Releasing(slot: SlotId)
    | Ended(ok: bool)

  /** How a store call ends: an error may be reported although the statement took effect. */
  datatype Fate = Works | FailsBefore | FailsAfter

  /** One operation a tick started. */
  datatype Started = Started(tick: TickId, slot: SlotId, operation: nat)

  datatype World = World(
    slots: Slots, rows: Rows,
    active: Option<nat>, nextOperation: nat, running: set<nat>,
    ticks: map<TickId, Phase>, nextTick: nat,
    starts: seq<Started>)

  datatype Action =
    | Check
    | Read(ok: bool)
    | Visit(requestOk: bool, fate: Fate)
    | StartOperation
    | Record(fate: Fate)
    | Release(fate: Fate)

  datatype Step =
    | Begin(now: int)
    | Act(tick: TickId, action: Action)
    | Manual
    | Finish
    | Save(schedule: Schedule)
    | Crash
    | Open(config: Config, reached: nat)

  function Goes(w: World, t: TickId, phase: Phase): World {
    w.(ticks := w.ticks[t := phase])
  }

  /** The row a store call leaves, given how it ends. */
  function After(fate: Fate, before: Slots, done: Slots): Slots {
    if fate.FailsBefore? then before else done
  }

  /** One schedule of the loop in `tick`: not due, refused, already claimed, or claimed now. */
  function VisitStep(w: World, t: TickId, now: int, rest: seq<Schedule>, requestOk: bool, fate: Fate): World {
    if rest == [] then Goes(w, t, Ended(true))
    else
      match SlotOf(rest[0], now)
      case None => Goes(w, t, Visiting(now, rest[1..]))
      case Some(day) =>
        var id := SlotId(rest[0].kind, day);
        if !requestOk && rest[0].kind != "publish" then Goes(w, t, Ended(false))
        else
          var claimed := w.(slots := After(fate, w.slots, ClaimRow(w.slots, id)));
          if !fate.Works? then Goes(claimed, t, Ended(false))
          else if id in w.slots then Goes(claimed, t, Visiting(now, rest[1..]))
          else Goes(claimed, t, Starting(id))
  }

  /** `OperationSupervisor::start`: refused while an operation is active. */
  function StartStep(w: World, t: TickId, id: SlotId): World {
    if w.active.Some? then Goes(w, t, Releasing(id))
    else
      var operation := w.nextOperation;
      Goes(w.(active := Some(operation), nextOperation := operation + 1, running := w.running + {operation},
              starts := w.starts + [Started(t, id, operation)]),
           t, Recording(id, operation))
  }

  function ActStep(w: World, t: TickId, phase: Phase, action: Action): Option<World> {
    match (phase, action)
    case (Checking(now), Check) => Some(Goes(w, t, if w.active.Some? then Ended(true) else Reading(now)))
    case (Reading(now), Read(ok)) => Some(Goes(w, t, if ok then Visiting(now, InOrder(w.rows)) else Ended(false)))
    case (Visiting(now, rest), Visit(requestOk, fate)) => Some(VisitStep(w, t, now, rest, requestOk, fate))
    case (Starting(id), StartOperation) => Some(StartStep(w, t, id))
    case (Recording(id, operation), Record(fate)) =>
      Some(Goes(w.(slots := After(fate, w.slots, DispatchRow(w.slots, id, operation))), t, Ended(fate.Works?)))
    case (Releasing(id), Release(fate)) =>
      Some(Goes(w.(slots := After(fate, w.slots, ReleaseRow(w.slots, id))), t, Ended(fate.Works?)))
    case _ => None
  }

  /** `ServiceStore::open`, as far as it gets: claims interrupted, then one default schedule and the other. */
  function OpenStep(w: World, config: Config, reached: nat): World {
    var slots := if reached >= 1 then InterruptRows(w.slots) else w.slots;
    var rows := if reached >= 2 then AddRow(w.rows, Default("publish", config.publishAt, config.offset)) else w.rows;
    w.(slots := slots, rows := if reached >= 3 then AddRow(rows, Default("backup", config.backupAt, config.offset)) else rows)
  }

  function Next(w: World, s: Step): Option<World> {
    match s
    case Begin(now) => Some(Goes(w, w.nextTick, Checking(now)).(nextTick := w.nextTick + 1))
    case Act(t, action) => if t in w.ticks then ActStep(w, t, w.ticks[t], action) else None
    case Manual =>
      if w.active.Some? then None
      else Some(w.(active := Some(w.nextOperation), nextOperation := w.nextOperation + 1, running := w.running + {w.nextOperation}))
    case Finish => if w.active.None? then None else Some(w.(active := None, running := w.running - {w.active.value}))
    case Save(s) => if Validate(s).Failure? then None else Some(w.(rows := w.rows[s.kind := s]))
    case Crash => Some(w.(active := None, running := {}, ticks := map[]))
    case Open(config, reached) => if w.ticks == map[] then Some(OpenStep(w, config, reached)) else None
  }

  function Behave(w: World, steps: seq<Step>): Option<World>
    decreases |steps|
  {
    if steps == [] then Some(w)
    else
      match Next(w, steps[0])
      case None => None
      case Some(w') => Behave(w', steps[1..])
  }

  // ---------- the invariant ----------

  /** The slot a tick has claimed and not yet settled. */
  function Owned(phase: Phase): Option<SlotId> {
    match phase
    case Starting(id) => Some(id)
    case Recording(id, _) => Some(id)
    case Releasing(id) => Some(id)
    case _ => None
  }

  ghost predicate Owns(w: World, t: TickId, id: SlotId) {
    t in w.ticks && Owned(w.ticks[t]) == Some(id)
  }

  /** Every unsettled claim is in the store, and only one tick holds it. */
  ghost predicate ClaimsHeld(w: World) {
    && (forall t, id :: Owns(w, t, id) ==> id in w.slots && w.slots[id].Claimed?)
    && (forall t, u, id :: Owns(w, t, id) && Owns(w, u, id) ==> t == u)
  }

  predicate BeforeStart(phase: Phase) {
    !phase.Recording? && !phase.Ended?
  }

  ghost predicate SlotStarted(starts: seq<Started>, id: SlotId) {
    exists i :: 0 <= i < |starts| && starts[i].slot == id
  }

  ghost predicate TickStarted(starts: seq<Started>, t: TickId) {
    exists i :: 0 <= i < |starts| && starts[i].tick == t
  }

  /** What was started stays in the store, and nobody who could still start or release it holds it. */
  ghost predicate StartsTaken(w: World) {
    && (forall i :: 0 <= i < |w.starts| ==> w.starts[i].slot in w.slots && w.starts[i].tick < w.nextTick)
    && (forall t, id :: Owns(w, t, id) && BeforeStart(w.ticks[t]) ==> !SlotStarted(w.starts, id))
    && (forall t :: t in w.ticks && BeforeStart(w.ticks[t]) ==> !TickStarted(w.starts, t))
  }

  /** Each slot and each tick occurs at most once among the starts. */
  ghost predicate StartsOnce(starts: seq<Started>) {
    forall i, j :: 0 <= i < j < |starts| ==> starts[i].slot != starts[j].slot && starts[i].tick != starts[j].tick
  }

  /** The supervisor runs the active operation and no other. */
  ghost predicate OneRuns(w: World) {
    w.running == (match w.active case None => {} case Some(operation) => {operation})
  }

  ghost predicate TicksKnown(w: World) {
    forall t :: t in w.ticks ==> t < w.nextTick
  }

  ghost predicate Inv(w: World) {
    ClaimsHeld(w) && StartsTaken(w) && StartsOnce(w.starts) && OneRuns(w) && TicksKnown(w)
  }

  /** Any store, nobody ticking, nothing started yet. */
  ghost predicate Init(w: World) {
    w.ticks == map[] && w.starts == [] && w.active.None? && w.running == {}
  }

  lemma InitHolds(w: World)
    ensures Init(w) ==> Inv(w)
  {
  }

  // ---------- every step keeps it ----------

  /** A tick moves to a phase that holds no claim and will start nothing more, or nothing new. */
  lemma MoveKeeps(w: World, t: TickId, phase: Phase)
    requires Inv(w) && t in w.ticks && Owned(phase).None?
    requires BeforeStart(phase) ==> BeforeStart(w.ticks[t])
    ensures Inv(Goes(w, t, phase))
  {
    var w' := Goes(w, t, phase);
    assert forall u, id :: Owns(w', u, id) ==> Owns(w, u, id) && u != t && w'.ticks[u] == w.ticks[u];
  }

  /** A row nobody holds and nobody started may change or go, and a new one may come. */
  lemma UnheldRowsKeep(w: World, slots: Slots)
    requires Inv(w)
    requires forall t, id :: Owns(w, t, id) ==> id in slots && slots[id].Claimed?
    requires forall id :: id in w.slots && SlotStarted(w.starts, id) ==> id in slots
    ensures Inv(w.(slots := slots))
  {
    var w' := w.(slots := slots);
    assert forall u, id :: Owns(w', u, id) <==> Owns(w, u, id);
    forall i | 0 <= i < |w.starts| ensures w.starts[i].slot in slots {
      assert SlotStarted(w.starts, w.starts[i].slot);
    }
  }

  lemma ClaimKeeps(w: World, t: TickId, id: SlotId)
    requires Inv(w) && t in w.ticks && BeforeStart(w.ticks[t]) && Owned(w.ticks[t]).None? && id !in w.slots
    ensures Inv(Goes(w.(slots := w.slots[id := Claimed]), t, Starting(id)))
  {
    var w' := Goes(w.(slots := w.slots[id := Claimed]), t, Starting(id));
    assert forall u, x :: Owns(w', u, x) ==> (u == t && x == id) || (u != t && Owns(w, u, x));
    assert forall u, x :: Owns(w, u, x) ==> x != id;
    assert !SlotStarted(w.starts, id);
  }

  lemma VisitKeeps(w: World, t: TickId, now: int, rest: seq<Schedule>, requestOk: bool, fate: Fate)
    requires Inv(w) && t in w.ticks && w.ticks[t] == Visiting(now, rest)
    ensures Inv(VisitStep(w, t, now, rest, requestOk, fate))
  {
    if rest != [] && SlotOf(rest[0], now).Some? && (requestOk || rest[0].kind == "publish") {
      var id := SlotId(rest[0].kind, SlotOf(rest[0], now).value);
      if fate.Works? && id !in w.slots {
        ClaimKeeps(w, t, id);
      } else {
        var slots := After(fate, w.slots, ClaimRow(w.slots, id));
        UnheldRowsKeep(w, slots);
        MoveKeeps(w.(slots := slots), t, if fate.Works? then Visiting(now, rest[1..]) else Ended(false));
      }
    } else {
      MoveKeeps(w, t, if rest == [] then Ended(true) else if SlotOf(rest[0], now).None? then Visiting(now, rest[1..]) else Ended(false));
    }
  }

  lemma RefusedKeeps(w: World, t: TickId, id: SlotId)
    requires Inv(w) && t in w.ticks && w.ticks[t] == Starting(id)
    ensures Inv(Goes(w, t, Releasing(id)))
  {
    var w' := Goes(w, t, Releasing(id));
    assert forall u, x :: Owns(w', u, x) <==> Owns(w, u, x);
  }

  lemma StartOnce(starts: seq<Started>, s: Started)
    requires StartsOnce(starts) && !SlotStarted(starts, s.slot) && !TickStarted(starts, s.tick)
    ensures StartsOnce(starts + [s])
    ensures forall id :: SlotStarted(starts + [s], id) <==> SlotStarted(starts, id) || id == s.slot
    ensures forall t :: TickStarted(starts + [s], t) <==> TickStarted(starts, t) || t == s.tick
  {
    var all := starts + [s];
    assert forall i :: 0 <= i < |starts| ==> all[i] == starts[i];
    assert all[|starts|] == s;
  }

  lemma StartKeeps(w: World, t: TickId, id: SlotId)
    requires Inv(w) && t in w.ticks && w.ticks[t] == Starting(id) && w.active.None?
    ensures Inv(StartStep(w, t, id))
  {
    var w' := StartStep(w, t, id);
    var s := Started(t, id, w.nextOperation);
    assert Owns(w, t, id);
    StartOnce(w.starts, s);
    assert forall u, x :: Owns(w', u, x) <==> Owns(w, u, x);
    assert forall u :: u in w'.ticks && u != t ==> w'.ticks[u] == w.ticks[u];
  }

  /** Settling a claim: the row is recorded, released, or left behind, and the tick is over. */
  lemma SettleKeeps(w: World, t: TickId, id: SlotId, slots: Slots, ok: bool)
    requires Inv(w) && Owns(w, t, id)
    requires forall x :: x in w.slots && x != id ==> x in slots && slots[x] == w.slots[x]
    requires BeforeStart(w.ticks[t]) || id in slots
    ensures Inv(Goes(w.(slots := slots), t, Ended(ok)))
  {
    var w' := Goes(w.(slots := slots), t, Ended(ok));
    forall u, x | Owns(w', u, x) ensures u != t && Owns(w, u, x) && x != id {
      assert u != t && Owns(w, u, x);
    }
    forall i | 0 <= i < |w.starts| ensures w.starts[i].slot in slots {
      assert SlotStarted(w.starts, w.starts[i].slot);
    }
  }

  lemma ActKeeps(w: World, t: TickId, action: Action)
    requires Inv(w) && Next(w, Act(t, action)).Some?
    ensures Inv(Next(w, Act(t, action)).value)
  {
    match (w.ticks[t], action)
    case (Checking(now), Check) => MoveKeeps(w, t, if w.active.Some? then Ended(true) else Reading(now));
    case (Reading(now), Read(ok)) => MoveKeeps(w, t, if ok then Visiting(now, InOrder(w.rows)) else Ended(false));
    case (Visiting(now, rest), Visit(requestOk, fate)) => VisitKeeps(w, t, now, rest, requestOk, fate);
    case (Starting(id), StartOperation) => if w.active.Some? { RefusedKeeps(w, t, id); } else { StartKeeps(w, t, id); }
    case (Recording(id, operation), Record(fate)) =>
      assert Owns(w, t, id);
      SettleKeeps(w, t, id, After(fate, w.slots, DispatchRow(w.slots, id, operation)), fate.Works?);
    case (Releasing(id), Release(fate)) =>
      assert Owns(w, t, id);
      SettleKeeps(w, t, id, After(fate, w.slots, ReleaseRow(w.slots, id)), fate.Works?);
  }

  lemma BeginKeeps(w: World, now: int)
    requires Inv(w)
    ensures Inv(Next(w, Begin(now)).value)
  {
    var w' := Next(w, Begin(now)).value;
    assert forall u, x :: Owns(w', u, x) <==> Owns(w, u, x) && u != w.nextTick;
    assert !TickStarted(w.starts, w.nextTick);
    assert forall u :: u in w'.ticks && u != w.nextTick ==> w'.ticks[u] == w.ticks[u];
  }

  /** Every step of every party keeps the invariant. */
  lemma StepKeeps(w: World, s: Step)
    requires Inv(w) && Next(w, s).Some?
    ensures Inv(Next(w, s).value)
  {
    var w' := Next(w, s).value;
    match s
    case Begin(now) => BeginKeeps(w, now);
    case Act(t, action) => ActKeeps(w, t, action);
    case Open(_, _) => assert forall u, x :: !Owns(w', u, x);
    case Crash => assert forall u, x :: !Owns(w', u, x);
    case _ => assert forall u, x :: Owns(w', u, x) <==> Owns(w, u, x);
  }

  lemma {:induction false} BehaviourKeeps(w: World, steps: seq<Step>)
    requires Inv(w) && Behave(w, steps).Some?
    ensures Inv(Behave(w, steps).value)
    decreases |steps|
  {
    if steps != [] {
      StepKeeps(w, steps[0]);
      BehaviourKeeps(Next(w, steps[0]).value, steps[1..]);
    }
  }

  /**
   The scheduler's promise: over every run, from every store, each kind is started at most once a
   day, no tick starts more than one operation, and never are two operations running at once.
   */
  lemma StartedAtMostOnce(w: World, steps: seq<Step>)
    requires Init(w) && Behave(w, steps).Some?
    ensures var after := Behave(w, steps).value;
      StartsOnce(after.starts) && |after.running| <= 1
  {
    InitHolds(w);
    BehaviourKeeps(w, steps);
  }

  // ---------- which days are lost, and which are not ----------

  /** A taken slot nobody is working on. */
  ghost predicate Settled(w: World, id: SlotId) {
    id in w.slots && forall t :: !Owns(w, t, id)
  }

  lemma SettledStep(w: World, s: Step, id: SlotId)
    requires Inv(w) && Settled(w, id) && Next(w, s).Some?
    ensures Settled(Next(w, s).value, id)
    ensures w.starts <= Next(w, s).value.starts
    ensures SlotStarted(Next(w, s).value.starts, id) ==> SlotStarted(w.starts, id)
  {
    var w' := Next(w, s).value;
    if s.Act? {
      SettledAct(w, s.tick, s.action, id);
    } else {
      assert forall u :: Owns(w', u, id) ==> Owns(w, u, id);
    }
  }

  lemma SettledAct(w: World, t: TickId, action: Action, id: SlotId)
    requires Inv(w) && Settled(w, id) && Next(w, Act(t, action)).Some?
    ensures var w' := Next(w, Act(t, action)).value;
      Settled(w', id) && w.starts <= w'.starts && (SlotStarted(w'.starts, id) ==> SlotStarted(w.starts, id))
  {
    hide InOrder, SlotOf, StartsOnce, OneRuns;
    var w' := Next(w, Act(t, action)).value;
    assert !Owns(w, t, id);
    assert forall u :: u != t ==> (Owns(w', u, id) <==> Owns(w, u, id));
    if w.ticks[t].Starting? && w.active.None? {
      var s := w'.starts[|w.starts|];
      assert w'.starts == w.starts + [s] && s.slot == w.ticks[t].slot;
    }
  }

  /** A settled slot stays settled for good: its day is never started again, crash or no crash. */
  lemma {:induction false} SettledForGood(w: World, steps: seq<Step>, id: SlotId)
    requires Inv(w) && Settled(w, id) && Behave(w, steps).Some?
    ensures Settled(Behave(w, steps).value, id)
    ensures SlotStarted(Behave(w, steps).value.starts, id) ==> SlotStarted(w.starts, id)
    decreases |steps|
  {
    if steps != [] {
      SettledStep(w, steps[0], id);
      StepKeeps(w, steps[0]);
      SettledForGood(Next(w, steps[0]).value, steps[1..], id);
    }
  }

  /** After a crash every taken slot is settled: an uncertain dispatch is never retried. */
  lemma CrashSettles(w: World, id: SlotId)
    ensures Settled(Next(w, Crash).value, id) <==> id in w.slots
  {
  }

  /**
   A failed start leaves the day claimable exactly when the release took effect; a release that
   failed before it did settles the day for good, although nothing was started.
   */
  lemma FailedStartReleases(w: World, t: TickId, id: SlotId, fate: Fate)
    requires Inv(w) && t in w.ticks && w.ticks[t] == Releasing(id)
    ensures Next(w, Act(t, Release(fate))).Some?
    ensures var after := Next(w, Act(t, Release(fate))).value;
      && (id !in after.slots <==> !fate.FailsBefore?)
      && (Settled(after, id) <==> fate.FailsBefore?)
      && !SlotStarted(after.starts, id)
  {
    assert Owns(w, t, id);
    var after := Next(w, Act(t, Release(fate))).value;
    assert forall u :: Owns(after, u, id) ==> u != t && Owns(w, u, id);
  }

  // ---------- a quiet tick ----------

  /** The first due slot, in schedule order, that nobody took yet. */
  function FirstDue(schedules: seq<Schedule>, slots: Slots, now: int): Option<SlotId> {
    if schedules == [] then None
    else
      match SlotOf(schedules[0], now)
      case None => FirstDue(schedules[1..], slots, now)
      case Some(day) =>
        var id := SlotId(schedules[0].kind, day);
        if id in slots then FirstDue(schedules[1..], slots, now) else Some(id)
  }

  /** The visits of a tick nobody disturbs. */
  function QuietVisits(t: TickId, schedules: seq<Schedule>, slots: Slots, now: int): seq<Step> {
    if schedules == [] then [Act(t, Visit(true, Works))]
    else if SlotOf(schedules[0], now).Some? && SlotId(schedules[0].kind, SlotOf(schedules[0], now).value) !in slots then
      [Act(t, Visit(true, Works))]
    else [Act(t, Visit(true, Works))] + QuietVisits(t, schedules[1..], slots, now)
  }

  lemma BehaveCons(w: World, s: Step, rest: seq<Step>)
    ensures Behave(w, [s] + rest) == match Next(w, s) case None => None case Some(w') => Behave(w', rest)
  {
    assert ([s] + rest)[1..] == rest;
  }

  lemma {:induction false} BehaveConcat(w: World, a: seq<Step>, b: seq<Step>)
    requires Behave(w, a).Some?
    ensures Behave(w, a + b) == Behave(Behave(w, a).value, b)
    decreases |a|
  {
    if a == [] {
      assert a + b == b;
    } else {
      BehaveConcat(Next(w, a[0]).value, a[1..], b);
      assert a + b == [a[0]] + (a[1..] + b);
      BehaveCons(w, a[0], a[1..] + b);
    }
  }

  lemma {:induction false} QuietVisiting(w: World, t: TickId, now: int, schedules: seq<Schedule>)
    requires t in w.ticks && w.ticks[t] == Visiting(now, schedules)
    ensures Behave(w, QuietVisits(t, schedules, w.slots, now)) == Some(
      match FirstDue(schedules, w.slots, now)
      case None => Goes(w, t, Ended(true))
      case Some(id) => Goes(w.(slots := w.slots[id := Claimed]), t, Starting(id)))
    decreases |schedules|
  {
    var w' := VisitStep(w, t, now, schedules, true, Works);
    if schedules == [] || w'.ticks[t].Starting? {
      BehaveCons(w, Act(t, Visit(true, Works)), []);
    } else {
      QuietVisiting(w', t, now, schedules[1..]);
      BehaveCons(w, Act(t, Visit(true, Works)), QuietVisits(t, schedules[1..], w.slots, now));
      assert w'.slots == w.slots;
      assert w'.ticks[t := Ended(true)] == w.ticks[t := Ended(true)];
      assert forall id :: w'.ticks[t := Starting(id)] == w.ticks[t := Starting(id)];
    }
  }

  /** The steps of a tick nobody disturbs, from the check to the record of what it started. */
  function QuietTick(w: World, now: int): seq<Step> {
    var t := w.nextTick;
    [Begin(now)] + ([Act(t, Check)] + ([Act(t, Read(true))] + (QuietVisits(t, InOrder(w.rows), w.slots, now) + QuietStart(t, w, now))))
  }

  function QuietStart(t: TickId, w: World, now: int): seq<Step> {
    if FirstDue(InOrder(w.rows), w.slots, now).None? then [] else [Act(t, StartOperation)] + ([Act(t, Record(Works))] + [])
  }

  /** What such a tick leaves: the first due free slot dispatched, or nothing changed. */
  function QuietResult(w: World, now: int): World {
    var t, operation := w.nextTick, w.nextOperation;
    match FirstDue(InOrder(w.rows), w.slots, now)
    case None => Goes(w, t, Ended(true)).(nextTick := t + 1)
    case Some(id) =>
      Goes(w.(slots := w.slots[id := Dispatched(operation)], active := Some(operation), nextOperation := operation + 1,
              running := w.running + {operation}, starts := w.starts + [Started(t, id, operation)], nextTick := t + 1),
           t, Ended(true))
  }

  lemma QuietStarting(w: World, t: TickId, id: SlotId)
    requires t in w.ticks && w.ticks[t] == Starting(id) && id in w.slots && w.active.None?
    ensures Behave(w, [Act(t, StartOperation)] + ([Act(t, Record(Works))] + [])) ==
      Some(Goes(StartStep(w, t, id).(slots := w.slots[id := Dispatched(w.nextOperation)]), t, Ended(true)))
  {
    hide Behave, StartStep, Next;
    var w' := StartStep(w, t, id);
    Starts(w, t, id);
    BehaveCons(w, Act(t, StartOperation), [Act(t, Record(Works))] + []);
    Records(w', t, id, w.nextOperation);
    BehaveCons(w', Act(t, Record(Works)), []);
    BehaveNothing(Goes(w'.(slots := w'.slots[id := Dispatched(w.nextOperation)]), t, Ended(true)));
  }

  lemma Starts(w: World, t: TickId, id: SlotId)
    ensures t in w.ticks && w.ticks[t] == Starting(id) && w.active.None? ==>
      var w' := StartStep(w, t, id);
      && Next(w, Act(t, StartOperation)) == Some(w') && w'.slots == w.slots
      && t in w'.ticks && w'.ticks[t] == Recording(id, w.nextOperation)
  {
  }

  lemma Records(w: World, t: TickId, id: SlotId, operation: nat)
    ensures t in w.ticks && w.ticks[t] == Recording(id, operation) && id in w.slots ==>
      Next(w, Act(t, Record(Works))) == Some(Goes(w.(slots := w.slots[id := Dispatched(operation)]), t, Ended(true)))
  {
  }

  lemma BehaveNothing(w: World)
    ensures Behave(w, []) == Some(w)
  {
  }

  /** A tick that meets no failure and no company starts the first due slot nobody took yet. */
  lemma QuietTickStartsFirstDue(w: World, now: int)
    requires w.active.None?
    ensures Behave(w, QuietTick(w, now)) == Some(QuietResult(w, now))
  {
    hide Behave, QuietVisits, QuietStart, FirstDue, QuietResult, InOrder, VisitStep, StartStep;
    var t, schedules := w.nextTick, InOrder(w.rows);
    var visits, rest := QuietVisits(t, schedules, w.slots, now), QuietStart(t, w, now);
    var begun := Next(w, Begin(now)).value;
    var checked := Goes(begun, t, Reading(now));
    var read := Goes(checked, t, Visiting(now, schedules));
    BehaveCons(w, Begin(now), [Act(t, Check)] + ([Act(t, Read(true))] + (visits + rest)));
    BehaveCons(begun, Act(t, Check), [Act(t, Read(true))] + (visits + rest));
    BehaveCons(checked, Act(t, Read(true)), visits + rest);
    QuietVisiting(read, t, now, schedules);
    BehaveConcat(read, visits, rest);
    QuietFinish(w, read, now);
  }

  lemma QuietFinish(w: World, read: World, now: int)
    requires w.active.None?
    requires read == Goes(w, w.nextTick, Visiting(now, InOrder(w.rows))).(nextTick := w.nextTick + 1)
    ensures var visited := match FirstDue(InOrder(w.rows), w.slots, now)
        case None => Goes(read, w.nextTick, Ended(true))
        case Some(id) => Goes(read.(slots := read.slots[id := Claimed]), w.nextTick, Starting(id));
      Behave(visited, QuietStart(w.nextTick, w, now)) == Some(QuietResult(w, now))
  {
    hide FirstDue, InOrder, Next;
    var t := w.nextTick;
    match FirstDue(InOrder(w.rows), w.slots, now)
    case None => assert read.ticks[t := Ended(true)] == w.ticks[t := Ended(true)];
    case Some(id) =>
      var visited := Goes(read.(slots := read.slots[id := Claimed]), t, Starting(id));
      QuietStarting(visited, t, id);
      assert visited.slots[id := Dispatched(w.nextOperation)] == w.slots[id := Dispatched(w.nextOperation)];
      assert StartStep(visited, t, id).ticks[t := Ended(true)] == w.ticks[t := Ended(true)];
  }
}
