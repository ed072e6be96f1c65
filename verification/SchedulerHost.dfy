/**
 `tick` itself and the store it works on (`service.rs`). Before every effect other parties may
 move, and every store call may fail; each effect is one step of the scheduler machine, so what
 the code does is always one of the machine's behaviours and inherits its theorems. A process
 that dies inside a tick leaves a prefix of such a behaviour, which is a behaviour as well.
 */
module SchedulerHost {
  import opened Wrappers
  import opened Text
  import opened Schedules
  import opened Scheduler

  /** The `slots` and `schedules` tables. The caller of each method is told the truth about them, or an error. */
  class ServiceStore {
    var slots: Slots
    var rows: Rows

    /** `ServiceStore::open` on a database that already holds these rows. */
    constructor (slots: Slots, rows: Rows, config: Config)
      ensures this.slots.Keys == slots.Keys
      ensures forall id :: id in slots ==> this.slots[id] == if slots[id].Claimed? then Interrupted else slots[id]
      ensures this.rows.Keys == rows.Keys + {"publish", "backup"} && forall kind :: kind in rows ==> this.rows[kind] == rows[kind]
      ensures "publish" !in rows ==>
        this.rows["publish"] == Schedule("publish", if config.publishAt.Some? then config.publishAt.value else "03:00", config.publishAt.Some?, config.offset)
      ensures "backup" !in rows ==>
        this.rows["backup"] == Schedule("backup", if config.backupAt.Some? then config.backupAt.value else "03:00", config.backupAt.Some?, config.offset)
    {
      this.slots := InterruptRows(slots);
      var withPublish := AddRow(rows, Default("publish", config.publishAt, config.offset));
      this.rows := AddRow(withPublish, Default("backup", config.backupAt, config.offset));
    }

    method Schedules(ok: bool) returns (r: Result<seq<Schedule>, string>)
      ensures r == if ok then Success(InOrder(rows)) else Failure("database")
    {
      hide LeastKey, OrderedKeys, RowsAt;
      if !ok {
        return Failure("database");
      }
      var schedules: seq<Schedule> := [];
      var rest := rows.Keys;
      assert schedules + InOrder(rows) == InOrder(rows);
      while rest != {}
        invariant rest <= rows.Keys
        invariant schedules + RowsAt(OrderedKeys(rest), rows) == InOrder(rows)
        decreases |rest|
      {
        var kind := LeastKey(rest);
        NextRow(rest, rows);
        Associate(schedules, [rows[kind]], RowsAt(OrderedKeys(rest - {kind}), rows));
        rest := rest - {kind};
        schedules := schedules + [rows[kind]];
      }
      NoRows(rows);
      assert schedules + [] == schedules;
      r := Success(schedules);
    }

    method SaveSchedule(s: Schedule) returns (r: Result<(), ScheduleError>)
      modifies this`rows
      ensures r == Validate(s)
      ensures rows == if r.Success? then old(rows)[s.kind := s] else old(rows)
    {
      r := Validate(s);
      if r.Success? {
        rows := rows[s.kind := s];
      }
    }

    method Claim(id: SlotId, fate: Fate) returns (r: Result<bool, string>)
      modifies this`slots
      ensures slots == After(fate, old(slots), ClaimRow(old(slots), id))
      ensures r == if fate.Works? then Success(id !in old(slots)) else Failure("database")
    {
      var added := id !in slots;
      if !fate.FailsBefore? && added {
        slots := slots[id := Claimed];
      }
      r := if fate.Works? then Success(added) else Failure("database");
    }

    method RecordDispatched(id: SlotId, operation: nat, fate: Fate) returns (r: Result<(), string>)
      modifies this`slots
      ensures slots == After(fate, old(slots), DispatchRow(old(slots), id, operation))
      ensures r.Success? <==> fate.Works?
    {
      if !fate.FailsBefore? && id in slots {
        slots := slots[id := Dispatched(operation)];
      }
      r := if fate.Works? then Success(()) else Failure("database");
    }

    method ReleaseClaim(id: SlotId, fate: Fate) returns (r: Result<(), string>)
      modifies this`slots
      ensures slots == After(fate, old(slots), ReleaseRow(old(slots), id))
      ensures r.Success? <==> fate.Works?
    {
      if !fate.FailsBefore? && id in slots && slots[id] == Claimed {
        slots := slots - {id};
      }
      r := if fate.Works? then Success(()) else Failure("database");
    }
  }

  /** `OperationSupervisor`, as far as one mutating operation at a time goes. */
  class Supervisor {
    var active: Option<nat>
    var nextOperation: nat
    var running: set<nat>

    constructor ()
      ensures active == None && nextOperation == 0 && running == {}
    {
      active, nextOperation, running := None, 0, {};
    }

    /** `start`: a new operation, or the identity of the one that holds the workspace. */
    method Start() returns (r: Result<nat, nat>)
      modifies this
      ensures old(active).Some? ==> r == Failure(old(active).value) && unchanged(this)
      ensures old(active).None? ==>
        && r == Success(old(nextOperation)) && active == Some(old(nextOperation))
        && nextOperation == old(nextOperation) + 1 && running == old(running) + {old(nextOperation)}
    {
      if active.Some? {
        return Failure(active.value);
      }
      r := Success(nextOperation);
      active, running, nextOperation := Some(nextOperation), running + {nextOperation}, nextOperation + 1;
    }
  }

  /** What happens around one effect of a tick. */
  datatype Turn = Turn(moves: seq<Step>, ok: bool, requestOk: bool, fate: Fate)

  predicate Within(script: seq<Turn>, whole: seq<Turn>) {
    forall t :: t in script ==> t in whole
  }

  /** A store call or a request fails somewhere. */
  predicate Disturbed(script: seq<Turn>) {
    exists t :: t in script && (!t.ok || !t.requestOk || !t.fate.Works?)
  }

  lemma DisturbedWithin(script: seq<Turn>, middle: seq<Turn>, whole: seq<Turn>)
    ensures Within(whole, whole)
    ensures Within(script, middle) && Within(middle, whole) ==> Within(script, whole)
    ensures Within(middle, whole) && Disturbed(middle) ==> Disturbed(whole)
  {
  }

  /** One process: its store, its supervisor, everybody else, and the record of every step taken. */
  class Host {
    const store: ServiceStore
    const supervisor: Supervisor
    var script: seq<Turn>
    ghost var ticks: map<TickId, Phase>
    ghost var nextTick: nat
    ghost var starts: seq<Started>
    ghost const start: World
    ghost var trace: seq<Step>

    ghost function Now(): World
      reads this, store, supervisor
    {
      World(store.slots, store.rows, supervisor.active, supervisor.nextOperation, supervisor.running, ticks, nextTick, starts)
    }

    /** Everything that happened is a behaviour of the machine. */
    ghost predicate Valid()
      reads this, store, supervisor
    {
      Behave(start, trace) == Some(Now())
    }

    constructor (store: ServiceStore, supervisor: Supervisor, script: seq<Turn>)
      ensures Valid() && this.store == store && this.supervisor == supervisor && this.script == script
      ensures ticks == map[] && starts == [] && trace == [] && start == Now()
    {
      this.store, this.supervisor, this.script := store, supervisor, script;
      ticks, nextTick, starts, trace := map[], 0, [], [];
      start := World(store.slots, store.rows, supervisor.active, supervisor.nextOperation, supervisor.running, map[], 0, []);
    }

    ghost predicate At(t: TickId, phase: Phase)
      reads this
    {
      t in ticks && ticks[t] == phase
    }

    /** Writes the step just taken into the record; its effects on store and supervisor are already there. */
    ghost method Note(s: Step, was: World)
      requires Behave(start, trace) == Some(was) && Next(was, s).Some?
      requires var w := Next(was, s).value;
        Now() == w.(ticks := ticks, nextTick := nextTick, starts := starts)
      modifies this`ticks, this`nextTick, this`starts, this`trace
      ensures Valid() && trace == old(trace) + [s] && Some(Now()) == Next(was, s)
    {
      var w := Next(was, s).value;
      BehaveConcat(start, trace, [s]);
      BehaveCons(was, s, []);
      assert [s] + [] == [s];
      ticks, nextTick, starts, trace := w.ticks, w.nextTick, w.starts, trace + [s];
    }

    /** A step of another party. */
    method Perform(s: Step)
      requires Valid() && !s.Begin? && !s.Act? && !s.Crash? && !s.Open? && Next(Now(), s).Some?
      modifies this`ticks, this`nextTick, this`starts, this`trace, store, supervisor
      ensures Valid() && trace == old(trace) + [s] && Some(Now()) == Next(old(Now()), s)
    {
      ghost var was := Now();
      match s {
        case Manual =>
          var started := supervisor.Start();
        case Finish =>
          supervisor.running := supervisor.running - {supervisor.active.value};
          supervisor.active := None;
        case Save(schedule) =>
          var saved := store.SaveSchedule(schedule);
      }
      Note(s, was);
    }

    /** The other parties move, as far as their moves are possible. */
    method Interfere() returns (turn: Turn)
      requires Valid()
      modifies this, store, supervisor
      ensures Valid() && old(trace) <= trace && ticks == old(ticks) && starts == old(starts) && nextTick == old(nextTick)
      ensures Within(script, old(script)) && (turn in old(script) || turn == Turn([], true, true, Works))
    {
      if script == [] {
        return Turn([], true, true, Works);
      }
      turn, script := script[0], script[1..];
      for i := 0 to |turn.moves|
        invariant Valid() && old(trace) <= trace && ticks == old(ticks) && starts == old(starts) && nextTick == old(nextTick)
        invariant script == old(script)[1..] && turn == old(script)[0]
      {
        var move := turn.moves[i];
        var possible := match move
                        case Manual => supervisor.active.None?
                        case Finish => supervisor.active.Some?
                        case Save(schedule) => Validate(schedule).Success?
                        case _ => false;
        if possible {
          Perform(move);
        }
      }
    }

    ghost method BeginTick(now: int) returns (t: TickId)
      requires Valid()
      modifies this`ticks, this`nextTick, this`starts, this`trace
      ensures Valid() && old(trace) <= trace && t == old(nextTick) && At(t, Checking(now)) && starts == old(starts)
    {
      t := nextTick;
      Note(Begin(now), Now());
    }

    method ActiveMutation(ghost t: TickId, ghost now: int) returns (active: Option<nat>)
      requires Valid() && At(t, Checking(now))
      modifies this, store, supervisor
      ensures Within(script, old(script))
      ensures Valid() && old(trace) <= trace && starts == old(starts)
      ensures At(t, if active.Some? then Ended(true) else Reading(now))
    {
      var turn := Interfere();
      active := supervisor.active;
      Note(Act(t, Check), Now());
    }

    method ReadSchedules(ghost t: TickId, ghost now: int) returns (r: Result<seq<Schedule>, string>)
      requires Valid() && At(t, Reading(now))
      modifies this, store, supervisor
      ensures Within(script, old(script)) && (r.Failure? ==> Disturbed(old(script)))
      ensures Valid() && old(trace) <= trace && starts == old(starts)
      ensures At(t, match r case Success(schedules) => Visiting(now, schedules) case Failure(_) => Ended(false))
    {
      var turn := Interfere();
      r := store.Schedules(turn.ok);
      Note(Act(t, Read(turn.ok)), Now());
    }

    /** A schedule whose time has not come, or the end of the loop. */
    ghost method Pass(t: TickId, now: int, rest: seq<Schedule>)
      requires Valid() && At(t, Visiting(now, rest)) && (rest == [] || SlotOf(rest[0], now).None?)
      modifies this`ticks, this`nextTick, this`starts, this`trace
      ensures Valid() && old(trace) <= trace && starts == old(starts)
      ensures At(t, if rest == [] then Ended(true) else Visiting(now, rest[1..]))
    {
      Note(Act(t, Visit(true, Works)), Now());
    }

    /** Building the request; only a backup's can fail. */
    method BuildRequest(ghost t: TickId, ghost now: int, ghost rest: seq<Schedule>, kind: string) returns (r: Result<(), string>)
      requires Valid() && At(t, Visiting(now, rest)) && rest != [] && SlotOf(rest[0], now).Some? && kind == rest[0].kind
      modifies this, store, supervisor
      ensures Within(script, old(script)) && (r.Failure? ==> Disturbed(old(script)))
      ensures Valid() && old(trace) <= trace && starts == old(starts)
      ensures At(t, if r.Success? then Visiting(now, rest) else Ended(false))
    {
      var turn := Interfere();
      if kind != "publish" && !turn.requestOk {
        Note(Act(t, Visit(false, turn.fate)), Now());
        return Failure("request");
      }
      r := Success(());
    }

    method Claim(ghost t: TickId, ghost now: int, ghost rest: seq<Schedule>, id: SlotId) returns (r: Result<bool, string>)
      requires Valid() && At(t, Visiting(now, rest)) && rest != []
      requires SlotOf(rest[0], now) == Some(id.day) && id.kind == rest[0].kind
      modifies this, store, supervisor
      ensures Within(script, old(script)) && (r.Failure? ==> Disturbed(old(script)))
      ensures Valid() && old(trace) <= trace && starts == old(starts)
      ensures At(t, match r
                    case Failure(_) => Ended(false)
                    case Success(claimed) => if claimed then Starting(id) else Visiting(now, rest[1..]))
    {
      var turn := Interfere();
      ghost var was := Now();
      r := store.Claim(id, turn.fate);
      Note(Act(t, Visit(true, turn.fate)), was);
    }

    method StartRequest(ghost t: TickId, ghost id: SlotId) returns (r: Result<nat, nat>)
      requires Valid() && At(t, Starting(id))
      modifies this, store, supervisor
      ensures Within(script, old(script))
      ensures Valid() && old(trace) <= trace
      ensures At(t, match r case Success(operation) => Recording(id, operation) case Failure(_) => Releasing(id))
      ensures starts == match r case Success(operation) => old(starts) + [Started(t, id, operation)] case Failure(_) => old(starts)
    {
      var turn := Interfere();
      ghost var was := Now();
      r := supervisor.Start();
      Note(Act(t, StartOperation), was);
    }

    method RecordDispatched(ghost t: TickId, id: SlotId, operation: nat) returns (r: Result<(), string>)
      requires Valid() && At(t, Recording(id, operation))
      modifies this, store, supervisor
      ensures Within(script, old(script)) && (r.Failure? ==> Disturbed(old(script)))
      ensures Valid() && old(trace) <= trace && starts == old(starts)
      ensures At(t, Ended(r.Success?))
    {
      var turn := Interfere();
      ghost var was := Now();
      r := store.RecordDispatched(id, operation, turn.fate);
      Note(Act(t, Record(turn.fate)), was);
    }

    method ReleaseClaim(ghost t: TickId, id: SlotId) returns (r: Result<(), string>)
      requires Valid() && At(t, Releasing(id))
      modifies this, store, supervisor
      ensures Within(script, old(script)) && (r.Failure? ==> Disturbed(old(script)))
      ensures Valid() && old(trace) <= trace && starts == old(starts)
      ensures At(t, Ended(r.Success?))
    {
      var turn := Interfere();
      ghost var was := Now();
      r := store.ReleaseClaim(id, turn.fate);
      Note(Act(t, Release(turn.fate)), was);
    }
  }

  /** The end of a tick that claimed a slot: the operation starts and is recorded, or the claim is given back. */
  method StartClaimed(host: Host, ghost t: TickId, id: SlotId) returns (r: Result<(), string>)
    requires host.Valid() && host.At(t, Starting(id))
    modifies host, host.store, host.supervisor
    ensures host.Valid() && old(host.trace) <= host.trace
    ensures host.At(t, Ended(r.Success?))
    ensures old(host.starts) <= host.starts && |host.starts| <= |old(host.starts)| + 1
    ensures Within(host.script, old(host.script)) && (r.Failure? ==> Disturbed(old(host.script)))
  {
    hide *;
    ghost var turns := host.script;
    var started := host.StartRequest(t, id);
    ghost var before := host.script;
    match started {
      case Success(operation) => r := host.RecordDispatched(t, id, operation);
      case Failure(_) => r := host.ReleaseClaim(t, id);
    }
    DisturbedWithin(host.script, before, turns);
  }

  /**
   `tick`: whatever the store answers and whoever interferes, the call performs only steps of the
   machine, ends where its result says, starts at most one operation, and fails only when some
   store call or request did.
   */
  method Tick(host: Host, now: int) returns (r: Result<(), string>)
    requires host.Valid()
    modifies host, host.store, host.supervisor
    ensures host.Valid() && old(host.trace) <= host.trace
    ensures host.At(old(host.nextTick), Ended(r.Success?))
    ensures old(host.starts) <= host.starts && |host.starts| <= |old(host.starts)| + 1
    ensures Within(host.script, old(host.script)) && (r.Failure? ==> Disturbed(old(host.script)))
  {
    hide *;
    ghost var t := host.BeginTick(now);
    ghost var turns := host.script;
    var active := host.ActiveMutation(t, now);
    DisturbedWithin(host.script, host.script, turns);
    if active.Some? {
      return Success(());
    }
    ghost var before := host.script;
    var schedules := host.ReadSchedules(t, now);
    DisturbedWithin(host.script, before, turns);
    if schedules.Failure? {
      return Failure(schedules.error);
    }
    ghost var all := schedules.value;
    assert all[0..] == all;
    for i := 0 to |schedules.value|
      invariant host.Valid() && old(host.trace) <= host.trace && host.starts == old(host.starts)
      invariant host.At(t, Visiting(now, all[i..])) && Within(host.script, turns)
    {
      var s := schedules.value[i];
      assert all[i..][0] == s && all[i..][1..] == all[i + 1..];
      var slot := SlotOf(s, now);
      if slot.None? {
        host.Pass(t, now, all[i..]);
        continue;
      }
      before := host.script;
      var request := host.BuildRequest(t, now, all[i..], s.kind);
      DisturbedWithin(host.script, before, turns);
      if request.Failure? {
        return Failure(request.error);
      }
      var id := SlotId(s.kind, slot.value);
      before := host.script;
      var claimed := host.Claim(t, now, all[i..], id);
      DisturbedWithin(host.script, before, turns);
      if claimed.Failure? {
        return Failure(claimed.error);
      }
      if !claimed.value {
        continue;
      }
      before := host.script;
      r := StartClaimed(host, t, id);
      DisturbedWithin(host.script, before, turns);
      return;
    }
    host.Pass(t, now, all[|all|..]);
    r := Success(());
  }

  /**
   The promise about the code: open any database, run `tick` as often as anybody likes at any
   times, under any interference. Every kind is then started at most once a day, and no two
   operations ran at once.
   */
  method RunTicks(slots: Slots, rows: Rows, config: Config, script: seq<Turn>, times: seq<int>)
    returns (ghost starts: seq<Started>, store: ServiceStore, supervisor: Supervisor)
    ensures StartsOnce(starts) && |supervisor.running| <= 1
    ensures forall i :: 0 <= i < |starts| ==> starts[i].slot !in slots && starts[i].slot in store.slots
  {
    store := new ServiceStore(slots, rows, config);
    supervisor := new Supervisor();
    var host := new Host(store, supervisor, script);
    InitHolds(host.Now());
    ghost var first := host.Now();
    for i := 0 to |times|
      invariant host.Valid() && host.start == first
      invariant host.store == store && host.supervisor == supervisor && fresh(host) && fresh(store) && fresh(supervisor)
    {
      var ticked := Tick(host, times[i]);
    }
    BehaviourKeeps(first, host.trace);
    starts := host.starts;
    forall i | 0 <= i < |starts| ensures starts[i].slot !in slots {
      var id := starts[i].slot;
      assert SlotStarted(starts, id);
      if id in slots {
        assert Settled(first, id);
        SettledForGood(first, host.trace, id);
      }
    }
  }
}
