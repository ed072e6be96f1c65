/**
 How ticks end that something disturbs, and what opening the store does (`service.rs`): an active
 operation, schedules that cannot be read, a request that cannot be built, a claim that fails, a slot
 that is taken, a start that is refused and one that cannot be recorded.
 */
module SchedulerOutcomes {
  import opened Wrappers
  import opened Schedules
  import opened Scheduler

  // ---------- which slot a tick takes ----------

  /** The schedule's slot is open now and nobody has taken it. */
  ghost predicate DueAndFree(s: Schedule, slots: Slots, now: int) {
    SlotOf(s, now).Some? && SlotId(s.kind, SlotOf(s, now).value) !in slots
  }

  /** The slot a quiet tick starts is the first, in schedule order, that is due and free; it starts none exactly if there is none. */
  lemma {:induction false} FirstDueExact(schedules: seq<Schedule>, slots: Slots, now: int)
    ensures FirstDue(schedules, slots, now).None? <==> forall s :: s in schedules ==> !DueAndFree(s, slots, now)
    ensures FirstDue(schedules, slots, now).Some? ==> exists k ::
      && 0 <= k < |schedules| && DueAndFree(schedules[k], slots, now)
      && FirstDue(schedules, slots, now).value == SlotId(schedules[k].kind, SlotOf(schedules[k], now).value)
      && forall j :: 0 <= j < k ==> !DueAndFree(schedules[j], slots, now)
  {
    hide SlotOf;
    if schedules != [] {
      assert schedules == [schedules[0]] + schedules[1..];
      if DueAndFree(schedules[0], slots, now) {
        assert schedules[0] in schedules;
      } else {
        FirstDueExact(schedules[1..], slots, now);
        if FirstDue(schedules[1..], slots, now).Some? {
          var k :| 0 <= k < |schedules[1..]| && DueAndFree(schedules[1..][k], slots, now)
            && FirstDue(schedules[1..], slots, now).value == SlotId(schedules[1..][k].kind, SlotOf(schedules[1..][k], now).value)
            && forall j :: 0 <= j < k ==> !DueAndFree(schedules[1..][j], slots, now);
          LaterInstead(schedules, slots, now, k);
        }
      }
    }
  }

  lemma LaterInstead(schedules: seq<Schedule>, slots: Slots, now: int, k: nat)
    requires k + 1 < |schedules| && !DueAndFree(schedules[0], slots, now)
    requires forall j :: 0 <= j < k ==> !DueAndFree(schedules[1..][j], slots, now)
    ensures forall j :: 0 <= j < k + 1 ==> !DueAndFree(schedules[j], slots, now)
    ensures schedules[k + 1] == schedules[1..][k]
  {
    forall j | 0 <= j < k + 1 ensures !DueAndFree(schedules[j], slots, now) {
      if j > 0 {
        assert schedules[1..][j - 1] == schedules[j];
      }
    }
  }

  // ---------- ticks that end early ----------

  /** The tick ended; apart from that the world is `w`. */
  ghost predicate EndsWith(w: World, after: Option<World>, t: TickId, ok: bool) {
    after == Some(w.(ticks := w.ticks[t := Ended(ok)]))
  }

  lemma Two(w: World, a: Step, b: Step)
    ensures Behave(w, [a, b]) == match Next(w, a) case None => None case Some(w1) => Next(w1, b)
  {
    hide Next;
    BehaveCons(w, a, [b]);
    assert [a] + [b] == [a, b];
    if Next(w, a).Some? {
      One(Next(w, a).value, b);
    }
  }

  lemma One(w: World, a: Step)
    ensures Behave(w, [a]) == Next(w, a)
  {
    hide Next;
    BehaveCons(w, a, []);
    assert [a] + [] == [a];
  }

  lemma GoesTwice(w: World, t: TickId, p: Phase, q: Phase)
    ensures Goes(Goes(w, t, p), t, q) == Goes(w, t, q)
  {
    assert w.ticks[t := p][t := q] == w.ticks[t := q];
  }

  /** While an operation runs a tick does nothing, and reports no error. */
  lemma BusyTickDoesNothing(w: World, now: int)
    requires w.active.Some?
    ensures EndsWith(w.(nextTick := w.nextTick + 1), Behave(w, [Begin(now), Act(w.nextTick, Check)]), w.nextTick, true)
  {
    hide Behave, Next;
    var t, begun := w.nextTick, w.(nextTick := w.nextTick + 1);
    Two(w, Begin(now), Act(t, Check));
    Begins(w, now);
    Checks(begun, t, now);
    GoesTwice(begun, t, Checking(now), Ended(true));
  }

  lemma Begins(w: World, now: int)
    ensures Next(w, Begin(now)) == Some(Goes(w.(nextTick := w.nextTick + 1), w.nextTick, Checking(now)))
  {
  }

  lemma Checks(w: World, t: TickId, now: int)
    ensures Next(Goes(w, t, Checking(now)), Act(t, Check)) ==
      Some(Goes(Goes(w, t, Checking(now)), t, if w.active.Some? then Ended(true) else Reading(now)))
  {
  }

  /** A tick that cannot read the schedules fails and changes nothing. */
  lemma UnreadableSchedulesFail(w: World, t: TickId, now: int)
    requires t in w.ticks && w.ticks[t] == Reading(now)
    ensures EndsWith(w, Behave(w, [Act(t, Read(false))]), t, false)
  {
    hide Behave;
    One(w, Act(t, Read(false)));
  }

  /** The tick stands before a schedule whose slot is open. */
  ghost predicate AtDue(w: World, t: TickId, now: int, rest: seq<Schedule>) {
    t in w.ticks && w.ticks[t] == Visiting(now, rest) && rest != [] && SlotOf(rest[0], now).Some?
  }

  /** A request that cannot be built fails the tick before anything is claimed; a publish needs no building. */
  lemma FailedRequestClaimsNothing(w: World, t: TickId, now: int, rest: seq<Schedule>, fate: Fate)
    requires AtDue(w, t, now, rest)
    ensures rest[0].kind != "publish" ==> EndsWith(w, Behave(w, [Act(t, Visit(false, fate))]), t, false)
    ensures rest[0].kind == "publish" ==> Behave(w, [Act(t, Visit(false, fate))]) == Behave(w, [Act(t, Visit(true, fate))])
  {
    hide SlotOf, Behave;
    One(w, Act(t, Visit(false, fate)));
    One(w, Act(t, Visit(true, fate)));
  }

  /** A claim that fails fails the tick; the slot is then taken or not, as the statement took effect or not, and nothing is started. */
  lemma FailedClaimEndsTick(w: World, t: TickId, now: int, rest: seq<Schedule>, fate: Fate)
    requires AtDue(w, t, now, rest) && !fate.Works?
    ensures var id := SlotId(rest[0].kind, SlotOf(rest[0], now).value);
      EndsWith(w.(slots := if fate.FailsBefore? || id in w.slots then w.slots else w.slots[id := Claimed]),
               Behave(w, [Act(t, Visit(true, fate))]), t, false)
  {
    hide SlotOf, Behave;
    One(w, Act(t, Visit(true, fate)));
  }

  /** A slot somebody has taken, or one that is not due, is passed over and left as it is. */
  lemma TakenSlotIsPassed(w: World, t: TickId, now: int, rest: seq<Schedule>)
    requires t in w.ticks && w.ticks[t] == Visiting(now, rest) && rest != [] && !DueAndFree(rest[0], w.slots, now)
    ensures Behave(w, [Act(t, Visit(true, Works))]) == Some(w.(ticks := w.ticks[t := Visiting(now, rest[1..])]))
  {
    hide SlotOf, Behave;
    One(w, Act(t, Visit(true, Works)));
  }

  lemma Refuses(w: World, t: TickId, id: SlotId)
    requires t in w.ticks && w.ticks[t] == Starting(id) && w.active.Some?
    ensures Next(w, Act(t, StartOperation)) == Some(Goes(w, t, Releasing(id)))
  {
  }

  lemma Releases(w: World, t: TickId, id: SlotId, fate: Fate)
    requires id in w.slots && w.slots[id] == Claimed
    ensures Next(Goes(w, t, Releasing(id)), Act(t, Release(fate))) ==
      Some(Goes(Goes(w.(slots := if fate.FailsBefore? then w.slots else w.slots - {id}), t, Releasing(id)), t, Ended(fate.Works?)))
  {
  }

  /**
   A start the supervisor refuses gives the claim back: the slot is free again exactly if the
   release took effect, no operation was started, and the tick fails only if the store call did.
   */
  lemma RefusedStartGivesBack(w: World, t: TickId, id: SlotId, fate: Fate)
    requires t in w.ticks && w.ticks[t] == Starting(id) && w.active.Some? && id in w.slots && w.slots[id] == Claimed
    ensures EndsWith(w.(slots := if fate.FailsBefore? then w.slots else w.slots - {id}),
                     Behave(w, [Act(t, StartOperation), Act(t, Release(fate))]), t, fate.Works?)
  {
    hide Behave, Next;
    Two(w, Act(t, StartOperation), Act(t, Release(fate)));
    Refuses(w, t, id);
    Releases(w, t, id, fate);
    GoesTwice(w.(slots := if fate.FailsBefore? then w.slots else w.slots - {id}), t, Releasing(id), Ended(fate.Works?));
  }

  /** The operation a tick has just started runs, and is on record as started. */
  ghost function Running(w: World, t: TickId, id: SlotId): World {
    w.(active := Some(w.nextOperation), nextOperation := w.nextOperation + 1, running := w.running + {w.nextOperation},
       starts := w.starts + [Started(t, id, w.nextOperation)])
  }

  lemma StartsNow(w: World, t: TickId, id: SlotId)
    requires t in w.ticks && w.ticks[t] == Starting(id) && w.active.None?
    ensures Next(w, Act(t, StartOperation)) == Some(Goes(Running(w, t, id), t, Recording(id, w.nextOperation)))
  {
  }

  lemma RecordsNow(w: World, t: TickId, id: SlotId, operation: nat, fate: Fate)
    requires id in w.slots
    ensures Next(Goes(w, t, Recording(id, operation)), Act(t, Record(fate))) ==
      Some(Goes(Goes(w.(slots := if fate.FailsBefore? then w.slots else w.slots[id := Dispatched(operation)]), t, Recording(id, operation)),
                t, Ended(fate.Works?)))
  {
  }

  /**
   A start that succeeds is never taken back: whatever becomes of the record, the operation runs and
   the slot stays taken, by the operation exactly if the record took effect.
   */
  lemma StartedSlotStaysTaken(w: World, t: TickId, id: SlotId, fate: Fate)
    requires t in w.ticks && w.ticks[t] == Starting(id) && w.active.None? && id in w.slots
    ensures EndsWith(Running(w, t, id).(slots := if fate.FailsBefore? then w.slots else w.slots[id := Dispatched(w.nextOperation)]),
                     Behave(w, [Act(t, StartOperation), Act(t, Record(fate))]), t, fate.Works?)
  {
    hide Behave, Next;
    var operation := w.nextOperation;
    Two(w, Act(t, StartOperation), Act(t, Record(fate)));
    StartsNow(w, t, id);
    RecordsNow(Running(w, t, id), t, id, operation, fate);
    GoesTwice(Running(w, t, id).(slots := if fate.FailsBefore? then w.slots else w.slots[id := Dispatched(operation)]),
              t, Recording(id, operation), Ended(fate.Works?));
  }

  // ---------- opening ----------

  function DefaultOf(kind: string, at: Option<string>, offset: int): Schedule {
    match at
    case Some(time) => Schedule(kind, time, true, offset)
    case None => Schedule(kind, "03:00", false, offset)
  }

  /**
   Opening interrupts exactly the claims nobody settled and leaves every other row; schedules that
   are stored stay as they are, and each missing one is added with its configured time, or disabled at 03:00.
   */
  lemma OpeningExact(w: World, config: Config)
    requires w.ticks == map[]
    ensures var after := Behave(w, [Open(config, 3)]);
      && after.Some? && after.value == w.(slots := after.value.slots, rows := after.value.rows)
      && after.value.slots.Keys == w.slots.Keys
      && (forall id :: id in w.slots ==> after.value.slots[id] == if w.slots[id] == Claimed then Interrupted else w.slots[id])
      && after.value.rows.Keys == w.rows.Keys + {"publish", "backup"}
      && (forall kind :: kind in w.rows ==> after.value.rows[kind] == w.rows[kind])
      && ("publish" !in w.rows ==> after.value.rows["publish"] == DefaultOf("publish", config.publishAt, config.offset))
      && ("backup" !in w.rows ==> after.value.rows["backup"] == DefaultOf("backup", config.backupAt, config.offset))
  {
    hide Behave;
    One(w, Open(config, 3));
  }
}
