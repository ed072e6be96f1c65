/** Undisturbed backup runs. */
module BackupLanding {
  import opened Wrappers
  import opened Text
  import opened LfsPointers
  import opened BackupProtocol

  // What a run does that nobody disturbs, and why each hypothesis of the safety theorem is needed.

  // ---------- a run nobody disturbs ----------

  function Uploads(e: ExecId, n: nat): seq<Step> {
    if n == 0 then [] else [Act(e, Upload(Uploaded, true))] + Uploads(e, n - 1)
  }

  /** From the plan to the swap, under two answers of the endpoint. */
  function Landing(e: ExecId, first: LfsPlan, second: LfsPlan): seq<Step> {
    [Act(e, Ask(first))] + (Uploads(e, |first.missing|) + ([Act(e, Ask(second))] + ([Act(e, Swap(true, Updated))] + [])))
  }

  /** From the first observation to the swap. */
  function QuietRun(e: ExecId, id: RunId, first: LfsPlan, second: LfsPlan): seq<Step> {
    [Start(e, id)] + ([Act(e, Observe)] + ([Act(e, Inspect)] + Landing(e, first, second)))
  }

  function Members(objects: seq<RequiredLfsObject>): set<RequiredLfsObject> {
    set o | o in objects
  }

  function Delivered(w: World, plan: LfsPlan): World {
    w.(held := w.held + Members(plan.missing))
  }

  /** What such a run leaves: the missing objects delivered, the ref moved, the outcome reported. */
  function QuietResult(w: World, e: ExecId, run: Run, first: LfsPlan): World {
    var delivered := Delivered(w, first);
    Goto(WriteRef(delivered, run.target, run.desired).(swaps := w.swaps + [Landed(run, run.base, run.desired)]),
         e, run, Finished(Success(BackedUp(run.desired, first.missing, |first.present|))))
  }

  /** A run that can start here: its ref stands at its base, and its commit exists as frozen. */
  ghost predicate Ready(runs: map<RunId, Run>, w: World, e: ExecId, id: RunId) {
    && id in runs && e !in w.execs
    && Observed(w, runs[id]) == Some(runs[id].base) && runs[id].base != runs[id].desired
    && Confirmed(w, runs[id])
  }

  lemma GotoTwice(w: World, e: ExecId, run: Run, p: Phase, q: Phase)
    ensures Goto(Goto(w, e, run, p), e, run, q) == Goto(w, e, run, q)
  {
    assert w.execs[e := Exec(run, p)][e := Exec(run, q)] == w.execs[e := Exec(run, q)];
  }

  lemma ToPlanning(runs: map<RunId, Run>, w: World, e: ExecId, run: Run)
    requires Observed(w, run) == Some(run.base) && run.base != run.desired && Confirmed(w, run)
    ensures Next(runs, Goto(w, e, run, Observing), Act(e, Observe)) == Some(Goto(w, e, run, Inspecting))
    ensures Next(runs, Goto(w, e, run, Inspecting), Act(e, Inspect)) == Some(Goto(w, e, run, Planning))
  {
    GotoTwice(w, e, run, Observing, Inspecting);
    GotoTwice(w, e, run, Inspecting, Planning);
  }

  lemma Asking(runs: map<RunId, Run>, w: World, e: ExecId, run: Run, first: LfsPlan, second: LfsPlan)
    requires second.IsComplete()
    ensures Next(runs, Goto(w, e, run, Planning), Act(e, Ask(first))) == Some(Goto(w, e, run, NextUpload(first, 0)))
    ensures Next(runs, Goto(w, e, run, Gating(first)), Act(e, Ask(second))) == Some(Goto(w, e, run, Swapping(first)))
  {
    GotoTwice(w, e, run, Planning, NextUpload(first, 0));
    GotoTwice(w, e, run, Gating(first), Swapping(first));
  }

  lemma UploadOne(runs: map<RunId, Run>, w: World, e: ExecId, run: Run, plan: LfsPlan, i: nat)
    requires i < |plan.missing|
    ensures Next(runs, Goto(w, e, run, NextUpload(plan, i)), Act(e, Upload(Uploaded, true)))
         == Some(Goto(w.(held := w.held + {plan.missing[i]}), e, run, NextUpload(plan, i + 1)))
  {
    GotoTwice(w.(held := w.held + {plan.missing[i]}), e, run, NextUpload(plan, i), NextUpload(plan, i + 1));
  }

  lemma FirstMember(objects: seq<RequiredLfsObject>)
    requires objects != []
    ensures Members(objects) == {objects[0]} + Members(objects[1..])
  {
    HeadAndTail(objects);
  }

  /** Uploading `k` of the missing objects, from the `i`-th on. */
  lemma {:induction false} UploadSome(runs: map<RunId, Run>, w: World, e: ExecId, run: Run, plan: LfsPlan, i: nat, k: nat, rest: seq<Step>)
    requires i + k <= |plan.missing|
    ensures Behave(runs, Goto(w, e, run, NextUpload(plan, i)), Uploads(e, k) + rest)
         == Behave(runs, Goto(w.(held := w.held + Members(plan.missing[i..i + k])), e, run, NextUpload(plan, i + k)), rest)
    decreases k
  {
    hide Behave, Next, Goto;
    if k == 0 {
      assert w.held + Members(plan.missing[i..i + k]) == w.held;
      assert [] + rest == rest;
    } else {
      var s, more := Act(e, Upload(Uploaded, true)), Uploads(e, k - 1);
      var w' := w.(held := w.held + {plan.missing[i]});
      UploadOne(runs, w, e, run, plan, i);
      Associate([s], more, rest);
      BehaveCons(runs, Goto(w, e, run, NextUpload(plan, i)), s, more + rest);
      UploadSome(runs, w', e, run, plan, i + 1, k - 1, rest);
      FirstMember(plan.missing[i..i + k]);
      assert plan.missing[i..i + k][1..] == plan.missing[i + 1..i + k];
      assert w'.held + Members(plan.missing[i + 1..i + k]) == w.held + Members(plan.missing[i..i + k]);
    }
  }

  lemma Swapped(runs: map<RunId, Run>, w: World, e: ExecId, run: Run, plan: LfsPlan)
    requires Observed(w, run) == Some(run.base)
    ensures Next(runs, Goto(w, e, run, Swapping(plan)), Act(e, Swap(true, Updated)))
         == Some(Goto(WriteRef(w, run.target, run.desired).(swaps := w.swaps + [Landed(run, run.base, run.desired)]),
                      e, run, Finished(Success(BackedUp(run.desired, plan.missing, |plan.present|)))))
  {
    assert w.execs[e := Exec(run, Swapping(plan))][e := Exec(run, Finished(Success(BackedUp(run.desired, plan.missing, |plan.present|))))]
        == w.execs[e := Exec(run, Finished(Success(BackedUp(run.desired, plan.missing, |plan.present|))))];
  }

  lemma PlannedRunLands(runs: map<RunId, Run>, w: World, e: ExecId, run: Run, first: LfsPlan, second: LfsPlan)
    requires Observed(w, run) == Some(run.base) && second.IsComplete()
    ensures Behave(runs, Goto(w, e, run, Planning), Landing(e, first, second)) == Some(QuietResult(w, e, run, first))
  {
    hide Behave, Next, Goto, Observed, Uploads, LfsPlan.IsComplete, WriteRef;
    var delivered := Delivered(w, first);
    var end := [Act(e, Ask(second))] + ([Act(e, Swap(true, Updated))] + []);
    var n := |first.missing|;
    Asking(runs, w, e, run, first, second);
    BehaveCons(runs, Goto(w, e, run, Planning), Act(e, Ask(first)), Uploads(e, n) + end);
    UploadSome(runs, w, e, run, first, 0, n, end);
    assert first.missing[0..n] == first.missing;
    Asking(runs, delivered, e, run, first, second);
    BehaveCons(runs, Goto(delivered, e, run, Gating(first)), Act(e, Ask(second)), [Act(e, Swap(true, Updated))] + []);
    SameRefs(w, first, run);
    Swapped(runs, delivered, e, run, first);
    BehaveCons(runs, Goto(delivered, e, run, Swapping(first)), Act(e, Swap(true, Updated)), []);
    BehaveNothing(runs, QuietResult(w, e, run, first));
  }

  /** The run goes through whatever the endpoint answers first, once it reports nothing missing. */
  lemma QuietRunLands(runs: map<RunId, Run>, w: World, e: ExecId, id: RunId, first: LfsPlan, second: LfsPlan)
    requires Ready(runs, w, e, id) && second.IsComplete()
    ensures Behave(runs, w, QuietRun(e, id, first, second)) == Some(QuietResult(w, e, runs[id], first))
  {
    hide Behave, Next, Goto, Observed, Confirmed, Landing, LfsPlan.IsComplete, QuietResult;
    var run, landing := runs[id], Landing(e, first, second);
    Started(runs, w, e, id);
    BehaveCons(runs, w, Start(e, id), [Act(e, Observe)] + ([Act(e, Inspect)] + landing));
    ToPlanning(runs, w, e, run);
    BehaveCons(runs, Goto(w, e, run, Observing), Act(e, Observe), [Act(e, Inspect)] + landing);
    BehaveCons(runs, Goto(w, e, run, Inspecting), Act(e, Inspect), landing);
    PlannedRunLands(runs, w, e, run, first, second);
  }

  lemma Started(runs: map<RunId, Run>, w: World, e: ExecId, id: RunId)
    ensures id in runs && e !in w.execs ==> Next(runs, w, Start(e, id)) == Some(Goto(w, e, runs[id], Observing))
  {
  }

  lemma SameRefs(w: World, plan: LfsPlan, run: Run)
    ensures Observed(Delivered(w, plan), run) == Observed(w, run)
  {
  }

  lemma BehaveNothing(runs: map<RunId, Run>, w: World)
    ensures Behave(runs, w, []) == Some(w)
  {
  }

  // ---------- with an endpoint that keeps its contract ----------

  lemma HonestCons(runs: map<RunId, Run>, w: World, s: Step, rest: seq<Step>)
    requires HonestAnswer(w, s) && (Next(runs, w, s).Some? ==> HonestEndpoint(runs, Next(runs, w, s).value, rest))
    ensures HonestEndpoint(runs, w, [s] + rest)
  {
    assert ([s] + rest)[1..] == rest;
  }

  lemma {:induction false} UploadsHonest(runs: map<RunId, Run>, w: World, e: ExecId, run: Run, plan: LfsPlan, i: nat, rest: seq<Step>)
    requires i <= |plan.missing|
    requires HonestEndpoint(runs, Goto(w.(held := w.held + Members(plan.missing[i..])), e, run, Gating(plan)), rest)
    ensures HonestEndpoint(runs, Goto(w, e, run, NextUpload(plan, i)), Uploads(e, |plan.missing| - i) + rest)
    decreases |plan.missing| - i
  {
    hide HonestEndpoint, Next, Goto;
    if i == |plan.missing| {
      assert w.held + Members(plan.missing[i..]) == w.held;
      assert [] + rest == rest;
    } else {
      var s, more := Act(e, Upload(Uploaded, true)), Uploads(e, |plan.missing| - i - 1);
      var w' := w.(held := w.held + {plan.missing[i]});
      FirstMember(plan.missing[i..]);
      assert plan.missing[i..][1..] == plan.missing[i + 1..];
      assert w'.held + Members(plan.missing[i + 1..]) == w.held + Members(plan.missing[i..]);
      UploadsHonest(runs, w', e, run, plan, i + 1, rest);
      UploadOne(runs, w, e, run, plan, i);
      Associate([s], more, rest);
      HonestCons(runs, Goto(w, e, run, NextUpload(plan, i)), s, more + rest);
    }
  }

  lemma AskedHonestly(w: World, e: ExecId, run: Run, phase: Phase, plan: LfsPlan)
    ensures Answers(plan, run.Required(), w.held) ==> HonestAnswer(Goto(w, e, run, phase), Act(e, Ask(plan)))
  {
  }

  lemma NothingAsked(runs: map<RunId, Run>, w: World)
    ensures HonestEndpoint(runs, w, [])
  {
  }

  lemma NoQuestion(w: World, s: Step)
    ensures (!s.Act? || !s.action.Ask?) ==> HonestAnswer(w, s)
  {
  }

  lemma QuietRunIsHonest(runs: map<RunId, Run>, w: World, e: ExecId, id: RunId, first: LfsPlan, second: LfsPlan)
    requires Ready(runs, w, e, id) && second.IsComplete()
    requires Answers(first, runs[id].Required(), w.held)
    requires Answers(second, runs[id].Required(), Delivered(w, first).held)
    ensures HonestEndpoint(runs, w, QuietRun(e, id, first, second))
  {
    hide HonestEndpoint, HonestAnswer, Next, Goto, Observed, Confirmed, Uploads, Answers, LfsPlan.IsComplete, WriteRef;
    var run, delivered := runs[id], Delivered(w, first);
    var swap := [Act(e, Swap(true, Updated))] + [];
    var end := [Act(e, Ask(second))] + swap;
    var uploads := Uploads(e, |first.missing|) + end;
    SameRefs(w, first, run);
    Swapped(runs, delivered, e, run, first);
    NothingAsked(runs, QuietResult(w, e, run, first));
    NoQuestion(Goto(delivered, e, run, Swapping(first)), Act(e, Swap(true, Updated)));
    HonestCons(runs, Goto(delivered, e, run, Swapping(first)), Act(e, Swap(true, Updated)), []);
    Asking(runs, delivered, e, run, first, second);
    AskedHonestly(delivered, e, run, Gating(first), second);
    HonestCons(runs, Goto(delivered, e, run, Gating(first)), Act(e, Ask(second)), swap);
    assert first.missing[0..] == first.missing;
    UploadsHonest(runs, w, e, run, first, 0, end);
    Asking(runs, w, e, run, first, second);
    AskedHonestly(w, e, run, Planning, first);
    HonestCons(runs, Goto(w, e, run, Planning), Act(e, Ask(first)), uploads);
    ToPlanning(runs, w, e, run);
    NoQuestion(Goto(w, e, run, Inspecting), Act(e, Inspect));
    HonestCons(runs, Goto(w, e, run, Inspecting), Act(e, Inspect), [Act(e, Ask(first))] + uploads);
    NoQuestion(Goto(w, e, run, Observing), Act(e, Observe));
    HonestCons(runs, Goto(w, e, run, Observing), Act(e, Observe), [Act(e, Inspect)] + ([Act(e, Ask(first))] + uploads));
    Started(runs, w, e, id);
    NoQuestion(w, Start(e, id));
    HonestCons(runs, w, Start(e, id), [Act(e, Observe)] + ([Act(e, Inspect)] + ([Act(e, Ask(first))] + uploads)));
  }

  lemma CompleteAfterUploads(w: World, run: Run, plan: LfsPlan)
    requires Answers(plan, run.Required(), w.held)
    ensures AllHeld(run, Delivered(w, plan).held)
    ensures Answers(LfsPlan(run.Required(), []), run.Required(), Delivered(w, plan).held)
  {
    forall o | o in run.Required() ensures o in w.held + Members(plan.missing) {
      assert o in multiset(run.Required());
      assert o in multiset(plan.present) || o in multiset(plan.missing);
    }
  }

  /**
   A run nobody disturbs, with an endpoint that keeps its contract, succeeds: it uploads exactly
   the objects reported missing, moves its ref to its commit, and leaves every object present.
   */
  lemma QuietRunBacksUp(runs: map<RunId, Run>, w: World, e: ExecId, id: RunId, first: LfsPlan)
    requires Ready(runs, w, e, id) && Answers(first, runs[id].Required(), w.held)
    ensures var steps := QuietRun(e, id, first, LfsPlan(runs[id].Required(), []));
      && HonestEndpoint(runs, w, steps) && Behave(runs, w, steps).Some?
      && var w' := Behave(runs, w, steps).value;
      && w'.held == w.held + Members(first.missing) && AllHeld(runs[id], w'.held)
      && w'.refs == w.refs[runs[id].target := runs[id].desired]
      && e in w'.execs && w'.execs[e].phase == Finished(Success(BackedUp(runs[id].desired, first.missing, |first.present|)))
  {
    hide Behave, HonestEndpoint, QuietRun, Answers, AllHeld;
    var second := LfsPlan(runs[id].Required(), []);
    CompleteAfterUploads(w, runs[id], first);
    QuietRunIsHonest(runs, w, e, id, first, second);
    QuietRunLands(runs, w, e, id, first, second);
  }

  // ---------- what happens without the hypotheses ----------

  lemma {:induction false} NoWriterNoPlant(runs: map<RunId, Run>, w: World, steps: seq<Step>, run: Run)
    requires forall s :: s in steps ==> !s.ForeignWrite?
    ensures NeverPlants(runs, w, steps, run)
    decreases steps
  {
    if steps != [] && Next(runs, w, steps[0]).Some? {
      NoWriterNoPlant(runs, Next(runs, w, steps[0]).value, steps[1..], run);
    }
  }

  lemma {:induction false} UploadsOnly(e: ExecId, n: nat)
    ensures forall s :: s in Uploads(e, n) ==> !s.ForeignWrite?
  {
    if n > 0 {
      UploadsOnly(e, n - 1);
    }
  }

  lemma QuietRunPlantsNothing(runs: map<RunId, Run>, w: World, e: ExecId, id: RunId, first: LfsPlan, second: LfsPlan, run: Run)
    ensures NeverPlants(runs, w, QuietRun(e, id, first, second), run)
  {
    UploadsOnly(e, |first.missing|);
    NoWriterNoPlant(runs, w, QuietRun(e, id, first, second), run);
  }

  /**
   The endpoint contract is needed. From any world where the run can start, an endpoint that forgets
   every object in its answers takes it to its swap without a single upload: the ref then names the
   run's commit, and the backup can be restored exactly if every object happened to be there before.
   */
  lemma ForgetfulEndpointLosesObjects(runs: map<RunId, Run>, w: World, e: ExecId, id: RunId)
    requires Ready(runs, w, e, id)
    ensures var steps := QuietRun(e, id, LfsPlan([], []), LfsPlan([], []));
      && Restorable(w, runs[id]) && NeverPlants(runs, w, steps, runs[id]) && Behave(runs, w, steps).Some?
      && var w' := Behave(runs, w, steps).value;
      && Observed(w', runs[id]) == Some(runs[id].desired) && Agrees(w', runs[id])
      && (Restorable(w', runs[id]) <==> AllHeld(runs[id], w.held))
  {
    hide Behave, NeverPlants, QuietRun;
    var none := LfsPlan([], []);
    QuietRunLands(runs, w, e, id, none, none);
    QuietRunPlantsNothing(runs, w, e, id, none, none, runs[id]);
    assert Delivered(w, none).held == w.held;
  }

  /**
   So is agreement about the commit. When the objects of one run are held, its honest, undisturbed
   execution moves the ref to its commit without an upload. Another run that claims the same commit
   name for the same ref can then be restored exactly if its own objects happened to be there,
   unless the object database shows that the commit is not the one that run describes.
   */
  lemma OtherRunIsNotCovered(runs: map<RunId, Run>, w: World, e: ExecId, id: RunId, other: Run)
    requires Ready(runs, w, e, id) && AllHeld(runs[id], w.held)
    requires other.target == runs[id].target && other.desired == runs[id].desired
    ensures var plan := LfsPlan(runs[id].Required(), []);
      var steps := QuietRun(e, id, plan, plan);
      && HonestEndpoint(runs, w, steps) && NeverPlants(runs, w, steps, other) && Behave(runs, w, steps).Some?
      && var w' := Behave(runs, w, steps).value;
      && Observed(w', other) == Some(other.desired)
      && (Restorable(w', other) <==> (Agrees(w, other) ==> AllHeld(other, w.held)))
  {
    hide Behave, NeverPlants, HonestEndpoint, QuietRun;
    var plan := LfsPlan(runs[id].Required(), []);
    assert Delivered(w, plan).held == w.held;
    QuietRunIsHonest(runs, w, e, id, plan, plan);
    QuietRunLands(runs, w, e, id, plan, plan);
    QuietRunPlantsNothing(runs, w, e, id, plan, plan, other);
  }
}
