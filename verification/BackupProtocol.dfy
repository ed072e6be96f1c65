/** The backup protocol as a state machine. */
module BackupProtocol {
  import opened Wrappers
  import opened LfsPointers
  import opened Deliveries

  // `backup/execute.rs`: any number of executors over any set of frozen runs, crashing and resuming
  // at every step, beside foreign writers of the same refs, foreign uploaders, and swap answers
  // that are lost after the swap has landed. The machine restricts nobody: what an honest endpoint
  // or a well-behaved writer does is a hypothesis of the theorems that need it.

  type Target = string
  type Commit = string
  type Tree = string
  type RunId = nat
  type ExecId = nat

  /**
   The frozen intent; its commit specification names `base` as the parent and `tree` as the tree.
   That `desired` is the name of that commit is something only the object database can tell.
   */
  datatype Run = Run(target: Target, base: Commit, desired: Commit, tree: Tree, delivery: Delivery) {
    /** `required_lfs_objects` */
    function Required(): seq<RequiredLfsObject> {
      delivery.objects
    }
  }

  datatype Facts = Facts(parent: Commit, tree: Tree)

  datatype Outcome =
    | BackedUp(commit: Commit, uploaded: seq<RequiredLfsObject>, alreadyPresent: nat)
    | AlreadyBackedUp(landed: Commit)
    | RemoteChanged(expected: Commit, observed: Option<Commit>)

  datatype Port = StorePort | RepositoryPort | RemotePort | LfsPort | BlobPort

  datatype ExecError =
    | UnknownRun(id: RunId)
    | PortFailed(port: Port)
    | SourceBlobMissing(needed: RequiredLfsObject)
    | CommitFactsMismatch(commit: Commit)
    | MaterializedTreeMismatch(expectedTree: Tree, actualTree: Tree)
    | RebuiltCommitMismatch(expectedCommit: Commit, actualCommit: Commit)
    | LfsObjectsMissing(missing: seq<RequiredLfsObject>)

  /** Where one executor stands between two effects. */
  datatype Phase =
    | Observing
    | ConfirmingLanded
    | Inspecting
    | Materializing
    | Creating
    | Planning
    | Uploading(plan: LfsPlan, done: nat)
    | Gating(plan: LfsPlan)
    | Swapping(plan: LfsPlan)
    | Reobserving
    | Finished(result: Result<Outcome, ExecError>)

  datatype Exec = Exec(run: Run, phase: Phase)

  /** One landed swap. */
  datatype Landed = Landed(run: Run, before: Commit, after: Commit)

  datatype World = World(
    refs: map<Target, Commit>,
    held: set<RequiredLfsObject>,
    commits: map<Commit, Facts>,
    execs: map<ExecId, Exec>,
    seen: set<(Target, Commit)>,
    swaps: seq<Landed>)

  datatype UploadReply = Uploaded | BlobMissing | UploadRefused(port: Port)

  datatype SwapReply = Updated | Rejected | SwapFailed

  datatype Action =
    | Observe
    | Ask(plan: LfsPlan)
    | Inspect
    | Materialize(tree: Tree)
    | Create(oid: Commit)
    | Upload(reply: UploadReply, stored: bool)
    | Swap(moved: bool, answer: SwapReply)
    | Fail(port: Port)

  datatype Step =
    | Start(exec: ExecId, id: RunId)
    | Act(exec: ExecId, action: Action)
    | Crash(exec: ExecId)
    | ForeignWrite(target: Target, commit: Option<Commit>)
    | ForeignUpload(uploaded: RequiredLfsObject)
    | ForeignCommit(created: Commit, facts: Facts)

  // ---------- one step ----------

  predicate AllHeld(run: Run, held: set<RequiredLfsObject>) {
    forall o :: o in run.Required() ==> o in held
  }

  function WriteRef(w: World, target: Target, commit: Commit): World {
    w.(refs := w.refs[target := commit], seen := w.seen + {(target, commit)})
  }

  function Goto(w: World, e: ExecId, run: Run, phase: Phase): World {
    w.(execs := w.execs[e := Exec(run, phase)])
  }

  function Stop(w: World, e: ExecId, run: Run, error: ExecError): World {
    Goto(w, e, run, Finished(Failure(error)))
  }

  function Observed(w: World, run: Run): Option<Commit> {
    if run.target in w.refs then Some(w.refs[run.target]) else None
  }

  function AfterObserve(run: Run, observed: Option<Commit>): Phase {
    if observed == Some(run.desired) then ConfirmingLanded
    else if observed == Some(run.base) then Inspecting
    else Finished(Success(RemoteChanged(run.base, observed)))
  }

  function AfterReobserve(run: Run, observed: Option<Commit>): Phase {
    Finished(Success(if observed == Some(run.desired) then AlreadyBackedUp(run.desired) else RemoteChanged(run.base, observed)))
  }

  function AfterInspect(w: World, run: Run): Phase {
    if run.desired !in w.commits then Materializing
    else if w.commits[run.desired] == Facts(run.base, run.tree) then Planning
    else Finished(Failure(CommitFactsMismatch(run.desired)))
  }

  /** The uploads still to do, or the gate when there are none. */
  function NextUpload(plan: LfsPlan, done: nat): Phase {
    if done < |plan.missing| then Uploading(plan, done) else Gating(plan)
  }

  function AfterAsk(run: Run, phase: Phase, plan: LfsPlan): Option<Phase> {
    match phase
    case ConfirmingLanded =>
      Some(Finished(if plan.IsComplete() then Success(AlreadyBackedUp(run.desired)) else Failure(LfsObjectsMissing(plan.missing))))
    case Planning => Some(NextUpload(plan, 0))
    case Gating(first) =>
      Some(if plan.IsComplete() then Swapping(first) else Finished(Failure(LfsObjectsMissing(plan.missing))))
    case _ => None
  }

  function UploadStep(w: World, e: ExecId, run: Run, plan: LfsPlan, done: nat, reply: UploadReply, stored: bool): Option<World> {
    if done >= |plan.missing| then None
    else
      var next := plan.missing[done];
      match reply
      case BlobMissing => if stored then None else Some(Stop(w, e, run, SourceBlobMissing(next)))
      case UploadRefused(port) =>
        Some(Stop(if stored then w.(held := w.held + {next}) else w, e, run, PortFailed(port)))
      case Uploaded =>
        Some(Goto(if stored then w.(held := w.held + {next}) else w, e, run, NextUpload(plan, done + 1)))
  }

  /** The ref moves only from `base`; `Updated` is only answered for a swap that landed. */
  function SwapStep(w: World, e: ExecId, run: Run, plan: LfsPlan, moved: bool, answer: SwapReply): Option<World> {
    if (moved && Observed(w, run) != Some(run.base)) || (answer.Updated? && !moved) then None
    else
      var w' := if moved then WriteRef(w, run.target, run.desired).(swaps := w.swaps + [Landed(run, w.refs[run.target], run.desired)]) else w;
      match answer
      case Updated => Some(Goto(w', e, run, Finished(Success(BackedUp(run.desired, plan.missing, |plan.present|)))))
      case Rejected => Some(Goto(w', e, run, Reobserving))
      case SwapFailed => Some(Stop(w', e, run, PortFailed(RemotePort)))
  }

  function ActStep(w: World, e: ExecId, run: Run, phase: Phase, action: Action): Option<World> {
    match action
    case Fail(port) => if phase.Finished? then None else Some(Stop(w, e, run, PortFailed(port)))
    case Observe =>
      if phase.Observing? then Some(Goto(w, e, run, AfterObserve(run, Observed(w, run))))
      else if phase.Reobserving? then Some(Goto(w, e, run, AfterReobserve(run, Observed(w, run))))
      else None
    case Ask(plan) =>
      var next := AfterAsk(run, phase, plan);
      if next.None? then None else Some(Goto(w, e, run, next.value))
    case Inspect => if phase.Inspecting? then Some(Goto(w, e, run, AfterInspect(w, run))) else None
    case Materialize(tree) =>
      if !phase.Materializing? then None
      else if tree == run.tree then Some(Goto(w, e, run, Creating))
      else Some(Stop(w, e, run, MaterializedTreeMismatch(run.tree, tree)))
    case Create(oid) =>
      var facts := Facts(run.base, run.tree);
      if !phase.Creating? || (oid in w.commits && w.commits[oid] != facts) then None
      else
        var w' := w.(commits := w.commits[oid := facts]);
        if oid == run.desired then Some(Goto(w', e, run, Planning)) else Some(Stop(w', e, run, RebuiltCommitMismatch(run.desired, oid)))
    case Upload(reply, stored) =>
      if phase.Uploading? then UploadStep(w, e, run, phase.plan, phase.done, reply, stored) else None
    case Swap(moved, answer) =>
      if phase.Swapping? then SwapStep(w, e, run, phase.plan, moved, answer) else None
  }

  function Next(runs: map<RunId, Run>, w: World, s: Step): Option<World> {
    match s
    case Start(e, id) =>
      if e in w.execs || id !in runs then None else Some(Goto(w, e, runs[id], Observing))
    case Act(e, action) =>
      if e in w.execs then ActStep(w, e, w.execs[e].run, w.execs[e].phase, action) else None
    case Crash(e) =>
      if e in w.execs then Some(w.(execs := w.execs - {e})) else None
    case ForeignWrite(target, commit) =>
      if commit.None? then Some(w.(refs := w.refs - {target}))
      else Some(WriteRef(w, target, commit.value))
    case ForeignUpload(o) => Some(w.(held := w.held + {o}))
    case ForeignCommit(c, facts) =>
      if c in w.commits then None else Some(w.(commits := w.commits[c := facts]))
  }

  /** A whole interleaving. */
  function Behave(runs: map<RunId, Run>, w: World, steps: seq<Step>): Option<World>
    decreases steps
  {
    if steps == [] then Some(w)
    else
      match Next(runs, w, steps[0])
      case None => None
      case Some(w') => Behave(runs, w', steps[1..])
  }

  lemma {:induction false} BehaveAppend(runs: map<RunId, Run>, w: World, steps: seq<Step>, more: seq<Step>)
    requires Behave(runs, w, steps).Some?
    ensures Behave(runs, w, steps + more) == Behave(runs, Behave(runs, w, steps).value, more)
    decreases steps
  {
    if steps == [] {
      assert steps + more == more;
    } else {
      BehaveAppend(runs, Next(runs, w, steps[0]).value, steps[1..], more);
      assert (steps + more)[1..] == steps[1..] + more;
    }
  }

  lemma BehaveCons(runs: map<RunId, Run>, w: World, s: Step, rest: seq<Step>)
    ensures Behave(runs, w, [s] + rest) == match Next(runs, w, s) case None => None case Some(w') => Behave(runs, w', rest)
  {
    assert ([s] + rest)[1..] == rest;
  }

  // ---------- what the environment may be trusted with ----------

  /** One answer of the endpoint: the asked executor is told about every object it requires, truthfully. */
  ghost predicate HonestAnswer(w: World, s: Step) {
    s.Act? && s.action.Ask? && s.exec in w.execs ==> Answers(s.action.plan, w.execs[s.exec].run.Required(), w.held)
  }

  /** The endpoint keeps its contract throughout. */
  ghost predicate HonestEndpoint(runs: map<RunId, Run>, w: World, steps: seq<Step>)
    decreases steps
  {
    steps == [] || (
      && HonestAnswer(w, steps[0])
      && (Next(runs, w, steps[0]).Some? ==> HonestEndpoint(runs, Next(runs, w, steps[0]).value, steps[1..])))
  }

  /** A foreign writer names the run's commit although an object it requires is missing. */
  predicate Plants(w: World, s: Step, run: Run) {
    s == ForeignWrite(run.target, Some(run.desired)) && !AllHeld(run, w.held)
  }

  ghost predicate NeverPlants(runs: map<RunId, Run>, w: World, steps: seq<Step>, run: Run)
    decreases steps
  {
    steps == [] || (
      && !Plants(w, steps[0], run)
      && (Next(runs, w, steps[0]).Some? ==> NeverPlants(runs, Next(runs, w, steps[0]).value, steps[1..], run)))
  }

  // ---------- the invariant ----------

  /** Every object the run requires was accounted for by the plan. */
  ghost predicate Asked(run: Run, plan: LfsPlan) {
    multiset(plan.present) + multiset(plan.missing) == multiset(run.Required())
  }

  ghost predicate Confirmed(w: World, run: Run) {
    run.desired in w.commits && w.commits[run.desired] == Facts(run.base, run.tree)
  }

  /** Uploaded and already-present objects partition the required ones. */
  ghost predicate Accounted(run: Run, uploaded: seq<RequiredLfsObject>, alreadyPresent: nat) {
    exists present: seq<RequiredLfsObject> :: |present| == alreadyPresent && multiset(uploaded) + multiset(present) == multiset(run.Required())
  }

  /** What a phase promises about refs and commits, whatever the endpoint answers. */
  ghost predicate PhaseMoves(w: World, run: Run, phase: Phase) {
    match phase
    case Observing => true
    case ConfirmingLanded => (run.target, run.desired) in w.seen
    case Inspecting => run.base != run.desired
    case Materializing => run.base != run.desired
    case Creating => run.base != run.desired
    case Planning => run.base != run.desired && Confirmed(w, run)
    case Uploading(_, _) => run.base != run.desired && Confirmed(w, run)
    case Gating(_) => run.base != run.desired && Confirmed(w, run)
    case Swapping(_) => run.base != run.desired && Confirmed(w, run)
    case Reobserving => run.base != run.desired && Confirmed(w, run)
    case Finished(Failure(_)) => true
    case Finished(Success(RemoteChanged(expected, observed))) => expected == run.base && observed != Some(run.desired)
    case Finished(Success(AlreadyBackedUp(c))) => c == run.desired && (run.target, run.desired) in w.seen
    case Finished(Success(BackedUp(c, _, _))) => c == run.desired && (run.target, run.desired) in w.seen && Confirmed(w, run)
  }

  /** What a phase promises about the objects, when the endpoint kept its contract. */
  ghost predicate PhaseObjects(w: World, run: Run, phase: Phase) {
    match phase
    case Uploading(plan, _) => Asked(run, plan)
    case Gating(plan) => Asked(run, plan)
    case Swapping(plan) => Asked(run, plan) && AllHeld(run, w.held)
    case Reobserving => AllHeld(run, w.held)
    case Finished(Success(AlreadyBackedUp(_))) => AllHeld(run, w.held)
    case Finished(Success(BackedUp(_, uploaded, n))) => AllHeld(run, w.held) && Accounted(run, uploaded, n)
    case _ => true
  }

  ghost predicate PhaseHolds(honest: bool, w: World, run: Run, phase: Phase) {
    PhaseMoves(w, run, phase) && (honest ==> PhaseObjects(w, run, phase))
  }

  ghost predicate RunKnown(runs: map<RunId, Run>, run: Run) {
    exists id :: id in runs && runs[id] == run
  }

  ghost predicate ExecHolds(honest: bool, runs: map<RunId, Run>, w: World, x: Exec) {
    RunKnown(runs, x.run) && PhaseHolds(honest, w, x.run, x.phase)
  }

  ghost predicate ExecsHold(honest: bool, runs: map<RunId, Run>, w: World) {
    forall e :: e in w.execs ==> ExecHolds(honest, runs, w, w.execs[e])
  }

  ghost predicate SwapsExact(w: World) {
    forall s :: s in w.swaps ==> s.before == s.run.base && s.after == s.run.desired && s.before != s.after
  }

  ghost predicate SeenAll(w: World) {
    forall t :: t in w.refs ==> (t, w.refs[t]) in w.seen
  }

  /** `honest` says whether the endpoint has kept its contract so far. */
  ghost predicate Inv(honest: bool, runs: map<RunId, Run>, w: World) {
    ExecsHold(honest, runs, w) && SwapsExact(w) && SeenAll(w)
  }

  /** What no step takes back: objects, commits and the values a ref has held. */
  ghost predicate Grows(w: World, w': World) {
    && w.held <= w'.held
    && w.seen <= w'.seen
    && forall c :: c in w.commits ==> c in w'.commits && w'.commits[c] == w.commits[c]
  }

  lemma ExecKept(honest: bool, runs: map<RunId, Run>, w: World, w': World, x: Exec)
    requires ExecHolds(honest, runs, w, x) && Grows(w, w')
    ensures ExecHolds(honest, runs, w', x)
  {
    hide RunKnown;
  }

  // ---------- one action of one executor ----------

  /** Only the acting executor moves, within its run, and nothing is taken back. */
  ghost predicate Steps(w: World, w': World, e: ExecId, run: Run) {
    && Grows(w, w')
    && e in w'.execs && w'.execs[e].run == run
    && w'.execs == w.execs[e := w'.execs[e]]
  }

  lemma Same(w: World)
    ensures Grows(w, w)
  {
  }

  lemma Gained(w: World, o: RequiredLfsObject)
    ensures Grows(w, w.(held := w.held + {o}))
  {
  }

  lemma Committed(w: World, c: Commit, facts: Facts)
    ensures (c in w.commits ==> w.commits[c] == facts) ==> Grows(w, w.(commits := w.commits[c := facts]))
  {
  }

  lemma Written(w: World, target: Target, commit: Commit, swaps: seq<Landed>)
    ensures Grows(w, WriteRef(w, target, commit).(swaps := swaps))
  {
  }

  lemma GotoSteps(w: World, w': World, e: ExecId, run: Run, phase: Phase)
    ensures Grows(w, w') && w'.execs == w.execs ==> Steps(w, Goto(w', e, run, phase), e, run)
  {
  }

  lemma UploadSteps(w: World, e: ExecId, run: Run, plan: LfsPlan, done: nat, reply: UploadReply, stored: bool)
    requires UploadStep(w, e, run, plan, done, reply, stored).Some?
    ensures Steps(w, UploadStep(w, e, run, plan, done, reply, stored).value, e, run)
  {
    hide Steps, Grows, Goto, NextUpload;
    Same(w);
    Gained(w, plan.missing[done]);
    var w' := if stored then w.(held := w.held + {plan.missing[done]}) else w;
    match reply
    case BlobMissing => GotoSteps(w, w, e, run, Finished(Failure(SourceBlobMissing(plan.missing[done]))));
    case UploadRefused(port) => GotoSteps(w, w', e, run, Finished(Failure(PortFailed(port))));
    case Uploaded => GotoSteps(w, w', e, run, NextUpload(plan, done + 1));
  }

  lemma SwapSteps(w: World, e: ExecId, run: Run, plan: LfsPlan, moved: bool, answer: SwapReply)
    requires SwapStep(w, e, run, plan, moved, answer).Some?
    ensures Steps(w, SwapStep(w, e, run, plan, moved, answer).value, e, run)
  {
    hide Steps, Grows, Goto, WriteRef;
    Same(w);
    var swaps := if moved then w.swaps + [Landed(run, w.refs[run.target], run.desired)] else w.swaps;
    Written(w, run.target, run.desired, swaps);
    var w' := if moved then WriteRef(w, run.target, run.desired).(swaps := swaps) else w;
    WriteRefExecs(w, run.target, run.desired);
    match answer
    case Updated => GotoSteps(w, w', e, run, Finished(Success(BackedUp(run.desired, plan.missing, |plan.present|))));
    case Rejected => GotoSteps(w, w', e, run, Reobserving);
    case SwapFailed => GotoSteps(w, w', e, run, Finished(Failure(PortFailed(RemotePort))));
  }

  lemma WriteRefExecs(w: World, target: Target, commit: Commit)
    ensures WriteRef(w, target, commit).execs == w.execs
  {
  }

  lemma ActSteps(w: World, e: ExecId, run: Run, phase: Phase, action: Action)
    requires ActStep(w, e, run, phase, action).Some?
    ensures Steps(w, ActStep(w, e, run, phase, action).value, e, run)
  {
    hide Steps, Grows, Goto, UploadStep, SwapStep, AfterObserve, AfterReobserve, AfterInspect, AfterAsk, NextUpload;
    Same(w);
    match action
    case Fail(port) => GotoSteps(w, w, e, run, Finished(Failure(PortFailed(port))));
    case Observe =>
      GotoSteps(w, w, e, run, if phase.Observing? then AfterObserve(run, Observed(w, run)) else AfterReobserve(run, Observed(w, run)));
    case Ask(plan) => GotoSteps(w, w, e, run, AfterAsk(run, phase, plan).value);
    case Inspect => GotoSteps(w, w, e, run, AfterInspect(w, run));
    case Materialize(tree) =>
      GotoSteps(w, w, e, run, if tree == run.tree then Creating else Finished(Failure(MaterializedTreeMismatch(run.tree, tree))));
    case Create(oid) =>
      var facts := Facts(run.base, run.tree);
      Committed(w, oid, facts);
      GotoSteps(w, w.(commits := w.commits[oid := facts]), e, run,
                if oid == run.desired then Planning else Finished(Failure(RebuiltCommitMismatch(run.desired, oid))));
    case Upload(reply, stored) => UploadSteps(w, e, run, phase.plan, phase.done, reply, stored);
    case Swap(moved, answer) => SwapSteps(w, e, run, phase.plan, moved, answer);
  }

  lemma AskPhase(w: World, run: Run, phase: Phase, plan: LfsPlan)
    requires PhaseHolds(true, w, run, phase) && Answers(plan, run.Required(), w.held) && AfterAsk(run, phase, plan).Some?
    ensures PhaseHolds(true, w, run, AfterAsk(run, phase, plan).value)
  {
    if plan.IsComplete() {
      CompleteMeansHeld(plan, run.Required(), w.held);
    }
  }

  /** Without the contract the answer still moves the executor only where refs and commits allow. */
  lemma AskMoves(w: World, run: Run, phase: Phase, plan: LfsPlan)
    ensures PhaseMoves(w, run, phase) && AfterAsk(run, phase, plan).Some? ==> PhaseMoves(w, run, AfterAsk(run, phase, plan).value)
  {
  }

  lemma SwapPhase(honest: bool, w: World, e: ExecId, run: Run, plan: LfsPlan, moved: bool, answer: SwapReply)
    requires PhaseHolds(honest, w, run, Swapping(plan)) && SwapStep(w, e, run, plan, moved, answer).Some?
    ensures PhaseHolds(honest, SwapStep(w, e, run, plan, moved, answer).value, run, SwapStep(w, e, run, plan, moved, answer).value.execs[e].phase)
  {
    if answer.Updated? && honest {
      assert |plan.present| == |plan.present| && multiset(plan.missing) + multiset(plan.present) == multiset(run.Required());
      assert Accounted(run, plan.missing, |plan.present|);
    }
  }

  lemma UploadPhase(honest: bool, w: World, e: ExecId, run: Run, plan: LfsPlan, done: nat, reply: UploadReply, stored: bool)
    ensures PhaseHolds(honest, w, run, Uploading(plan, done)) && UploadStep(w, e, run, plan, done, reply, stored).Some? ==>
      PhaseHolds(honest, UploadStep(w, e, run, plan, done, reply, stored).value, run, UploadStep(w, e, run, plan, done, reply, stored).value.execs[e].phase)
  {
  }

  /** After an executor's own step, what its new phase promises holds. */
  lemma ActPhase(honest: bool, w: World, e: ExecId, run: Run, phase: Phase, action: Action)
    requires PhaseHolds(honest, w, run, phase) && SeenAll(w) && ActStep(w, e, run, phase, action).Some?
    requires honest && action.Ask? ==> Answers(action.plan, run.Required(), w.held)
    ensures PhaseHolds(honest, ActStep(w, e, run, phase, action).value, run, ActStep(w, e, run, phase, action).value.execs[e].phase)
  {
    match action
    case Ask(plan) =>
      AskMoves(w, run, phase, plan);
      if honest {
        AskPhase(w, run, phase, plan);
      }
    case Swap(moved, answer) => SwapPhase(honest, w, e, run, phase.plan, moved, answer);
    case Upload(reply, stored) => UploadPhase(honest, w, e, run, phase.plan, phase.done, reply, stored);
    case _ =>
  }

  /** Nothing about the refs changed. */
  predicate RefsAlone(w: World, w': World) {
    w'.refs == w.refs && w'.swaps == w.swaps && w'.seen == w.seen
  }

  /** The run's own ref moved from exactly its base to exactly its desired commit. */
  ghost predicate Lands(w: World, w': World, run: Run) {
    && run.target in w.refs && w.refs[run.target] == run.base
    && w'.refs == w.refs[run.target := run.desired]
    && w'.swaps == w.swaps + [Landed(run, run.base, run.desired)]
    && w'.seen == w.seen + {(run.target, run.desired)}
  }

  /**
   An executor touches a ref in exactly one way: it moves its own target from exactly its base to
   exactly its desired commit, which is another commit and exists with the frozen parent and tree;
   and, when the endpoint kept its contract, only when every object the run requires is held.
   */
  lemma ActRefs(honest: bool, w: World, e: ExecId, run: Run, phase: Phase, action: Action)
    requires PhaseHolds(honest, w, run, phase) && ActStep(w, e, run, phase, action).Some?
    ensures var w' := ActStep(w, e, run, phase, action).value;
      || RefsAlone(w, w')
      || (&& Lands(w, w', run) && action.Swap?
          && run.base != run.desired && Confirmed(w, run) && (honest ==> AllHeld(run, w.held)))
  {
  }

  lemma LandedExact(w: World, w': World, run: Run)
    ensures SwapsExact(w) && SeenAll(w) && Lands(w, w', run) && run.base != run.desired ==> SwapsExact(w') && SeenAll(w')
  {
  }

  // ---------- one step of any party ----------

  lemma ActKeeps(honest: bool, runs: map<RunId, Run>, w: World, e: ExecId, action: Action)
    requires Inv(honest, runs, w) && Next(runs, w, Act(e, action)).Some?
    requires honest ==> HonestAnswer(w, Act(e, action))
    ensures Inv(honest, runs, Next(runs, w, Act(e, action)).value)
  {
    hide ActStep, RunKnown, PhaseHolds, Grows, SwapsExact, SeenAll, Lands, Confirmed, AllHeld, LfsPointers.Answers;
    var run, phase := w.execs[e].run, w.execs[e].phase;
    var w' := Next(runs, w, Act(e, action)).value;
    assert ExecHolds(honest, runs, w, w.execs[e]);
    ActSteps(w, e, run, phase, action);
    ActPhase(honest, w, e, run, phase, action);
    ActRefs(honest, w, e, run, phase, action);
    OthersKeep(honest, runs, w, w', e);
    if RefsAlone(w, w') {
      AloneExact(w, w');
    } else {
      LandedExact(w, w', run);
    }
  }

  lemma AloneExact(w: World, w': World)
    ensures SwapsExact(w) && SeenAll(w) && RefsAlone(w, w') ==> SwapsExact(w') && SeenAll(w')
  {
  }

  /** One executor's entry is replaced by one that holds; the others keep what they had. */
  lemma OthersKeep(honest: bool, runs: map<RunId, Run>, w: World, w': World, e: ExecId)
    requires ExecsHold(honest, runs, w) && Grows(w, w')
    requires e in w'.execs && w'.execs == w.execs[e := w'.execs[e]] && ExecHolds(honest, runs, w', w'.execs[e])
    ensures ExecsHold(honest, runs, w')
  {
    hide ExecHolds, Grows;
    forall x | x in w'.execs ensures ExecHolds(honest, runs, w', w'.execs[x]) {
      if x != e {
        assert w'.execs[x] == w.execs[x];
        ExecKept(honest, runs, w, w', w.execs[x]);
      }
    }
  }

  lemma NoneActs(honest: bool, runs: map<RunId, Run>, w: World, w': World)
    requires ExecsHold(honest, runs, w) && Grows(w, w')
    requires forall x :: x in w'.execs ==> x in w.execs && w'.execs[x] == w.execs[x]
    ensures ExecsHold(honest, runs, w')
  {
    hide ExecHolds, Grows;
    forall x | x in w'.execs ensures ExecHolds(honest, runs, w', w'.execs[x]) {
      ExecKept(honest, runs, w, w', w.execs[x]);
    }
  }

  lemma StartKeeps(honest: bool, runs: map<RunId, Run>, w: World, e: ExecId, id: RunId)
    requires Inv(honest, runs, w) && e !in w.execs && id in runs
    ensures Inv(honest, runs, Goto(w, e, runs[id], Observing))
  {
    hide Grows, ExecsHold;
    var w' := Goto(w, e, runs[id], Observing);
    Same(w);
    GotoSteps(w, w, e, runs[id], Observing);
    assert RunKnown(runs, runs[id]);
    OthersKeep(honest, runs, w, w', e);
  }

  /** Every step of every party keeps the invariant; only the objects need an honest endpoint. */
  lemma StepKeeps(honest: bool, runs: map<RunId, Run>, w: World, s: Step)
    requires Inv(honest, runs, w) && Next(runs, w, s).Some?
    requires honest ==> HonestAnswer(w, s)
    ensures Inv(honest, runs, Next(runs, w, s).value)
  {
    hide ActStep, ExecsHold, Grows;
    var w' := Next(runs, w, s).value;
    match s
    case Act(e, action) => ActKeeps(honest, runs, w, e, action);
    case Start(e, id) => StartKeeps(honest, runs, w, e, id);
    case _ =>
      ForeignGrows(runs, w, s);
      NoneActs(honest, runs, w, w');
  }

  lemma ForeignGrows(runs: map<RunId, Run>, w: World, s: Step)
    ensures Next(runs, w, s).Some? && !s.Act? && !s.Start? ==> Grows(w, Next(runs, w, s).value)
  {
  }

  lemma {:induction false} BehaviourKeeps(honest: bool, runs: map<RunId, Run>, w: World, steps: seq<Step>)
    requires Inv(honest, runs, w) && Behave(runs, w, steps).Some?
    requires honest ==> HonestEndpoint(runs, w, steps)
    ensures Inv(honest, runs, Behave(runs, w, steps).value)
    decreases steps
  {
    hide Inv, Next, HonestAnswer;
    if steps != [] {
      StepKeeps(honest, runs, w, steps[0]);
      BehaviourKeeps(honest, runs, Next(runs, w, steps[0]).value, steps[1..]);
    }
  }

  /** A world no executor has touched yet. Its refs may name anything. */
  ghost predicate Init(w: World) {
    && w.execs == map[] && w.swaps == []
    && w.seen == (set t | t in w.refs :: (t, w.refs[t]))
  }

  lemma InitHolds(honest: bool, runs: map<RunId, Run>, w: World)
    ensures Init(w) ==> Inv(honest, runs, w)
  {
  }

  // ---------- what outcomes tell ----------

  /** What an outcome tells about refs and commits. */
  ghost predicate OutcomeMoved(w: World, run: Run, outcome: Outcome) {
    match outcome
    case RemoteChanged(expected, observed) => expected == run.base && observed != Some(run.desired)
    case AlreadyBackedUp(c) => c == run.desired && (run.target, c) in w.seen
    case BackedUp(c, _, _) => c == run.desired && (run.target, c) in w.seen && Confirmed(w, run)
  }

  /** What an outcome tells about the objects. */
  ghost predicate OutcomeHeld(w: World, run: Run, outcome: Outcome) {
    match outcome
    case RemoteChanged(_, _) => true
    case AlreadyBackedUp(_) => AllHeld(run, w.held)
    case BackedUp(_, uploaded, n) => AllHeld(run, w.held) && Accounted(run, uploaded, n)
  }

  /**
   What an outcome tells is true, from every world: a success was only reported for a ref that did
   hold the desired commit; and when the endpoint kept its contract, every object is present and
   the uploads reported partition the required objects.
   */
  lemma OutcomeIsTrue(runs: map<RunId, Run>, w: World, steps: seq<Step>, e: ExecId)
    requires Init(w) && Behave(runs, w, steps).Some?
    requires e in Behave(runs, w, steps).value.execs
    ensures var w' := Behave(runs, w, steps).value;
      var x := w'.execs[e];
      x.phase.Finished? && x.phase.result.Success? ==>
        && OutcomeMoved(w', x.run, x.phase.result.value)
        && (HonestEndpoint(runs, w, steps) ==> OutcomeHeld(w', x.run, x.phase.result.value))
  {
    hide Behave, Init, HonestEndpoint;
    var honest := HonestEndpoint(runs, w, steps);
    InitHolds(honest, runs, w);
    BehaviourKeeps(honest, runs, w, steps);
    var w' := Behave(runs, w, steps).value;
    assert ExecHolds(honest, runs, w', w'.execs[e]);
  }

  /** Every swap that ever landed moved its ref from exactly the frozen base to exactly the frozen commit. */
  lemma SwapsAreExact(runs: map<RunId, Run>, w: World, steps: seq<Step>, i: nat)
    requires Init(w) && Behave(runs, w, steps).Some?
    requires i < |Behave(runs, w, steps).value.swaps|
    ensures var s := Behave(runs, w, steps).value.swaps[i]; s.before == s.run.base && s.after == s.run.desired && s.before != s.after
  {
    InitHolds(false, runs, w);
    BehaviourKeeps(false, runs, w, steps);
  }

  // ---------- at most one swap lands ----------

  function SwapsOf(run: Run, swaps: seq<Landed>): nat {
    if swaps == [] then 0
    else SwapsOf(run, swaps[..|swaps| - 1]) + (if swaps[|swaps| - 1].run == run then 1 else 0)
  }

  /** Somebody put the ref back to the run's base. */
  ghost predicate Rewinds(w: World, w': World, run: Run) {
    Observed(w, run) != Some(run.base) && Observed(w', run) == Some(run.base)
  }

  ghost predicate NeverRewinds(runs: map<RunId, Run>, w: World, steps: seq<Step>, run: Run)
    decreases steps
  {
    steps != [] && Next(runs, w, steps[0]).Some? ==>
      var w' := Next(runs, w, steps[0]).value;
      !Rewinds(w, w', run) && NeverRewinds(runs, w', steps[1..], run)
  }

  ghost predicate SwappedOnce(w: World, run: Run) {
    SwapsOf(run, w.swaps) <= 1 && (SwapsOf(run, w.swaps) == 1 ==> Observed(w, run) != Some(run.base))
  }

  lemma SwapsOfPush(run: Run, swaps: seq<Landed>, s: Landed)
    ensures SwapsOf(run, swaps + [s]) == SwapsOf(run, swaps) + (if s.run == run then 1 else 0)
  {
    assert (swaps + [s])[..|swaps|] == swaps;
  }

  lemma StepSwapsOnce(runs: map<RunId, Run>, w: World, s: Step, run: Run)
    requires Inv(false, runs, w) && Next(runs, w, s).Some? && SwappedOnce(w, run)
    requires !Rewinds(w, Next(runs, w, s).value, run)
    ensures SwappedOnce(Next(runs, w, s).value, run)
  {
    hide ActStep, Steps, SwapsOf;
    var w' := Next(runs, w, s).value;
    if s.Act? {
      var x := w.execs[s.exec];
      assert ExecHolds(false, runs, w, x);
      ActRefs(false, w, s.exec, x.run, x.phase, s.action);
      SwapsOfPush(run, w.swaps, Landed(x.run, x.run.base, x.run.desired));
    }
  }

  lemma {:induction false} BehaviourSwapsOnce(runs: map<RunId, Run>, w: World, steps: seq<Step>, run: Run)
    requires Inv(false, runs, w) && SwappedOnce(w, run)
    requires Behave(runs, w, steps).Some? && NeverRewinds(runs, w, steps, run)
    ensures SwappedOnce(Behave(runs, w, steps).value, run)
    decreases steps
  {
    hide Inv, Next, SwappedOnce, Rewinds;
    if steps != [] {
      StepKeeps(false, runs, w, steps[0]);
      StepSwapsOnce(runs, w, steps[0], run);
      BehaviourSwapsOnce(runs, Next(runs, w, steps[0]).value, steps[1..], run);
    }
  }

  /** Unless somebody rewinds the ref to its base, at most one swap of a run ever lands, however many executors race or resume. */
  lemma AtMostOneSwap(runs: map<RunId, Run>, w: World, steps: seq<Step>, run: Run)
    requires Init(w)
    requires Behave(runs, w, steps).Some? && NeverRewinds(runs, w, steps, run)
    ensures SwapsOf(run, Behave(runs, w, steps).value.swaps) <= 1
  {
    hide Behave, Next;
    InitHolds(false, runs, w);
    BehaviourSwapsOnce(runs, w, steps, run);
  }

  // ---------- the ref never names an incomplete backup ----------

  /** As far as the object database knows, the run's commit is the one its specification describes. */
  ghost predicate Agrees(w: World, run: Run) {
    run.desired in w.commits ==> w.commits[run.desired] == Facts(run.base, run.tree)
  }

  /** If the run's ref names the run's commit, every object the run requires is held. */
  ghost predicate Restorable(w: World, run: Run) {
    Observed(w, run) == Some(run.desired) && Agrees(w, run) ==> AllHeld(run, w.held)
  }

  /** Another run for the same ref, whose commit has the same name, parent and tree. */
  predicate Sibling(run: Run, other: Run) {
    other.target == run.target && other.desired == run.desired && other.base == run.base && other.tree == run.tree
  }

  /** The runs that freeze the same commit require the run's objects too. */
  ghost predicate SiblingsAgree(runs: map<RunId, Run>, run: Run) {
    forall id :: id in runs && Sibling(run, runs[id]) ==> forall o :: o in run.Required() ==> o in runs[id].Required()
  }

  lemma RestorableKept(w: World, w': World, run: Run)
    ensures Restorable(w, run) && Grows(w, w') && Observed(w', run) == Observed(w, run) ==> Restorable(w', run)
  {
  }

  lemma LandedRestorable(runs: map<RunId, Run>, w: World, w': World, run: Run, mover: Run)
    requires SiblingsAgree(runs, run) && RunKnown(runs, mover) && Restorable(w, run) && Grows(w, w')
    requires Lands(w, w', mover) && Confirmed(w, mover) && AllHeld(mover, w.held)
    ensures Restorable(w', run)
  {
    if mover.target != run.target {
      RestorableKept(w, w', run);
    } else if mover.desired == run.desired && Agrees(w', run) {
      var id :| id in runs && runs[id] == mover;
      assert Sibling(run, runs[id]);
    }
  }

  lemma StepRestorable(runs: map<RunId, Run>, w: World, s: Step, run: Run)
    requires Inv(true, runs, w) && SiblingsAgree(runs, run) && Restorable(w, run)
    requires Next(runs, w, s).Some? && HonestAnswer(w, s) && !Plants(w, s, run)
    ensures Restorable(Next(runs, w, s).value, run)
  {
    hide ActStep, Grows, SiblingsAgree, PhaseHolds, LfsPointers.Answers;
    var w' := Next(runs, w, s).value;
    match s
    case Act(e, action) =>
      var x := w.execs[e];
      assert ExecHolds(true, runs, w, x);
      ActSteps(w, e, x.run, x.phase, action);
      ActRefs(true, w, e, x.run, x.phase, action);
      if RefsAlone(w, w') {
        RestorableKept(w, w', run);
      } else {
        LandedRestorable(runs, w, w', run, x.run);
      }
    case Start(e, id) =>
      Same(w);
      GotoSteps(w, w, e, runs[id], Observing);
      RestorableKept(w, w', run);
    case ForeignWrite(_, _) =>
      ForeignGrows(runs, w, s);
      ForeignRestorable(runs, w, s, run);
    case _ =>
      ForeignGrows(runs, w, s);
      RestorableKept(w, w', run);
  }

  lemma ForeignRestorable(runs: map<RunId, Run>, w: World, s: Step, run: Run)
    ensures s.ForeignWrite? && Restorable(w, run) && !Plants(w, s, run) ==> Restorable(Next(runs, w, s).value, run)
  {
  }

  /**
   Safety over all interleavings, for one run: however its ref came to name its commit, every LFS
   object the run requires is present, so the backup the ref names can be restored. It needs an
   endpoint that keeps its contract, a start and foreign writers that keep the promise for this one
   run, and that the runs freezing the same commit require the same objects, which
   `BackupSafety` derives from the commit's tree.
   */
  lemma {:induction false} RefStaysRestorable(runs: map<RunId, Run>, w: World, steps: seq<Step>, run: Run)
    requires Inv(true, runs, w) && SiblingsAgree(runs, run) && Restorable(w, run)
    requires Behave(runs, w, steps).Some? && HonestEndpoint(runs, w, steps) && NeverPlants(runs, w, steps, run)
    ensures Restorable(Behave(runs, w, steps).value, run)
    decreases steps
  {
    hide Inv, Next, HonestAnswer, SiblingsAgree, Restorable, Plants;
    if steps != [] {
      StepKeeps(true, runs, w, steps[0]);
      StepRestorable(runs, w, steps[0], run);
      RefStaysRestorable(runs, Next(runs, w, steps[0]).value, steps[1..], run);
    }
  }
}
