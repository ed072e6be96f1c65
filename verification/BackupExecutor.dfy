/**
 `execute_backup` itself (`backup/execute.rs`), run against ports that an adversary answers and
 interferes with before every call. Each port call is one step of the protocol machine, so the
 code's every execution is a behaviour of the machine and inherits its theorems. An executor that
 dies between two calls leaves a prefix of such a behaviour, which is a behaviour as well.
 */
module BackupExecutor {
  import opened Wrappers
  import opened LfsPointers
  import opened BackupProtocol

  /** What happens around one port call: the other parties' moves before it, and its answer. */
  datatype Turn = Turn(
    moves: seq<Step>, fails: bool, plan: LfsPlan, tree: Tree, oid: Commit,
    reply: UploadReply, stored: bool, moved: bool, answer: SwapReply)

  predicate Within(script: seq<Turn>, whole: seq<Turn>) {
    forall t :: t in script ==> t in whole
  }

  predicate Breaks(t: Turn, port: Port, run: Run, world: World) {
    || t.fails || t.reply == UploadRefused(port) || t.answer.SwapFailed?
    || (t.oid in world.commits && world.commits[t.oid] != Facts(run.base, run.tree))
  }

  /**
   An error is somebody's answer, never the executor's own: `turns` holds the answer it comes from,
   or the commit database shows it. Once nobody answers any more (`left`), every call fails.
   */
  ghost predicate Caused(error: ExecError, run: Run, turns: seq<Turn>, world: World, left: seq<Turn>) {
    match error
    case PortFailed(port) => left == [] || exists t :: t in turns && Breaks(t, port, run, world)
    case SourceBlobMissing(_) => left == [] || exists t :: t in turns && t.reply.BlobMissing?
    case CommitFactsMismatch(c) => c == run.desired && c in world.commits && world.commits[c] != Facts(run.base, run.tree)
    case MaterializedTreeMismatch(frozen, tree) => frozen == run.tree != tree && exists t :: t in turns && t.tree == tree
    case RebuiltCommitMismatch(frozen, oid) => frozen == run.desired != oid && exists t :: t in turns && t.oid == oid
    case LfsObjectsMissing(missing) => missing != [] && exists t :: t in turns && t.plan.missing == missing
    case UnknownRun(_) => false
  }

  /** The ref remote, the object database and the LFS endpoint, under an arbitrary script. */
  class Ports {
    const runs: map<RunId, Run>
    var world: World
    var script: seq<Turn>
    ghost const start: World
    ghost var trace: seq<Step>

    /** Everything that happened is a behaviour of the machine. */
    ghost predicate Valid()
      reads this
    {
      Behave(runs, start, trace) == Some(world)
    }

    constructor (runs: map<RunId, Run>, world: World, script: seq<Turn>)
      ensures Valid() && this.runs == runs && this.world == world && start == world && trace == []
    {
      this.runs, this.world, this.script, start, trace := runs, world, script, world, [];
    }

    method Perform(s: Step)
      requires Valid() && Next(runs, world, s).Some?
      modifies this`world, this`trace
      ensures Valid() && trace == old(trace) + [s] && Some(world) == Next(runs, old(world), s)
    {
      BehaveAppend(runs, start, trace, [s]);
      world := Next(runs, world, s).value;
      trace := trace + [s];
      assert [s][1..] == [];
    }

    /** The other parties move, as far as their moves are possible; nobody else acts as executor `e`. */
    method Interfere(e: ExecId) returns (turn: Turn)
      requires Valid()
      modifies this
      ensures Valid() && old(trace) <= trace
      ensures e in world.execs <==> e in old(world.execs)
      ensures e in world.execs ==> world.execs[e] == old(world.execs[e])
      ensures Within(script, old(script)) && (turn in old(script) || (old(script) == script == [] && turn.fails && turn.reply.BlobMissing? && turn.answer.SwapFailed?))
    {
      if script == [] {
        return Turn([], true, LfsPlan([], []), "", "", BlobMissing, false, false, SwapFailed);
      }
      turn, script := script[0], script[1..];
      for i := 0 to |turn.moves|
        invariant Valid() && old(trace) <= trace
        invariant e in world.execs <==> e in old(world.execs)
        invariant e in world.execs ==> world.execs[e] == old(world.execs[e])
        invariant script == old(script)[1..] && turn == old(script)[0]
      {
        var move := turn.moves[i];
        var mine := match move
                    case Start(x, _) => x == e
                    case Act(x, _) => x == e
                    case Crash(x) => x == e
                    case _ => false;
        if !mine && Next(runs, world, move).Some? {
          OthersMove(runs, world, move, e);
          Perform(move);
        }
      }
    }

    predicate At(e: ExecId, run: Run, phase: Phase)
      reads this
    {
      e in world.execs && world.execs[e] == Exec(run, phase)
    }

    /** `store.get`: an executor exists once it knows its run. */
    method GetRun(e: ExecId, id: RunId) returns (r: Result<Option<Run>, ExecError>)
      requires Valid() && e !in world.execs
      modifies this
      ensures Valid() && old(trace) <= trace
      ensures Within(script, old(script)) && (r.Failure? ==> script == [] || exists t :: t in old(script) && t.fails)
      ensures r.Failure? ==> r.error == PortFailed(StorePort) && e !in world.execs
      ensures r == Success(None) ==> id !in runs && e !in world.execs
      ensures r.Success? && r.value.Some? ==> id in runs && r.value.value == runs[id] && At(e, runs[id], Observing)
    {
      var turn := Interfere(e);
      if turn.fails {
        return Failure(PortFailed(StorePort));
      }
      if id !in runs {
        return Success(None);
      }
      r := Success(Some(runs[id]));
      Perform(Start(e, id));
    }

    method ObserveRef(e: ExecId, run: Run, phase: Phase) returns (r: Result<Option<Commit>, ExecError>)
      requires Valid() && At(e, run, phase) && (phase.Observing? || phase.Reobserving?)
      modifies this
      ensures Valid() && old(trace) <= trace
      ensures Within(script, old(script)) && (r.Failure? ==> Caused(r.error, run, old(script), world, script))
      ensures r.Failure? ==> At(e, run, Finished(Failure(r.error)))
      ensures r.Success? ==> At(e, run, if phase.Observing? then AfterObserve(run, r.value) else AfterReobserve(run, r.value))
    {
      var turn := Interfere(e);
      if turn.fails {
        Perform(Act(e, Fail(RemotePort)));
        return Failure(PortFailed(RemotePort));
      }
      r := Success(Observed(world, run));
      Perform(Act(e, Observe));
    }

    /** `prepare_upload`: whatever the endpoint answers is taken for an answer. */
    method PrepareUpload(e: ExecId, run: Run, phase: Phase) returns (r: Result<LfsPlan, ExecError>)
      requires Valid() && At(e, run, phase) && (phase.ConfirmingLanded? || phase.Planning? || phase.Gating?)
      modifies this
      ensures Valid() && old(trace) <= trace
      ensures Within(script, old(script)) && (r.Failure? ==> Caused(r.error, run, old(script), world, script))
      ensures r.Failure? ==> At(e, run, Finished(Failure(r.error)))
      ensures r.Success? ==> exists t :: t in old(script) && t.plan == r.value
      ensures r.Success? ==> AfterAsk(run, phase, r.value).Some? && At(e, run, AfterAsk(run, phase, r.value).value)
    {
      var turn := Interfere(e);
      if turn.fails {
        Perform(Act(e, Fail(LfsPort)));
        return Failure(PortFailed(LfsPort));
      }
      r := Success(turn.plan);
      Perform(Act(e, Ask(turn.plan)));
    }

    method InspectCommit(e: ExecId, run: Run) returns (r: Result<Option<Facts>, ExecError>)
      requires Valid() && At(e, run, Inspecting)
      modifies this
      ensures Valid() && old(trace) <= trace
      ensures Within(script, old(script)) && (r.Failure? ==> Caused(r.error, run, old(script), world, script))
      ensures r.Failure? ==> At(e, run, Finished(Failure(r.error)))
      ensures r == Success(None) ==> At(e, run, Materializing)
      ensures r.Success? && r.value.Some? ==> run.desired in world.commits && world.commits[run.desired] == r.value.value
      ensures r.Success? && r.value.Some? ==>
        At(e, run, if r.value.value == Facts(run.base, run.tree) then Planning else Finished(Failure(CommitFactsMismatch(run.desired))))
    {
      var turn := Interfere(e);
      if turn.fails {
        Perform(Act(e, Fail(RepositoryPort)));
        return Failure(PortFailed(RepositoryPort));
      }
      r := Success(if run.desired in world.commits then Some(world.commits[run.desired]) else None);
      Perform(Act(e, Inspect));
    }

    method MaterializeBackup(e: ExecId, run: Run) returns (r: Result<Tree, ExecError>)
      requires Valid() && At(e, run, Materializing)
      modifies this
      ensures Valid() && old(trace) <= trace
      ensures Within(script, old(script)) && (r.Failure? ==> Caused(r.error, run, old(script), world, script))
      ensures r.Failure? ==> At(e, run, Finished(Failure(r.error)))
      ensures r.Success? ==> exists t :: t in old(script) && t.tree == r.value
      ensures r.Success? ==>
        At(e, run, if r.value == run.tree then Creating else Finished(Failure(MaterializedTreeMismatch(run.tree, r.value))))
    {
      var turn := Interfere(e);
      if turn.fails {
        Perform(Act(e, Fail(RepositoryPort)));
        return Failure(PortFailed(RepositoryPort));
      }
      r := Success(turn.tree);
      Perform(Act(e, Materialize(turn.tree)));
    }

    /** `create_commit`: object identities are never reused for other facts. */
    method CreateCommit(e: ExecId, run: Run) returns (r: Result<Commit, ExecError>)
      requires Valid() && At(e, run, Creating)
      modifies this
      ensures Valid() && old(trace) <= trace
      ensures Within(script, old(script)) && (r.Failure? ==> Caused(r.error, run, old(script), world, script))
      ensures r.Failure? ==> At(e, run, Finished(Failure(r.error)))
      ensures r.Success? ==> exists t :: t in old(script) && t.oid == r.value
      ensures r.Success? ==>
        At(e, run, if r.value == run.desired then Planning else Finished(Failure(RebuiltCommitMismatch(run.desired, r.value))))
    {
      var turn := Interfere(e);
      if turn.fails || Next(runs, world, Act(e, Create(turn.oid))).None? {
        Perform(Act(e, Fail(RepositoryPort)));
        return Failure(PortFailed(RepositoryPort));
      }
      r := Success(turn.oid);
      Perform(Act(e, Create(turn.oid)));
    }

    /** `blobs.open`, `lfs.upload` and `lfs.verify` for one missing object. */
    method UploadObject(e: ExecId, run: Run, plan: LfsPlan, done: nat) returns (r: Result<(), ExecError>)
      requires Valid() && At(e, run, Uploading(plan, done)) && done < |plan.missing|
      modifies this
      ensures Valid() && old(trace) <= trace
      ensures Within(script, old(script)) && (r.Failure? ==> Caused(r.error, run, old(script), world, script))
      ensures r.Failure? ==> At(e, run, Finished(Failure(r.error)))
      ensures r.Success? ==> At(e, run, NextUpload(plan, done + 1))
    {
      var turn := Interfere(e);
      var stored := turn.stored && !turn.reply.BlobMissing?;
      Perform(Act(e, Upload(turn.reply, stored)));
      match turn.reply {
        case BlobMissing => return Failure(SourceBlobMissing(plan.missing[done]));
        case UploadRefused(port) => return Failure(PortFailed(port));
        case Uploaded => return Success(());
      }
    }

    /** `compare_and_swap`: the answer may be lost after the swap has landed. */
    method CompareAndSwap(e: ExecId, run: Run, plan: LfsPlan) returns (r: Result<SwapReply, ExecError>)
      requires Valid() && At(e, run, Swapping(plan))
      modifies this
      ensures Valid() && old(trace) <= trace
      ensures Within(script, old(script)) && (r.Failure? ==> Caused(r.error, run, old(script), world, script))
      ensures r.Failure? ==> At(e, run, Finished(Failure(r.error)))
      ensures r.Success? ==> match r.value
        case Updated => At(e, run, Finished(Success(BackedUp(run.desired, plan.missing, |plan.present|))))
        case Rejected => At(e, run, Reobserving)
        case SwapFailed => false
    {
      var turn := Interfere(e);
      var moved := turn.moved && Observed(world, run) == Some(run.base);
      var answer := if turn.answer.Updated? && !moved then Rejected else turn.answer;
      Perform(Act(e, Swap(moved, answer)));
      if answer.SwapFailed? {
        return Failure(PortFailed(RemotePort));
      }
      r := Success(answer);
    }
  }

  lemma OthersMove(runs: map<RunId, Run>, w: World, move: Step, e: ExecId)
    requires Next(runs, w, move).Some?
    requires move.Start? || move.Act? || move.Crash? ==> move.exec != e
    ensures var w' := Next(runs, w, move).value;
      && (e in w'.execs <==> e in w.execs)
      && (e in w.execs ==> w'.execs[e] == w.execs[e])
  {
    if move.Act? {
      ActSteps(w, move.exec, w.execs[move.exec].run, w.execs[move.exec].phase, move.action);
    }
  }

  /** `ensure_commit`: the frozen commit exists with the frozen parent and tree, or is rebuilt. */
  method EnsureCommit(ports: Ports, e: ExecId, run: Run) returns (r: Result<(), ExecError>)
    requires ports.Valid() && ports.At(e, run, Inspecting)
    modifies ports
    ensures ports.Valid() && old(ports.trace) <= ports.trace
    ensures Within(ports.script, old(ports.script)) && (r.Failure? ==> Caused(r.error, run, old(ports.script), ports.world, ports.script))
    ensures r.Failure? ==> ports.At(e, run, Finished(Failure(r.error)))
    ensures r.Success? ==> ports.At(e, run, Planning)
  {
    var inspected := ports.InspectCommit(e, run);
    if inspected.Failure? {
      return Failure(inspected.error);
    }
    if inspected.value.Some? {
      if inspected.value.value.parent != run.base || inspected.value.value.tree != run.tree {
        return Failure(CommitFactsMismatch(run.desired));
      }
      return Success(());
    }
    var tree := ports.MaterializeBackup(e, run);
    if tree.Failure? {
      return Failure(tree.error);
    }
    if tree.value != run.tree {
      return Failure(MaterializedTreeMismatch(run.tree, tree.value));
    }
    var rebuilt := ports.CreateCommit(e, run);
    if rebuilt.Failure? {
      return Failure(rebuilt.error);
    }
    if rebuilt.value != run.desired {
      return Failure(RebuiltCommitMismatch(run.desired, rebuilt.value));
    }
    r := Success(());
  }

  /** `require_lfs_complete`: ask again, and refuse while anything is missing. */
  method RequireLfsComplete(ports: Ports, e: ExecId, run: Run, phase: Phase) returns (r: Result<(), ExecError>)
    requires ports.Valid() && ports.At(e, run, phase) && (phase.ConfirmingLanded? || phase.Gating?)
    modifies ports
    ensures ports.Valid() && old(ports.trace) <= ports.trace
    ensures Within(ports.script, old(ports.script)) && (r.Failure? ==> Caused(r.error, run, old(ports.script), ports.world, ports.script))
    ensures r.Failure? ==> ports.At(e, run, Finished(Failure(r.error)))
    ensures r.Success? ==> ports.At(e, run, if phase.Gating? then Swapping(phase.plan) else Finished(Success(AlreadyBackedUp(run.desired))))
  {
    var plan := ports.PrepareUpload(e, run, phase);
    if plan.Failure? {
      return Failure(plan.error);
    }
    if plan.value.IsComplete() {
      return Success(());
    }
    r := Failure(LfsObjectsMissing(plan.value.missing));
  }

  /** Streams the missing objects one by one, collecting what was uploaded. */
  method UploadMissing(ports: Ports, e: ExecId, run: Run, plan: LfsPlan) returns (r: Result<seq<RequiredLfsObject>, ExecError>)
    requires ports.Valid() && ports.At(e, run, NextUpload(plan, 0))
    modifies ports
    ensures ports.Valid() && old(ports.trace) <= ports.trace
    ensures Within(ports.script, old(ports.script)) && (r.Failure? ==> Caused(r.error, run, old(ports.script), ports.world, ports.script))
    ensures r.Failure? ==> ports.At(e, run, Finished(Failure(r.error)))
    ensures r.Success? ==> r.value == plan.missing && ports.At(e, run, Gating(plan))
  {
    var uploaded: seq<RequiredLfsObject> := [];
    for i := 0 to |plan.missing|
      invariant ports.Valid() && old(ports.trace) <= ports.trace && Within(ports.script, old(ports.script))
      invariant uploaded == plan.missing[..i] && ports.At(e, run, NextUpload(plan, i))
    {
      var done := ports.UploadObject(e, run, plan, i);
      if done.Failure? {
        return Failure(done.error);
      }
      uploaded := uploaded + [plan.missing[i]];
    }
    r := Success(uploaded);
  }

  /** The exact compare-and-swap, last; after a rejected one, a fresh observation. */
  method SwapRef(ports: Ports, e: ExecId, run: Run, plan: LfsPlan, uploaded: seq<RequiredLfsObject>)
    returns (r: Result<Outcome, ExecError>)
    requires ports.Valid() && ports.At(e, run, Swapping(plan)) && uploaded == plan.missing
    modifies ports
    ensures ports.Valid() && old(ports.trace) <= ports.trace
    ensures Within(ports.script, old(ports.script)) && (r.Failure? ==> Caused(r.error, run, old(ports.script), ports.world, ports.script))
    ensures ports.At(e, run, Finished(r))
  {
    var swapped := ports.CompareAndSwap(e, run, plan);
    if swapped.Failure? {
      return Failure(swapped.error);
    }
    if swapped.value.Updated? {
      return Success(BackedUp(run.desired, uploaded, |plan.present|));
    }
    var again := ports.ObserveRef(e, run, Reobserving);
    if again.Failure? {
      return Failure(again.error);
    }
    if again.value == Some(run.desired) {
      return Success(AlreadyBackedUp(run.desired));
    }
    r := Success(RemoteChanged(run.base, again.value));
  }

  /** How a call ends: its executor finished with the result, or the run could not be had at all. */
  predicate Ends(ports: Ports, e: ExecId, id: RunId, r: Result<Outcome, ExecError>)
    reads ports
  {
    || (id in ports.runs && ports.At(e, ports.runs[id], Finished(r)))
    || (e !in ports.world.execs && (r == Failure(PortFailed(StorePort)) || (id !in ports.runs && r == Failure(UnknownRun(id)))))
  }

  /**
   `execute_backup`: whatever the ports answer and whoever interferes, the call performs only steps
   of the machine, and what it returns is exactly what the machine's executor finished with.
   */
  method ExecuteBackup(ports: Ports, e: ExecId, id: RunId) returns (r: Result<Outcome, ExecError>)
    requires ports.Valid() && e !in ports.world.execs
    modifies ports
    ensures ports.Valid() && old(ports.trace) <= ports.trace
    ensures Within(ports.script, old(ports.script)) && Ends(ports, e, id, r)
    ensures r.Failure? && id in ports.runs ==> Caused(r.error, ports.runs[id], old(ports.script), ports.world, ports.script)
  {
    hide Behave, Next, ActStep, NextUpload;
    var stored := ports.GetRun(e, id);
    if stored.Failure? {
      return Failure(stored.error);
    }
    if stored.value.None? {
      return Failure(UnknownRun(id));
    }
    var run := stored.value.value;

    var observed := ports.ObserveRef(e, run, Observing);
    if observed.Failure? {
      return Failure(observed.error);
    }
    if observed.value == Some(run.desired) {
      var complete := RequireLfsComplete(ports, e, run, ConfirmingLanded);
      if complete.Failure? {
        return Failure(complete.error);
      }
      return Success(AlreadyBackedUp(run.desired));
    }
    if observed.value != Some(run.base) {
      return Success(RemoteChanged(run.base, observed.value));
    }

    var ensured := EnsureCommit(ports, e, run);
    if ensured.Failure? {
      return Failure(ensured.error);
    }

    var plan := ports.PrepareUpload(e, run, Planning);
    if plan.Failure? {
      return Failure(plan.error);
    }
    var uploaded := UploadMissing(ports, e, run, plan.value);
    if uploaded.Failure? {
      return Failure(uploaded.error);
    }

    var gate := RequireLfsComplete(ports, e, run, Gating(plan.value));
    if gate.Failure? {
      return Failure(gate.error);
    }

    r := SwapRef(ports, e, run, plan.value, uploaded.value);
  }

  /**
   The safety claim about the code: run it against any ports, under any interference, from any
   world no executor touched, with refs that may name anything. What happened is a behaviour of the
   machine; a reported success is true, of the objects too when the endpoint kept its contract; and
   every run whose ref was restorable, and whose commit nobody planted, still is restorable.
   */
  method SafeExecution(runs: map<RunId, Run>, world: World, script: seq<Turn>, e: ExecId, id: RunId)
    returns (r: Result<Outcome, ExecError>, after: World, ghost steps: seq<Step>)
    requires Init(world)
    ensures Behave(runs, world, steps) == Some(after)
    ensures r.Success? ==> id in runs && OutcomeMoved(after, runs[id], r.value)
    ensures r.Success? && HonestEndpoint(runs, world, steps) ==> OutcomeHeld(after, runs[id], r.value)
    ensures HonestEndpoint(runs, world, steps) ==>
      forall run :: SiblingsAgree(runs, run) && Restorable(world, run) && NeverPlants(runs, world, steps, run) ==> Restorable(after, run)
  {
    hide Behave, HonestEndpoint, NeverPlants, SiblingsAgree, Restorable, OutcomeMoved, OutcomeHeld, Inv;
    var ports := new Ports(runs, world, script);
    r := ExecuteBackup(ports, e, id);
    after, steps := ports.world, ports.trace;
    if r.Success? {
      OutcomeIsTrue(runs, world, steps, e);
    }
    InitHolds(true, runs, world);
    if HonestEndpoint(runs, world, steps) {
      forall run | SiblingsAgree(runs, run) && Restorable(world, run) && NeverPlants(runs, world, steps, run)
        ensures Restorable(after, run)
      {
        RefStaysRestorable(runs, world, steps, run);
      }
    }
  }
}
