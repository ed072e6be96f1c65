/** How the executions of a backup end. */
module BackupOutcomes {
  import opened Wrappers
  import opened LfsPointers
  import opened BackupProtocol
  import opened BackupLanding

  /** The executor finished its run with `r`; apart from that the world is `w`. */
  ghost predicate EndsWith(w: World, after: Option<World>, e: ExecId, run: Run, r: Result<Outcome, ExecError>) {
    after == Some(w.(execs := w.execs[e := Exec(run, Finished(r))]))
  }

  ghost predicate Startable(runs: map<RunId, Run>, w: World, e: ExecId, id: RunId) {
    id in runs && e !in w.execs
  }

  /** The run's ref stands at `c`. */
  ghost predicate RefAt(w: World, run: Run, c: Commit) {
    run.target in w.refs && w.refs[run.target] == c
  }

  /** The world after the run's swap has landed. */
  ghost function Moved(w: World, run: Run): World {
    w.(refs := w.refs[run.target := run.desired], seen := w.seen + {(run.target, run.desired)},
       swaps := w.swaps + [Landed(run, run.base, run.desired)])
  }

  lemma Two(runs: map<RunId, Run>, w: World, a: Step, b: Step)
    ensures Behave(runs, w, [a, b]) ==
      match Next(runs, w, a) case None => None case Some(w1) => Next(runs, w1, b)
  {
    BehaveCons(runs, w, a, [b]);
    if Next(runs, w, a).Some? {
      BehaveCons(runs, Next(runs, w, a).value, b, []);
    }
  }

  lemma Three(runs: map<RunId, Run>, w: World, a: Step, b: Step, c: Step)
    ensures Behave(runs, w, [a, b, c]) ==
      match Next(runs, w, a) case None => None case Some(w1) => Behave(runs, w1, [b, c])
  {
    hide Next;
    assert [a] + [b, c] == [a, b, c];
    BehaveCons(runs, w, a, [b, c]);
  }

  // ---------- what the first observation decides ----------

  /**
   A ref that already names the frozen commit is never uploaded to or swapped again: the run is
   reported as backed up exactly if the endpoint reports nothing missing, and refused with the
   objects it reports otherwise.
   */
  lemma LandedRunIsConfirmed(runs: map<RunId, Run>, w: World, e: ExecId, id: RunId, plan: LfsPlan)
    requires Startable(runs, w, e, id) && RefAt(w, runs[id], runs[id].desired)
    ensures EndsWith(w, Behave(runs, w, [Start(e, id), Act(e, Observe), Act(e, Ask(plan))]), e, runs[id],
                     if plan.missing == [] then Success(AlreadyBackedUp(runs[id].desired)) else Failure(LfsObjectsMissing(plan.missing)))
  {
    hide Behave;
    var run := runs[id];
    Three(runs, w, Start(e, id), Act(e, Observe), Act(e, Ask(plan)));
    Two(runs, Goto(w, e, run, Observing), Act(e, Observe), Act(e, Ask(plan)));
    GotoTwice(w, e, run, Observing, ConfirmingLanded);
    GotoTwice(w, e, run, ConfirmingLanded, AfterAsk(run, ConfirmingLanded, plan).value);
  }

  /** A ref that names neither the base nor the frozen commit is left alone and reported. */
  lemma DivergedRunStops(runs: map<RunId, Run>, w: World, e: ExecId, id: RunId)
    requires Startable(runs, w, e, id) && !RefAt(w, runs[id], runs[id].base) && !RefAt(w, runs[id], runs[id].desired)
    ensures EndsWith(w, Behave(runs, w, [Start(e, id), Act(e, Observe)]), e, runs[id],
                     Success(RemoteChanged(runs[id].base, if runs[id].target in w.refs then Some(w.refs[runs[id].target]) else None)))
  {
    hide Behave;
    var run := runs[id];
    Two(runs, w, Start(e, id), Act(e, Observe));
    GotoTwice(w, e, run, Observing, AfterObserve(run, Observed(w, run)));
  }

  // ---------- what the commit decides ----------

  /** A commit of the frozen name with another parent or tree is never trusted. */
  lemma OtherCommitIsRefused(runs: map<RunId, Run>, w: World, e: ExecId, id: RunId)
    requires Startable(runs, w, e, id) && RefAt(w, runs[id], runs[id].base) && runs[id].base != runs[id].desired
    requires runs[id].desired in w.commits && w.commits[runs[id].desired] != Facts(runs[id].base, runs[id].tree)
    ensures EndsWith(w, Behave(runs, w, [Start(e, id), Act(e, Observe), Act(e, Inspect)]), e, runs[id],
                     Failure(CommitFactsMismatch(runs[id].desired)))
  {
    hide Behave;
    var run := runs[id];
    Three(runs, w, Start(e, id), Act(e, Observe), Act(e, Inspect));
    Two(runs, Goto(w, e, run, Observing), Act(e, Observe), Act(e, Inspect));
    GotoTwice(w, e, run, Observing, Inspecting);
    GotoTwice(w, e, run, Inspecting, AfterInspect(w, run));
  }

  /** Observing a ref at its base and finding the frozen commit missing. */
  function Rebuild(e: ExecId, id: RunId, tree: Tree, rest: seq<Step>): seq<Step> {
    [Start(e, id)] + ([Act(e, Observe)] + ([Act(e, Inspect)] + ([Act(e, Materialize(tree))] + rest)))
  }

  ghost predicate Unbuilt(runs: map<RunId, Run>, w: World, e: ExecId, id: RunId) {
    Startable(runs, w, e, id) && RefAt(w, runs[id], runs[id].base) && runs[id].base != runs[id].desired && runs[id].desired !in w.commits
  }

  lemma Rebuilding(runs: map<RunId, Run>, w: World, e: ExecId, id: RunId, tree: Tree, rest: seq<Step>)
    requires Unbuilt(runs, w, e, id)
    ensures Behave(runs, w, Rebuild(e, id, tree, rest)) == Behave(runs,
      Goto(w, e, runs[id], if tree == runs[id].tree then Creating else Finished(Failure(MaterializedTreeMismatch(runs[id].tree, tree)))), rest)
  {
    hide Behave;
    var run := runs[id];
    BehaveCons(runs, w, Start(e, id), [Act(e, Observe)] + ([Act(e, Inspect)] + ([Act(e, Materialize(tree))] + rest)));
    BehaveCons(runs, Goto(w, e, run, Observing), Act(e, Observe), [Act(e, Inspect)] + ([Act(e, Materialize(tree))] + rest));
    GotoTwice(w, e, run, Observing, Inspecting);
    BehaveCons(runs, Goto(w, e, run, Inspecting), Act(e, Inspect), [Act(e, Materialize(tree))] + rest);
    GotoTwice(w, e, run, Inspecting, Materializing);
    BehaveCons(runs, Goto(w, e, run, Materializing), Act(e, Materialize(tree)), rest);
    GotoTwice(w, e, run, Materializing, Creating);
    GotoTwice(w, e, run, Materializing, Finished(Failure(MaterializedTreeMismatch(run.tree, tree))));
  }

  lemma Creation(runs: map<RunId, Run>, w: World, e: ExecId, run: Run, oid: Commit)
    requires oid in w.commits ==> w.commits[oid] == Facts(run.base, run.tree)
    ensures Next(runs, Goto(w, e, run, Creating), Act(e, Create(oid))) == Some(
      Goto(w.(commits := w.commits[oid := Facts(run.base, run.tree)]), e, run,
           if oid == run.desired then Planning else Finished(Failure(RebuiltCommitMismatch(run.desired, oid)))))
  {
    var w' := w.(commits := w.commits[oid := Facts(run.base, run.tree)]);
    GotoTwice(w', e, run, Creating, Planning);
    GotoTwice(w', e, run, Creating, Finished(Failure(RebuiltCommitMismatch(run.desired, oid))));
  }

  /**
   A missing commit is rebuilt from the frozen delivery, and the rebuilt tree and commit must be
   the frozen ones: another tree or another commit stops the run and moves no ref.
   */
  lemma WrongRebuildIsRefused(runs: map<RunId, Run>, w: World, e: ExecId, id: RunId, tree: Tree, oid: Commit)
    requires Unbuilt(runs, w, e, id) && (oid in w.commits ==> w.commits[oid] == Facts(runs[id].base, runs[id].tree))
    ensures tree != runs[id].tree ==>
      EndsWith(w, Behave(runs, w, Rebuild(e, id, tree, [])), e, runs[id], Failure(MaterializedTreeMismatch(runs[id].tree, tree)))
    ensures oid != runs[id].desired ==>
      EndsWith(w.(commits := w.commits[oid := Facts(runs[id].base, runs[id].tree)]),
               Behave(runs, w, Rebuild(e, id, runs[id].tree, [Act(e, Create(oid))] + [])), e, runs[id],
               Failure(RebuiltCommitMismatch(runs[id].desired, oid)))
  {
    hide Behave, Rebuild, Next;
    var run := runs[id];
    Rebuilding(runs, w, e, id, tree, []);
    Rebuilding(runs, w, e, id, run.tree, [Act(e, Create(oid))] + []);
    BehaveNothing(runs, Goto(w, e, run, Finished(Failure(MaterializedTreeMismatch(run.tree, tree)))));
    Creation(runs, w, e, run, oid);
    BehaveCons(runs, Goto(w, e, run, Creating), Act(e, Create(oid)), []);
    BehaveNothing(runs, Goto(w.(commits := w.commits[oid := Facts(run.base, run.tree)]), e, run,
                             Finished(Failure(RebuiltCommitMismatch(run.desired, oid)))));
  }

  /** The right tree and commit let the run land, with the commit recreated as it was frozen. */
  lemma RebuiltRunBacksUp(runs: map<RunId, Run>, w: World, e: ExecId, id: RunId, first: LfsPlan, second: LfsPlan)
    requires Unbuilt(runs, w, e, id) && second.missing == []
    ensures EndsWith(Moved(w.(commits := w.commits[runs[id].desired := Facts(runs[id].base, runs[id].tree)],
                              held := w.held + Members(first.missing)), runs[id]),
                     Behave(runs, w, Rebuild(e, id, runs[id].tree, [Act(e, Create(runs[id].desired))] + Landing(e, first, second))), e, runs[id],
                     Success(BackedUp(runs[id].desired, first.missing, |first.present|)))
  {
    hide Behave, Rebuild, Next, Landing;
    var run := runs[id];
    var w' := w.(commits := w.commits[run.desired := Facts(run.base, run.tree)]);
    Rebuilding(runs, w, e, id, run.tree, [Act(e, Create(run.desired))] + Landing(e, first, second));
    Creation(runs, w, e, run, run.desired);
    BehaveCons(runs, Goto(w, e, run, Creating), Act(e, Create(run.desired)), Landing(e, first, second));
    PlannedRunLands(runs, w', e, run, first, second);
  }

  // ---------- what uploads, gate and swap decide ----------

  /** A run from its base, planned by `first` and with `k` objects uploaded, and then `rest`. */
  function Begun(e: ExecId, id: RunId, first: LfsPlan, k: nat, rest: seq<Step>): seq<Step> {
    [Start(e, id)] + ([Act(e, Observe)] + ([Act(e, Inspect)] + ([Act(e, Ask(first))] + (Uploads(e, k) + rest))))
  }

  function WithUploads(w: World, first: LfsPlan, k: nat): World
    requires k <= |first.missing|
  {
    w.(held := w.held + Members(first.missing[..k]))
  }

  lemma Planned(runs: map<RunId, Run>, w: World, e: ExecId, run: Run, first: LfsPlan)
    ensures Next(runs, Goto(w, e, run, Planning), Act(e, Ask(first))) == Some(Goto(w, e, run, NextUpload(first, 0)))
  {
    GotoTwice(w, e, run, Planning, NextUpload(first, 0));
  }

  lemma Reached(runs: map<RunId, Run>, w: World, e: ExecId, id: RunId, first: LfsPlan, k: nat, rest: seq<Step>)
    requires Ready(runs, w, e, id) && k <= |first.missing|
    ensures Behave(runs, w, Begun(e, id, first, k, rest))
         == Behave(runs, Goto(WithUploads(w, first, k), e, runs[id], NextUpload(first, k)), rest)
  {
    hide Behave, Next, Goto, Observed, Confirmed, Uploads, NextUpload;
    var run, more := runs[id], Uploads(e, k) + rest;
    Started(runs, w, e, id);
    BehaveCons(runs, w, Start(e, id), [Act(e, Observe)] + ([Act(e, Inspect)] + ([Act(e, Ask(first))] + more)));
    ToPlanning(runs, w, e, run);
    BehaveCons(runs, Goto(w, e, run, Observing), Act(e, Observe), [Act(e, Inspect)] + ([Act(e, Ask(first))] + more));
    BehaveCons(runs, Goto(w, e, run, Inspecting), Act(e, Inspect), [Act(e, Ask(first))] + more);
    Planned(runs, w, e, run, first);
    BehaveCons(runs, Goto(w, e, run, Planning), Act(e, Ask(first)), more);
    UploadSome(runs, w, e, run, first, 0, k, rest);
    assert first.missing[0..k] == first.missing[..k];
  }

  lemma UploadStops(runs: map<RunId, Run>, w: World, e: ExecId, run: Run, plan: LfsPlan, k: nat, port: Port, stored: bool)
    requires k < |plan.missing|
    ensures Next(runs, Goto(w, e, run, NextUpload(plan, k)), Act(e, Upload(BlobMissing, false)))
         == Some(Goto(w, e, run, Finished(Failure(SourceBlobMissing(plan.missing[k])))))
    ensures Next(runs, Goto(w, e, run, NextUpload(plan, k)), Act(e, Upload(UploadRefused(port), stored)))
         == Some(Goto(if stored then w.(held := w.held + {plan.missing[k]}) else w, e, run, Finished(Failure(PortFailed(port)))))
  {
    GotoTwice(w, e, run, NextUpload(plan, k), Finished(Failure(SourceBlobMissing(plan.missing[k]))));
    GotoTwice(if stored then w.(held := w.held + {plan.missing[k]}) else w, e, run, NextUpload(plan, k), Finished(Failure(PortFailed(port))));
  }

  /** An upload that cannot be done stops the run at that object, whose bytes are missing or whose upload is refused. */
  lemma FailedUploadStops(runs: map<RunId, Run>, w: World, e: ExecId, id: RunId, first: LfsPlan, k: nat, port: Port, stored: bool)
    requires Ready(runs, w, e, id) && k < |first.missing|
    ensures EndsWith(WithUploads(w, first, k), Behave(runs, w, Begun(e, id, first, k, [Act(e, Upload(BlobMissing, false))] + [])), e, runs[id],
                     Failure(SourceBlobMissing(first.missing[k])))
    ensures EndsWith(WithUploads(w, first, if stored then k + 1 else k),
                     Behave(runs, w, Begun(e, id, first, k, [Act(e, Upload(UploadRefused(port), stored))] + [])), e, runs[id],
                     Failure(PortFailed(port)))
  {
    hide Behave, Begun, Next, Observed, Confirmed;
    var run, w' := runs[id], WithUploads(w, first, k);
    var missing, refused := Act(e, Upload(BlobMissing, false)), Act(e, Upload(UploadRefused(port), stored));
    Reached(runs, w, e, id, first, k, [missing] + []);
    Reached(runs, w, e, id, first, k, [refused] + []);
    BehaveCons(runs, Goto(w', e, run, NextUpload(first, k)), missing, []);
    BehaveCons(runs, Goto(w', e, run, NextUpload(first, k)), refused, []);
    assert w'.held + {first.missing[k]} == WithUploads(w, first, k + 1).held;
    UploadStops(runs, w', e, run, first, k, port, stored);
    BehaveNothing(runs, Goto(w', e, run, Finished(Failure(SourceBlobMissing(first.missing[k])))));
    BehaveNothing(runs, Goto(WithUploads(w, first, if stored then k + 1 else k), e, run, Finished(Failure(PortFailed(port)))));
  }

  /** All uploads done, the gate still refuses while the endpoint reports anything missing, and says what. */
  lemma IncompleteGateStops(runs: map<RunId, Run>, w: World, e: ExecId, id: RunId, first: LfsPlan, second: LfsPlan)
    requires Ready(runs, w, e, id) && second.missing != []
    ensures EndsWith(WithUploads(w, first, |first.missing|),
                     Behave(runs, w, Begun(e, id, first, |first.missing|, [Act(e, Ask(second))] + [])), e, runs[id],
                     Failure(LfsObjectsMissing(second.missing)))
  {
    hide Behave, Begun, Observed, Confirmed;
    var run, n := runs[id], |first.missing|;
    var w' := WithUploads(w, first, n);
    Reached(runs, w, e, id, first, n, [Act(e, Ask(second))] + []);
    BehaveCons(runs, Goto(w', e, run, Gating(first)), Act(e, Ask(second)), []);
    GotoTwice(w', e, run, Gating(first), Finished(Failure(LfsObjectsMissing(second.missing))));
    BehaveNothing(runs, Goto(w', e, run, Finished(Failure(LfsObjectsMissing(second.missing)))));
  }

  /** A run up to its swap, and then `rest`. */
  function Through(e: ExecId, id: RunId, first: LfsPlan, second: LfsPlan, rest: seq<Step>): seq<Step> {
    Begun(e, id, first, |first.missing|, [Act(e, Ask(second))] + rest)
  }

  lemma AtTheSwap(runs: map<RunId, Run>, w: World, e: ExecId, id: RunId, first: LfsPlan, second: LfsPlan, rest: seq<Step>)
    requires Ready(runs, w, e, id) && second.missing == []
    ensures Behave(runs, w, Through(e, id, first, second, rest))
         == Behave(runs, Goto(WithUploads(w, first, |first.missing|), e, runs[id], Swapping(first)), rest)
  {
    hide Behave, Begun, Observed, Confirmed;
    var run, n := runs[id], |first.missing|;
    var w' := WithUploads(w, first, n);
    Reached(runs, w, e, id, first, n, [Act(e, Ask(second))] + rest);
    Asking(runs, w', e, run, first, second);
    BehaveCons(runs, Goto(w', e, run, Gating(first)), Act(e, Ask(second)), rest);
  }

  lemma SwapLands(runs: map<RunId, Run>, w: World, e: ExecId, run: Run, plan: LfsPlan)
    requires RefAt(w, run, run.base)
    ensures Next(runs, Goto(w, e, run, Swapping(plan)), Act(e, Swap(true, Rejected))) == Some(Goto(Moved(w, run), e, run, Reobserving))
    ensures Next(runs, Goto(w, e, run, Swapping(plan)), Act(e, Swap(true, SwapFailed)))
         == Some(Goto(Moved(w, run), e, run, Finished(Failure(PortFailed(RemotePort)))))
  {
    GotoTwice(Moved(w, run), e, run, Swapping(plan), Reobserving);
    GotoTwice(Moved(w, run), e, run, Swapping(plan), Finished(Failure(PortFailed(RemotePort))));
  }

  lemma Reobservation(runs: map<RunId, Run>, w: World, e: ExecId, run: Run)
    ensures EndsWith(w, Next(runs, Goto(w, e, run, Reobserving), Act(e, Observe)), e, run,
      Success(if RefAt(w, run, run.desired) then AlreadyBackedUp(run.desired)
              else RemoteChanged(run.base, if run.target in w.refs then Some(w.refs[run.target]) else None)))
  {
    GotoTwice(w, e, run, Reobserving, AfterReobserve(run, Observed(w, run)));
  }

  /** A swap that landed and was answered as rejected is recognised by the fresh observation. */
  lemma LandedSwapAnsweredRejected(runs: map<RunId, Run>, w: World, e: ExecId, id: RunId, first: LfsPlan, second: LfsPlan)
    requires Ready(runs, w, e, id) && second.missing == []
    ensures EndsWith(Moved(WithUploads(w, first, |first.missing|), runs[id]),
                     Behave(runs, w, Through(e, id, first, second, [Act(e, Swap(true, Rejected)), Act(e, Observe)])), e, runs[id],
                     Success(AlreadyBackedUp(runs[id].desired)))
  {
    hide Behave, Next, Through, Observed, Confirmed;
    var run, w' := runs[id], WithUploads(w, first, |first.missing|);
    AtBase(runs, w, e, id);
    AtTheSwap(runs, w, e, id, first, second, [Act(e, Swap(true, Rejected)), Act(e, Observe)]);
    Two(runs, Goto(w', e, run, Swapping(first)), Act(e, Swap(true, Rejected)), Act(e, Observe));
    SwapLands(runs, w', e, run, first);
    Reobservation(runs, Moved(w', run), e, run);
  }

  lemma AtBase(runs: map<RunId, Run>, w: World, e: ExecId, id: RunId)
    ensures Ready(runs, w, e, id) ==> RefAt(w, runs[id], runs[id].base) && runs[id].base != runs[id].desired
  {
  }

  /** The world after a foreign writer set, or deleted, the run's ref. */
  ghost function Overwritten(w: World, run: Run, commit: Option<Commit>): World {
    if commit.None? then w.(refs := w.refs - {run.target})
    else w.(refs := w.refs[run.target := commit.value], seen := w.seen + {(run.target, commit.value)})
  }

  lemma Overwriting(runs: map<RunId, Run>, w: World, e: ExecId, run: Run, phase: Phase, commit: Option<Commit>)
    ensures Next(runs, Goto(w, e, run, phase), ForeignWrite(run.target, commit)) == Some(Goto(Overwritten(w, run, commit), e, run, phase))
  {
  }

  lemma SwapRejected(runs: map<RunId, Run>, w: World, e: ExecId, run: Run, plan: LfsPlan)
    ensures Next(runs, Goto(w, e, run, Swapping(plan)), Act(e, Swap(false, Rejected))) == Some(Goto(w, e, run, Reobserving))
  {
    GotoTwice(w, e, run, Swapping(plan), Reobserving);
  }

  /**
   A writer that gets between the gate and the swap wins: the swap is rejected, the ref keeps what
   that writer put there, and the outcome names the frozen base and what the ref holds now - or
   says that the run is backed up if the writer put its very commit there.
   */
  lemma LostRaceIsReported(runs: map<RunId, Run>, w: World, e: ExecId, id: RunId, first: LfsPlan, second: LfsPlan, commit: Option<Commit>)
    requires Ready(runs, w, e, id) && second.missing == []
    ensures EndsWith(Overwritten(WithUploads(w, first, |first.missing|), runs[id], commit),
                     Behave(runs, w, Through(e, id, first, second,
                       [ForeignWrite(runs[id].target, commit), Act(e, Swap(false, Rejected)), Act(e, Observe)])), e, runs[id],
                     Success(if commit == Some(runs[id].desired) then AlreadyBackedUp(runs[id].desired) else RemoteChanged(runs[id].base, commit)))
  {
    hide Behave, Next, Through, Observed, Confirmed;
    var run, w' := runs[id], WithUploads(w, first, |first.missing|);
    var w'' := Overwritten(w', run, commit);
    var write, swap := ForeignWrite(run.target, commit), Act(e, Swap(false, Rejected));
    AtTheSwap(runs, w, e, id, first, second, [write, swap, Act(e, Observe)]);
    Overwriting(runs, w', e, run, Swapping(first), commit);
    Three(runs, Goto(w', e, run, Swapping(first)), write, swap, Act(e, Observe));
    Two(runs, Goto(w'', e, run, Swapping(first)), swap, Act(e, Observe));
    SwapRejected(runs, w'', e, run, first);
    Reobservation(runs, w'', e, run);
  }

  /**
   A swap whose answer is lost after it landed costs only the answer: the executor reports the
   remote's failure, and the next one finds the commit on the ref and confirms it.
   */
  lemma LostAnswerIsRecovered(runs: map<RunId, Run>, w: World, e: ExecId, next: ExecId, id: RunId, first: LfsPlan, second: LfsPlan, third: LfsPlan)
    requires Ready(runs, w, e, id) && Startable(runs, w, next, id) && e != next && second.missing == [] && third.missing == []
    ensures var failed := Behave(runs, w, Through(e, id, first, second, [Act(e, Swap(true, SwapFailed))] + []));
      && EndsWith(Moved(WithUploads(w, first, |first.missing|), runs[id]), failed, e, runs[id], Failure(PortFailed(RemotePort)))
      && EndsWith(failed.value, Behave(runs, failed.value, [Start(next, id), Act(next, Observe), Act(next, Ask(third))]), next, runs[id],
                  Success(AlreadyBackedUp(runs[id].desired)))
  {
    hide Behave, Next, Through, Observed, Confirmed;
    var run, w' := runs[id], WithUploads(w, first, |first.missing|);
    var lost := Act(e, Swap(true, SwapFailed));
    AtBase(runs, w, e, id);
    AtTheSwap(runs, w, e, id, first, second, [lost] + []);
    SwapLands(runs, w', e, run, first);
    BehaveCons(runs, Goto(w', e, run, Swapping(first)), lost, []);
    BehaveNothing(runs, Goto(Moved(w', run), e, run, Finished(Failure(PortFailed(RemotePort)))));
    LandedRunIsConfirmed(runs, Goto(Moved(w', run), e, run, Finished(Failure(PortFailed(RemotePort)))), next, id, third);
  }

  // ---------- failures, and the end ----------

  /** A failing port ends the execution at any point with that port named, and changes nothing else. */
  lemma PortFailureStops(runs: map<RunId, Run>, w: World, e: ExecId, port: Port)
    requires e in w.execs && !w.execs[e].phase.Finished?
    ensures EndsWith(w, Behave(runs, w, [Act(e, Fail(port))]), e, w.execs[e].run, Failure(PortFailed(port)))
  {
    BehaveCons(runs, w, Act(e, Fail(port)), []);
    assert [Act(e, Fail(port))] + [] == [Act(e, Fail(port))];
  }

  /** A finished executor does nothing more. */
  lemma FinishedIsFinal(runs: map<RunId, Run>, w: World, e: ExecId, action: Action, rest: seq<Step>)
    requires e in w.execs && w.execs[e].phase.Finished?
    ensures Behave(runs, w, [Act(e, action)] + rest).None?
  {
    BehaveCons(runs, w, Act(e, action), rest);
  }
}
