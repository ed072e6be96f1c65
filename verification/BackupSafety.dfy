/** What a backup ref promises. */
module BackupSafety {
  import opened Wrappers
  import opened Text
  import opened ContentPaths
  import opened Snapshots
  import opened LfsPointers
  import opened Deliveries
  import opened DeliveryBuild
  import opened Verification
  import opened EndToEnd
  import opened BackupProtocol
  import Manifests
  import Order
  import Utf8

  // The objects, the verification and the vault behind it.

  // ---------- a tree determines its delivery ----------

  /** The manifest text of a delivery. */
  function ManifestFor(d: Delivery): Result<string, ManifestError> {
    Manifests.Rendered(d.id, d.sourceId, d.projection, d.files)
  }

  /** What every delivery of `build_backup_delivery` satisfies, from any snapshot and under any policy. */
  ghost predicate IsBuilt(H: Hash, d: Delivery) {
    && ManifestFor(d).Success? && d.manifestBlob == H(ManifestFor(d).value)
    && d.objects == RequiredObjects(d.files) && WellFormed(H, d)
  }

  lemma BuildIsBuilt(H: Hash, p: Projection, policy: Policy)
    requires Order.Strict(p.files, FilePath) && DeliveryOf(H, p, policy).Success?
    ensures IsBuilt(H, DeliveryOf(H, p, policy).value)
  {
    hide Order.Strict, WellFormed, RequiredObjects, Manifests.Rendered, DeliveryOf;
    BuiltIsCanonical(H, p, policy);
    BuiltHeader(H, p, policy);
  }

  lemma FilesFixed(d: Delivery, e: Delivery)
    requires Manifests.EntriesOf(d.files) == Manifests.EntriesOf(e.files) && TreeOf(d).files == TreeOf(e).files
    ensures d.files == e.files
  {
    assert |d.files| == |TreeOf(d).files| == |TreeOf(e).files| == |e.files|;
    forall i | 0 <= i < |d.files| ensures d.files[i] == e.files[i] {
      assert Manifests.EntriesOf(d.files)[i] == Manifests.EntriesOf(e.files)[i];
      assert TreeOf(d).files[i] == TreeOf(e).files[i];
    }
  }

  lemma WritesManifest(d: Delivery)
    requires ManifestFor(d).Success?
    ensures var m := Manifests.Manifest(d.id, d.sourceId, d.projection, Manifests.EntriesOf(d.files));
      ManifestFor(d).value == Manifests.ManifestText(m) && Manifests.Printable(m)
  {
    hide Manifests.ManifestText, Utf8.HasControl;
    Manifests.EntryPaths(d.files);
  }

  /**
   The tree of a built delivery determines the delivery, whatever its source id holds: its manifest
   blob names the text, the text names ids and entries, and the blobs of the tree name the rest.
   */
  lemma TreeFixesDelivery(H: Hash, d: Delivery, e: Delivery)
    requires IsBuilt(H, d) && IsBuilt(H, e) && CollisionFreeOn(H, {ManifestFor(d).value, ManifestFor(e).value})
    ensures TreeOf(d) == TreeOf(e) <==> d == e
  {
    hide TreeOf, ManifestFor, RequiredObjects, Manifests.ManifestText, Manifests.Printable, Preimage, OneSizeEach, Order.Strict;
    if TreeOf(d) == TreeOf(e) {
      var texts := {ManifestFor(d).value, ManifestFor(e).value};
      SameMetadata(d, e);
      assert ManifestFor(d).value in texts && ManifestFor(e).value in texts;
      WritesManifest(d);
      WritesManifest(e);
      Manifests.ManifestTextInjective(
        Manifests.Manifest(d.id, d.sourceId, d.projection, Manifests.EntriesOf(d.files)),
        Manifests.Manifest(e.id, e.sourceId, e.projection, Manifests.EntriesOf(e.files)));
      FilesFixed(d, e);
    }
  }

  lemma SameMetadata(d: Delivery, e: Delivery)
    requires TreeOf(d) == TreeOf(e)
    ensures d.manifestBlob == e.manifestBlob && d.attributesBlob == e.attributesBlob
  {
    assert TreeOf(d).manifest == TreeOf(e).manifest && TreeOf(d).attributes == TreeOf(e).attributes;
  }

  // ---------- the protocol, over runs the program froze ----------

  /** Git's name of a tree, as an arbitrary function. */
  type GitTree = BackupTree -> Tree

  /** A run as the program freezes it: a built delivery, and the name of its tree in the commit. */
  ghost predicate IsFrozen(H: Hash, G: GitTree, run: Run) {
    IsBuilt(H, run.delivery) && run.tree == G(TreeOf(run.delivery))
  }

  /** Neither SHA-256 nor Git confuses these two deliveries. */
  ghost predicate KeptApart(H: Hash, G: GitTree, d: Delivery, e: Delivery) {
    && (IsBuilt(H, d) && IsBuilt(H, e) ==> CollisionFreeOn(H, {ManifestFor(d).value, ManifestFor(e).value}))
    && (G(TreeOf(d)) == G(TreeOf(e)) ==> TreeOf(d) == TreeOf(e))
  }

  /** Every run that freezes this run's commit was frozen by the program, and the hashes keep them apart. */
  ghost predicate SiblingsFrozen(H: Hash, G: GitTree, runs: map<RunId, Run>, run: Run) {
    && IsFrozen(H, G, run)
    && forall id :: id in runs && Sibling(run, runs[id]) ==>
        IsFrozen(H, G, runs[id]) && KeptApart(H, G, run.delivery, runs[id].delivery)
  }

  /** Runs that freeze one commit freeze one delivery. */
  lemma SiblingsShareTheDelivery(H: Hash, G: GitTree, runs: map<RunId, Run>, run: Run)
    requires SiblingsFrozen(H, G, runs, run)
    ensures forall id :: id in runs && Sibling(run, runs[id]) ==> runs[id].delivery == run.delivery
    ensures SiblingsAgree(runs, run)
  {
    hide IsBuilt, TreeOf, ManifestFor, CollisionFreeOn;
    forall id | id in runs && Sibling(run, runs[id]) ensures runs[id].delivery == run.delivery {
      TreeFixesDelivery(H, run.delivery, runs[id].delivery);
    }
  }

  /**
   Safety over all interleavings of executors, crashes, resumes, foreign writers and lost answers:
   when the ref of a frozen run names its commit, every LFS object the run requires is present. Of
   the start and of foreign writers it asks only that they do not break this for this one run.
   */
  lemma BackupRefIsRestorable(H: Hash, G: GitTree, runs: map<RunId, Run>, w: World, steps: seq<Step>, run: Run)
    requires Init(w) && Behave(runs, w, steps).Some? && HonestEndpoint(runs, w, steps)
    requires Restorable(w, run) && NeverPlants(runs, w, steps, run) && SiblingsFrozen(H, G, runs, run)
    ensures Restorable(Behave(runs, w, steps).value, run)
  {
    hide SiblingsFrozen, SiblingsAgree, Restorable, Behave, HonestEndpoint, NeverPlants, Inv;
    SiblingsShareTheDelivery(H, G, runs, run);
    InitHolds(true, runs, w);
    RefStaysRestorable(runs, w, steps, run);
  }

  // ---------- from the ref back to the vault ----------

  /** A commit is read as the tree it names. */
  ghost predicate ReadsTree(G: GitTree, w: World, cas: map<Digest, string>, readers: string -> Reader, tree: BackupTree) {
    forall c :: c in w.commits && w.commits[c].tree == G(tree) ==> readers(c) == Checkout(tree, cas)
  }

  /** An endpoint that holds every object honestly serves the source bytes. */
  lemma HeldServesSources(H: Hash, policy: Policy, p: Projection, d: Delivery, vault: map<ContentPath, string>,
                          held: set<RequiredLfsObject>, objects: map<RequiredLfsObject, string>)
    requires Order.Strict(p.files, FilePath) && DeliveryOf(H, p, policy) == Success(d) && Describes(H, p.files, vault)
    requires EndpointServes(d, held) && ServesHonestly(H, held, objects)
    requires CollisionFreeOn(H, vault.Values + objects.Values)
    ensures ServesSources(policy, p.files, vault, objects)
  {
    hide DeliveryOf, Order.Strict, WellFormed;
    BuiltIsCanonical(H, p, policy);
    CanonicalObjects(LfsObjects(d.files));
    LfsObjectsOf(H, policy, p.files);
    forall f | f in p.files && policy.choose(f.path, f.size).Lfs?
      ensures var o := RequiredLfsObject(f.sha256, f.size);
        f.path in vault && o in objects && objects[o] == vault[f.path]
    {
      var o := RequiredLfsObject(f.sha256, f.size);
      assert o in d.objects;
      assert vault[f.path] in vault.Values && objects[o] in objects.Values;
    }
  }

  /** The run was frozen for this vault, by the pipeline the program runs. */
  ghost predicate BacksUp(H: Hash, s: Snapshot, policy: Policy, p: Projection, vault: map<ContentPath, string>, run: Run) {
    && Order.Strict(s.files, FilePath) && Writable(s.files)
    && Utf8.Valid(s.sourceId) && '\n' !in s.sourceId && Describes(H, s.files, vault)
    && BuildProjection(H, s) == Success(p) && DeliveryOf(H, p, policy) == Success(run.delivery)
  }

  /** The store the build left, or one grown from it. */
  ghost predicate StoreKept(H: Hash, s: Snapshot, policy: Policy, p: Projection, vault: map<ContentPath, string>,
                            before: map<Digest, string>, cas: map<Digest, string>) {
    && SourcesStored(H, s.files, policy, vault, before) && CollisionFreeOn(H, BuildContents(H, p, policy, vault))
    && Keeps(PutAll(H, before, DerivedBlobs(H, p, policy)), cas)
  }

  /** The endpoint as it stands in this world: it serves what it holds, under its own name, and knows what it holds. */
  ghost predicate EndpointStands(H: Hash, w: World, run: Run, vault: map<ContentPath, string>, objects: map<RequiredLfsObject, string>, lfs: Endpoint) {
    var plan := lfs(run.Required());
    && ServesHonestly(H, w.held, objects) && CollisionFreeOn(H, vault.Values + objects.Values)
    && Answers(plan, run.Required(), w.held) && (forall o :: o in plan.missing ==> o !in w.held)
  }

  /**
   A backup that exists is a backup that can be restored: in every world the protocol reaches, when
   the ref names a frozen run's confirmed commit, `verify_backup` of the ref succeeds with all files
   and all distinct LFS objects of the vault, restoring gives back exactly the vault's bytes, and the
   tree carries the policy's attributes file.
   */
  lemma ReachedRefRestoresTheVault(H: Hash, G: GitTree, runs: map<RunId, Run>, w: World, steps: seq<Step>, run: Run,
                                   s: Snapshot, policy: Policy, p: Projection, vault: map<ContentPath, string>,
                                   before: map<Digest, string>, cas: map<Digest, string>, readers: string -> Reader,
                                   objects: map<RequiredLfsObject, string>, lfs: Endpoint)
    requires Init(w) && Behave(runs, w, steps).Some? && HonestEndpoint(runs, w, steps)
    requires Restorable(w, run) && NeverPlants(runs, w, steps, run) && SiblingsFrozen(H, G, runs, run)
    requires BacksUp(H, s, policy, p, vault, run) && StoreKept(H, s, policy, p, vault, before, cas)
    requires var w' := Behave(runs, w, steps).value;
      && Observed(w', run) == Some(run.desired) && Confirmed(w', run)
      && ReadsTree(G, w', cas, readers, TreeOf(run.delivery)) && EndpointStands(H, w', run, vault, objects, lfs)
    ensures VerifyOf(H, None, Observed(Behave(runs, w, steps).value, run), readers, lfs)
         == Success(Report(run.desired, |s.files|, |set o | o in LfsObjects(run.delivery.files)|))
    ensures Restored(readers(run.desired), objects, Manifests.EntriesOf(run.delivery.files)) == VaultAt(PathsOf(s.files), vault)
    ensures PathsOf(s.files) <= vault.Keys
    ensures readers(run.desired).Read(ATTRIBUTES_PATH) == Some(policy.attributes)
  {
    hide Behave, HonestEndpoint, NeverPlants, Init, CollisionFreeOn, SourcesStored, Keeps, BuildProjection, DeliveryOf, Describes,
         Writable, Order.Strict, Answers, ServesHonestly, Restored, Checkout, VerifyCommit, TreeOf, IsBuilt, ServesSources;
    var w' := Behave(runs, w, steps).value;
    BackupRefIsRestorable(H, G, runs, w, steps, run);
    ProjectionFaithful(H, s);
    HeldServesSources(H, policy, p, run.delivery, vault, w'.held, objects);
    BackupRestoresTheVault(H, s, policy, p, run.delivery, vault, before, cas, w'.held, objects, lfs, run.desired);
    assert readers(run.desired) == Checkout(TreeOf(run.delivery), cas);
  }
}
