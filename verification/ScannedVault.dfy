/** From the remote namespace to the restored vault. */
module ScannedVault {
  import opened Wrappers
  import opened Text
  import opened ContentPaths
  import opened Snapshots
  import opened SourceInventories
  import opened LfsPointers
  import opened Deliveries
  import opened DeliveryBuild
  import opened Verification
  import opened EndToEnd
  import Manifests
  import Order
  import Refresh = SourceRefresh
  import Scan = SourceScan
  import Utf8

  /** The vault holds what the remote serves at the listed revisions, at the sizes it reported. */
  ghost predicate ServedAs(remote: Refresh.Remote, inv: Inventory, vault: map<ContentPath, string>) {
    forall e :: e in inv.entries ==>
      && e.path in vault && vault[e.path] == remote(Refresh.Key(inv.source, e.path, e.revision))
      && |vault[e.path]| <= U64_MAX && e.reportedSize == |vault[e.path]|
  }

  function ListedPaths(inv: Inventory): set<ContentPath> {
    set e | e in inv.entries :: e.path
  }

  /** The facts an honest refresh of this listing proves. */
  ghost predicate Refreshed(H: Hash, remote: Refresh.Remote, inv: Inventory, cache: Refresh.Cache, facts: seq<Refresh.MaterializedEntry>) {
    var planned := Refresh.StepsOf(inv.source, inv.entries, Refresh.FactsOf(cache));
    && Refresh.HonestCache(H, remote, cache) && CollisionFreeOn(H, Refresh.Contents(remote, inv.source, inv.entries, cache))
    && planned.Success? && facts == Refresh.CarryOut(H, remote, inv.source, planned.value, cache.blobs).facts
  }

  lemma FactsAreServed(H: Hash, remote: Refresh.Remote, inv: Inventory, vault: map<ContentPath, string>)
    requires ServedAs(remote, inv, vault)
    ensures var facts := Refresh.FetchAll(H, remote, inv.source, inv.entries);
      forall i :: 0 <= i < |facts| ==>
        var path := facts[i].path;
        && path == inv.entries[i].path && path in vault && facts[i].sha256 == H(vault[path]) && facts[i].size == |vault[path]| <= U64_MAX
  {
    assert forall i :: 0 <= i < |inv.entries| ==> inv.entries[i] in inv.entries;
  }

  /**
   The snapshot of a scan whose facts an honest refresh proved is a snapshot of the remote: it holds
   every listed path, and each file's size and digest are those of the bytes the remote serves.
   */
  lemma SnapshotDescribesRemote(H: Hash, remote: Refresh.Remote, inv: Inventory, cache: Refresh.Cache, facts: seq<Refresh.MaterializedEntry>,
                                vault: map<ContentPath, string>, id: SnapshotId, sourceId: SourceId)
    requires Listed(inv) && ServedAs(remote, inv, vault) && Refreshed(H, remote, inv, cache, facts)
    ensures var s := Scan.SnapshotOf(Scan.StabilizedSource(inv, facts), id, sourceId);
      && Scan.Problem(inv, facts).None?
      && s.Success? && s.value.id == id && s.value.sourceId == sourceId
      && Order.Strict(s.value.files, FilePath) && |s.value.files| == |inv.entries|
      && Describes(H, s.value.files, vault) && PathsOf(s.value.files) == ListedPaths(inv)
  {
    hide Order.Strict, Refresh.FactsOf, Refresh.StepsOf, Refresh.CarryOut, Refresh.HonestCache, Refresh.Contents, CollisionFreeOn, Scan.Problem,
         Scan.SnapshotOf, Refresh.FetchedFact, Refresh.KeyOf;
    Refresh.RefreshRefinesFetching(H, remote, inv, cache);
    assert facts == Refresh.FetchAll(H, remote, inv.source, inv.entries);
    Scan.FetchedFactsAreASet(H, remote, inv);
    FactsAreServed(H, remote, inv, vault);
    assert Scan.Agree(inv, facts) by {
      assert forall i :: 0 <= i < |inv.entries| ==> inv.entries[i] in inv.entries;
    }
    Scan.ValidationExact(inv, facts);
    var stable := Scan.StabilizedSource(inv, facts);
    Scan.NoFileIsLost(stable, id, sourceId);
    var files := Scan.SnapshotOf(stable, id, sourceId).value.files;
    FilesDescribe(H, inv, facts, files, vault);
  }

  lemma FilesDescribe(H: Hash, inv: Inventory, facts: seq<Refresh.MaterializedEntry>, files: seq<SnapshotFile>, vault: map<ContentPath, string>)
    requires |files| == |facts| == |inv.entries|
    requires forall i :: 0 <= i < |files| ==>
      files[i].path == facts[i].path == inv.entries[i].path && files[i].size == facts[i].size && files[i].sha256 == facts[i].sha256
    requires forall i :: 0 <= i < |facts| ==>
      facts[i].path in vault && facts[i].sha256 == H(vault[facts[i].path]) && facts[i].size == |vault[facts[i].path]| <= U64_MAX
    ensures Describes(H, files, vault) && PathsOf(files) == ListedPaths(inv)
  {
    forall path ensures path in PathsOf(files) <==> path in ListedPaths(inv) {
      if f :| f in files && f.path == path {
        var i :| 0 <= i < |files| && files[i] == f;
        assert inv.entries[i] in inv.entries;
      }
      if e :| e in inv.entries && e.path == path {
        var i :| 0 <= i < |inv.entries| && inv.entries[i] == e;
        assert files[i] in files;
      }
    }
  }

  /**
   The whole way: list and refresh a remote honestly, scan it, take the snapshot, build and keep the
   backup. The backup then verifies, and restores exactly what the remote served, path by path.
   */
  lemma RemoteIsRestored(H: Hash, remote: Refresh.Remote, inv: Inventory, cache: Refresh.Cache, facts: seq<Refresh.MaterializedEntry>,
                         vault: map<ContentPath, string>, s: Snapshot, policy: Policy, p: Projection, d: Delivery,
                         before: map<Digest, string>, cas: map<Digest, string>, held: set<RequiredLfsObject>,
                         objects: map<RequiredLfsObject, string>, lfs: Endpoint, commit: string)
    requires Listed(inv) && ServedAs(remote, inv, vault) && Refreshed(H, remote, inv, cache, facts)
    requires Scan.SnapshotOf(Scan.StabilizedSource(inv, facts), s.id, s.sourceId) == Success(s)
    requires (forall e :: e in inv.entries ==> Utf8.Valid(e.path) && !Utf8.HasControl(e.path)) && Utf8.Valid(s.sourceId) && '\n' !in s.sourceId
    requires BuildProjection(H, s) == Success(p) && DeliveryOf(H, p, policy) == Success(d)
    requires SourcesStored(H, s.files, policy, vault, before) && CollisionFreeOn(H, BuildContents(H, p, policy, vault))
    requires Keeps(PutAll(H, before, DerivedBlobs(H, p, policy)), cas)
    requires EndpointServes(d, held) && ServesSources(policy, s.files, vault, objects)
    requires LfsPointers.Answers(lfs(d.objects), d.objects, held) && forall o :: o in lfs(d.objects).missing ==> o !in held
    ensures VerifyCommit(H, commit, Checkout(TreeOf(d), cas), lfs)
         == Success(Report(commit, |inv.entries|, |set o | o in LfsObjects(d.files)|))
    ensures Restored(Checkout(TreeOf(d), cas), objects, Manifests.EntriesOf(d.files)) == VaultAt(ListedPaths(inv), vault)
    ensures ListedPaths(inv) <= vault.Keys
  {
    hide BuildProjection, DeliveryOf, VerifyCommit, Restored, Checkout, PutAll, DerivedBlobs, Keeps, ServesSources, SourcesStored,
         LfsPointers.Answers, Order.Strict, CollisionFreeOn, Refreshed, Describes, VaultAt;
    SnapshotDescribesRemote(H, remote, inv, cache, facts, vault, s.id, s.sourceId);
    assert Writable(s.files) by {
      forall f | f in s.files ensures Utf8.Valid(f.path) && !Utf8.HasControl(f.path) {
        assert f.path in PathsOf(s.files);
      }
    }
    BackupRestoresTheVault(H, s, policy, p, d, vault, before, cas, held, objects, lfs, commit);
  }
}
