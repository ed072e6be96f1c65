/** From a vault to a restored vault. */
module EndToEnd {
  import opened Wrappers
  import opened Text
  import opened ContentPaths
  import opened Snapshots
  import opened LfsPointers
  import opened Deliveries
  import opened Manifests
  import opened DeliveryBuild
  import opened Verification
  import Order
  import Utf8

  // Snapshot, projection, delivery, tree, manifest, verification and restore, for every vault and
  // every representation policy.

  /** The vault a snapshot was taken of: each listed file's bytes, under the digest and size listed. */
  ghost predicate Describes(H: Hash, files: seq<SnapshotFile>, vault: map<ContentPath, string>) {
    forall f :: f in files ==>
      f.path in vault && f.sha256 == H(vault[f.path]) && |vault[f.path]| <= U64_MAX && f.size == |vault[f.path]|
  }

  ghost predicate OneSizePerDigest(files: seq<SnapshotFile>) {
    forall f, g :: f in files && g in files && f.sha256 == g.sha256 ==> f.size == g.size
  }

  ghost predicate Writable(files: seq<SnapshotFile>) {
    forall f :: f in files ==> Utf8.Valid(f.path) && !Utf8.HasControl(f.path)
  }

  /** Checking a tree out: every entry's blob, from the content store, at the entry's path. */
  function BlobsOf(entries: seq<TreeEntry>, cas: map<Digest, string>): map<string, string> {
    if entries == [] then map[]
    else
      var rest := BlobsOf(entries[1..], cas);
      if entries[0].blob in cas then rest[entries[0].path := cas[entries[0].blob]] else rest
  }

  function Checkout(tree: BackupTree, cas: map<Digest, string>): Reader {
    var entries := tree.Entries();
    Reader(seq(|entries|, i requires 0 <= i < |entries| => entries[i].path), BlobsOf(entries, cas))
  }

  lemma {:induction false} CheckoutAt(entries: seq<TreeEntry>, cas: map<Digest, string>, i: nat)
    requires DistinctPaths(entries) && i < |entries| && entries[i].blob in cas
    ensures entries[i].path in BlobsOf(entries, cas) && BlobsOf(entries, cas)[entries[i].path] == cas[entries[i].blob]
  {
    if i > 0 {
      CheckoutAt(entries[1..], cas, i - 1);
    }
  }

  /** What must be in the content store: source bytes of Git files, pointers, the attributes file and the manifest. */
  ghost predicate StoreServes(H: Hash, p: Projection, policy: Policy, vault: map<ContentPath, string>, cas: map<Digest, string>, text: string) {
    && Serves(H, cas, text) && Serves(H, cas, policy.attributes)
    && (forall f :: f in p.files ==> f.path in vault)
    && (forall f :: f in p.files && policy.choose(f.path, f.size).Git? ==> Serves(H, cas, vault[f.path]))
    && (forall f :: f in p.files && policy.choose(f.path, f.size).Lfs? ==> Serves(H, cas, Build(f.sha256, f.size)))
  }

  /** What the build finds in the store: the source bytes of every file kept in Git. */
  ghost predicate SourcesStored(H: Hash, files: seq<SnapshotFile>, policy: Policy, vault: map<ContentPath, string>, store: map<Digest, string>) {
    forall f :: f in files ==> f.path in vault && (policy.choose(f.path, f.size).Git? ==> Serves(H, store, vault[f.path]))
  }

  /** The contents a build stores or relies on. */
  function BuildContents(H: Hash, p: Projection, policy: Policy, vault: map<ContentPath, string>): set<string> {
    (set c | c in DerivedBlobs(H, p, policy))
    + (set f | f in p.files && f.path in vault && policy.choose(f.path, f.size).Git? :: vault[f.path])
  }

  /** A store only ever gains blobs. */
  ghost predicate Keeps(store: map<Digest, string>, cas: map<Digest, string>) {
    forall d :: d in store ==> d in cas && cas[d] == store[d]
  }

  lemma {:induction false} PointersHold(policy: Policy, files: seq<SnapshotFile>)
    ensures forall f :: f in files && policy.choose(f.path, f.size).Lfs? ==> Build(f.sha256, f.size) in Pointers(policy, files)
  {
    hide Build;
    if files != [] {
      PointersHold(policy, files[1..]);
      HeadAndTail(files);
    }
  }

  lemma BuiltServes(H: Hash, p: Projection, policy: Policy, vault: map<ContentPath, string>, before: map<Digest, string>, content: string)
    requires content in DerivedBlobs(H, p, policy) || Serves(H, before, content)
    requires content in BuildContents(H, p, policy, vault) && CollisionFreeOn(H, BuildContents(H, p, policy, vault))
    ensures Serves(H, PutAll(H, before, DerivedBlobs(H, p, policy)), content)
  {
    hide DerivedBlobs;
    forall c | c in DerivedBlobs(H, p, policy) && H(c) == H(content) ensures c == content {
      assert c in BuildContents(H, p, policy, vault);
    }
    PutAllServes(H, before, DerivedBlobs(H, p, policy), content);
  }

  /** So the store the build leaves holds everything the backup's tree names. */
  lemma BuiltStoreServes(H: Hash, p: Projection, policy: Policy, vault: map<ContentPath, string>, before: map<Digest, string>)
    requires RenderedFor(H, p, policy).Success? && SourcesStored(H, p.files, policy, vault, before)
    requires CollisionFreeOn(H, BuildContents(H, p, policy, vault))
    ensures StoreServes(H, p, policy, vault, PutAll(H, before, DerivedBlobs(H, p, policy)), RenderedFor(H, p, policy).value)
  {
    hide Serves, PutAll, CollisionFreeOn, RenderedFor, Build;
    var text := RenderedFor(H, p, policy).value;
    PointersHold(policy, p.files);
    DerivedHold(H, p, policy);
    BuiltServes(H, p, policy, vault, before, text);
    BuiltServes(H, p, policy, vault, before, policy.attributes);
    forall f | f in p.files && policy.choose(f.path, f.size).Git?
      ensures Serves(H, PutAll(H, before, DerivedBlobs(H, p, policy)), vault[f.path])
    {
      BuiltServes(H, p, policy, vault, before, vault[f.path]);
    }
    forall f | f in p.files && policy.choose(f.path, f.size).Lfs?
      ensures Serves(H, PutAll(H, before, DerivedBlobs(H, p, policy)), Build(f.sha256, f.size))
    {
      BuiltServes(H, p, policy, vault, before, Build(f.sha256, f.size));
    }
  }

  lemma DerivedHold(H: Hash, p: Projection, policy: Policy)
    requires RenderedFor(H, p, policy).Success?
    ensures RenderedFor(H, p, policy).value in DerivedBlobs(H, p, policy) && policy.attributes in DerivedBlobs(H, p, policy)
    ensures forall c :: c in Pointers(policy, p.files) ==> c in DerivedBlobs(H, p, policy)
  {
    hide RenderedFor;
  }

  lemma StoreServesMore(H: Hash, p: Projection, policy: Policy, vault: map<ContentPath, string>, store: map<Digest, string>, cas: map<Digest, string>, text: string)
    requires StoreServes(H, p, policy, vault, store, text) && Keeps(store, cas)
    ensures StoreServes(H, p, policy, vault, cas, text)
  {
    hide Build;
  }

  /** What the tree must hold for one file: its bytes, or the pointer to them. */
  ghost function TreeContent(policy: Policy, f: SnapshotFile, vault: map<ContentPath, string>): string
    requires f.path in vault
  {
    match policy.choose(f.path, f.size)
    case Git => vault[f.path]
    case Lfs => Build(f.sha256, f.size)
  }

  ghost predicate Reads(reader: Reader, policy: Policy, files: seq<SnapshotFile>, vault: map<ContentPath, string>) {
    forall f :: f in files ==> f.path in vault && reader.Read(TreePath(f.path)) == Some(TreeContent(policy, f, vault))
  }

  /** The endpoint serves the source bytes of every LFS file. */
  ghost predicate ServesSources(policy: Policy, files: seq<SnapshotFile>, vault: map<ContentPath, string>, objects: map<RequiredLfsObject, string>) {
    forall f :: f in files && policy.choose(f.path, f.size).Lfs? ==>
      var o := RequiredLfsObject(f.sha256, f.size);
      f.path in vault && o in objects && objects[o] == vault[f.path]
  }

  function PathsOf(files: seq<SnapshotFile>): set<ContentPath> {
    set f | f in files :: f.path
  }

  /** The vault's bytes at some of its paths. */
  function VaultAt(paths: set<ContentPath>, vault: map<ContentPath, string>): map<ContentPath, Option<string>> {
    map path | path in paths && path in vault :: Some(vault[path])
  }

  /** What the endpoint must hold: the source bytes of every LFS file. */
  ghost predicate EndpointServes(d: Delivery, held: set<RequiredLfsObject>) {
    forall o :: o in d.objects ==> o in held
  }

  lemma {:induction false} LfsObjectsOf(H: Hash, policy: Policy, files: seq<SnapshotFile>)
    ensures forall o :: o in LfsObjects(FilesOf(H, policy, files)) ==>
      exists f :: f in files && policy.choose(f.path, f.size).Lfs? && o == RequiredLfsObject(f.sha256, f.size)
    ensures forall f :: f in files && policy.choose(f.path, f.size).Lfs? ==>
      RequiredLfsObject(f.sha256, f.size) in LfsObjects(FilesOf(H, policy, files))
  {
    var built := FilesOf(H, policy, files);
    if files != [] {
      LfsObjectsOf(H, policy, files[1..]);
      assert built[1..] == FilesOf(H, policy, files[1..]);
      assert files == [files[0]] + files[1..];
    }
  }

  /** Two LFS files never claim one digest with two sizes. */
  ghost predicate OneSizePerObject(policy: Policy, files: seq<SnapshotFile>) {
    forall f, g :: f in files && g in files && policy.choose(f.path, f.size).Lfs? && policy.choose(g.path, g.size).Lfs? && f.sha256 == g.sha256 ==>
      f.size == g.size
  }

  lemma ObjectsConflict(H: Hash, policy: Policy, files: seq<SnapshotFile>)
    ensures OneSizeEach(LfsObjects(FilesOf(H, policy, files))) <==> OneSizePerObject(policy, files)
  {
    LfsObjectsOf(H, policy, files);
    var objects := LfsObjects(FilesOf(H, policy, files));
    if OneSizeEach(objects) {
      forall f, g | f in files && g in files && policy.choose(f.path, f.size).Lfs? && policy.choose(g.path, g.size).Lfs? && f.sha256 == g.sha256
        ensures f.size == g.size
      {
        assert RequiredLfsObject(f.sha256, f.size) in objects && RequiredLfsObject(g.sha256, g.size) in objects;
      }
    }
  }

  lemma BuiltPaths(H: Hash, policy: Policy, files: seq<SnapshotFile>)
    ensures forall f :: f in FilesOf(H, policy, files) ==> exists g :: g in files && g.path == f.path
    ensures forall g :: g in files ==> exists f :: f in FilesOf(H, policy, files) && f.path == g.path
  {
    hide FileOf;
    var built := FilesOf(H, policy, files);
    forall f | f in built ensures exists g :: g in files && g.path == f.path {
      var i :| 0 <= i < |built| && built[i] == f;
      assert files[i] in files;
    }
    forall g | g in files ensures exists f :: f in built && f.path == g.path {
      var i :| 0 <= i < |files| && files[i] == g;
      assert built[i] in built;
    }
  }

  lemma BuiltDistinct(H: Hash, policy: Policy, files: seq<SnapshotFile>)
    requires Order.Strict(files, FilePath)
    ensures Order.DistinctKeys(FilesOf(H, policy, files), DeliveryPath)
  {
    hide FileOf, Order.Less;
    var built := FilesOf(H, policy, files);
    Order.StrictIsSorted(files, FilePath);
    forall i, j | 0 <= i < |built| && 0 <= j < |built| && DeliveryPath(built[i]) == DeliveryPath(built[j]) ensures i == j {
      assert FilePath(files[i]) == FilePath(files[j]);
    }
  }

  ghost predicate Unwritable(files: seq<SnapshotFile>, path: ContentPath) {
    Utf8.HasControl(path) && exists f :: f in files && f.path == path
  }

  lemma RenderExact(H: Hash, p: Projection, policy: Policy)
    ensures RenderedFor(H, p, policy).Success? <==> forall path :: !Unwritable(p.files, path)
    ensures RenderedFor(H, p, policy).Failure? ==>
      RenderedFor(H, p, policy).error.UnrepresentableEntry? && Unwritable(p.files, RenderedFor(H, p, policy).error.path)
  {
    hide Utf8.HasControl, FilesOf, FirstUnrepresentable, Unwritable;
    var files := FilesOf(H, policy, p.files);
    var found := FirstUnrepresentable(files);
    BuiltPaths(H, policy, p.files);
    UnrepresentableFound(files);
    if found.Some? {
      assert Unwritable(p.files, found.value) by {
        SomeUnwritable(p.files, found.value);
      }
    } else {
      forall path ensures !Unwritable(p.files, path) {
        SomeUnwritable(p.files, path);
      }
    }
  }

  lemma SomeUnwritable(files: seq<SnapshotFile>, path: ContentPath)
    ensures Unwritable(files, path) <==> Utf8.HasControl(path) && exists f :: f in files && f.path == path
  {
  }

  lemma Assembled(H: Hash, p: Projection, policy: Policy)
    requires Order.Strict(p.files, FilePath) && RenderedFor(H, p, policy).Success?
    ensures var r := DeliveryOf(H, p, policy);
      && (r.Success? <==> OneSizePerObject(policy, p.files))
      && (r.Failure? ==> r.error.ConflictingLfsObject? && TwoSizes(LfsObjects(FilesOf(H, policy, p.files)), r.error.oid))
  {
    hide LfsObjects, Order.Strict, Order.DistinctKeys, OneSizeEach, OneSizePerObject, TwoSizes, FromParts, RenderedFor, FilesOf, WellFormed;
    var files := FilesOf(H, policy, p.files);
    ObjectsConflict(H, policy, p.files);
    BuiltDistinct(H, policy, p.files);
    FromPartsExact(H, p.id, p.sourceId, p.sha256, files, LfsObjects(files), H(RenderedFor(H, p, policy).value), H(policy.attributes));
  }

  /**
   A projection becomes a delivery exactly when every path can be written and no two LFS files claim
   one digest with two sizes; the error names such a path, or such a digest.
   */
  lemma BuildExact(H: Hash, p: Projection, policy: Policy)
    requires Order.Strict(p.files, FilePath)
    ensures var r := DeliveryOf(H, p, policy);
      && (r.Success? <==> (forall path :: !Unwritable(p.files, path)) && OneSizePerObject(policy, p.files))
      && (r.Failure? && r.error.BadManifest? ==> r.error.manifest.UnrepresentableEntry? && Unwritable(p.files, r.error.manifest.path))
      && (r.Failure? && !r.error.BadManifest? ==>
            r.error.ConflictingLfsObject? && TwoSizes(LfsObjects(FilesOf(H, policy, p.files)), r.error.oid))
  {
    hide Unwritable, RenderedFor, OneSizePerObject, FromParts, LfsObjects, FilesOf, TwoSizes, Order.Strict;
    RenderExact(H, p, policy);
    if RenderedFor(H, p, policy).Success? {
      Assembled(H, p, policy);
    }
  }

  /** Nothing in the pipeline can fail for a writable vault with one size per digest. */
  lemma PipelineSucceeds(H: Hash, s: Snapshot, policy: Policy)
    requires Order.Strict(s.files, FilePath) && Writable(s.files) && OneSizePerDigest(s.files)
    ensures var p := BuildProjection(H, s);
      && p.Success? && p.value.files == s.files && p.value.id == s.id && p.value.sourceId == s.sourceId
      && DeliveryOf(H, p.value, policy).Success?
  {
    ProjectionFaithful(H, s);
    BuildExact(H, BuildProjection(H, s).value, policy);
  }

  // ---------- each manifest entry checks out and restores ----------

  lemma EntryChecksOut(H: Hash, policy: Policy, f: SnapshotFile, reader: Reader, vault: map<ContentPath, string>)
    requires Describes(H, [f], vault) && Reads(reader, policy, [f], vault)
    ensures CheckEntry(H, reader, EntryOf(FileOf(H, policy, f)))
         == Success(match policy.choose(f.path, f.size) case Git => [] case Lfs => [RequiredLfsObject(f.sha256, f.size)])
  {
    assert f in [f];
    PointerRoundTrip(f.sha256, f.size);
  }

  lemma EntryRestores(H: Hash, policy: Policy, f: SnapshotFile, reader: Reader, vault: map<ContentPath, string>, objects: map<RequiredLfsObject, string>)
    requires Reads(reader, policy, [f], vault) && ServesSources(policy, [f], vault, objects)
    ensures f.path in vault && RestoredEntry(reader, objects, EntryOf(FileOf(H, policy, f))) == Some(vault[f.path])
  {
    assert f in [f];
    PointerRoundTrip(f.sha256, f.size);
  }

  lemma {:induction false} AllEntriesCheckOut(H: Hash, policy: Policy, files: seq<SnapshotFile>, reader: Reader, vault: map<ContentPath, string>)
    requires Describes(H, files, vault) && Reads(reader, policy, files, vault)
    ensures CheckEntries(H, reader, EntriesOf(FilesOf(H, policy, files))) == Success(LfsObjects(FilesOf(H, policy, files)))
  {
    var built := FilesOf(H, policy, files);
    if files != [] {
      var f, t := files[0], files[1..];
      assert f in files;
      EntryChecksOut(H, policy, f, reader, vault);
      AllEntriesCheckOut(H, policy, t, reader, vault);
      assert built[1..] == FilesOf(H, policy, t);
      assert EntriesOf(built)[1..] == EntriesOf(FilesOf(H, policy, t));
    }
  }

  lemma {:induction false} AllEntriesRestore(H: Hash, policy: Policy, files: seq<SnapshotFile>, reader: Reader,
                                             vault: map<ContentPath, string>, objects: map<RequiredLfsObject, string>)
    requires Reads(reader, policy, files, vault) && ServesSources(policy, files, vault, objects)
    ensures Restored(reader, objects, EntriesOf(FilesOf(H, policy, files))) == VaultAt(PathsOf(files), vault)
  {
    var entries := EntriesOf(FilesOf(H, policy, files));
    if files != [] {
      var f, t := files[0], files[1..];
      assert files == [f] + t;
      EntryRestores(H, policy, f, reader, vault, objects);
      AllEntriesRestore(H, policy, t, reader, vault, objects);
      assert entries[1..] == EntriesOf(FilesOf(H, policy, t));
      assert PathsOf(files) == {f.path} + PathsOf(t);
      VaultPut(PathsOf(t), f.path, vault);
    }
  }

  lemma VaultPut(paths: set<ContentPath>, path: ContentPath, vault: map<ContentPath, string>)
    ensures path in vault ==> VaultAt(paths, vault)[path := Some(vault[path])] == VaultAt({path} + paths, vault)
  {
  }

  lemma AttributesRead(d: Delivery, cas: map<Digest, string>)
    requires Order.Strict(d.files, DeliveryPath) && d.attributesBlob in cas
    ensures Checkout(TreeOf(d), cas).Read(ATTRIBUTES_PATH) == Some(cas[d.attributesBlob])
  {
    TreeIsDistinct(d);
    var entries := TreeOf(d).Entries();
    assert entries[|d.files| + 1] == TreeOf(d).attributes;
    CheckoutAt(entries, cas, |d.files| + 1);
  }

  lemma ManifestReads(d: Delivery, cas: map<Digest, string>)
    requires Order.Strict(d.files, DeliveryPath) && d.manifestBlob in cas
    ensures Checkout(TreeOf(d), cas).Read(MANIFEST_PATH) == Some(cas[d.manifestBlob])
  {
    TreeIsDistinct(d);
    var entries := TreeOf(d).Entries();
    assert entries[|d.files|] == TreeOf(d).manifest;
    CheckoutAt(entries, cas, |d.files|);
  }

  lemma FileReads(d: Delivery, cas: map<Digest, string>, i: nat)
    requires Order.Strict(d.files, DeliveryPath) && i < |d.files| && d.files[i].representation.TreeBlob() in cas
    ensures Checkout(TreeOf(d), cas).Read(TreePath(d.files[i].path)) == Some(cas[d.files[i].representation.TreeBlob()])
  {
    TreeIsDistinct(d);
    var entries := TreeOf(d).Entries();
    assert entries[i] == TreeOf(d).files[i];
    CheckoutAt(entries, cas, i);
  }

  lemma WellFormedFiles(H: Hash, d: Delivery)
    ensures WellFormed(H, d) ==> Order.Strict(d.files, DeliveryPath)
  {
  }

  /** A file's tree blob is its bytes or its pointer. */
  lemma FileBlob(H: Hash, policy: Policy, f: SnapshotFile, vault: map<ContentPath, string>, cas: map<Digest, string>)
    requires f.path in vault && f.sha256 == H(vault[f.path])
    requires Serves(H, cas, if policy.choose(f.path, f.size).Git? then vault[f.path] else Build(f.sha256, f.size))
    ensures var blob := FileOf(H, policy, f).representation.TreeBlob();
      blob in cas && cas[blob] == TreeContent(policy, f, vault)
  {
    hide Build;
  }

  /** The tree of a built delivery, checked out, gives each path its bytes or its pointer. */
  lemma CheckoutReads(H: Hash, p: Projection, policy: Policy, d: Delivery, vault: map<ContentPath, string>, cas: map<Digest, string>, text: string)
    requires Order.Strict(p.files, FilePath) && DeliveryOf(H, p, policy) == Success(d)
    requires Describes(H, p.files, vault)
    requires StoreServes(H, p, policy, vault, cas, text)
    ensures Reads(Checkout(TreeOf(d), cas), policy, p.files, vault)
  {
    hide Checkout, DeliveryOf, Order.Strict, TreePath, WellFormed, RequiredObjects, Build, TreeContent, Serves;
    BuiltIsCanonical(H, p, policy);
    assert Order.Strict(d.files, DeliveryPath) by {
      WellFormedFiles(H, d);
    }
    var reader := Checkout(TreeOf(d), cas);
    forall f | f in p.files ensures reader.Read(TreePath(f.path)) == Some(TreeContent(policy, f, vault)) {
      var i :| 0 <= i < |p.files| && p.files[i] == f;
      assert d.files[i] == FileOf(H, policy, f);
      FileBlob(H, policy, f, vault, cas);
      FileReads(d, cas, i);
    }
  }

  lemma CheckoutPaths(d: Delivery, cas: map<Digest, string>)
    ensures (set p | p in Checkout(TreeOf(d), cas).paths) == ExpectedPaths(EntriesOf(d.files))
  {
    var paths := Checkout(TreeOf(d), cas).paths;
    var t, n := TreeOf(d), |d.files|;
    var entries := t.Entries();
    var expected := ExpectedPaths(EntriesOf(d.files));
    assert entries[n] == t.manifest && entries[n + 1] == t.attributes;
    assert forall i :: 0 <= i < n ==> entries[i] == t.files[i];
    forall p ensures p in paths <==> p in expected {
      if p in paths {
        var i :| 0 <= i < |paths| && paths[i] == p;
        if i < n {
          assert EntriesOf(d.files)[i].path == d.files[i].path;
        }
      }
      if p in expected {
        if p == MANIFEST_PATH {
          assert paths[n] == p;
        } else if p == ATTRIBUTES_PATH {
          assert paths[n + 1] == p;
        } else {
          var i :| 0 <= i < n && TreePath(EntriesOf(d.files)[i].path) == p;
          assert paths[i] == p;
        }
      }
    }
  }

  lemma ManifestOfBuilt(H: Hash, p: Projection, policy: Policy, d: Delivery)
    requires Order.Strict(p.files, FilePath) && Writable(p.files) && Utf8.Valid(p.sourceId) && '\n' !in p.sourceId
    requires DeliveryOf(H, p, policy) == Success(d)
    ensures RenderedFor(H, p, policy).Success? && d.manifestBlob == H(RenderedFor(H, p, policy).value)
    ensures ManifestOf(RenderedFor(H, p, policy).value) == Success(Manifest(p.id, p.sourceId, p.sha256, EntriesOf(d.files)))
  {
    hide ManifestOf, Utf8.Valid, Utf8.HasControl, Order.Less, DeliveryOf, Rendered, WellFormed, RequiredObjects;
    BuiltIsCanonical(H, p, policy);
    BuiltHeader(H, p, policy);
    forall f | f in d.files ensures Utf8.Valid(f.path) {
      var i :| 0 <= i < |d.files| && d.files[i] == f;
      assert p.files[i] in p.files;
    }
    ManifestRoundTrip(p.id, p.sourceId, p.sha256, d.files);
  }

  lemma MissingAsked(plan: LfsPlan, query: seq<RequiredLfsObject>, held: set<RequiredLfsObject>)
    ensures Answers(plan, query, held) && plan.missing != [] ==> plan.missing[0] in plan.missing && plan.missing[0] in query
  {
    if plan.missing != [] {
      assert plan.missing[0] in multiset(plan.missing);
      assert Answers(plan, query, held) ==> plan.missing[0] in multiset(query);
    }
  }

  lemma NothingMissing(plan: LfsPlan, query: seq<RequiredLfsObject>, held: set<RequiredLfsObject>)
    requires Answers(plan, query, held) && (forall o :: o in plan.missing ==> o !in held)
    requires forall o :: o in query ==> o in held
    ensures plan.IsComplete()
  {
    MissingAsked(plan, query, held);
  }

  lemma Accepts(H: Hash, commit: string, reader: Reader, lfs: Endpoint, text: string, m: Manifest, required: seq<RequiredLfsObject>)
    requires reader.Read(MANIFEST_PATH) == Some(text) && ManifestOf(text) == Success(m)
    requires (set p | p in reader.paths) == ExpectedPaths(m.entries)
    requires CheckEntries(H, reader, m.entries) == Success(required)
    requires lfs(CanonicalList(required)).IsComplete()
    ensures VerifyCommit(H, commit, reader, lfs) == Success(Report(commit, |m.entries|, |CanonicalList(required)|))
  {
  }

  /** Once the manifest parses and every entry checks out, the whole commit verifies. */
  lemma Verifies(H: Hash, d: Delivery, cas: map<Digest, string>, held: set<RequiredLfsObject>, lfs: Endpoint, commit: string, text: string, m: Manifest)
    requires Order.Strict(d.files, DeliveryPath) && d.objects == RequiredObjects(d.files)
    requires d.manifestBlob in cas && cas[d.manifestBlob] == text
    requires ManifestOf(text) == Success(m) && m.entries == EntriesOf(d.files)
    requires CheckEntries(H, Checkout(TreeOf(d), cas), m.entries) == Success(LfsObjects(d.files))
    requires EndpointServes(d, held)
    requires Answers(lfs(d.objects), d.objects, held) && forall o :: o in lfs(d.objects).missing ==> o !in held
    ensures VerifyCommit(H, commit, Checkout(TreeOf(d), cas), lfs)
         == Success(Report(commit, |d.files|, |set o | o in LfsObjects(d.files)|))
  {
    ManifestReads(d, cas);
    CheckoutPaths(d, cas);
    NothingMissing(lfs(d.objects), d.objects, held);
    DistinctObjects(d);
    Accepts(H, commit, Checkout(TreeOf(d), cas), lfs, text, m, LfsObjects(d.files));
  }

  lemma DistinctObjects(d: Delivery)
    requires d.objects == RequiredObjects(d.files)
    ensures |d.objects| == |set o | o in LfsObjects(d.files)|
  {
    CanonicalObjects(LfsObjects(d.files));
    StrictCount(d.objects);
    assert (set o | o in d.objects) == (set o | o in LfsObjects(d.files));
  }

  /** The two metadata files of the tree hold the manifest that was rendered and the attributes the policy asked for. */
  lemma MetadataReads(H: Hash, p: Projection, policy: Policy, d: Delivery, vault: map<ContentPath, string>, cas: map<Digest, string>, text: string)
    requires Order.Strict(p.files, FilePath) && DeliveryOf(H, p, policy) == Success(d)
    requires RenderedFor(H, p, policy) == Success(text) && StoreServes(H, p, policy, vault, cas, text)
    ensures Checkout(TreeOf(d), cas).Read(MANIFEST_PATH) == Some(text)
    ensures Checkout(TreeOf(d), cas).Read(ATTRIBUTES_PATH) == Some(policy.attributes)
  {
    hide Checkout, DeliveryOf, RenderedFor, Order.Strict, Build, WellFormed, RequiredObjects;
    BuiltIsCanonical(H, p, policy);
    BuiltHeader(H, p, policy);
    WellFormedFiles(H, d);
    ManifestReads(d, cas);
    AttributesRead(d, cas);
  }

  /** A backup whose content store and endpoint hold what its tree names verifies and restores its vault. */
  lemma StoredBackupRestores(H: Hash, s: Snapshot, policy: Policy, p: Projection, d: Delivery, vault: map<ContentPath, string>,
                             cas: map<Digest, string>, held: set<RequiredLfsObject>,
                             objects: map<RequiredLfsObject, string>, lfs: Endpoint, commit: string)
    requires Order.Strict(s.files, FilePath) && Writable(s.files)
    requires Utf8.Valid(s.sourceId) && '\n' !in s.sourceId
    requires Describes(H, s.files, vault)
    requires BuildProjection(H, s) == Success(p) && DeliveryOf(H, p, policy) == Success(d)
    requires RenderedFor(H, p, policy).Success? && StoreServes(H, p, policy, vault, cas, RenderedFor(H, p, policy).value)
    requires EndpointServes(d, held) && ServesSources(policy, s.files, vault, objects)
    requires Answers(lfs(d.objects), d.objects, held) && forall o :: o in lfs(d.objects).missing ==> o !in held
    ensures VerifyCommit(H, commit, Checkout(TreeOf(d), cas), lfs)
         == Success(Report(commit, |s.files|, |set o | o in LfsObjects(d.files)|))
    ensures Restored(Checkout(TreeOf(d), cas), objects, EntriesOf(d.files)) == VaultAt(PathsOf(s.files), vault)
    ensures PathsOf(s.files) <= vault.Keys
    ensures Checkout(TreeOf(d), cas).Read(ATTRIBUTES_PATH) == Some(policy.attributes)
  {
    ProjectionFaithful(H, s);
    MetadataReads(H, p, policy, d, vault, cas, RenderedFor(H, p, policy).value);
    BuiltIsCanonical(H, p, policy);
    ManifestOfBuilt(H, p, policy, d);
    CheckoutReads(H, p, policy, d, vault, cas, RenderedFor(H, p, policy).value);
    AllEntriesCheckOut(H, policy, p.files, Checkout(TreeOf(d), cas), vault);
    AllEntriesRestore(H, policy, p.files, Checkout(TreeOf(d), cas), vault, objects);
    Verifies(H, d, cas, held, lfs, commit, RenderedFor(H, p, policy).value,
             Manifest(p.id, p.sourceId, p.sha256, EntriesOf(d.files)));
  }

  /**
   End to end: take any vault whose paths can be written, in a store that holds the bytes of the
   files kept in Git (`PipelineSucceeds` says when projection and delivery succeed). From the store
   the build left, or any store grown from it, the commit verifies with all its files and all its
   distinct LFS objects, and restoring the tree and the objects gives back exactly the vault's bytes
   at every path, and nothing else. The attributes file of the tree is the policy's.
   */
  lemma BackupRestoresTheVault(H: Hash, s: Snapshot, policy: Policy, p: Projection, d: Delivery, vault: map<ContentPath, string>,
                               before: map<Digest, string>, cas: map<Digest, string>, held: set<RequiredLfsObject>,
                               objects: map<RequiredLfsObject, string>, lfs: Endpoint, commit: string)
    requires Order.Strict(s.files, FilePath) && Writable(s.files)
    requires Utf8.Valid(s.sourceId) && '\n' !in s.sourceId
    requires Describes(H, s.files, vault)
    requires BuildProjection(H, s) == Success(p) && DeliveryOf(H, p, policy) == Success(d)
    requires SourcesStored(H, s.files, policy, vault, before) && CollisionFreeOn(H, BuildContents(H, p, policy, vault))
    requires Keeps(PutAll(H, before, DerivedBlobs(H, p, policy)), cas)
    requires EndpointServes(d, held) && ServesSources(policy, s.files, vault, objects)
    requires Answers(lfs(d.objects), d.objects, held) && forall o :: o in lfs(d.objects).missing ==> o !in held
    ensures VerifyCommit(H, commit, Checkout(TreeOf(d), cas), lfs)
         == Success(Report(commit, |s.files|, |set o | o in LfsObjects(d.files)|))
    ensures Restored(Checkout(TreeOf(d), cas), objects, EntriesOf(d.files)) == VaultAt(PathsOf(s.files), vault)
    ensures PathsOf(s.files) <= vault.Keys
    ensures Checkout(TreeOf(d), cas).Read(ATTRIBUTES_PATH) == Some(policy.attributes)
  {
    hide BuildProjection, StoreServes, Describes, Writable, VerifyCommit, Restored, Checkout, PutAll, DerivedBlobs, Keeps, ServesSources, Answers, Order.Strict;
    ProjectionFaithful(H, s);
    ManifestOfBuilt(H, p, policy, d);
    BuiltStoreServes(H, p, policy, vault, before);
    StoreServesMore(H, p, policy, vault, PutAll(H, before, DerivedBlobs(H, p, policy)), cas, RenderedFor(H, p, policy).value);
    StoredBackupRestores(H, s, policy, p, d, vault, cas, held, objects, lfs, commit);
  }
}
