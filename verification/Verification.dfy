/** The backup tree and `verify_backup`. */
module Verification {
  import opened Wrappers
  import opened Text
  import opened ContentPaths
  import opened Snapshots
  import opened LfsPointers
  import opened Deliveries
  import opened Manifests
  import Order

  // `backup/tree.rs`, and the verification of one backup commit in `backup/execute.rs`.

  // ---------- the tree one delivery materializes ----------

  datatype TreeEntry = TreeEntry(path: string, blob: Digest)

  datatype BackupTree = BackupTree(files: seq<TreeEntry>, manifest: TreeEntry, attributes: TreeEntry) {
    /** `entries()`: the managed files, then the two metadata files. */
    function Entries(): seq<TreeEntry> {
      files + [manifest, attributes]
    }

    /** `len()` */
    function Len(): nat {
      |files| + 2
    }
  }

  /** `build_backup_tree` */
  function TreeOf(d: Delivery): (t: BackupTree)
    ensures |t.files| == |d.files|
    ensures forall i :: 0 <= i < |d.files| ==>
      t.files[i] == TreeEntry(TreePath(d.files[i].path), d.files[i].representation.TreeBlob())
  {
    BackupTree(
      seq(|d.files|, i requires 0 <= i < |d.files| =>
        TreeEntry(TreePath(d.files[i].path), d.files[i].representation.TreeBlob())),
      TreeEntry(MANIFEST_PATH, d.manifestBlob),
      TreeEntry(ATTRIBUTES_PATH, d.attributesBlob))
  }

  ghost predicate DistinctPaths(entries: seq<TreeEntry>) {
    forall i, j :: 0 <= i < j < |entries| ==> entries[i].path != entries[j].path
  }

  /** The tree has `len()` entries at as many different paths: nothing shadows anything. */
  lemma TreeIsDistinct(d: Delivery)
    requires Order.Strict(d.files, DeliveryPath)
    ensures |TreeOf(d).Entries()| == TreeOf(d).Len() && DistinctPaths(TreeOf(d).Entries())
  {
    var t, n := TreeOf(d), |d.files|;
    var entries := t.Entries();
    assert entries[n] == t.manifest && entries[n + 1] == t.attributes;
    assert t.manifest.path[1] == 'm' && t.attributes.path[1] == 'g';
    forall i, j | 0 <= i < j < |entries| ensures entries[i].path != entries[j].path {
      if i < n {
        TreePathDisjoint(d.files[i].path, d.files[i].path);
        if j < n {
          TreePathDisjoint(d.files[i].path, d.files[j].path);
          Order.StrictIsSorted(d.files, DeliveryPath);
        }
      }
    }
  }

  // ---------- reading one commit ----------

  /** What a `BackupTreeReader` answers about one commit. */
  datatype Reader = Reader(paths: seq<string>, blobs: map<string, string>) {
    function Read(path: string): Option<string> {
      if path in blobs then Some(blobs[path]) else None
    }
  }

  type Endpoint = seq<RequiredLfsObject> -> LfsPlan

  datatype Report = Report(commit: string, filesVerified: nat, lfsObjectsVerified: nat)

  datatype VerifyError =
    | NothingToVerify
    | ManifestMissing
    | ManifestRejected(error: ManifestError)
    | TreePathMismatch(missing: set<string>, unexpected: set<string>)
    | PathMissing(path: ContentPath)
    | ContentMismatch(path: ContentPath)
    | LfsObjectsMissing(objects: seq<RequiredLfsObject>)

  /** The paths the tree must hold for these manifest entries, and no others. */
  function ExpectedPaths(entries: seq<ManifestEntry>): set<string> {
    (set i | 0 <= i < |entries| :: TreePath(entries[i].path)) + {MANIFEST_PATH, ATTRIBUTES_PATH}
  }

  /** The evidence check of one manifest entry; an LFS entry yields the object it needs. */
  function CheckEntry(H: Hash, reader: Reader, e: ManifestEntry): Result<seq<RequiredLfsObject>, VerifyError> {
    var bytes :- OkOr(reader.Read(TreePath(e.path)), PathMissing(e.path));
    match e.storage
    case Git =>
      if H(bytes) != e.sha256 || Size(bytes) != e.size then Failure(ContentMismatch(e.path)) else Success([])
    case Lfs =>
      match VerifyPointer(e, bytes)
      case Failure(error) => Failure(ManifestRejected(error))
      case Success(_) => Success([RequiredLfsObject(e.sha256, e.size)])
  }

  function CheckEntries(H: Hash, reader: Reader, entries: seq<ManifestEntry>): Result<seq<RequiredLfsObject>, VerifyError> {
    if entries == [] then Success([])
    else
      var first :- CheckEntry(H, reader, entries[0]);
      var rest :- CheckEntries(H, reader, entries[1..]);
      Success(first + rest)
  }

  /** What `verify_backup` returns for one commit and its parsed manifest. */
  function VerifyManifest(H: Hash, commit: string, reader: Reader, lfs: Endpoint, m: Manifest): Result<Report, VerifyError> {
    var tree := set p | p in reader.paths;
    var expected := ExpectedPaths(m.entries);
    if tree != expected then Failure(TreePathMismatch(expected - tree, tree - expected)) else
    var required :- CheckEntries(H, reader, m.entries);
    var objects := CanonicalList(required);
    var plan := lfs(objects);
    if !plan.IsComplete() then Failure(LfsObjectsMissing(plan.missing))
    else Success(Report(commit, |m.entries|, |objects|))
  }

  function VerifyCommit(H: Hash, commit: string, reader: Reader, lfs: Endpoint): Result<Report, VerifyError> {
    var bytes :- OkOr(reader.Read(MANIFEST_PATH), ManifestMissing);
    match ManifestOf(bytes)
    case Failure(error) => Failure(ManifestRejected(error))
    case Success(m) => VerifyManifest(H, commit, reader, lfs, m)
  }

  /** What `verify_backup` returns: the asked commit, or the one the remote ref holds. */
  function VerifyOf(H: Hash, asked: Option<string>, observed: Option<string>, readers: string -> Reader, lfs: Endpoint)
    : Result<Report, VerifyError>
  {
    match (asked, observed)
    case (Some(commit), _) => VerifyCommit(H, commit, readers(commit), lfs)
    case (None, Some(commit)) => VerifyCommit(H, commit, readers(commit), lfs)
    case (None, None) => Failure(NothingToVerify)
  }

  /** `verify_backup`: walks the entries, collecting the objects it has to ask the endpoint about. */
  method VerifyBackup(H: Hash, asked: Option<string>, observed: Option<string>, readers: string -> Reader, lfs: Endpoint)
    returns (r: Result<Report, VerifyError>)
    ensures r == VerifyOf(H, asked, observed, readers, lfs)
  {
    if asked.None? && observed.None? {
      return Failure(NothingToVerify);
    }
    var commit := if asked.Some? then asked.value else observed.value;
    var reader := readers(commit);
    var bytes := reader.Read(MANIFEST_PATH);
    if bytes.None? {
      return Failure(ManifestMissing);
    }
    var manifest := Manifests.Parse(bytes.value);
    if manifest.Failure? {
      return Failure(ManifestRejected(manifest.error));
    }
    var entries := manifest.value.entries;
    var tree := set p | p in reader.paths;
    var expected := ExpectedPaths(entries);
    if tree != expected {
      return Failure(TreePathMismatch(expected - tree, tree - expected));
    }
    var required := CollectRequired(H, reader, entries);
    if required.Failure? {
      return Failure(required.error);
    }
    var objects := CanonicalList(required.value);
    var plan := lfs(objects);
    if !plan.IsComplete() {
      return Failure(LfsObjectsMissing(plan.missing));
    }
    r := Success(Report(commit, |entries|, |objects|));
  }

  method CollectRequired(H: Hash, reader: Reader, entries: seq<ManifestEntry>) returns (r: Result<seq<RequiredLfsObject>, VerifyError>)
    ensures r == CheckEntries(H, reader, entries)
  {
    var required: seq<RequiredLfsObject> := [];
    assert entries[0..] == entries;
    FollowNothing(CheckEntries(H, reader, entries));
    for i := 0 to |entries|
      invariant CheckEntries(H, reader, entries) == Follow(required, CheckEntries(H, reader, entries[i..]))
    {
      assert entries[i..][0] == entries[i] && entries[i..][1..] == entries[i + 1..];
      var checked := CheckEntry(H, reader, entries[i]);
      if checked.Failure? {
        return Failure(checked.error);
      }
      FollowPush(required, checked.value, CheckEntries(H, reader, entries[i + 1..]));
      required := required + checked.value;
    }
    assert required + [] == required;
    r := Success(required);
  }

  ghost function Follow(pushed: seq<RequiredLfsObject>, rest: Result<seq<RequiredLfsObject>, VerifyError>)
    : Result<seq<RequiredLfsObject>, VerifyError>
  {
    match rest
    case Failure(e) => Failure(e)
    case Success(r) => Success(pushed + r)
  }

  lemma FollowNothing(rest: Result<seq<RequiredLfsObject>, VerifyError>)
    ensures Follow([], rest) == rest
  {
    assert rest.Success? ==> [] + rest.value == rest.value;
  }

  lemma FollowPush(pushed: seq<RequiredLfsObject>, more: seq<RequiredLfsObject>, rest: Result<seq<RequiredLfsObject>, VerifyError>)
    ensures rest.Success? ==> Follow(pushed, Success(more + rest.value)) == Follow(pushed + more, rest)
  {
    if rest.Success? {
      assert pushed + (more + rest.value) == (pushed + more) + rest.value;
    }
  }

  // ---------- soundness: what a successful verification proves ----------

  /** The bytes an endpoint serves, when what it holds is what it claims to be. */
  ghost predicate ServesHonestly(H: Hash, held: set<RequiredLfsObject>, objects: map<RequiredLfsObject, string>) {
    forall o :: o in held ==> o in objects && H(objects[o]) == o.oid && Size(objects[o]) == o.size
  }

  /** The bytes restoring one entry gives: the tree blob itself, or the object its pointer names. */
  function RestoredEntry(reader: Reader, objects: map<RequiredLfsObject, string>, e: ManifestEntry): Option<string> {
    match reader.Read(TreePath(e.path))
    case None => None
    case Some(bytes) =>
      match e.storage
      case Git => Some(bytes)
      case Lfs =>
        match PointerOf(bytes)
        case Failure(_) => None
        case Success(p) =>
          var o := RequiredLfsObject(p.oid, p.size);
          if o in objects then Some(objects[o]) else None
  }

  /** The restored vault; of two entries for one path the first is used. */
  function Restored(reader: Reader, objects: map<RequiredLfsObject, string>, entries: seq<ManifestEntry>): map<ContentPath, Option<string>> {
    if entries == [] then map[]
    else Restored(reader, objects, entries[1..])[entries[0].path := RestoredEntry(reader, objects, entries[0])]
  }

  lemma {:induction false} CheckedEntries(H: Hash, reader: Reader, entries: seq<ManifestEntry>, i: nat)
    requires CheckEntries(H, reader, entries).Success? && i < |entries|
    ensures CheckEntry(H, reader, entries[i]).Success?
    ensures forall o :: o in CheckEntry(H, reader, entries[i]).value ==> o in CheckEntries(H, reader, entries).value
  {
    if i > 0 {
      CheckedEntries(H, reader, entries[1..], i - 1);
    }
  }

  lemma VerifiedEntry(H: Hash, commit: string, reader: Reader, lfs: Endpoint, m: Manifest,
                      held: set<RequiredLfsObject>, objects: map<RequiredLfsObject, string>, i: nat)
    requires VerifyManifest(H, commit, reader, lfs, m).Success? && i < |m.entries|
    requires forall query :: Answers(lfs(query), query, held)
    requires ServesHonestly(H, held, objects)
    ensures var r := RestoredEntry(reader, objects, m.entries[i]);
      r.Some? && H(r.value) == m.entries[i].sha256 && Size(r.value) == m.entries[i].size
  {
    var required := VerifiedObjects(H, commit, reader, lfs, m, held);
    CheckedEntries(H, reader, m.entries, i);
    CheckedRestores(H, reader, m.entries[i], held, objects);
  }

  /** A verified commit's every required object is held by the endpoint. */
  lemma VerifiedObjects(H: Hash, commit: string, reader: Reader, lfs: Endpoint, m: Manifest, held: set<RequiredLfsObject>)
    returns (required: seq<RequiredLfsObject>)
    requires VerifyManifest(H, commit, reader, lfs, m).Success?
    requires forall query :: Answers(lfs(query), query, held)
    ensures CheckEntries(H, reader, m.entries) == Success(required)
    ensures forall o :: o in required ==> o in held
  {
    required := CheckEntries(H, reader, m.entries).value;
    CanonicalObjects(required);
    CompleteMeansHeld(lfs(CanonicalList(required)), CanonicalList(required), held);
  }

  lemma CheckedRestores(H: Hash, reader: Reader, e: ManifestEntry, held: set<RequiredLfsObject>, objects: map<RequiredLfsObject, string>)
    requires CheckEntry(H, reader, e).Success?
    requires forall o :: o in CheckEntry(H, reader, e).value ==> o in held
    requires ServesHonestly(H, held, objects)
    ensures var r := RestoredEntry(reader, objects, e);
      r.Some? && H(r.value) == e.sha256 && Size(r.value) == e.size
  {
    if e.storage.Lfs? {
      assert RequiredLfsObject(e.sha256, e.size) in CheckEntry(H, reader, e).value;
    }
  }

  /**
   Soundness: a verified commit holds exactly the shifted manifest paths and the two metadata
   files, and every entry can be restored to bytes with the digest and size the manifest names.
   */
  lemma VerificationIsSound(H: Hash, commit: string, reader: Reader, lfs: Endpoint, m: Manifest,
                            held: set<RequiredLfsObject>, objects: map<RequiredLfsObject, string>)
    requires VerifyManifest(H, commit, reader, lfs, m).Success?
    requires forall query :: Answers(lfs(query), query, held)
    requires ServesHonestly(H, held, objects)
    ensures (set p | p in reader.paths) == ExpectedPaths(m.entries)
    ensures VerifyManifest(H, commit, reader, lfs, m).value.filesVerified == |m.entries|
    ensures forall i :: 0 <= i < |m.entries| ==>
      var r := RestoredEntry(reader, objects, m.entries[i]);
      r.Some? && H(r.value) == m.entries[i].sha256 && Size(r.value) == m.entries[i].size
  {
    forall i | 0 <= i < |m.entries|
      ensures var r := RestoredEntry(reader, objects, m.entries[i]);
        r.Some? && H(r.value) == m.entries[i].sha256 && Size(r.value) == m.entries[i].size
    {
      VerifiedEntry(H, commit, reader, lfs, m, held, objects, i);
    }
  }

  function Contents(reader: Reader, objects: map<RequiredLfsObject, string>, entries: seq<ManifestEntry>): set<string> {
    set i | 0 <= i < |entries| && RestoredEntry(reader, objects, entries[i]).Some? :: RestoredEntry(reader, objects, entries[i]).value
  }

  lemma {:induction false} SameRestored(reader: Reader, objects: map<RequiredLfsObject, string>,
                                        reader': Reader, objects': map<RequiredLfsObject, string>, entries: seq<ManifestEntry>)
    requires forall i :: 0 <= i < |entries| ==>
      RestoredEntry(reader, objects, entries[i]) == RestoredEntry(reader', objects', entries[i])
    ensures Restored(reader, objects, entries) == Restored(reader', objects', entries)
  {
    if entries != [] {
      var t := entries[1..];
      assert forall i :: 0 <= i < |t| ==> t[i] == entries[i + 1];
      SameRestored(reader, objects, reader', objects', t);
    }
  }

  /**
   Two verified commits with the same manifest entries restore the same vault, whatever their
   trees and endpoints are, as long as SHA-256 does not collide on the restored contents.
   */
  lemma VerifiedVaultsAgree(H: Hash, lfs: Endpoint, lfs': Endpoint, commit: string, commit': string,
                            reader: Reader, reader': Reader, m: Manifest, m': Manifest,
                            held: set<RequiredLfsObject>, objects: map<RequiredLfsObject, string>,
                            held': set<RequiredLfsObject>, objects': map<RequiredLfsObject, string>)
    requires VerifyManifest(H, commit, reader, lfs, m).Success? && VerifyManifest(H, commit', reader', lfs', m').Success?
    requires m.entries == m'.entries
    requires forall query :: Answers(lfs(query), query, held)
    requires forall query :: Answers(lfs'(query), query, held')
    requires ServesHonestly(H, held, objects) && ServesHonestly(H, held', objects')
    requires CollisionFreeOn(H, Contents(reader, objects, m.entries) + Contents(reader', objects', m.entries))
    ensures Restored(reader, objects, m.entries) == Restored(reader', objects', m'.entries)
  {
    VerificationIsSound(H, commit, reader, lfs, m, held, objects);
    VerificationIsSound(H, commit', reader', lfs', m', held', objects');
    var entries := m.entries;
    forall i | 0 <= i < |entries| ensures RestoredEntry(reader, objects, entries[i]) == RestoredEntry(reader', objects', entries[i]) {
      var r, r' := RestoredEntry(reader, objects, entries[i]), RestoredEntry(reader', objects', entries[i]);
      assert r.value in Contents(reader, objects, entries);
      assert r'.value in Contents(reader', objects', entries);
    }
    SameRestored(reader, objects, reader', objects', entries);
  }
}
