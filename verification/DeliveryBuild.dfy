/** `build_backup_delivery` */
module DeliveryBuild {
  import opened Wrappers
  import opened Text
  import opened ContentPaths
  import opened Snapshots
  import opened LfsPointers
  import opened Deliveries
  import Order
  import Manifests

  /** A representation policy: how each path is stored, and the attributes file it needs. */
  datatype Policy = Policy(choose: (ContentPath, u64) -> StorageKind, attributes: string)

  /** The content-addressed store derived blobs are written to. */
  class BlobStore {
    var blobs: map<Digest, string>

    constructor ()
      ensures blobs == map[]
    {
      blobs := map[];
    }

    method Store(H: Hash, content: string) returns (id: Digest)
      modifies this
      ensures id == H(content) && blobs == old(blobs)[H(content) := content]
    {
      id := H(content);
      blobs := blobs[id := content];
    }
  }

  function FileOf(H: Hash, policy: Policy, f: SnapshotFile): (r: DeliveryFile)
    ensures r.path == f.path && r.representation.SourceSha() == f.sha256 && r.representation.size == f.size
  {
    match policy.choose(f.path, f.size)
    case Git => DeliveryFile(f.path, GitBlob(f.sha256, f.size))
    case Lfs => DeliveryFile(f.path, GitLfs(f.sha256, f.size, H(Build(f.sha256, f.size))))
  }

  function FilesOf(H: Hash, policy: Policy, files: seq<SnapshotFile>): (r: seq<DeliveryFile>)
    ensures |r| == |files| && forall i :: 0 <= i < |files| ==> r[i] == FileOf(H, policy, files[i])
  {
    seq(|files|, i requires 0 <= i < |files| => FileOf(H, policy, files[i]))
  }

  function PointerOfFile(policy: Policy, f: SnapshotFile): seq<string> {
    if policy.choose(f.path, f.size).Lfs? then [Build(f.sha256, f.size)] else []
  }

  /** The pointer blobs of the LFS files, in order. */
  function Pointers(policy: Policy, files: seq<SnapshotFile>): seq<string> {
    if files == [] then [] else PointerOfFile(policy, files[0]) + Pointers(policy, files[1..])
  }

  function PutAll(H: Hash, blobs: map<Digest, string>, contents: seq<string>): map<Digest, string>
    decreases contents
  {
    if contents == [] then blobs else PutAll(H, blobs[H(contents[0]) := contents[0]], contents[1..])
  }

  lemma {:induction false} PutAllAppend(H: Hash, blobs: map<Digest, string>, contents: seq<string>, last: string)
    ensures PutAll(H, blobs, contents + [last]) == PutAll(H, blobs, contents)[H(last) := last]
    decreases contents
  {
    if contents == [] {
      assert ([last])[1..] == [];
      assert contents + [last] == [last];
    } else {
      PutAllAppend(H, blobs[H(contents[0]) := contents[0]], contents[1..], last);
      assert (contents + [last])[1..] == contents[1..] + [last];
    }
  }

  /** The store holds `content` under its own digest. */
  ghost predicate Serves(H: Hash, blobs: map<Digest, string>, content: string) {
    H(content) in blobs && blobs[H(content)] == content
  }

  /** What is stored, or was served before, is served afterwards, unless another content has its digest. */
  lemma {:induction false} PutAllServes(H: Hash, blobs: map<Digest, string>, contents: seq<string>, content: string)
    requires content in contents || Serves(H, blobs, content)
    requires forall c :: c in contents && H(c) == H(content) ==> c == content
    ensures Serves(H, PutAll(H, blobs, contents), content)
    decreases contents
  {
    if contents != [] {
      var first, rest := contents[0], contents[1..];
      HeadAndTail(contents);
      assert first in contents;
      PutAllServes(H, blobs[H(first) := first], rest, content);
    }
  }

  function RenderedFor(H: Hash, p: Projection, policy: Policy): Result<string, ManifestError> {
    Manifests.Rendered(p.id, p.sourceId, p.sha256, FilesOf(H, policy, p.files))
  }

  /** What `build_backup_delivery` returns when the store accepts every blob. */
  function DeliveryOf(H: Hash, p: Projection, policy: Policy): Result<Delivery, DeliveryError> {
    var files := FilesOf(H, policy, p.files);
    match RenderedFor(H, p, policy)
    case Failure(e) => Failure(BadManifest(e))
    case Success(text) =>
      FromParts(H, p.id, p.sourceId, p.sha256, files, LfsObjects(files), H(text), H(policy.attributes))
  }

  /** The blobs the build adds to the store, in order. */
  function DerivedBlobs(H: Hash, p: Projection, policy: Policy): seq<string> {
    Pointers(policy, p.files) + [policy.attributes]
    + (match RenderedFor(H, p, policy) case Failure(_) => [] case Success(text) => [text])
  }

  /** `build_backup_delivery`: chooses each representation, stores the derived blobs, freezes the result. */
  method BuildDelivery(H: Hash, p: Projection, policy: Policy, store: BlobStore)
    returns (r: Result<Delivery, DeliveryError>)
    modifies store
    ensures r == DeliveryOf(H, p, policy)
    ensures store.blobs == PutAll(H, old(store.blobs), DerivedBlobs(H, p, policy))
  {
    ghost var before := store.blobs;
    var files, required := ChooseAll(H, p.files, policy, store);
    ghost var pointers := Pointers(policy, p.files);
    PutAllAppend(H, before, pointers, policy.attributes);
    var attributesId := store.Store(H, policy.attributes);
    var rendered := Manifests.Render(p.id, p.sourceId, p.sha256, files);
    match rendered {
      case Failure(e) =>
        assert pointers + [policy.attributes] + [] == pointers + [policy.attributes];
        return Failure(BadManifest(e));
      case Success(text) =>
        PutAllAppend(H, before, pointers + [policy.attributes], text);
        var manifestId := store.Store(H, text);
        r := FromParts(H, p.id, p.sourceId, p.sha256, files, required, manifestId, attributesId);
    }
  }

  /** The loop over the projection: one representation a file, one stored pointer an LFS file. */
  method ChooseAll(H: Hash, projected: seq<SnapshotFile>, policy: Policy, store: BlobStore)
    returns (files: seq<DeliveryFile>, required: seq<RequiredLfsObject>)
    modifies store
    ensures files == FilesOf(H, policy, projected) && required == LfsObjects(files)
    ensures store.blobs == PutAll(H, old(store.blobs), Pointers(policy, projected))
  {
    hide Pointers, LfsObjects, PutAll, Build;
    files, required := [], [];
    ghost var before := store.blobs;
    assert projected[..0] == [];
    NoPointers(policy);
    NoLfsObjects();
    PutNothing(H, before);
    for i := 0 to |projected|
      invariant files == FilesOf(H, policy, projected[..i])
      invariant required == LfsObjects(files)
      invariant store.blobs == PutAll(H, before, Pointers(policy, projected[..i]))
    {
      var file := projected[i];
      PointersAppend(policy, projected[..i], file);
      assert projected[..i] + [file] == projected[..i + 1];
      var f: DeliveryFile;
      match policy.choose(file.path, file.size) {
        case Git =>
          f := DeliveryFile(file.path, GitBlob(file.sha256, file.size));
          assert Pointers(policy, projected[..i]) + PointerOfFile(policy, file) == Pointers(policy, projected[..i]);
          ObjectOf(files, f);
          assert LfsObjects(files) + [] == LfsObjects(files);
        case Lfs =>
          var pointer := Build(file.sha256, file.size);
          PutAllAppend(H, before, Pointers(policy, projected[..i]), pointer);
          var id := store.Store(H, pointer);
          f := DeliveryFile(file.path, GitLfs(file.sha256, file.size, id));
          ObjectOf(files, f);
          required := required + [RequiredLfsObject(file.sha256, file.size)];
      }
      files := files + [f];
    }
    assert projected[..|projected|] == projected;
  }

  lemma PutNothing(H: Hash, blobs: map<Digest, string>)
    ensures PutAll(H, blobs, []) == blobs
  {
  }

  lemma ObjectOf(files: seq<DeliveryFile>, f: DeliveryFile)
    ensures LfsObjects(files + [f]) == LfsObjects(files) + (match f.representation
                                                            case GitBlob(_, _) => []
                                                            case GitLfs(source, size, _) => [RequiredLfsObject(source, size)])
  {
    LfsObjectsConcat(files, [f]);
    LfsObjectsOne(f);
  }

  lemma LfsObjectsOne(f: DeliveryFile)
    ensures LfsObjects([f]) == match f.representation
                               case GitBlob(_, _) => []
                               case GitLfs(source, size, _) => [RequiredLfsObject(source, size)]
  {
    assert [f][1..] == [];
    assert LfsObjects([]) == [];
  }

  lemma {:induction false} PointersAppend(policy: Policy, files: seq<SnapshotFile>, last: SnapshotFile)
    ensures Pointers(policy, files + [last]) == Pointers(policy, files) + PointerOfFile(policy, last)
  {
    hide Pointers, Build;
    if files == [] {
      OnePointer(policy, last, []);
      NoPointers(policy);
      assert files + [last] == [last] + [] && PointerOfFile(policy, last) + [] == [] + PointerOfFile(policy, last);
    } else {
      PointersAppend(policy, files[1..], last);
      HeadAndTail(files);
      Associate([files[0]], files[1..], [last]);
      OnePointer(policy, files[0], files[1..] + [last]);
      OnePointer(policy, files[0], files[1..]);
      Associate(PointerOfFile(policy, files[0]), Pointers(policy, files[1..]), PointerOfFile(policy, last));
    }
  }

  lemma OnePointer(policy: Policy, f: SnapshotFile, rest: seq<SnapshotFile>)
    ensures Pointers(policy, [f] + rest) == PointerOfFile(policy, f) + Pointers(policy, rest)
  {
    assert ([f] + rest)[1..] == rest;
  }

  lemma NoPointers(policy: Policy)
    ensures Pointers(policy, []) == []
  {
  }

  /** A delivery carries the ids of its projection and names its manifest and the policy's attributes file. */
  lemma BuiltHeader(H: Hash, p: Projection, policy: Policy)
    requires DeliveryOf(H, p, policy).Success?
    ensures var d := DeliveryOf(H, p, policy).value;
      && RenderedFor(H, p, policy).Success? && d.manifestBlob == H(RenderedFor(H, p, policy).value)
      && d.attributesBlob == H(policy.attributes)
      && d.id == p.id && d.sourceId == p.sourceId && d.projection == p.sha256
  {
    hide LfsObjects, RenderedFor;
  }

  /** Each file is stored as the policy chose: its own blob, or the blob of the pointer to it. */
  lemma BuiltFiles(H: Hash, p: Projection, policy: Policy)
    requires Order.Strict(p.files, FilePath) && DeliveryOf(H, p, policy).Success?
    ensures var files := DeliveryOf(H, p, policy).value.files;
      && |files| == |p.files|
      && forall i :: 0 <= i < |files| ==>
          var f, r := p.files[i], files[i].representation;
          && files[i].path == f.path && r.size == f.size && r.SourceSha() == f.sha256 && r.Kind() == policy.choose(f.path, f.size)
          && r.TreeBlob() == if r.Kind().Git? then f.sha256 else H(Build(f.sha256, f.size))
  {
    hide DeliveryOf, WellFormed, RequiredObjects, Build, Order.Strict;
    BuiltIsCanonical(H, p, policy);
  }

  /** Every delivery the pipeline builds has the canonical object list, and keeps the file order. */
  lemma BuiltIsCanonical(H: Hash, p: Projection, policy: Policy)
    requires Order.Strict(p.files, FilePath) && DeliveryOf(H, p, policy).Success?
    ensures var d := DeliveryOf(H, p, policy).value;
      d.files == FilesOf(H, policy, p.files) && d.objects == RequiredObjects(d.files) && WellFormed(H, d)
  {
    var files := FilesOf(H, policy, p.files);
    assert Order.Strict(files, DeliveryPath) by {
      forall i, j | 0 <= i < j < |files| ensures Order.Less(DeliveryPath(files[i]), DeliveryPath(files[j])) {
        assert Order.Less(FilePath(p.files[i]), FilePath(p.files[j]));
      }
    }
    Order.StrictIsSorted(files, DeliveryPath);
    Order.SortIdentity(files, DeliveryPath);
    FromPartsExact(H, p.id, p.sourceId, p.sha256, files, LfsObjects(files),
                   H(RenderedFor(H, p, policy).value), H(policy.attributes));
  }
}
