/** The frozen backup delivery. */
module Deliveries {
  import opened Wrappers
  import opened Text
  import opened Encoding
  import opened ContentPaths
  import opened Snapshots
  import opened LfsPointers
  import Order

  // `backup/delivery.rs`: assembling it, and its hashed identity.

  datatype StorageKind = Git | Lfs

  datatype Representation =
    | GitBlob(blob: Digest, size: u64)
    | GitLfs(source: Digest, size: u64, pointer: Digest)
  {
    function Kind(): StorageKind {
      if GitBlob? then Git else Lfs
    }

    /** The identity a verifier must find after restoring this path. */
    function SourceSha(): Digest {
      match this
      case GitBlob(blob, _) => blob
      case GitLfs(source, _, _) => source
    }

    /** The blob the Git tree stores for this path. */
    function TreeBlob(): Digest {
      match this
      case GitBlob(blob, _) => blob
      case GitLfs(_, _, pointer) => pointer
    }
  }

  datatype DeliveryFile = DeliveryFile(path: ContentPath, representation: Representation)

  datatype Delivery = Delivery(
    id: SnapshotId,
    sourceId: SourceId,
    projection: Digest,
    files: seq<DeliveryFile>,
    objects: seq<RequiredLfsObject>,
    manifestBlob: Digest,
    attributesBlob: Digest,
    identity: Digest)

  datatype DeliveryError =
    | RepeatedPath(path: ContentPath)
    | ConflictingLfsObject(oid: Digest)
    | BadManifest(manifest: ManifestError)

  datatype ManifestError =
    | DamagedManifest
    | UnknownManifestVersion
    | UnrepresentableEntry(path: ContentPath)
    | PointerMismatch(path: ContentPath)
    | BadPointer(error: LfsPointerError)

  function DeliveryPath(f: DeliveryFile): string {
    f.path
  }

  // ---------- the hashed identity ----------

  function KindByte(kind: StorageKind): char {
    match kind
    case Git => 0 as char
    case Lfs => 1 as char
  }

  /** One file record, followed by `rest`. */
  function FileRecord(f: DeliveryFile, rest: string): (s: string)
    ensures |s| == 81 + |f.path| + |rest|
  {
    var r := f.representation;
    Prefixed(f.path) + ([KindByte(r.Kind())] + (r.SourceSha() + (U64(r.size) + (r.TreeBlob() + rest))))
  }

  /** The file records, followed by `rest`. */
  function FileRecords(files: seq<DeliveryFile>, rest: string): (s: string)
    ensures |s| >= 81 * |files| + |rest|
  {
    if files == [] then rest else FileRecord(files[0], FileRecords(files[1..], rest))
  }

  function ObjectRecords(objects: seq<RequiredLfsObject>): (s: string)
    ensures |s| == 40 * |objects|
  {
    if objects == [] then "" else objects[0].oid + (U64(objects[0].size) + ObjectRecords(objects[1..]))
  }

  const IDENTITY_TAG := "mineral.backup-delivery"

  /** The bytes `delivery::identity` hashes: nothing separates the files from the objects. */
  function Preimage(id: SnapshotId, projection: Digest, files: seq<DeliveryFile>,
                    objects: seq<RequiredLfsObject>, manifestBlob: Digest, attributesBlob: Digest): string
  {
    IDENTITY_TAG + ([1 as char] + (U64(id) + (projection + (manifestBlob + (attributesBlob
    + FileRecords(files, ObjectRecords(objects)))))))
  }

  function PreimageOf(d: Delivery): string {
    Preimage(d.id, d.projection, d.files, d.objects, d.manifestBlob, d.attributesBlob)
  }

  /** `delivery::identity`: feeds the hasher field by field. */
  method Identity(H: Hash, id: SnapshotId, projection: Digest, files: seq<DeliveryFile>,
                  objects: seq<RequiredLfsObject>, manifestBlob: Digest, attributesBlob: Digest)
    returns (identity: Digest)
    ensures identity == H(Preimage(id, projection, files, objects, manifestBlob, attributesBlob))
  {
    var hasher := new Hasher();
    ghost var whole := Preimage(id, projection, files, objects, manifestBlob, attributesBlob);
    ghost var objectPart := ObjectRecords(objects);
    ghost var filePart := FileRecords(files, objectPart);
    hasher.Update(IDENTITY_TAG, [1 as char] + (U64(id) + (projection + (manifestBlob + (attributesBlob + filePart)))));
    hasher.Update([1 as char], U64(id) + (projection + (manifestBlob + (attributesBlob + filePart))));
    hasher.Update(U64(id), projection + (manifestBlob + (attributesBlob + filePart)));
    hasher.Update(projection, manifestBlob + (attributesBlob + filePart));
    hasher.Update(manifestBlob, attributesBlob + filePart);
    hasher.Update(attributesBlob, filePart);
    assert hasher.absorbed + filePart == whole;
    for i := 0 to |files|
      invariant hasher.absorbed + FileRecords(files[i..], objectPart) == whole
    {
      FeedFile(hasher, files[i], FileRecords(files[i + 1..], objectPart));
      assert files[i..][1..] == files[i + 1..];
    }
    for i := 0 to |objects|
      invariant hasher.absorbed + ObjectRecords(objects[i..]) == whole
    {
      ghost var rest := ObjectRecords(objects[i + 1..]);
      hasher.Update(objects[i].oid, U64(objects[i].size) + rest);
      hasher.Update(U64(objects[i].size), rest);
      assert objects[i..][1..] == objects[i + 1..];
    }
    assert hasher.absorbed + "" == hasher.absorbed;
    identity := H(hasher.absorbed);
  }

  method FeedFile(hasher: Hasher, file: DeliveryFile, ghost rest: string)
    modifies hasher
    ensures hasher.absorbed + rest == old(hasher.absorbed) + FileRecord(file, rest)
  {
    var r := file.representation;
    ghost var kindOn := [KindByte(r.Kind())] + (r.SourceSha() + (U64(r.size) + (r.TreeBlob() + rest)));
    ghost var t := file.path + kindOn;
    assert Prefixed(file.path) + kindOn == U64(|file.path|) + t;
    hasher.Update(U64(|file.path|), t);
    hasher.Update(file.path, kindOn);
    hasher.Update([KindByte(r.Kind())], r.SourceSha() + (U64(r.size) + (r.TreeBlob() + rest)));
    hasher.Update(r.SourceSha(), U64(r.size) + (r.TreeBlob() + rest));
    hasher.Update(U64(r.size), r.TreeBlob() + rest);
    hasher.Update(r.TreeBlob(), rest);
  }

  // ---------- assembling a delivery ----------

  /** `windows(2).find(..)`: two sorted neighbours naming one object with two sizes. */
  function FirstConflict(objects: seq<RequiredLfsObject>): (r: Option<Digest>)
    ensures r.None? <==> forall i :: 0 <= i < |objects| - 1 ==> objects[i].oid == objects[i + 1].oid ==> objects[i].size == objects[i + 1].size
  {
    if |objects| < 2 then None
    else if objects[0].oid == objects[1].oid && objects[0].size != objects[1].size then Some(objects[0].oid)
    else
      var t := objects[1..];
      assert forall i :: 0 <= i < |t| ==> t[i] == objects[i + 1];
      FirstConflict(t)
  }

  /** `BackupDeliveryProjection::from_parts` */
  function FromParts(H: Hash, id: SnapshotId, sourceId: SourceId, projection: Digest, files: seq<DeliveryFile>,
                     objects: seq<RequiredLfsObject>, manifestBlob: Digest, attributesBlob: Digest)
    : (r: Result<Delivery, DeliveryError>)
  {
    var sorted := Order.Sort(files, DeliveryPath);
    match Order.FirstRepeat(sorted, DeliveryPath)
    case Some(f) => Failure(RepeatedPath(f.path))
    case None =>
      match FirstConflict(Order.Sort(objects, ObjectKey))
      case Some(oid) => Failure(ConflictingLfsObject(oid))
      case None =>
        var canonical := CanonicalList(objects);
        Success(Delivery(id, sourceId, projection, sorted, canonical, manifestBlob, attributesBlob,
                         H(Preimage(id, projection, sorted, canonical, manifestBlob, attributesBlob))))
  }

  /** What every delivery that `FromParts` accepts satisfies. */
  ghost predicate WellFormed(H: Hash, d: Delivery) {
    && Order.Strict(d.files, DeliveryPath)
    && Order.Strict(d.objects, ObjectKey)
    && OneSizeEach(d.objects)
    && d.identity == H(Preimage(d.id, d.projection, d.files, d.objects, d.manifestBlob, d.attributesBlob))
  }

  ghost predicate OneSizeEach(objects: seq<RequiredLfsObject>) {
    forall a, b :: a in objects && b in objects && a.oid == b.oid ==> a == b
  }

  lemma ConflictExact(objects: seq<RequiredLfsObject>)
    ensures FirstConflict(Order.Sort(objects, ObjectKey)).None? <==> OneSizeEach(objects)
  {
    var s := Order.Sort(objects, ObjectKey);
    Order.SortSorted(objects, ObjectKey);
    Order.SortMembers(objects, ObjectKey);
    SortedConflict(s);
  }

  lemma SortedConflict(s: seq<RequiredLfsObject>)
    requires Order.Sorted(s, ObjectKey)
    ensures FirstConflict(s).None? <==> OneSizeEach(s)
  {
    if FirstConflict(s).None? {
      forall a, b | a in s && b in s && a.oid == b.oid ensures a == b {
        var i :| 0 <= i < |s| && s[i] == a;
        var j :| 0 <= j < |s| && s[j] == b;
        if i <= j { SortedRun(s, i, j); } else { SortedRun(s, j, i); }
      }
    } else {
      var i :| 0 <= i < |s| - 1 && s[i].oid == s[i + 1].oid && s[i].size != s[i + 1].size;
      assert s[i] in s && s[i + 1] in s;
    }
  }

  /** Between two sorted objects with one digest there is only that digest, so no size changes. */
  lemma {:induction false} SortedRun(s: seq<RequiredLfsObject>, i: nat, j: nat)
    requires i <= j < |s| && Order.Sorted(s, ObjectKey) && FirstConflict(s).None?
    requires s[i].oid == s[j].oid
    ensures s[i] == s[j]
    decreases j - i
  {
    if i < j {
      ObjectOrder(s[i + 1], s[i]);
      ObjectOrder(s[j], s[i + 1]);
      Order.Trichotomy(s[i].oid, s[i + 1].oid);
      if i + 1 < j {
        assert !Order.Less(ObjectKey(s[j]), ObjectKey(s[i + 1]));
      }
      SortedRun(s, i + 1, j);
    }
  }

  lemma FromPartsExact(H: Hash, id: SnapshotId, sourceId: SourceId, projection: Digest, files: seq<DeliveryFile>,
                       objects: seq<RequiredLfsObject>, manifestBlob: Digest, attributesBlob: Digest)
    ensures var r := FromParts(H, id, sourceId, projection, files, objects, manifestBlob, attributesBlob);
      && (r.Success? <==> Order.DistinctKeys(files, DeliveryPath) && OneSizeEach(objects))
      && (r.Success? ==>
        && WellFormed(H, r.value)
        && multiset(r.value.files) == multiset(files)
        && (forall o :: o in r.value.objects <==> o in objects)
        && r.value.id == id && r.value.sourceId == sourceId && r.value.projection == projection
        && r.value.manifestBlob == manifestBlob && r.value.attributesBlob == attributesBlob)
      && (!Order.DistinctKeys(files, DeliveryPath) ==>
        && r.Failure? && r.error.RepeatedPath? && Order.Repeated(files, DeliveryPath, r.error.path)
        && forall path :: Order.Repeated(files, DeliveryPath, path) ==> !Order.Less(path, r.error.path))
      && (Order.DistinctKeys(files, DeliveryPath) && !OneSizeEach(objects) ==>
        r.Failure? && r.error.ConflictingLfsObject? && TwoSizes(objects, r.error.oid))
  {
    hide Order.Repeated, TwoSizes, OneSizeEach, WellFormed;
    FromPartsKept(H, id, sourceId, projection, files, objects, manifestBlob, attributesBlob);
    Order.RepeatIsLeast(files, DeliveryPath);
    ConflictNamed(objects);
    Order.RepeatExact(files, DeliveryPath);
    ConflictExact(objects);
  }

  /** One digest is claimed with two sizes. */
  ghost predicate TwoSizes(objects: seq<RequiredLfsObject>, oid: Digest) {
    exists a, b :: a in objects && b in objects && a.oid == b.oid == oid && a.size != b.size
  }

  lemma {:induction false} ConflictIn(objects: seq<RequiredLfsObject>)
    ensures FirstConflict(objects).Some? ==> TwoSizes(objects, FirstConflict(objects).value)
  {
    if |objects| >= 2 {
      ConflictIn(objects[1..]);
      assert objects[0] in objects && objects[1] in objects;
      assert forall o :: o in objects[1..] ==> o in objects;
    }
  }

  lemma ConflictNamed(objects: seq<RequiredLfsObject>)
    ensures var r := FirstConflict(Order.Sort(objects, ObjectKey)); r.Some? ==> TwoSizes(objects, r.value)
  {
    ConflictIn(Order.Sort(objects, ObjectKey));
    Order.SortMembers(objects, ObjectKey);
  }

  lemma FromPartsKept(H: Hash, id: SnapshotId, sourceId: SourceId, projection: Digest, files: seq<DeliveryFile>,
                      objects: seq<RequiredLfsObject>, manifestBlob: Digest, attributesBlob: Digest)
    ensures var r := FromParts(H, id, sourceId, projection, files, objects, manifestBlob, attributesBlob);
      r.Success? ==>
        && WellFormed(H, r.value)
        && multiset(r.value.files) == multiset(files)
        && forall o :: o in r.value.objects <==> o in objects
  {
    Order.RepeatExact(files, DeliveryPath);
    Order.SortSorted(files, DeliveryPath);
    ConflictExact(objects);
    CanonicalObjects(objects);
  }

  /** Taking a well-formed delivery apart and assembling it again changes nothing. */
  lemma FromPartsIdentity(H: Hash, d: Delivery)
    requires WellFormed(H, d)
    ensures FromParts(H, d.id, d.sourceId, d.projection, d.files, d.objects, d.manifestBlob, d.attributesBlob) == Success(d)
  {
    Order.StrictIsSorted(d.files, DeliveryPath);
    Order.SortIdentity(d.files, DeliveryPath);
    Order.NoRepeatIsStrict(d.files, DeliveryPath);
    ConflictExact(d.objects);
    CanonicalIdentity(d.objects);
  }

  // ---------- injectivity of the identity ----------

  /** The LFS objects the files of a delivery stand for. */
  function LfsObjects(files: seq<DeliveryFile>): seq<RequiredLfsObject> {
    if files == [] then []
    else
      (match files[0].representation
       case GitBlob(_, _) => []
       case GitLfs(source, size, _) => [RequiredLfsObject(source, size)]) + LfsObjects(files[1..])
  }

  function RequiredObjects(files: seq<DeliveryFile>): seq<RequiredLfsObject> {
    CanonicalList(LfsObjects(files))
  }

  ghost predicate ShortDeliveryPaths(files: seq<DeliveryFile>) {
    forall f :: f in files ==> |f.path| <= U64_MAX
  }

  lemma RecordCut(x: DeliveryFile, rx: string, y: DeliveryFile, ry: string)
    requires FileRecord(x, rx) == FileRecord(y, ry)
    requires |x.path| <= U64_MAX && |y.path| <= U64_MAX
    ensures x == y && rx == ry
  {
    var p, q := x.representation, y.representation;
    var px, py := p.TreeBlob() + rx, q.TreeBlob() + ry;
    var sx, sy := U64(p.size) + px, U64(q.size) + py;
    var kx, ky := p.SourceSha() + sx, q.SourceSha() + sy;
    PrefixedCut(x.path, [KindByte(p.Kind())] + kx, y.path, [KindByte(q.Kind())] + ky);
    Cut([KindByte(p.Kind())], kx, [KindByte(q.Kind())], ky);
    Cut(p.SourceSha(), sx, q.SourceSha(), sy);
    Cut(U64(p.size), px, U64(q.size), py);
    U64Less(p.size, q.size);
    Cut(p.TreeBlob(), rx, q.TreeBlob(), ry);
    assert [KindByte(p.Kind())][0] == [KindByte(q.Kind())][0];
  }

  lemma LfsObjectsCons(f: DeliveryFile, rest: seq<DeliveryFile>)
    ensures LfsObjects([f] + rest) == LfsObjects([f]) + LfsObjects(rest)
  {
    assert ([f] + rest)[1..] == rest && [f][1..] == [];
    assert LfsObjects([]) == [];
  }

  lemma {:induction false} LfsObjectsConcat(a: seq<DeliveryFile>, b: seq<DeliveryFile>)
    ensures LfsObjects(a + b) == LfsObjects(a) + LfsObjects(b)
  {
    hide LfsObjects;
    if a == [] {
      NoLfsObjects();
      assert a + b == b && [] + LfsObjects(b) == LfsObjects(b);
    } else {
      LfsObjectsConcat(a[1..], b);
      HeadAndTail(a);
      Associate([a[0]], a[1..], b);
      LfsObjectsCons(a[0], a[1..] + b);
      LfsObjectsCons(a[0], a[1..]);
      Associate(LfsObjects([a[0]]), LfsObjects(a[1..]), LfsObjects(b));
    }
  }

  lemma NoLfsObjects()
    ensures LfsObjects([]) == []
  {
  }

  lemma StrictTail(s: seq<RequiredLfsObject>)
    requires s != [] && Order.Strict(s, ObjectKey)
    ensures Order.Strict(s[1..], ObjectKey) && s[0] !in s[1..]
  {
    hide ObjectKey;
    if s[0] in s[1..] {
      var i :| 0 < i < |s| && s[i] == s[0];
      Order.Trichotomy(ObjectKey(s[0]), ObjectKey(s[i]));
    }
  }

  lemma MembersCons(s: seq<RequiredLfsObject>)
    requires s != []
    ensures (set o | o in s) == {s[0]} + (set o | o in s[1..])
  {
    HeadAndTail(s);
  }

  /** A strictly ordered list has as many elements as its set. */
  lemma {:induction false} StrictCount(s: seq<RequiredLfsObject>)
    requires Order.Strict(s, ObjectKey)
    ensures |s| == |set o | o in s|
  {
    hide *;
    if s != [] {
      StrictTail(s);
      StrictCount(s[1..]);
      MembersCons(s);
    }
  }

  lemma {:induction false} SubsetCount<T>(a: set<T>, b: set<T>)
    requires a <= b
    ensures |a| <= |b|
  {
    assert b == a + (b - a);
  }

  /** More files never need fewer objects. */
  lemma RequiredCountGrows(a: seq<DeliveryFile>, b: seq<DeliveryFile>)
    ensures |RequiredObjects(a)| <= |RequiredObjects(a + b)|
  {
    LfsObjectsConcat(a, b);
    CanonicalObjects(LfsObjects(a));
    CanonicalObjects(LfsObjects(a + b));
    StrictCount(RequiredObjects(a));
    StrictCount(RequiredObjects(a + b));
    SubsetCount(set o | o in RequiredObjects(a), set o | o in RequiredObjects(a + b));
  }

  /** The rest `x` after the files `a` holds the further files of `b`, and then `y`. */
  predicate Absorbs(a: seq<DeliveryFile>, x: string, b: seq<DeliveryFile>, y: string) {
    a <= b && x == FileRecords(b[|a|..], y)
  }

  lemma AbsorbsCons(f: DeliveryFile, a: seq<DeliveryFile>, x: string, b: seq<DeliveryFile>, y: string)
    ensures Absorbs([f] + a, x, [f] + b, y) <==> Absorbs(a, x, b, y)
  {
    hide FileRecords;
    PrefixCons(f, a, b);
  }

  lemma PrefixCons(f: DeliveryFile, a: seq<DeliveryFile>, b: seq<DeliveryFile>)
    ensures [f] + a <= [f] + b <==> a <= b
    ensures a <= b ==> ([f] + b)[|a| + 1..] == b[|a|..]
  {
    if [f] + a <= [f] + b {
      assert a == ([f] + a)[1..] && b == ([f] + b)[1..];
    }
  }

  lemma FileRecordsCons(f: DeliveryFile, rest: seq<DeliveryFile>, x: string)
    ensures FileRecords([f] + rest, x) == FileRecord(f, FileRecords(rest, x))
  {
    assert ([f] + rest)[1..] == rest;
  }

  lemma AbsorbsAll(x: string, b: seq<DeliveryFile>, y: string)
    ensures Absorbs([], x, b, y) <==> x == FileRecords(b, y)
    ensures Absorbs(b, y, [], x) ==> x == FileRecords(b, y)
  {
    assert b[0..] == b;
  }

  /**
   Exactly when two lists of file records and what follows them are the same bytes: one list
   continues the other, and what follows the shorter one is made of the missing records.
   */
  lemma {:induction false} RecordsExact(a: seq<DeliveryFile>, x: string, b: seq<DeliveryFile>, y: string)
    requires ShortDeliveryPaths(a) && ShortDeliveryPaths(b)
    ensures FileRecords(a, x) == FileRecords(b, y) <==> Absorbs(a, x, b, y) || Absorbs(b, y, a, x)
    decreases |a|
  {
    hide FileRecords, FileRecord, Absorbs;
    if a == [] || b == [] {
      NoRecords(x);
      NoRecords(y);
      AbsorbsAll(x, b, y);
      AbsorbsAll(y, a, x);
    } else {
      HeadAndTail(a);
      HeadAndTail(b);
      RecordsExact(a[1..], x, b[1..], y);
      FileRecordsCons(a[0], a[1..], x);
      FileRecordsCons(b[0], b[1..], y);
      AbsorbsCons(a[0], a[1..], x, b[1..], y);
      AbsorbsCons(a[0], b[1..], y, a[1..], x);
      if a[0] == b[0] {
        SameRecord(a[0], FileRecords(a[1..], x), FileRecords(b[1..], y));
      } else {
        OtherRecord(a[0], FileRecords(a[1..], x), b[0], FileRecords(b[1..], y));
        OtherHead(a, x, b, y);
      }
    }
  }

  lemma NoRecords(x: string)
    ensures FileRecords([], x) == x
  {
  }

  lemma SameRecord(f: DeliveryFile, x: string, y: string)
    requires |f.path| <= U64_MAX
    ensures FileRecord(f, x) == FileRecord(f, y) <==> x == y
  {
    if FileRecord(f, x) == FileRecord(f, y) {
      RecordCut(f, x, f, y);
    }
  }

  lemma OtherRecord(f: DeliveryFile, x: string, g: DeliveryFile, y: string)
    requires f != g && |f.path| <= U64_MAX && |g.path| <= U64_MAX
    ensures FileRecord(f, x) != FileRecord(g, y)
  {
    if FileRecord(f, x) == FileRecord(g, y) {
      RecordCut(f, x, g, y);
    }
  }

  lemma OtherHead(a: seq<DeliveryFile>, x: string, b: seq<DeliveryFile>, y: string)
    ensures a != [] && b != [] && a[0] != b[0] ==> !Absorbs(a, x, b, y) && !Absorbs(b, y, a, x)
  {
  }

  /**
   After a common prefix of files the rest of the preimage determines the rest of the files:
   the list that ends first would have to make up at least 81 bytes out of object records,
   but the longer file list does not need fewer of them.
   */
  lemma FilesCut(common: seq<DeliveryFile>, a: seq<DeliveryFile>, b: seq<DeliveryFile>, x: string, y: string)
    requires FileRecords(a, x) == FileRecords(b, y)
    requires |x| == 40 * |RequiredObjects(common + a)| && |y| == 40 * |RequiredObjects(common + b)|
    requires ShortDeliveryPaths(a) && ShortDeliveryPaths(b)
    ensures a == b && x == y
  {
    hide RequiredObjects, FileRecords;
    RecordsExact(a, x, b, y);
    if Absorbs(a, x, b, y) {
      NothingAbsorbed(common, a, x, b, y);
    } else {
      NothingAbsorbed(common, b, y, a, x);
    }
  }

  lemma NothingAbsorbed(common: seq<DeliveryFile>, a: seq<DeliveryFile>, x: string, b: seq<DeliveryFile>, y: string)
    requires Absorbs(a, x, b, y)
    requires |x| == 40 * |RequiredObjects(common + a)| && |y| == 40 * |RequiredObjects(common + b)|
    ensures a == b && x == y
  {
    hide RequiredObjects, FileRecords;
    var more := b[|a|..];
    assert b == a + more;
    Associate(common, a, more);
    RequiredCountGrows(common + a, more);
    assert more == [];
    NoRecords(y);
  }

  /**
   The identity encoding is injective on everything it covers, for deliveries whose object list
   is the canonical list of their files' LFS objects.
   */
  lemma PreimageInjective(d: Delivery, e: Delivery)
    requires PreimageOf(d) == PreimageOf(e)
    requires d.objects == RequiredObjects(d.files) && e.objects == RequiredObjects(e.files)
    requires ShortDeliveryPaths(d.files) && ShortDeliveryPaths(e.files)
    ensures d.id == e.id && d.projection == e.projection
    ensures d.manifestBlob == e.manifestBlob && d.attributesBlob == e.attributesBlob
    ensures d.files == e.files && d.objects == e.objects
  {
    hide RequiredObjects, PreimageOf;
    PreimageExact(d, e);
    var x, y := ObjectRecords(d.objects), ObjectRecords(e.objects);
    assert [] + d.files == d.files && [] + e.files == e.files;
    if Absorbs(d.files, x, e.files, y) {
      NothingAbsorbed([], d.files, x, e.files, y);
    } else {
      NothingAbsorbed([], e.files, y, d.files, x);
    }
  }

  ghost predicate SameHeader(d: Delivery, e: Delivery) {
    && d.id == e.id && d.projection == e.projection
    && d.manifestBlob == e.manifestBlob && d.attributesBlob == e.attributesBlob
  }

  /**
   Exactly when two deliveries hash the same bytes, whatever their object lists are: they agree in
   everything before the files, and the object records of the one with fewer files spell the further
   files of the other and then its objects. Both lists are at hand before anything is hashed.
   */
  lemma PreimageExact(d: Delivery, e: Delivery)
    requires ShortDeliveryPaths(d.files) && ShortDeliveryPaths(e.files)
    ensures PreimageOf(d) == PreimageOf(e) <==>
      && SameHeader(d, e)
      && (|| Absorbs(d.files, ObjectRecords(d.objects), e.files, ObjectRecords(e.objects))
          || Absorbs(e.files, ObjectRecords(e.objects), d.files, ObjectRecords(d.objects)))
  {
    hide Absorbs, FileRecords, ObjectRecords;
    if PreimageOf(d) == PreimageOf(e) {
      HeaderCut(d, e);
    }
    RecordsExact(d.files, ObjectRecords(d.objects), e.files, ObjectRecords(e.objects));
  }

  /** So two assembled deliveries share an identity exactly then, unless the hash collides on the two encodings. */
  lemma SameDeliveryIdentity(H: Hash, d: Delivery, e: Delivery)
    requires WellFormed(H, d) && WellFormed(H, e) && CollisionFreeOn(H, {PreimageOf(d), PreimageOf(e)})
    requires ShortDeliveryPaths(d.files) && ShortDeliveryPaths(e.files)
    ensures d.identity == e.identity <==>
      && SameHeader(d, e)
      && (|| Absorbs(d.files, ObjectRecords(d.objects), e.files, ObjectRecords(e.objects))
          || Absorbs(e.files, ObjectRecords(e.objects), d.files, ObjectRecords(d.objects)))
  {
    hide Absorbs, SameHeader, Preimage;
    PreimageExact(d, e);
    assert PreimageOf(d) in {PreimageOf(d), PreimageOf(e)} && PreimageOf(e) in {PreimageOf(d), PreimageOf(e)};
  }

  lemma HeaderCut(d: Delivery, e: Delivery)
    requires PreimageOf(d) == PreimageOf(e)
    ensures d.id == e.id && d.projection == e.projection
    ensures d.manifestBlob == e.manifestBlob && d.attributesBlob == e.attributesBlob
    ensures FileRecords(d.files, ObjectRecords(d.objects)) == FileRecords(e.files, ObjectRecords(e.objects))
  {
    var rd := FileRecords(d.files, ObjectRecords(d.objects));
    var re := FileRecords(e.files, ObjectRecords(e.objects));
    var ad, ae := d.attributesBlob + rd, e.attributesBlob + re;
    var md, me := d.manifestBlob + ad, e.manifestBlob + ae;
    var pd, pe := d.projection + md, e.projection + me;
    var id, ie := U64(d.id) + pd, U64(e.id) + pe;
    Cut(IDENTITY_TAG, [1 as char] + id, IDENTITY_TAG, [1 as char] + ie);
    Cut([1 as char], id, [1 as char], ie);
    Cut(U64(d.id), pd, U64(e.id), pe);
    U64Less(d.id, e.id);
    Cut(d.projection, md, e.projection, me);
    Cut(d.manifestBlob, ad, e.manifestBlob, ae);
    Cut(d.attributesBlob, rd, e.attributesBlob, re);
  }
}
