/** Snapshots and projections. */
module Snapshots {
  import opened Wrappers
  import opened Text
  import opened Encoding
  import opened ContentPaths
  import Order
  import Utf8

  // `domain/snapshot.rs`, and the backup's byte-faithful view of a snapshot, `backup/projection.rs`.

  /** SHA-256, as an arbitrary function. Freedom from collisions is a hypothesis where it is used. */
  type Hash = string -> Digest

  ghost predicate CollisionFreeOn(H: Hash, contents: set<string>) {
    forall a, b :: a in contents && b in contents && H(a) == H(b) ==> a == b
  }

  type SnapshotId = n: u64 | n != 0 witness 1
  type SourceId = s: string | !Utf8.Blank(s) witness "a"

  /** `SourceId::new`: anything that is not blank, newlines included. */
  function NewSourceId(s: string): (r: Option<SourceId>) {
    if Utf8.Blank(s) then None else Some(s)
  }

  datatype SnapshotFile = SnapshotFile(path: ContentPath, size: u64, sha256: Digest)

  datatype Snapshot = Snapshot(id: SnapshotId, sourceId: SourceId, files: seq<SnapshotFile>)

  datatype SnapshotError = DuplicatePath(path: ContentPath)

  function FilePath(f: SnapshotFile): string {
    f.path
  }

  /** `Snapshot::new` */
  function NewSnapshot(id: SnapshotId, sourceId: SourceId, files: seq<SnapshotFile>)
    : (r: Result<Snapshot, SnapshotError>)
  {
    var sorted := Order.Sort(files, FilePath);
    match Order.FirstRepeat(sorted, FilePath)
    case Some(f) => Failure(DuplicatePath(f.path))
    case None => Success(Snapshot(id, sourceId, sorted))
  }

  /** The snapshot is refused exactly for a repeated path, and otherwise keeps every file. */
  lemma NewSnapshotExact(id: SnapshotId, sourceId: SourceId, files: seq<SnapshotFile>)
    ensures var r := NewSnapshot(id, sourceId, files);
      && (r.Success? <==> Order.DistinctKeys(files, FilePath))
      && (r.Success? ==>
            && r.value.id == id && r.value.sourceId == sourceId
            && Order.Strict(r.value.files, FilePath) && multiset(r.value.files) == multiset(files))
      && (r.Failure? ==>
            && Order.Repeated(files, FilePath, r.error.path)
            && forall path :: Order.Repeated(files, FilePath, path) ==> !Order.Less(path, r.error.path))
  {
    Order.RepeatIsLeast(files, FilePath);
    Order.SortSorted(files, FilePath);
    Order.RepeatExact(files, FilePath);
  }

  lemma {:induction false} FirstRepeatAt(s: seq<SnapshotFile>, i: nat)
    requires i + 1 < |s| && s[i].path == s[i + 1].path
    requires forall j :: 0 <= j < i ==> s[j].path != s[j + 1].path
    ensures Order.FirstRepeat(s, FilePath) == Some(s[i])
  {
    if i > 0 {
      FirstRepeatAt(s[1..], i - 1);
    }
  }

  /** In a sorted vector a path seen before is the path just before. */
  lemma SeenIsAdjacent(s: seq<SnapshotFile>, j: nat, i: nat)
    requires Order.Sorted(s, FilePath) && j < i < |s| && s[j].path == s[i].path
    ensures s[i - 1].path == s[i].path
  {
    Order.Trichotomy(s[i - 1].path, s[i].path);
    if j < i - 1 {
      assert !Order.Less(FilePath(s[i - 1]), FilePath(s[j]));
    }
    assert !Order.Less(FilePath(s[i]), FilePath(s[i - 1]));
  }

  /** The first `i` files, in order, hold exactly these paths, and no two neighbours share one. */
  ghost predicate Met(s: seq<SnapshotFile>, i: nat, paths: set<ContentPath>)
    requires i <= |s|
  {
    && (forall j :: 0 <= j < i ==> s[j].path in paths)
    && (forall p :: p in paths ==> exists j :: 0 <= j < i && s[j].path == p)
    && (forall j :: 0 <= j < i - 1 ==> s[j].path != s[j + 1].path)
  }

  lemma MetAgain(s: seq<SnapshotFile>, i: nat, paths: set<ContentPath>)
    requires i < |s| && Order.Sorted(s, FilePath) && Met(s, i, paths) && s[i].path in paths
    ensures Order.FirstRepeat(s, FilePath) == Some(s[i - 1]) && s[i - 1].path == s[i].path
  {
    hide Order.Less, Order.FirstRepeat, Order.Sorted;
    var j :| 0 <= j < i && s[j].path == s[i].path;
    SeenIsAdjacent(s, j, i);
    FirstRepeatAt(s, i - 1);
  }

  lemma MetFirst(s: seq<SnapshotFile>, i: nat, paths: set<ContentPath>)
    requires i < |s| && Met(s, i, paths) && s[i].path !in paths
    ensures Met(s, i + 1, paths + {s[i].path})
  {
  }

  lemma MetAll(s: seq<SnapshotFile>, paths: set<ContentPath>)
    ensures Met(s, |s|, paths) ==> Order.FirstRepeat(s, FilePath).None?
  {
  }

  /** `Snapshot::new`, over the set of paths met so far. */
  method TakeSnapshot(id: SnapshotId, sourceId: SourceId, files: seq<SnapshotFile>) returns (r: Result<Snapshot, SnapshotError>)
    ensures r == NewSnapshot(id, sourceId, files)
  {
    var sorted := Order.Sort(files, FilePath);
    Order.SortSorted(files, FilePath);
    var paths: set<ContentPath> := {};
    for i := 0 to |sorted|
      invariant Met(sorted, i, paths)
    {
      if sorted[i].path in paths {
        MetAgain(sorted, i, paths);
        return Failure(DuplicatePath(sorted[i].path));
      }
      MetFirst(sorted, i, paths);
      paths := paths + {sorted[i].path};
    }
    MetAll(sorted, paths);
    r := Success(Snapshot(id, sourceId, sorted));
  }

  // ---------- the backup projection ----------

  datatype Projection = Projection(id: SnapshotId, sourceId: SourceId, files: seq<SnapshotFile>, sha256: Digest)

  datatype ProjectionError = DuplicateProjectionPath(path: ContentPath) | UnrepresentablePath(path: ContentPath)

  function FirstControl(files: seq<SnapshotFile>): (r: Option<ContentPath>)
    ensures r.None? <==> forall f :: f in files ==> !Utf8.HasControl(f.path)
  {
    if files == [] then None
    else if Utf8.HasControl(files[0].path) then Some(files[0].path)
    else
      assert files == [files[0]] + files[1..];
      FirstControl(files[1..])
  }

  lemma {:induction false} FirstControlFound(files: seq<SnapshotFile>)
    ensures FirstControl(files).Some? ==> exists f :: f in files && Utf8.HasControl(f.path) && f.path == FirstControl(files).value
  {
    if files != [] && !Utf8.HasControl(files[0].path) {
      FirstControlFound(files[1..]);
      assert files == [files[0]] + files[1..];
    } else if files != [] {
      assert files[0] in files;
    }
  }

  function ProjectionRecord(f: SnapshotFile): string {
    Prefixed(f.path) + f.sha256 + U64(f.size)
  }

  function ProjectionRecords(files: seq<SnapshotFile>): string {
    if files == [] then "" else ProjectionRecord(files[0]) + ProjectionRecords(files[1..])
  }

  /** The bytes `projection::identity` hashes. */
  function ProjectionPreimage(id: SnapshotId, files: seq<SnapshotFile>): string {
    "mineral.backup-projection" + [1 as char] + U64(id) + ProjectionRecords(files)
  }

  /** `projection::identity`: feeds the hasher field by field. */
  method ProjectionIdentity(H: Hash, id: SnapshotId, files: seq<SnapshotFile>) returns (identity: Digest)
    ensures identity == H(ProjectionPreimage(id, files))
  {
    var hasher := new Hasher();
    hasher.Update("mineral.backup-projection", "");
    hasher.Update([1 as char], "");
    hasher.Update(U64(id), "");
    hide ProjectionRecords, ProjectionRecord, Prefixed, U64;
    assert hasher.absorbed + ProjectionRecords(files[0..]) == ProjectionPreimage(id, files) by {
      assert files[0..] == files;
    }
    for i := 0 to |files|
      invariant hasher.absorbed + ProjectionRecords(files[i..]) == ProjectionPreimage(id, files)
    {
      ghost var before, rest := hasher.absorbed, ProjectionRecords(files[i + 1..]);
      hasher.Update(Prefixed(files[i].path), "");
      hasher.Update(files[i].sha256, "");
      hasher.Update(U64(files[i].size), "");
      assert files[i..] == [files[i]] + files[i + 1..];
      ProjectionRecordsCons(files[i], files[i + 1..]);
      RecordFed(before, files[i], rest);
    }
    NoProjectionRecords();
    assert hasher.absorbed + "" == hasher.absorbed;
    identity := H(hasher.absorbed);
  }

  lemma ProjectionRecordsCons(f: SnapshotFile, rest: seq<SnapshotFile>)
    ensures ProjectionRecords([f] + rest) == ProjectionRecord(f) + ProjectionRecords(rest)
  {
    assert ([f] + rest)[1..] == rest;
  }

  lemma NoProjectionRecords()
    ensures ProjectionRecords([]) == ""
  {
  }

  lemma RecordFed(before: string, f: SnapshotFile, rest: string)
    ensures before + (ProjectionRecord(f) + rest) == before + Prefixed(f.path) + f.sha256 + U64(f.size) + rest
  {
    hide Prefixed, U64;
  }

  /** `BackupProjection::build` */
  function BuildProjection(H: Hash, s: Snapshot): (r: Result<Projection, ProjectionError>) {
    var files := Order.Sort(s.files, FilePath);
    match Order.FirstRepeat(files, FilePath)
    case Some(f) => Failure(DuplicateProjectionPath(f.path))
    case None =>
      match FirstControl(files)
      case Some(p) => Failure(UnrepresentablePath(p))
      case None => Success(Projection(s.id, s.sourceId, files, H(ProjectionPreimage(s.id, files))))
  }

  /** No path of a snapshot is added, dropped, renamed or given another identity. */
  lemma ProjectionFaithful(H: Hash, s: Snapshot)
    requires Order.Strict(s.files, FilePath)
    ensures var r := BuildProjection(H, s);
      && (r.Success? <==> forall f :: f in s.files ==> !Utf8.HasControl(f.path))
      && (r.Success? ==>
            && r.value.files == s.files && r.value.id == s.id && r.value.sourceId == s.sourceId
            && r.value.sha256 == H(ProjectionPreimage(s.id, s.files)))
      && (r.Failure? ==> exists f :: f in s.files && Utf8.HasControl(f.path) && r.error == UnrepresentablePath(f.path))
  {
    FirstControlFound(s.files);
    Order.StrictIsSorted(s.files, FilePath);
    Order.SortIdentity(s.files, FilePath);
    Order.NoRepeatIsStrict(s.files, FilePath);
  }

  ghost predicate ShortPaths(files: seq<SnapshotFile>) {
    forall f :: f in files ==> |f.path| <= U64_MAX
  }

  lemma RecordParts(f: SnapshotFile, rest: string)
    ensures ProjectionRecord(f) + rest == Prefixed(f.path) + (f.sha256 + (U64(f.size) + rest))
  {
    hide Prefixed, U64;
    Associate(Prefixed(f.path) + f.sha256, U64(f.size), rest);
    Associate(Prefixed(f.path), f.sha256, U64(f.size) + rest);
  }

  lemma ProjectionRecordCut(x: SnapshotFile, rx: string, y: SnapshotFile, ry: string)
    requires ProjectionRecord(x) + rx == ProjectionRecord(y) + ry
    requires |x.path| <= U64_MAX && |y.path| <= U64_MAX
    ensures x == y && rx == ry
  {
    hide ProjectionRecord, Prefixed, U64;
    var tx, ty := U64(x.size) + rx, U64(y.size) + ry;
    RecordParts(x, rx);
    RecordParts(y, ry);
    PrefixedCut(x.path, x.sha256 + tx, y.path, y.sha256 + ty);
    Cut(x.sha256, tx, y.sha256, ty);
    Cut(U64(x.size), rx, U64(y.size), ry);
    U64Less(x.size, y.size);
  }

  lemma {:induction false} ProjectionRecordsCut(a: seq<SnapshotFile>, b: seq<SnapshotFile>)
    requires ProjectionRecords(a) == ProjectionRecords(b)
    requires ShortPaths(a) && ShortPaths(b)
    ensures a == b
  {
    if a != [] && b != [] {
      ProjectionRecordCut(a[0], ProjectionRecords(a[1..]), b[0], ProjectionRecords(b[1..]));
      ProjectionRecordsCut(a[1..], b[1..]);
      assert a == [a[0]] + a[1..] && b == [b[0]] + b[1..];
    }
  }

  /** Two projections hash the same bytes only when they are the same snapshot content. */
  lemma ProjectionIdentityInjective(id: SnapshotId, a: seq<SnapshotFile>, id': SnapshotId, b: seq<SnapshotFile>)
    requires ProjectionPreimage(id, a) == ProjectionPreimage(id', b)
    requires ShortPaths(a) && ShortPaths(b)
    ensures id == id' && a == b
  {
    hide ProjectionPreimage, ProjectionRecords, U64, ShortPaths;
    var tag := "mineral.backup-projection" + [1 as char];
    PreimageParts(id, a);
    PreimageParts(id', b);
    Cut(tag, U64(id) + ProjectionRecords(a), tag, U64(id') + ProjectionRecords(b));
    Cut(U64(id), ProjectionRecords(a), U64(id'), ProjectionRecords(b));
    U64Less(id, id');
    ProjectionRecordsCut(a, b);
  }

  lemma PreimageParts(id: SnapshotId, files: seq<SnapshotFile>)
    ensures ProjectionPreimage(id, files) == ("mineral.backup-projection" + [1 as char]) + (U64(id) + ProjectionRecords(files))
  {
    hide ProjectionRecords, U64;
    Associate("mineral.backup-projection" + [1 as char], U64(id), ProjectionRecords(files));
  }
}
