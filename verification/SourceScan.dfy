/** The bounded source scan. */
module SourceScan {
  import opened Wrappers
  import opened Text
  import opened ContentPaths
  import opened Snapshots
  import opened SourceInventories
  import opened SourceRefresh
  import Order

  // `source/scan.rs`: a namespace is accepted only while it holds still. It is an adversary: what
  // each attempt sees is arbitrary, attempt by attempt.

  function FactPath(f: MaterializedEntry): string {
    f.path
  }

  /** `SourceMaterializationSet::new`: the facts in order, or the first path met twice. */
  function NewMaterializationSet(facts: seq<MaterializedEntry>): (r: Result<seq<MaterializedEntry>, ContentPath>) {
    var sorted := Order.Sort(facts, FactPath);
    match Order.FirstRepeat(sorted, FactPath)
    case Some(f) => Failure(f.path)
    case None => Success(sorted)
  }

  lemma NewMaterializationSetExact(facts: seq<MaterializedEntry>)
    ensures var r := NewMaterializationSet(facts);
      && (r.Success? <==> Order.DistinctKeys(facts, FactPath))
      && (r.Success? ==> Order.Strict(r.value, FactPath) && multiset(r.value) == multiset(facts))
      && (r.Failure? ==>
            && Order.Repeated(facts, FactPath, r.error)
            && forall path :: Order.Repeated(facts, FactPath, path) ==> !Order.Less(path, r.error))
  {
    Order.RepeatIsLeast(facts, FactPath);
    Order.SortSorted(facts, FactPath);
    Order.RepeatExact(facts, FactPath);
  }

  /** What the runtime answers during one attempt: a listing, its facts, and a second listing. */
  datatype Attempt = Attempt(
    before: Result<Inventory, string>,
    materialized: Result<seq<MaterializedEntry>, string>,
    after: Result<Inventory, string>)

  /** Listings and fact sets only exist once their constructors accepted them. */
  ghost predicate Constructed(a: Attempt) {
    && (a.before.Success? ==> Listed(a.before.value))
    && (a.after.Success? ==> Listed(a.after.value))
    && (a.materialized.Success? ==> Order.Strict(a.materialized.value, FactPath))
  }

  datatype ScanError =
    | ScanFailed(error: string)
    | Unstable(attempts: nat)
    | UnknownMaterialization(path: ContentPath)
    | MissingMaterialization(path: ContentPath)
    | SizeMismatch(path: ContentPath, reportedSize: u64, materializedSize: u64)

  datatype StabilizedSource = StabilizedSource(inventory: Inventory, materialized: seq<MaterializedEntry>)

  // ---------- validation ----------

  /** The fact for a path; a strictly ordered set has at most one. */
  function FactFor(facts: seq<MaterializedEntry>, path: ContentPath): (r: Option<MaterializedEntry>)
    ensures r.Some? ==> r.value in facts && r.value.path == path
    ensures r.None? ==> forall f :: f in facts ==> f.path != path
  {
    if facts == [] then None
    else if facts[0].path == path then Some(facts[0])
    else
      HeadAndTail(facts);
      FactFor(facts[1..], path)
  }

  lemma OnlyFactFor(facts: seq<MaterializedEntry>, i: nat)
    requires Order.Strict(facts, FactPath) && i < |facts|
    ensures FactFor(facts, facts[i].path) == Some(facts[i])
  {
    Order.StrictIsSorted(facts, FactPath);
    var r := FactFor(facts, facts[i].path);
    assert facts[i] in facts;
    var k :| 0 <= k < |facts| && facts[k] == r.value;
    assert FactPath(facts[k]) == FactPath(facts[i]);
  }

  /** `SourceMaterializationSet::get`: a binary search by path. */
  method Get(facts: seq<MaterializedEntry>, path: ContentPath) returns (r: Option<MaterializedEntry>)
    requires Order.Strict(facts, FactPath)
    ensures r == FactFor(facts, path)
  {
    var lo, hi := 0, |facts|;
    while lo < hi
      invariant 0 <= lo <= hi <= |facts|
      invariant forall i :: 0 <= i < lo ==> Order.Less(facts[i].path, path)
      invariant forall i :: hi <= i < |facts| ==> Order.Less(path, facts[i].path)
    {
      var mid := (lo + hi) / 2;
      if facts[mid].path == path {
        OnlyFactFor(facts, mid);
        return Some(facts[mid]);
      }
      Order.Trichotomy(facts[mid].path, path);
      if Order.Less(facts[mid].path, path) {
        BelowToo(facts, mid, path);
        lo := mid + 1;
      } else {
        AboveToo(facts, mid, path);
        hi := mid;
      }
    }
    NotThere(facts, lo, path);
    r := None;
  }

  lemma BelowToo(facts: seq<MaterializedEntry>, mid: nat, path: ContentPath)
    requires Order.Strict(facts, FactPath) && mid < |facts| && Order.Less(facts[mid].path, path)
    ensures forall i :: 0 <= i <= mid ==> Order.Less(facts[i].path, path)
  {
    forall i | 0 <= i < mid ensures Order.Less(facts[i].path, path) {
      assert Order.Less(FactPath(facts[i]), FactPath(facts[mid]));
      LessChain(facts[i].path, facts[mid].path, path);
    }
  }

  lemma AboveToo(facts: seq<MaterializedEntry>, mid: nat, path: ContentPath)
    requires Order.Strict(facts, FactPath) && mid < |facts| && Order.Less(path, facts[mid].path)
    ensures forall i :: mid <= i < |facts| ==> Order.Less(path, facts[i].path)
  {
    forall i | mid < i < |facts| ensures Order.Less(path, facts[i].path) {
      assert Order.Less(FactPath(facts[mid]), FactPath(facts[i]));
      LessChain(path, facts[mid].path, facts[i].path);
    }
  }

  lemma LessChain(a: string, b: string, c: string)
    requires Order.Less(a, b) && Order.Less(b, c)
    ensures Order.Less(a, c)
  {
    Order.Trichotomy(a, b);
    Order.Trichotomy(b, c);
    Order.Transitive(a, b, c);
  }

  lemma NotThere(facts: seq<MaterializedEntry>, lo: nat, path: ContentPath)
    requires lo <= |facts|
    requires forall i :: 0 <= i < lo ==> Order.Less(facts[i].path, path)
    requires forall i :: lo <= i < |facts| ==> Order.Less(path, facts[i].path)
    ensures FactFor(facts, path).None?
  {
    forall f | f in facts ensures f.path != path {
      var i :| 0 <= i < |facts| && facts[i] == f;
      Order.Trichotomy(path, path);
      assert i < lo ==> Order.Less(facts[i].path, path);
    }
  }

  /** The first fact whose path was never listed. */
  function FirstUnlisted(facts: seq<MaterializedEntry>, entries: seq<InventoryEntry>): (r: Option<ContentPath>)
    ensures r.None? <==> forall f :: f in facts ==> exists e :: e in entries && e.path == f.path
  {
    if facts == [] then None
    else
      HeadAndTail(facts);
      if exists e :: e in entries && e.path == facts[0].path then FirstUnlisted(facts[1..], entries)
      else Some(facts[0].path)
  }

  /** What is wrong with the fact for one entry. */
  function EntryProblem(e: InventoryEntry, facts: seq<MaterializedEntry>): Option<ScanError> {
    match FactFor(facts, e.path)
    case None => Some(MissingMaterialization(e.path))
    case Some(f) => if f.size != e.reportedSize then Some(SizeMismatch(e.path, e.reportedSize, f.size)) else None
  }

  function FirstProblem(entries: seq<InventoryEntry>, facts: seq<MaterializedEntry>): (r: Option<ScanError>)
    ensures r.None? <==> forall e :: e in entries ==> EntryProblem(e, facts).None?
  {
    if entries == [] then None
    else
      HeadAndTail(entries);
      match EntryProblem(entries[0], facts)
      case Some(problem) => Some(problem)
      case None => FirstProblem(entries[1..], facts)
  }

  /** What `validate_materialization` answers. */
  function Problem(inv: Inventory, facts: seq<MaterializedEntry>): Option<ScanError> {
    match FirstUnlisted(facts, inv.entries)
    case Some(path) => Some(UnknownMaterialization(path))
    case None => FirstProblem(inv.entries, facts)
  }

  /** `validate_materialization`: two passes, each returning at the first thing wrong. */
  method ValidateMaterialization(inv: Inventory, facts: seq<MaterializedEntry>) returns (r: Option<ScanError>)
    requires Order.Strict(facts, FactPath)
    ensures r == Problem(inv, facts)
  {
    var entries := inv.entries;
    assert facts[0..] == facts && entries[0..] == entries;
    for i := 0 to |facts|
      invariant FirstUnlisted(facts, entries) == FirstUnlisted(facts[i..], entries)
    {
      assert facts[i..][1..] == facts[i + 1..];
      if !exists e :: e in entries && e.path == facts[i].path {
        return Some(UnknownMaterialization(facts[i].path));
      }
    }
    for i := 0 to |entries|
      invariant FirstProblem(entries, facts) == FirstProblem(entries[i..], facts)
    {
      assert entries[i..][1..] == entries[i + 1..];
      var fact := Get(facts, entries[i].path);
      if fact.None? {
        return Some(MissingMaterialization(entries[i].path));
      }
      if fact.value.size != entries[i].reportedSize {
        return Some(SizeMismatch(entries[i].path, entries[i].reportedSize, fact.value.size));
      }
    }
    r := None;
  }

  /** Facts and listing agree element for element. */
  ghost predicate Agree(inv: Inventory, facts: seq<MaterializedEntry>) {
    && |facts| == |inv.entries|
    && forall i :: 0 <= i < |facts| ==> facts[i].path == inv.entries[i].path && facts[i].size == inv.entries[i].reportedSize
  }

  /** Validation accepts exactly the facts that agree with the listing, path by path and size by size. */
  lemma ValidationExact(inv: Inventory, facts: seq<MaterializedEntry>)
    requires Listed(inv) && Order.Strict(facts, FactPath)
    ensures Problem(inv, facts).None? <==> Agree(inv, facts)
  {
    if Problem(inv, facts).None? {
      AcceptedPaths(inv, facts);
      forall i | 0 <= i < |facts| ensures facts[i].size == inv.entries[i].reportedSize {
        OnlyFactFor(facts, i);
        assert inv.entries[i] in inv.entries;
      }
    } else if Agree(inv, facts) {
      AgreeingPass(inv, facts);
    }
  }

  lemma AcceptedPaths(inv: Inventory, facts: seq<MaterializedEntry>)
    requires Listed(inv) && Order.Strict(facts, FactPath) && Problem(inv, facts).None?
    ensures |facts| == |inv.entries|
    ensures forall i :: 0 <= i < |facts| ==> facts[i].path == inv.entries[i].path
  {
    var a, b := Order.Keys(facts, FactPath), Order.Keys(inv.entries, EntryPath);
    forall x | x in a ensures x in b {
      FactIsListed(inv, facts, x);
    }
    forall x | x in b ensures x in a {
      ListedHasFact(inv, facts, x);
    }
    Order.StrictKeysUnique(a, b);
    assert forall i :: 0 <= i < |facts| ==> a[i] == facts[i].path && b[i] == inv.entries[i].path;
  }

  lemma FactIsListed(inv: Inventory, facts: seq<MaterializedEntry>, x: string)
    requires Problem(inv, facts).None? && x in Order.Keys(facts, FactPath)
    ensures x in Order.Keys(inv.entries, EntryPath)
  {
    var i :| 0 <= i < |facts| && FactPath(facts[i]) == x;
    assert facts[i] in facts;
    var e :| e in inv.entries && e.path == facts[i].path;
    var k :| 0 <= k < |inv.entries| && inv.entries[k] == e;
    assert Order.Keys(inv.entries, EntryPath)[k] == x;
  }

  lemma ListedHasFact(inv: Inventory, facts: seq<MaterializedEntry>, x: string)
    requires Problem(inv, facts).None? && x in Order.Keys(inv.entries, EntryPath)
    ensures x in Order.Keys(facts, FactPath)
  {
    var k :| 0 <= k < |inv.entries| && EntryPath(inv.entries[k]) == x;
    assert inv.entries[k] in inv.entries && EntryProblem(inv.entries[k], facts).None?;
    var f := FactFor(facts, inv.entries[k].path).value;
    var i :| 0 <= i < |facts| && facts[i] == f;
    assert Order.Keys(facts, FactPath)[i] == x;
  }

  lemma AgreeingPass(inv: Inventory, facts: seq<MaterializedEntry>)
    requires Order.Strict(facts, FactPath) && Agree(inv, facts)
    ensures Problem(inv, facts).None?
  {
    forall f | f in facts ensures exists e :: e in inv.entries && e.path == f.path {
      var i :| 0 <= i < |facts| && facts[i] == f;
      assert inv.entries[i] in inv.entries;
    }
    forall e | e in inv.entries ensures EntryProblem(e, facts).None? {
      var i :| 0 <= i < |inv.entries| && inv.entries[i] == e;
      OnlyFactFor(facts, i);
    }
  }

  // ---------- the retry loop ----------

  /** An attempt that saw the namespace change under it. */
  predicate Changed(H: Hash, a: Attempt) {
    && a.before.Success? && a.materialized.Success? && a.after.Success?
    && H(InventoryPreimage(a.before.value)) != H(InventoryPreimage(a.after.value))
  }

  /** What an attempt that ends the scan answers. */
  function Verdict(a: Attempt): Result<StabilizedSource, ScanError> {
    match a.before
    case Failure(error) => Failure(ScanFailed(error))
    case Success(before) =>
      match a.materialized
      case Failure(error) => Failure(ScanFailed(error))
      case Success(facts) =>
        match a.after
        case Failure(error) => Failure(ScanFailed(error))
        case Success(_) =>
          match Problem(before, facts)
          case Some(problem) => Failure(problem)
          case None => Success(StabilizedSource(before, facts))
  }

  /** The answer of the first attempt that did not see a change, if any of them did not. */
  ghost predicate AnswerOf(H: Hash, scan: nat -> Attempt, attempts: nat, r: Result<StabilizedSource, ScanError>) {
    || ((forall k :: 0 <= k < attempts ==> Changed(H, scan(k))) && r == Failure(Unstable(attempts)))
    || exists k :: 0 <= k < attempts && EndsAt(H, scan, k) && r == Verdict(scan(k))
  }

  ghost predicate EndsAt(H: Hash, scan: nat -> Attempt, k: nat) {
    !Changed(H, scan(k)) && forall j :: 0 <= j < k ==> Changed(H, scan(j))
  }

  /** `stabilize_scan` */
  method StabilizeScan(H: Hash, scan: nat -> Attempt, maxAttempts: nat) returns (r: Result<StabilizedSource, ScanError>)
    requires forall k :: Constructed(scan(k))
    ensures AnswerOf(H, scan, if maxAttempts == 0 then 1 else maxAttempts, r)
  {
    var attempts := if maxAttempts == 0 then 1 else maxAttempts;
    for k := 0 to attempts
      invariant forall j :: 0 <= j < k ==> Changed(H, scan(j))
    {
      assert !Changed(H, scan(k)) ==> EndsAt(H, scan, k);
      assert Constructed(scan(k));
      var verdict := TryOnce(H, scan(k));
      match verdict {
        case Some(answer) => return answer;
        case None => continue;
      }
    }
    r := Failure(Unstable(attempts));
  }

  /** One round of the loop: an answer, or nothing when the namespace changed. */
  method TryOnce(H: Hash, attempt: Attempt) returns (answer: Option<Result<StabilizedSource, ScanError>>)
    requires Constructed(attempt)
    ensures answer == if Changed(H, attempt) then None else Some(Verdict(attempt))
  {
    if attempt.before.Failure? {
      return Some(Failure(ScanFailed(attempt.before.error)));
    }
    if attempt.materialized.Failure? {
      return Some(Failure(ScanFailed(attempt.materialized.error)));
    }
    if attempt.after.Failure? {
      return Some(Failure(ScanFailed(attempt.after.error)));
    }
    var before := InventoryIdentity(H, attempt.before.value);
    var after := InventoryIdentity(H, attempt.after.value);
    if before != after {
      return None;
    }
    var problem := ValidateMaterialization(attempt.before.value, attempt.materialized.value);
    match problem {
      case Some(error) => answer := Some(Failure(error));
      case None => answer := Some(Success(StabilizedSource(attempt.before.value, attempt.materialized.value)));
    }
  }

  /** Only one answer is possible, so `Unstable` means that every attempt saw a change. */
  lemma UnstableExact(H: Hash, scan: nat -> Attempt, attempts: nat, r: Result<StabilizedSource, ScanError>)
    requires AnswerOf(H, scan, attempts, r)
    ensures r == Failure(Unstable(attempts)) <==> forall k :: 0 <= k < attempts ==> Changed(H, scan(k))
  {
    if !forall k :: 0 <= k < attempts ==> Changed(H, scan(k)) {
      var k :| 0 <= k < attempts && EndsAt(H, scan, k) && r == Verdict(scan(k));
      VerdictIsNotUnstable(scan(k));
    }
  }

  lemma VerdictIsNotUnstable(a: Attempt)
    ensures Verdict(a).Failure? ==> !Verdict(a).error.Unstable?
  {
    if a.before.Success? && a.materialized.Success? && FirstUnlisted(a.materialized.value, a.before.value.entries).None? {
      ProblemIsNotUnstable(a.before.value.entries, a.materialized.value);
    }
  }

  lemma {:induction false} ProblemIsNotUnstable(entries: seq<InventoryEntry>, facts: seq<MaterializedEntry>)
    ensures FirstProblem(entries, facts).Some? ==> !FirstProblem(entries, facts).value.Unstable?
  {
    if entries != [] {
      ProblemIsNotUnstable(entries[1..], facts);
    }
  }

  /** The encodings on which a collision would matter: those the scan compares. */
  ghost predicate NoCollision(H: Hash, a: Attempt) {
    a.before.Success? && a.after.Success? ==>
      && ShortListing(a.before.value) && ShortListing(a.after.value)
      && CollisionFreeOn(H, {InventoryPreimage(a.before.value), InventoryPreimage(a.after.value)})
  }

  /**
   A scan that succeeds saw, in one attempt, the same listing before and after materializing,
   and the facts it returns are that listing element for element.
   */
  lemma StableMeansUnchanged(H: Hash, scan: nat -> Attempt, attempts: nat, r: Result<StabilizedSource, ScanError>)
    requires forall k :: Constructed(scan(k)) && NoCollision(H, scan(k))
    requires AnswerOf(H, scan, attempts, r) && r.Success?
    ensures exists k :: (
      && 0 <= k < attempts && EndsAt(H, scan, k)
      && scan(k).before == scan(k).after == Success(r.value.inventory)
      && scan(k).materialized == Success(r.value.materialized))
    ensures Listed(r.value.inventory) && Order.Strict(r.value.materialized, FactPath)
    ensures Agree(r.value.inventory, r.value.materialized)
  {
    var k :| 0 <= k < attempts && EndsAt(H, scan, k) && r == Verdict(scan(k));
    var a := scan(k);
    assert Constructed(scan(k)) && NoCollision(H, scan(k));
    SameIdentity(H, a.before.value, a.after.value);
    ValidationExact(a.before.value, a.materialized.value);
  }

  // ---------- what a scan answers ----------

  /** The error is true of this listing and these facts. */
  ghost predicate Blames(inv: Inventory, facts: seq<MaterializedEntry>, error: ScanError) {
    match error
    case UnknownMaterialization(path) =>
      (exists f :: f in facts && f.path == path) && forall e :: e in inv.entries ==> e.path != path
    case MissingMaterialization(path) =>
      (exists e :: e in inv.entries && e.path == path) && forall f :: f in facts ==> f.path != path
    case SizeMismatch(path, reportedSize, materializedSize) =>
      && reportedSize != materializedSize
      && (exists e :: e in inv.entries && e.path == path && e.reportedSize == reportedSize)
      && exists f :: f in facts && f.path == path && f.size == materializedSize
    case _ => false
  }

  lemma {:induction false} UnlistedFound(facts: seq<MaterializedEntry>, entries: seq<InventoryEntry>)
    ensures var r := FirstUnlisted(facts, entries);
      r.Some? ==> (exists f :: f in facts && f.path == r.value) && forall e :: e in entries ==> e.path != r.value
  {
    if facts != [] {
      HeadAndTail(facts);
      UnlistedFound(facts[1..], entries);
    }
  }

  lemma {:induction false} ProblemFound(inv: Inventory, entries: seq<InventoryEntry>, facts: seq<MaterializedEntry>)
    requires forall e :: e in entries ==> e in inv.entries
    ensures FirstProblem(entries, facts).Some? ==> Blames(inv, facts, FirstProblem(entries, facts).value)
  {
    if entries != [] {
      assert entries[0] in entries;
      assert forall e :: e in entries[1..] ==> e in entries;
      ProblemFound(inv, entries[1..], facts);
    }
  }

  lemma ProblemBlames(inv: Inventory, facts: seq<MaterializedEntry>)
    ensures Problem(inv, facts).Some? ==> Blames(inv, facts, Problem(inv, facts).value)
  {
    UnlistedFound(facts, inv.entries);
    ProblemFound(inv, inv.entries, facts);
  }

  /** The attempt ends the scan: it failed, or it saw the same listing twice. */
  predicate Quiet(a: Attempt) {
    a.before.Failure? || a.materialized.Failure? || a.after.Failure? || a.before.value == a.after.value
  }

  lemma QuietExact(H: Hash, a: Attempt)
    requires NoCollision(H, a)
    ensures Quiet(a) <==> !Changed(H, a)
  {
    if a.before.Success? && a.after.Success? {
      SameIdentity(H, a.before.value, a.after.value);
    }
  }

  /**
   The scan is decided by its first quiet attempt: the first failure in it is passed on, facts that
   do not match the listing are blamed for what is wrong with them, and anything else is accepted as it was seen.
   */
  lemma ScanAnswer(H: Hash, scan: nat -> Attempt, attempts: nat, r: Result<StabilizedSource, ScanError>, k: nat)
    requires forall j :: Constructed(scan(j)) && NoCollision(H, scan(j))
    requires AnswerOf(H, scan, attempts, r)
    requires k < attempts && Quiet(scan(k)) && forall j :: 0 <= j < k ==> !Quiet(scan(j))
    ensures match scan(k)
      case Attempt(Failure(error), _, _) => r == Failure(ScanFailed(error))
      case Attempt(_, Failure(error), _) => r == Failure(ScanFailed(error))
      case Attempt(_, _, Failure(error)) => r == Failure(ScanFailed(error))
      case Attempt(Success(inv), Success(facts), _) =>
        if Agree(inv, facts) then r == Success(StabilizedSource(inv, facts)) else r.Failure? && Blames(inv, facts, r.error)
  {
    hide NoCollision, Changed, Quiet, Problem, Agree, Blames;
    forall j | 0 <= j <= k ensures Quiet(scan(j)) <==> !Changed(H, scan(j)) {
      assert NoCollision(H, scan(j));
      QuietExact(H, scan(j));
    }
    assert Constructed(scan(k));
    var a := scan(k);
    if a.before.Success? && a.materialized.Success? {
      ValidationExact(a.before.value, a.materialized.value);
      ProblemBlames(a.before.value, a.materialized.value);
    }
    var i :| 0 <= i < attempts && EndsAt(H, scan, i) && r == Verdict(scan(i));
    assert i == k;
  }

  // ---------- the assembled snapshot ----------

  function FileOfFact(f: MaterializedEntry): SnapshotFile {
    SnapshotFile(f.path, f.size, f.sha256)
  }

  function FilesOf(facts: seq<MaterializedEntry>): (files: seq<SnapshotFile>)
    ensures |files| == |facts| && forall i :: 0 <= i < |facts| ==> files[i] == FileOfFact(facts[i])
  {
    seq(|facts|, i requires 0 <= i < |facts| => FileOfFact(facts[i]))
  }

  /** `StabilizedSource::snapshot` */
  function SnapshotOf(s: StabilizedSource, id: SnapshotId, sourceId: SourceId): Result<Snapshot, SnapshotError> {
    NewSnapshot(id, sourceId, FilesOf(s.materialized))
  }

  /**
   The snapshot of a stable scan cannot report a duplicate. It holds every listed path and no other,
   each with the size and the digest of the fact that was materialized for it.
   */
  lemma NoFileIsLost(s: StabilizedSource, id: SnapshotId, sourceId: SourceId)
    requires Order.Strict(s.materialized, FactPath) && Agree(s.inventory, s.materialized)
    ensures var r := SnapshotOf(s, id, sourceId);
      && r.Success? && r.value.id == id && r.value.sourceId == sourceId
      && |r.value.files| == |s.inventory.entries| == |s.materialized|
      && Order.Strict(r.value.files, FilePath)
      && forall i :: 0 <= i < |r.value.files| ==>
          var file, fact := r.value.files[i], s.materialized[i];
          && file.path == fact.path == s.inventory.entries[i].path
          && file.size == fact.size == s.inventory.entries[i].reportedSize
          && file.sha256 == fact.sha256
  {
    var files := FilesOf(s.materialized);
    forall i, j | 0 <= i < j < |files| ensures Order.Less(FilePath(files[i]), FilePath(files[j])) {
      assert Order.Less(FactPath(s.materialized[i]), FactPath(s.materialized[j]));
    }
    Order.StrictIsSorted(files, FilePath);
    Order.SortIdentity(files, FilePath);
    Order.NoRepeatIsStrict(files, FilePath);
  }

  /**
   Scan and refresh together: when the facts come from carrying out the refresh plan over honest
   bindings, an unchanged namespace is refused only because a size it reported is not the size of
   the bytes it served.
   */
  lemma HonestScanIsAccepted(H: Hash, remote: Remote, inv: Inventory, cache: Cache)
    requires Listed(inv) && HonestCache(H, remote, cache)
    requires CollisionFreeOn(H, Contents(remote, inv.source, inv.entries, cache))
    ensures var planned := StepsOf(inv.source, inv.entries, FactsOf(cache));
      && planned.Success?
      && var facts := CarryOut(H, remote, inv.source, planned.value, cache.blobs).facts;
      && NewMaterializationSet(facts) == Success(facts)
      && (Problem(inv, facts).None? <==> forall e :: e in inv.entries ==> Size(remote(KeyOf(inv.source, e))) == e.reportedSize)
  {
    RefreshRefinesFetching(H, remote, inv, cache);
    FetchedFactsAreASet(H, remote, inv);
    FetchedFactsValidate(H, remote, inv);
  }

  lemma FetchedFactsAreASet(H: Hash, remote: Remote, inv: Inventory)
    requires Listed(inv)
    ensures var facts := FetchAll(H, remote, inv.source, inv.entries);
      NewMaterializationSet(facts) == Success(facts) && Order.Strict(facts, FactPath)
  {
    var facts := FetchAll(H, remote, inv.source, inv.entries);
    forall i, j | 0 <= i < j < |facts| ensures Order.Less(FactPath(facts[i]), FactPath(facts[j])) {
      assert Order.Less(EntryPath(inv.entries[i]), EntryPath(inv.entries[j]));
    }
    Order.StrictIsSorted(facts, FactPath);
    Order.SortIdentity(facts, FactPath);
    Order.NoRepeatIsStrict(facts, FactPath);
  }

  lemma FetchedFactsValidate(H: Hash, remote: Remote, inv: Inventory)
    requires Listed(inv)
    ensures Problem(inv, FetchAll(H, remote, inv.source, inv.entries)).None?
       <==> forall e :: e in inv.entries ==> Size(remote(KeyOf(inv.source, e))) == e.reportedSize
  {
    hide *;
    FetchedFactsAreASet(H, remote, inv);
    ValidationExact(inv, FetchAll(H, remote, inv.source, inv.entries));
    FetchedFactsAgree(H, remote, inv);
  }

  lemma FetchedFactsAgree(H: Hash, remote: Remote, inv: Inventory)
    ensures Agree(inv, FetchAll(H, remote, inv.source, inv.entries))
       <==> forall e :: e in inv.entries ==> Size(remote(KeyOf(inv.source, e))) == e.reportedSize
  {
    assert forall i :: 0 <= i < |inv.entries| ==> inv.entries[i] in inv.entries;
  }
}
