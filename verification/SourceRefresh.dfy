/**
 Which listed objects must be read again (`source/refresh.rs`), and why skipping the others
 loses nothing.
 */
module SourceRefresh {
  import opened Wrappers
  import opened Text
  import opened ContentPaths
  import opened Snapshots
  import opened SourceInventories

  /** One durable fact: these bytes were read at exactly this source, path and revision. */
  datatype Materialization = Materialization(source: Digest, path: ContentPath, revision: SourceRevision, sha256: Digest, size: u64)

  datatype Key = Key(source: Digest, path: ContentPath, revision: SourceRevision)

  /** `SourceRefreshFacts`: the two questions a plan may ask, either of which may fail. */
  datatype Facts = Facts(
    materialization: Key -> Result<Option<Materialization>, string>,
    storedBlobSize: Digest -> Result<Option<u64>, string>)

  datatype RefreshStep = Reuse(entry: InventoryEntry, sha256: Digest, size: u64) | Fetch(entry: InventoryEntry)

  datatype RefreshPlan = RefreshPlan(source: Digest, steps: seq<RefreshStep>)

  datatype RefreshError =
    | FactsFailed(error: string)
    | MismatchedFact(path: ContentPath)
    | ConflictingMaterialization(path: ContentPath, revision: SourceRevision, boundSize: u64, storedSize: u64)

  function KeyOf(source: Digest, e: InventoryEntry): Key {
    Key(source, e.path, e.revision)
  }

  predicate Answers(m: Materialization, key: Key) {
    m.source == key.source && m.path == key.path && m.revision == key.revision
  }

  /** What one entry needs. */
  function StepOf(source: Digest, e: InventoryEntry, facts: Facts): Result<RefreshStep, RefreshError> {
    match facts.materialization(KeyOf(source, e))
    case Failure(error) => Failure(FactsFailed(error))
    case Success(None) => Success(Fetch(e))
    case Success(Some(m)) =>
      if !Answers(m, KeyOf(source, e)) then Failure(MismatchedFact(e.path))
      else
        match facts.storedBlobSize(m.sha256)
        case Failure(error) => Failure(FactsFailed(error))
        case Success(None) => Success(Fetch(e))
        case Success(Some(size)) =>
          if size == m.size then Success(Reuse(e, m.sha256, m.size))
          else Failure(ConflictingMaterialization(e.path, e.revision, m.size, size))
  }

  /** The steps for some entries, or the error of the first entry that has one. */
  function StepsOf(source: Digest, entries: seq<InventoryEntry>, facts: Facts): Result<seq<RefreshStep>, RefreshError> {
    if entries == [] then Success([])
    else
      var first :- StepOf(source, entries[0], facts);
      var rest :- StepsOf(source, entries[1..], facts);
      Success([first] + rest)
  }

  function Push(steps: seq<RefreshStep>, rest: Result<seq<RefreshStep>, RefreshError>): Result<seq<RefreshStep>, RefreshError> {
    match rest
    case Success(more) => Success(steps + more)
    case Failure(error) => Failure(error)
  }

  lemma PushNone(rest: Result<seq<RefreshStep>, RefreshError>)
    ensures Push([], rest) == rest
  {
    if rest.Success? {
      assert [] + rest.value == rest.value;
    }
  }

  lemma PushFirst(source: Digest, entries: seq<InventoryEntry>, i: nat, facts: Facts, steps: seq<RefreshStep>)
    requires i < |entries|
    ensures var step := StepOf(source, entries[i], facts);
      && (step.Success? ==> Push(steps, StepsOf(source, entries[i..], facts)) == Push(steps + [step.value], StepsOf(source, entries[i + 1..], facts)))
      && (step.Failure? ==> Push(steps, StepsOf(source, entries[i..], facts)) == Failure(step.error))
  {
    assert entries[i..][1..] == entries[i + 1..];
    var rest := StepsOf(source, entries[i + 1..], facts);
    var step := StepOf(source, entries[i], facts);
    if step.Success? && rest.Success? {
      assert steps + ([step.value] + rest.value) == (steps + [step.value]) + rest.value;
    }
  }

  /** `plan_source_refresh`: one pass over the inventory, pushing a step or returning the first error. */
  method PlanSourceRefresh(inventory: Inventory, facts: Facts) returns (r: Result<RefreshPlan, RefreshError>)
    ensures r == match StepsOf(inventory.source, inventory.entries, facts)
                 case Success(steps) => Success(RefreshPlan(inventory.source, steps))
                 case Failure(error) => Failure(error)
  {
    var source, entries := inventory.source, inventory.entries;
    ghost var whole := StepsOf(source, entries, facts);
    var steps: seq<RefreshStep> := [];
    assert entries[0..] == entries;
    PushNone(whole);
    for i := 0 to |entries|
      invariant Push(steps, StepsOf(source, entries[i..], facts)) == whole
    {
      PushFirst(source, entries, i, facts, steps);
      var entry := entries[i];
      var stored := facts.materialization(KeyOf(source, entry));
      if stored.Failure? {
        return Failure(FactsFailed(stored.error));
      }
      if stored.value.None? {
        steps := steps + [Fetch(entry)];
        continue;
      }
      var m := stored.value.value;
      if m.source != source || m.path != entry.path || m.revision != entry.revision {
        return Failure(MismatchedFact(entry.path));
      }
      var found := facts.storedBlobSize(m.sha256);
      match found {
        case Failure(error) => return Failure(FactsFailed(error));
        case Success(None) => steps := steps + [Fetch(entry)];
        case Success(Some(size)) =>
          if size != m.size {
            return Failure(ConflictingMaterialization(entry.path, entry.revision, m.size, size));
          }
          steps := steps + [Reuse(entry, m.sha256, m.size)];
      }
    }
    assert steps + [] == steps;
    r := Success(RefreshPlan(source, steps));
  }

  // ---------- what a plan promises ----------

  /** Nothing is skipped, added or reordered: step by step, the plan is the inventory. */
  lemma {:induction false} StepsMatchEntries(source: Digest, entries: seq<InventoryEntry>, facts: Facts)
    requires StepsOf(source, entries, facts).Success?
    ensures var steps := StepsOf(source, entries, facts).value;
      && |steps| == |entries|
      && forall i :: 0 <= i < |entries| ==> steps[i].entry == entries[i] && StepOf(source, entries[i], facts) == Success(steps[i])
  {
    if entries != [] {
      StepsMatchEntries(source, entries[1..], facts);
    }
  }

  /** A plan exists exactly when every entry's facts were answered, about the right key and consistently. */
  lemma {:induction false} PlanExists(source: Digest, entries: seq<InventoryEntry>, facts: Facts)
    ensures StepsOf(source, entries, facts).Success? <==> forall e :: e in entries ==> StepOf(source, e, facts).Success?
  {
    if entries != [] {
      PlanExists(source, entries[1..], facts);
      HeadAndTail(entries);
    }
  }

  function Reused(steps: seq<RefreshStep>): nat {
    if steps == [] then 0 else (if steps[0].Reuse? then 1 else 0) + Reused(steps[1..])
  }

  function ToFetch(steps: seq<RefreshStep>): nat {
    if steps == [] then 0 else (if steps[0].Fetch? then 1 else 0) + ToFetch(steps[1..])
  }

  function FetchPaths(steps: seq<RefreshStep>): (paths: seq<ContentPath>)
    ensures |paths| == ToFetch(steps)
  {
    if steps == [] then [] else (if steps[0].Fetch? then [steps[0].entry.path] else []) + FetchPaths(steps[1..])
  }

  // ---------- what a step and a counter mean ----------

  /** A durable fact binds exactly this revision, and the store still holds a blob of the bound size. */
  predicate Reusable(source: Digest, e: InventoryEntry, facts: Facts) {
    match facts.materialization(Key(source, e.path, e.revision))
    case Success(Some(m)) =>
      m.source == source && m.path == e.path && m.revision == e.revision && facts.storedBlobSize(m.sha256) == Success(Some(m.size))
    case _ => false
  }

  /** Nothing is bound, or the bound blob is gone. */
  predicate Unproven(source: Digest, e: InventoryEntry, facts: Facts) {
    match facts.materialization(Key(source, e.path, e.revision))
    case Success(None) => true
    case Success(Some(m)) =>
      m.source == source && m.path == e.path && m.revision == e.revision && facts.storedBlobSize(m.sha256) == Success(None)
    case _ => false
  }

  /** The refusal is true of this entry: a question failed, a fact is about another key, or the store contradicts it. */
  ghost predicate Refuses(source: Digest, e: InventoryEntry, facts: Facts, error: RefreshError) {
    var bound := facts.materialization(Key(source, e.path, e.revision));
    match error
    case FactsFailed(cause) =>
      || bound == Failure(cause)
      || (bound.Success? && bound.value.Some? && facts.storedBlobSize(bound.value.value.sha256) == Failure(cause))
    case MismatchedFact(path) =>
      path == e.path && bound.Success? && bound.value.Some?
      && Key(bound.value.value.source, bound.value.value.path, bound.value.value.revision) != Key(source, e.path, e.revision)
    case ConflictingMaterialization(path, revision, boundSize, storedSize) =>
      && path == e.path && revision == e.revision && boundSize != storedSize
      && bound.Success? && bound.value.Some? && bound.value.value.size == boundSize
      && facts.storedBlobSize(bound.value.value.sha256) == Success(Some(storedSize))
  }

  /** An entry is reused, fetched or refused exactly for what the facts say about it. */
  lemma StepExact(source: Digest, e: InventoryEntry, facts: Facts)
    ensures var r := StepOf(source, e, facts);
      && (r.Success? && r.value.Reuse? <==> Reusable(source, e, facts))
      && (r.Success? && r.value.Fetch? <==> Unproven(source, e, facts))
      && (r.Success? ==> r.value.entry == e)
      && (r.Success? && r.value.Reuse? ==>
            facts.materialization(Key(source, e.path, e.revision))
              == Success(Some(Materialization(source, e.path, e.revision, r.value.sha256, r.value.size))))
      && (r.Failure? ==> Refuses(source, e, facts, r.error))
  {
  }

  /** A plan is refused for its first refused entry. */
  lemma {:induction false} FirstRefusal(source: Digest, entries: seq<InventoryEntry>, facts: Facts, i: nat)
    requires i < |entries| && !Reusable(source, entries[i], facts) && !Unproven(source, entries[i], facts)
    requires forall j :: 0 <= j < i ==> Reusable(source, entries[j], facts) || Unproven(source, entries[j], facts)
    ensures StepsOf(source, entries, facts).Failure? && Refuses(source, entries[i], facts, StepsOf(source, entries, facts).error)
  {
    hide StepOf, Reusable, Unproven, Refuses;
    StepExact(source, entries[0], facts);
    if i > 0 {
      FirstRefusal(source, entries[1..], facts, i - 1);
    }
  }

  /** `ks` lists exactly the positions from `from` on of the fetches, or of the reuses, in order. */
  ghost predicate Positions(steps: seq<RefreshStep>, from: nat, fetch: bool, ks: seq<nat>) {
    && (forall a, b :: 0 <= a < b < |ks| ==> ks[a] < ks[b])
    && (forall k :: k in ks <==> from <= k < |steps| && steps[k].Fetch? == fetch)
  }

  lemma PositionsCons(steps: seq<RefreshStep>, from: nat, fetch: bool, ks: seq<nat>)
    requires from < |steps| && Positions(steps, from + 1, fetch, ks)
    ensures Positions(steps, from, fetch, if steps[from].Fetch? == fetch then [from] + ks else ks)
  {
    forall a | 0 <= a < |ks| ensures from < ks[a] {
      assert ks[a] in ks;
    }
  }

  lemma {:induction false} CountedAt(steps: seq<RefreshStep>, from: nat, fetch: bool) returns (ks: seq<nat>)
    requires from <= |steps|
    ensures Positions(steps, from, fetch, ks) && |ks| == if fetch then ToFetch(steps[from..]) else Reused(steps[from..])
    ensures fetch ==> forall a :: 0 <= a < |ks| ==> ks[a] < |steps| && FetchPaths(steps[from..])[a] == steps[ks[a]].entry.path
    decreases |steps| - from
  {
    if from == |steps| {
      ks := [];
    } else {
      ks := CountedAt(steps, from + 1, fetch);
      assert steps[from..][0] == steps[from] && steps[from..][1..] == steps[from + 1..];
      PositionsCons(steps, from, fetch, ks);
      if steps[from].Fetch? == fetch {
        ks := [from] + ks;
      }
    }
  }

  /**
   Each counter counts its own kind: `reused` the entries that are reusable, `to_fetch` those that
   are not, and `fetch_paths` lists the paths of exactly the latter, in inventory order.
   */
  lemma CountersExact(source: Digest, entries: seq<InventoryEntry>, facts: Facts) returns (fetched: seq<nat>, reused: seq<nat>)
    requires StepsOf(source, entries, facts).Success?
    ensures forall a, b :: 0 <= a < b < |fetched| ==> fetched[a] < fetched[b]
    ensures forall a, b :: 0 <= a < b < |reused| ==> reused[a] < reused[b]
    ensures forall i: nat :: i in fetched <==> i < |entries| && !Reusable(source, entries[i], facts)
    ensures forall i: nat :: i in reused <==> i < |entries| && Reusable(source, entries[i], facts)
    ensures var steps := StepsOf(source, entries, facts).value;
      && ToFetch(steps) == |fetched| == |FetchPaths(steps)| && Reused(steps) == |reused|
      && forall a :: 0 <= a < |fetched| ==> fetched[a] < |entries| && FetchPaths(steps)[a] == entries[fetched[a]].path
  {
    hide StepOf, StepsOf, Reusable, Unproven, Refuses, Reused, ToFetch, FetchPaths;
    var steps := StepsOf(source, entries, facts).value;
    assert steps[0..] == steps;
    fetched := CountedAt(steps, 0, true);
    reused := CountedAt(steps, 0, false);
    StepsMatchEntries(source, entries, facts);
    forall i: nat | i < |entries| ensures steps[i].Reuse? <==> Reusable(source, entries[i], facts) {
      StepExact(source, entries[i], facts);
    }
  }

  /** The two counters partition the inventory. */
  lemma {:induction false} CountersPartition(source: Digest, entries: seq<InventoryEntry>, facts: Facts)
    requires StepsOf(source, entries, facts).Success?
    ensures var steps := StepsOf(source, entries, facts).value;
      Reused(steps) + ToFetch(steps) == |entries| && |FetchPaths(steps)| == ToFetch(steps)
  {
    if entries != [] {
      CountersPartition(source, entries[1..], facts);
    }
  }

  // ---------- carrying a plan out ----------

  /** What the remote namespace serves at one exact revision. */
  type Remote = Key -> string

  /** The durable side: bindings, and a content store that may have lost any blob. */
  datatype Cache = Cache(bindings: map<Key, Materialization>, blobs: map<Digest, string>)

  function FactsOf(cache: Cache): Facts {
    Facts(
      (key: Key) => Success(if key in cache.bindings then Some(cache.bindings[key]) else None),
      (d: Digest) => Success(if d in cache.blobs then Some(Size(cache.blobs[d])) else None))
  }

  /** Bindings record the bytes read at exactly their key; blobs are stored under their own digest. */
  ghost predicate HonestCache(H: Hash, remote: Remote, cache: Cache) {
    && (forall key :: key in cache.bindings ==>
          var m := cache.bindings[key];
          Answers(m, key) && m.sha256 == H(remote(key)) && m.size == Size(remote(key)))
    && (forall d :: d in cache.blobs ==> H(cache.blobs[d]) == d)
  }

  /** One proven fact: this path, at the revision listed, has this content identity. */
  datatype MaterializedEntry = MaterializedEntry(path: ContentPath, sha256: Digest, size: u64)

  datatype Outcome = Outcome(facts: seq<MaterializedEntry>, blobs: map<Digest, string>)

  /** The fact fetching one entry proves. */
  function FetchedFact(H: Hash, remote: Remote, source: Digest, e: InventoryEntry): MaterializedEntry {
    var bytes := remote(KeyOf(source, e));
    MaterializedEntry(e.path, H(bytes), Size(bytes))
  }

  /** Carrying out one step: a fetch reads the exact revision and stores its bytes. */
  function CarryOut(H: Hash, remote: Remote, source: Digest, steps: seq<RefreshStep>, blobs: map<Digest, string>): Outcome {
    if steps == [] then Outcome([], blobs)
    else
      match steps[0]
      case Reuse(e, sha256, size) =>
        var rest := CarryOut(H, remote, source, steps[1..], blobs);
        Outcome([MaterializedEntry(e.path, sha256, size)] + rest.facts, rest.blobs)
      case Fetch(e) =>
        var bytes := remote(KeyOf(source, e));
        var rest := CarryOut(H, remote, source, steps[1..], blobs[H(bytes) := bytes]);
        Outcome([FetchedFact(H, remote, source, e)] + rest.facts, rest.blobs)
  }

  /** The simple form: fetch everything. */
  function FetchAll(H: Hash, remote: Remote, source: Digest, entries: seq<InventoryEntry>): (facts: seq<MaterializedEntry>)
    ensures |facts| == |entries|
    ensures forall i :: 0 <= i < |entries| ==> facts[i] == FetchedFact(H, remote, source, entries[i])
  {
    seq(|entries|, i requires 0 <= i < |entries| => FetchedFact(H, remote, source, entries[i]))
  }

  /** The finitely many contents on which a collision would matter. */
  function Contents(remote: Remote, source: Digest, entries: seq<InventoryEntry>, cache: Cache): set<string> {
    (set e | e in entries :: remote(KeyOf(source, e))) + cache.blobs.Values
  }

  /** With honest facts no entry is refused, and a step reuses exactly what is bound and still stored. */
  lemma HonestStep(H: Hash, remote: Remote, source: Digest, entries: seq<InventoryEntry>, cache: Cache, e: InventoryEntry)
    requires HonestCache(H, remote, cache) && e in entries
    requires CollisionFreeOn(H, Contents(remote, source, entries, cache))
    ensures var bytes := remote(KeyOf(source, e));
      StepOf(source, e, FactsOf(cache)) ==
        Success(if KeyOf(source, e) in cache.bindings && H(bytes) in cache.blobs then Reuse(e, H(bytes), Size(bytes)) else Fetch(e))
  {
    var key := KeyOf(source, e);
    var bytes := remote(key);
    if key in cache.bindings && H(bytes) in cache.blobs {
      var stored := cache.blobs[H(bytes)];
      assert stored in cache.blobs.Values;
      assert stored == bytes;
    }
  }

  /** Every digest named is stored, under bytes with that digest and size. */
  ghost predicate Backed(H: Hash, blobs: map<Digest, string>, f: MaterializedEntry) {
    f.sha256 in blobs && H(blobs[f.sha256]) == f.sha256 && Size(blobs[f.sha256]) == f.size
  }

  /** The same bytes, or more of them: carrying out steps never drops or replaces a stored content. */
  ghost predicate Extends(before: map<Digest, string>, after: map<Digest, string>) {
    forall d :: d in before ==> d in after && after[d] == before[d]
  }

  ghost predicate StoredHonestly(H: Hash, blobs: map<Digest, string>, contents: set<string>) {
    forall d :: d in blobs ==> H(blobs[d]) == d && blobs[d] in contents
  }

  /** A step taken because the store already holds the entry's bytes, or one that fetches them. */
  predicate TrueStep(H: Hash, remote: Remote, source: Digest, blobs: map<Digest, string>, step: RefreshStep) {
    var bytes := remote(KeyOf(source, step.entry));
    step.Reuse? ==> step.sha256 == H(bytes) && step.size == Size(bytes) && H(bytes) in blobs && blobs[H(bytes)] == bytes
  }

  /** Step by step the facts are those a full fetch proves, each with its bytes stored. */
  ghost predicate Proven(H: Hash, remote: Remote, source: Digest, steps: seq<RefreshStep>, out: Outcome) {
    && |out.facts| == |steps|
    && forall i :: 0 <= i < |steps| ==> out.facts[i] == FetchedFact(H, remote, source, steps[i].entry) && Backed(H, out.blobs, out.facts[i])
  }

  lemma ProvenCons(H: Hash, remote: Remote, source: Digest, s: RefreshStep, rest: seq<RefreshStep>, f: MaterializedEntry, out: Outcome)
    requires Proven(H, remote, source, rest, out)
    requires f == FetchedFact(H, remote, source, s.entry) && Backed(H, out.blobs, f)
    ensures Proven(H, remote, source, [s] + rest, Outcome([f] + out.facts, out.blobs))
  {
  }

  /** What the store holds after one step, before the others. */
  function Stored(H: Hash, remote: Remote, source: Digest, s: RefreshStep, blobs: map<Digest, string>): map<Digest, string> {
    var bytes := remote(KeyOf(source, s.entry));
    if s.Fetch? then blobs[H(bytes) := bytes] else blobs
  }

  lemma CarryOutCons(H: Hash, remote: Remote, source: Digest, s: RefreshStep, rest: seq<RefreshStep>, blobs: map<Digest, string>)
    requires TrueStep(H, remote, source, blobs, s)
    ensures var out := CarryOut(H, remote, source, rest, Stored(H, remote, source, s, blobs));
      CarryOut(H, remote, source, [s] + rest, blobs) == Outcome([FetchedFact(H, remote, source, s.entry)] + out.facts, out.blobs)
  {
    assert ([s] + rest)[1..] == rest;
  }

  lemma TrueStepStores(H: Hash, remote: Remote, source: Digest, s: RefreshStep, blobs: map<Digest, string>, contents: set<string>)
    requires CollisionFreeOn(H, contents) && StoredHonestly(H, blobs, contents)
    requires TrueStep(H, remote, source, blobs, s) && remote(KeyOf(source, s.entry)) in contents
    ensures StoredHonestly(H, Stored(H, remote, source, s, blobs), contents)
    ensures Extends(blobs, Stored(H, remote, source, s, blobs))
    ensures Backed(H, Stored(H, remote, source, s, blobs), FetchedFact(H, remote, source, s.entry))
  {
  }

  lemma StepsStayTrue(H: Hash, remote: Remote, source: Digest, steps: seq<RefreshStep>, blobs: map<Digest, string>, more: map<Digest, string>)
    ensures Extends(blobs, more) ==>
      forall s :: s in steps && TrueStep(H, remote, source, blobs, s) ==> TrueStep(H, remote, source, more, s)
  {
  }

  lemma BackedStays(H: Hash, blobs: map<Digest, string>, more: map<Digest, string>, f: MaterializedEntry)
    ensures Extends(blobs, more) && Backed(H, blobs, f) ==> Backed(H, more, f)
  {
  }

  lemma ExtendsChain(a: map<Digest, string>, b: map<Digest, string>, c: map<Digest, string>)
    ensures Extends(a, b) && Extends(b, c) ==> Extends(a, c)
  {
  }

  lemma CarriedOutNone(H: Hash, remote: Remote, source: Digest, blobs: map<Digest, string>, contents: set<string>)
    ensures StoredHonestly(H, blobs, contents) ==>
      var out := CarryOut(H, remote, source, [], blobs);
      Proven(H, remote, source, [], out) && StoredHonestly(H, out.blobs, contents) && Extends(blobs, out.blobs)
  {
  }

  lemma {:induction false} CarriedOut(H: Hash, remote: Remote, source: Digest, steps: seq<RefreshStep>, blobs: map<Digest, string>, contents: set<string>)
    requires CollisionFreeOn(H, contents) && StoredHonestly(H, blobs, contents)
    requires forall s :: s in steps ==> TrueStep(H, remote, source, blobs, s) && remote(KeyOf(source, s.entry)) in contents
    ensures var out := CarryOut(H, remote, source, steps, blobs);
      Proven(H, remote, source, steps, out) && StoredHonestly(H, out.blobs, contents) && Extends(blobs, out.blobs)
  {
    hide *;
    if steps == [] {
      CarriedOutNone(H, remote, source, blobs, contents);
    } else {
      var s, rest := steps[0], steps[1..];
      HeadAndTail(steps);
      var next := Stored(H, remote, source, s, blobs);
      TrueStepStores(H, remote, source, s, blobs, contents);
      StepsStayTrue(H, remote, source, rest, blobs, next);
      CarriedOut(H, remote, source, rest, next, contents);
      CarryOutCons(H, remote, source, s, rest, blobs);
      var out := CarryOut(H, remote, source, rest, next);
      BackedStays(H, next, out.blobs, FetchedFact(H, remote, source, s.entry));
      ProvenCons(H, remote, source, s, rest, FetchedFact(H, remote, source, s.entry), out);
      ExtendsChain(blobs, next, out.blobs);
    }
  }

  /**
   The cached refresh refines always fetching: with honest bindings and a store that may have
   lost any blob, planning succeeds, carrying the plan out proves exactly the facts a full
   fetch would, and every one of them has its bytes stored afterwards.
   */
  lemma RefreshRefinesFetching(H: Hash, remote: Remote, inv: Inventory, cache: Cache)
    requires HonestCache(H, remote, cache)
    requires CollisionFreeOn(H, Contents(remote, inv.source, inv.entries, cache))
    ensures var planned := StepsOf(inv.source, inv.entries, FactsOf(cache));
      && planned.Success?
      && var out := CarryOut(H, remote, inv.source, planned.value, cache.blobs);
      && out.facts == FetchAll(H, remote, inv.source, inv.entries)
      && (forall f :: f in out.facts ==> Backed(H, out.blobs, f))
      && Extends(cache.blobs, out.blobs)
  {
    hide HonestCache, CollisionFreeOn, Contents, StepsOf, StepOf, CarryOut, Backed, Extends, FactsOf, TrueStep, StoredHonestly;
    var contents := Contents(remote, inv.source, inv.entries, cache);
    var steps := HonestSteps(H, remote, inv, cache);
    StepsMatchEntries(inv.source, inv.entries, FactsOf(cache));
    CarriedOut(H, remote, inv.source, steps, cache.blobs, contents);
  }

  /** The plan over honest facts: every step is true of the store, and every content is accounted for. */
  lemma HonestSteps(H: Hash, remote: Remote, inv: Inventory, cache: Cache) returns (steps: seq<RefreshStep>)
    requires HonestCache(H, remote, cache)
    requires CollisionFreeOn(H, Contents(remote, inv.source, inv.entries, cache))
    ensures StepsOf(inv.source, inv.entries, FactsOf(cache)) == Success(steps)
    ensures forall s :: s in steps ==>
      TrueStep(H, remote, inv.source, cache.blobs, s) && remote(KeyOf(inv.source, s.entry)) in Contents(remote, inv.source, inv.entries, cache)
    ensures StoredHonestly(H, cache.blobs, Contents(remote, inv.source, inv.entries, cache))
  {
    hide CollisionFreeOn, StepOf, FactsOf;
    var source, entries, facts := inv.source, inv.entries, FactsOf(cache);
    forall e | e in entries ensures StepOf(source, e, facts).Success? {
      HonestStep(H, remote, source, entries, cache, e);
    }
    PlanExists(source, entries, facts);
    StepsMatchEntries(source, entries, facts);
    steps := StepsOf(source, entries, facts).value;
    forall s | s in steps
      ensures TrueStep(H, remote, source, cache.blobs, s) && remote(KeyOf(source, s.entry)) in Contents(remote, source, entries, cache)
    {
      var i :| 0 <= i < |steps| && steps[i] == s;
      HonestStep(H, remote, source, entries, cache, entries[i]);
      StoredIsExact(H, remote, source, entries, cache, entries[i]);
    }
  }

  lemma StoredIsExact(H: Hash, remote: Remote, source: Digest, entries: seq<InventoryEntry>, cache: Cache, e: InventoryEntry)
    requires HonestCache(H, remote, cache) && e in entries
    requires CollisionFreeOn(H, Contents(remote, source, entries, cache))
    ensures var bytes := remote(KeyOf(source, e));
      bytes in Contents(remote, source, entries, cache) && (H(bytes) in cache.blobs ==> cache.blobs[H(bytes)] == bytes)
  {
    var bytes := remote(KeyOf(source, e));
    assert bytes in Contents(remote, source, entries, cache);
    if H(bytes) in cache.blobs {
      assert cache.blobs[H(bytes)] in cache.blobs.Values;
    }
  }

  // ---------- one refresh after another ----------

  /** The binding a reader records once it has read and stored an entry's bytes. */
  function BindingOf(H: Hash, remote: Remote, source: Digest, e: InventoryEntry): Materialization {
    var bytes := remote(KeyOf(source, e));
    Materialization(source, e.path, e.revision, H(bytes), Size(bytes))
  }

  function Recorded(H: Hash, remote: Remote, source: Digest, steps: seq<RefreshStep>, bindings: map<Key, Materialization>): map<Key, Materialization>
    decreases steps
  {
    if steps == [] then bindings
    else
      var e := steps[0].entry;
      Recorded(H, remote, source, steps[1..],
               if steps[0].Fetch? then bindings[KeyOf(source, e) := BindingOf(H, remote, source, e)] else bindings)
  }

  /** What happens to a cache: refreshes, each carried out to some step, and losses of anything it holds. */
  datatype CacheEvent =
    | Refreshed(inventory: Inventory, steps: nat)
    | BlobsLost(digests: set<Digest>)
    | BindingsLost(keys: set<Key>)

  /** A refresh plans, and then carries out and records its steps, up to where it was interrupted. */
  function Refresh(H: Hash, remote: Remote, inv: Inventory, n: nat, cache: Cache): Cache {
    match StepsOf(inv.source, inv.entries, FactsOf(cache))
    case Failure(_) => cache
    case Success(planned) =>
      var steps := if n <= |planned| then planned[..n] else planned;
      Cache(Recorded(H, remote, inv.source, steps, cache.bindings), CarryOut(H, remote, inv.source, steps, cache.blobs).blobs)
  }

  function CacheNext(H: Hash, remote: Remote, cache: Cache, event: CacheEvent): Cache {
    match event
    case Refreshed(inv, n) => Refresh(H, remote, inv, n, cache)
    case BlobsLost(digests) => cache.(blobs := cache.blobs - digests)
    case BindingsLost(keys) => cache.(bindings := cache.bindings - keys)
  }

  function CacheAfter(H: Hash, remote: Remote, cache: Cache, events: seq<CacheEvent>): Cache
    decreases events
  {
    if events == [] then cache else CacheAfter(H, remote, CacheNext(H, remote, cache, events[0]), events[1..])
  }

  lemma {:induction false} RecordedHonestly(H: Hash, remote: Remote, source: Digest, steps: seq<RefreshStep>, cache: Cache)
    requires HonestCache(H, remote, cache)
    ensures HonestCache(H, remote, cache.(bindings := Recorded(H, remote, source, steps, cache.bindings)))
    decreases steps
  {
    if steps != [] {
      var e := steps[0].entry;
      var next := if steps[0].Fetch? then cache.bindings[KeyOf(source, e) := BindingOf(H, remote, source, e)] else cache.bindings;
      RecordedHonestly(H, remote, source, steps[1..], cache.(bindings := next));
    }
  }

  lemma {:induction false} CarriedOutHonestly(H: Hash, remote: Remote, source: Digest, steps: seq<RefreshStep>, cache: Cache)
    requires HonestCache(H, remote, cache)
    ensures HonestCache(H, remote, cache.(blobs := CarryOut(H, remote, source, steps, cache.blobs).blobs))
    decreases steps
  {
    if steps != [] {
      CarriedOutHonestly(H, remote, source, steps[1..], cache.(blobs := Stored(H, remote, source, steps[0], cache.blobs)));
    }
  }

  lemma EventKeepsHonest(H: Hash, remote: Remote, cache: Cache, event: CacheEvent)
    requires HonestCache(H, remote, cache)
    ensures HonestCache(H, remote, CacheNext(H, remote, cache, event))
  {
    hide StepsOf, CarryOut, Recorded;
    match event
    case Refreshed(inv, n) =>
      var planned := StepsOf(inv.source, inv.entries, FactsOf(cache));
      if planned.Success? {
        var steps := if n <= |planned.value| then planned.value[..n] else planned.value;
        CarriedOutHonestly(H, remote, inv.source, steps, cache);
        RecordedHonestly(H, remote, inv.source, steps, cache.(blobs := CarryOut(H, remote, inv.source, steps, cache.blobs).blobs));
      }
    case _ =>
  }

  /** Honesty of the cache is not a promise to be renewed: refreshes, interruptions and losses all keep it. */
  lemma {:induction false} CacheStaysHonest(H: Hash, remote: Remote, cache: Cache, events: seq<CacheEvent>)
    requires HonestCache(H, remote, cache)
    ensures HonestCache(H, remote, CacheAfter(H, remote, cache, events))
    decreases events
  {
    hide HonestCache, CacheNext;
    if events != [] {
      EventKeepsHonest(H, remote, cache, events[0]);
      CacheStaysHonest(H, remote, CacheNext(H, remote, cache, events[0]), events[1..]);
    }
  }

  /** So after any history the next refresh still proves exactly the facts of a full fetch. */
  lemma EveryRefreshRefinesFetching(H: Hash, remote: Remote, cache: Cache, events: seq<CacheEvent>, inv: Inventory)
    requires HonestCache(H, remote, cache)
    requires CollisionFreeOn(H, Contents(remote, inv.source, inv.entries, CacheAfter(H, remote, cache, events)))
    ensures var now := CacheAfter(H, remote, cache, events);
      var planned := StepsOf(inv.source, inv.entries, FactsOf(now));
      && planned.Success?
      && var out := CarryOut(H, remote, inv.source, planned.value, now.blobs);
      && out.facts == FetchAll(H, remote, inv.source, inv.entries)
      && (forall f :: f in out.facts ==> Backed(H, out.blobs, f))
      && Extends(now.blobs, out.blobs)
  {
    hide HonestCache, CacheAfter, CollisionFreeOn, Contents, StepsOf, CarryOut, Backed, Extends, FactsOf;
    CacheStaysHonest(H, remote, cache, events);
    RefreshRefinesFetching(H, remote, inv, CacheAfter(H, remote, cache, events));
  }
}
