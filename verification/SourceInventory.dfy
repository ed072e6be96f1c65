/** One complete listing of a source namespace (`source/inventory.rs`, `source/revision.rs`). */
module SourceInventories {
  import opened Wrappers
  import opened Text
  import opened Encoding
  import opened ContentPaths
  import opened Snapshots
  import Order
  import Utf8

  const MAX_SOURCE_REVISION_LENGTH := 512

  /** An opaque remote revision: bounded, not empty, without control characters. */
  type SourceRevision = s: string | s != "" && |s| <= MAX_SOURCE_REVISION_LENGTH && !Utf8.HasControl(s) witness "v"

  datatype InventoryEntry = InventoryEntry(path: ContentPath, revision: SourceRevision, reportedSize: u64)

  datatype Inventory = Inventory(source: Digest, entries: seq<InventoryEntry>)

  datatype InventoryError = DuplicateInventoryPath(path: ContentPath)

  function EntryPath(e: InventoryEntry): string {
    e.path
  }

  /** `SourceInventory::new` */
  function NewInventory(source: Digest, entries: seq<InventoryEntry>): (r: Result<Inventory, InventoryError>) {
    var sorted := Order.Sort(entries, EntryPath);
    match Order.FirstRepeat(sorted, EntryPath)
    case Some(e) => Failure(DuplicateInventoryPath(e.path))
    case None => Success(Inventory(source, sorted))
  }

  /** Every inventory the constructor returns lists each path once, in order. */
  ghost predicate Listed(inv: Inventory) {
    Order.Strict(inv.entries, EntryPath)
  }

  lemma NewInventoryExact(source: Digest, entries: seq<InventoryEntry>)
    ensures var r := NewInventory(source, entries);
      && (r.Success? <==> Order.DistinctKeys(entries, EntryPath))
      && (r.Success? ==> r.value.source == source && Listed(r.value) && multiset(r.value.entries) == multiset(entries))
      && (r.Failure? ==>
            && Order.Repeated(entries, EntryPath, r.error.path)
            && forall path :: Order.Repeated(entries, EntryPath, path) ==> !Order.Less(path, r.error.path))
  {
    Order.RepeatIsLeast(entries, EntryPath);
    Order.SortSorted(entries, EntryPath);
    Order.RepeatExact(entries, EntryPath);
  }

  /** The order a listing arrives in does not reach the inventory. */
  lemma ListingOrderDoesNotMatter(source: Digest, a: seq<InventoryEntry>, b: seq<InventoryEntry>)
    requires multiset(a) == multiset(b) && NewInventory(source, a).Success?
    ensures NewInventory(source, a) == NewInventory(source, b)
  {
    NewInventoryExact(source, a);
    NewInventoryExact(source, b);
    Order.DistinctInvariant(a, b, EntryPath);
    Order.StrictUnique(NewInventory(source, a).value.entries, NewInventory(source, b).value.entries, EntryPath);
  }

  // ---------- identity ----------

  const INVENTORY_TAG := "mineral.source-inventory"

  function EntryRecord(e: InventoryEntry, rest: string): string {
    Prefixed(e.path) + (Prefixed(e.revision) + (U64(e.reportedSize) + rest))
  }

  function EntryRecords(entries: seq<InventoryEntry>): string {
    if entries == [] then "" else EntryRecord(entries[0], EntryRecords(entries[1..]))
  }

  /** The bytes `SourceInventory::identity` hashes. */
  function InventoryPreimage(inv: Inventory): string {
    INVENTORY_TAG + ([1 as char] + (inv.source + EntryRecords(inv.entries)))
  }

  /** `SourceInventory::identity`: feeds the hasher field by field. */
  method InventoryIdentity(H: Hash, inv: Inventory) returns (identity: Digest)
    ensures identity == H(InventoryPreimage(inv))
  {
    var hasher := new Hasher();
    var entries := inv.entries;
    ghost var records := EntryRecords(entries);
    hasher.Update(INVENTORY_TAG, [1 as char] + (inv.source + records));
    hasher.Update([1 as char], inv.source + records);
    hasher.Update(inv.source, records);
    assert entries[0..] == entries;
    for i := 0 to |entries|
      invariant hasher.absorbed + EntryRecords(entries[i..]) == InventoryPreimage(inv)
    {
      ghost var rest := EntryRecords(entries[i + 1..]);
      assert entries[i..][1..] == entries[i + 1..];
      hasher.Update(Prefixed(entries[i].path), Prefixed(entries[i].revision) + (U64(entries[i].reportedSize) + rest));
      hasher.Update(Prefixed(entries[i].revision), U64(entries[i].reportedSize) + rest);
      hasher.Update(U64(entries[i].reportedSize), rest);
    }
    assert hasher.absorbed + "" == hasher.absorbed;
    identity := H(hasher.absorbed);
  }

  ghost predicate ShortListing(inv: Inventory) {
    forall e :: e in inv.entries ==> |e.path| <= U64_MAX
  }

  lemma EntryRecordCut(a: InventoryEntry, x: string, b: InventoryEntry, y: string)
    requires EntryRecord(a, x) == EntryRecord(b, y)
    requires |a.path| <= U64_MAX && |b.path| <= U64_MAX
    ensures a == b && x == y
  {
    var ta, tb := U64(a.reportedSize) + x, U64(b.reportedSize) + y;
    PrefixedCut(a.path, Prefixed(a.revision) + ta, b.path, Prefixed(b.revision) + tb);
    PrefixedCut(a.revision, ta, b.revision, tb);
    Cut(U64(a.reportedSize), x, U64(b.reportedSize), y);
    U64Less(a.reportedSize, b.reportedSize);
  }

  lemma {:induction false} EntryRecordsCut(a: seq<InventoryEntry>, b: seq<InventoryEntry>)
    requires EntryRecords(a) == EntryRecords(b)
    requires forall e :: e in a || e in b ==> |e.path| <= U64_MAX
    ensures a == b
  {
    if a != [] && b != [] {
      EntryRecordCut(a[0], EntryRecords(a[1..]), b[0], EntryRecords(b[1..]));
      EntryRecordsCut(a[1..], b[1..]);
      HeadAndTail(a);
      HeadAndTail(b);
    }
  }

  /** Two inventories hash the same bytes only when source, paths, revisions and sizes all agree. */
  lemma InventoryIdentityInjective(a: Inventory, b: Inventory)
    requires InventoryPreimage(a) == InventoryPreimage(b)
    requires ShortListing(a) && ShortListing(b)
    ensures a == b
  {
    var ra, rb := a.source + EntryRecords(a.entries), b.source + EntryRecords(b.entries);
    Cut(INVENTORY_TAG, [1 as char] + ra, INVENTORY_TAG, [1 as char] + rb);
    Cut([1 as char], ra, [1 as char], rb);
    Cut(a.source, EntryRecords(a.entries), b.source, EntryRecords(b.entries));
    EntryRecordsCut(a.entries, b.entries);
  }

  /** Equal identities mean equal inventories, unless the hash itself collides on these two encodings. */
  lemma SameIdentity(H: Hash, a: Inventory, b: Inventory)
    requires CollisionFreeOn(H, {InventoryPreimage(a), InventoryPreimage(b)})
    requires ShortListing(a) && ShortListing(b)
    ensures H(InventoryPreimage(a)) == H(InventoryPreimage(b)) <==> a == b
  {
    if H(InventoryPreimage(a)) == H(InventoryPreimage(b)) {
      InventoryIdentityInjective(a, b);
    }
  }
}
