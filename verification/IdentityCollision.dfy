/**
 Why the identity theorem is stated for canonical object lists: the delivery identity is not
 injective on all parts that can be assembled. Two concrete deliveries, with different files, are
 hashed as one for every hash function.
 */
module IdentityCollisions {
  import opened Wrappers
  import opened Text
  import opened Encoding
  import opened ContentPaths
  import opened Snapshots
  import opened LfsPointers
  import opened Deliveries
  import Order

  // `from_parts` accepts object records cut out of a file record. This is why `PreimageInjective`
  // needs the object list to be the canonical one, which `build_backup_delivery` always produces
  // and a durable decode does not check. `PreimageExact` says which parts are confused in general.

  /** A 39-byte path, so that its file record is 120 bytes: three object records. */
  function LongPath(): (p: ContentPath)
    ensures |p| == 39 && forall i :: 0 <= i < 39 ==> p[i] == 'a'
  {
    var p := seq(39, _ => 'a');
    assert p[0] == 'a' && p[1] == 'a';
    assert Split(p, '/') == [p] by {
      IndexOfIs(p, '/', 39);
    }
    p
  }

  function High(n: nat): (s: string)
    ensures |s| == n && forall i :: 0 <= i < n ==> s[i] == 255 as char
  {
    seq(n, _ => 255 as char)
  }

  function HighSize(): (n: u64)
    ensures U64(n) == High(8)
  {
    Pow256Of8();
    BigEndianOfValue(High(8));
    Value(High(8))
  }

  function CutFile(): DeliveryFile {
    DeliveryFile(LongPath(), GitBlob(High(32), HighSize()))
  }

  /** The object whose record is the 40 bytes of `record` from `at`. */
  function ObjectAt(record: string, at: nat): (o: RequiredLfsObject)
    requires at + 40 <= |record| && forall i :: 0 <= i < |record| ==> IsByte(record[i])
    ensures o.oid == record[at..at + 32] && U64(o.size) == record[at + 32..at + 40]
  {
    Pow256Of8();
    BigEndianOfValue(record[at + 32..at + 40]);
    RequiredLfsObject(record[at..at + 32], Value(record[at + 32..at + 40]))
  }

  lemma CutRecord()
    ensures var r := FileRecord(CutFile(), "");
      && |r| == 120
      && (forall i :: 0 <= i < 120 ==> IsByte(r[i]))
      && r[0] == 0 as char && r[40] == 'a' && r[80] == 255 as char
  {
    var f := CutFile();
    var r := FileRecord(f, "");
    var tail := High(32) + (High(8) + (High(32) + ""));
    assert r == (U64(39) + f.path) + ([0 as char] + tail);
    assert r[40] == f.path[32];
    assert r[80] == tail[32];
    Pow256Of8();
    assert Pow256(1) == 256 && Pow256(2) == 65536;
    Pow256Grows(1, 7);
    TopByteZero(39, 8);
  }

  lemma {:induction false} Pow256Grows(a: nat, b: nat)
    requires a <= b
    ensures 1 <= Pow256(a) <= Pow256(b)
    decreases b - a, a
  {
    if a < b {
      Pow256Grows(a + 1, b);
    }
    if a > 0 {
      Pow256Grows(a - 1, a - 1);
    }
  }

  function CutInThree(r: string): (o: seq<RequiredLfsObject>)
    requires |r| == 120 && forall i :: 0 <= i < |r| ==> IsByte(r[i])
    ensures |o| == 3 && ObjectRecords(o) == r
    ensures o[0].oid[0] == r[0] && o[1].oid[0] == r[40] && o[2].oid[0] == r[80]
  {
    var a, b, c := ObjectAt(r, 0), ObjectAt(r, 40), ObjectAt(r, 80);
    ThreeRecords(r, a, b, c);
    [a, b, c]
  }

  lemma ThreeRecords(r: string, a: RequiredLfsObject, b: RequiredLfsObject, c: RequiredLfsObject)
    requires |r| == 120
    requires a.oid == r[0..32] && U64(a.size) == r[32..40]
    requires b.oid == r[40..72] && U64(b.size) == r[72..80]
    requires c.oid == r[80..112] && U64(c.size) == r[112..120]
    ensures ObjectRecords([a, b, c]) == r
  {
    assert [a, b, c][1..] == [b, c] && [b, c][1..] == [c] && [c][1..] == [];
    assert ObjectRecords([c]) == c.oid + (U64(c.size) + "");
    assert ObjectRecords([c]) == r[80..120];
    assert ObjectRecords([b, c]) == b.oid + (U64(b.size) + r[80..120]);
    assert ObjectRecords([b, c]) == r[40..120];
    assert ObjectRecords([a, b, c]) == a.oid + (U64(a.size) + r[40..120]);
  }

  function CutObjects(): (o: seq<RequiredLfsObject>)
    ensures |o| == 3 && ObjectRecords(o) == FileRecord(CutFile(), "")
    ensures o[0].oid[0] == 0 as char && o[1].oid[0] == 'a' && o[2].oid[0] == 255 as char
  {
    CutRecord();
    CutInThree(FileRecord(CutFile(), ""))
  }

  lemma LessByFirst(a: RequiredLfsObject, b: RequiredLfsObject)
    requires a.oid[0] < b.oid[0]
    ensures Order.Less(ObjectKey(a), ObjectKey(b))
  {
    assert ObjectKey(a)[0] == a.oid[0] && ObjectKey(b)[0] == b.oid[0];
  }

  lemma OrderedByFirst(o: seq<RequiredLfsObject>)
    requires |o| == 3 && o[0].oid[0] < o[1].oid[0] < o[2].oid[0]
    ensures Order.Strict(o, ObjectKey) && OneSizeEach(o)
  {
    LessByFirst(o[0], o[1]);
    LessByFirst(o[0], o[2]);
    LessByFirst(o[1], o[2]);
    CanonicalIdentity(o);
    assert o[0].oid != o[1].oid && o[1].oid != o[2].oid;
    ConflictExact(o);
  }

  /** Two deliveries `from_parts` accepts, with different files and one identity, for any hash. */
  lemma IdentityCollision(H: Hash, id: SnapshotId, source: SourceId, projection: Digest, manifest: Digest, attributes: Digest)
    returns (d: Delivery, e: Delivery)
    ensures FromParts(H, id, source, projection, [CutFile()], [], manifest, attributes) == Success(d)
    ensures FromParts(H, id, source, projection, [], CutObjects(), manifest, attributes) == Success(e)
    ensures d.files != e.files && d.identity == e.identity
    ensures e.objects != RequiredObjects(e.files)
  {
    var objects := CutObjects();
    OrderedByFirst(objects);
    var file := [CutFile()];
    d := Delivery(id, source, projection, file, [], manifest, attributes,
                  H(Preimage(id, projection, file, [], manifest, attributes)));
    e := Delivery(id, source, projection, [], objects, manifest, attributes,
                  H(Preimage(id, projection, [], objects, manifest, attributes)));
    FromPartsIdentity(H, d);
    FromPartsIdentity(H, e);
    assert file[1..] == [];
    assert FileRecords(file, "") == FileRecord(CutFile(), "");
    assert RequiredObjects([]) == [];
  }
}
