/** Git LFS objects and the LFS v1 pointer codec (`backup/lfs.rs`). */
module LfsPointers {
  import opened Wrappers
  import opened Text
  import opened Encoding
  import Order
  import Utf8

  // ---------- required objects and their order ----------

  datatype RequiredLfsObject = RequiredLfsObject(oid: Digest, size: u64)

  /** The bytes an object is ordered by: its digest, then its size. */
  function ObjectKey(o: RequiredLfsObject): (k: string)
    ensures |k| == 40
  {
    o.oid + U64(o.size)
  }

  /** Comparing keys is `Ord for RequiredLfsObject`, and the order is total on objects. */
  lemma ObjectOrder(a: RequiredLfsObject, b: RequiredLfsObject)
    ensures Order.Less(ObjectKey(a), ObjectKey(b))
       <==> Order.Less(a.oid, b.oid) || (a.oid == b.oid && a.size < b.size)
    ensures ObjectKey(a) == ObjectKey(b) <==> a == b
  {
    Order.LessByFields(a.oid, U64(a.size), b.oid, U64(b.size));
    U64Less(a.size, b.size);
    if ObjectKey(a) == ObjectKey(b) {
      Cut(a.oid, U64(a.size), b.oid, U64(b.size));
    }
  }

  /** `sort` then `dedup`, as every object list goes through. */
  function CanonicalList(objects: seq<RequiredLfsObject>): (r: seq<RequiredLfsObject>) {
    Order.Dedup(Order.Sort(objects, ObjectKey))
  }

  /** The canonical list is strictly ordered and holds exactly the given objects. */
  lemma CanonicalObjects(objects: seq<RequiredLfsObject>)
    ensures Order.Strict(CanonicalList(objects), ObjectKey)
    ensures forall o :: o in CanonicalList(objects) <==> o in objects
  {
    Order.SortSorted(objects, ObjectKey);
    Order.SortMembers(objects, ObjectKey);
    forall x, y | ObjectKey(x) == ObjectKey(y) ensures x == y {
      ObjectOrder(x, y);
    }
    Order.DedupStrict(Order.Sort(objects, ObjectKey), ObjectKey);
  }

  /** A strictly ordered list is its own canonical form. */
  lemma CanonicalIdentity(objects: seq<RequiredLfsObject>)
    requires Order.Strict(objects, ObjectKey)
    ensures CanonicalList(objects) == objects
    ensures Order.Sort(objects, ObjectKey) == objects
  {
    Order.StrictIsSorted(objects, ObjectKey);
    Order.SortIdentity(objects, ObjectKey);
    Order.DedupIdentity(objects, ObjectKey);
  }

  // ---------- what an endpoint answers ----------

  /** `LfsUploadPlan`, without the opaque upload and verify instructions. */
  datatype LfsPlan = LfsPlan(present: seq<RequiredLfsObject>, missing: seq<RequiredLfsObject>) {
    /** `is_complete` looks at the uploads only. */
    predicate IsComplete() {
      missing == []
    }
  }

  /** The endpoint contract: present and missing partition the query, and what is present is held. */
  predicate Answers(plan: LfsPlan, query: seq<RequiredLfsObject>, held: set<RequiredLfsObject>) {
    && multiset(plan.present) + multiset(plan.missing) == multiset(query)
    && forall o :: o in plan.present ==> o in held
  }

  /** A complete answer is therefore proof that the endpoint holds every object asked about. */
  lemma CompleteMeansHeld(plan: LfsPlan, query: seq<RequiredLfsObject>, held: set<RequiredLfsObject>)
    requires Answers(plan, query, held) && plan.IsComplete()
    ensures forall o :: o in query ==> o in held
  {
    forall o | o in query ensures o in held {
      assert o in multiset(query);
      assert multiset(plan.missing)[o] == 0;
      assert o in multiset(plan.present);
    }
  }

  /**
   `is_complete` alone proves nothing: whatever an endpoint claims to be present, an answer that
   forgets one object asked about looks complete, although no endpoint could give it under the contract.
   */
  lemma ForgetfulAnswerLooksComplete(present: seq<RequiredLfsObject>, query: seq<RequiredLfsObject>, o: RequiredLfsObject)
    requires o in query && o !in present
    ensures LfsPlan(present, []).IsComplete()
    ensures forall held :: !Answers(LfsPlan(present, []), query, held)
  {
    assert o in multiset(query) && o !in multiset(present);
  }

  ghost predicate Holds(objects: seq<RequiredLfsObject>, held: set<RequiredLfsObject>) {
    forall o :: o in objects ==> o in held
  }

  /**
   What an answer proves when its claims of presence are true and nothing else is known about it:
   that every object asked about is held follows, for every state of the endpoint, exactly when every
   one of them is among the claims. A caller can check this on the answer; `is_complete` does not.
   */
  lemma EvidenceExact(plan: LfsPlan, query: seq<RequiredLfsObject>)
    ensures (forall held :: Holds(plan.present, held) ==> Holds(query, held)) <==> forall o :: o in query ==> o in plan.present
  {
    assert Holds(plan.present, set o | o in plan.present);
  }

  // ---------- the pointer codec ----------

  const LFS_POINTER_VERSION := "https://git-lfs.github.com/spec/v1"

  datatype LfsPointer = LfsPointer(oid: Digest, size: u64)

  datatype LfsPointerError = NotText | Damaged | UnknownVersion

  /** A pointer whose size is written as `spelling`. */
  function PointerText(oid: Digest, spelling: string): string {
    "version " + LFS_POINTER_VERSION + "\noid sha256:" + Hex(oid) + "\nsize " + spelling + "\n"
  }

  /** `build_lfs_pointer` */
  function Build(oid: Digest, size: u64): string {
    PointerText(oid, Decimal(size))
  }

  function SizeLine(lines: seq<string>, oid: Digest): Result<LfsPointer, LfsPointerError> {
    if |lines| < 3 then Failure(Damaged) else
    var text :- OkOr(StripPrefix(lines[2], "size "), Damaged);
    var size :- OkOr(ParseU64(text), Damaged);
    if |lines| != 4 || lines[3] != "" then Failure(Damaged) else Success(LfsPointer(oid, size))
  }

  /** `parse_lfs_pointer`, over the split lines. */
  function PointerOf(bytes: string): Result<LfsPointer, LfsPointerError> {
    if !Utf8.Valid(bytes) then Failure(NotText) else
    var lines := Split(bytes, '\n');
    var version :- OkOr(StripPrefix(lines[0], "version "), Damaged);
    if version != LFS_POINTER_VERSION then Failure(UnknownVersion)
    else if |lines| < 2 then Failure(Damaged) else
    var hex :- OkOr(StripPrefix(lines[1], "oid sha256:"), Damaged);
    var oid :- OkOr(ParseDigest(hex), Damaged);
    SizeLine(lines, oid)
  }

  /** `parse_lfs_pointer`: steps over the lines and fills the digest buffer. */
  method Parse(bytes: string) returns (r: Result<LfsPointer, LfsPointerError>)
    ensures r == PointerOf(bytes)
  {
    if !Utf8.Valid(bytes) {
      return Failure(NotText);
    }
    var lines := Split(bytes, '\n');
    var version := StripPrefix(lines[0], "version ");
    match version {
      case None => return Failure(Damaged);
      case Some(v) =>
        if v != LFS_POINTER_VERSION {
          return Failure(UnknownVersion);
        }
    }
    if |lines| < 2 {
      return Failure(Damaged);
    }
    var hex := StripPrefix(lines[1], "oid sha256:");
    if hex.None? {
      return Failure(Damaged);
    }
    var oid := ParseSha256(hex.value);
    if oid.None? {
      return Failure(Damaged);
    }
    r := SizeLine(lines, oid.value);
  }

  // ---------- what the codec guarantees ----------

  function PointerLines(oid: Digest, spelling: string): seq<string> {
    ["version " + LFS_POINTER_VERSION, "oid sha256:" + Hex(oid), "size " + spelling]
  }

  lemma PointerTextLines(oid: Digest, spelling: string)
    ensures PointerText(oid, spelling) == Lines(PointerLines(oid, spelling))
  {
    hide Lines, Hex;
    var v, o, z := "version " + LFS_POINTER_VERSION, "oid sha256:" + Hex(oid), "size " + spelling;
    ThreeLines(v, o, z);
    LineBreaks(v, Hex(oid), spelling);
  }

  lemma ThreeLines(a: string, b: string, c: string)
    ensures Lines([a, b, c]) == a + "\n" + (b + "\n" + (c + "\n"))
  {
    hide Lines;
    LinesCons(a, [b] + [c]);
    LinesCons(b, [c] + []);
    LinesCons(c, []);
    NoLines();
    assert [a] + ([b] + [c]) == [a, b, c] && [c] + [] == [c] && c + "\n" + "" == c + "\n";
  }

  lemma LineBreaks(v: string, hex: string, spelling: string)
    ensures v + "\noid sha256:" + hex + "\nsize " + spelling + "\n"
         == v + "\n" + (("oid sha256:" + hex) + "\n" + (("size " + spelling) + "\n"))
  {
    assert "\noid sha256:" == "\n" + "oid sha256:" && "\nsize " == "\n" + "size ";
  }

  lemma PointerLinesPlain(oid: Digest, spelling: string)
    requires ParseU64(spelling).Some?
    ensures forall l :: l in PointerLines(oid, spelling) ==> '\n' !in l
  {
    assert '\n' !in "version " + LFS_POINTER_VERSION && '\n' !in "oid sha256:" && '\n' !in "size ";
  }

  lemma PointerTextValid(oid: Digest, spelling: string)
    requires ParseU64(spelling).Some?
    ensures Utf8.Valid(PointerText(oid, spelling))
  {
    var v := "version " + LFS_POINTER_VERSION + "\noid sha256:";
    assert forall i :: 0 <= i < |v| ==> v[i] as int < 0x80;
    assert forall i :: 0 <= i < |spelling| ==> spelling[i] in spelling;
    Utf8.Ascii(PointerText(oid, spelling));
  }

  lemma PointerSplits(oid: Digest, spelling: string)
    requires ParseU64(spelling).Some?
    ensures Split(PointerText(oid, spelling), '\n') == PointerLines(oid, spelling) + [""]
  {
    PointerLinesPlain(oid, spelling);
    PointerTextLines(oid, spelling);
    SplitLines(PointerLines(oid, spelling));
  }

  lemma PointerAccepted(oid: Digest, spelling: string)
    requires ParseU64(spelling).Some?
    ensures PointerOf(PointerText(oid, spelling)) == Success(LfsPointer(oid, ParseU64(spelling).value))
  {
    var lines := Split(PointerText(oid, spelling), '\n');
    PointerSplits(oid, spelling);
    PointerTextValid(oid, spelling);
    assert StripPrefix(lines[0], "version ") == Some(LFS_POINTER_VERSION);
    assert StripPrefix(lines[1], "oid sha256:") == Some(Hex(oid));
    DigestRoundTrip(oid);
    assert StripPrefix(lines[2], "size ") == Some(spelling);
  }

  lemma PointerWritten(bytes: string) returns (spelling: string)
    requires PointerOf(bytes).Success?
    ensures ParseU64(spelling) == Some(PointerOf(bytes).value.size)
    ensures bytes == PointerText(PointerOf(bytes).value.oid, spelling)
  {
    var lines := Split(bytes, '\n');
    var oid := PointerOf(bytes).value.oid;
    spelling := StripPrefix(lines[2], "size ").value;
    DigestCanonical(StripPrefix(lines[1], "oid sha256:").value);
    assert lines[..3] == PointerLines(oid, spelling);
    LinesOfSplit(bytes);
    PointerTextLines(oid, spelling);
  }

  /**
   The codec is exact: the parser accepts precisely the texts the printer can produce, up to
   how the decimal size is spelled, and returns what is written in them.
   */
  lemma PointerExact(bytes: string, p: LfsPointer)
    ensures PointerOf(bytes) == Success(p)
       <==> exists spelling :: ParseU64(spelling) == Some(p.size) && bytes == PointerText(p.oid, spelling)
  {
    if PointerOf(bytes) == Success(p) {
      var spelling := PointerWritten(bytes);
    }
    if spelling :| ParseU64(spelling) == Some(p.size) && bytes == PointerText(p.oid, spelling) {
      PointerAccepted(p.oid, spelling);
    }
  }

  /** Only what is not text is refused as such, and a version is unknown only if the first line names another one. */
  lemma PointerRefusal(bytes: string)
    ensures PointerOf(bytes) == Failure(NotText) <==> !Utf8.Valid(bytes)
    ensures PointerOf(bytes) == Failure(UnknownVersion) <==>
      Utf8.Valid(bytes) && exists v :: v != "https://git-lfs.github.com/spec/v1" && FirstLine(bytes) == "version " + v
  {
    hide Split, Utf8.Valid, ParseU64, ParseDigest, FirstLine;
    FirstLineIsFirst(bytes);
    VersionOf(FirstLine(bytes));
  }

  lemma VersionOf(line: string)
    ensures StripPrefix(line, "version ").None? ==> forall v :: line != "version " + v
    ensures StripPrefix(line, "version ").Some? ==>
      line == "version " + StripPrefix(line, "version ").value && forall v :: line == "version " + v ==> v == StripPrefix(line, "version ").value
  {
    forall v | line == "version " + v ensures StripPrefix(line, "version ") == Some(v) {
      assert line[8..] == v;
    }
  }

  /** Parsing a built pointer gives back exactly the digest and the size. */
  lemma PointerRoundTrip(oid: Digest, size: u64)
    ensures PointerOf(Build(oid, size)) == Success(LfsPointer(oid, size))
  {
    ParseDecimal(size);
    PointerAccepted(oid, Decimal(size));
  }

  lemma PointerInjective(oid: Digest, size: u64, oid': Digest, size': u64)
    ensures Build(oid, size) == Build(oid', size') <==> oid == oid' && size == size'
  {
    PointerRoundTrip(oid, size);
    PointerRoundTrip(oid', size');
  }
}
