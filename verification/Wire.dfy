/** The durable text form of a delivery (`backup/wire.rs`). */
module DeliveryWire {
  import opened Wrappers
  import opened Text
  import opened ContentPaths
  import opened Snapshots
  import opened LfsPointers
  import opened Deliveries
  import Order
  import M = Manifests

  datatype WireError = DamagedWire | UnknownWireVersion | BadDelivery(error: DeliveryError)

  const WIRE_VERSION := "mineral-backup-delivery v1"

  // ---------- encoding ----------

  /** A header whose snapshot id is written as `id`. */
  function SpelledHeader(id: string, d: Delivery): seq<string> {
    [WIRE_VERSION,
     "snapshot" + " " + id,
     "source" + " " + d.sourceId,
     "projection" + " " + Hex(d.projection),
     "attributes" + " " + Hex(d.attributesBlob),
     "manifest" + " " + Hex(d.manifestBlob)]
  }

  function HeaderLines(d: Delivery): seq<string> {
    SpelledHeader(Decimal(d.id), d)
  }

  function FileFields(f: DeliveryFile): (fields: seq<string>)
    ensures |fields| >= 4
  {
    match f.representation
    case GitBlob(blob, size) => ["git", Hex(blob), Decimal(size), f.path]
    case GitLfs(source, size, pointer) => ["lfs", Hex(source), Decimal(size), Hex(pointer), f.path]
  }

  function FileLine(f: DeliveryFile): (s: string)
    ensures s != ""
  {
    Spaced(FileFields(f))
  }

  function FileLines(files: seq<DeliveryFile>): (lines: seq<string>)
    ensures |lines| == |files| && forall i :: 0 <= i < |files| ==> lines[i] == FileLine(files[i])
  {
    seq(|files|, i requires 0 <= i < |files| => FileLine(files[i]))
  }

  function ObjectLine(o: RequiredLfsObject): (s: string)
    ensures s != ""
  {
    Spaced(["object", Hex(o.oid), Decimal(o.size)])
  }

  function ObjectLines(objects: seq<RequiredLfsObject>): (lines: seq<string>)
    ensures |lines| == |objects| && forall i :: 0 <= i < |objects| ==> lines[i] == ObjectLine(objects[i])
  {
    seq(|objects|, i requires 0 <= i < |objects| => ObjectLine(objects[i]))
  }

  function BodyLines(d: Delivery): seq<string> {
    FileLines(d.files) + ObjectLines(d.objects)
  }

  /** What `BackupDeliveryWire::encode` returns. */
  function Encoded(d: Delivery): string {
    Lines(HeaderLines(d) + BodyLines(d))
  }

  /** `encode`: appends the header, then a line per file, then a line per object. */
  method Encode(d: Delivery) returns (text: string)
    ensures text == Encoded(d)
  {
    var header := HeaderLines(d);
    text := AppendLines("", [], header);
    assert [] + header == header;
    text := AppendLines(text, header, FileLines(d.files));
    text := AppendLines(text, header + FileLines(d.files), ObjectLines(d.objects));
    assert header + FileLines(d.files) + ObjectLines(d.objects) == header + BodyLines(d);
  }

  method AppendLines(start: string, ghost before: seq<string>, lines: seq<string>) returns (text: string)
    requires start == Lines(before)
    ensures text == Lines(before + lines)
  {
    text := start;
    assert before + lines[..0] == before;
    for i := 0 to |lines|
      invariant text == Lines(before + lines[..i])
    {
      text := text + (lines[i] + "\n");
      M.AppendLine(before + lines[..i], lines[i]);
      assert before + lines[..i] + [lines[i]] == before + lines[..i + 1];
    }
    assert lines[..|lines|] == lines;
  }

  // ---------- decoding ----------

  datatype Item = FileItem(file: DeliveryFile) | ObjectItem(object: RequiredLfsObject)

  function NextDigest(fields: seq<string>, i: nat): Result<Digest, WireError> {
    if i >= |fields| then Failure(DamagedWire) else OkOr(ParseDigest(fields[i]), DamagedWire)
  }

  function NextSize(fields: seq<string>, i: nat): Result<u64, WireError> {
    if i >= |fields| then Failure(DamagedWire) else OkOr(ParseU64(fields[i]), DamagedWire)
  }

  function NextPath(fields: seq<string>, i: nat): (r: Result<ContentPath, WireError>)
    ensures r.Success? ==> i < |fields| && r.value == fields[i]
  {
    if i >= |fields| then Failure(DamagedWire) else OkOr(M.ParsePath(fields[i]), DamagedWire)
  }

  function GitItem(fields: seq<string>): (r: Result<Item, WireError>)
    ensures r.Success? ==> |fields| >= 4 && r.value.FileItem? && r.value.file.representation.GitBlob? && r.value.file.path == fields[3]
  {
    var blob :- NextDigest(fields, 1);
    var size :- NextSize(fields, 2);
    var path :- NextPath(fields, 3);
    Success(FileItem(DeliveryFile(path, GitBlob(blob, size))))
  }

  function LfsItem(fields: seq<string>): (r: Result<Item, WireError>)
    ensures r.Success? ==> |fields| >= 5 && r.value.FileItem? && r.value.file.representation.GitLfs? && r.value.file.path == fields[4]
  {
    var source :- NextDigest(fields, 1);
    var size :- NextSize(fields, 2);
    var pointer :- NextDigest(fields, 3);
    var path :- NextPath(fields, 4);
    Success(FileItem(DeliveryFile(path, GitLfs(source, size, pointer))))
  }

  function ObjectRecordItem(fields: seq<string>): (r: Result<Item, WireError>)
    ensures r.Success? ==> r.value.ObjectItem?
  {
    var oid :- NextDigest(fields, 1);
    var size :- NextSize(fields, 2);
    Success(ObjectItem(RequiredLfsObject(oid, size)))
  }

  function ItemOfFields(fields: seq<string>): Result<Item, WireError>
    requires |fields| >= 1
  {
    if fields[0] == "git" then GitItem(fields)
    else if fields[0] == "lfs" then LfsItem(fields)
    else if fields[0] == "object" then ObjectRecordItem(fields)
    else Failure(DamagedWire)
  }

  /** One line: every record, Git's four fields included, is split into at most five. */
  function ItemOf(line: string): Result<Item, WireError> {
    ItemOfFields(SplitN(line, ' ', 5))
  }

  datatype Items = Items(files: seq<DeliveryFile>, objects: seq<RequiredLfsObject>)

  function Push(item: Item, rest: Items): Items {
    match item
    case FileItem(f) => Items([f] + rest.files, rest.objects)
    case ObjectItem(o) => Items(rest.files, [o] + rest.objects)
  }

  /** The records of the body; empty lines are skipped wherever they are. */
  function ItemsOf(lines: seq<string>): Result<Items, WireError> {
    if lines == [] then Success(Items([], []))
    else if lines[0] == "" then ItemsOf(lines[1..])
    else
      var item :- ItemOf(lines[0]);
      var rest :- ItemsOf(lines[1..]);
      Success(Push(item, rest))
  }

  function FieldDigest(lines: seq<string>, i: nat, name: string): Result<Digest, WireError> {
    match M.ParseField(lines, i, name)
    case None => Failure(DamagedWire)
    case Some(v) => OkOr(ParseDigest(v), DamagedWire)
  }

  datatype Header = Header(id: SnapshotId, sourceId: SourceId, projection: Digest, attributes: Digest, manifest: Digest)

  function HeaderOf(lines: seq<string>): Result<Header, WireError> {
    var idText :- OkOr(M.ParseField(lines, 1, "snapshot"), DamagedWire);
    var id :- OkOr(M.ParseId(idText), DamagedWire);
    var sourceText :- OkOr(M.ParseField(lines, 2, "source"), DamagedWire);
    var sourceId :- OkOr(NewSourceId(sourceText), DamagedWire);
    var projection :- FieldDigest(lines, 3, "projection");
    var attributes :- FieldDigest(lines, 4, "attributes");
    var manifest :- FieldDigest(lines, 5, "manifest");
    Success(Header(id, sourceId, projection, attributes, manifest))
  }

  function Assemble(H: Hash, h: Header, items: Items): Result<Delivery, WireError> {
    match FromParts(H, h.id, h.sourceId, h.projection, items.files, items.objects, h.manifest, h.attributes)
    case Failure(e) => Failure(BadDelivery(e))
    case Success(d) => Success(d)
  }

  /** What `BackupDeliveryWire::decode` returns. */
  function Decoded(H: Hash, text: string): Result<Delivery, WireError> {
    var lines := Split(text, '\n');
    if lines[0] != WIRE_VERSION then Failure(UnknownWireVersion) else
    var header :- HeaderOf(lines);
    var items :- ItemsOf(if |lines| < 6 then [] else lines[6..]);
    Assemble(H, header, items)
  }

  /** `decode`: consumes the lines, pushing files and objects as their records are read. */
  method Decode(H: Hash, text: string) returns (r: Result<Delivery, WireError>)
    ensures r == Decoded(H, text)
  {
    var lines := Split(text, '\n');
    if lines[0] != WIRE_VERSION {
      return Failure(UnknownWireVersion);
    }
    var header := HeaderOf(lines);
    if header.Failure? {
      return Failure(header.error);
    }
    var items := DecodeBody(if |lines| < 6 then [] else lines[6..]);
    if items.Failure? {
      return Failure(items.error);
    }
    r := Assemble(H, header.value, items.value);
  }

  method DecodeBody(body: seq<string>) returns (r: Result<Items, WireError>)
    ensures r == ItemsOf(body)
  {
    var files: seq<DeliveryFile> := [];
    var objects: seq<RequiredLfsObject> := [];
    assert body[0..] == body;
    ResumeNothing(ItemsOf(body));
    for i := 0 to |body|
      invariant ItemsOf(body) == Resume(files, objects, ItemsOf(body[i..]))
    {
      assert body[i..][0] == body[i] && body[i..][1..] == body[i + 1..];
      if body[i] != "" {
        var item := ItemOf(body[i]);
        if item.Failure? {
          return Failure(item.error);
        }
        ResumePush(files, objects, item.value, ItemsOf(body[i + 1..]));
        match item.value {
          case FileItem(f) => files := files + [f];
          case ObjectItem(o) => objects := objects + [o];
        }
      }
    }
    assert files + [] == files && objects + [] == objects;
    r := Success(Items(files, objects));
  }

  ghost function Resume(files: seq<DeliveryFile>, objects: seq<RequiredLfsObject>, rest: Result<Items, WireError>): Result<Items, WireError> {
    match rest
    case Failure(e) => Failure(e)
    case Success(r) => Success(Items(files + r.files, objects + r.objects))
  }

  lemma ResumeNothing(rest: Result<Items, WireError>)
    ensures Resume([], [], rest) == rest
  {
    assert rest.Success? ==> [] + rest.value.files == rest.value.files && [] + rest.value.objects == rest.value.objects;
  }

  lemma ResumePush(files: seq<DeliveryFile>, objects: seq<RequiredLfsObject>, item: Item, rest: Result<Items, WireError>)
    ensures rest.Success? ==>
      Resume(files, objects, Success(Push(item, rest.value)))
      == (match item
          case FileItem(f) => Resume(files + [f], objects, rest)
          case ObjectItem(o) => Resume(files, objects + [o], rest))
  {
    if rest.Success? {
      match item {
        case FileItem(f) => assert files + ([f] + rest.value.files) == (files + [f]) + rest.value.files;
        case ObjectItem(o) => assert objects + ([o] + rest.value.objects) == (objects + [o]) + rest.value.objects;
      }
    }
  }

  // ---------- the round trip ----------

  predicate StorableFile(f: DeliveryFile) {
    '\n' !in f.path && (f.representation.GitBlob? ==> ' ' !in f.path)
  }

  /** The deliveries whose durable form can be read back. */
  predicate Storable(d: Delivery) {
    '\n' !in d.sourceId && forall f :: f in d.files ==> StorableFile(f)
  }

  // ---------- one record ----------

  /** What a reader of the record finds as the path: a Git path ends at its first space. */
  function CutPath(f: DeliveryFile): string {
    if f.representation.GitBlob? then f.path[..IndexOf(f.path, ' ')] else f.path
  }

  /** What the reader finds is still a path. */
  predicate Readable(f: DeliveryFile) {
    Canonical(CutPath(f))
  }

  function CutFile(f: DeliveryFile): DeliveryFile
    requires Readable(f)
  {
    DeliveryFile(CutPath(f), f.representation)
  }

  lemma GitFields(blob: Digest, size: u64, path: string, rest: seq<string>)
    ensures ItemOfFields(["git", Hex(blob), Decimal(size), path] + rest)
         == if Canonical(path) then Success(FileItem(DeliveryFile(path, GitBlob(blob, size)))) else Failure(DamagedWire)
  {
    hide Canonical;
    DigestRoundTrip(blob);
    ParseDecimal(size);
  }

  lemma LfsFields(source: Digest, size: u64, pointer: Digest, path: ContentPath)
    ensures ItemOfFields(["lfs", Hex(source), Decimal(size), Hex(pointer), path])
         == Success(FileItem(DeliveryFile(path, GitLfs(source, size, pointer))))
  {
    DigestRoundTrip(source);
    DigestRoundTrip(pointer);
    ParseDecimal(size);
  }

  lemma FieldsPlain(f: DeliveryFile)
    ensures forall i :: 0 <= i < |FileFields(f)| - 1 ==> ' ' !in FileFields(f)[i] && '\n' !in FileFields(f)[i]
    ensures FileFields(f)[|FileFields(f)| - 1] == f.path
  {
    match f.representation
    case GitBlob(blob, size) =>
      PlainHex(blob);
      PlainDecimal(size);
    case GitLfs(source, size, pointer) =>
      PlainHex(source);
      PlainDecimal(size);
      PlainHex(pointer);
  }

  lemma FileLineNoNewline(f: DeliveryFile)
    requires '\n' !in f.path
    ensures '\n' !in FileLine(f)
  {
    FieldsPlain(f);
    SpacedNoNewline(FileFields(f));
  }

  lemma {:induction false} SpacedTail(front: seq<string>, p: string, q: string)
    ensures Spaced(front + [p + [' '] + q]) == Spaced(front + [p, q])
  {
    if front == [] {
      assert Spaced([p, q]) == p + [' '] + Spaced([p, q][1..]);
      assert [p, q][1..] == [q];
      assert front + [p, q] == [p, q];
    } else {
      SpacedTail(front[1..], p, q);
      assert (front + [p + [' '] + q])[1..] == front[1..] + [p + [' '] + q];
      assert (front + [p, q])[1..] == front[1..] + [p, q];
    }
  }

  /** A Git record whose path holds a space has five fields, of which the reader takes four. */
  lemma GitLineCut(blob: Digest, size: u64, p: string, q: string)
    requires ' ' !in p
    ensures ItemOf(Spaced(["git", Hex(blob), Decimal(size), p + [' '] + q]))
         == if Canonical(p) then Success(FileItem(DeliveryFile(p, GitBlob(blob, size)))) else Failure(DamagedWire)
  {
    hide Canonical, ItemOfFields, SplitN, Hex, Decimal;
    var front := ["git", Hex(blob), Decimal(size)];
    PlainHex(blob);
    PlainDecimal(size);
    SpacedTail(front, p, q);
    assert ["git", Hex(blob), Decimal(size), p + [' '] + q] == front + [p + [' '] + q];
    SplitSpaced(front + [p, q], 5);
    GitFields(blob, size, p, [q]);
    assert front + [p, q] == ["git", Hex(blob), Decimal(size), p] + [q];
  }

  lemma GitLineWhole(blob: Digest, size: u64, p: string)
    requires ' ' !in p
    ensures ItemOf(Spaced(["git", Hex(blob), Decimal(size), p]))
         == if Canonical(p) then Success(FileItem(DeliveryFile(p, GitBlob(blob, size)))) else Failure(DamagedWire)
  {
    hide Canonical, ItemOfFields, SplitN, Hex, Decimal;
    var fields := ["git", Hex(blob), Decimal(size), p];
    PlainHex(blob);
    PlainDecimal(size);
    SplitSpaced(fields, 5);
    GitFields(blob, size, p, []);
    assert fields + [] == fields;
  }

  /** Every printed file record is read back with its path as the reader finds it, or refused. */
  lemma FileLineRead(f: DeliveryFile)
    ensures ItemOf(FileLine(f)) == if Readable(f) then Success(FileItem(CutFile(f))) else Failure(DamagedWire)
  {
    hide Canonical, ItemOfFields, SplitN, Hex, Decimal, Spaced, IndexOf;
    match f.representation
    case GitBlob(blob, size) =>
      var i := IndexOf(f.path, ' ');
      if i == |f.path| {
        assert f.path[..i] == f.path;
        GitLineWhole(blob, size, f.path);
      } else {
        CutAt(f.path, i);
        GitLineCut(blob, size, f.path[..i], f.path[i + 1..]);
      }
    case GitLfs(source, size, pointer) =>
      FieldsPlain(f);
      SplitSpaced(FileFields(f), 5);
      LfsFields(source, size, pointer, f.path);
  }

  lemma ObjectLineBack(o: RequiredLfsObject)
    ensures ItemOf(ObjectLine(o)) == Success(ObjectItem(o))
    ensures '\n' !in ObjectLine(o)
  {
    hide Hex, Decimal, SplitN, ItemOfFields, ParseU64;
    var fields := ["object", Hex(o.oid), Decimal(o.size)];
    ParseDecimal(o.size);
    M.DigitsPlain(Decimal(o.size));
    M.HexPlain(o.oid);
    ObjectWritten(o, Decimal(o.size), []);
    assert fields + [] == fields;
    SpacedNoNewline(fields);
  }

  lemma EmptyLineSkipped()
    ensures ItemsOf([""]) == Success(Items([], []))
  {
    assert [""][1..] == [];
  }

  lemma ItemsCons(line: string, item: Item, rest: seq<string>)
    requires line != "" && ItemOf(line) == Success(item) && ItemsOf(rest).Success?
    ensures ItemsOf([line] + rest) == Success(Push(item, ItemsOf(rest).value))
  {
    assert ([line] + rest)[1..] == rest;
  }

  lemma {:induction false} ObjectsBack(objects: seq<RequiredLfsObject>)
    ensures ItemsOf(ObjectLines(objects) + [""]) == Success(Items([], objects))
  {
    if objects == [] {
      EmptyLineSkipped();
      assert ObjectLines(objects) + [""] == [""];
    } else {
      ObjectsBack(objects[1..]);
      ObjectsBackStep(objects[0], objects[1..]);
      HeadAndTail(objects);
    }
  }

  lemma ObjectsBackStep(o: RequiredLfsObject, rest: seq<RequiredLfsObject>)
    requires ItemsOf(ObjectLines(rest) + [""]) == Success(Items([], rest))
    ensures ItemsOf(ObjectLines([o] + rest) + [""]) == Success(Items([], [o] + rest))
  {
    ObjectLineBack(o);
    ObjectLinesCons(o, rest);
    ItemsCons(ObjectLine(o), ObjectItem(o), ObjectLines(rest) + [""]);
  }

  lemma ObjectLinesCons(o: RequiredLfsObject, rest: seq<RequiredLfsObject>)
    ensures ObjectLines([o] + rest) + [""] == [ObjectLine(o)] + (ObjectLines(rest) + [""])
  {
    hide ObjectLine;
  }

  lemma FileLinesCons(f: DeliveryFile, rest: seq<DeliveryFile>, tail: seq<string>)
    ensures FileLines([f] + rest) + tail == [FileLine(f)] + (FileLines(rest) + tail)
  {
    hide FileLine;
  }

  function CutFiles(files: seq<DeliveryFile>): (r: seq<DeliveryFile>)
    requires forall f :: f in files ==> Readable(f)
    ensures |r| == |files| && forall i :: 0 <= i < |files| ==> r[i] == CutFile(files[i])
  {
    seq(|files|, i requires 0 <= i < |files| => CutFile(files[i]))
  }

  predicate AllReadable(files: seq<DeliveryFile>) {
    forall f :: f in files ==> Readable(f)
  }

  lemma ReadableCons(f: DeliveryFile, rest: seq<DeliveryFile>)
    ensures AllReadable([f] + rest) <==> Readable(f) && AllReadable(rest)
    ensures AllReadable([f] + rest) ==> CutFiles([f] + rest) == [CutFile(f)] + CutFiles(rest)
  {
    hide Readable;
    if AllReadable([f] + rest) {
      assert f in [f] + rest;
    }
  }

  lemma ItemFails(line: string, rest: seq<string>, e: WireError)
    requires line != ""
    ensures ItemOf(line) == Failure(e) ==> ItemsOf([line] + rest) == Failure(e)
    ensures ItemOf(line).Success? && ItemsOf(rest) == Failure(e) ==> ItemsOf([line] + rest) == Failure(e)
  {
    assert ([line] + rest)[1..] == rest;
  }

  /** All file records together: the files with the paths their readers find, or a damaged text. */
  lemma {:induction false} ItemsRead(files: seq<DeliveryFile>, tail: seq<string>, objects: seq<RequiredLfsObject>)
    requires ItemsOf(tail) == Success(Items([], objects))
    ensures ItemsOf(FileLines(files) + tail) == if AllReadable(files) then Success(Items(CutFiles(files), objects)) else Failure(DamagedWire)
  {
    hide ItemsOf, ItemOf, FileLine, AllReadable, Readable;
    if files == [] {
      NoneUnreadable();
      assert FileLines(files) + tail == tail;
    } else {
      var f, rest := files[0], files[1..];
      HeadAndTail(files);
      ItemsRead(rest, tail, objects);
      FileLineRead(f);
      FileLinesCons(f, rest, tail);
      ReadableCons(f, rest);
      ItemFails(FileLine(f), FileLines(rest) + tail, DamagedWire);
      if Readable(f) && AllReadable(rest) {
        ItemsCons(FileLine(f), FileItem(CutFile(f)), FileLines(rest) + tail);
      }
    }
  }

  lemma NoneUnreadable()
    ensures AllReadable([]) && CutFiles([]) == []
  {
  }

  lemma DigestField(lines: seq<string>, i: nat, name: string, d: Digest)
    requires i < |lines| && lines[i] == name + " " + Hex(d)
    ensures FieldDigest(lines, i, name) == Success(d)
  {
    StripPrefixOf(name + " ", Hex(d));
    DigestRoundTrip(d);
  }

  lemma TextField(lines: seq<string>, i: nat, name: string, value: string)
    requires i < |lines| && lines[i] == name + " " + value && value != ""
    ensures M.ParseField(lines, i, name) == Some(value)
  {
    StripPrefixOf(name + " ", value);
  }

  function HeaderOfDelivery(d: Delivery): Header {
    Header(d.id, d.sourceId, d.projection, d.attributesBlob, d.manifestBlob)
  }

  lemma HeaderSpelled(id: string, d: Delivery, body: seq<string>)
    requires ParseU64(id) == Some(d.id)
    ensures var lines := SpelledHeader(id, d) + body;
      |lines| >= 6 && lines[0] == WIRE_VERSION && lines[6..] == body && HeaderOf(lines) == Success(HeaderOfDelivery(d))
  {
    hide ParseU64, Hex, M.ParseField;
    var lines := SpelledHeader(id, d) + body;
    M.DigitsPlain(id);
    TextField(lines, 1, "snapshot", id);
    TextField(lines, 2, "source", d.sourceId);
    DigestField(lines, 3, "projection", d.projection);
    DigestField(lines, 4, "attributes", d.attributesBlob);
    DigestField(lines, 5, "manifest", d.manifestBlob);
  }

  lemma HeaderNoNewline(d: Delivery)
    ensures '\n' !in d.sourceId ==> forall l :: l in HeaderLines(d) ==> '\n' !in l
  {
    PlainDecimal(d.id);
    PlainHex(d.projection);
    PlainHex(d.attributesBlob);
    PlainHex(d.manifestBlob);
  }

  lemma BodyNoNewline(d: Delivery)
    requires forall f :: f in d.files ==> '\n' !in f.path
    ensures forall l :: l in BodyLines(d) ==> '\n' !in l
  {
    hide FileLine, ObjectLine;
    forall l | l in FileLines(d.files) ensures '\n' !in l {
      var i :| 0 <= i < |d.files| && FileLines(d.files)[i] == l;
      assert d.files[i] in d.files;
      FileLineNoNewline(d.files[i]);
    }
    forall l | l in ObjectLines(d.objects) ensures '\n' !in l {
      var i :| 0 <= i < |d.objects| && ObjectLines(d.objects)[i] == l;
      ObjectLineBack(d.objects[i]);
    }
  }

  ghost predicate NewlineFree(d: Delivery) {
    '\n' !in d.sourceId && forall f :: f in d.files ==> '\n' !in f.path
  }

  lemma SplitEncoded(d: Delivery)
    requires NewlineFree(d)
    ensures Split(Encoded(d), '\n') == HeaderLines(d) + (FileLines(d.files) + (ObjectLines(d.objects) + [""]))
  {
    hide Split, FileLine, ObjectLine, Hex, Decimal;
    HeaderNoNewline(d);
    BodyNoNewline(d);
    SplitLines(HeaderLines(d) + BodyLines(d));
    Associate(HeaderLines(d), BodyLines(d), [""]);
    Associate(FileLines(d.files), ObjectLines(d.objects), [""]);
  }

  /** What the decoder makes of an encoded delivery without newlines. */
  lemma EncodedIsRead(H: Hash, d: Delivery)
    requires NewlineFree(d)
    ensures Decoded(H, Encoded(d)) == if AllReadable(d.files)
                                      then Assemble(H, HeaderOfDelivery(d), Items(CutFiles(d.files), d.objects))
                                      else Failure(DamagedWire)
  {
    hide Split, FileLine, ObjectLine, Hex, Decimal, AllReadable, ItemsOf, Assemble, SpelledHeader, HeaderOf;
    var body := FileLines(d.files) + (ObjectLines(d.objects) + [""]);
    var lines := HeaderLines(d) + body;
    SplitEncoded(d);
    ParseDecimal(d.id);
    HeaderSpelled(Decimal(d.id), d, body);
    ObjectsBack(d.objects);
    ItemsRead(d.files, ObjectLines(d.objects) + [""], d.objects);
  }

  /** The delivery a stored one comes back as. */
  function CutDelivery(H: Hash, d: Delivery): Delivery
    requires AllReadable(d.files)
  {
    var files := Order.Sort(CutFiles(d.files), DeliveryPath);
    Delivery(d.id, d.sourceId, d.projection, files, d.objects, d.manifestBlob, d.attributesBlob,
             H(Preimage(d.id, d.projection, files, d.objects, d.manifestBlob, d.attributesBlob)))
  }

  /**
   What becomes of every stored delivery without newlines. It is read back exactly when each path
   stored as a Git blob is still a path after losing everything from its first space, and the paths
   are still different then; what is read back is the delivery with those paths, in their order,
   under another identity. A cut that leaves no path is damage; a cut onto another path is a
   repeated path; any other cut passes unnoticed.
   */
  lemma WireReadsCut(H: Hash, d: Delivery)
    requires WellFormed(H, d) && NewlineFree(d)
    ensures var r := Decoded(H, Encoded(d));
      && (r.Success? <==> AllReadable(d.files) && Order.DistinctKeys(CutFiles(d.files), DeliveryPath))
      && (r.Success? ==> r.value == CutDelivery(H, d))
      && (r.Failure? && !AllReadable(d.files) ==> r.error == DamagedWire)
      && (r.Failure? && AllReadable(d.files) ==> r.error.BadDelivery? && r.error.error.RepeatedPath?)
  {
    hide Encoded, AllReadable, Decoded, OneSizeEach;
    EncodedIsRead(H, d);
    if AllReadable(d.files) {
      Order.RepeatExact(CutFiles(d.files), DeliveryPath);
      ConflictExact(d.objects);
      CanonicalIdentity(d.objects);
    }
  }

  lemma StorableIsUncut(d: Delivery)
    requires Storable(d)
    ensures AllReadable(d.files) && CutFiles(d.files) == d.files
  {
    hide Canonical;
    forall f | f in d.files ensures CutPath(f) == f.path {
      if f.representation.GitBlob? {
        IndexOfIs(f.path, ' ', |f.path|);
      }
    }
  }

  lemma DecodesBack(H: Hash, d: Delivery)
    requires WellFormed(H, d) && Storable(d)
    ensures Decoded(H, Encoded(d)) == Success(d)
  {
    hide Encoded, Decoded, AllReadable;
    EncodedIsRead(H, d);
    StorableIsUncut(d);
    FromPartsIdentity(H, d);
  }

  lemma {:induction false} DecodedItems(lines: seq<string>)
    requires ItemsOf(lines).Success? && forall l :: l in lines ==> '\n' !in l
    ensures forall f :: f in ItemsOf(lines).value.files ==> StorableFile(f)
  {
    if lines != [] {
      assert lines[0] in lines;
      DecodedItems(lines[1..]);
      if lines[0] != "" {
        DecodedItem(lines[0]);
      }
    }
  }

  lemma DecodedItem(line: string)
    requires '\n' !in line && ItemOf(line).Success?
    ensures ItemOf(line).value.FileItem? ==> StorableFile(ItemOf(line).value.file)
  {
    var fields := SplitN(line, ' ', 5);
    forall i | 0 <= i < |fields| ensures '\n' !in fields[i] {
      assert fields[i] in fields;
    }
  }

  lemma DecodedHeader(lines: seq<string>)
    ensures HeaderOf(lines).Success? && (forall l :: l in lines ==> '\n' !in l) ==> '\n' !in HeaderOf(lines).value.sourceId
  {
    assert |lines| > 2 ==> lines[2] in lines;
  }

  /** Whatever is decoded is storable: nothing else can come out of lines and fields. */
  lemma DecodedIsStorable(H: Hash, text: string)
    requires Decoded(H, text).Success?
    ensures Storable(Decoded(H, text).value) && WellFormed(H, Decoded(H, text).value)
  {
    var lines := Split(text, '\n');
    var header := HeaderOf(lines).value;
    DecodedHeader(lines);
    var body := if |lines| < 6 then [] else lines[6..];
    DecodedItems(body);
    var items := ItemsOf(body).value;
    FromPartsExact(H, header.id, header.sourceId, header.projection, items.files, items.objects, header.manifest, header.attributes);
    Order.SortMembers(items.files, DeliveryPath);
  }

  /**
   The durable round trip, recomputed identity, order and deduplication included: a delivery is
   read back unchanged if and only if its source id and paths hold no newline and no path stored
   as a Git blob holds a space. Spaces in LFS paths survive.
   */
  lemma WireRoundTrip(H: Hash, d: Delivery)
    requires WellFormed(H, d)
    ensures Decoded(H, Encoded(d)) == Success(d) <==> Storable(d)
  {
    if Storable(d) {
      DecodesBack(H, d);
    }
    if Decoded(H, Encoded(d)) == Success(d) {
      DecodedIsStorable(H, Encoded(d));
    }
  }

  /** A Git-stored path cut at its first space: one record read back under another path, with no error. */
  lemma SpaceTruncates(p: ContentPath, q: string, blob: Digest, size: u64)
    requires ' ' !in p && Canonical(p + [' '] + q)
    ensures ItemOf(FileLine(DeliveryFile(p + [' '] + q, GitBlob(blob, size)))) == Success(FileItem(DeliveryFile(p, GitBlob(blob, size))))
  {
    GitLineCut(blob, size, p, q);
  }

  // ---------- exactly which texts are accepted ----------

  /** One way to write a record: sizes spelled as the number parser allows, then fields nobody reads. */
  ghost predicate ItemWritten(line: string, item: Item, size: string, surplus: seq<string>) {
    match item
    case FileItem(DeliveryFile(path, GitBlob(blob, n))) =>
      && ParseU64(size) == Some(n) && ' ' !in path && |surplus| <= 1
      && line == Spaced(["git", Hex(blob), size, path] + surplus)
    case FileItem(DeliveryFile(path, GitLfs(source, n, pointer))) =>
      && ParseU64(size) == Some(n) && surplus == []
      && line == Spaced(["lfs", Hex(source), size, Hex(pointer), path])
    case ObjectItem(o) =>
      && ParseU64(size) == Some(o.size) && |surplus| <= 2 && (surplus != [] ==> ' ' !in surplus[0])
      && line == Spaced(["object", Hex(o.oid), size] + surplus)
  }

  lemma GitWritten(blob: Digest, n: u64, path: ContentPath, size: string, surplus: seq<string>)
    requires ParseU64(size) == Some(n) && ' ' !in path && |surplus| <= 1
    ensures ItemOf(Spaced(["git", Hex(blob), size, path] + surplus)) == Success(FileItem(DeliveryFile(path, GitBlob(blob, n))))
  {
    hide SplitN, Spaced, ParseU64, Hex, Canonical;
    M.DigitsPlain(size);
    M.HexPlain(blob);
    DigestRoundTrip(blob);
    SplitSpaced(["git", Hex(blob), size, path] + surplus, 5);
  }

  lemma LfsWritten(source: Digest, n: u64, pointer: Digest, path: ContentPath, size: string)
    requires ParseU64(size) == Some(n)
    ensures ItemOf(Spaced(["lfs", Hex(source), size, Hex(pointer), path]))
         == Success(FileItem(DeliveryFile(path, GitLfs(source, n, pointer))))
  {
    hide SplitN, Spaced, ParseU64, Hex, Canonical;
    M.DigitsPlain(size);
    M.HexPlain(source);
    M.HexPlain(pointer);
    DigestRoundTrip(source);
    DigestRoundTrip(pointer);
    SplitSpaced(["lfs", Hex(source), size, Hex(pointer), path], 5);
  }

  lemma ObjectFieldsRead(o: RequiredLfsObject, size: string, surplus: seq<string>)
    requires ParseU64(size) == Some(o.size)
    ensures ItemOfFields(["object", Hex(o.oid), size] + surplus) == Success(ObjectItem(o))
  {
    hide ParseU64, Hex;
    DigestRoundTrip(o.oid);
  }

  lemma ObjectFieldsSplit(hex: string, size: string, surplus: seq<string>)
    requires ' ' !in hex && ' ' !in size && |surplus| <= 2 && (surplus != [] ==> ' ' !in surplus[0])
    ensures SplitN(Spaced(["object", hex, size] + surplus), ' ', 5) == ["object", hex, size] + surplus
  {
    hide SplitN, Spaced;
    var fields := ["object", hex, size] + surplus;
    assert ' ' !in "object";
    assert |surplus| == 2 ==> fields[3] == surplus[0];
    assert |surplus| == 1 ==> fields[3] == surplus[0];
    SplitSpaced(fields, 5);
  }

  lemma ObjectWritten(o: RequiredLfsObject, size: string, surplus: seq<string>)
    requires ParseU64(size) == Some(o.size) && |surplus| <= 2 && (surplus != [] ==> ' ' !in surplus[0])
    ensures ItemOf(Spaced(["object", Hex(o.oid), size] + surplus)) == Success(ObjectItem(o))
  {
    hide SplitN, Spaced, ParseU64, Hex, ItemOfFields;
    M.DigitsPlain(size);
    M.HexPlain(o.oid);
    ObjectFieldsSplit(Hex(o.oid), size, surplus);
    ObjectFieldsRead(o, size, surplus);
  }

  lemma WrittenItemIsRead(line: string, item: Item, size: string, surplus: seq<string>)
    requires ItemWritten(line, item, size, surplus)
    ensures ItemOf(line) == Success(item)
  {
    hide ItemOf, Spaced, ParseU64, Hex, Canonical;
    match item
    case FileItem(DeliveryFile(path, GitBlob(blob, n))) => GitWritten(blob, n, path, size, surplus);
    case FileItem(DeliveryFile(path, GitLfs(source, n, pointer))) => LfsWritten(source, n, pointer, path, size);
    case ObjectItem(o) => ObjectWritten(o, size, surplus);
  }

  lemma ReadItemIsWritten(line: string) returns (size: string, surplus: seq<string>)
    requires ItemOf(line).Success?
    ensures ItemWritten(line, ItemOf(line).value, size, surplus)
  {
    hide SplitN, Spaced, ParseU64, Hex, Canonical;
    var fields := SplitN(line, ' ', 5);
    SpacedOfSplit(line, 5);
    DigestCanonical(fields[1]);
    size := fields[2];
    if fields[0] == "git" {
      surplus := fields[4..];
      assert fields == ["git", fields[1], size, fields[3]] + surplus;
    } else if fields[0] == "lfs" {
      surplus := [];
      DigestCanonical(fields[3]);
      assert fields == ["lfs", fields[1], size, fields[3], fields[4]];
    } else {
      surplus := fields[3..];
      assert fields == ["object", fields[1], size] + surplus;
    }
  }

  /** A record line is accepted with an item exactly when it is one way to write that item. */
  lemma ItemExact(line: string, item: Item)
    ensures ItemOf(line) == Success(item) <==> exists size, surplus :: ItemWritten(line, item, size, surplus)
  {
    hide ItemOf, ItemWritten;
    if ItemOf(line) == Success(item) {
      var size, surplus := ReadItemIsWritten(line);
    }
    if size, surplus :| ItemWritten(line, item, size, surplus) {
      WrittenItemIsRead(line, item, size, surplus);
    }
  }

  /** The lines hold the items, in order, and otherwise nothing but empty lines. */
  ghost predicate BodyWritten(lines: seq<string>, items: Items)
    decreases lines
  {
    if lines == [] then items == Items([], [])
    else if lines[0] == "" then BodyWritten(lines[1..], items)
    else exists item, rest, size, surplus ::
      ItemWritten(lines[0], item, size, surplus) && BodyWritten(lines[1..], rest) && items == Push(item, rest)
  }

  lemma {:induction false} BodyExact(lines: seq<string>, items: Items)
    ensures ItemsOf(lines) == Success(items) <==> BodyWritten(lines, items)
    decreases lines
  {
    hide ItemOf, ItemWritten;
    if lines != [] {
      var line, more := lines[0], lines[1..];
      if line == "" {
        BodyExact(more, items);
      } else {
        if ItemsOf(lines) == Success(items) {
          var item, rest := ItemOf(line).value, ItemsOf(more).value;
          var size, surplus := ReadItemIsWritten(line);
          BodyExact(more, rest);
          assert items == Push(item, rest);
        }
        if item, rest, size, surplus :| ItemWritten(line, item, size, surplus) && BodyWritten(more, rest) && items == Push(item, rest) {
          WrittenItemIsRead(line, item, size, surplus);
          BodyExact(more, rest);
        }
      }
    }
  }

  /** One way to write a delivery: the header, then records and empty lines, assembled as its parts. */
  ghost predicate TextWritten(H: Hash, text: string, d: Delivery, id: string, body: seq<string>, items: Items) {
    && ParseU64(id) == Some(d.id) && Split(text, '\n') == SpelledHeader(id, d) + body && BodyWritten(body, items)
    && FromParts(H, d.id, d.sourceId, d.projection, items.files, items.objects, d.manifestBlob, d.attributesBlob) == Success(d)
  }

  lemma WrittenTextIsRead(H: Hash, text: string, d: Delivery, id: string, body: seq<string>, items: Items)
    requires TextWritten(H, text, d, id, body, items)
    ensures Decoded(H, text) == Success(d)
  {
    hide Split, BodyWritten, ItemsOf, Hex, ParseU64, FromParts;
    var lines := SpelledHeader(id, d) + body;
    HeaderSpelled(id, d, body);
    BodyExact(body, items);
  }

  lemma FieldDigestWritten(lines: seq<string>, i: nat, name: string)
    requires FieldDigest(lines, i, name).Success?
    ensures i < |lines| && lines[i] == name + " " + Hex(FieldDigest(lines, i, name).value)
  {
    DigestCanonical(M.ParseField(lines, i, name).value);
  }

  lemma HeaderRead(lines: seq<string>, d: Delivery) returns (id: string)
    requires lines != [] && lines[0] == WIRE_VERSION && HeaderOf(lines) == Success(HeaderOfDelivery(d))
    ensures |lines| >= 6 && ParseU64(id) == Some(d.id) && lines[..6] == SpelledHeader(id, d)
  {
    hide ParseU64, Hex, FieldDigest;
    id := M.ParseField(lines, 1, "snapshot").value;
    FieldDigestWritten(lines, 3, "projection");
    FieldDigestWritten(lines, 4, "attributes");
    FieldDigestWritten(lines, 5, "manifest");
  }

  lemma {:induction false} ItemsAreDamaged(lines: seq<string>)
    ensures ItemsOf(lines).Failure? ==> ItemsOf(lines).error == DamagedWire
  {
    hide ItemOf;
    if lines != [] {
      ItemsAreDamaged(lines[1..]);
      ItemIsDamaged(lines[0]);
    }
  }

  lemma ItemIsDamaged(line: string)
    ensures ItemOf(line).Failure? ==> ItemOf(line).error == DamagedWire
  {
    hide SplitN;
  }

  /** A text is of an unknown version only if its first line says so, and a delivery is refused only for its files or objects. */
  lemma WireRefusal(H: Hash, text: string)
    ensures Decoded(H, text) == Failure(UnknownWireVersion) <==> FirstLine(text) != "mineral-backup-delivery v1"
    ensures Decoded(H, text).Failure? && Decoded(H, text).error.BadDelivery? ==> !Decoded(H, text).error.error.BadManifest?
  {
    hide Split, ItemsOf, M.ParseField, FirstLine;
    FirstLineIsFirst(text);
    var lines := Split(text, '\n');
    ItemsAreDamaged(if |lines| < 6 then [] else lines[6..]);
  }

  /**
   The decoder is exact: it accepts precisely the texts made of the header, in order, and then of
   records and empty lines in any order, and returns what their parts assemble to. Numbers may be
   spelled with a plus sign or leading zeros, and a record may have fields too many.
   */
  lemma WireExact(H: Hash, text: string, d: Delivery)
    ensures Decoded(H, text) == Success(d) <==> exists id, body, items :: TextWritten(H, text, d, id, body, items)
  {
    hide TextWritten, HeaderOf, ItemsOf, FromParts, BodyWritten, SpelledHeader, Split;
    if Decoded(H, text) == Success(d) {
      var lines := Split(text, '\n');
      var header, body := HeaderOf(lines).value, if |lines| < 6 then [] else lines[6..];
      var items := ItemsOf(body).value;
      AssembledParts(H, header, items, d);
      var id := HeaderRead(lines, d);
      BodyExact(body, items);
      assert lines == lines[..6] + body;
      Assembled(H, text, d, id, body, items);
    }
    if id, body, items :| TextWritten(H, text, d, id, body, items) {
      WrittenTextIsRead(H, text, d, id, body, items);
    }
  }

  lemma Assembled(H: Hash, text: string, d: Delivery, id: string, body: seq<string>, items: Items)
    requires ParseU64(id) == Some(d.id) && Split(text, '\n') == SpelledHeader(id, d) + body && BodyWritten(body, items)
    requires FromParts(H, d.id, d.sourceId, d.projection, items.files, items.objects, d.manifestBlob, d.attributesBlob) == Success(d)
    ensures TextWritten(H, text, d, id, body, items)
  {
  }

  lemma AssembledParts(H: Hash, h: Header, items: Items, d: Delivery)
    ensures Assemble(H, h, items) == Success(d) ==> h == HeaderOfDelivery(d)
    ensures Assemble(H, h, items) == Success(d) ==>
      FromParts(H, d.id, d.sourceId, d.projection, items.files, items.objects, d.manifestBlob, d.attributesBlob) == Success(d)
  {
  }
}
