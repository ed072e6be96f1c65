/** The deterministic backup manifest. */
module Manifests {
  import opened Wrappers
  import opened Text
  import opened ContentPaths
  import opened Snapshots
  import opened LfsPointers
  import opened Deliveries
  import Utf8

  // `backup/delivery.rs`: the printer, and exactly the texts the parser accepts.

  datatype ManifestEntry = ManifestEntry(path: ContentPath, sha256: Digest, size: u64, storage: StorageKind)

  datatype Manifest = Manifest(id: SnapshotId, sourceId: SourceId, projection: Digest, entries: seq<ManifestEntry>)

  const MANIFEST_VERSION := "mineral-backup-manifest v1"

  function KindText(kind: StorageKind): (s: string)
    ensures s == "git" || s == "lfs"
  {
    match kind
    case Git => "git"
    case Lfs => "lfs"
  }

  function ParseKind(s: string): (r: Option<StorageKind>)
    ensures forall k :: r == Some(k) <==> s == KindText(k)
  {
    if s == "git" then Some(Git) else if s == "lfs" then Some(Lfs) else None
  }

  // ---------- rendering ----------

  function EntryOf(f: DeliveryFile): ManifestEntry {
    var r := f.representation;
    ManifestEntry(f.path, r.SourceSha(), r.size, r.Kind())
  }

  function EntriesOf(files: seq<DeliveryFile>): (entries: seq<ManifestEntry>)
    ensures |entries| == |files| && forall i :: 0 <= i < |files| ==> entries[i] == EntryOf(files[i])
  {
    seq(|files|, i requires 0 <= i < |files| => EntryOf(files[i]))
  }

  /** An entry whose size is written as `size`. */
  function SpelledLine(e: ManifestEntry, size: string): (s: string)
    ensures s != ""
  {
    Spaced([KindText(e.storage), size, Hex(e.sha256), e.path])
  }

  function EntryLine(e: ManifestEntry): (s: string)
    ensures s != ""
  {
    SpelledLine(e, Decimal(e.size))
  }

  function EntryLines(entries: seq<ManifestEntry>): (lines: seq<string>)
    ensures |lines| == |entries| && forall i :: 0 <= i < |entries| ==> lines[i] == EntryLine(entries[i])
  {
    seq(|entries|, i requires 0 <= i < |entries| => EntryLine(entries[i]))
  }

  /** A header whose snapshot id is written as `id`. */
  function SpelledHeader(id: string, sourceId: string, projection: Digest): seq<string> {
    [MANIFEST_VERSION, "snapshot " + id, "source " + sourceId, "projection " + Hex(projection)]
  }

  function HeaderLines(id: SnapshotId, sourceId: SourceId, projection: Digest): seq<string> {
    SpelledHeader(Decimal(id), sourceId, projection)
  }

  lemma {:induction false} UnrepresentableFound(files: seq<DeliveryFile>)
    ensures FirstUnrepresentable(files).Some? ==> exists f :: f in files && Utf8.HasControl(f.path) && f.path == FirstUnrepresentable(files).value
  {
    if files != [] && !Utf8.HasControl(files[0].path) {
      UnrepresentableFound(files[1..]);
      assert files == [files[0]] + files[1..];
    } else if files != [] {
      assert files[0] in files;
    }
  }

  function ManifestText(m: Manifest): string {
    Lines(HeaderLines(m.id, m.sourceId, m.projection) + EntryLines(m.entries))
  }

  /** The first path that cannot be written on one line. */
  function FirstUnrepresentable(files: seq<DeliveryFile>): (r: Option<ContentPath>)
    ensures r.None? <==> forall f :: f in files ==> !Utf8.HasControl(f.path)
  {
    if files == [] then None
    else if Utf8.HasControl(files[0].path) then Some(files[0].path)
    else
      assert files == [files[0]] + files[1..];
      FirstUnrepresentable(files[1..])
  }

  /** What `render_manifest` returns. */
  function Rendered(id: SnapshotId, sourceId: SourceId, projection: Digest, files: seq<DeliveryFile>)
    : Result<string, ManifestError>
  {
    match FirstUnrepresentable(files)
    case Some(path) => Failure(UnrepresentableEntry(path))
    case None => Success(ManifestText(Manifest(id, sourceId, projection, EntriesOf(files))))
  }

  /** `render_manifest`: the header, then one line a file. */
  method Render(id: SnapshotId, sourceId: SourceId, projection: Digest, files: seq<DeliveryFile>)
    returns (r: Result<string, ManifestError>)
    ensures r == Rendered(id, sourceId, projection, files)
  {
    var text := MANIFEST_VERSION + "\n";
    text := text + ("snapshot " + Decimal(id) + "\n");
    text := text + ("source " + sourceId + "\n");
    text := text + ("projection " + Hex(projection) + "\n");
    HeaderText(MANIFEST_VERSION, "snapshot " + Decimal(id), "source " + sourceId, "projection " + Hex(projection));
    r := RenderFiles(text, HeaderLines(id, sourceId, projection), files);
  }

  /** Appends one line a file, stopping at the first path it cannot write. */
  method RenderFiles(header: string, ghost headerLines: seq<string>, files: seq<DeliveryFile>)
    returns (r: Result<string, ManifestError>)
    requires header == Lines(headerLines)
    ensures r == match FirstUnrepresentable(files)
                 case Some(path) => Failure(UnrepresentableEntry(path))
                 case None => Success(Lines(headerLines + EntryLines(EntriesOf(files))))
  {
    var text := header;
    assert headerLines + EntryLines(EntriesOf(files[..0])) == headerLines;
    for i := 0 to |files|
      invariant FirstUnrepresentable(files) == FirstUnrepresentable(files[i..])
      invariant text == Lines(headerLines + EntryLines(EntriesOf(files[..i])))
    {
      assert files[i..][0] == files[i] && files[i..][1..] == files[i + 1..];
      if Utf8.HasControl(files[i].path) {
        return Failure(UnrepresentableEntry(files[i].path));
      }
      var line := EntryLine(EntryOf(files[i]));
      text := text + (line + "\n");
      AppendLine(headerLines + EntryLines(EntriesOf(files[..i])), line);
      EntryLinesPush(headerLines, files, i);
    }
    assert files[..|files|] == files;
    r := Success(text);
  }

  lemma EntryLinesPush(headerLines: seq<string>, files: seq<DeliveryFile>, i: nat)
    ensures i < |files| ==>
      headerLines + EntryLines(EntriesOf(files[..i])) + [EntryLine(EntryOf(files[i]))]
         == headerLines + EntryLines(EntriesOf(files[..i + 1]))
  {
  }

  lemma AppendLine(lines: seq<string>, line: string)
    ensures Lines(lines + [line]) == Lines(lines) + (line + "\n")
  {
    LinesConcat(lines, [line]);
    LinesCons(line, []);
  }

  lemma HeaderText(a: string, b: string, c: string, d: string)
    ensures a + "\n" + (b + "\n") + (c + "\n") + (d + "\n") == Lines([a, b, c, d])
  {
    AppendLine([], a);
    AppendLine([a], b);
    AppendLine([a, b], c);
    AppendLine([a, b, c], d);
    assert [] + [a] == [a] && [a] + [b] == [a, b] && [a, b] + [c] == [a, b, c] && [a, b, c] + [d] == [a, b, c, d];
  }

  // ---------- parsing ----------

  /** `parse_field`: line `i` without its name, when it has one and is not empty after it. */
  function ParseField(lines: seq<string>, i: nat, name: string): (r: Option<string>)
    ensures r.Some? ==> i < |lines| && lines[i] == name + " " + r.value
    ensures r.Some? ==> forall c :: c in r.value ==> c in lines[i]
  {
    if i >= |lines| then None
    else
      match StripPrefix(lines[i], name + " ")
      case None => None
      case Some(v) => if v == "" then None else Some(v)
  }

  /** `value.parse::<u64>()` and then `SnapshotId::new`. */
  function ParseId(s: string): (r: Option<SnapshotId>) {
    match ParseU64(s)
    case None => None
    case Some(n) => if n == 0 then None else Some(n)
  }

  function ParsePath(s: string): (r: Option<ContentPath>)
    ensures r.Some? <==> Canonical(s)
    ensures r.Some? ==> r.value == s
  {
    match New(s)
    case Failure(_) => None
    case Success(p) => Some(p)
  }

  function EntryOfFields(fields: seq<string>): Result<ManifestEntry, ManifestError>
    requires |fields| >= 1
  {
    var storage :- OkOr(ParseKind(fields[0]), DamagedManifest);
    if |fields| < 2 then Failure(DamagedManifest) else
    var size :- OkOr(ParseU64(fields[1]), DamagedManifest);
    if |fields| < 3 then Failure(DamagedManifest) else
    var sha256 :- OkOr(ParseDigest(fields[2]), DamagedManifest);
    if |fields| < 4 then Failure(DamagedManifest) else
    var path :- OkOr(ParsePath(fields[3]), DamagedManifest);
    Success(ManifestEntry(path, sha256, size, storage))
  }

  function ParseEntry(line: string): Result<ManifestEntry, ManifestError> {
    EntryOfFields(SplitN(line, ' ', 4))
  }

  /** The entry lines up to the first empty one, and whether there was one. */
  function ParseEntries(lines: seq<string>): Result<(seq<ManifestEntry>, bool), ManifestError> {
    if lines == [] then Success(([], false))
    else if lines[0] == "" then Success(([], true))
    else
      var entry :- ParseEntry(lines[0]);
      var rest :- ParseEntries(lines[1..]);
      Success(([entry] + rest.0, rest.1))
  }

  predicate EndsWithNewline(text: string) {
    text != "" && text[|text| - 1] == '\n'
  }

  function ParseHeader(lines: seq<string>): Result<(SnapshotId, SourceId, Digest), ManifestError> {
    var idText :- OkOr(ParseField(lines, 1, "snapshot"), DamagedManifest);
    var id :- OkOr(ParseId(idText), DamagedManifest);
    var sourceText :- OkOr(ParseField(lines, 2, "source"), DamagedManifest);
    var sourceId :- OkOr(NewSourceId(sourceText), DamagedManifest);
    var projectionText :- OkOr(ParseField(lines, 3, "projection"), DamagedManifest);
    var projection :- OkOr(ParseDigest(projectionText), DamagedManifest);
    Success((id, sourceId, projection))
  }

  /** What `BackupManifest::parse` returns. */
  function ManifestOf(bytes: string): Result<Manifest, ManifestError> {
    if !Utf8.Valid(bytes) then Failure(DamagedManifest) else
    var lines := Split(bytes, '\n');
    if lines[0] != MANIFEST_VERSION then Failure(UnknownManifestVersion) else
    var header :- ParseHeader(lines);
    var (entries, sawEnd) :- ParseEntries(if |lines| < 4 then [] else lines[4..]);
    if !sawEnd || (entries == [] && !EndsWithNewline(bytes)) then Failure(DamagedManifest)
    else Success(Manifest(header.0, header.1, header.2, entries))
  }

  /** `BackupManifest::parse`: one pass over the lines, pushing entries until an empty line. */
  method Parse(bytes: string) returns (r: Result<Manifest, ManifestError>)
    ensures r == ManifestOf(bytes)
  {
    if !Utf8.Valid(bytes) {
      return Failure(DamagedManifest);
    }
    var lines := Split(bytes, '\n');
    if lines[0] != MANIFEST_VERSION {
      return Failure(UnknownManifestVersion);
    }
    var header := ParseHeader(lines);
    if header.Failure? {
      return Failure(header.error);
    }
    var body := ParseBody(if |lines| < 4 then [] else lines[4..]);
    if body.Failure? {
      return Failure(body.error);
    }
    var (entries, sawEnd) := body.value;
    if !sawEnd || (entries == [] && !EndsWithNewline(bytes)) {
      return Failure(DamagedManifest);
    }
    r := Success(Manifest(header.value.0, header.value.1, header.value.2, entries));
  }

  method ParseBody(body: seq<string>) returns (r: Result<(seq<ManifestEntry>, bool), ManifestError>)
    ensures r == ParseEntries(body)
  {
    var entries: seq<ManifestEntry> := [];
    ResumeNothing(ParseEntries(body));
    assert body[0..] == body;
    for i := 0 to |body|
      invariant ParseEntries(body) == Resume(entries, ParseEntries(body[i..]))
    {
      assert body[i..][0] == body[i] && body[i..][1..] == body[i + 1..];
      if body[i] == "" {
        assert entries + [] == entries;
        return Success((entries, true));
      }
      var entry := ParseEntry(body[i]);
      if entry.Failure? {
        return Failure(entry.error);
      }
      ResumePush(entries, entry.value, ParseEntries(body[i + 1..]));
      entries := entries + [entry.value];
    }
    assert entries + [] == entries;
    r := Success((entries, false));
  }

  /** The entries pushed so far, followed by what the remaining lines hold. */
  ghost function Resume(pushed: seq<ManifestEntry>, rest: Result<(seq<ManifestEntry>, bool), ManifestError>)
    : Result<(seq<ManifestEntry>, bool), ManifestError>
  {
    match rest
    case Failure(e) => Failure(e)
    case Success(r) => Success((pushed + r.0, r.1))
  }

  lemma ResumeNothing(rest: Result<(seq<ManifestEntry>, bool), ManifestError>)
    ensures Resume([], rest) == rest
  {
    assert rest.Success? ==> [] + rest.value.0 == rest.value.0;
  }

  lemma ResumePush(pushed: seq<ManifestEntry>, entry: ManifestEntry, rest: Result<(seq<ManifestEntry>, bool), ManifestError>)
    ensures rest.Success? ==>
      Resume(pushed, Success(([entry] + rest.value.0, rest.value.1))) == Resume(pushed + [entry], rest)
  {
    if rest.Success? {
      assert pushed + ([entry] + rest.value.0) == (pushed + [entry]) + rest.value.0;
    }
  }

  // ---------- exactly what the parser accepts ----------

  ghost predicate SizesSpelled(entries: seq<ManifestEntry>, sizes: seq<string>) {
    |sizes| == |entries| && forall i :: 0 <= i < |entries| ==> ParseU64(sizes[i]) == Some(entries[i].size)
  }

  function SpelledLines(entries: seq<ManifestEntry>, sizes: seq<string>): (lines: seq<string>)
    requires |sizes| == |entries|
    ensures |lines| == |entries| && forall i :: 0 <= i < |entries| ==> lines[i] == SpelledLine(entries[i], sizes[i])
  {
    seq(|entries|, i requires 0 <= i < |entries| => SpelledLine(entries[i], sizes[i]))
  }

  /** An end of the entries: nothing more, or an empty line and then anything at all. */
  predicate IsRest(rest: string) {
    rest == "" || rest[0] == '\n'
  }

  /** One way to write a manifest: numbers spelled as the number parser allows, and ignored text at the end. */
  ghost predicate WrittenAs(bytes: string, m: Manifest, id: string, sizes: seq<string>, rest: string) {
    && ParseU64(id) == Some(m.id) && SizesSpelled(m.entries, sizes)
    && '\n' !in m.sourceId && (forall e :: e in m.entries ==> '\n' !in e.path)
    && bytes == Lines(SpelledHeader(id, m.sourceId, m.projection) + SpelledLines(m.entries, sizes)) + rest
    && IsRest(rest) && (m.entries == [] ==> EndsWithNewline(bytes)) && Utf8.Valid(bytes)
  }

  lemma DigitsPlain(s: string)
    ensures ParseU64(s).Some? ==> ' ' !in s && '\n' !in s && s != ""
  {
  }

  lemma HexPlain(d: Digest)
    ensures ' ' !in Hex(d) && '\n' !in Hex(d)
  {
    PlainHex(d);
  }

  lemma SpelledLineParses(e: ManifestEntry, size: string)
    requires ParseU64(size) == Some(e.size)
    ensures ParseEntry(SpelledLine(e, size)) == Success(e)
    ensures '\n' !in e.path ==> '\n' !in SpelledLine(e, size)
  {
    hide SplitN, ParseU64, Hex, Spaced;
    var fields := [KindText(e.storage), size, Hex(e.sha256), e.path];
    DigitsPlain(size);
    HexPlain(e.sha256);
    SplitSpaced(fields, 4);
    DigestRoundTrip(e.sha256);
    if '\n' !in e.path {
      SpacedNoNewline(fields);
    }
  }

  lemma ParseEntriesCons(line: string, rest: seq<string>)
    requires line != "" && ParseEntry(line).Success? && ParseEntries(rest).Success?
    ensures ParseEntries([line] + rest) == Success(([ParseEntry(line).value] + ParseEntries(rest).value.0, ParseEntries(rest).value.1))
  {
    hide ParseEntry;
    assert ([line] + rest)[1..] == rest;
  }

  lemma SpelledLinesCons(e: ManifestEntry, entries: seq<ManifestEntry>, size: string, sizes: seq<string>, tail: seq<string>)
    requires |sizes| == |entries|
    ensures SpelledLines([e] + entries, [size] + sizes) + tail == [SpelledLine(e, size)] + (SpelledLines(entries, sizes) + tail)
  {
    hide SpelledLine;
  }

  lemma {:induction false} SpelledLinesParse(entries: seq<ManifestEntry>, sizes: seq<string>, tail: seq<string>)
    requires SizesSpelled(entries, sizes) && tail != [] && tail[0] == ""
    ensures ParseEntries(SpelledLines(entries, sizes) + tail) == Success((entries, true))
  {
    hide ParseEntry, SpelledLine;
    if entries == [] {
      assert SpelledLines(entries, sizes) + tail == tail;
    } else {
      HeadAndTail(entries);
      HeadAndTail(sizes);
      SpelledLinesParse(entries[1..], sizes[1..], tail);
      SpelledLineParses(entries[0], sizes[0]);
      SpelledLinesCons(entries[0], entries[1..], sizes[0], sizes[1..], tail);
      ParseEntriesCons(SpelledLine(entries[0], sizes[0]), SpelledLines(entries[1..], sizes[1..]) + tail);
    }
  }

  lemma FieldAt(lines: seq<string>, i: nat, name: string, value: string)
    requires value != ""
    ensures i < |lines| && lines[i] == name + " " + value <==> ParseField(lines, i, name) == Some(value)
  {
    if i < |lines| && lines[i] == name + " " + value {
      StripPrefixOf(name + " ", value);
    }
  }

  lemma HeaderParses(id: string, sourceId: SourceId, projection: Digest, rest: seq<string>, n: SnapshotId)
    requires ParseU64(id) == Some(n)
    ensures ParseHeader(SpelledHeader(id, sourceId, projection) + rest) == Success((n, sourceId, projection))
  {
    hide ParseField, ParseU64, Hex;
    var lines := SpelledHeader(id, sourceId, projection) + rest;
    DigitsPlain(id);
    assert "snapshot" + " " == "snapshot " && "source" + " " == "source " && "projection" + " " == "projection ";
    FieldAt(lines, 1, "snapshot", id);
    FieldAt(lines, 2, "source", sourceId);
    FieldAt(lines, 3, "projection", Hex(projection));
    DigestRoundTrip(projection);
  }

  lemma HeaderNoNewline(id: string, sourceId: string, projection: Digest)
    requires ParseU64(id).Some? && '\n' !in sourceId
    ensures forall l :: l in SpelledHeader(id, sourceId, projection) ==> '\n' !in l
  {
    DigitsPlain(id);
    HexPlain(projection);
    assert '\n' !in MANIFEST_VERSION && '\n' !in "snapshot " && '\n' !in "source " && '\n' !in "projection ";
  }

  lemma EntriesNoNewline(entries: seq<ManifestEntry>, sizes: seq<string>)
    requires SizesSpelled(entries, sizes) && forall e :: e in entries ==> '\n' !in e.path
    ensures forall l :: l in SpelledLines(entries, sizes) ==> '\n' !in l
  {
    hide SpelledLine;
    forall l | l in SpelledLines(entries, sizes) ensures '\n' !in l {
      var i :| 0 <= i < |entries| && SpelledLines(entries, sizes)[i] == l;
      assert entries[i] in entries;
      SpelledLineParses(entries[i], sizes[i]);
    }
  }

  lemma RestStarts(rest: string)
    ensures IsRest(rest) <==> Split(rest, '\n')[0] == ""
  {
  }

  lemma WrittenIsAccepted(bytes: string, m: Manifest, id: string, sizes: seq<string>, rest: string)
    requires WrittenAs(bytes, m, id, sizes, rest)
    ensures ManifestOf(bytes) == Success(m)
  {
    hide Split, SpelledLine, ParseEntries, ParseHeader, IsRest, EndsWithNewline;
    var header, body, tail := SpelledHeader(id, m.sourceId, m.projection), SpelledLines(m.entries, sizes), Split(rest, '\n');
    HeaderNoNewline(id, m.sourceId, m.projection);
    EntriesNoNewline(m.entries, sizes);
    SplitAfter(header + body, rest);
    Associate(header, body, tail);
    HeaderParses(id, m.sourceId, m.projection, body + tail, m.id);
    AfterFour(header, body + tail);
    RestStarts(rest);
    SpelledLinesParse(m.entries, sizes, tail);
  }

  lemma AfterFour(header: seq<string>, rest: seq<string>)
    ensures |header| == 4 ==> (header + rest)[0] == header[0] && (header + rest)[4..] == rest && (header + rest)[..4] == header
  {
  }

  lemma EntryWritten(line: string) returns (size: string)
    requires ParseEntry(line).Success?
    ensures ParseU64(size) == Some(ParseEntry(line).value.size) && line == SpelledLine(ParseEntry(line).value, size)
  {
    hide SplitN, ParseU64, Spaced;
    var fields := SplitN(line, ' ', 4);
    SpacedOfSplit(line, 4);
    size := fields[1];
    DigestCanonical(fields[2]);
    assert fields == [fields[0], fields[1], fields[2], fields[3]];
  }

  lemma {:induction false} EntriesWritten(lines: seq<string>) returns (sizes: seq<string>)
    requires ParseEntries(lines).Success? && ParseEntries(lines).value.1
    ensures var entries := ParseEntries(lines).value.0;
      && SizesSpelled(entries, sizes) && |entries| < |lines| && lines[|entries|] == ""
      && lines[..|entries|] == SpelledLines(entries, sizes)
  {
    hide ParseEntry, SpelledLine;
    if lines[0] == "" {
      sizes := [];
    } else {
      var size := EntryWritten(lines[0]);
      var more := EntriesWritten(lines[1..]);
      sizes := [size] + more;
      var entries := ParseEntries(lines[1..]).value.0;
      assert lines[..|entries| + 1] == [lines[0]] + lines[1..][..|entries|];
    }
  }

  lemma HeaderWritten(lines: seq<string>) returns (id: string)
    requires ParseHeader(lines).Success? && lines[0] == MANIFEST_VERSION
    ensures |lines| >= 4 && ParseU64(id) == Some(ParseHeader(lines).value.0)
    ensures lines[..4] == SpelledHeader(id, ParseHeader(lines).value.1, ParseHeader(lines).value.2)
  {
    hide ParseU64, ParseField, Hex;
    assert "snapshot" + " " == "snapshot " && "source" + " " == "source " && "projection" + " " == "projection ";
    id := ParseField(lines, 1, "snapshot").value;
    DigitsPlain(id);
    DigestCanonical(ParseField(lines, 3, "projection").value);
    FieldAt(lines, 1, "snapshot", id);
  }

  lemma AcceptedIsWritten(bytes: string) returns (id: string, sizes: seq<string>, rest: string)
    requires ManifestOf(bytes).Success?
    ensures WrittenAs(bytes, ManifestOf(bytes).value, id, sizes, rest)
  {
    hide Split, SpelledLine, ParseEntries, ParseHeader, IsRest, EndsWithNewline;
    var lines, m := Split(bytes, '\n'), ManifestOf(bytes).value;
    id := HeaderWritten(lines);
    sizes := EntriesWritten(lines[4..]);
    var n := 4 + |m.entries|;
    rest := TakeLines(bytes, n);
    RestStarts(rest);
    assert lines[n..][0] == lines[4..][|m.entries|];
    assert lines[..n] == lines[..4] + lines[4..][..|m.entries|];
    NoNewlineInside(lines, id, m, sizes);
  }

  lemma NoNewlineInside(lines: seq<string>, id: string, m: Manifest, sizes: seq<string>)
    requires (forall l :: l in lines ==> '\n' !in l) && SizesSpelled(m.entries, sizes) && |lines| >= 4 + |m.entries|
    requires lines[..4] == SpelledHeader(id, m.sourceId, m.projection) && lines[4..][..|m.entries|] == SpelledLines(m.entries, sizes)
    ensures '\n' !in m.sourceId && forall e :: e in m.entries ==> '\n' !in e.path
  {
    hide SpelledLine;
    assert lines[..4][2] == lines[2] && lines[2] in lines;
    forall e | e in m.entries ensures '\n' !in e.path {
      var i :| 0 <= i < |m.entries| && m.entries[i] == e;
      assert lines[4..][..|m.entries|][i] == lines[4 + i] && lines[4 + i] in lines;
      PathOnLine(e, sizes[i]);
    }
  }

  lemma PathOnLine(e: ManifestEntry, size: string)
    ensures '\n' !in SpelledLine(e, size) ==> '\n' !in e.path
  {
    var front := [KindText(e.storage), size, Hex(e.sha256)];
    SpacedLast(front, e.path);
    assert front + [e.path] == [KindText(e.storage), size, Hex(e.sha256), e.path];
  }

  /**
   The parser is exact: it accepts precisely the texts made of the header, one line an entry in
   order, and then nothing or an empty line and anything after it, and returns what is written in
   them; ids and sizes may be spelled with a plus sign or leading zeros. A manifest without entries
   has to end in a newline.
   */
  lemma ManifestExact(bytes: string, m: Manifest)
    ensures ManifestOf(bytes) == Success(m) <==> exists id, sizes, rest :: WrittenAs(bytes, m, id, sizes, rest)
  {
    hide ManifestOf, WrittenAs;
    if ManifestOf(bytes) == Success(m) {
      var id, sizes, rest := AcceptedIsWritten(bytes);
    }
    if id, sizes, rest :| WrittenAs(bytes, m, id, sizes, rest) {
      WrittenIsAccepted(bytes, m, id, sizes, rest);
    }
  }

  // ---------- round trip ----------

  /** What the renderer needs of paths: that they fit on a line. */
  ghost predicate Printable(m: Manifest) {
    forall e :: e in m.entries ==> !Utf8.HasControl(e.path)
  }

  lemma PrintablePath(path: string)
    requires !Utf8.HasControl(path)
    ensures '\n' !in path
  {
    if '\n' in path {
      var i :| 0 <= i < |path| && path[i] == '\n';
      assert Utf8.ControlAt(path, i);
    }
  }

  function PrintedSizes(entries: seq<ManifestEntry>): (sizes: seq<string>)
    ensures |sizes| == |entries| && forall i :: 0 <= i < |entries| ==> sizes[i] == Decimal(entries[i].size)
  {
    seq(|entries|, i requires 0 <= i < |entries| => Decimal(entries[i].size))
  }

  lemma PrintedIsSpelled(entries: seq<ManifestEntry>)
    ensures SizesSpelled(entries, PrintedSizes(entries)) && SpelledLines(entries, PrintedSizes(entries)) == EntryLines(entries)
  {
    hide SpelledLine, Decimal, ParseU64;
    forall i | 0 <= i < |entries| ensures ParseU64(PrintedSizes(entries)[i]) == Some(entries[i].size) {
      ParseDecimal(entries[i].size);
    }
  }

  lemma {:induction false} SpacedValid(fields: seq<string>)
    requires |fields| >= 1 && forall i :: 0 <= i < |fields| ==> Utf8.Valid(fields[i])
    ensures Utf8.Valid(Spaced(fields))
  {
    if |fields| > 1 {
      SpacedValid(fields[1..]);
      Utf8.Ascii([' ']);
      Utf8.Concat(fields[0], [' ']);
      Utf8.Concat(fields[0] + [' '], Spaced(fields[1..]));
    }
  }

  type PlainText = s: string | Plain(s) witness ""

  lemma PlainValue(value: PlainText)
    ensures Utf8.Valid(value)
  {
    Utf8.Ascii(value);
  }

  lemma EntryLineValid(e: ManifestEntry)
    requires Utf8.Valid(e.path)
    ensures Utf8.Valid(EntryLine(e))
  {
    PlainDecimal(e.size);
    PlainHex(e.sha256);
    PlainValue(KindText(e.storage));
    PlainValue(Decimal(e.size));
    PlainValue(Hex(e.sha256));
    SpacedValid([KindText(e.storage), Decimal(e.size), Hex(e.sha256), e.path]);
  }

  lemma FieldValid(name: string, value: string)
    requires Plain(name) && Utf8.Valid(value)
    ensures Utf8.Valid(name + value)
  {
    Utf8.Ascii(name);
    Utf8.Concat(name, value);
  }

  lemma WordsPlain()
    ensures Plain(MANIFEST_VERSION) && Plain("snapshot ") && Plain("source ") && Plain("projection ")
  {
  }

  lemma HeaderLinesValid(id: SnapshotId, sourceId: SourceId, projection: Digest)
    requires Utf8.Valid(sourceId)
    ensures forall l :: l in HeaderLines(id, sourceId, projection) ==> Utf8.Valid(l)
  {
    hide Utf8.Valid, Plain, Decimal, Hex;
    WordsPlain();
    PlainDecimal(id);
    PlainHex(projection);
    PlainValue(MANIFEST_VERSION);
    PlainValue(Decimal(id));
    PlainValue(Hex(projection));
    FieldValid("snapshot ", Decimal(id));
    FieldValid("source ", sourceId);
    FieldValid("projection ", Hex(projection));
  }

  lemma {:induction false} LinesValid(lines: seq<string>)
    requires forall l :: l in lines ==> Utf8.Valid(l)
    ensures Utf8.Valid(Lines(lines))
  {
    if lines != [] {
      LinesValid(lines[1..]);
      Utf8.Ascii("\n");
      Utf8.Concat(lines[0], "\n");
      Utf8.Concat(lines[0] + "\n", Lines(lines[1..]));
    }
  }

  lemma TextValid(m: Manifest)
    requires Utf8.Valid(m.sourceId) && forall e :: e in m.entries ==> Utf8.Valid(e.path)
    ensures Utf8.Valid(ManifestText(m))
  {
    hide Utf8.Valid, EntryLine;
    var header, body := HeaderLines(m.id, m.sourceId, m.projection), EntryLines(m.entries);
    HeaderLinesValid(m.id, m.sourceId, m.projection);
    forall l | l in body ensures Utf8.Valid(l) {
      var i :| 0 <= i < |body| && body[i] == l;
      assert m.entries[i] in m.entries;
      EntryLineValid(m.entries[i]);
    }
    LinesValid(header + body);
  }

  lemma {:induction false} LinesEnd(lines: seq<string>)
    requires lines != []
    ensures EndsWithNewline(Lines(lines))
  {
    if |lines| > 1 {
      LinesEnd(lines[1..]);
    }
  }

  lemma ManifestParsesBack(m: Manifest)
    requires Printable(m) && (forall e :: e in m.entries ==> Utf8.Valid(e.path)) && Utf8.Valid(m.sourceId) && '\n' !in m.sourceId
    ensures ManifestOf(ManifestText(m)) == Success(m)
  {
    hide ManifestOf, Utf8.Valid, Utf8.HasControl, EndsWithNewline, EntryLine, ParseU64, Decimal;
    TextValid(m);
    ParseDecimal(m.id);
    PrintedIsSpelled(m.entries);
    forall e | e in m.entries ensures '\n' !in e.path {
      PrintablePath(e.path);
    }
    LinesEnd(HeaderLines(m.id, m.sourceId, m.projection) + EntryLines(m.entries));
    assert ManifestText(m) + "" == ManifestText(m);
    WrittenIsAccepted(ManifestText(m), m, Decimal(m.id), PrintedSizes(m.entries), "");
  }

  /** A parsed manifest never holds a newline in its source id. */
  lemma ParsedSourceId(bytes: string)
    requires ManifestOf(bytes).Success?
    ensures '\n' !in ManifestOf(bytes).value.sourceId
  {
    hide ManifestOf;
    var id, sizes, rest := AcceptedIsWritten(bytes);
  }

  lemma EntryPaths(files: seq<DeliveryFile>)
    ensures forall e :: e in EntriesOf(files) ==> exists f :: f in files && f.path == e.path
  {
    forall e | e in EntriesOf(files) ensures exists f :: f in files && f.path == e.path {
      var i :| 0 <= i < |files| && EntriesOf(files)[i] == e;
      assert files[i] in files && files[i].path == e.path;
    }
  }

  lemma {:induction false} EntriesAreDamaged(lines: seq<string>)
    ensures ParseEntries(lines).Failure? ==> ParseEntries(lines).error == DamagedManifest
  {
    hide ParseEntry;
    if lines != [] && lines[0] != "" {
      EntriesAreDamaged(lines[1..]);
      EntryIsDamaged(lines[0]);
    }
  }

  lemma EntryIsDamaged(line: string)
    ensures ParseEntry(line).Failure? ==> ParseEntry(line).error == DamagedManifest
  {
    hide SplitN;
  }

  /** A manifest is of an unknown version only if its first line says so; whatever else is wrong, it is damaged. */
  lemma ManifestRefusal(bytes: string)
    ensures ManifestOf(bytes) == Failure(UnknownManifestVersion) <==> Utf8.Valid(bytes) && FirstLine(bytes) != "mineral-backup-manifest v1"
    ensures ManifestOf(bytes).Failure? ==> ManifestOf(bytes).error in {DamagedManifest, UnknownManifestVersion}
  {
    hide Split, Utf8.Valid, ParseEntries, ParseField, FirstLine;
    FirstLineIsFirst(bytes);
    var lines := Split(bytes, '\n');
    EntriesAreDamaged(if |lines| < 4 then [] else lines[4..]);
  }

  /**
   Rendering fails exactly when some path holds a control character; what it renders parses back
   to exactly the ids and the (path, digest, size, storage) list, spaces in paths included, and
   this holds if and only if the source id has no newline, which `SourceId::new` does not refuse.
   */
  lemma ManifestRoundTrip(id: SnapshotId, sourceId: SourceId, projection: Digest, files: seq<DeliveryFile>)
    requires Utf8.Valid(sourceId) && forall f :: f in files ==> Utf8.Valid(f.path)
    ensures var r := Rendered(id, sourceId, projection, files);
      && (r.Failure? <==> exists f :: f in files && Utf8.HasControl(f.path))
      && (r.Failure? ==> exists f :: f in files && Utf8.HasControl(f.path) && r.error == UnrepresentableEntry(f.path))
      && (r.Success? ==>
            (ManifestOf(r.value) == Success(Manifest(id, sourceId, projection, EntriesOf(files))) <==> '\n' !in sourceId))
  {
    var m := Manifest(id, sourceId, projection, EntriesOf(files));
    var r := Rendered(id, sourceId, projection, files);
    UnrepresentableFound(files);
    if r.Success? {
      assert Printable(m) by {
        EntryPaths(files);
      }
      EntryPaths(files);
      if '\n' !in sourceId {
        ManifestParsesBack(m);
      } else if ManifestOf(r.value) == Success(m) {
        ParsedSourceId(r.value);
      }
    }
  }

  // ---------- the text determines the manifest ----------

  /** Everything before the projection line; the source id may hold lines of its own. */
  function FrontLines(m: Manifest): seq<string> {
    [MANIFEST_VERSION, "snapshot " + Decimal(m.id)] + Split("source " + m.sourceId, '\n')
  }

  function ProjectionLine(m: Manifest): string {
    "projection " + Hex(m.projection)
  }

  lemma TextSplits(m: Manifest)
    requires Printable(m)
    ensures Split(ManifestText(m), '\n') == FrontLines(m) + ([ProjectionLine(m)] + (EntryLines(m.entries) + [""]))
  {
    hide Split, EntryLine, Decimal, Hex, Utf8.HasControl;
    var top, source := [MANIFEST_VERSION, "snapshot " + Decimal(m.id)], "source " + m.sourceId;
    var back := [ProjectionLine(m)] + EntryLines(m.entries);
    BackNoNewline(m);
    assert HeaderLines(m.id, m.sourceId, m.projection) + EntryLines(m.entries) == top + ([source] + back);
    LinesConcat(top, [source] + back);
    LinesCons(source, back);
    SplitAfter(top, source + ['\n'] + Lines(back));
    SplitConcat(source, '\n', Lines(back));
    SplitLines(back);
    Associate(top, Split(source, '\n'), back + [""]);
    Associate([ProjectionLine(m)], EntryLines(m.entries), [""]);
  }

  lemma BackNoNewline(m: Manifest)
    requires Printable(m)
    ensures '\n' !in MANIFEST_VERSION && '\n' !in "snapshot " + Decimal(m.id)
    ensures forall l :: l in [ProjectionLine(m)] + EntryLines(m.entries) ==> '\n' !in l
  {
    hide Utf8.HasControl, EntryLine, SpelledLine, Hex, Decimal, ParseU64;
    forall e | e in m.entries ensures '\n' !in e.path {
      PrintablePath(e.path);
    }
    PrintedIsSpelled(m.entries);
    EntriesNoNewline(m.entries, PrintedSizes(m.entries));
    HexPlain(m.projection);
    ParseDecimal(m.id);
    DigitsPlain(Decimal(m.id));
    assert '\n' !in MANIFEST_VERSION && '\n' !in "snapshot " && '\n' !in "projection ";
  }

  /** The last line that starts like a projection is where the entries begin. */
  lemma Aligned(f: seq<string>, p: string, a: seq<string>, g: seq<string>, q: string, b: seq<string>)
    requires f + ([p] + (a + [""])) == g + ([q] + (b + [""]))
    requires p != "" && p[0] == 'p' && forall l :: l in b ==> l == "" || l[0] != 'p'
    ensures |b| <= |a|
  {
    PivotAt(f, p, a);
    AfterPivot(g, q, b, |f|);
  }

  lemma PivotAt(f: seq<string>, p: string, a: seq<string>)
    ensures (f + ([p] + (a + [""])))[|f|] == p
  {
  }

  lemma AfterPivot(g: seq<string>, q: string, b: seq<string>, k: nat)
    ensures |g| < k <= |g| + |b| ==> (g + ([q] + (b + [""])))[k] in b
  {
  }

  lemma AlignedBoth(f: seq<string>, p: string, a: seq<string>, g: seq<string>, q: string, b: seq<string>)
    requires f + ([p] + (a + [""])) == g + ([q] + (b + [""])) && |a| == |b|
    ensures f == g && p == q && a == b
  {
    var left, right := f + ([p] + (a + [""])), g + ([q] + (b + [""]));
    assert f == left[..|f|] && g == right[..|g|];
    assert p == left[|f|] && q == right[|g|];
    assert a == left[|f| + 1..][..|a|] && b == right[|g| + 1..][..|b|];
  }

  lemma EntryLineStarts(e: ManifestEntry)
    ensures EntryLine(e)[0] != 'p'
  {
  }

  lemma FrontInjective(m: Manifest, n: Manifest)
    requires FrontLines(m) == FrontLines(n)
    ensures m.id == n.id && m.sourceId == n.sourceId
  {
    hide Split, Decimal;
    var x, y := Split("source " + m.sourceId, '\n'), Split("source " + n.sourceId, '\n');
    assert FrontLines(m)[1] == "snapshot " + Decimal(m.id) && FrontLines(n)[1] == "snapshot " + Decimal(n.id);
    StripPrefixOf("snapshot ", Decimal(m.id));
    StripPrefixOf("snapshot ", Decimal(n.id));
    ParseDecimal(m.id);
    ParseDecimal(n.id);
    assert x == FrontLines(m)[2..] && y == FrontLines(n)[2..];
    SplitInjective("source " + m.sourceId, "source " + n.sourceId);
    StripPrefixOf("source ", m.sourceId);
    StripPrefixOf("source ", n.sourceId);
  }

  lemma {:induction false} EntryLinesInjective(a: seq<ManifestEntry>, b: seq<ManifestEntry>)
    requires EntryLines(a) == EntryLines(b)
    ensures a == b
  {
    hide SpelledLine, Decimal, ParseEntry;
    assert |a| == |EntryLines(a)| == |EntryLines(b)| == |b|;
    forall i | 0 <= i < |a| ensures a[i] == b[i] {
      ParseDecimal(a[i].size);
      ParseDecimal(b[i].size);
      SpelledLineParses(a[i], Decimal(a[i].size));
      SpelledLineParses(b[i], Decimal(b[i].size));
      assert EntryLines(a)[i] == EntryLines(b)[i];
    }
  }

  /**
   Two manifests print the same text only when they are the same, for every source id, those with
   newlines included, which the parser does not read back.
   */
  lemma ManifestTextInjective(m: Manifest, n: Manifest)
    requires Printable(m) && Printable(n)
    ensures ManifestText(m) == ManifestText(n) <==> m == n
  {
    hide ManifestText, Printable, FrontLines, EntryLine;
    if ManifestText(m) == ManifestText(n) {
      var a, b := EntryLines(m.entries), EntryLines(n.entries);
      TextSplits(m);
      TextSplits(n);
      NoEntryStartsLikeProjection(m.entries);
      NoEntryStartsLikeProjection(n.entries);
      Aligned(FrontLines(m), ProjectionLine(m), a, FrontLines(n), ProjectionLine(n), b);
      Aligned(FrontLines(n), ProjectionLine(n), b, FrontLines(m), ProjectionLine(m), a);
      AlignedBoth(FrontLines(m), ProjectionLine(m), a, FrontLines(n), ProjectionLine(n), b);
      FrontInjective(m, n);
      EntryLinesInjective(m.entries, n.entries);
      StripPrefixOf("projection ", Hex(m.projection));
      StripPrefixOf("projection ", Hex(n.projection));
      HexInjective(m.projection, n.projection);
    }
  }

  lemma NoEntryStartsLikeProjection(entries: seq<ManifestEntry>)
    ensures forall l :: l in EntryLines(entries) ==> l == "" || l[0] != 'p'
  {
    hide EntryLine;
    forall l | l in EntryLines(entries) ensures l == "" || l[0] != 'p' {
      var i :| 0 <= i < |entries| && EntryLines(entries)[i] == l;
      EntryLineStarts(entries[i]);
    }
  }

  // ---------- the pointer of an entry ----------

  /** `verify_manifest_pointer` */
  function VerifyPointer(entry: ManifestEntry, bytes: string): (r: Result<(), ManifestError>) {
    match PointerOf(bytes)
    case Failure(e) => Failure(BadPointer(e))
    case Success(p) =>
      if p.oid != entry.sha256 || p.size != entry.size then Failure(PointerMismatch(entry.path)) else Success(())
  }
}
