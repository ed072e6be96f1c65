/**
 Where a parsed reference points inside a snapshot (`content/reference_resolver.rs`): relative paths
 normalised with a stack of parts, and candidates found among the snapshot's files.
 */
module ReferenceResolver {
  import opened Wrappers
  import opened Text
  import opened ContentPaths
  import opened ReferenceParser
  import Order

  datatype Reason = InvalidLocalPath | EscapesContentRoot | ImageTargetsNote

  // ---------- relative paths ----------

  type Segments = parts: seq<string> | parts != [] witness [""]

  /** `parts.join("/")` */
  function Join(parts: seq<string>): string {
    if parts == [] then "" else if |parts| == 1 then parts[0] else parts[0] + ['/'] + Join(parts[1..])
  }

  lemma {:induction false} SplitOfJoin(parts: seq<string>)
    requires parts != [] && forall p :: p in parts ==> '/' !in p
    ensures Split(Join(parts), '/') == parts
  {
    HeadAndTail(parts);
    assert parts[0] in parts;
    if |parts| == 1 {
      IndexOfIs(parts[0], '/', |parts[0]|);
    } else {
      SplitOfJoin(parts[1..]);
      SplitCons(parts[0], '/', Join(parts[1..]));
    }
  }

  lemma {:induction false} JoinOfSplit(s: string)
    ensures Join(Split(s, '/')) == s
    decreases |s|
  {
    var i := IndexOf(s, '/');
    if i < |s| {
      JoinOfSplit(s[i + 1..]);
      JoinCons(s[..i], Split(s[i + 1..], '/'));
      CutAt(s, i);
    }
  }

  lemma JoinCons(part: string, rest: Segments)
    ensures Join([part] + rest) == part + ['/'] + Join(rest)
  {
    assert ([part] + rest)[1..] == rest;
  }

  /** Walking from a directory, part by part. */
  function Walk(dirs: seq<string>, parts: seq<string>): Result<seq<string>, Reason>
    decreases |parts|
  {
    if parts == [] then Success(dirs)
    else if parts[0] == "" then Failure(InvalidLocalPath)
    else if parts[0] == "." then Walk(dirs, parts[1..])
    else if parts[0] == ".." then
      if dirs == [] then Failure(EscapesContentRoot) else Walk(dirs[..|dirs| - 1], parts[1..])
    else Walk(dirs + [parts[0]], parts[1..])
  }

  predicate RefusedOutright(target: string) {
    target == "" || target[0] == '/' || '\\' in target || '\0' in target || DrivePrefix(target)
  }

  /** The directories of a file. */
  function Directory(path: ContentPath): seq<string> {
    var parts := Split(path, '/');
    parts[..|parts| - 1]
  }

  function Landing(walked: Result<seq<string>, Reason>): Result<ContentPath, Reason> {
    match walked
    case Failure(reason) => Failure(reason)
    case Success(parts) =>
      match New(Join(parts))
      case Failure(_) => Failure(InvalidLocalPath)
      case Success(path) => Success(path)
  }

  /** The recursive form of `normalize_relative`. */
  function Normalized(source: ContentPath, target: string): Result<ContentPath, Reason> {
    if RefusedOutright(target) then Failure(InvalidLocalPath)
    else Landing(Walk(Directory(source), Split(target, '/')))
  }

  /** `normalize_relative`: one stack of parts, pushed and popped. */
  method NormalizeRelative(source: ContentPath, target: string) returns (r: Result<ContentPath, Reason>)
    ensures r == Normalized(source, target)
  {
    if RefusedOutright(target) {
      return Failure(InvalidLocalPath);
    }
    var parts := Split(source, '/');
    parts := parts[..|parts| - 1];
    var steps := Split(target, '/');
    ghost var walked := Walk(parts, steps);
    assert steps[0..] == steps;
    for i := 0 to |steps|
      invariant Walk(parts, steps[i..]) == walked
    {
      assert steps[i..][1..] == steps[i + 1..];
      var part := steps[i];
      if part == "" {
        return Failure(InvalidLocalPath);
      } else if part == "." {
      } else if part == ".." {
        if parts == [] {
          return Failure(EscapesContentRoot);
        }
        parts := parts[..|parts| - 1];
      } else {
        parts := parts + [part];
      }
    }
    r := Landing(Success(parts));
  }

  // ---------- what it guarantees ----------

  /** How deep below the root some parts lead, each name one down and each `..` one up. */
  function Depth(start: int, parts: seq<string>): int
    decreases |parts|
  {
    if parts == [] then start
    else Depth(start, parts[..|parts| - 1]) + (if parts[|parts| - 1] == "." then 0 else if parts[|parts| - 1] == ".." then -1 else 1)
  }

  lemma {:induction false} DepthCons(start: int, part: string, rest: seq<string>)
    ensures Depth(start, [part] + rest) == Depth(Depth(start, [part]), rest)
    decreases |rest|
  {
    if rest == [] {
      assert [part] + rest == [part];
    } else {
      DepthCons(start, part, rest[..|rest| - 1]);
      assert ([part] + rest)[..|rest|] == [part] + rest[..|rest| - 1];
    }
  }

  lemma DepthOne(start: int, part: string)
    ensures Depth(start, [part]) == start + (if part == "." then 0 else if part == ".." then -1 else 1)
  {
    assert [part][..0] == [];
  }

  /** The first `k` parts are all there and lead below the root. */
  ghost predicate EscapesAt(start: int, parts: seq<string>, k: nat) {
    k <= |parts| && "" !in parts[..k] && Depth(start, parts[..k]) < 0
  }

  lemma EscapesLater(start: nat, part: NonEmptyPart, rest: seq<string>, k: nat)
    requires k >= 1 && k <= |rest| + 1
    ensures EscapesAt(start, [part] + rest, k) <==> EscapesAt(Depth(start, [part]), rest, k - 1)
  {
    assert ([part] + rest)[..k] == [part] + rest[..k - 1];
    DepthCons(start, part, rest[..k - 1]);
  }

  ghost predicate Escapes(start: int, parts: seq<string>) {
    exists k :: 0 <= k <= |parts| && EscapesAt(start, parts, k)
  }

  type NonEmptyPart = s: string | s != "" witness "a"

  lemma EscapesCons(start: nat, part: NonEmptyPart, rest: seq<string>)
    ensures Escapes(start, [part] + rest) <==> Escapes(Depth(start, [part]), rest)
  {
    var all := [part] + rest;
    assert Depth(start, all[..0]) == start;
    if Escapes(start, all) {
      var k :| 0 <= k <= |all| && EscapesAt(start, all, k);
      EscapesLater(start, part, rest, k);
    }
    if Escapes(Depth(start, [part]), rest) {
      var k :| 0 <= k <= |rest| && EscapesAt(Depth(start, [part]), rest, k);
      EscapesLater(start, part, rest, k + 1);
    }
  }

  lemma EscapesNow(rest: seq<string>)
    ensures Escapes(0, [".."] + rest)
  {
    assert ([".."] + rest)[..1] == [".."];
    DepthOne(0, "..");
    assert EscapesAt(0, [".."] + rest, 1);
  }

  lemma EmptyPartStops(start: nat, parts: seq<string>)
    requires parts == [] || parts[0] == ""
    ensures !Escapes(start, parts)
  {
    forall k | 0 <= k <= |parts| ensures !EscapesAt(start, parts, k) {
      assert k > 0 ==> parts[..k][0] == "";
    }
  }

  /** The walk leaves the root exactly when some prefix does, before any empty part. */
  lemma {:induction false} WalkEscapes(dirs: seq<string>, parts: seq<string>)
    ensures Walk(dirs, parts) == Failure(EscapesContentRoot) <==> Escapes(|dirs|, parts)
    decreases |parts|
  {
    if parts == [] || parts[0] == "" {
      EmptyPartStops(|dirs|, parts);
    } else {
      HeadAndTail(parts);
      var part, rest := parts[0], parts[1..];
      DepthOne(|dirs|, part);
      if part == ".." && dirs == [] {
        EscapesNow(rest);
      } else {
        EscapesCons(|dirs|, part, rest);
        WalkEscapes(if part == "." then dirs else if part == ".." then dirs[..|dirs| - 1] else dirs + [part], rest);
      }
    }
  }

  /** Escaping the content root is reported exactly when a prefix pops below it before any empty part. */
  lemma EscapeExact(source: ContentPath, target: string)
    ensures Normalized(source, target) == Failure(EscapesContentRoot)
       <==> !RefusedOutright(target) && Escapes(|Directory(source)|, Split(target, '/'))
  {
    WalkEscapes(Directory(source), Split(target, '/'));
  }

  type Names = s: seq<string> | forall p :: p in s ==> PlainSegment(p) witness []

  lemma {:induction false} WalkNames(dirs: seq<string>, names: Names)
    ensures Walk(dirs, names) == Success(dirs + names)
    decreases |names|
  {
    if names == [] {
      assert dirs + names == dirs;
    } else {
      HeadAndTail(names);
      assert names[0] in names;
      WalkNames(dirs + [names[0]], names[1..]);
      assert dirs + names == (dirs + [names[0]]) + names[1..];
    }
  }

  /** `../` once for each directory. */
  function Up(n: nat): seq<string> {
    if n == 0 then [] else [".."] + Up(n - 1)
  }

  lemma {:induction false} WalkUp(dirs: seq<string>, parts: seq<string>)
    ensures Walk(dirs, Up(|dirs|) + parts) == Walk([], parts)
    decreases |dirs|
  {
    if dirs == [] {
      assert Up(0) + parts == parts;
    } else {
      var steps := Up(|dirs|) + parts;
      assert steps[0] == ".." && steps[1..] == Up(|dirs| - 1) + parts;
      WalkUp(dirs[..|dirs| - 1], parts);
    }
  }

  /** The relative spelling of `p` seen from a file with these directories. */
  function Relative(up: nat, p: string): string {
    if up == 0 then p else "../" + Relative(up - 1, p)
  }

  lemma {:induction false} SplitRelative(up: nat, p: string)
    ensures Split(Relative(up, p), '/') == Up(up) + Split(p, '/')
  {
    hide Split;
    if up == 0 {
      assert Up(0) + Split(p, '/') == Split(p, '/');
    } else {
      var less := Relative(up - 1, p);
      SplitRelative(up - 1, p);
      SplitCons("..", '/', less);
      DotDot(less);
      Associate([".."], Up(up - 1), Split(p, '/'));
    }
  }

  lemma DotDot(rest: string)
    ensures "../" + rest == ".." + ['/'] + rest
  {
  }

  lemma {:induction false} RelativeIsAccepted(up: nat, p: ContentPath)
    ensures !RefusedOutright(Relative(up, p))
  {
    if up > 0 {
      RelativeIsAccepted(up - 1, p);
      assert Relative(up, p)[..3] == "../";
    }
  }

  /** Up to the root and then along `p` is `p`, from every file. */
  lemma RootRelativeIsIdentity(source: ContentPath, p: ContentPath)
    ensures Normalized(source, Relative(|Directory(source)|, p)) == Success(p)
  {
    var dirs, names := Directory(source), Split(p, '/');
    RelativeIsAccepted(|dirs|, p);
    SplitRelative(|dirs|, p);
    WalkUp(dirs, names);
    WalkNames([], names);
    assert [] + names == names;
    JoinOfSplit(p);
  }

  lemma {:induction false} JoinConcat(a: Segments, b: Segments)
    ensures Join(a + b) == Join(a) + "/" + Join(b)
    decreases |a|
  {
    assert (a + b)[1..] == a[1..] + b;
    if |a| > 1 {
      JoinConcat(a[1..], b);
    } else {
      assert a + b == a + b && (a + b)[1..] == b;
    }
  }

  lemma DirectoryOf(source: ContentPath)
    ensures forall d :: d in Directory(source) ==> PlainSegment(d) && '/' !in d
    ensures Directory(source) != [] ==> Canonical(Join(Directory(source)))
  {
    hide Split, Join;
    var dirs, last := DirectoryAndName(source);
    if dirs != [] {
      JoinOfSplit(source);
      JoinConcat(dirs, [last]);
      SplitOfJoin(dirs);
      Associate(Join(dirs), "/", Join([last]));
      PrefixOfCanonical(source, Join(dirs), "/" + Join([last]));
    }
  }

  lemma DirectoryAndName(source: ContentPath) returns (dirs: seq<string>, name: string)
    ensures Split(source, '/') == dirs + [name] && Directory(source) == dirs
    ensures forall d :: d in dirs ==> PlainSegment(d) && '/' !in d
    ensures dirs != [] ==> Join(dirs) != ""
  {
    hide Split, IndexOf, DrivePrefix, Join;
    var parts := Split(source, '/');
    dirs, name := InitAndLast(parts);
    assert forall d :: d in parts ==> PlainSegment(d);
    if dirs != [] {
      assert dirs[0] in dirs;
      JoinStarts(dirs);
    }
  }

  lemma InitAndLast(parts: Segments) returns (init: seq<string>, last: string)
    ensures init == parts[..|parts| - 1] && parts == init + [last]
    ensures forall d :: d in init ==> d in parts
  {
    init, last := parts[..|parts| - 1], parts[|parts| - 1];
  }

  lemma JoinStarts(parts: seq<string>)
    ensures parts != [] && parts[0] != "" ==> Join(parts) != ""
  {
  }

  lemma PrefixOfCanonical(p: ContentPath, front: string, back: string)
    requires p == front + back && front != ""
    ensures front[0] != '/' && '\\' !in front && '\0' !in front && !DrivePrefix(front)
  {
    assert p[0] == front[0];
    assert |front| >= 2 ==> p[1] == front[1];
    assert forall c :: c in front ==> c in p;
  }

  /** A text whose parts are all names, although it may start like a drive. */
  predicate NamesOnly(p: string) {
    '\\' !in p && '\0' !in p && forall part :: part in Split(p, '/') ==> PlainSegment(part)
  }

  /** Following names from a directory of the content root appends them; from the root itself they stand alone. */
  lemma NamesAreAppended(source: ContentPath, p: string)
    requires NamesOnly(p)
    ensures var dirs := Directory(source);
      Landing(Walk(dirs, Split(p, '/'))) == Landing(Success(if dirs == [] then [p] else [Join(dirs) + "/" + p]))
    ensures Directory(source) != [] ==> Canonical(Join(Directory(source)) + "/" + p)
  {
    hide Split, Join, Canonical;
    var dirs, names := Directory(source), Split(p, '/');
    WalkNames(dirs, names);
    JoinOfSplit(p);
    JoinOne(p);
    if dirs == [] {
      assert [] + names == names;
    } else {
      JoinConcat(dirs, names);
      DirectoryOf(source);
      JoinOne(Join(dirs) + "/" + p);
      ChildIsCanonical(dirs, p);
    }
  }

  lemma JoinOne(part: string)
    ensures Join([part]) == part
  {
  }

  lemma ChildIsCanonical(dirs: seq<string>, p: string)
    requires dirs != [] && (forall d :: d in dirs ==> PlainSegment(d) && '/' !in d) && Canonical(Join(dirs)) && NamesOnly(p)
    ensures Canonical(Join(dirs) + "/" + p)
  {
    var names, q := Split(p, '/'), Join(dirs) + "/" + p;
    JoinOfSplit(p);
    JoinConcat(dirs, names);
    SplitOfJoin(dirs + names);
    assert q[0] == Join(dirs)[0];
    if |Join(dirs)| == 1 {
      assert q[1] == '/';
    } else {
      assert q[1] == Join(dirs)[1];
    }
  }

  /** A plain path means the same thing seen from a file's directory: it is appended to it. */
  lemma ChildIsAppended(source: ContentPath, p: ContentPath)
    ensures var dirs := Directory(source);
      Normalized(source, p) == Success(if dirs == [] then p else Join(dirs) + "/" + p)
  {
    hide Split, Join;
    NamesAreAppended(source, p);
    JoinOne(p);
    JoinOne(Join(Directory(source)) + "/" + p);
  }

  lemma {:induction false} WalkDot(dirs: seq<string>, parts: seq<string>)
    ensures Walk(dirs, ["."] + parts) == Walk(dirs, parts)
  {
    assert (["."] + parts)[1..] == parts;
  }

  lemma DottedSplit(target: string)
    ensures Split("./" + target, '/') == ["."] + Split(target, '/')
    ensures RefusedOutright("./" + target) <==> '\\' in target || '\0' in target
  {
    var dotted := "./" + target;
    assert dotted == "." + ['/'] + target;
    SplitCons(".", '/', target);
    assert forall c :: c in dotted <==> c == '.' || c == '/' || c in target;
  }

  lemma EmptyStart(target: string)
    ensures (target == "" || target[0] == '/') ==> Split(target, '/')[0] == ""
  {
  }

  /**
   A leading `./` changes nothing, for any target at all, except that it hides a drive prefix from
   the check: without it every target with a drive prefix is refused.
   */
  lemma DotPrefix(source: ContentPath, target: string)
    ensures !DrivePrefix(target) ==> Normalized(source, "./" + target) == Normalized(source, target)
    ensures DrivePrefix(target) ==> Normalized(source, target) == Failure(InvalidLocalPath)
    ensures Normalized(source, "./" + target) != Normalized(source, target)
       <==> DrivePrefix(target) && '\\' !in target && '\0' !in target
            && Landing(Walk(Directory(source), Split(target, '/'))) != Failure(InvalidLocalPath)
  {
    hide Split;
    DottedSplit(target);
    WalkDot(Directory(source), Split(target, '/'));
    if target == "" || target[0] == '/' {
      EmptyStart(target);
    }
  }

  /**
   What the hidden prefix does: seen from a file in a directory, `./C:/x` is the path `C:/x` below
   that directory; seen from a file in the content root it is refused, as `C:/x` is everywhere.
   */
  lemma DotHidesDrive(source: ContentPath, target: string)
    requires DrivePrefix(target) && NamesOnly(target)
    ensures Normalized(source, target) == Failure(InvalidLocalPath)
    ensures Directory(source) != [] ==> Canonical(Join(Directory(source)) + "/" + target)
    ensures Normalized(source, "./" + target) ==
      if Directory(source) == [] then Failure(InvalidLocalPath) else Success(Join(Directory(source)) + "/" + target)
  {
    hide Split, Join, Walk;
    DottedSplit(target);
    WalkDot(Directory(source), Split(target, '/'));
    NamesAreAppended(source, target);
    JoinOne(target);
    JoinOne(Join(Directory(source)) + "/" + target);
  }

  type Part = s: string | '/' !in s witness ""

  lemma SplitTwo(a: Part, b: Part)
    ensures Split(a + ['/'] + b, '/') == [a, b]
  {
    SplitCons(a, '/', b);
    IndexOfIs(b, '/', |b|);
  }

  lemma InDirectory()
    ensures Canonical("d/a") && Directory("d/a") == ["d"]
  {
    SplitTwo("d", "a");
    assert "d" + ['/'] + "a" == "d/a";
  }

  lemma DriveIsName()
    ensures DrivePrefix("C:/x") && NamesOnly("C:/x")
  {
    SplitTwo("C:", "x");
    assert "C:" + ['/'] + "x" == "C:/x";
  }

  /** For instance, from `d/a`. */
  lemma DotHidesDriveForInstance()
    ensures Canonical("d/a") && Canonical("d/C:/x")
    ensures Normalized("d/a", "C:/x") == Failure(InvalidLocalPath)
    ensures Normalized("d/a", "./C:/x") == Success("d/C:/x")
  {
    hide Split, Normalized, NamesOnly, Canonical, Join, Directory;
    InDirectory();
    DriveIsName();
    DotHidesDrive("d/a", "C:/x");
    JoinOne("d");
    assert "./" + "C:/x" == "./C:/x";
    assert "d" + "/" + "C:/x" == "d/C:/x";
  }

  // ---------- resolving against a snapshot ----------

  datatype TargetKind = Note | Asset

  datatype Candidate = Candidate(kind: TargetKind, path: ContentPath)

  datatype Resolution =
    | ResolvedNote(path: ContentPath)
    | ResolvedAsset(path: ContentPath)
    | External(target: string)
    | Missing(target: string)
    | Ambiguous(target: string, candidates: seq<Candidate>)
    | Invalid(target: string, reason: Reason)

  predicate EndsWith(s: string, suffix: string) {
    |suffix| <= |s| && s[|s| - |suffix|..] == suffix
  }

  predicate IsNote(path: string) {
    EndsWith(path, ".md")
  }

  predicate HasExtension(path: string) {
    '.' in FileName(path)
  }

  function StripFragment(target: string): string {
    target[..IndexOf(target, '#')]
  }

  predicate IsExternal(target: string) {
    "http://" <= target || "https://" <= target
  }

  function CandidateOf(path: ContentPath): Candidate {
    Candidate(if IsNote(path) then Note else Asset, path)
  }

  /** Notes before assets, then by path: the derived order of candidates. */
  function CandidateKey(c: Candidate): string {
    [if c.kind.Note? then 0 as char else 1 as char] + c.path
  }

  function Resolved(c: Candidate): Resolution {
    if c.kind.Note? then ResolvedNote(c.path) else ResolvedAsset(c.path)
  }

  /** The candidates of a snapshot's files that pass a test. */
  function Matching(paths: seq<ContentPath>, test: ContentPath -> bool): (found: seq<Candidate>)
    ensures forall c :: c in found <==> exists p :: p in paths && test(p) && c == CandidateOf(p)
  {
    if paths == [] then []
    else
      HeadAndTail(paths);
      (if test(paths[0]) then [CandidateOf(paths[0])] else []) + Matching(paths[1..], test)
  }

  /** `resolve_candidates` */
  function ResolveCandidates(target: string, found: seq<Candidate>): Resolution {
    var candidates := Order.Dedup(Order.Sort(found, CandidateKey));
    if |candidates| == 0 then Missing(target)
    else if |candidates| == 1 then Resolved(candidates[0])
    else Ambiguous(target, candidates)
  }

  function Named(name: string): ContentPath -> bool {
    (p: ContentPath) => FileName(p) == name
  }

  function OneOf(paths: seq<string>): ContentPath -> bool {
    (p: ContentPath) => p in paths
  }

  function EmbedMatches(fileTarget: string): ContentPath -> bool {
    (p: ContentPath) => FileName(p) == fileTarget || (!HasExtension(fileTarget) && FileName(p) == fileTarget + ".md")
  }

  function ResolveExact(target: string, path: ContentPath, paths: seq<ContentPath>, image: bool): Resolution {
    if path !in paths then Missing(target)
    else if image && IsNote(path) then Invalid(target, ImageTargetsNote)
    else Resolved(CandidateOf(path))
  }

  function NoteName(fileTarget: string): string {
    if IsNote(fileTarget) then fileTarget else fileTarget + ".md"
  }

  function ResolveWikiLink(target: string, source: ContentPath, paths: seq<ContentPath>): Resolution {
    var fileTarget := StripFragment(target);
    if fileTarget == "" then ResolveExact(target, source, paths, false)
    else if '/' in fileTarget then
      match New(NoteName(fileTarget))
      case Failure(_) => Invalid(target, InvalidLocalPath)
      case Success(path) => ResolveExact(target, path, paths, false)
    else ResolveCandidates(target, Matching(paths, Named(NoteName(fileTarget))))
  }

  function ResolveWikiEmbed(target: string, paths: seq<ContentPath>): Resolution {
    var fileTarget := StripFragment(target);
    if fileTarget == "" then Invalid(target, InvalidLocalPath)
    else if '/' in fileTarget then
      if New(fileTarget).Failure? then Invalid(target, InvalidLocalPath)
      else if HasExtension(fileTarget) then ResolveCandidates(target, Matching(paths, OneOf([fileTarget])))
      else if New(fileTarget + ".md").Failure? then Invalid(target, InvalidLocalPath)
      else ResolveCandidates(target, Matching(paths, OneOf([fileTarget, fileTarget + ".md"])))
    else ResolveCandidates(target, Matching(paths, EmbedMatches(fileTarget)))
  }

  function ResolveMarkdownPath(target: string, source: ContentPath, paths: seq<ContentPath>, image: bool): Resolution {
    var fileTarget := StripFragment(target);
    if fileTarget == "" then ResolveExact(target, source, paths, image)
    else
      match Normalized(source, fileTarget)
      case Failure(reason) => Invalid(target, reason)
      case Success(path) => ResolveExact(target, path, paths, image)
  }

  /** `ReferenceResolver::resolve` */
  function Resolve(kind: ReferenceKind, target: string, source: ContentPath, paths: seq<ContentPath>): Resolution {
    if kind.ExternalUrl? || IsExternal(target) then External(target)
    else
      match kind
      case WikiLink => ResolveWikiLink(target, source, paths)
      case WikiEmbed => ResolveWikiEmbed(target, paths)
      case MarkdownLink => ResolveMarkdownPath(target, source, paths, false)
      case _ => ResolveMarkdownPath(target, source, paths, true)
  }

  /** What a resolution may claim: paths of the snapshot, typed by their name, and true ambiguity. */
  ghost predicate Honest(r: Resolution, paths: seq<ContentPath>) {
    match r
    case ResolvedNote(path) => path in paths && IsNote(path)
    case ResolvedAsset(path) => path in paths && !IsNote(path)
    case Ambiguous(_, candidates) =>
      && |candidates| >= 2 && Order.Strict(candidates, CandidateKey)
      && forall c :: c in candidates ==> c.path in paths && c == CandidateOf(c.path)
    case _ => true
  }

  lemma KeysTellCandidatesApart(found: seq<Candidate>)
    ensures forall x, y :: x in found && y in found && CandidateKey(x) == CandidateKey(y) ==> x == y
  {
    forall x, y | x in found && y in found && CandidateKey(x) == CandidateKey(y) ensures x == y {
      assert CandidateKey(x)[0] == CandidateKey(y)[0];
      assert x.path == CandidateKey(x)[1..] && y.path == CandidateKey(y)[1..];
    }
  }

  /** Sorting and dropping repeats keeps exactly the candidates found, each once, in order. */
  lemma CandidatesExact(found: seq<Candidate>)
    ensures var candidates := Order.Dedup(Order.Sort(found, CandidateKey));
      Order.Strict(candidates, CandidateKey) && forall c :: c in candidates <==> c in found
  {
    var sorted := Order.Sort(found, CandidateKey);
    Order.SortSorted(found, CandidateKey);
    Order.SortMembers(found, CandidateKey);
    KeysTellCandidatesApart(sorted);
    Order.DedupStrict(sorted, CandidateKey);
  }

  lemma MatchingIsHonest(target: string, paths: seq<ContentPath>, test: ContentPath -> bool)
    ensures Honest(ResolveCandidates(target, Matching(paths, test)), paths)
  {
    var found := Matching(paths, test);
    CandidatesExact(found);
    var candidates := Order.Dedup(Order.Sort(found, CandidateKey));
    forall c | c in candidates ensures c.path in paths && c == CandidateOf(c.path) {
      assert c in found;
    }
    assert |candidates| == 1 ==> candidates[0] in candidates;
  }

  /** Every resolution points into the snapshot, calls notes notes, and images never show notes. */
  lemma ResolutionsAreHonest(kind: ReferenceKind, target: string, source: ContentPath, paths: seq<ContentPath>)
    ensures Honest(Resolve(kind, target, source, paths), paths)
    ensures kind.MarkdownImage? ==> !Resolve(kind, target, source, paths).ResolvedNote?
  {
    hide Honest, ResolveWikiLink, ResolveWikiEmbed, ResolveExact;
    WikiLinkIsHonest(target, source, paths);
    WikiEmbedIsHonest(target, paths);
    MarkdownIsHonest(target, source, paths, false);
    MarkdownIsHonest(target, source, paths, true);
    assert Honest(External(target), paths) by {
      NothingToClaim(External(target), paths);
    }
  }

  lemma NothingToClaim(r: Resolution, paths: seq<ContentPath>)
    ensures r.External? || r.Invalid? ==> Honest(r, paths)
  {
  }

  lemma ExactIsHonest(target: string, path: ContentPath, paths: seq<ContentPath>, image: bool)
    ensures Honest(ResolveExact(target, path, paths, image), paths)
    ensures image ==> !ResolveExact(target, path, paths, image).ResolvedNote?
  {
  }

  lemma WikiLinkIsHonest(target: string, source: ContentPath, paths: seq<ContentPath>)
    ensures Honest(ResolveWikiLink(target, source, paths), paths)
  {
    hide Honest, ResolveExact, ResolveCandidates, Named;
    var fileTarget := StripFragment(target);
    MatchingIsHonest(target, paths, Named(NoteName(fileTarget)));
    NothingToClaim(Invalid(target, InvalidLocalPath), paths);
    ExactIsHonest(target, source, paths, false);
    if New(NoteName(fileTarget)).Success? {
      ExactIsHonest(target, New(NoteName(fileTarget)).value, paths, false);
    }
  }

  lemma WikiEmbedIsHonest(target: string, paths: seq<ContentPath>)
    ensures Honest(ResolveWikiEmbed(target, paths), paths)
  {
    hide Honest, ResolveCandidates, Named, OneOf, EmbedMatches;
    var fileTarget := StripFragment(target);
    NothingToClaim(Invalid(target, InvalidLocalPath), paths);
    MatchingIsHonest(target, paths, OneOf([fileTarget]));
    MatchingIsHonest(target, paths, OneOf([fileTarget, fileTarget + ".md"]));
    MatchingIsHonest(target, paths, EmbedMatches(fileTarget));
  }

  lemma MarkdownIsHonest(target: string, source: ContentPath, paths: seq<ContentPath>, image: bool)
    ensures Honest(ResolveMarkdownPath(target, source, paths, image), paths)
    ensures image ==> !ResolveMarkdownPath(target, source, paths, image).ResolvedNote?
  {
    hide Honest, ResolveExact, Normalized;
    var fileTarget := StripFragment(target);
    ExactIsHonest(target, source, paths, image);
    match Normalized(source, fileTarget)
    case Failure(reason) => NothingToClaim(Invalid(target, reason), paths);
    case Success(path) => ExactIsHonest(target, path, paths, image);
  }

  /** The one file that passes. */
  ghost predicate OnlyPass(paths: seq<ContentPath>, test: ContentPath -> bool, p: ContentPath) {
    p in paths && test(p) && forall q :: q in paths && test(q) ==> q == p
  }

  lemma CandidatesAreOwn(paths: seq<ContentPath>, test: ContentPath -> bool)
    ensures forall c :: c in Matching(paths, test) ==> c == CandidateOf(c.path)
    ensures forall p: ContentPath :: CandidateOf(p) in Matching(paths, test) <==> p in paths && test(p)
  {
  }

  lemma ResolvedIsCandidate(c: Candidate, d: Candidate)
    ensures Resolved(c) == Resolved(d) <==> c == d
    ensures !Resolved(c).Missing? && !Resolved(c).Ambiguous?
  {
  }

  /** What the candidates are, once sorted and without repeats. */
  lemma SortedCandidates(paths: seq<ContentPath>, test: ContentPath -> bool) returns (candidates: seq<Candidate>)
    ensures candidates == Order.Dedup(Order.Sort(Matching(paths, test), CandidateKey))
    ensures forall p: ContentPath :: CandidateOf(p) in candidates <==> p in paths && test(p)
    ensures candidates == [] <==> forall p :: p in paths ==> !test(p)
    ensures forall p: ContentPath :: candidates == [CandidateOf(p)] <==> OnlyPass(paths, test, p)
  {
    hide Order.Sort, Order.Dedup, Order.Strict, CandidateKey, CandidateOf, Matching;
    candidates := Order.Dedup(Order.Sort(Matching(paths, test), CandidateKey));
    CandidatesExact(Matching(paths, test));
    CandidatesAreOwn(paths, test);
    OneCandidate(paths, test, candidates);
  }

  lemma DecidedByOne(target: string, paths: seq<ContentPath>, test: ContentPath -> bool, p: ContentPath)
    ensures ResolveCandidates(target, Matching(paths, test)) == Resolved(CandidateOf(p)) <==> OnlyPass(paths, test, p)
  {
    hide Order.Sort, Order.Dedup, CandidateKey, CandidateOf, Matching, Resolved, OnlyPass;
    var candidates := SortedCandidates(paths, test);
    ResolvedIsCandidate(CandidateOf(p), if |candidates| == 1 then candidates[0] else CandidateOf(p));
    assert |candidates| == 1 ==> candidates == [candidates[0]];
  }

  /**
   A test decides the resolution exactly: missing when no file passes, resolved when one file
   does, ambiguous between all that pass when several do.
   */
  lemma CandidatesDecide(target: string, paths: seq<ContentPath>, test: ContentPath -> bool)
    ensures var r := ResolveCandidates(target, Matching(paths, test));
      && (r == Missing(target) <==> forall p :: p in paths ==> !test(p))
      && (forall p: ContentPath :: r == Resolved(CandidateOf(p)) <==> p in paths && test(p) && forall q :: q in paths && test(q) ==> q == p)
      && (r.Ambiguous? ==> forall p: ContentPath :: CandidateOf(p) in r.candidates <==> p in paths && test(p))
  {
    hide Order.Sort, Order.Dedup, CandidateKey, CandidateOf, Matching, Resolved;
    var candidates := SortedCandidates(paths, test);
    if |candidates| == 1 {
      ResolvedIsCandidate(candidates[0], candidates[0]);
    }
    forall p: ContentPath
      ensures ResolveCandidates(target, Matching(paths, test)) == Resolved(CandidateOf(p))
         <==> p in paths && test(p) && forall q :: q in paths && test(q) ==> q == p
    {
      DecidedByOne(target, paths, test, p);
    }
  }

  /** A wiki link by name: the one note of that file name, all of them, or none. */
  lemma WikiNameDecides(target: string, source: ContentPath, paths: seq<ContentPath>)
    requires !IsExternal(target) && StripFragment(target) != "" && '/' !in StripFragment(target)
    ensures var r, name := Resolve(WikiLink, target, source, paths), NoteName(StripFragment(target));
      && (r == Missing(target) <==> forall p :: p in paths ==> FileName(p) != name)
      && (forall p: ContentPath :: r == Resolved(CandidateOf(p)) <==> p in paths && FileName(p) == name && forall q :: q in paths && FileName(q) == name ==> q == p)
      && (r.Ambiguous? ==> forall p: ContentPath :: CandidateOf(p) in r.candidates <==> p in paths && FileName(p) == name)
  {
    hide ResolveCandidates, Matching, FileName, CandidateOf, NoteName, StripFragment;
    CandidatesDecide(target, paths, Named(NoteName(StripFragment(target))));
  }

  /** The files an embed means: the one it names, or, when it names no extension, the note of that name. */
  predicate EmbedMeans(fileTarget: string, path: ContentPath) {
    var named := if '/' in fileTarget then path else FileName(path);
    named == fileTarget || (!HasExtension(fileTarget) && named == fileTarget + ".md")
  }

  lemma EmbedTest(target: string, paths: seq<ContentPath>) returns (test: ContentPath -> bool)
    requires !ResolveWikiEmbed(target, paths).Invalid?
    ensures ResolveWikiEmbed(target, paths) == ResolveCandidates(target, Matching(paths, test))
    ensures forall p: ContentPath :: test(p) <==> EmbedMeans(StripFragment(target), p)
  {
    hide ResolveCandidates, Matching, FileName;
    var fileTarget := StripFragment(target);
    test := if '/' !in fileTarget then EmbedMatches(fileTarget)
            else if HasExtension(fileTarget) then OneOf([fileTarget])
            else OneOf([fileTarget, fileTarget + ".md"]);
  }

  /** An embed shows the one file it means, reports all of them, or reports that there is none. */
  lemma WikiEmbedDecides(target: string, source: ContentPath, paths: seq<ContentPath>)
    requires !IsExternal(target) && !Resolve(WikiEmbed, target, source, paths).Invalid?
    ensures var r, fileTarget := Resolve(WikiEmbed, target, source, paths), StripFragment(target);
      && (r == Missing(target) <==> forall p :: p in paths ==> !EmbedMeans(fileTarget, p))
      && (forall p: ContentPath :: r == Resolved(CandidateOf(p)) <==> p in paths && EmbedMeans(fileTarget, p) && forall q :: q in paths && EmbedMeans(fileTarget, q) ==> q == p)
      && (r.Ambiguous? ==> forall p: ContentPath :: CandidateOf(p) in r.candidates <==> p in paths && EmbedMeans(fileTarget, p))
  {
    hide ResolveCandidates, Matching, CandidateOf, EmbedMeans, ResolveWikiEmbed, StripFragment;
    var test := EmbedTest(target, paths);
    CandidatesDecide(target, paths, test);
  }

  lemma SchemeLeavesAGap(s: string, front: string)
    requires '/' !in front && front + "//" <= s
    ensures "" in Split(s, '/')
  {
    var rest := s[|front| + 2..];
    assert s == front + ['/'] + ("" + ['/'] + rest);
    SplitCons(front, '/', "" + ['/'] + rest);
    SplitCons("", '/', rest);
    assert Split(s, '/')[1] == "";
  }

  lemma CanonicalIsNotExternal(p: ContentPath)
    ensures !IsExternal(p)
  {
    if "http://" <= p {
      assert "http:" + "//" == "http://";
      SchemeLeavesAGap(p, "http:");
    } else if "https://" <= p {
      assert "https:" + "//" == "https://";
      SchemeLeavesAGap(p, "https:");
    }
  }

  lemma {:induction false} RelativeIsLocal(up: nat, p: ContentPath)
    requires '#' !in p
    ensures !IsExternal(Relative(up, p)) && '#' !in Relative(up, p)
  {
    if up == 0 {
      CanonicalIsNotExternal(p);
    } else {
      RelativeIsLocal(up - 1, p);
      assert Relative(up, p)[0] == '.';
    }
  }

  /** Every file can be linked from every file: the relative spelling of its path resolves to it. */
  lemma RelativeLinkResolves(source: ContentPath, p: ContentPath, paths: seq<ContentPath>)
    requires '#' !in p
    ensures var target := Relative(|Directory(source)|, p);
      Resolve(MarkdownLink, target, source, paths) == if p in paths then Resolved(CandidateOf(p)) else Missing(target)
  {
    hide Directory, Normalized, CandidateOf, Relative;
    var target := Relative(|Directory(source)|, p);
    RelativeIsLocal(|Directory(source)|, p);
    RootRelativeIsIdentity(source, p);
    RelativeIsAccepted(|Directory(source)|, p);
    IndexOfIs(target, '#', |target|);
    assert StripFragment(target) == target;
  }

  lemma OneCandidate(paths: seq<ContentPath>, test: ContentPath -> bool, candidates: seq<Candidate>)
    requires forall p: ContentPath :: CandidateOf(p) in candidates <==> p in paths && test(p)
    requires forall c :: c in candidates ==> c == CandidateOf(c.path)
    requires Order.Strict(candidates, CandidateKey)
    ensures candidates == [] <==> forall p :: p in paths ==> !test(p)
    ensures forall p: ContentPath :: candidates == [CandidateOf(p)] <==> OnlyPass(paths, test, p)
  {
    hide Order.Strict, CandidateKey;
    if candidates != [] {
      assert candidates[0] in candidates && CandidateOf(candidates[0].path) in candidates;
    }
    forall p: ContentPath ensures candidates == [CandidateOf(p)] <==> OnlyPass(paths, test, p) {
      if candidates == [CandidateOf(p)] {
        assert CandidateOf(p) in candidates;
        forall q | q in paths && test(q) ensures q == p {
          assert CandidateOf(q) in candidates;
        }
      }
      if OnlyPass(paths, test, p) {
        forall c | c in candidates ensures c == CandidateOf(p) {
          assert CandidateOf(c.path) in candidates;
        }
        OnlyOne(candidates, CandidateOf(p));
      }
    }
  }

  lemma OnlyOne(candidates: seq<Candidate>, c: Candidate)
    requires Order.Strict(candidates, CandidateKey) && c in candidates
    requires forall x :: x in candidates ==> x == c
    ensures candidates == [c]
  {
    assert candidates[0] in candidates && candidates[|candidates| - 1] in candidates;
    OneIndex(candidates, |candidates| - 1, 0);
  }

  lemma OneIndex(candidates: seq<Candidate>, i: nat, j: nat)
    requires Order.Strict(candidates, CandidateKey) && i < |candidates| && j < |candidates|
    requires candidates[i] == candidates[j]
    ensures i == j
  {
    Order.StrictIsSorted(candidates, CandidateKey);
    assert CandidateKey(candidates[i]) == CandidateKey(candidates[j]);
  }
}
