/**
 What each kind of reference resolves to, from the text of its target alone
 (`content/reference_resolver.rs`): external, the file it stands in, a file named by its path, a file
 found by walking from the source's directory, missing, or invalid and why.
 */
module ReferenceTargets {
  import opened Wrappers
  import opened Text
  import opened ContentPaths
  import opened ReferenceParser
  import opened ReferenceResolver

  /** The part of a target before its first `#`. */
  type FilePart = s: string | '#' !in s witness ""

  /** Nothing, or a `#` and anything. */
  type Fragment = s: string | s == "" || s[0] == '#' witness ""

  ghost predicate NoteNamed(path: string) {
    exists stem :: path == stem + ".md"
  }

  /** A file of the snapshot, as the note or the asset its name makes it. */
  ghost function Pointed(path: ContentPath): Resolution {
    if NoteNamed(path) then ResolvedNote(path) else ResolvedAsset(path)
  }

  ghost predicate Local(target: string) {
    !("http://" <= target) && !("https://" <= target)
  }

  lemma NoteExact(path: string)
    ensures IsNote(path) <==> NoteNamed(path)
  {
    if IsNote(path) {
      assert path == path[..|path| - 3] + ".md";
    }
  }

  lemma FragmentIsCut(file: FilePart, fragment: Fragment)
    ensures StripFragment(file + fragment) == file
  {
    IndexOfIs(file + fragment, '#', |file|);
    assert (file + fragment)[..|file|] == file;
  }

  lemma PointedExact(path: ContentPath)
    ensures Resolved(CandidateOf(path)) == Pointed(path)
  {
    NoteExact(path);
  }

  /** The file name is what follows the last `/`. */
  lemma {:induction false} FileNameExact(front: string, name: Part)
    ensures FileName(name) == name && FileName(front + "/" + name) == name
    decreases |front|
  {
    hide Split;
    IndexOfIs(name, '/', |name|);
    OnePart(name);
    var i := IndexOf(front, '/');
    assert front + "/" + name == front + ['/'] + name;
    if i == |front| {
      SplitCons(front, '/', name);
    } else {
      var a, b := front[..i], front[i + 1..];
      CutAt(front, i);
      assert front + ['/'] + name == a + ['/'] + (b + "/" + name);
      SplitCons(a, '/', b + "/" + name);
      FileNameExact(b, name);
    }
  }

  lemma OnePart(name: Part)
    ensures Split(name, '/') == [name]
  {
    IndexOfIs(name, '/', |name|);
  }

  /** A target with a web scheme, or of a bare URL, is left alone. */
  lemma ExternalExact(kind: ReferenceKind, target: string, source: ContentPath, paths: seq<ContentPath>)
    ensures Resolve(kind, target, source, paths).External? <==> kind.ExternalUrl? || !Local(target)
    ensures Resolve(kind, target, source, paths).External? ==> Resolve(kind, target, source, paths) == External(target)
  {
    hide Normalized, Matching, FileName;
  }

  /** A target that is only a fragment means the file it stands in; an embed cannot mean that. */
  lemma FragmentMeansSource(fragment: Fragment, source: ContentPath, paths: seq<ContentPath>)
    ensures forall kind: ReferenceKind | kind.WikiLink? || kind.MarkdownLink? ::
      Resolve(kind, fragment, source, paths) == if source in paths then Pointed(source) else Missing(fragment)
    ensures Resolve(MarkdownImage, fragment, source, paths) ==
      if source !in paths then Missing(fragment) else if NoteNamed(source) then Invalid(fragment, ImageTargetsNote) else ResolvedAsset(source)
    ensures Resolve(WikiEmbed, fragment, source, paths) == Invalid(fragment, InvalidLocalPath)
  {
    hide Normalized, ResolveCandidates, Matching, FileName, NoteNamed, CandidateOf, Canonical;
    FragmentIsCut("", fragment);
    assert "" + fragment == fragment;
    NoteExact(source);
    PointedExact(source);
  }

  /** A wiki link with a path means exactly the note at that path, with or without its `.md`. */
  lemma WikiPathDecides(file: FilePart, fragment: Fragment, source: ContentPath, paths: seq<ContentPath>)
    requires '/' in file && Local(file + fragment)
    ensures var target, name := file + fragment, if NoteNamed(file) then file else file + ".md";
      Resolve(WikiLink, target, source, paths) ==
        if !Canonical(name) then Invalid(target, InvalidLocalPath) else if name in paths then ResolvedNote(name) else Missing(target)
  {
    hide Normalized, ResolveCandidates, Matching, FileName, NoteNamed, Canonical;
    FragmentIsCut(file, fragment);
    NoteExact(file);
    var name := if NoteNamed(file) then file else file + ".md";
    NamedNote(file);
    NoteExact(name);
  }

  lemma NamedNote(file: string)
    ensures NoteNamed(file + ".md")
  {
  }

  /** An embed is invalid exactly without a file, or with a path that is not canonical. */
  lemma EmbedInvalidExact(file: FilePart, fragment: Fragment, source: ContentPath, paths: seq<ContentPath>)
    requires Local(file + fragment)
    ensures var target := file + fragment;
      var r := Resolve(WikiEmbed, target, source, paths);
      && (r.Invalid? <==> file == "" || ('/' in file && !(Canonical(file) && (HasExtension(file) || Canonical(file + ".md")))))
      && (r.Invalid? ==> r == Invalid(target, InvalidLocalPath))
  {
    hide Normalized, Matching, FileName, Canonical, HasExtension;
    FragmentIsCut(file, fragment);
  }

  /**
   A Markdown target with a file part means the file its directory walk lands on: a link takes any
   file of the snapshot, an image only what is not a note, and a walk that fails says why.
   */
  lemma MarkdownDecides(file: FilePart, fragment: Fragment, source: ContentPath, paths: seq<ContentPath>)
    requires file != "" && Local(file + fragment)
    ensures var target, landed := file + fragment, Normalized(source, file);
      && (landed.Failure? ==> forall kind: ReferenceKind | kind.MarkdownLink? || kind.MarkdownImage? ::
            Resolve(kind, target, source, paths) == Invalid(target, landed.error))
      && (landed.Success? ==>
            && Resolve(MarkdownLink, target, source, paths) == (if landed.value in paths then Pointed(landed.value) else Missing(target))
            && Resolve(MarkdownImage, target, source, paths) ==
                if landed.value !in paths then Missing(target)
                else if NoteNamed(landed.value) then Invalid(target, ImageTargetsNote) else ResolvedAsset(landed.value))
  {
    hide Normalized, NoteNamed, CandidateOf, Canonical;
    FragmentIsCut(file, fragment);
    if Normalized(source, file).Success? {
      NoteExact(Normalized(source, file).value);
      PointedExact(Normalized(source, file).value);
    }
  }

  /** Going into a directory and back out of it again is going nowhere. */
  lemma DetourCancels(source: ContentPath, name: Part, rest: string)
    requires PlainSegment(name) && !RefusedOutright(name) && !RefusedOutright(rest)
    ensures Normalized(source, name + "/../" + rest) == Normalized(source, rest)
  {
    hide Split, Landing, New, Canonical;
    var target, dirs := name + "/../" + rest, Directory(source);
    assert target == name + ['/'] + (".." + ['/'] + rest);
    SplitCons(name, '/', ".." + ['/'] + rest);
    SplitCons("..", '/', rest);
    assert target[0] == name[0];
    assert |name| == 1 ==> target[1] == '/';
    assert |name| > 1 ==> target[1] == name[1];
    DetourWalk(dirs, name, Split(rest, '/'));
  }

  lemma DetourWalk(dirs: seq<string>, name: string, parts: seq<string>)
    requires PlainSegment(name)
    ensures Walk(dirs, [name] + ([".."] + parts)) == Walk(dirs, parts)
  {
    assert ([name] + ([".."] + parts))[1..] == [".."] + parts && ([".."] + parts)[1..] == parts;
    assert (dirs + [name])[..|dirs|] == dirs;
  }
}
