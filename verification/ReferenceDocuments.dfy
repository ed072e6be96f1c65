/**
 Whole documents (`content/reference.rs`): which of their lines are text, which open and close fences
 and which are indented code, and that each line of text is read completely. A fenced block is
 skipped as a whole, and after it parsing starts anew; a line of text contributes the references
 that are written in it, whatever stands before and after it.
 */
module ReferenceDocuments {
  import opened Wrappers
  import opened Text
  import opened Utf8
  import opened ReferenceParser
  import opened ReferenceSyntax
  import opened ReferenceProperties
  import opened ReferenceReading
  import opened ReferenceLayout

  // ---------- fences ----------

  function Times(c: char, n: nat): (s: string)
    ensures |s| == n && forall i :: 0 <= i < n ==> s[i] == c
  {
    seq(n, _ => c)
  }

  lemma RunIs(s: string, c: char, n: nat)
    requires n <= |s| && (forall i :: 0 <= i < n ==> s[i] == c) && (n < |s| ==> s[n] != c)
    ensures RunLength(s, 0, c) == n
  {
  }

  /** A fence marker of this length, indented by at most three spaces, and not longer. */
  ghost predicate OpensFence(line: string, f: Fence, indent: nat, rest: string) {
    && indent <= 3 && (f.marker == '`' || f.marker == '~') && f.length >= 3
    && line == Times(' ', indent) + (Times(f.marker, f.length) + rest) && (rest == "" || rest[0] != f.marker)
  }

  /** At least as many markers as opened the fence, indented by at most three spaces; anything may follow. */
  ghost predicate ClosesFence(line: string, f: Fence, indent: nat, rest: string) {
    indent <= 3 && line == Times(' ', indent) + (Times(f.marker, f.length) + rest)
  }

  lemma Trimmed(line: string, indent: nat, back: string)
    requires line == Times(' ', indent) + back && (back == "" || back[0] != ' ')
    ensures RunLength(line, 0, ' ') == indent && line[indent..] == back
  {
    RunIs(line, ' ', indent);
  }

  lemma SplitRun(s: string, c: char)
    ensures var n := RunLength(s, 0, c); s == Times(c, n) + s[n..] && (s[n..] == "" || s[n..][0] != c)
  {
  }

  /** An opening run of three or more backticks or tildes opens a fence, and nothing else does. */
  lemma FenceOpenExact(line: string, f: Fence)
    ensures FenceOpen(line) == Some(f) <==> exists indent, rest :: OpensFence(line, f, indent, rest)
  {
    hide RunLength, Times;
    if indent, rest :| OpensFence(line, f, indent, rest) {
      var back := Times(f.marker, f.length) + rest;
      MarkerFirst(f, rest);
      Trimmed(line, indent, back);
      RunIs(back, f.marker, f.length);
    }
    if FenceOpen(line) == Some(f) {
      var indent := RunLength(line, 0, ' ');
      var back := line[indent..];
      SplitRun(line, ' ');
      SplitRun(back, f.marker);
      assert OpensFence(line, f, indent, back[f.length..]);
    }
  }

  lemma MarkerFirst(f: Fence, rest: string)
    ensures f.length > 0 ==> (Times(f.marker, f.length) + rest)[0] == f.marker
    ensures (rest == "" || rest[0] != f.marker) ==>
      var back := Times(f.marker, f.length) + rest;
      (forall i :: 0 <= i < f.length ==> back[i] == f.marker) && (f.length < |back| ==> back[f.length] != f.marker)
  {
  }

  /** An open fence is closed by a run of its own marker that is long enough, and by nothing else. */
  lemma FenceCloseExact(line: string, f: Fence)
    requires f.length >= 1 && f.marker != ' '
    ensures FenceClose(line, f) <==> exists indent, rest :: ClosesFence(line, f, indent, rest)
  {
    hide RunLength, Times;
    if indent, rest :| ClosesFence(line, f, indent, rest) {
      MarkerFirst(f, rest);
      Trimmed(line, indent, Times(f.marker, f.length) + rest);
      LongRun(Times(f.marker, f.length) + rest, f.marker, f.length);
    }
    if FenceClose(line, f) {
      var indent := RunLength(line, 0, ' ');
      var back := line[indent..];
      SplitRun(line, ' ');
      ShortRun(back, f.marker, f.length);
      assert ClosesFence(line, f, indent, back[f.length..]);
    }
  }

  lemma LongRun(s: string, c: char, n: nat)
    ensures Times(c, n) <= s ==> RunLength(s, 0, c) >= n
  {
    if Times(c, n) <= s && RunLength(s, 0, c) < n {
      assert s[RunLength(s, 0, c)] == Times(c, n)[RunLength(s, 0, c)];
    }
  }

  lemma ShortRun(s: string, c: char, n: nat)
    requires n <= RunLength(s, 0, c)
    ensures s == Times(c, n) + s[n..]
  {
  }

  /** Outside fences a line is text exactly when it opens none and is not indented by a tab or four spaces. */
  lemma TextExact(line: string)
    ensures IsText(line, None) <==>
      && (forall f, indent, rest :: !OpensFence(line, f, indent, rest))
      && !("\t" <= line) && !("    " <= line)
  {
    hide FenceOpen, OpensFence;
    if FenceOpen(line).Some? {
      FenceOpenExact(line, FenceOpen(line).value);
    }
    forall f, indent, rest | OpensFence(line, f, indent, rest) ensures FenceOpen(line).Some? {
      FenceOpenExact(line, f);
    }
  }

  // ---------- a line of text in a document ----------

  predicate LineBreak(ending: string) {
    ending == "\n" || ending == "\r\n"
  }

  lemma ContentOf(line: string, ending: string)
    requires '\n' !in line && (LineBreak(ending) || ending == "") && (ending == "\r\n" || line == "" || line[|line| - 1] != '\r')
    ensures Content(line + ending) == line
    ensures line + ending != "" ==> SplitInclusive(line + ending) == [line + ending]
  {
    var all := line + ending;
    if ending == "" {
      assert all == line;
      IndexOfIs(all, '\n', |line|);
    } else {
      IndexOfIs(all, '\n', |all| - 1);
      assert all[..|all|] == all && all[|all|..] == "";
      assert StripLf(all) == line + ending[..|ending| - 1];
    }
  }

  lemma OneLinePieces(line: string, ending: string)
    requires '\n' !in line && (LineBreak(ending) || ending == "") && (ending == "\r\n" || line == "" || line[|line| - 1] != '\r')
    requires line + ending != ""
    ensures Pieces(line + ending) == [Piece(line, |line + ending|, TextReferences(line))]
  {
    hide Content, SplitInclusive, TextReferences;
    ContentOf(line, ending);
    var all := line + ending;
    assert [all][1..] == [];
    assert PiecesOf([all], TextReferences) == [PieceOf(all, TextReferences)] + PiecesOf([], TextReferences);
  }

  /** A line of text alone: all its written references and nothing else. */
  lemma TextLineIsRead(line: Utf8Text, ending: string, tokens: seq<Token>)
    requires '\n' !in line && (LineBreak(ending) || ending == "") && (ending == "\r\n" || line == "" || line[|line| - 1] != '\r')
    requires IsText(line, None) && Laid(line, 0, None, tokens)
    ensures References(line + ending) == WrittenIn(0, tokens)
    ensures FenceAfter(Pieces(line + ending), None).None?
  {
    hide Valid, Laid, WrittenIn, LineReferences, IsText, Document, SplitInclusive, Content, Pieces, FenceAfter;
    StartsBoundary(line);
    LaidIsRead(line, 0, None, tokens);
    if line + ending == "" {
      EmptyDocument();
      EmptyLine();
    } else {
      OneLinePieces(line, ending);
      OneTextLine(Piece(line, |line + ending|, TextReferences(line)));
    }
  }

  /** An indented line is code: it holds no reference and opens no fence. */
  lemma IndentedLineIsSilent(line: Utf8Text, ending: string)
    requires '\n' !in line && (LineBreak(ending) || ending == "") && (ending == "\r\n" || line == "" || line[|line| - 1] != '\r')
    requires "\t" <= line || "    " <= line
    ensures References(line + ending) == [] && FenceAfter(Pieces(line + ending), None).None?
  {
    hide Valid, Document, SplitInclusive, Content, TextReferences;
    var p := Piece(line, |line + ending|, TextReferences(line));
    OneLinePieces(line, ending);
    IndentedOpensNothing(line);
    assert [p] + [] == [p] && [p][1..] == [];
    DocumentCons(p, [], 0, None);
    DocumentEmpty(p.length, NextFence(p.content, None));
  }

  lemma IndentedOpensNothing(line: string)
    requires "\t" <= line || "    " <= line
    ensures FenceOpen(line).None?
  {
    if "    " <= line {
      assert line[0] == ' ' && line[1] == ' ' && line[2] == ' ' && line[3] == ' ';
      assert RunLength(line, 3, ' ') >= 1;
      assert RunLength(line, 0, ' ') == 1 + (1 + (1 + RunLength(line, 3, ' ')));
    } else {
      assert line[0] == '\t' && line[0..] == line;
    }
  }

  lemma OneTextLine(p: Piece)
    requires IsText(p.content, None)
    ensures Document([p], 0, None) == p.refs && FenceAfter([p], None).None?
  {
    hide FenceOpen, Document;
    assert [p] + [] == [p] && [p][1..] == [];
    DocumentCons(p, [], 0, None);
    DocumentEmpty(p.length, NextFence(p.content, None));
    ShiftByNothing(p.refs);
    assert p.refs + [] == p.refs;
  }

  lemma EmptyDocument()
    ensures References("") == [] && FenceAfter(Pieces(""), None).None?
  {
  }

  lemma EmptyLine()
    ensures Valid("") && LineReferences("", 0, None) == []
  {
  }

  lemma ShiftByNothing(refs: seq<Reference>)
    ensures Shift(refs, 0) == refs
  {
    hide Shift;
    ShiftAt(refs, 0);
    assert forall i :: 0 <= i < |refs| ==> Shift(refs, 0)[i] == refs[i];
  }

  /**
   Every line of text of a document is read completely: between what the lines before it hold and
   what the document after it holds stand exactly its own written references, moved to where it is.
   */
  lemma EveryTextLineIsRead(before: Utf8Text, line: Utf8Text, ending: Utf8Text, after: Utf8Text, tokens: seq<Token>)
    requires WholeLines(before) && FenceAfter(Pieces(before), None).None?
    requires '\n' !in line && LineBreak(ending) && (ending == "\r\n" || line == "" || line[|line| - 1] != '\r')
    requires IsText(line, None) && Laid(line, 0, None, tokens)
    ensures References(before + ((line + ending) + after))
         == References(before) + (Shift(WrittenIn(0, tokens), |before|) + Shift(References(after), |before| + |line| + |ending|))
  {
    hide Valid, Laid, WrittenIn, References, Pieces, FenceAfter, IsText, Shift;
    var here := line + ending;
    Concat(line, ending);
    Concat(here, after);
    TextLineIsRead(line, ending, tokens);
    ParsingIsCompositional(here, after);
    ParsingIsCompositional(before, here + after);
    ShiftConcat(WrittenIn(0, tokens), Shift(References(after), |here|), |before|);
    ShiftTwice(References(after), |here|, |before|);
  }

  lemma ShiftTwice(refs: seq<Reference>, a: nat, b: nat)
    ensures Shift(Shift(refs, a), b) == Shift(refs, b + a)
  {
    hide Shift;
    ShiftAt(refs, a);
    ShiftAt(Shift(refs, a), b);
    ShiftAt(refs, b + a);
    assert forall i :: 0 <= i < |refs| ==> Shift(Shift(refs, a), b)[i] == Shift(refs, b + a)[i];
  }

  // ---------- a fenced block in a document ----------

  function FencedBlock(opening: string, body: seq<string>, closing: string): string {
    Lines([opening] + (body + [closing]))
  }

  ghost predicate PlainLines(lines: seq<string>) {
    forall l :: l in lines ==> '\n' !in l && (l == "" || l[|l| - 1] != '\r')
  }

  lemma {:induction false} PiecesOfLines(lines: seq<string>)
    requires PlainLines(lines)
    ensures |Pieces(Lines(lines))| == |lines|
    ensures forall i :: 0 <= i < |lines| ==> Pieces(Lines(lines))[i] == Piece(lines[i], |lines[i]| + 1, TextReferences(lines[i]))
  {
    hide TextReferences, Content, SplitInclusive;
    if lines == [] {
      EmptySplit();
    } else {
      var x, rest := lines[0], lines[1..];
      PiecesOfLines(rest);
      PiecesFirst(x, Lines(rest), TextReferences);
      ContentOf(x, "\n");
    }
  }

  lemma EmptySplit()
    ensures SplitInclusive("") == []
  {
  }

  lemma WholeBlock(lines: seq<string>)
    ensures WholeLines(Lines(lines))
    decreases |lines|
  {
    if lines != [] {
      WholeBlock(lines[1..]);
    }
  }

  lemma FenceOverBody(opening: Piece, body: seq<Piece>, closing: Piece, f: Fence)
    requires FenceOpen(opening.content) == Some(f) && FenceClose(closing.content, f)
    requires forall p :: p in body ==> !FenceClose(p.content, f)
    ensures Document([opening] + (body + [closing]), 0, None) == []
    ensures FenceAfter([opening] + (body + [closing]), None).None?
  {
    hide FenceOpen, FenceClose;
    var rest := body + [closing];
    DocumentCons(opening, rest, 0, None);
    DocumentConcat(body, [closing], opening.length, Some(f));
    FencedLinesAreSilent(body, opening.length, f);
    assert [closing][1..] == [];
    assert ([opening] + rest)[1..] == rest;
    FenceAfterConcat(body, [closing], Some(f));
  }

  lemma {:induction false} FenceAfterConcat(a: seq<Piece>, b: seq<Piece>, fence: Option<Fence>)
    ensures FenceAfter(a + b, fence) == FenceAfter(b, FenceAfter(a, fence))
  {
    if a == [] {
      assert a + b == b;
    } else {
      FenceAfterConcat(a[1..], b, NextFence(a[0].content, fence));
      assert (a + b)[1..] == a[1..] + b;
    }
  }

  /** From the line that opens a fence to the first one that closes it nothing is a reference, and after it parsing starts anew. */
  lemma FencedBlockIsSkipped(opening: string, body: seq<string>, closing: string, f: Fence, after: Utf8Text)
    requires PlainLines([opening] + (body + [closing])) && Valid(FencedBlock(opening, body, closing))
    requires FenceOpen(opening) == Some(f) && FenceClose(closing, f) && forall l :: l in body ==> !FenceClose(l, f)
    ensures var text := FencedBlock(opening, body, closing);
      Valid(text + after) && References(text + after) == Shift(References(after), |text|)
  {
    hide Valid, FenceOpen, FenceClose, TextReferences, Pieces, Document, FenceAfter, Lines, Shift;
    var lines := [opening] + (body + [closing]);
    var text := FencedBlock(opening, body, closing);
    var pieces := Pieces(text);
    PiecesOfLines(lines);
    WholeBlock(lines);
    var inner := pieces[1..|body| + 1];
    BlockPieces(pieces, |body|);
    forall p | p in inner ensures !FenceClose(p.content, f) {
      var i :| 0 <= i < |inner| && inner[i] == p;
      assert inner[i] == pieces[i + 1] && lines[i + 1] == body[i] && body[i] in body;
    }
    assert lines[|body| + 1] == closing;
    FenceOverBody(pieces[0], inner, pieces[|body| + 1], f);
    ParsingIsCompositional(text, after);
  }

  lemma BlockPieces(pieces: seq<Piece>, n: nat)
    requires |pieces| == n + 2
    ensures pieces == [pieces[0]] + (pieces[1..n + 1] + [pieces[n + 1]])
  {
  }

  // ---------- references separated by text ----------

  datatype WikiNote = WikiNote(target: string, alias: Option<string>)

  ghost predicate Writable(note: WikiNote) {
    && note.target != "" && '|' !in note.target && NoClose(Inner(note.target, note.alias))
  }

  /** Wiki links one after the other, each followed by a space. */
  function SpacedNotes(notes: seq<WikiNote>): string {
    if notes == [] then "" else (Wiki("[[", notes[0].target, notes[0].alias) + " ") + SpacedNotes(notes[1..])
  }

  function NotesAt(at: nat, notes: seq<WikiNote>): seq<Reference>
    decreases |notes|
  {
    if notes == [] then []
    else
      var end := at + |Wiki("[[", notes[0].target, notes[0].alias)|;
      [Reference(WikiLink, notes[0].target, at, end)] + NotesAt(end + 1, notes[1..])
  }

  lemma NoteIsRead(line: string, at: nat, note: WikiNote, rest: string)
    requires Writable(note) && at <= |line| && (at == 0 || line[at - 1] == ' ')
    requires line[at..] == (Wiki("[[", note.target, note.alias) + " ") + rest
    ensures var end := at + |Wiki("[[", note.target, note.alias)|;
      && ReadsAs(line, at, Found(WikiLink, note.target, end)) && end < |line| && line[end] == ' ' && line[end + 1..] == rest
  {
    hide NoClose;
    var wiki := Wiki("[[", note.target, note.alias);
    var end := at + |wiki|;
    assert line[at..end] == line[at..][..|wiki|] == wiki;
    assert line[at..][|wiki|] == ' ' && line[at..][|wiki| + 1..] == rest;
    var inner := Inner(note.target, note.alias);
    assert WikiInside(inner, note.target);
    assert wiki == "[[" + (inner + "]]");
  }

  lemma SpaceIsProse(line: string, q: nat)
    requires Valid(line) && q < |line| && line[q] == ' '
    ensures ProseAt(line, q, None, q + 1)
  {
    hide Valid, SpelledAt;
    AsciiNext(line, q);
    forall f | SpelledAt(line, q, f) ensures false {
      SpelledStart(line, q, f);
    }
  }

  lemma NoteLaid(line: string, at: nat, f: Found, rest: seq<Token>)
    requires ReadsAs(line, at, f) && ProseAt(line, f.end, None, f.end + 1) && Laid(line, f.end + 1, None, rest)
    ensures Laid(line, at, None, [Written(f)] + ([Prose(f.end + 1)] + rest))
    ensures WrittenIn(at, [Written(f)] + ([Prose(f.end + 1)] + rest)) == [Reference(f.kind, f.target, at, f.end)] + WrittenIn(f.end + 1, rest)
  {
    hide ReadsAs, ProseAt;
    var later := [Prose(f.end + 1)] + rest;
    assert later[1..] == rest && ([Written(f)] + later)[1..] == later;
    assert Laid(line, f.end, None, later);
    assert [] + WrittenIn(f.end + 1, rest) == WrittenIn(f.end + 1, rest);
  }

  lemma {:induction false} NotesAreLaid(line: string, at: nat, notes: seq<WikiNote>) returns (tokens: seq<Token>)
    requires Valid(line) && at <= |line| && line[at..] == SpacedNotes(notes) && (at == 0 || line[at - 1] == ' ')
    requires forall n :: n in notes ==> Writable(n)
    ensures Laid(line, at, None, tokens) && WrittenIn(at, tokens) == NotesAt(at, notes)
    decreases |notes|
  {
    hide *;
    if notes == [] {
      NoNotes(at);
      tokens := [];
      assert |line[at..]| == 0;
      NoTokens(line);
    } else {
      var f := Found(WikiLink, notes[0].target, at + |Wiki("[[", notes[0].target, notes[0].alias)|);
      NotesHead(at, notes);
      assert notes[0] in notes;
      NoteIsRead(line, at, notes[0], SpacedNotes(notes[1..]));
      SpaceIsProse(line, f.end);
      var rest := NotesAreLaid(line, f.end + 1, notes[1..]);
      tokens := [Written(f)] + ([Prose(f.end + 1)] + rest);
      NoteLaid(line, at, f, rest);
    }
  }

  lemma NoNotes(at: nat)
    ensures SpacedNotes([]) == "" && NotesAt(at, []) == []
  {
  }

  lemma NotesHead(at: nat, notes: seq<WikiNote>)
    requires notes != []
    ensures var wiki := Wiki("[[", notes[0].target, notes[0].alias);
      && SpacedNotes(notes) == (wiki + " ") + SpacedNotes(notes[1..])
      && NotesAt(at, notes) == [Reference(WikiLink, notes[0].target, at, at + |wiki|)] + NotesAt(at + |wiki| + 1, notes[1..])
  {
  }

  lemma NoTokens(line: string)
    ensures Laid(line, |line|, None, []) && WrittenIn(|line|, []) == []
  {
  }

  /** Any number of wiki links with spaces between them come back one by one, each with its target and its span. */
  lemma SpacedNotesAreRead(notes: seq<WikiNote>)
    requires (forall n :: n in notes ==> Writable(n)) && Valid(SpacedNotes(notes))
    ensures LineReferences(SpacedNotes(notes), 0, None) == NotesAt(0, notes)
  {
    hide Valid, Laid, Writable, LineReferences;
    var line := SpacedNotes(notes);
    StartsBoundary(line);
    assert line[0..] == line;
    var tokens := NotesAreLaid(line, 0, notes);
    LaidIsRead(line, 0, None, tokens);
  }
}
