/** The Markdown and wiki reference parser (`content/reference.rs`). */
module ReferenceParser {
  import opened Wrappers
  import opened Text
  import opened Utf8

  // Documents are UTF-8 bytes. Every place where the source slices a `str` goes through `From` or
  // `Slice`, whose preconditions are the character boundaries at which Rust would otherwise panic.

  datatype ReferenceKind = WikiLink | WikiEmbed | MarkdownLink | MarkdownImage | ExternalUrl

  datatype Reference = Reference(kind: ReferenceKind, target: string, start: nat, end: nat)

  datatype Found = Found(kind: ReferenceKind, target: string, end: nat)

  /** `&s[i..]` */
  function From(s: string, i: nat): (r: string)
    requires Boundary(s, i)
  {
    s[i..]
  }

  /** `&s[i..j]` */
  function Slice(s: string, i: nat, j: nat): (r: string)
    requires i <= j && Boundary(s, i) && Boundary(s, j)
  {
    s[i..j]
  }

  /** A target is text the author wrote inside the reference's own span. */
  ghost predicate Inside(line: string, start: nat, end: nat, target: string) {
    exists k: nat :: start <= k && TextAt(line, k, end, target)
  }

  predicate TextAt(line: string, k: nat, end: nat, target: string) {
    k + |target| <= end <= |line| && line[k..k + |target|] == target
  }

  ghost predicate GoodFind(line: string, start: nat, found: Option<Found>) {
    found.Some? ==>
      && start < found.value.end && Boundary(line, found.value.end)
      && found.value.target != "" && Inside(line, start, found.value.end, found.value.target)
  }

  // ---------- the three reference syntaxes ----------

  function RunLength(s: string, start: nat, c: char): (n: nat)
    requires start <= |s|
    ensures start + n <= |s|
    ensures forall i :: start <= i < start + n ==> s[i] == c
    ensures start + n < |s| ==> s[start + n] != c
    decreases |s| - start
  {
    if start == |s| || s[start] != c then 0 else 1 + RunLength(s, start + 1, c)
  }

  /** An ASCII prefix found at a boundary ends at a boundary. */
  lemma AfterPrefix(s: string, i: nat, prefix: string)
    requires Valid(s) && Boundary(s, i) && prefix <= s[i..]
    requires forall j :: 0 <= j < |prefix| ==> prefix[j] as int < 0x80
    ensures Boundary(s, i + |prefix|)
  {
    if prefix != "" {
      var last := i + |prefix| - 1;
      assert s[i..][|prefix| - 1] == s[last] == prefix[|prefix| - 1];
      AsciiNext(s, last);
    }
  }

  /** `find("]]")` */
  function FindClose(s: string): (r: Option<nat>)
    ensures r.Some? ==> r.value + 2 <= |s| && s[r.value] == ']' && s[r.value + 1] == ']'
  {
    if |s| < 2 then None
    else if s[0] == ']' && s[1] == ']' then Some(0)
    else
      match FindClose(s[1..])
      case None => None
      case Some(i) => Some(i + 1)
  }

  /** `obsidian_reference` */
  function ObsidianReference(line: string, start: nat): (r: Option<Found>)
    requires Valid(line) && Boundary(line, start)
    ensures GoodFind(line, start, r)
  {
    if "![[" <= From(line, start) then
      AfterPrefix(line, start, "![[");
      WikiInner(line, start, start + 3, WikiEmbed)
    else if "[[" <= From(line, start) && (start == 0 || line[start - 1] != '!') then
      AfterPrefix(line, start, "[[");
      WikiInner(line, start, start + 2, WikiLink)
    else None
  }

  function WikiInner(line: string, start: nat, inside: nat, kind: ReferenceKind): (r: Option<Found>)
    requires Valid(line) && start < inside && Boundary(line, inside)
    ensures GoodFind(line, start, r)
  {
    var remainder := From(line, inside);
    match FindClose(remainder)
    case None => None
    case Some(close) =>
      AsciiNext(line, inside + close);
      AsciiNext(line, inside + close + 1);
      var inner := Slice(line, inside, inside + close);
      var bar := IndexOf(inner, '|');
      var target := inner[..bar];
      if target == "" then None
      else
        assert TextAt(line, inside, inside + close + 2, target);
        Some(Found(kind, target, inside + close + 2))
  }

  /** `markdown_link` */
  function MarkdownReference(line: string, start: nat): (r: Option<Found>)
    requires Valid(line) && Boundary(line, start)
    ensures GoodFind(line, start, r)
  {
    if "![" <= From(line, start) then
      AfterPrefix(line, start, "![");
      LinkTail(line, start, start + 2, MarkdownImage)
    else if "[" <= From(line, start) then
      AfterPrefix(line, start, "[");
      LinkTail(line, start, start + 1, MarkdownLink)
    else None
  }

  function LinkTail(line: string, start: nat, inside: nat, kind: ReferenceKind): (r: Option<Found>)
    requires Valid(line) && start < inside && Boundary(line, inside)
    ensures GoodFind(line, start, r)
  {
    var labelEnd := inside + IndexOf(From(line, inside), ']');
    if labelEnd == |line| then None
    else
      AsciiNext(line, labelEnd);
      if !("](" <= From(line, labelEnd)) then None
      else
        AfterPrefix(line, labelEnd, "](");
        LinkTarget(line, start, labelEnd + 2, kind)
  }

  function LinkTarget(line: string, start: nat, targetStart: nat, kind: ReferenceKind): (r: Option<Found>)
    requires Valid(line) && start < targetStart && Boundary(line, targetStart)
    ensures GoodFind(line, start, r)
  {
    var targetEnd := targetStart + IndexOf(From(line, targetStart), ')');
    if targetEnd == |line| then None
    else
      AsciiNext(line, targetEnd);
      var target := Slice(line, targetStart, targetEnd);
      if target == "" then None
      else
        assert TextAt(line, targetStart, targetEnd + 1, target);
        Some(Found(kind, target, targetEnd + 1))
  }

  predicate UrlBoundary(c: char) {
    !('0' <= c <= '9' || 'A' <= c <= 'Z' || 'a' <= c <= 'z') && c != '_' && c != '-' && c != '.' && c != '/'
  }

  /** Where a bare URL stops: before whitespace or one of `< > " '`, character by character. */
  function UrlEnd(s: Utf8Text): (n: nat)
    ensures Boundary(s, n)
    decreases |s|
  {
    if s == "" then 0
    else if WhiteLen(s) > 0 || s[0] == '<' || s[0] == '>' || s[0] == '"' || s[0] == '\'' then 0
    else
      var k := CharLen(s);
      Next(s, 0);
      assert s[0..] == s;
      Suffix(s, k);
      k + UrlEnd(s[k..])
  }

  predicate TrailingPunctuation(c: char) {
    c == '.' || c == ',' || c == ';' || c == ':' || c == '!' || c == '?' || c == ')' || c == ']'
  }

  function TrimEnd(s: string): (n: nat)
    ensures n <= |s|
    ensures forall i :: n <= i < |s| ==> TrailingPunctuation(s[i])
  {
    if s == "" || !TrailingPunctuation(s[|s| - 1]) then |s| else TrimEnd(s[..|s| - 1])
  }

  /** Where the URL that starts at `start` ends, trailing punctuation trimmed. */
  function UrlStop(line: string, start: nat): (stop: nat)
    requires Valid(line) && Boundary(line, start)
    ensures start <= stop && Boundary(line, stop)
  {
    Suffix(line, start);
    var remainder := From(line, start);
    var end := UrlEnd(remainder);
    var n := TrimEnd(remainder[..end]);
    StopIsBoundary(line, start, end, n);
    start + n
  }

  lemma StopIsBoundary(line: string, start: nat, end: nat, n: nat)
    requires start <= |line| && Boundary(line[start..], end) && n <= end
    requires forall i :: n <= i < end ==> TrailingPunctuation(line[start..][..end][i])
    ensures Boundary(line, start + n)
  {
    var remainder := line[start..];
    if n < end {
      assert TrailingPunctuation(remainder[..end][n]) && line[start + n] == remainder[..end][n];
    } else if start + end < |line| {
      assert line[start + end] == remainder[end];
    }
  }

  lemma SliceIsInside(line: string, start: nat, stop: nat)
    requires start <= stop <= |line|
    ensures Inside(line, start, stop, line[start..stop])
  {
    assert TextAt(line, start, stop, line[start..stop]);
  }

  /** `external_url` */
  function UrlReference(line: string, start: nat): (r: Option<Found>)
    requires Valid(line) && Boundary(line, start)
    ensures GoodFind(line, start, r)
  {
    if start > 0 && !UrlBoundary(line[start - 1]) then None
    else if !("https://" <= From(line, start) || "http://" <= From(line, start)) then None
    else
      var stop := UrlStop(line, start);
      var target := Slice(line, start, stop);
      if target == "" then None
      else
        SliceIsInside(line, start, stop);
        Some(Found(ExternalUrl, target, stop))
  }

  // ---------- one line ----------

  function ReferenceAt(line: string, index: nat): (r: Option<Found>)
    requires Valid(line) && Boundary(line, index)
    ensures GoodFind(line, index, r)
  {
    match ObsidianReference(line, index)
    case Some(f) => Some(f)
    case None =>
      match MarkdownReference(line, index)
      case Some(f) => Some(f)
      case None => UrlReference(line, index)
  }

  function AfterBackticks(code: Option<nat>, length: nat): Option<nat> {
    if code == Some(length) then None else if code.None? then Some(length) else code
  }

  /** Past a backslash and the character it escapes. */
  function SkipEscape(line: string, index: nat): (next: nat)
    requires Valid(line) && index < |line| && line[index] == '\\'
    ensures index < next && Boundary(line, next)
  {
    AsciiNext(line, index);
    if index + 1 == |line| then |line|
    else
      Next(line, index + 1);
      index + 1 + CharLen(From(line, index + 1))
  }

  function SkipBackticks(line: string, index: nat): (next: nat)
    requires Valid(line) && index < |line| && line[index] == '`'
    ensures index < next && Boundary(line, next)
  {
    var n := RunLength(line, index, '`');
    AsciiNext(line, index + n - 1);
    index + n
  }

  function SkipChar(line: string, index: nat): (next: nat)
    requires Valid(line) && index < |line| && Boundary(line, index)
    ensures index < next && Boundary(line, next)
  {
    Next(line, index);
    index + CharLen(From(line, index))
  }

  /** The references of a line from `index` on; inside a code span the index may stand inside a character. */
  function LineReferences(line: string, index: nat, code: Option<nat>): seq<Reference>
    requires Valid(line) && index <= |line| && (code.None? ==> Boundary(line, index))
    decreases |line| - index
  {
    if index == |line| then []
    else if line[index] == '\\' then LineReferences(line, SkipEscape(line, index), code)
    else if line[index] == '`' then
      LineReferences(line, SkipBackticks(line, index), AfterBackticks(code, RunLength(line, index, '`')))
    else if code.Some? then LineReferences(line, index + 1, code)
    else
      match ReferenceAt(line, index)
      case Some(f) => [Reference(f.kind, f.target, index, f.end)] + LineReferences(line, f.end, None)
      case None => LineReferences(line, SkipChar(line, index), None)
  }

  function Moved(r: Reference, distance: nat): Reference {
    r.(start := r.start + distance, end := r.end + distance)
  }

  function Shift(refs: seq<Reference>, distance: nat): seq<Reference> {
    if refs == [] then [] else [Moved(refs[0], distance)] + Shift(refs[1..], distance)
  }

  /** Where one round of the loop leaves the index and the code span, and what it found. */
  datatype Round = Round(next: nat, code: Option<nat>, found: seq<Reference>)

  method ScanOnce(line: string, index: nat, code: Option<nat>) returns (r: Round)
    requires Valid(line) && index < |line| && (code.None? ==> Boundary(line, index))
    ensures index < r.next <= |line| && (r.code.None? ==> Boundary(line, r.next))
    ensures LineReferences(line, index, code) == r.found + LineReferences(line, r.next, r.code)
  {
    if line[index] == '\\' {
      return Round(SkipEscape(line, index), code, []);
    }
    if line[index] == '`' {
      return Round(SkipBackticks(line, index), AfterBackticks(code, RunLength(line, index, '`')), []);
    }
    if code.Some? {
      return Round(index + 1, code, []);
    }
    match ReferenceAt(line, index) {
      case Some(f) => r := Round(f.end, None, [Reference(f.kind, f.target, index, f.end)]);
      case None => r := Round(SkipChar(line, index), None, []);
    }
  }

  /** `parse_line`: one index over the bytes, pushing each reference where it is found. */
  method ParseLine(line: Utf8Text, lineOffset: nat, references: seq<Reference>) returns (out: seq<Reference>)
    ensures out == references + Shift(LineReferences(line, 0, None), lineOffset)
  {
    var index := 0;
    var inlineCode: Option<nat> := None;
    ghost var done: seq<Reference> := [];
    out := references;
    while index < |line|
      invariant index <= |line| && (inlineCode.None? ==> Boundary(line, index))
      invariant LineReferences(line, 0, None) == done + LineReferences(line, index, inlineCode)
      invariant out == references + Shift(done, lineOffset)
      decreases |line| - index
    {
      var round := ScanOnce(line, index, inlineCode);
      Associate(done, round.found, LineReferences(line, round.next, round.code));
      ShiftConcat(done, round.found, lineOffset);
      Associate(references, Shift(done, lineOffset), Shift(round.found, lineOffset));
      done := done + round.found;
      out := out + Shift(round.found, lineOffset);
      index, inlineCode := round.next, round.code;
    }
    assert done + [] == done;
  }

  lemma ShiftCons(r: Reference, rest: seq<Reference>, distance: nat)
    ensures Shift([r] + rest, distance) == [Moved(r, distance)] + Shift(rest, distance)
  {
    assert ([r] + rest)[1..] == rest;
  }

  lemma {:induction false} ShiftConcat(a: seq<Reference>, b: seq<Reference>, distance: nat)
    ensures Shift(a + b, distance) == Shift(a, distance) + Shift(b, distance)
  {
    if a == [] {
      assert a + b == b;
    } else {
      var r, t := a[0], a[1..];
      ShiftConcat(t, b, distance);
      ShiftCons(r, t + b, distance);
      ShiftCons(r, t, distance);
      assert a == [r] + t && a + b == [r] + (t + b);
      Associate([Moved(r, distance)], Shift(t, distance), Shift(b, distance));
    }
  }

  lemma {:induction false} ShiftAt(refs: seq<Reference>, distance: nat)
    ensures |Shift(refs, distance)| == |refs|
    ensures forall i :: 0 <= i < |refs| ==> Shift(refs, distance)[i] == Moved(refs[i], distance)
  {
    if refs != [] {
      ShiftAt(refs[1..], distance);
    }
  }

  // ---------- fences and lines ----------

  datatype Fence = Fence(marker: char, length: nat)

  function StripFenceIndent(line: string): Option<string> {
    var indent := RunLength(line, 0, ' ');
    if indent <= 3 then Some(line[indent..]) else None
  }

  /** Cutting the indent off a valid line never cuts a character. */
  lemma FenceIndentIsBoundary(line: Utf8Text)
    ensures Boundary(line, RunLength(line, 0, ' '))
    ensures StripFenceIndent(line).Some? ==> StripFenceIndent(line).value == From(line, RunLength(line, 0, ' '))
  {
    var indent := RunLength(line, 0, ' ');
    if indent > 0 {
      AsciiNext(line, indent - 1);
    }
  }

  function FenceOpen(line: string): Option<Fence> {
    match StripFenceIndent(line)
    case None => None
    case Some(trimmed) =>
      if trimmed == "" || (trimmed[0] != '`' && trimmed[0] != '~') then None
      else
        var length := RunLength(trimmed, 0, trimmed[0]);
        if length >= 3 then Some(Fence(trimmed[0], length)) else None
  }

  predicate FenceClose(line: string, fence: Fence) {
    match StripFenceIndent(line)
    case None => false
    case Some(trimmed) => RunLength(trimmed, 0, fence.marker) >= fence.length
  }

  predicate IndentedCode(line: string) {
    "\t" <= line || "    " <= line
  }

  function NextFence(content: string, fence: Option<Fence>): Option<Fence> {
    match fence
    case Some(f) => if FenceClose(content, f) then None else fence
    case None => FenceOpen(content)
  }

  predicate IsText(content: string, fence: Option<Fence>) {
    fence.None? && FenceOpen(content).None? && !IndentedCode(content)
  }

  /** `split_inclusive('\n')`: every line with its newline, the last one possibly without. */
  function SplitInclusive(text: string): (lines: seq<string>)
    ensures text != "" ==> lines != []
    decreases |text|
  {
    if text == "" then []
    else
      var i := IndexOf(text, '\n');
      if i == |text| then [text] else [text[..i + 1]] + SplitInclusive(text[i + 1..])
  }

  function StripLf(line: string): (c: string)
    ensures c <= line
  {
    if line != "" && line[|line| - 1] == '\n' then line[..|line| - 1] else line
  }

  function StripCr(line: string): (c: string)
    ensures c <= line
  {
    if line != "" && line[|line| - 1] == '\r' then line[..|line| - 1] else line
  }

  /** A line without its line break, `\n` or `\r\n`. */
  function Content(line: string): (c: string)
    ensures c <= line
  {
    StripCr(StripLf(line))
  }

  ghost predicate ValidLines(lines: seq<string>) {
    forall i :: 0 <= i < |lines| ==> Valid(Content(lines[i]))
  }

  lemma ContentValid(line: Utf8Text)
    ensures Valid(Content(line))
  {
    hide Valid;
    if StripLf(line) != line {
      Prefix(line, |line| - 1);
    }
    var w := StripLf(line);
    if StripCr(w) != w {
      Prefix(w, |w| - 1);
    }
  }

  /** Cutting a document after its newlines cuts it between characters. */
  lemma {:induction false} LinesAreValid(text: Utf8Text)
    ensures ValidLines(SplitInclusive(text))
    decreases |text|
  {
    if text != "" {
      var i := IndexOf(text, '\n');
      if i == |text| {
        ContentValid(text);
      } else {
        AsciiNext(text, i);
        Prefix(text, i + 1);
        Suffix(text, i + 1);
        ContentValid(text[..i + 1]);
        LinesAreValid(text[i + 1..]);
      }
    }
  }

  /** One line of a document: its content, its full length, and the references it holds as text. */
  datatype Piece = Piece(content: string, length: nat, refs: seq<Reference>)

  /** The references of one line of text, whatever surrounds it. */
  function TextReferences(content: string): seq<Reference> {
    if Valid(content) then LineReferences(content, 0, None) else []
  }

  function PieceOf(line: string, parse: string -> seq<Reference>): Piece {
    Piece(Content(line), |line|, parse(Content(line)))
  }

  function PiecesOf(lines: seq<string>, parse: string -> seq<Reference>): (pieces: seq<Piece>)
    ensures |pieces| == |lines|
  {
    if lines == [] then [] else [PieceOf(lines[0], parse)] + PiecesOf(lines[1..], parse)
  }

  lemma {:induction false} PiecesAt(lines: seq<string>, parse: string -> seq<Reference>, i: nat)
    requires i < |lines|
    ensures PiecesOf(lines, parse)[i] == PieceOf(lines[i], parse)
  {
    if i > 0 {
      PiecesAt(lines[1..], parse, i - 1);
    }
  }

  /** A line's references count only where it is text: outside fences and indented code. */
  function PieceReferences(p: Piece, fence: Option<Fence>): seq<Reference> {
    if IsText(p.content, fence) then p.refs else []
  }

  /** The references of some lines, the first of which is at `offset` and entered with `fence` open. */
  function Document(pieces: seq<Piece>, offset: nat, fence: Option<Fence>): seq<Reference> {
    if pieces == [] then []
    else
      Shift(PieceReferences(pieces[0], fence), offset)
      + Document(pieces[1..], offset + pieces[0].length, NextFence(pieces[0].content, fence))
  }

  /** The fence left open after some lines. */
  function FenceAfter(pieces: seq<Piece>, fence: Option<Fence>): Option<Fence> {
    if pieces == [] then fence else FenceAfter(pieces[1..], NextFence(pieces[0].content, fence))
  }

  function Pieces(text: string): seq<Piece> {
    PiecesOf(SplitInclusive(text), TextReferences)
  }

  /** What `parse` returns for a document. */
  function References(text: string): seq<Reference> {
    Document(Pieces(text), 0, None)
  }

  /** `MarkdownReferenceParser::parse`: line by line, with the open fence and the running offset. */
  method Parse(markdown: Utf8Text) returns (references: seq<Reference>)
    ensures references == References(markdown)
  {
    hide Valid, Document, PiecesOf, Content, TextReferences, SplitInclusive, References, NextFence, PieceReferences, Shift;
    references := [];
    var offset: nat := 0;
    var fence: Option<Fence> := None;
    var lines := SplitInclusive(markdown);
    LinesAreValid(markdown);
    ghost var pieces := PiecesOf(lines, TextReferences);
    DocumentWhole(markdown);
    for i := 0 to |lines|
      invariant references + Document(pieces[i..], offset, fence) == References(markdown)
    {
      PiecesAt(lines, TextReferences, i);
      ghost var before, start, entered := references, offset, fence;
      references, offset, fence := ParseContent(lines[i], offset, fence, references, pieces[i]);
      DocumentStep(before, pieces, i, start, entered);
    }
    DocumentEmpty(offset, fence);
    assert pieces[|lines|..] == [] && references + [] == references;
  }

  lemma DocumentWhole(text: string)
    ensures [] + Document(PiecesOf(SplitInclusive(text), TextReferences)[0..], 0, None) == References(text)
  {
    assert Pieces(text)[0..] == Pieces(text);
  }

  lemma DocumentEmpty(offset: nat, fence: Option<Fence>)
    ensures Document([], offset, fence) == []
  {
  }

  lemma DocumentCons(p: Piece, rest: seq<Piece>, offset: nat, fence: Option<Fence>)
    ensures Document([p] + rest, offset, fence)
         == Shift(PieceReferences(p, fence), offset) + Document(rest, offset + p.length, NextFence(p.content, fence))
  {
    assert ([p] + rest)[1..] == rest;
  }

  lemma DocumentStep(before: seq<Reference>, pieces: seq<Piece>, i: nat, offset: nat, fence: Option<Fence>)
    requires i < |pieces|
    ensures var p := pieces[i];
      before + Document(pieces[i..], offset, fence)
      == (before + Shift(PieceReferences(p, fence), offset)) + Document(pieces[i + 1..], offset + p.length, NextFence(p.content, fence))
  {
    var p, rest := pieces[i], pieces[i + 1..];
    assert pieces[i..] == [p] + rest;
    DocumentCons(p, rest, offset, fence);
    Associate(before, Shift(PieceReferences(p, fence), offset), Document(rest, offset + p.length, NextFence(p.content, fence)));
  }

  /** What one line does: it may close a fence, open one, be code, or hold references. */
  method ParseContent(line: string, offset: nat, fence: Option<Fence>, references: seq<Reference>, ghost p: Piece)
    returns (out: seq<Reference>, end: nat, next: Option<Fence>)
    requires Valid(Content(line)) && p == PieceOf(line, TextReferences)
    ensures end == offset + p.length && next == NextFence(p.content, fence)
    ensures out == references + Shift(PieceReferences(p, fence), offset)
  {
    var content := Content(line);
    out, end, next := references, offset + |line|, fence;
    if fence.Some? {
      if FenceClose(content, fence.value) {
        next := None;
      }
    } else if FenceOpen(content).Some? {
      next := FenceOpen(content);
    } else if !IndentedCode(content) {
      out := ParseLine(content, offset, references);
    }
  }
}
