/** What the reference parser guarantees about every document. */
module ReferenceProperties {
  import opened Wrappers
  import opened Text
  import opened Utf8
  import opened ReferenceParser
  import opened ReferenceSyntax

  // ---------- spans ----------

  ghost predicate GoodReference(text: string, from: nat, r: Reference) {
    && from <= r.start < r.end <= |text|
    && Boundary(text, r.start) && Boundary(text, r.end)
    && r.target != "" && Inside(text, r.start, r.end, r.target)
    && Spelled(r.kind, r.target, text[r.start..r.end])
  }

  /** Every reference is in bounds and on characters, and each one ends before the next begins. */
  ghost predicate GoodReferences(text: string, from: nat, refs: seq<Reference>) {
    && (forall i :: 0 <= i < |refs| ==> GoodReference(text, from, refs[i]))
    && (forall i, j :: 0 <= i < j < |refs| ==> refs[i].end <= refs[j].start)
  }

  lemma GoodLater(text: string, from: nat, later: nat, refs: seq<Reference>)
    ensures from <= later && GoodReferences(text, later, refs) ==> GoodReferences(text, from, refs)
  {
  }

  lemma GoodCons(text: string, from: nat, r: Reference, refs: seq<Reference>)
    requires GoodReference(text, from, r) && GoodReferences(text, r.end, refs)
    ensures GoodReferences(text, from, [r] + refs)
  {
    hide Spelled, Inside, Boundary;
    var all := [r] + refs;
    forall i | 0 <= i < |all| ensures GoodReference(text, from, all[i]) {
      if i > 0 {
        assert all[i] == refs[i - 1];
        assert GoodReference(text, r.end, refs[i - 1]);
      }
    }
    forall i, j | 0 <= i < j < |all| ensures all[i].end <= all[j].start {
      assert all[j] == refs[j - 1];
      assert GoodReference(text, r.end, refs[j - 1]);
      if i > 0 {
        assert all[i] == refs[i - 1];
      }
    }
  }

  lemma {:induction false} LineIsGood(line: string, index: nat, code: Option<nat>)
    requires Valid(line) && index <= |line| && (code.None? ==> Boundary(line, index))
    ensures GoodReferences(line, index, LineReferences(line, index, code))
    decreases |line| - index
  {
    if index < |line| {
      if line[index] == '\\' {
        LineIsGood(line, SkipEscape(line, index), code);
        GoodLater(line, index, SkipEscape(line, index), LineReferences(line, SkipEscape(line, index), code));
      } else if line[index] == '`' {
        var code' := AfterBackticks(code, RunLength(line, index, '`'));
        LineIsGood(line, SkipBackticks(line, index), code');
        GoodLater(line, index, SkipBackticks(line, index), LineReferences(line, SkipBackticks(line, index), code'));
      } else if code.Some? {
        LineIsGood(line, index + 1, code);
        GoodLater(line, index, index + 1, LineReferences(line, index + 1, code));
      } else {
        match ReferenceAt(line, index) {
          case Some(f) =>
            FoundIsSpelled(line, index);
            LineIsGood(line, f.end, None);
            GoodCons(line, index, Reference(f.kind, f.target, index, f.end), LineReferences(line, f.end, None));
          case None =>
            LineIsGood(line, SkipChar(line, index), None);
            GoodLater(line, index, SkipChar(line, index), LineReferences(line, SkipChar(line, index), None));
        }
      }
    }
  }

  /** `content` stands in `text` at `offset`, and what follows it, if anything, is a line break. */
  ghost predicate StandsAt(text: string, offset: nat, content: string) {
    && offset + |content| <= |text|
    && text[offset..offset + |content|] == content
    && (offset + |content| < |text| ==> text[offset + |content|] == '\n' || text[offset + |content|] == '\r')
  }

  lemma ShiftedIsGood(text: string, offset: nat, content: string, r: Reference)
    requires StandsAt(text, offset, content) && GoodReference(content, 0, r)
    ensures GoodReference(text, offset, Moved(r, offset))
    ensures '\n' !in content ==> '\n' !in text[r.start + offset..r.end + offset]
  {
    hide Spelled;
    SlicesShift(text, offset, content, r.start, r.end);
    ShiftedInside(text, offset, content, r);
    assert forall k :: 0 <= k < |content| ==> text[offset + k] == content[k];
  }

  lemma SlicesShift(text: string, offset: nat, content: string, a: nat, b: nat)
    requires StandsAt(text, offset, content) && a <= b <= |content|
    ensures text[a + offset..b + offset] == content[a..b]
  {
    assert forall k :: 0 <= k < |content| ==> content[k] == text[offset..offset + |content|][k] == text[offset + k];
    assert forall k :: 0 <= k < b - a ==> text[a + offset..b + offset][k] == text[offset + (a + k)] == content[a..b][k];
  }

  lemma ShiftedInside(text: string, offset: nat, content: string, r: Reference)
    requires StandsAt(text, offset, content) && r.end <= |content| && Inside(content, r.start, r.end, r.target)
    ensures Inside(text, r.start + offset, r.end + offset, r.target)
  {
    var k: nat :| r.start <= k && TextAt(content, k, r.end, r.target);
    SlicesShift(text, offset, content, k, k + |r.target|);
    assert TextAt(text, offset + k, r.end + offset, r.target);
  }

  type NonEmpty = s: string | s != "" witness "a"

  /** The first line of what is left of a document. */
  lemma FirstLineOf(text: NonEmpty)
    ensures var line := SplitInclusive(text)[0];
      && line != "" && line <= text && SplitInclusive(text)[1..] == SplitInclusive(text[|line|..])
      && '\n' !in Content(line) && StandsAt(text, 0, Content(line))
      && ('\n' in line <==> line[|line| - 1] == '\n')
      && ('\n' !in line ==> line == text)
      && '\n' !in line[..|line| - 1]
  {
    var i := IndexOf(text, '\n');
    if i == |text| {
      assert text[|text|..] == "";
    } else {
      assert text[..i + 1][..i] == text[..i];
    }
  }

  ghost predicate InOneLine(text: string, refs: seq<Reference>) {
    forall i :: 0 <= i < |refs| && refs[i].end <= |text| && refs[i].start <= refs[i].end ==> '\n' !in text[refs[i].start..refs[i].end]
  }

  lemma ShiftedIsOne(text: string, offset: nat, content: string, refs: seq<Reference>, i: nat)
    requires '\n' !in content && StandsAt(text, offset, content) && GoodReferences(content, 0, refs) && i < |refs|
    ensures |Shift(refs, offset)| == |refs|
    ensures var m := Shift(refs, offset)[i];
      m == Moved(refs[i], offset) && GoodReference(text, offset, m) && m.end <= offset + |content| && '\n' !in text[m.start..m.end]
  {
    hide Shift, Spelled, Inside, Boundary, StandsAt;
    ShiftAt(refs, offset);
    ShiftedIsGood(text, offset, content, refs[i]);
  }

  lemma ShiftedAreGood(text: string, offset: nat, content: string, refs: seq<Reference>)
    requires '\n' !in content && StandsAt(text, offset, content) && GoodReferences(content, 0, refs)
    ensures var moved := Shift(refs, offset);
      && GoodReferences(text, offset, moved) && InOneLine(text, moved)
      && forall i :: 0 <= i < |moved| ==> moved[i].end <= offset + |content|
  {
    hide Shift, Spelled, Inside, Boundary, StandsAt;
    ShiftAt(refs, offset);
    var moved := Shift(refs, offset);
    forall i | 0 <= i < |moved|
      ensures GoodReference(text, offset, moved[i]) && moved[i].end <= offset + |content| && '\n' !in text[moved[i].start..moved[i].end]
    {
      ShiftedIsOne(text, offset, content, refs, i);
    }
  }

  lemma GoodConcat(text: string, from: nat, mid: nat, a: seq<Reference>, b: seq<Reference>)
    requires from <= mid
    requires GoodReferences(text, from, a) && forall i :: 0 <= i < |a| ==> a[i].end <= mid
    requires GoodReferences(text, mid, b) && InOneLine(text, a) && InOneLine(text, b)
    ensures GoodReferences(text, from, a + b) && InOneLine(text, a + b)
  {
    hide Spelled, Inside, Boundary;
    var all := a + b;
    forall i | 0 <= i < |all| ensures GoodReference(text, from, all[i]) {
      if i >= |a| {
        assert GoodReference(text, mid, b[i - |a|]);
      }
    }
    forall i, j | 0 <= i < j < |all| ensures all[i].end <= all[j].start {
      if j >= |a| {
        assert GoodReference(text, mid, b[j - |a|]);
      }
    }
  }

  lemma StandsLater(text: string, offset: nat, content: string)
    requires offset <= |text| && StandsAt(text[offset..], 0, content)
    ensures StandsAt(text, offset, content)
  {
    var rest := text[offset..];
    assert rest[0..|content|] == text[offset..offset + |content|];
    assert |content| < |rest| ==> rest[|content|] == text[offset + |content|];
  }

  /** The pieces lie in the text one after the other from `offset` on. */
  ghost predicate Placed(text: string, offset: nat, pieces: seq<Piece>)
    decreases pieces
  {
    pieces == [] || (PlacedOne(text, offset, pieces[0]) && Placed(text, offset + pieces[0].length, pieces[1..]))
  }

  ghost predicate PlacedOne(text: string, offset: nat, p: Piece) {
    '\n' !in p.content && |p.content| <= p.length && StandsAt(text, offset, p.content) && GoodReferences(p.content, 0, p.refs)
  }

  lemma PlacedCons(text: string, offset: nat, p: Piece, rest: seq<Piece>)
    requires PlacedOne(text, offset, p) && Placed(text, offset + p.length, rest)
    ensures Placed(text, offset, [p] + rest)
  {
    assert ([p] + rest)[1..] == rest;
  }

  /** The pieces of these lines, whatever parses them, as long as its references are good. */
  ghost predicate Fits(pieces: seq<Piece>, lines: seq<string>)
    decreases pieces
  {
    || (pieces == [] && lines == [])
    || (pieces != [] && lines != [] && FitsOne(pieces[0], lines[0]) && Fits(pieces[1..], lines[1..]))
  }

  ghost predicate FitsOne(p: Piece, line: string) {
    p.content == Content(line) && p.length == |line| && GoodReferences(p.content, 0, p.refs)
  }

  lemma TextPieceFits(line: string)
    ensures FitsOne(PieceOf(line, TextReferences), line)
  {
    if Valid(Content(line)) {
      LineIsGood(Content(line), 0, None);
    }
  }

  lemma {:induction false} TextPiecesFit(lines: seq<string>)
    ensures Fits(PiecesOf(lines, TextReferences), lines)
  {
    if lines != [] {
      TextPieceFits(lines[0]);
      TextPiecesFit(lines[1..]);
      var p, rest := PieceOf(lines[0], TextReferences), PiecesOf(lines[1..], TextReferences);
      assert ([p] + rest)[1..] == rest;
    }
  }

  lemma FirstIsPlaced(text: string, offset: nat, line: string, p: Piece)
    requires offset < |text| && line == SplitInclusive(text[offset..])[0] && FitsOne(p, line)
    ensures PlacedOne(text, offset, p)
  {
    FirstLineOf(text[offset..]);
    StandsLater(text, offset, Content(line));
  }

  lemma RestOfLines(text: string, offset: nat)
    requires offset < |text|
    ensures var lines := SplitInclusive(text[offset..]);
      && lines != [] && 0 < |lines[0]| && offset + |lines[0]| <= |text|
      && lines[1..] == SplitInclusive(text[offset + |lines[0]|..])
  {
    FirstLineOf(text[offset..]);
    var line := SplitInclusive(text[offset..])[0];
    assert text[offset..][|line|..] == text[offset + |line|..];
  }

  lemma FitsHead(pieces: seq<Piece>, lines: seq<string>) returns (p: Piece, rest: seq<Piece>)
    requires Fits(pieces, lines) && lines != []
    ensures pieces == [p] + rest && FitsOne(p, lines[0]) && Fits(rest, lines[1..])
  {
    p, rest := pieces[0], pieces[1..];
  }

  lemma PlaceFirst(text: string, offset: nat, pieces: seq<Piece>) returns (p: Piece, rest: seq<Piece>)
    requires offset < |text| && Fits(pieces, SplitInclusive(text[offset..]))
    ensures pieces == [p] + rest && PlacedOne(text, offset, p)
    ensures 0 < p.length && offset + p.length <= |text|
    ensures Fits(rest, SplitInclusive(text[offset + p.length..]))
  {
    hide *;
    RestOfLines(text, offset);
    p, rest := FitsHead(pieces, SplitInclusive(text[offset..]));
    FirstIsPlaced(text, offset, SplitInclusive(text[offset..])[0], p);
  }

  lemma PlacedNone(text: string, pieces: seq<Piece>)
    ensures Fits(pieces, SplitInclusive(text[|text|..])) ==> Placed(text, |text|, pieces)
  {
  }

  lemma {:induction false} LinesArePlaced(text: string, offset: nat, pieces: seq<Piece>)
    requires offset <= |text| && Fits(pieces, SplitInclusive(text[offset..]))
    ensures Placed(text, offset, pieces)
    decreases |text| - offset
  {
    hide *;
    if offset == |text| {
      PlacedNone(text, pieces);
    } else {
      var p, rest := PlaceFirst(text, offset, pieces);
      LinesArePlaced(text, offset + p.length, rest);
      PlacedCons(text, offset, p, rest);
    }
  }

  lemma NothingIsGood(text: string, offset: nat, fence: Option<Fence>)
    ensures GoodReferences(text, offset, Document([], offset, fence)) && InOneLine(text, Document([], offset, fence))
  {
  }

  lemma PlacedHead(text: string, offset: nat, pieces: seq<Piece>) returns (p: Piece, rest: seq<Piece>)
    requires pieces != [] && Placed(text, offset, pieces)
    ensures pieces == [p] + rest && PlacedOne(text, offset, p) && Placed(text, offset + p.length, rest)
  {
    p, rest := pieces[0], pieces[1..];
  }

  lemma PieceIsGood(text: string, offset: nat, p: Piece, fence: Option<Fence>)
    requires PlacedOne(text, offset, p)
    ensures var refs := Shift(PieceReferences(p, fence), offset);
      && GoodReferences(text, offset, refs) && InOneLine(text, refs)
      && forall i :: 0 <= i < |refs| ==> refs[i].end <= offset + p.length
  {
    hide Shift, Spelled, GoodReference;
    ShiftedAreGood(text, offset, p.content, PieceReferences(p, fence));
  }

  lemma DocumentStepGood(text: string, offset: nat, p: Piece, rest: seq<Piece>, fence: Option<Fence>)
    requires PlacedOne(text, offset, p)
    requires var refs := Document(rest, offset + p.length, NextFence(p.content, fence));
      GoodReferences(text, offset + p.length, refs) && InOneLine(text, refs)
    ensures var refs := Document([p] + rest, offset, fence); GoodReferences(text, offset, refs) && InOneLine(text, refs)
  {
    hide *;
    DocumentCons(p, rest, offset, fence);
    PieceIsGood(text, offset, p, fence);
    GoodConcat(text, offset, offset + p.length, Shift(PieceReferences(p, fence), offset),
               Document(rest, offset + p.length, NextFence(p.content, fence)));
  }

  lemma {:induction false} DocumentIsGood(text: string, offset: nat, pieces: seq<Piece>, fence: Option<Fence>)
    requires Placed(text, offset, pieces)
    ensures GoodReferences(text, offset, Document(pieces, offset, fence)) && InOneLine(text, Document(pieces, offset, fence))
    decreases |pieces|
  {
    hide *;
    if pieces == [] {
      NothingIsGood(text, offset, fence);
    } else {
      var p, rest := PlacedHead(text, offset, pieces);
      DocumentIsGood(text, offset + p.length, rest, NextFence(p.content, fence));
      DocumentStepGood(text, offset, p, rest, fence);
    }
  }

  /**
   For every valid UTF-8 document: all spans are in bounds, non-empty, on character boundaries,
   strictly increasing, disjoint and within one line, and every span is spelled as its kind and
   its target say.
   */
  lemma SpansAreGood(text: Utf8Text)
    ensures GoodReferences(text, 0, References(text)) && InOneLine(text, References(text))
  {
    assert text[0..] == text;
    TextPiecesFit(SplitInclusive(text));
    LinesArePlaced(text, 0, Pieces(text));
    DocumentIsGood(text, 0, Pieces(text), None);
  }

  // ---------- parsing is compositional ----------

  function Total(pieces: seq<Piece>): nat {
    if pieces == [] then 0 else pieces[0].length + Total(pieces[1..])
  }

  predicate WholeLines(text: string) {
    text == "" || text[|text| - 1] == '\n'
  }

  type Line = s: string | '\n' !in s witness ""

  lemma SplitFirst(x: Line, rest: string)
    ensures SplitInclusive((x + "\n") + rest) == [x + "\n"] + SplitInclusive(rest)
  {
    var t := (x + "\n") + rest;
    assert forall j :: 0 <= j < |x| ==> t[j] == x[j];
    IndexOfIs(t, '\n', |x|);
    assert t[..|x| + 1] == x + "\n" && t[|x| + 1..] == rest;
  }

  lemma CutFirst(a: string) returns (x: string, t: string)
    requires WholeLines(a) && a != ""
    ensures '\n' !in x && a == (x + "\n") + t && WholeLines(t) && |t| < |a|
  {
    var i := IndexOf(a, '\n');
    assert i < |a|;
    x, t := a[..i], a[i + 1..];
    assert t != "" ==> t[|t| - 1] == a[|a| - 1];
  }

  lemma PiecesFirst(x: Line, rest: string, parse: string -> seq<Reference>)
    ensures PiecesOf(SplitInclusive((x + "\n") + rest), parse) == [PieceOf(x + "\n", parse)] + PiecesOf(SplitInclusive(rest), parse)
  {
    SplitFirst(x, rest);
    PiecesCons(x + "\n", SplitInclusive(rest), parse);
  }

  lemma PiecesConcatStep(x: Line, t: string, b: string, parse: string -> seq<Reference>)
    requires PiecesOf(SplitInclusive(t + b), parse) == PiecesOf(SplitInclusive(t), parse) + PiecesOf(SplitInclusive(b), parse)
    ensures PiecesOf(SplitInclusive((x + "\n") + (t + b)), parse)
         == PiecesOf(SplitInclusive((x + "\n") + t), parse) + PiecesOf(SplitInclusive(b), parse)
  {
    PiecesFirst(x, t + b, parse);
    PiecesFirst(x, t, parse);
    Associate([PieceOf(x + "\n", parse)], PiecesOf(SplitInclusive(t), parse), PiecesOf(SplitInclusive(b), parse));
  }

  lemma {:induction false} PiecesConcat(a: string, b: string, parse: string -> seq<Reference>)
    requires WholeLines(a)
    ensures PiecesOf(SplitInclusive(a + b), parse) == PiecesOf(SplitInclusive(a), parse) + PiecesOf(SplitInclusive(b), parse)
    decreases |a|
  {
    if a == "" {
      assert a + b == b;
    } else {
      var x, t := CutFirst(a);
      PiecesConcat(t, b, parse);
      PiecesConcatStep(x, t, b, parse);
      Associate(x + "\n", t, b);
    }
  }

  lemma PiecesCons(line: string, rest: seq<string>, parse: string -> seq<Reference>)
    ensures PiecesOf([line] + rest, parse) == [PieceOf(line, parse)] + PiecesOf(rest, parse)
  {
    assert ([line] + rest)[1..] == rest;
  }

  lemma TotalCons(p: Piece, rest: seq<Piece>)
    ensures Total([p] + rest) == p.length + Total(rest)
  {
    assert ([p] + rest)[1..] == rest;
  }

  lemma {:induction false} TotalOf(text: string, parse: string -> seq<Reference>)
    ensures Total(PiecesOf(SplitInclusive(text), parse)) == |text|
    decreases |text|
  {
    if text != "" {
      var lines := SplitInclusive(text);
      FirstLineOf(text);
      TotalOf(text[|lines[0]|..], parse);
      TotalCons(PieceOf(lines[0], parse), PiecesOf(lines[1..], parse));
    }
  }

  lemma FenceAfterCons(p: Piece, rest: seq<Piece>, fence: Option<Fence>)
    ensures FenceAfter([p] + rest, fence) == FenceAfter(rest, NextFence(p.content, fence))
  {
    assert ([p] + rest)[1..] == rest;
  }

  lemma DocumentNone(y: seq<Piece>, offset: nat, fence: Option<Fence>)
    ensures Document([] + y, offset, fence) == Document([], offset, fence) + Document(y, offset + Total([]), FenceAfter([], fence))
  {
    hide Shift, PieceReferences, NextFence;
    assert [] + y == y;
    assert Document([], offset, fence) == [] && Total([]) == 0 && FenceAfter([], fence) == fence;
    assert [] + Document(y, offset, fence) == Document(y, offset, fence);
  }

  lemma DocumentConcatStep(p: Piece, t: seq<Piece>, y: seq<Piece>, offset: nat, fence: Option<Fence>)
    requires var end, next := offset + p.length, NextFence(p.content, fence);
      Document(t + y, end, next) == Document(t, end, next) + Document(y, end + Total(t), FenceAfter(t, next))
    ensures Document([p] + (t + y), offset, fence)
         == Document([p] + t, offset, fence) + Document(y, offset + Total([p] + t), FenceAfter([p] + t, fence))
  {
    hide *;
    var end, next := offset + p.length, NextFence(p.content, fence);
    DocumentCons(p, t + y, offset, fence);
    DocumentCons(p, t, offset, fence);
    TotalCons(p, t);
    FenceAfterCons(p, t, fence);
    Associate(Shift(PieceReferences(p, fence), offset), Document(t, end, next), Document(y, end + Total(t), FenceAfter(t, next)));
  }

  lemma {:induction false} DocumentConcat(x: seq<Piece>, y: seq<Piece>, offset: nat, fence: Option<Fence>)
    ensures Document(x + y, offset, fence) == Document(x, offset, fence) + Document(y, offset + Total(x), FenceAfter(x, fence))
  {
    hide *;
    if x == [] {
      DocumentNone(y, offset, fence);
    } else {
      var p, t := x[0], x[1..];
      DocumentConcat(t, y, offset + p.length, NextFence(p.content, fence));
      DocumentConcatStep(p, t, y, offset, fence);
      HeadAndTail(x);
      Associate([p], t, y);
    }
  }

  lemma {:induction false} ShiftTwice(refs: seq<Reference>, offset: nat, distance: nat)
    ensures Shift(Shift(refs, offset), distance) == Shift(refs, offset + distance)
  {
    if refs != [] {
      ShiftTwice(refs[1..], offset, distance);
      ShiftCons(Moved(refs[0], offset), Shift(refs[1..], offset), distance);
    }
  }

  lemma ShiftNothing(distance: nat)
    ensures Shift([], distance) == []
  {
  }

  lemma {:induction false} DocumentShift(pieces: seq<Piece>, offset: nat, distance: nat, fence: Option<Fence>)
    ensures Document(pieces, offset + distance, fence) == Shift(Document(pieces, offset, fence), distance)
  {
    hide *;
    if pieces == [] {
      DocumentEmpty(offset, fence);
      DocumentEmpty(offset + distance, fence);
      ShiftNothing(distance);
    } else {
      var p, t := pieces[0], pieces[1..];
      DocumentShift(t, offset + p.length, distance, NextFence(p.content, fence));
      DocumentShiftStep(p, t, offset, distance, fence);
      HeadAndTail(pieces);
    }
  }

  lemma DocumentShiftStep(p: Piece, t: seq<Piece>, offset: nat, distance: nat, fence: Option<Fence>)
    requires var end, next := offset + p.length, NextFence(p.content, fence);
      Document(t, end + distance, next) == Shift(Document(t, end, next), distance)
    ensures Document([p] + t, offset + distance, fence) == Shift(Document([p] + t, offset, fence), distance)
  {
    hide *;
    var head, end, next := PieceReferences(p, fence), offset + p.length, NextFence(p.content, fence);
    DocumentCons(p, t, offset, fence);
    DocumentCons(p, t, offset + distance, fence);
    ShiftConcat(Shift(head, offset), Document(t, end, next), distance);
    ShiftTwice(head, offset, distance);
  }

  lemma DocumentParts(x: seq<Piece>, y: seq<Piece>)
    requires FenceAfter(x, None).None?
    ensures Document(x + y, 0, None) == Document(x, 0, None) + Shift(Document(y, 0, None), Total(x))
  {
    DocumentConcat(x, y, 0, None);
    DocumentShift(y, 0, Total(x), None);
  }

  /** Cutting a document after a newline outside any fence parses the two parts independently. */
  lemma ParsingIsCompositional(a: string, b: string)
    requires Valid(a) && Valid(b) && WholeLines(a)
    requires FenceAfter(Pieces(a), None).None?
    ensures Valid(a + b)
    ensures References(a + b) == References(a) + Shift(References(b), |a|)
  {
    Concat(a, b);
    PiecesConcat(a, b, TextReferences);
    TotalOf(a, TextReferences);
    DocumentParts(Pieces(a), Pieces(b));
  }

  // ---------- line endings ----------

  /** The same document with `\r\n` line breaks. */
  function Crlf(text: string): string {
    if text == "" then "" else (if text[0] == '\n' then "\r\n" else [text[0]]) + Crlf(text[1..])
  }

  function Newlines(text: string): nat {
    if text == "" then 0 else Newlines(text[..|text| - 1]) + (if text[|text| - 1] == '\n' then 1 else 0)
  }

  lemma CrlfStep(c: char, rest: string)
    ensures Crlf([c] + rest) == (if c == '\n' then "\r\n" else [c]) + Crlf(rest)
  {
    assert ([c] + rest)[1..] == rest;
  }

  lemma {:induction false} CrlfConcat(a: string, b: string)
    ensures Crlf(a + b) == Crlf(a) + Crlf(b)
  {
    if a == "" {
      assert a + b == b;
    } else {
      CrlfConcat(a[1..], b);
      CrlfStep(a[0], a[1..] + b);
      CrlfStep(a[0], a[1..]);
      assert a == [a[0]] + a[1..];
      assert a + b == [a[0]] + (a[1..] + b);
      Associate(if a[0] == '\n' then "\r\n" else [a[0]], Crlf(a[1..]), Crlf(b));
    }
  }

  lemma {:induction false} CrlfPlain(a: Line)
    ensures Crlf(a) == a
  {
    if a != "" {
      CrlfPlain(a[1..]);
      assert a == [a[0]] + a[1..];
    }
  }

  lemma CrlfLine(x: Line)
    ensures Crlf(x + "\n") == x + "\r\n"
  {
    CrlfConcat(x, "\n");
    CrlfPlain(x);
    assert Crlf("\n") == "\r\n" + Crlf("\n"[1..]);
    assert "\n"[1..] == "" && "\r\n" + "" == "\r\n";
  }

  lemma {:induction false} CrlfValid(text: Utf8Text)
    ensures Valid(Crlf(text))
    decreases |text|
  {
    if text != "" {
      var n := CharLen(text);
      CrlfValid(text[n..]);
      assert text == text[..n] + text[n..];
      CrlfConcat(text[..n], text[n..]);
      Next(text, 0);
      assert text[0..] == text;
      Prefix(text, n);
      if text[0] == '\n' {
        assert text[..n] == [] + "\n";
        CrlfLine([]);
        Ascii("\r\n");
        assert [] + "\r\n" == "\r\n";
        Concat("\r\n", Crlf(text[n..]));
      } else {
        CrlfPlain(text[..n]);
        Concat(text[..n], Crlf(text[n..]));
      }
    }
  }

  /** A line's content does not depend on how the line ends. */
  lemma CrlfContent(line: string)
    requires line != "" && '\r' !in line && '\n' !in line[..|line| - 1]
    ensures Content(Crlf(line)) == Content(line)
    ensures |Crlf(line)| == |line| + (if line[|line| - 1] == '\n' then 1 else 0)
  {
    hide *;
    if line[|line| - 1] == '\n' {
      var x := line[..|line| - 1];
      LastChar(line);
      CrlfLine(x);
      ContentOf(x);
    } else {
      CrlfPlain(line);
    }
  }

  lemma LastChar(line: NonEmpty)
    ensures line == line[..|line| - 1] + [line[|line| - 1]]
  {
  }

  type NoReturn = s: string | '\r' !in s witness ""

  lemma ContentOf(x: NoReturn)
    ensures Content(x + "\n") == x && Content(x + "\r\n") == x
  {
    assert (x + "\n")[..|x|] == x;
    assert (x + "\r\n")[..|x| + 1] == x + "\r";
    assert (x + "\r")[..|x|] == x;
  }

  lemma CrlfFirst(text: string)
    requires text != "" && '\r' !in text
    ensures var line := SplitInclusive(text)[0];
      && SplitInclusive(Crlf(text)) == [Crlf(line)] + SplitInclusive(Crlf(text[|line|..]))
  {
    var i := IndexOf(text, '\n');
    if i == |text| {
      CrlfPlain(text);
      assert text[|text|..] == "";
    } else {
      var x, rest := text[..i], text[i + 1..];
      assert text[..i + 1] == x + "\n";
      assert text == (x + "\n") + rest;
      CrlfSplit(x, rest);
    }
  }

  lemma CrlfSplit(x: Line, rest: string)
    ensures SplitInclusive(Crlf((x + "\n") + rest)) == [Crlf(x + "\n")] + SplitInclusive(Crlf(rest))
  {
    hide *;
    CrlfConcat(x + "\n", rest);
    CrlfLine(x);
    Associate(x, "\r", "\n");
    assert "\r" + "\n" == "\r\n";
    SplitFirst(x + "\r", Crlf(rest));
  }

  lemma {:induction false} NewlinesConcat(a: string, b: string)
    ensures Newlines(a + b) == Newlines(a) + Newlines(b)
    decreases |b|
  {
    if b == "" {
      assert a + b == a;
    } else {
      NewlinesConcat(a, b[..|b| - 1]);
      assert (a + b)[..|a + b| - 1] == a + b[..|b| - 1];
    }
  }

  lemma {:induction false} NoNewlines(a: Line)
    ensures Newlines(a) == 0
    decreases |a|
  {
    if a != "" {
      NoNewlines(a[..|a| - 1]);
    }
  }

  /** Each reference moved by the number of line breaks before it. */
  function Relocate(refs: seq<Reference>, text: string): seq<Reference> {
    if refs == [] then []
    else
      [if refs[0].start <= |text| then Moved(refs[0], Newlines(text[..refs[0].start])) else refs[0]]
      + Relocate(refs[1..], text)
  }

  lemma {:induction false} RelocateConcat(a: seq<Reference>, b: seq<Reference>, text: string)
    ensures Relocate(a + b, text) == Relocate(a, text) + Relocate(b, text)
  {
    if a == [] {
      assert a + b == b;
    } else {
      RelocateConcat(a[1..], b, text);
      assert (a + b)[1..] == a[1..] + b;
    }
  }

  lemma NewlinesInside(text: string, offset: nat, content: string, k: nat)
    requires StandsAt(text, offset, content) && '\n' !in content && k <= |content|
    ensures Newlines(text[..offset + k]) == Newlines(text[..offset])
  {
    var x := content[..k];
    assert text[offset..offset + k] == text[offset..offset + |content|][..k];
    assert text[..offset + k] == text[..offset] + x;
    NewlinesConcat(text[..offset], x);
    NoNewlines(x);
  }

  lemma {:induction false} RelocateLine(refs: seq<Reference>, text: string, offset: nat, content: string)
    requires StandsAt(text, offset, content) && '\n' !in content
    requires forall i :: 0 <= i < |refs| ==> refs[i].start <= |content|
    ensures Relocate(Shift(refs, offset), text) == Shift(refs, offset + Newlines(text[..offset]))
  {
    if refs != [] {
      var n := Newlines(text[..offset]);
      NewlinesInside(text, offset, content, refs[0].start);
      RelocateLine(refs[1..], text, offset, content);
      assert Shift(refs, offset)[1..] == Shift(refs[1..], offset);
      assert Moved(Moved(refs[0], offset), n) == Moved(refs[0], offset + n);
    }
  }

  lemma LineNewlines(text: string, offset: nat, line: string)
    requires offset + |line| <= |text| && text[offset..offset + |line|] == line
    requires line != "" && '\n' !in line[..|line| - 1]
    ensures Newlines(text[..offset + |line|]) == Newlines(text[..offset]) + (if line[|line| - 1] == '\n' then 1 else 0)
  {
    assert text[..offset + |line|] == text[..offset] + line;
    NewlinesConcat(text[..offset], line);
    NoNewlines(line[..|line| - 1]);
  }

  /** The same pieces, each longer by the line break it ends with, if it ends with one. */
  ghost predicate Recoded(text: string, offset: nat, x: seq<Piece>, y: seq<Piece>)
    decreases x
  {
    && |x| == |y|
    && (x != [] ==>
      && offset + x[0].length <= |text|
      && y[0].content == x[0].content && y[0].refs == x[0].refs
      && y[0].length + Newlines(text[..offset]) == x[0].length + Newlines(text[..offset + x[0].length])
      && Recoded(text, offset + x[0].length, x[1..], y[1..]))
  }

  lemma RecodedCons(text: string, offset: nat, p: Piece, q: Piece, x: seq<Piece>, y: seq<Piece>)
    requires offset + p.length <= |text| && q.content == p.content && q.refs == p.refs
    requires q.length + Newlines(text[..offset]) == p.length + Newlines(text[..offset + p.length])
    requires Recoded(text, offset + p.length, x, y)
    ensures Recoded(text, offset, [p] + x, [q] + y)
  {
    assert ([p] + x)[1..] == x && ([q] + y)[1..] == y;
  }

  lemma FirstNewlines(text: string, offset: nat, line: string)
    requires offset < |text| && '\r' !in text && line == SplitInclusive(text[offset..])[0]
    ensures line != "" && '\r' !in line && '\n' !in line[..|line| - 1] && offset + |line| <= |text|
    ensures Newlines(text[..offset + |line|]) == Newlines(text[..offset]) + (if line[|line| - 1] == '\n' then 1 else 0)
  {
    hide Newlines, SplitInclusive, Content, StandsAt;
    FirstLineOf(text[offset..]);
    assert text[offset..offset + |line|] == line;
    LineNewlines(text, offset, line);
    assert forall c :: c in line ==> c in text;
  }

  lemma RecodeFirst(text: string, offset: nat, line: string, x: seq<Piece>, y: seq<Piece>, parse: string -> seq<Reference>)
    requires offset < |text| && '\r' !in text && line == SplitInclusive(text[offset..])[0]
    requires offset + |line| <= |text| && Recoded(text, offset + |line|, x, y)
    ensures Recoded(text, offset, [PieceOf(line, parse)] + x, [PieceOf(Crlf(line), parse)] + y)
  {
    hide Newlines, Recoded, Content, Crlf, SplitInclusive;
    FirstNewlines(text, offset, line);
    CrlfContent(line);
    RecodedCons(text, offset, PieceOf(line, parse), PieceOf(Crlf(line), parse), x, y);
  }

  lemma {:induction false} LinesAreRecoded(text: string, offset: nat, parse: string -> seq<Reference>)
    requires offset <= |text| && '\r' !in text
    ensures Recoded(text, offset, PiecesOf(SplitInclusive(text[offset..]), parse), PiecesOf(SplitInclusive(Crlf(text[offset..])), parse))
    decreases |text| - offset
  {
    if offset < |text| {
      var lines := SplitInclusive(text[offset..]);
      RestOfLines(text, offset);
      var line, end := lines[0], offset + |lines[0]|;
      var rest, rest' := SplitInclusive(text[end..]), SplitInclusive(Crlf(text[end..]));
      CrlfFirst(text[offset..]);
      assert text[offset..][|line|..] == text[end..];
      LinesAreRecoded(text, end, parse);
      RecodeFirst(text, offset, line, PiecesOf(rest, parse), PiecesOf(rest', parse), parse);
      PiecesCons(line, rest, parse);
      PiecesCons(Crlf(line), rest', parse);
      assert lines == [line] + rest;
    }
  }

  lemma RelocatePiece(p: Piece, fence: Option<Fence>, tail: seq<Reference>, text: string, offset: nat)
    requires PlacedOne(text, offset, p)
    ensures Relocate(Shift(PieceReferences(p, fence), offset) + tail, text)
         == Shift(PieceReferences(p, fence), offset + Newlines(text[..offset])) + Relocate(tail, text)
  {
    forall i | 0 <= i < |p.refs| ensures p.refs[i].start <= |p.content| {
      assert GoodReference(p.content, 0, p.refs[i]);
    }
    RelocateLine(PieceReferences(p, fence), text, offset, p.content);
    RelocateConcat(Shift(PieceReferences(p, fence), offset), tail, text);
  }

  lemma RecodedNone(text: string, offset: nat, moved: nat, y: seq<Piece>, fence: Option<Fence>)
    ensures offset <= |text| && Recoded(text, offset, [], y) ==> Document(y, moved, fence) == Relocate(Document([], offset, fence), text)
  {
  }

  lemma RecodedHead(text: string, offset: nat, x: seq<Piece>, y: seq<Piece>)
    returns (p: Piece, q: Piece, s: seq<Piece>, t: seq<Piece>)
    requires offset <= |text| && x != []
    requires Placed(text, offset, x) && Recoded(text, offset, x, y)
    ensures x == [p] + s && y == [q] + t
    ensures offset + p.length <= |text|
    ensures PlacedOne(text, offset, p) && Placed(text, offset + p.length, s) && Recoded(text, offset + p.length, s, t)
    ensures q.content == p.content && forall fence :: PieceReferences(q, fence) == PieceReferences(p, fence)
    ensures q.length + Newlines(text[..offset]) == p.length + Newlines(text[..offset + p.length])
  {
    p, q, s, t := x[0], y[0], x[1..], y[1..];
  }

  lemma {:induction false} RecodedDocument(text: string, offset: nat, moved: nat, x: seq<Piece>, y: seq<Piece>, fence: Option<Fence>)
    requires offset <= |text|
    requires moved == offset + Newlines(text[..offset])
    requires Placed(text, offset, x) && Recoded(text, offset, x, y)
    ensures Document(y, moved, fence) == Relocate(Document(x, offset, fence), text)
    decreases |x|
  {
    hide *;
    if x == [] {
      RecodedNone(text, offset, moved, y, fence);
    } else {
      var p, q, s, t := RecodedHead(text, offset, x, y);
      var end, next := offset + p.length, NextFence(p.content, fence);
      RecodedDocument(text, end, moved + q.length, s, t, next);
      RelocatePiece(p, fence, Document(s, end, next), text, offset);
      DocumentCons(p, s, offset, fence);
      DocumentCons(q, t, moved, fence);
    }
  }

  /**
   In a document without `\r`, writing every line break as `\r\n` changes no kind and no target;
   each span moves by exactly the number of line breaks before it.
   */
  lemma LineEndingsDoNotMatter(text: string)
    requires Valid(text) && '\r' !in text
    ensures Valid(Crlf(text))
    ensures References(Crlf(text)) == Relocate(References(text), text)
  {
    CrlfValid(text);
    assert text[0..] == text && Newlines(text[..0]) == 0;
    TextPiecesFit(SplitInclusive(text));
    LinesArePlaced(text, 0, Pieces(text));
    LinesAreRecoded(text, 0, TextReferences);
    RecodedDocument(text, 0, 0, Pieces(text), Pieces(Crlf(text)), None);
  }

  // ---------- code is opaque ----------

  /** Nothing inside an open fence is a reference, up to a line that closes it. */
  lemma {:induction false} FencedLinesAreSilent(pieces: seq<Piece>, offset: nat, fence: Fence)
    requires forall i :: 0 <= i < |pieces| ==> !FenceClose(pieces[i].content, fence)
    ensures Document(pieces, offset, Some(fence)) == [] && FenceAfter(pieces, Some(fence)) == Some(fence)
  {
    if pieces != [] {
      FencedLinesAreSilent(pieces[1..], offset + pieces[0].length, fence);
    }
  }

  /** Nothing in a code span is a reference, up to the next backtick. */
  lemma {:induction false} CodeSpanIsSilent(line: string, index: nat, stop: nat, length: nat)
    requires Valid(line) && index <= stop <= |line|
    requires forall i :: index <= i < stop ==> line[i] != '`' && line[i] != '\\'
    ensures LineReferences(line, index, Some(length)) == LineReferences(line, stop, Some(length))
    decreases stop - index
  {
    if index < stop {
      CodeSpanIsSilent(line, index + 1, stop, length);
    }
  }
}
