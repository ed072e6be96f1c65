/** The line parser misses nothing. */
module ReferenceLayout {
  import opened Wrappers
  import opened Text
  import opened Utf8
  import opened ReferenceParser
  import opened ReferenceSyntax
  import opened ReferenceReading
  import opened ReferenceProperties

  // Every reference of every line, exactly once and in order.

  // ---------- how a line is laid out ----------

  /** A line is made of prose, escaped characters, runs of backticks, and written references. */
  datatype Token = Prose(stop: nat) | Escaped(stop: nat) | Ticks(stop: nat) | Written(found: Found) {
    function End(): nat {
      if Written? then found.end else stop
    }
  }

  /** A backslash takes the next character with it, if there is one. */
  ghost predicate EscapeAt(line: string, i: nat, end: nat) {
    && i < |line| && line[i] == '\\'
    && if i + 1 == |line| then end == |line|
       else i + 1 < end && Boundary(line, end) && forall q :: i + 1 < q < end ==> !Boundary(line, q)
  }

  /** A whole run of backticks. */
  ghost predicate TicksAt(line: string, i: nat, end: nat) {
    && i < end <= |line| && (forall q :: i <= q < end ==> line[q] == '`')
    && (end < |line| ==> line[end] != '`')
  }

  /** Text without backticks and backslashes; outside code nothing in it spells a reference. */
  ghost predicate ProseAt(line: string, i: nat, code: Option<nat>, end: nat) {
    && i < end <= |line| && (forall q :: i <= q < end ==> line[q] != '`' && line[q] != '\\')
    && (code.None? ==> Boundary(line, end) && forall p, f :: i <= p < end && Boundary(line, p) ==> !SpelledAt(line, p, f))
  }

  ghost predicate TokenAt(line: string, i: nat, code: Option<nat>, t: Token) {
    match t
    case Prose(end) => ProseAt(line, i, code, end)
    case Escaped(end) => EscapeAt(line, i, end)
    case Ticks(end) => TicksAt(line, i, end)
    case Written(found) => code.None? && ReadsAs(line, i, found)
  }

  /** A run of backticks opens a code span, and a run of the same length closes it. */
  function CodeAfter(i: nat, code: Option<nat>, t: Token): Option<nat> {
    if !t.Ticks? || t.stop < i then code
    else
      match code
      case None => Some(t.stop - i)
      case Some(n) => if n == t.stop - i then None else code
  }

  /** The tokens follow each other from `i` to the end of the line. */
  ghost predicate Laid(line: string, i: nat, code: Option<nat>, tokens: seq<Token>)
    decreases |tokens|
  {
    if tokens == [] then i == |line|
    else TokenAt(line, i, code, tokens[0]) && Laid(line, tokens[0].End(), CodeAfter(i, code, tokens[0]), tokens[1..])
  }

  /** The written references, each with its span. */
  function WrittenIn(i: nat, tokens: seq<Token>): seq<Reference>
    decreases |tokens|
  {
    if tokens == [] then []
    else
      (match tokens[0]
       case Written(f) => [Reference(f.kind, f.target, i, f.end)]
       case _ => []) + WrittenIn(tokens[0].End(), tokens[1..])
  }

  // ---------- the parser reads every layout ----------

  lemma {:induction false} ProseIsSilent(line: string, i: nat, end: nat)
    requires Valid(line) && i <= end && Boundary(line, i) && Boundary(line, end)
    requires forall q :: i <= q < end ==> line[q] != '`' && line[q] != '\\'
    requires forall p, f :: i <= p < end && Boundary(line, p) ==> !SpelledAt(line, p, f)
    ensures LineReferences(line, i, None) == LineReferences(line, end, None)
    decreases end - i
  {
    hide Valid, ReferenceAt, SpelledAt;
    if i < end {
      NothingFoundExact(line, i);
      NextBoundary(line, i, end);
      ProseIsSilent(line, SkipChar(line, i), end);
    }
  }

  lemma NextBoundary(line: string, i: nat, end: nat)
    requires Valid(line) && i < end && Boundary(line, i) && Boundary(line, end)
    ensures SkipChar(line, i) <= end
  {
    hide Valid;
    Next(line, i);
    WithinCharacter(line, i, end);
  }

  lemma WithinCharacter(line: string, i: nat, q: nat)
    ensures i < q && i < |line| && q < i + CharLen(line[i..]) ==> q < |line| && IsContinuation(line[q])
  {
    if i < q && i < |line| && q < i + CharLen(line[i..]) {
      assert line[i..][q - i] == line[q];
    }
  }

  lemma EscapeSkips(line: string, i: nat, end: nat)
    requires Valid(line) && EscapeAt(line, i, end)
    ensures SkipEscape(line, i) == end
  {
    hide Valid;
    AsciiNext(line, i);
    if i + 1 < |line| {
      Next(line, i + 1);
      WithinCharacter(line, i + 1, end);
    }
  }

  lemma TicksRun(line: string, i: nat, end: nat)
    requires TicksAt(line, i, end)
    ensures RunLength(line, i, '`') == end - i
  {
  }

  /** Where the line goes on after a token, and what the token adds. */
  lemma TokenReads(line: string, i: nat, code: Option<nat>, t: Token)
    requires Valid(line) && i <= |line| && (code.None? ==> Boundary(line, i)) && TokenAt(line, i, code, t)
    ensures var next := CodeAfter(i, code, t);
      && i < t.End() <= |line| && (next.None? ==> Boundary(line, t.End()))
      && LineReferences(line, i, code) == WrittenIn(i, [t]) + LineReferences(line, t.End(), next)
  {
    hide Valid, ReferenceAt, SpelledAt, ReadsAs, RunLength, SkipEscape;
    assert WrittenIn(t.End(), [t][1..]) == [];
    match t
    case Prose(end) =>
      if code.None? {
        ProseIsSilent(line, i, end);
      } else {
        CodeSpanIsSilent(line, i, end, code.value);
      }
    case Escaped(end) =>
      EscapeSkips(line, i, end);
    case Ticks(end) =>
      TicksRun(line, i, end);
      AsciiNext(line, end - 1);
    case Written(f) =>
      WrittenReads(line, i, f);
  }

  lemma WrittenReads(line: string, i: nat, f: Found)
    requires Valid(line) && Boundary(line, i) && ReadsAs(line, i, f)
    ensures i < f.end <= |line| && Boundary(line, f.end)
    ensures LineReferences(line, i, None) == [Reference(f.kind, f.target, i, f.end)] + LineReferences(line, f.end, None)
  {
    hide Valid, ReferenceAt, Spelled, NoWikiAt, UrlSpan;
    FoundExact(line, i, f);
    SpelledStart(line, i, f);
  }

  /** References start with a bracket, an exclamation mark or a scheme. */
  lemma SpelledStart(line: string, p: nat, f: Found)
    requires SpelledAt(line, p, f)
    ensures line[p] == '[' || line[p] == '!' || line[p] == 'h'
  {
    assert line[p..f.end][0] == line[p];
  }

  lemma WrittenCons(i: nat, t: Token, rest: seq<Token>)
    ensures WrittenIn(i, [t] + rest) == WrittenIn(i, [t]) + WrittenIn(t.End(), rest)
  {
    assert ([t] + rest)[1..] == rest && [t][1..] == [];
  }

  /** However a line is laid out, the parser returns exactly its written references, in order, with their spans. */
  lemma {:induction false} LaidIsRead(line: string, i: nat, code: Option<nat>, tokens: seq<Token>)
    requires Valid(line) && i <= |line| && (code.None? ==> Boundary(line, i)) && Laid(line, i, code, tokens)
    ensures LineReferences(line, i, code) == WrittenIn(i, tokens)
    decreases |tokens|
  {
    hide Valid, TokenAt, CodeAfter, WrittenIn, LineReferences;
    if tokens == [] {
      NothingLeft(line, code);
    } else {
      var t, rest := tokens[0], tokens[1..];
      HeadAndTail(tokens);
      TokenReads(line, i, code, t);
      LaidIsRead(line, t.End(), CodeAfter(i, code, t), rest);
      WrittenCons(i, t, rest);
    }
  }

  lemma NothingLeft(line: string, code: Option<nat>)
    requires Valid(line)
    ensures LineReferences(line, |line|, code) == WrittenIn(|line|, [])
  {
  }

  // ---------- every line has a layout ----------

  lemma OneEscape(line: string, i: nat)
    requires Valid(line) && i < |line| && line[i] == '\\'
    ensures EscapeAt(line, i, SkipEscape(line, i)) && SkipEscape(line, i) <= |line|
  {
    hide Valid;
    AsciiNext(line, i);
    if i + 1 < |line| {
      Next(line, i + 1);
      var n := CharLen(line[i + 1..]);
      forall q | i + 1 < q < i + 1 + n ensures !Boundary(line, q) {
        WithinCharacter(line, i + 1, q);
      }
    }
  }

  lemma OneCharacter(line: string, i: nat)
    requires Valid(line) && i < |line| && Boundary(line, i) && line[i] != '`' && line[i] != '\\'
    requires forall f :: !SpelledAt(line, i, f)
    ensures ProseAt(line, i, None, SkipChar(line, i))
  {
    hide Valid, SpelledAt;
    Next(line, i);
    var n := CharLen(line[i..]);
    forall q | i < q < i + n ensures !Boundary(line, q) && line[q] != '`' && line[q] != '\\' {
      WithinCharacter(line, i, q);
    }
  }

  /** The token that starts at a place. */
  lemma SomeToken(line: string, i: nat, code: Option<nat>) returns (t: Token)
    requires Valid(line) && i < |line| && (code.None? ==> Boundary(line, i))
    ensures TokenAt(line, i, code, t)
  {
    hide Valid, ReferenceAt, SpelledAt, ReadsAs;
    if line[i] == '\\' {
      OneEscape(line, i);
      t := Escaped(SkipEscape(line, i));
    } else if line[i] == '`' {
      t := Ticks(i + RunLength(line, i, '`'));
    } else if code.Some? {
      t := Prose(i + 1);
    } else if ReferenceAt(line, i).Some? {
      t := Written(ReferenceAt(line, i).value);
      FoundExact(line, i, t.found);
    } else {
      NothingFoundExact(line, i);
      OneCharacter(line, i);
      t := Prose(SkipChar(line, i));
    }
  }

  lemma {:induction false} EveryLineIsLaid(line: string, i: nat, code: Option<nat>) returns (tokens: seq<Token>)
    requires Valid(line) && i <= |line| && (code.None? ==> Boundary(line, i))
    ensures Laid(line, i, code, tokens)
    decreases |line| - i
  {
    hide Valid, TokenAt, CodeAfter;
    if i == |line| {
      tokens := [];
    } else {
      var t := SomeToken(line, i, code);
      TokenReads(line, i, code, t);
      var rest := EveryLineIsLaid(line, t.End(), CodeAfter(i, code, t));
      tokens := [t] + rest;
      assert tokens[1..] == rest;
    }
  }

  /**
   Completeness: the references of a line are those of every layout of it, and there is one. So every
   reference that is written outside code and escapes, and not inside another one, is returned, in
   order, with its span, and nothing else is.
   */
  lemma LineExact(line: Utf8Text, refs: seq<Reference>)
    ensures LineReferences(line, 0, None) == refs <==> exists tokens :: Laid(line, 0, None, tokens) && WrittenIn(0, tokens) == refs
  {
    hide Valid, Laid, WrittenIn, LineReferences;
    StartsBoundary(line);
    var some := EveryLineIsLaid(line, 0, None);
    LaidIsRead(line, 0, None, some);
    if tokens :| Laid(line, 0, None, tokens) && WrittenIn(0, tokens) == refs {
      LaidIsRead(line, 0, None, tokens);
    }
  }

  lemma StartsBoundary(line: Utf8Text)
    ensures Boundary(line, 0)
  {
  }
}
