/**
 How references are spelled: what the parser finds is what was written, and the other way round.

 Each of the three syntaxes has a predicate that says how a span is spelled, a theorem that every
 find is spelled so, and a theorem that what an author spells so is found.
 */
module ReferenceSyntax {
  import opened Wrappers
  import opened Text
  import opened Utf8
  import opened ReferenceParser

  /** The text of a wiki reference between its brackets: the target, and an alias after a bar. */
  predicate WikiInside(inner: string, target: string) {
    '|' !in target && (inner == target || target + "|" <= inner)
  }

  /** Nothing in the text closes a wiki reference, and it does not end halfway through a close. */
  predicate NoClose(s: string) {
    forall k :: 0 <= k < |s| && s[k] == ']' ==> k + 1 < |s| && s[k + 1] != ']'
  }

  ghost predicate SpelledWiki(open: string, target: string, text: string) {
    exists inner: string :: text == open + (inner + "]]") && WikiInside(inner, target) && NoClose(inner)
  }

  ghost predicate SpelledLink(open: string, target: string, text: string) {
    exists caption: string :: text == open + (caption + ("](" + (target + ")"))) && ']' !in caption && ')' !in target
  }

  /** The text of a reference of this kind to this target. */
  ghost predicate Spelled(kind: ReferenceKind, target: string, text: string) {
    match kind
    case WikiLink => SpelledWiki("[[", target, text)
    case WikiEmbed => SpelledWiki("![[", target, text)
    case MarkdownLink => SpelledLink("[", target, text)
    case MarkdownImage => SpelledLink("![", target, text)
    case ExternalUrl => text == target && ("https://" <= target || "http://" <= target)
  }

  lemma CutSpan(line: string, a: nat, b: nat, c: nat)
    ensures a <= b <= c <= |line| ==> line[a..c] == line[a..b] + line[b..c]
  {
  }

  lemma OpensWith(line: string, start: nat, open: string)
    ensures start <= |line| && open <= line[start..] ==> start + |open| <= |line| && line[start..start + |open|] == open
  {
  }

  lemma WikiFound(line: string, start: nat, inside: nat, kind: ReferenceKind) returns (inner: string)
    requires Valid(line) && start < inside && Boundary(line, inside)
    requires WikiInner(line, start, inside, kind).Some?
    ensures var f := WikiInner(line, start, inside, kind).value;
      && f.kind == kind && f.end == inside + |inner| + 2 <= |line|
      && line[inside..inside + |inner|] == inner && line[inside + |inner|..f.end] == "]]"
      && WikiInside(inner, f.target) && NoClose(inner)
  {
    hide Valid, NoClose;
    var close := FindClose(line[inside..]).value;
    inner := line[inside..inside + close];
    FirstClose(line[inside..]);
    assert line[inside..][..close] == inner;
    assert line[inside..][close] == ']' && line[inside..][close + 1] == ']';
  }

  /** The close that is found is the first one. */
  lemma {:induction false} FirstClose(s: string)
    ensures FindClose(s).Some? ==> NoClose(s[..FindClose(s).value])
  {
    if |s| >= 2 && !(s[0] == ']' && s[1] == ']') {
      FirstClose(s[1..]);
      if FindClose(s[1..]).Some? {
        var n := FindClose(s[1..]).value;
        assert s[..n + 1] == [s[0]] + s[1..][..n];
        assert n > 0 ==> s[1..][..n][0] == s[1];
      }
    }
  }

  lemma WikiIsSpelled(line: string, start: nat, open: string, kind: ReferenceKind)
    requires Valid(line) && open != "" && start + |open| <= |line| && Boundary(line, start + |open|)
    requires line[start..start + |open|] == open
    requires WikiInner(line, start, start + |open|, kind).Some?
    ensures var f := WikiInner(line, start, start + |open|, kind).value;
      f.kind == kind && start <= f.end <= |line| && SpelledWiki(open, f.target, line[start..f.end])
  {
    hide Valid, WikiInner, Boundary, NoClose;
    var inside := start + |open|;
    var inner := WikiFound(line, start, inside, kind);
    var end := inside + |inner| + 2;
    CutSpan(line, start, inside, end);
    CutSpan(line, inside, inside + |inner|, end);
  }

  lemma LinkFound(line: string, start: nat, inside: nat, kind: ReferenceKind) returns (words: string)
    requires Valid(line) && start < inside && Boundary(line, inside)
    requires LinkTail(line, start, inside, kind).Some?
    ensures var f := LinkTail(line, start, inside, kind).value;
      var tail := inside + |words|;
      && f.kind == kind && tail + 2 <= f.end - 1 && f.end <= |line|
      && line[inside..tail] == words && line[tail..tail + 2] == "]("
      && line[tail + 2..f.end - 1] == f.target && line[f.end - 1..f.end] == ")"
      && ']' !in words && ')' !in f.target
  {
    hide Valid, IndexOf, LinkTarget, GoodFind;
    var tail := inside + IndexOf(line[inside..], ']');
    words := line[inside..tail];
    AsciiNext(line, tail);
    OpensWith(line, tail, "](");
    AfterPrefix(line, tail, "](");
    TargetFound(line, start, tail + 2, kind);
  }

  lemma TargetFound(line: string, start: nat, targetStart: nat, kind: ReferenceKind)
    requires Valid(line) && start < targetStart && Boundary(line, targetStart)
    requires LinkTarget(line, start, targetStart, kind).Some?
    ensures var f := LinkTarget(line, start, targetStart, kind).value;
      && f.kind == kind && targetStart <= f.end - 1 && f.end <= |line|
      && line[targetStart..f.end - 1] == f.target && line[f.end - 1..f.end] == ")" && ')' !in f.target
  {
    hide Valid;
  }

  lemma LinkIsSpelled(line: string, start: nat, open: string, kind: ReferenceKind)
    requires Valid(line) && open != "" && start + |open| <= |line| && Boundary(line, start + |open|)
    requires line[start..start + |open|] == open
    requires LinkTail(line, start, start + |open|, kind).Some?
    ensures var f := LinkTail(line, start, start + |open|, kind).value;
      f.kind == kind && start <= f.end <= |line| && SpelledLink(open, f.target, line[start..f.end])
  {
    hide Valid, LinkTail, Boundary;
    var inside := start + |open|;
    var words := LinkFound(line, start, inside, kind);
    var f, tail := LinkTail(line, start, inside, kind).value, inside + |words|;
    FiveSpans(line, start, inside, tail, tail + 2, f.end - 1, f.end);
    assert line[start..f.end] == open + (words + ("](" + (f.target + ")")));
  }

  lemma FiveSpans(line: string, a: nat, b: nat, c: nat, d: nat, e: nat, f: nat)
    requires a <= b <= c <= d <= e <= f <= |line|
    ensures line[a..f] == line[a..b] + (line[b..c] + (line[c..d] + (line[d..e] + line[e..f])))
  {
    CutSpan(line, a, b, f);
    CutSpan(line, b, c, f);
    CutSpan(line, c, d, f);
    CutSpan(line, d, e, f);
  }

  lemma UrlIsSpelled(line: string, start: nat)
    requires Valid(line) && Boundary(line, start) && UrlReference(line, start).Some?
    ensures var f := UrlReference(line, start).value;
      start <= f.end <= |line| && Spelled(f.kind, f.target, line[start..f.end])
  {
    hide Valid, UrlStop;
    UrlKeepsScheme(line, start, if "https://" <= line[start..] then "https://" else "http://");
  }

  /** A bare URL never ends inside its own scheme. */
  lemma UrlKeepsScheme(line: string, start: nat, scheme: Scheme)
    requires Valid(line) && Boundary(line, start) && scheme <= line[start..]
    ensures scheme <= line[start..UrlStop(line, start)]
  {
    hide Valid, UrlEnd, TrimEnd;
    Suffix(line, start);
    var rest := line[start..];
    assert rest == scheme + rest[|scheme|..];
    SchemeIsPlain(scheme, rest[|scheme|..]);
    UrlEndPasses(rest, |scheme|);
    TrimKeeps(rest[..UrlEnd(rest)], |scheme| - 1);
    SamePrefix(line, start, UrlStop(line, start) - start, scheme);
  }

  type Scheme = s: string | s == "https://" || s == "http://" witness "http://"

  lemma SchemeIsPlain(scheme: Scheme, more: string)
    ensures forall i :: 0 <= i < |scheme| ==> PlainUrlChar((scheme + more)[i])
    ensures (scheme + more)[|scheme| - 1] == '/'
  {
    assert forall i :: 0 <= i < |scheme| ==> (scheme + more)[i] == scheme[i];
  }

  lemma {:induction false} TrimKeeps(s: string, k: nat)
    requires k < |s| && !TrailingPunctuation(s[k])
    ensures TrimEnd(s) > k
  {
    if TrailingPunctuation(s[|s| - 1]) {
      TrimKeeps(s[..|s| - 1], k);
    }
  }

  lemma SamePrefix(line: string, start: nat, n: nat, prefix: string)
    requires start + n <= |line| && |prefix| <= n && prefix <= line[start..]
    ensures prefix <= line[start..start + n]
  {
    assert line[start..start + n] == line[start..][..n];
  }

  predicate PlainUrlChar(c: char) {
    0x20 < c as int < 0x7F && c != '<' && c != '>' && c != '"' && c != '\''
  }

  lemma {:induction false} UrlEndPasses(s: string, k: nat)
    requires Valid(s) && k <= |s| && forall i :: 0 <= i < k ==> PlainUrlChar(s[i])
    ensures UrlEnd(s) >= k
    decreases k
  {
    if k > 0 {
      assert PlainUrlChar(s[0]) && CharLen(s) == 1 && WhiteLen(s) == 0;
      Suffix(s, 1) by {
        AsciiNext(s, 0);
      }
      assert forall i :: 0 <= i < k - 1 ==> s[1..][i] == s[i + 1];
      UrlEndPasses(s[1..], k - 1);
    }
  }

  lemma ObsidianIsSpelled(line: string, start: nat)
    requires Valid(line) && Boundary(line, start) && ObsidianReference(line, start).Some?
    ensures var f := ObsidianReference(line, start).value;
      start <= f.end <= |line| && Spelled(f.kind, f.target, line[start..f.end])
  {
    hide Valid, SpelledWiki, SpelledLink, WikiInner, Boundary;
    var open := if "![[" <= line[start..] then "![[" else "[[";
    AfterPrefix(line, start, open);
    OpensWith(line, start, open);
    WikiIsSpelled(line, start, open, if open == "![[" then WikiEmbed else WikiLink);
  }

  lemma MarkdownIsSpelled(line: string, start: nat)
    requires Valid(line) && Boundary(line, start) && MarkdownReference(line, start).Some?
    ensures var f := MarkdownReference(line, start).value;
      start <= f.end <= |line| && Spelled(f.kind, f.target, line[start..f.end])
  {
    hide Valid, SpelledWiki, SpelledLink, LinkTail, Boundary;
    var open := if "![" <= line[start..] then "![" else "[";
    AfterPrefix(line, start, open);
    OpensWith(line, start, open);
    LinkIsSpelled(line, start, open, if open == "![" then MarkdownImage else MarkdownLink);
  }

  /** Every reference found is spelled, over its whole span, as its kind and target say. */
  lemma FoundIsSpelled(line: string, start: nat)
    requires Valid(line) && Boundary(line, start) && ReferenceAt(line, start).Some?
    ensures var f := ReferenceAt(line, start).value;
      start <= f.end <= |line| && Spelled(f.kind, f.target, line[start..f.end])
  {
    hide Valid, Spelled, ObsidianReference, MarkdownReference, UrlReference, Boundary;
    if ObsidianReference(line, start).Some? {
      ObsidianIsSpelled(line, start);
    } else if MarkdownReference(line, start).Some? {
      MarkdownIsSpelled(line, start);
    } else {
      UrlIsSpelled(line, start);
    }
  }

  // ---------- what is written is found ----------

  /** A wiki reference as an author writes it, with or without an alias. */
  function Wiki(open: string, target: string, alias: Option<string>): string {
    open + (Inner(target, alias) + "]]")
  }

  function Inner(target: string, alias: Option<string>): string {
    match alias
    case None => target
    case Some(a) => target + (['|'] + a)
  }

  function Link(open: string, words: string, target: string): string {
    open + (words + ("](" + (target + ")")))
  }

  type Unclosed = s: string | NoClose(s) witness ""

  lemma {:induction false} CloseFound(inner: Unclosed)
    ensures FindClose(inner + "]]") == Some(|inner|)
  {
    if inner != "" {
      CloseFound(inner[1..]);
      assert (inner + "]]")[1..] == inner[1..] + "]]";
    }
  }

  predicate NoPair(s: string) {
    forall k :: 0 <= k < |s| - 1 ==> s[k] != ']' || s[k + 1] != ']'
  }

  lemma {:induction false} NoCloseFound(s: string)
    ensures NoPair(s) ==> FindClose(s).None?
  {
    if |s| >= 2 && NoPair(s) {
      NoCloseFound(s[1..]);
    }
  }

  type NoBar = s: string | '|' !in s witness ""

  lemma BarFound(target: NoBar, alias: Option<string>)
    ensures var inner := Inner(target, alias); inner[..IndexOf(inner, '|')] == target
  {
    var inner := Inner(target, alias);
    IndexOfIs(inner, '|', |target|);
  }

  /** The wiki part of a text that starts with `open` and holds nothing else. */
  lemma WrittenWikiInside(open: string, target: string, alias: Option<string>, kind: ReferenceKind)
    requires open != "" && target != "" && '|' !in target && NoClose(Inner(target, alias))
    requires Valid(Wiki(open, target, alias)) && Boundary(Wiki(open, target, alias), |open|)
    ensures var text := Wiki(open, target, alias);
      WikiInner(text, 0, |open|, kind) == Some(Found(kind, target, |text|))
  {
    hide Valid, IndexOf, WikiInner, Boundary;
    var inner := Inner(target, alias);
    DropTwo(open, inner, "]]");
    BarFound(target, alias);
    InnerFound(Wiki(open, target, alias), |open|, inner, kind);
  }

  lemma InnerFound(text: string, inside: nat, inner: string, kind: ReferenceKind)
    requires Valid(text) && 0 < inside && Boundary(text, inside) && text[inside..] == inner + "]]"
    requires NoClose(inner) && inner[..IndexOf(inner, '|')] != ""
    ensures WikiInner(text, 0, inside, kind) == Some(Found(kind, inner[..IndexOf(inner, '|')], |text|))
  {
    hide Valid, IndexOf, FindClose, NoClose, GoodFind, TextAt;
    CloseFound(inner);
    Middle(text, inside, inner, "]]");
  }

  lemma Middle(text: string, at: nat, inner: string, rest: string)
    requires at <= |text| && text[at..] == inner + rest
    ensures at + |inner| + |rest| == |text| && text[at..at + |inner|] == inner
  {
    assert text[at..at + |inner|] == text[at..][..|inner|];
  }

  /** A wiki link or embed written alone on a line is found, whole, with its target and not its alias. */
  lemma WrittenWikiIsFound(embed: bool, target: string, alias: Option<string>)
    requires target != "" && '|' !in target && NoClose(Inner(target, alias))
    requires Valid(target) && (alias.Some? ==> Valid(alias.value))
    ensures var text := Wiki(if embed then "![[" else "[[", target, alias);
      Valid(text) && ReferenceAt(text, 0) == Some(Found(if embed then WikiEmbed else WikiLink, target, |text|))
  {
    hide Valid;
    var open := if embed then "![[" else "[[";
    var text := Wiki(open, target, alias);
    WikiValid(embed, target, alias);
    assert open <= text[0..] && text[0] == open[0];
    AfterPrefix(text, 0, open);
    WrittenWikiInside(open, target, alias, if embed then WikiEmbed else WikiLink);
    assert !embed ==> text[0] == '[';
  }

  lemma WikiValid(embed: bool, target: Utf8Text, alias: Option<Utf8Text>)
    ensures Valid(Wiki(if embed then "![[" else "[[", target, alias))
  {
    hide Valid;
    var open := if embed then "![[" else "[[";
    Ascii(open);
    Ascii("]]");
    if alias.Some? {
      Ascii(['|']);
      Concat(['|'], alias.value);
      Concat(target, ['|'] + alias.value);
    }
    var inner := Inner(target, alias);
    Concat(inner, "]]");
    Concat(open, inner + "]]");
  }

  lemma LinkValid(image: bool, words: Utf8Text, target: Utf8Text)
    ensures Valid(Link(if image then "![" else "[", words, target))
  {
    hide Valid;
    var open := if image then "![" else "[";
    Ascii(open);
    Ascii("](");
    Ascii(")");
    Concat(target, ")");
    Concat("](", target + ")");
    Concat(words, "](" + (target + ")"));
    Concat(open, words + ("](" + (target + ")")));
  }

  lemma BracketAt(text: string, inside: nat, words: string, more: string)
    requires inside <= |text| && ']' !in words && text[inside..] == words + ("](" + more)
    ensures var tail := inside + |words|;
      && tail + 2 + |more| == |text| && text[tail..] == "](" + more && text[tail] == ']' && text[tail + 2..] == more
      && IndexOf(text[inside..], ']') == |words|
  {
    hide IndexOf;
    var rest := words + ("](" + more);
    assert rest[|words|..] == "](" + more && rest[|words| + 2..] == more && rest[|words|] == ']';
    assert text[inside + |words|..] == text[inside..][|words|..] && text[inside + |words| + 2..] == text[inside..][|words| + 2..];
    IndexOfIs(rest, ']', |words|);
  }

  lemma TailFound(text: string, inside: nat, words: string, more: string, kind: ReferenceKind)
    requires Valid(text) && 0 < inside && Boundary(text, inside) && ']' !in words && text[inside..] == words + ("](" + more)
    ensures var at := inside + |words| + 2;
      && Boundary(text, at) && text[at..] == more
      && LinkTail(text, 0, inside, kind) == LinkTarget(text, 0, at, kind)
  {
    hide Valid, LinkTarget, IndexOf;
    var tail := inside + |words|;
    BracketAt(text, inside, words, more);
    AsciiNext(text, tail);
    AfterPrefix(text, tail, "](");
  }

  lemma WrittenLinkTail(open: string, words: string, target: string, kind: ReferenceKind)
    requires open != "" && ']' !in words && target != "" && ')' !in target
    requires Valid(Link(open, words, target)) && Boundary(Link(open, words, target), |open|)
    ensures var text := Link(open, words, target);
      LinkTail(text, 0, |open|, kind) == Some(Found(kind, target, |text|))
  {
    hide Valid, LinkTarget, LinkTail, Boundary;
    var text := Link(open, words, target);
    DropTwo(open, words, "](" + (target + ")"));
    TailFound(text, |open|, words, target + ")", kind);
    WrittenTarget(text, |open| + |words| + 2, target, kind);
  }

  lemma DropTwo(a: string, b: string, c: string)
    ensures (a + (b + c))[|a|..] == b + c && (a + (b + c))[|a| + |b|..] == c
  {
  }

  lemma WrittenTarget(text: string, at: nat, target: string, kind: ReferenceKind)
    requires Valid(text) && 0 < at && Boundary(text, at) && text[at..] == target + ")"
    requires target != "" && ')' !in target
    ensures LinkTarget(text, 0, at, kind) == Some(Found(kind, target, |text|))
  {
    hide Valid;
    assert (target + ")")[|target|] == ')';
    IndexOfIs(target + ")", ')', |target|);
    assert text[at + |target|] == text[at..][|target|];
    AsciiNext(text, at + |target|);
    Middle(text, at, target, ")");
  }

  /** A caption and a target that read as a wiki reference: a bracket, something to point at, and a close. */
  predicate LooksWiki(words: string, target: string) {
    words != "" && words[0] == '[' && !(|words| > 1 && words[1] == '|') && !NoPair(target)
  }

  lemma InsideCaption(words: string, target: string)
    requires ']' !in words && words != "" && words[0] == '[' && !LooksWiki(words, target)
    ensures var rest := words[1..] + ("](" + (target + ")"));
      FindClose(rest).None? || (FindClose(rest).value > 0 && rest[0] == '|')
  {
    var rest := words[1..] + ("](" + (target + ")"));
    if NoPair(target) {
      assert NoPair(rest) by {
        forall k | 0 <= k < |rest| - 1 ensures rest[k] != ']' || rest[k + 1] != ']' {
          if k < |words| - 1 {
            assert rest[k] == words[k + 1] && words[k + 1] in words;
          } else if k > |words| {
            assert rest[k] == (target + ")")[k - |words| - 1];
          }
        }
      }
      NoCloseFound(rest);
    } else {
      assert rest[0] == words[1];
    }
  }

  lemma BarFirst(s: string)
    ensures s != "" && s[0] == '|' ==> IndexOf(s, '|') == 0
  {
  }

  lemma NoWikiInside(text: string, inside: nat, rest: string, kind: ReferenceKind)
    requires Valid(text) && 0 < inside && Boundary(text, inside) && text[inside..] == rest
    requires FindClose(rest).None? || (FindClose(rest).value > 0 && rest[0] == '|')
    ensures WikiInner(text, 0, inside, kind).None?
  {
    hide Valid, FindClose, IndexOf;
    if FindClose(rest).Some? {
      BarFirst(rest[..FindClose(rest).value]);
      Middle(text, inside, rest[..FindClose(rest).value], rest[FindClose(rest).value..]);
    }
  }

  lemma CaptionIsNoWiki(image: bool, words: string, target: string)
    requires ']' !in words && words != "" && words[0] == '[' && !LooksWiki(words, target)
    requires Valid(Link(if image then "![" else "[", words, target))
    ensures ObsidianReference(Link(if image then "![" else "[", words, target), 0).None?
  {
    hide Valid, FindClose, IndexOf, WikiInner, LooksWiki, Link;
    var open, wiki := if image then "![" else "[", if image then "![[" else "[[";
    var text, rest := Link(open, words, target), words[1..] + ("](" + (target + ")"));
    CaptionSplit(open, words, target);
    InsideCaption(words, target);
    assert text[0..] == text && wiki == open + "[";
    AfterPrefix(text, 0, wiki);
    NoWikiInside(text, |wiki|, rest, if image then WikiEmbed else WikiLink);
    assert !image ==> text[0] == '[';
  }

  lemma CaptionSplit(open: string, words: string, target: string)
    ensures words != "" && words[0] == '[' ==>
      var text := Link(open, words, target);
      open + "[" <= text && text[|open| + 1..] == words[1..] + ("](" + (target + ")"))
  {
  }

  /** A Markdown link or image written alone on a line is found, whole, with its target. */
  lemma WrittenLinkIsFound(image: bool, words: string, target: string)
    requires ']' !in words && !LooksWiki(words, target) && target != "" && ')' !in target
    requires Valid(words) && Valid(target)
    ensures var text := Link(if image then "![" else "[", words, target);
      Valid(text) && ReferenceAt(text, 0) == Some(Found(if image then MarkdownImage else MarkdownLink, target, |text|))
  {
    hide Valid;
    var open := if image then "![" else "[";
    var text := Link(open, words, target);
    LinkValid(image, words, target);
    assert open <= text[0..] && text[0] == open[0];
    if words != "" && words[0] == '[' {
      CaptionIsNoWiki(image, words, target);
    } else {
      NotObsidian(text, |open|);
    }
    AfterPrefix(text, 0, open);
    WrittenLinkTail(open, words, target, if image then MarkdownImage else MarkdownLink);
  }

  lemma NotObsidian(text: string, n: nat)
    requires Valid(text) && n < |text| && text[n] != '['
    requires (n == 1 && text[0] == '[') || (n == 2 && text[0] == '!' && text[1] == '[')
    ensures ObsidianReference(text, 0).None?
  {
    hide Valid, WikiInner;
    assert text[0..] == text;
  }

  /** So a line that is one such reference holds exactly that reference. */
  lemma WrittenAlone(text: string, f: Found)
    requires text != "" && Valid(text) && ReferenceAt(text, 0) == Some(f) && f.end == |text|
    requires text[0] == '[' || text[0] == '!'
    ensures LineReferences(text, 0, None) == [Reference(f.kind, f.target, 0, |text|)]
  {
    hide Valid;
    assert LineReferences(text, |text|, None) == [];
  }

  lemma OnePieceDocument(text: string)
    requires text != "" && '\n' !in text && text[|text| - 1] != '\r'
    ensures References(text) == Shift(PieceReferences(PieceOf(text, TextReferences), None), 0) + Document([], |text|, NextFence(text, None))
    ensures PieceOf(text, TextReferences) == Piece(text, |text|, TextReferences(text))
  {
    hide SplitInclusive, Content, PieceReferences, NextFence, TextReferences, Shift, Document;
    OneLine(text);
    var p := PieceOf(text, TextReferences);
    assert [text][1..] == [] && PiecesOf([text], TextReferences) == [p] + PiecesOf([], TextReferences);
    assert [p] + [] == [p];
    DocumentCons(p, [], 0, None);
  }

  /** A one-line document that is one reference: neither a fence nor indented code nor a line break. */
  lemma WrittenDocument(text: string, f: Found)
    requires text != "" && Valid(text) && ReferenceAt(text, 0) == Some(f) && f.end == |text|
    requires text[0] == '[' || text[0] == '!'
    requires '\n' !in text && text[|text| - 1] != '\r'
    ensures References(text) == [Reference(f.kind, f.target, 0, |text|)]
  {
    hide Valid, LineReferences, ReferenceAt, References, IsText, NextFence, Document, Shift;
    WrittenAlone(text, f);
    PlainLine(text);
    OnePieceDocument(text);
    OneReference(Reference(f.kind, f.target, 0, |text|), |text|, NextFence(text, None));
  }

  lemma OneLine(text: string)
    ensures text != "" && '\n' !in text && text[|text| - 1] != '\r' ==> SplitInclusive(text) == [text] && Content(text) == text
  {
    if '\n' !in text {
      IndexOfIs(text, '\n', |text|);
    }
  }

  /** Neither a fence nor indented code starts with a bracket or an exclamation mark. */
  lemma PlainLine(text: string)
    ensures text != "" && (text[0] == '[' || text[0] == '!') ==> IsText(text, None)
  {
    assert text[0..] == text;
  }

  lemma OneReference(r: Reference, length: nat, fence: Option<Fence>)
    ensures Shift([r], 0) + Document([], length, fence) == [r]
  {
    assert [r][1..] == [] && Moved(r, 0) == r;
  }

  /**
   Writing a wiki link or embed and parsing the document gives back exactly its kind and target, as
   long as nothing inside closes it; single brackets inside do not.
   */
  lemma WikiRoundTrip(embed: bool, target: string, alias: Option<string>)
    requires target != "" && '|' !in target && NoClose(Inner(target, alias))
    requires Valid(target) && (alias.Some? ==> Valid(alias.value))
    requires '\n' !in target && (alias.Some? ==> '\n' !in alias.value)
    ensures var text := Wiki(if embed then "![[" else "[[", target, alias);
      References(text) == [Reference(if embed then WikiEmbed else WikiLink, target, 0, |text|)]
  {
    hide Valid, References, ReferenceAt;
    var text := Wiki(if embed then "![[" else "[[", target, alias);
    WrittenWikiIsFound(embed, target, alias);
    WrittenDocument(text, Found(if embed then WikiEmbed else WikiLink, target, |text|));
  }

  /**
   Writing a Markdown link or image and parsing the document gives back exactly its kind and target,
   unless caption and target together read as a wiki reference.
   */
  lemma LinkRoundTrip(image: bool, words: string, target: string)
    requires ']' !in words && !LooksWiki(words, target) && target != "" && ')' !in target
    requires Valid(words) && Valid(target) && '\n' !in words && '\n' !in target
    ensures var text := Link(if image then "![" else "[", words, target);
      References(text) == [Reference(if image then MarkdownImage else MarkdownLink, target, 0, |text|)]
  {
    hide Valid, References, ReferenceAt;
    var text := Link(if image then "![" else "[", words, target);
    WrittenLinkIsFound(image, words, target);
    WrittenDocument(text, Found(if image then MarkdownImage else MarkdownLink, target, |text|));
  }
}
