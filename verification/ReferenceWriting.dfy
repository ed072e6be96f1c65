/**
 Exactly which written references come back from the parser.

 A written wiki reference can be closed too early by its own inside, and a written link can read as a
 wiki reference. Nothing else keeps a written reference from being parsed back as exactly its kind,
 target and span.
 */
module ReferenceWriting {
  import opened Wrappers
  import opened Text
  import opened Utf8
  import opened ReferenceParser
  import opened ReferenceSyntax
  import opened ReferenceProperties

  /** The first reference of a line that starts like one: what stands at its start, or something later. */
  lemma FirstReference(text: string)
    requires text != "" && Valid(text) && (text[0] == '[' || text[0] == '!')
    requires '\n' !in text && text[|text| - 1] != '\r'
    ensures var refs, found := References(text), ReferenceAt(text, 0);
      && (found.Some? ==> refs != [] && refs[0] == Reference(found.value.kind, found.value.target, 0, found.value.end))
      && (found.None? ==> forall r :: r in refs ==> r.start > 0)
  {
    hide Valid, References, ReferenceAt, IsText, NextFence, Shift, Spelled, Inside;
    PlainLine(text);
    OnePieceDocument(text);
    var refs := LineReferences(text, 0, None);
    ShiftAt(refs, 0);
    assert Document([], |text|, NextFence(text, None)) == [];
    assert forall i :: 0 <= i < |refs| ==> References(text)[i] == Moved(refs[i], 0);
    if ReferenceAt(text, 0).None? {
      LineIsGood(text, SkipChar(text, 0), None);
    }
  }

  lemma {:induction false} EarlyClose(inner: string)
    ensures !NoClose(inner) ==> FindClose(inner + "]]").Some? && FindClose(inner + "]]").value < |inner|
  {
    var s := inner + "]]";
    if inner != "" {
      EarlyClose(inner[1..]);
      assert s[1..] == inner[1..] + "]]";
    }
  }

  /** A close before the end of the inside ends the reference early. */
  lemma FoundEarly(text: string, inside: nat, inner: string, kind: ReferenceKind)
    requires Valid(text) && 0 < inside && Boundary(text, inside) && text[inside..] == inner + "]]"
    requires !NoClose(inner) && inner[0] != '|'
    ensures var found := WikiInner(text, 0, inside, kind);
      if inner[0] == ']' && (inner + "]]")[1] == ']' then found.None? else found.Some? && found.value.end < |text|
  {
    hide Valid, FindClose, NoClose, GoodFind, TextAt;
    EarlyClose(inner);
    var rest := inner + "]]";
    var c := FindClose(rest).value;
    CloseStart(rest);
    assert text[inside..inside + c] == rest[..c];
  }

  lemma CloseStart(s: string)
    requires FindClose(s).Some?
    ensures FindClose(s).value == 0 <==> s[0] == ']' && s[1] == ']'
  {
  }

  /** Brackets with nothing between them are no reference of any kind. */
  lemma EmptyWikiIsNothing(text: string, embed: bool)
    requires Valid(text) && (if embed then "![[]]" else "[[]]") <= text && ObsidianReference(text, 0).None?
    ensures ReferenceAt(text, 0).None?
  {
    hide Valid, GoodFind, LinkTarget, ObsidianReference;
    var inside := if embed then 2 else 1;
    assert text[0..] == text;
    assert text[inside..][1] == ']' && text[inside..][0] == '[';
    IndexOfIs(text[inside..], ']', 1);
    assert text[inside + 1..][1] == text[inside + 2] == ']';
  }

  /**
   A written wiki link or embed comes back as exactly its kind, target and span if and only if
   nothing inside it closes it before its own close does.
   */
  lemma WikiRoundTripExact(embed: bool, target: string, alias: Option<string>)
    requires target != "" && '|' !in target
    requires Valid(target) && (alias.Some? ==> Valid(alias.value))
    requires '\n' !in target && (alias.Some? ==> '\n' !in alias.value)
    ensures var text := Wiki(if embed then "![[" else "[[", target, alias);
      References(text) == [Reference(if embed then WikiEmbed else WikiLink, target, 0, |text|)] <==> NoClose(Inner(target, alias))
  {
    hide Valid, References, ReferenceAt, NoClose, WikiInner;
    var text, inner := Wiki(if embed then "![[" else "[[", target, alias), Inner(target, alias);
    if NoClose(inner) {
      WikiRoundTrip(embed, target, alias);
    } else {
      WikiClosedEarly(embed, target, alias);
      FirstReference(text);
    }
  }

  lemma WikiClosedEarly(embed: bool, target: string, alias: Option<string>)
    requires target != "" && '|' !in target && !NoClose(Inner(target, alias))
    requires Valid(target) && (alias.Some? ==> Valid(alias.value))
    requires '\n' !in target && (alias.Some? ==> '\n' !in alias.value)
    ensures var text := Wiki(if embed then "![[" else "[[", target, alias);
      && Valid(text) && '\n' !in text && text[|text| - 1] == ']' && (text[0] == '[' || text[0] == '!')
      && (ReferenceAt(text, 0).Some? ==> ReferenceAt(text, 0).value.end < |text|)
  {
    hide Valid, NoClose, WikiInner, MarkdownReference, UrlReference, GoodFind;
    var open, kind := if embed then "![[" else "[[", if embed then WikiEmbed else WikiLink;
    var text, inner := Wiki(open, target, alias), Inner(target, alias);
    WikiValid(embed, target, alias);
    WikiText(open, target, alias);
    AfterPrefix(text, 0, open);
    FoundEarly(text, |open|, inner, kind);
    WikiAt(text, embed);
    if WikiInner(text, 0, |open|, kind).None? {
      EmptyWikiStarts(open, inner);
      EmptyWikiIsNothing(text, embed);
    }
  }

  lemma WikiText(open: string, target: string, alias: Option<string>)
    requires (open == "[[" || open == "![[") && target != ""
    ensures var text, inner := Wiki(open, target, alias), Inner(target, alias);
      && open <= text[0..] && text[|open|..] == inner + "]]" && text[|text| - 1] == ']' && (text[0] == '[' || text[0] == '!')
      && inner[0] == target[0]
      && ('\n' !in target && (alias.Some? ==> '\n' !in alias.value) ==> '\n' !in text)
  {
  }

  lemma WikiAt(text: string, embed: bool)
    requires Valid(text) && (if embed then "![[" else "[[") <= text[0..]
    ensures var inside := if embed then 3 else 2;
      && Boundary(text, inside) && ObsidianReference(text, 0) == WikiInner(text, 0, inside, if embed then WikiEmbed else WikiLink)
  {
    hide Valid, WikiInner;
    AfterPrefix(text, 0, if embed then "![[" else "[[");
    assert text[0] == text[0..][0];
  }

  lemma EmptyWikiStarts(open: string, inner: string)
    requires inner != "" && inner[0] == ']' && (inner + "]]")[1] == ']'
    ensures open + "]]" <= open + (inner + "]]")
  {
  }

  /**
   A written Markdown link or image comes back as exactly its kind, target and span if and only if
   caption and target together do not read as a wiki reference.
   */
  lemma LinkRoundTripExact(image: bool, words: string, target: string)
    requires ']' !in words && target != "" && ')' !in target
    requires Valid(words) && Valid(target) && '\n' !in words && '\n' !in target
    ensures var text := Link(if image then "![" else "[", words, target);
      References(text) == [Reference(if image then MarkdownImage else MarkdownLink, target, 0, |text|)] <==> !LooksWiki(words, target)
  {
    hide Valid, References, ReferenceAt, LooksWiki;
    var text := Link(if image then "![" else "[", words, target);
    if LooksWiki(words, target) {
      LinkReadAsWiki(image, words, target);
      FirstReference(text);
    } else {
      LinkRoundTrip(image, words, target);
    }
  }

  lemma {:induction false} PairFound(s: string)
    ensures !NoPair(s) ==> FindClose(s).Some?
  {
    if |s| >= 2 && !(s[0] == ']' && s[1] == ']') {
      PairFound(s[1..]);
      if !NoPair(s) {
        var k :| 0 <= k < |s| - 1 && s[k] == ']' && s[k + 1] == ']';
        assert s[1..][k - 1] == ']' && s[1..][k] == ']';
      }
    }
  }

  lemma PairLater(front: string, back: string)
    requires !NoPair(back)
    ensures !NoPair(front + back)
  {
    var k :| 0 <= k < |back| - 1 && back[k] == ']' && back[k + 1] == ']';
    assert (front + back)[|front| + k] == ']' && (front + back)[|front| + k + 1] == ']';
  }

  lemma WikiInCaption(words: string, target: string)
    requires LooksWiki(words, target) && ']' !in words
    ensures var rest := words[1..] + ("](" + (target + ")"));
      FindClose(rest).Some? && FindClose(rest).value > 0 && rest[0] != '|'
  {
    hide FindClose;
    var rest := words[1..] + ("](" + (target + ")"));
    var k :| 0 <= k < |target| - 1 && target[k] == ']' && target[k + 1] == ']';
    assert (target + ")")[k] == ']' && (target + ")")[k + 1] == ']';
    PairLater("](", target + ")");
    PairLater(words[1..], "](" + (target + ")"));
    PairFound(rest);
    CloseStart(rest);
    if |words| > 1 {
      assert rest[0] == words[1] && words[1] in words;
    }
  }

  lemma SomethingInside(text: string, inside: nat, rest: string, kind: ReferenceKind)
    requires Valid(text) && 0 < inside && Boundary(text, inside) && text[inside..] == rest
    requires FindClose(rest).Some? && FindClose(rest).value > 0 && rest[0] != '|'
    ensures WikiInner(text, 0, inside, kind).Some? && WikiInner(text, 0, inside, kind).value.kind == kind
  {
    hide Valid, FindClose, GoodFind, TextAt;
    var c := FindClose(rest).value;
    assert text[inside..inside + c] == rest[..c];
    assert rest[..c][0] == rest[0];
  }

  lemma LinkReadAsWiki(image: bool, words: string, target: string)
    requires ']' !in words && LooksWiki(words, target)
    requires Valid(words) && Valid(target) && '\n' !in words && '\n' !in target
    ensures var text := Link(if image then "![" else "[", words, target);
      && Valid(text) && '\n' !in text && text[|text| - 1] == ')' && (text[0] == '[' || text[0] == '!')
      && ReferenceAt(text, 0).Some? && ReferenceAt(text, 0).value.kind == (if image then WikiEmbed else WikiLink)
  {
    hide Valid, FindClose, WikiInner, MarkdownReference, UrlReference, GoodFind;
    var open, wiki := if image then "![" else "[", if image then "![[" else "[[";
    var text, rest := Link(open, words, target), words[1..] + ("](" + (target + ")"));
    LinkValid(image, words, target);
    CaptionSplit(open, words, target);
    LinkText(open, words, target);
    assert text[0..] == text && wiki == open + "[";
    WikiInCaption(words, target);
    WikiAt(text, image);
    SomethingInside(text, |wiki|, rest, if image then WikiEmbed else WikiLink);
  }

  lemma LinkText(open: string, words: string, target: string)
    requires open == "[" || open == "!["
    ensures var text := Link(open, words, target);
      && text[|text| - 1] == ')' && (text[0] == '[' || text[0] == '!')
      && ('\n' !in words && '\n' !in target ==> '\n' !in text)
  {
  }
}
