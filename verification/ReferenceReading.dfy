/**
 Exactly what the reference parser reads at one place of a line (`content/reference.rs`). A wiki
 reference, a Markdown one or a bare URL is found there if and only if one is spelled there, and a
 URL goes exactly as far as the program lets it: up to white space, a quote or an angle bracket, and
 without the punctuation at its end.
 */
module ReferenceReading {
  import opened Wrappers
  import opened Text
  import opened Utf8
  import opened ReferenceParser
  import opened ReferenceSyntax

  // ---------- what is written at one place ----------

  predicate IsWiki(kind: ReferenceKind) {
    kind.WikiLink? || kind.WikiEmbed?
  }

  /** A reference with a target is spelled over this span, and what is before it does not swallow its start. */
  ghost predicate SpelledAt(line: string, p: nat, f: Found) {
    && p < f.end <= |line| && f.target != "" && Spelled(f.kind, f.target, line[p..f.end])
    && (f.kind.WikiLink? ==> p == 0 || line[p - 1] != '!')
    && (f.kind.ExternalUrl? ==> p == 0 || UrlBoundary(line[p - 1]))
  }

  /** Where a URL has to stop: at the end, at white space, or at one of `< > " '`. */
  predicate StopsUrl(s: string) {
    s == "" || WhiteLen(s) > 0 || s[0] == '<' || s[0] == '>' || s[0] == '"' || s[0] == '\''
  }

  /** A URL runs as far as it can, and then gives back its trailing punctuation. */
  ghost predicate UrlSpan(line: string, p: nat, end: nat) {
    exists stop: nat :: UrlStopsAt(line, p, stop) && TrimmedTo(line, p, end, stop)
  }

  ghost predicate UrlStopsAt(line: string, p: nat, stop: nat) {
    && p <= stop && Boundary(line, stop) && StopsUrl(line[stop..])
    && forall q :: p <= q < stop && Boundary(line, q) ==> !StopsUrl(line[q..])
  }

  ghost predicate TrimmedTo(line: string, p: nat, end: nat, stop: nat) {
    && p <= end <= stop <= |line| && (forall q :: end <= q < stop ==> TrailingPunctuation(line[q]))
    && (p < end ==> !TrailingPunctuation(line[end - 1]))
  }

  ghost predicate NoWikiAt(line: string, p: nat) {
    forall w :: SpelledAt(line, p, w) ==> !IsWiki(w.kind)
  }

  /**
   What an author who knows the syntax reads at one place: a wiki reference that is spelled there, or
   else a Markdown one, or a URL as far as it goes.
   */
  ghost predicate ReadsAs(line: string, p: nat, f: Found) {
    && SpelledAt(line, p, f)
    && (!IsWiki(f.kind) ==> NoWikiAt(line, p))
    && (f.kind.ExternalUrl? ==> UrlSpan(line, p, f.end))
  }

  // ---------- wiki references ----------

  lemma {:induction false} CloseBefore(inner: Unclosed, rest: string)
    ensures FindClose(inner + ("]]" + rest)) == Some(|inner|)
  {
    var s := inner + ("]]" + rest);
    if inner != "" {
      CloseBefore(inner[1..], rest);
      assert s[1..] == inner[1..] + ("]]" + rest);
      assert s[0] == inner[0] && (|inner| > 1 ==> s[1] == inner[1]);
    }
  }

  lemma InsideTarget(inner: string, target: string)
    requires WikiInside(inner, target)
    ensures inner[..IndexOf(inner, '|')] == target
  {
    if inner != target {
      assert inner[|target|] == (target + "|")[|target|];
      assert forall j :: 0 <= j < |target| ==> inner[j] == (target + "|")[j] == target[j];
    }
    IndexOfIs(inner, '|', |target|);
  }

  lemma InnerReads(line: string, start: nat, inside: nat, inner: string, target: string, rest: string, kind: ReferenceKind)
    requires Valid(line) && start < inside && Boundary(line, inside) && line[inside..] == inner + ("]]" + rest)
    requires WikiInside(inner, target) && NoClose(inner) && target != ""
    ensures WikiInner(line, start, inside, kind) == Some(Found(kind, target, inside + |inner| + 2))
  {
    hide Valid, NoClose, FindClose, IndexOf, GoodFind, TextAt;
    CloseBefore(inner, rest);
    InsideTarget(inner, target);
    assert line[inside..inside + |inner|] == line[inside..][..|inner|] == inner;
  }

  lemma AfterOpen(line: string, p: nat, end: nat, open: string, more: string)
    requires p <= end <= |line| && line[p..end] == open + more
    ensures p + |open| <= end && open <= line[p..] && line[p + |open|..] == more + line[end..]
  {
    assert line[p..] == line[p..end] + line[end..];
    Associate(open, more, line[end..]);
    assert line[p + |open|..] == line[p..][|open|..];
  }

  lemma WikiReads(line: string, p: nat, f: Found)
    requires Valid(line) && Boundary(line, p) && SpelledAt(line, p, f) && IsWiki(f.kind)
    ensures ObsidianReference(line, p) == Some(f)
  {
    hide Valid, NoClose, WikiInner, Boundary;
    var open := if f.kind.WikiEmbed? then "![[" else "[[";
    var inner :| line[p..f.end] == open + (inner + "]]") && WikiInside(inner, f.target) && NoClose(inner);
    AfterOpen(line, p, f.end, open, inner + "]]");
    Associate(inner, "]]", line[f.end..]);
    AfterPrefix(line, p, open);
    InnerReads(line, p, p + |open|, inner, f.target, line[f.end..], f.kind);
    assert line[p..][0] == open[0];
  }

  lemma ObsidianIsSpelledAt(line: string, p: nat)
    requires Valid(line) && Boundary(line, p) && ObsidianReference(line, p).Some?
    ensures SpelledAt(line, p, ObsidianReference(line, p).value) && IsWiki(ObsidianReference(line, p).value.kind)
  {
    hide Valid, Spelled, WikiInner;
    ObsidianIsSpelled(line, p);
    ObsidianKind(line, p);
  }

  lemma ObsidianKind(line: string, p: nat)
    requires Valid(line) && Boundary(line, p) && ObsidianReference(line, p).Some?
    ensures var f := ObsidianReference(line, p).value;
      IsWiki(f.kind) && (f.kind.WikiLink? ==> p == 0 || line[p - 1] != '!')
  {
    hide Valid;
  }

  /** A wiki reference is found exactly where one is spelled, and it is that one. */
  lemma ObsidianExact(line: string, p: nat)
    requires Valid(line) && Boundary(line, p)
    ensures ObsidianReference(line, p).None? <==> NoWikiAt(line, p)
    ensures forall f :: SpelledAt(line, p, f) && IsWiki(f.kind) <==> ObsidianReference(line, p) == Some(f)
  {
    hide Valid, SpelledAt, ObsidianReference;
    if ObsidianReference(line, p).Some? {
      ObsidianIsSpelledAt(line, p);
    }
    forall f | SpelledAt(line, p, f) && IsWiki(f.kind) ensures ObsidianReference(line, p) == Some(f) {
      WikiReads(line, p, f);
    }
  }

  // ---------- Markdown links ----------

  lemma TargetReads(line: string, start: nat, at: nat, target: string, rest: string, kind: ReferenceKind)
    requires Valid(line) && start < at && Boundary(line, at) && line[at..] == target + (")" + rest)
    requires target != "" && ')' !in target
    ensures LinkTarget(line, start, at, kind) == Some(Found(kind, target, at + |target| + 1))
  {
    hide Valid, GoodFind, TextAt;
    var text := target + (")" + rest);
    assert text[|target|] == ')';
    IndexOfIs(text, ')', |target|);
    assert line[at + |target|] == line[at..][|target|];
    assert line[at..at + |target|] == line[at..][..|target|];
  }

  lemma TailReads(line: string, start: nat, inside: nat, caption: string, more: string, kind: ReferenceKind)
    requires Valid(line) && start < inside && Boundary(line, inside)
    requires ']' !in caption && line[inside..] == caption + ("](" + more)
    ensures var at := inside + |caption| + 2;
      && Boundary(line, at) && line[at..] == more
      && LinkTail(line, start, inside, kind) == LinkTarget(line, start, at, kind)
  {
    hide Valid, LinkTarget, IndexOf;
    var tail := inside + |caption|;
    BracketAt(line, inside, caption, more);
    AsciiNext(line, tail);
    AfterPrefix(line, tail, "](");
  }

  lemma LinkReads(line: string, p: nat, f: Found)
    requires Valid(line) && Boundary(line, p) && SpelledAt(line, p, f) && (f.kind.MarkdownLink? || f.kind.MarkdownImage?)
    ensures MarkdownReference(line, p) == Some(f)
  {
    hide Valid, LinkTail, LinkTarget, Boundary;
    var open := if f.kind.MarkdownImage? then "![" else "[";
    var caption :| line[p..f.end] == open + (caption + ("](" + (f.target + ")"))) && ']' !in caption && ')' !in f.target;
    var rest := line[f.end..];
    AfterOpen(line, p, f.end, open, caption + ("](" + (f.target + ")")));
    Associate(caption, "](" + (f.target + ")"), rest);
    Associate("](", f.target + ")", rest);
    Associate(f.target, ")", rest);
    AfterPrefix(line, p, open);
    TailReads(line, p, p + |open|, caption, f.target + (")" + rest), f.kind);
    TargetReads(line, p, p + |open| + |caption| + 2, f.target, rest, f.kind);
    assert line[p..][0] == open[0];
  }

  lemma MarkdownKind(line: string, p: nat)
    requires Valid(line) && Boundary(line, p) && MarkdownReference(line, p).Some?
    ensures MarkdownReference(line, p).value.kind.MarkdownLink? || MarkdownReference(line, p).value.kind.MarkdownImage?
  {
    hide Valid;
  }

  lemma MarkdownExact(line: string, p: nat)
    requires Valid(line) && Boundary(line, p)
    ensures forall f :: SpelledAt(line, p, f) && (f.kind.MarkdownLink? || f.kind.MarkdownImage?) <==> MarkdownReference(line, p) == Some(f)
  {
    hide Valid, Spelled, MarkdownReference;
    if MarkdownReference(line, p).Some? {
      MarkdownIsSpelled(line, p);
      MarkdownKind(line, p);
    }
    forall f | SpelledAt(line, p, f) && (f.kind.MarkdownLink? || f.kind.MarkdownImage?) ensures MarkdownReference(line, p) == Some(f) {
      LinkReads(line, p, f);
    }
  }

  // ---------- bare URLs ----------

  lemma {:induction false} UrlEndExact(s: Utf8Text, n: nat)
    ensures UrlEnd(s) == n <==> UrlStopsAt(s, 0, n)
    decreases |s|
  {
    hide StopsUrl, UrlStopsAt, Valid;
    if StopsUrl(s) {
      StopsHere(s, n);
    } else {
      StopsBeyond(s, n);
      var k := CharLen(s);
      Next(s, 0);
      Suffix(s, k);
      if n >= k {
        UrlEndExact(s[k..], n - k);
        StopsLater(s, k, n);
      }
    }
  }

  lemma StopsHere(s: Utf8Text, n: nat)
    requires StopsUrl(s)
    ensures UrlEnd(s) == 0 && (UrlStopsAt(s, 0, n) <==> n == 0)
  {
    hide Valid;
    assert s[0..] == s && Boundary(s, 0);
  }

  lemma StopsBeyond(s: Utf8Text, n: nat)
    requires !StopsUrl(s)
    ensures var k := CharLen(s);
      && 0 < k <= |s| && Valid(s[k..]) && UrlEnd(s) == k + UrlEnd(s[k..])
      && (UrlStopsAt(s, 0, n) ==> k <= n)
  {
    assert s[0..] == s;
    Next(s, 0);
    Suffix(s, CharLen(s));
    if UrlStopsAt(s, 0, n) && n < CharLen(s) {
      if n > 0 {
        InsideCharacter(s, n);
      }
    }
  }

  lemma InsideCharacter(s: string, q: nat)
    requires 0 < q < CharLen(s)
    ensures !Boundary(s, q)
  {
  }

  lemma StopsLater(s: string, k: nat, n: nat)
    requires k == CharLen(s) && 0 < k <= n && !StopsUrl(s)
    ensures UrlStopsAt(s, 0, n) <==> UrlStopsAt(s[k..], 0, n - k)
  {
    hide StopsUrl, CharLen;
    var t := s[k..];
    assert s[0..] == s;
    if n <= |s| {
      assert t[n - k..] == s[n..];
      if UrlStopsAt(t, 0, n - k) {
        forall q | 0 <= q < n && Boundary(s, q) ensures !StopsUrl(s[q..]) {
          if q >= k {
            assert t[q - k..] == s[q..] && Boundary(t, q - k);
          } else if q > 0 {
            InsideCharacter(s, q);
          }
        }
      }
      if UrlStopsAt(s, 0, n) {
        forall q | 0 <= q < n - k && Boundary(t, q) ensures !StopsUrl(t[q..]) {
          assert t[q..] == s[q + k..] && Boundary(s, q + k);
        }
      }
    }
  }

  lemma {:induction false} TrimExact(s: string, n: nat)
    ensures TrimEnd(s) == n <==> TrimmedTo(s, 0, n, |s|)
  {
    if s != "" && TrailingPunctuation(s[|s| - 1]) {
      var t := s[..|s| - 1];
      TrimExact(t, n);
      assert forall q :: 0 <= q < |t| ==> t[q] == s[q];
    }
  }

  /** A URL that starts here ends where its span does. */
  lemma UrlStopExact(line: string, p: nat, end: nat)
    requires Valid(line) && Boundary(line, p) && p <= end
    ensures UrlStop(line, p) == end <==> UrlSpan(line, p, end)
  {
    hide Valid, UrlEnd, TrimEnd, StopsUrl, TrailingPunctuation;
    Suffix(line, p);
    var rest := line[p..];
    var stop := UrlEnd(rest);
    UrlEndExact(rest, stop);
    SpanMoves(line, p, stop);
    TrimExact(rest[..stop], end - p);
    TrimMoves(line, p, end, stop);
    forall s: nat | UrlStopsAt(line, p, s) ensures s == p + stop {
      SpanMoves(line, p, s - p);
      UrlEndExact(rest, s - p);
    }
  }

  lemma SpanMoves(line: string, p: nat, n: nat)
    requires p <= |line|
    ensures UrlStopsAt(line[p..], 0, n) <==> UrlStopsAt(line, p, p + n)
  {
    hide StopsUrl;
    var rest := line[p..];
    forall q: nat | q <= |rest| ensures rest[q..] == line[p + q..] && (Boundary(rest, q) <==> Boundary(line, p + q)) {
    }
    if UrlStopsAt(rest, 0, n) {
      forall q | p <= q < p + n && Boundary(line, q) ensures !StopsUrl(line[q..]) {
        assert Boundary(rest, q - p) && rest[q - p..] == line[q..];
      }
    }
    if UrlStopsAt(line, p, p + n) {
      forall q | 0 <= q < n && Boundary(rest, q) ensures !StopsUrl(rest[q..]) {
        assert Boundary(line, p + q) && rest[q..] == line[p + q..];
      }
    }
  }

  lemma TrimMoves(line: string, p: nat, end: nat, n: nat)
    requires p + n <= |line| && p <= end
    ensures TrimmedTo(line[p..][..n], 0, end - p, n) <==> TrimmedTo(line, p, end, p + n)
  {
    hide TrailingPunctuation;
    var s := line[p..][..n];
    assert forall q :: 0 <= q < n ==> s[q] == line[p + q];
    if TrimmedTo(s, 0, end - p, n) {
      forall q | end <= q < p + n ensures TrailingPunctuation(line[q]) {
        assert line[q] == s[q - p];
      }
    }
  }

  lemma UrlStart(line: string, p: nat)
    requires p <= |line| && ("https://" <= line[p..] || "http://" <= line[p..])
    ensures p < |line| && line[p] == 'h'
  {
    assert line[p..][0] == 'h';
  }

  lemma UrlReads(line: string, p: nat, f: Found)
    requires Valid(line) && Boundary(line, p) && SpelledAt(line, p, f) && f.kind.ExternalUrl? && UrlSpan(line, p, f.end)
    ensures UrlReference(line, p) == Some(f)
  {
    hide Valid, UrlStop, UrlSpan, GoodFind;
    UrlStopExact(line, p, f.end);
    assert line[p..] == line[p..f.end] + line[f.end..];
  }

  lemma UrlIsRead(line: string, p: nat)
    requires Valid(line) && Boundary(line, p) && UrlReference(line, p).Some?
    ensures var f := UrlReference(line, p).value;
      SpelledAt(line, p, f) && f.kind.ExternalUrl? && UrlSpan(line, p, f.end)
  {
    hide Valid, UrlSpan, UrlStop;
    UrlIsSpelled(line, p);
    UrlStopExact(line, p, UrlReference(line, p).value.end);
  }

  /** Where a URL is spelled, some URL is found. */
  lemma UrlIsFound(line: string, p: nat, f: Found)
    requires Valid(line) && Boundary(line, p) && SpelledAt(line, p, f) && f.kind.ExternalUrl?
    ensures UrlReference(line, p).Some?
  {
    hide Valid, UrlStop, GoodFind;
    var scheme := if "https://" <= f.target then "https://" else "http://";
    assert line[p..] == line[p..f.end] + line[f.end..];
    UrlKeepsScheme(line, p, scheme);
  }

  // ---------- one place, exactly ----------

  /** At a URL there is neither a wiki reference nor a Markdown link. */
  lemma OnlyUrlThere(line: string, p: nat)
    requires Valid(line) && Boundary(line, p) && p < |line| && line[p] == 'h'
    ensures ObsidianReference(line, p).None? && MarkdownReference(line, p).None?
  {
    hide Valid, WikiInner, LinkTail;
    assert line[p..][0] == 'h';
  }

  lemma UrlSpelledStart(line: string, p: nat, f: Found)
    requires SpelledAt(line, p, f) && f.kind.ExternalUrl?
    ensures p < |line| && line[p] == 'h'
  {
    assert line[p..f.end][0] == f.target[0];
    assert line[p..f.end][0] == line[p];
  }

  /** The reference found at a place is exactly the one that is read there. */
  lemma FoundExact(line: string, p: nat, f: Found)
    requires Valid(line) && Boundary(line, p)
    ensures ReferenceAt(line, p) == Some(f) <==> ReadsAs(line, p, f)
  {
    hide Valid, SpelledAt, ObsidianReference, MarkdownReference, UrlReference, UrlSpan, NoWikiAt;
    ObsidianExact(line, p);
    MarkdownExact(line, p);
    if ReferenceAt(line, p) == Some(f) && ObsidianReference(line, p).None? && MarkdownReference(line, p).None? {
      UrlIsRead(line, p);
    }
    if ReadsAs(line, p, f) && f.kind.ExternalUrl? {
      UrlSpelledStart(line, p, f);
      OnlyUrlThere(line, p);
      UrlReads(line, p, f);
    }
  }

  /** And nothing is found exactly where nothing is spelled. */
  lemma NothingFoundExact(line: string, p: nat)
    requires Valid(line) && Boundary(line, p)
    ensures ReferenceAt(line, p).None? <==> forall f :: !SpelledAt(line, p, f)
  {
    hide Valid, SpelledAt, ObsidianReference, MarkdownReference, UrlReference;
    ObsidianExact(line, p);
    MarkdownExact(line, p);
    if ReferenceAt(line, p).Some? {
      FoundExact(line, p, ReferenceAt(line, p).value);
    } else {
      forall f ensures !SpelledAt(line, p, f) {
        if SpelledAt(line, p, f) && f.kind.ExternalUrl? {
          UrlIsFound(line, p, f);
        }
      }
    }
  }
}
