/**
 UTF-8 validity, character boundaries and the character classes the source tests for.

 A Rust `str` is always valid, and slicing one anywhere but at a character boundary panics. The
 lemmas say how boundaries survive slicing, concatenation and stepping, which is what the parser's
 byte indices rely on; control and white-space characters are recognised by their encoded bytes.
 */
module Utf8 {
  predicate IsContinuation(c: char) {
    0x80 <= c as int < 0xC0
  }

  /** The second byte of a three- or four-byte sequence, without overlong forms and surrogates. */
  predicate SecondByte(lead: int, c: char) {
    && IsContinuation(c)
    && (lead == 0xE0 ==> c as int >= 0xA0)
    && (lead == 0xED ==> c as int < 0xA0)
    && (lead == 0xF0 ==> c as int >= 0x90)
    && (lead == 0xF4 ==> c as int < 0x90)
  }

  /** `char::len_utf8` of the first character, or 0 when the bytes do not start with one. */
  function CharLen(s: string): (n: nat)
    ensures n <= |s| && n <= 4
    ensures n > 0 ==> !IsContinuation(s[0])
    ensures forall i :: 1 <= i < n ==> IsContinuation(s[i])
  {
    if s == [] then 0
    else
      var b := s[0] as int;
      if b < 0x80 then 1
      else if 0xC2 <= b <= 0xDF && |s| >= 2 && IsContinuation(s[1]) then 2
      else if 0xE0 <= b <= 0xEF && |s| >= 3 && SecondByte(b, s[1]) && IsContinuation(s[2]) then 3
      else if 0xF0 <= b <= 0xF4 && |s| >= 4 && SecondByte(b, s[1]) && IsContinuation(s[2]) && IsContinuation(s[3]) then 4
      else 0
  }

  /** `str::from_utf8` succeeds. */
  predicate Valid(s: string) {
    s == [] || (CharLen(s) > 0 && Valid(s[CharLen(s)..]))
  }

  type Utf8Text = s: string | Valid(s) witness ""

  /** `str::is_char_boundary`: a slice of a `str` at any other index panics. */
  predicate Boundary(s: string, i: nat) {
    i <= |s| && (i == |s| || !IsContinuation(s[i]))
  }

  lemma {:induction false} Suffix(s: string, i: nat)
    requires Valid(s) && Boundary(s, i)
    ensures Valid(s[i..])
    decreases |s|
  {
    if i > 0 && i < |s| {
      var n := CharLen(s);
      assert n <= i;
      Suffix(s[n..], i - n);
      assert s[n..][i - n..] == s[i..];
    }
  }

  lemma {:induction false} Prefix(s: string, i: nat)
    requires Valid(s) && Boundary(s, i)
    ensures Valid(s[..i])
    decreases |s|
  {
    if i > 0 && i < |s| {
      var n := CharLen(s);
      assert n <= i;
      Prefix(s[n..], i - n);
      assert s[..i][n..] == s[n..][..i - n];
      assert CharLen(s[..i]) == n;
    } else {
      assert i == |s| ==> s[..i] == s;
    }
  }

  lemma {:induction false} Concat(a: Utf8Text, b: Utf8Text)
    ensures Valid(a + b)
    decreases |a|
  {
    if a == [] {
      assert a + b == b;
    } else {
      var n := CharLen(a);
      Concat(a[n..], b);
      FirstChar(a, b);
    }
  }

  lemma FirstChar(a: string, b: string)
    requires CharLen(a) > 0
    ensures CharLen(a + b) == CharLen(a) && (a + b)[CharLen(a)..] == a[CharLen(a)..] + b
  {
  }

  lemma {:induction false} Ascii(s: string)
    requires forall i :: 0 <= i < |s| ==> s[i] as int < 0x80
    ensures Valid(s)
  {
    if s != [] {
      Ascii(s[1..]);
    }
  }

  /** Stepping over the character at a boundary ends at a boundary. */
  lemma Next(s: string, i: nat)
    requires Valid(s) && Boundary(s, i) && i < |s|
    ensures CharLen(s[i..]) > 0
    ensures Boundary(s, i + CharLen(s[i..]))
  {
    Suffix(s, i);
    var n := CharLen(s[i..]);
    assert s[i..][n..] == s[i + n..];
    assert i + n < |s| ==> s[i + n..][0] == s[i + n];
  }

  /** The byte after an ASCII byte starts a character. */
  lemma AsciiNext(s: string, i: nat)
    requires Valid(s) && i < |s| && s[i] as int < 0x80
    ensures Boundary(s, i) && Boundary(s, i + 1)
  {
    Suffix(s, i);
    Next(s, i);
    assert s[i..][0] == s[i];
  }

  /** `char::is_control` for some character: C0, DEL, and C1, whose UTF-8 form is C2 80 to C2 9F. */
  predicate ControlAt(s: string, i: nat)
    requires i < |s|
  {
    || s[i] as int < 0x20
    || s[i] as int == 0x7F
    || (s[i] as int == 0xC2 && i + 1 < |s| && 0x80 <= s[i + 1] as int <= 0x9F)
  }

  predicate HasControl(s: string) {
    exists i :: 0 <= i < |s| && ControlAt(s, i)
  }

  /** The length of the `char::is_whitespace` character at the front, or 0. */
  function WhiteLen(s: string): (n: nat)
    ensures n <= |s|
  {
    if s == [] then 0
    else if 0x09 <= s[0] as int <= 0x0D || s[0] == ' ' then 1
    else if |s| >= 2 && s[0] as int == 0xC2 && (s[1] as int == 0x85 || s[1] as int == 0xA0) then 2
    else if |s| >= 3 && White3(s[0] as int, s[1] as int, s[2] as int) then 3
    else 0
  }

  /** U+1680, U+2000-200A, U+2028, U+2029, U+202F, U+205F and U+3000. */
  predicate White3(a: int, b: int, c: int) {
    || (a == 0xE1 && b == 0x9A && c == 0x80)
    || (a == 0xE2 && b == 0x80 && (0x80 <= c <= 0x8A || c == 0xA8 || c == 0xA9 || c == 0xAF))
    || (a == 0xE2 && b == 0x81 && c == 0x9F)
    || (a == 0xE3 && b == 0x80 && c == 0x80)
  }

  /** `s.trim().is_empty()` */
  predicate Blank(s: string) {
    s == [] || (WhiteLen(s) > 0 && Blank(s[WhiteLen(s)..]))
  }
}
