/**
 The text primitives the line formats are made of.

 A Rust `str` or `[u8]` is modelled as a `string` holding one char per UTF-8 byte, so lengths,
 slices and comparisons are the byte-level ones the source uses. Splitting, decimal numbers and
 hexadecimal digests are written as functions, each with the lemma that reads it back.
 */
module Text {
  import opened Wrappers

  const U64_MAX: nat := 0xFFFF_FFFF_FFFF_FFFF

  type u64 = n: nat | n <= U64_MAX

  /** `u64::try_from(bytes.len()).unwrap_or(u64::MAX)` */
  function Size(bytes: string): u64 {
    if |bytes| <= U64_MAX then |bytes| else U64_MAX
  }

  predicate IsByte(c: char) {
    c as int < 256
  }

  predicate IsDigit(c: char) {
    '0' <= c <= '9'
  }

  predicate IsLowerHex(c: char) {
    IsDigit(c) || 'a' <= c <= 'f'
  }

  predicate AllBytes(s: string) {
    forall i :: 0 <= i < |s| ==> IsByte(s[i])
  }

  type ByteChar = c: char | IsByte(c) witness '\0'
  type Bytes = s: string | AllBytes(s) witness ""
  type DigitChar = c: char | IsDigit(c) witness '0'
  type HexChar = c: char | IsLowerHex(c) witness '0'
  type DecimalDigit = d: nat | d < 10
  type Nibble = d: nat | d < 16

  /** Printable ASCII: what every fixed part of the line formats is made of. */
  predicate Plain(s: string) {
    forall i :: 0 <= i < |s| ==> 0x20 <= s[i] as int < 0x7F
  }

  // ---------- splitting and joining ----------

  /** The first `c` at or after `from`, or the end of the text. */
  function Find(s: string, c: char, from: nat): (i: nat)
    requires from <= |s|
    ensures from <= i <= |s|
    ensures i < |s| ==> s[i] == c
    ensures forall j :: from <= j < i ==> s[j] != c
    decreases |s| - from
  {
    if from == |s| || s[from] == c then from else Find(s, c, from + 1)
  }

  function IndexOf(s: string, c: char): (i: nat)
    ensures i <= |s|
    ensures i < |s| ==> s[i] == c
    ensures forall j :: 0 <= j < i ==> s[j] != c
  {
    Find(s, c, 0)
  }

  lemma IndexOfIs(s: string, c: char, i: nat)
    requires i <= |s|
    requires i < |s| ==> s[i] == c
    requires forall j :: 0 <= j < i ==> s[j] != c
    ensures IndexOf(s, c) == i
  {
  }

  /** `str::split(sep)` */
  function Split(s: string, sep: char): (parts: seq<string>)
    ensures |parts| >= 1
    ensures forall p :: p in parts ==> sep !in p
    decreases |s|
  {
    var i := IndexOf(s, sep);
    if i == |s| then [s] else [s[..i]] + Split(s[i + 1..], sep)
  }

  /** The text up to its first newline. */
  function FirstLine(s: string): string {
    s[..IndexOf(s, '\n')]
  }

  lemma FirstLineIsFirst(s: string)
    ensures Split(s, '\n')[0] == FirstLine(s)
  {
    var i := IndexOf(s, '\n');
    if i == |s| {
      assert s[..i] == s;
    }
  }

  /** `str::splitn(n, sep)`: the last of at most `n` parts keeps every later separator. */
  function SplitN(s: string, sep: char, n: nat): (parts: seq<string>)
    requires n >= 1
    ensures 1 <= |parts| <= n
    ensures forall i :: 0 <= i < |parts| && i < n - 1 ==> sep !in parts[i]
    ensures forall p, c :: p in parts && c in p ==> c in s
    decreases n
  {
    var i := IndexOf(s, sep);
    if n == 1 || i == |s| then [s] else [s[..i]] + SplitN(s[i + 1..], sep, n - 1)
  }

  /** Every line followed by its newline. */
  function Lines(lines: seq<string>): string {
    if lines == [] then "" else lines[0] + "\n" + Lines(lines[1..])
  }

  lemma SplitCons(a: string, sep: char, b: string)
    requires sep !in a
    ensures Split(a + [sep] + b, sep) == [a] + Split(b, sep)
  {
    var s := a + [sep] + b;
    assert s[..|a|] == a && s[|a| + 1..] == b;
    IndexOfIs(s, sep, |a|);
  }

  lemma SplitNCons(a: string, sep: char, b: string, n: nat)
    requires sep !in a && n >= 2
    ensures SplitN(a + [sep] + b, sep, n) == [a] + SplitN(b, sep, n - 1)
  {
    var s := a + [sep] + b;
    assert s[..|a|] == a && s[|a| + 1..] == b;
    IndexOfIs(s, sep, |a|);
  }

  lemma SplitNLast(a: string, sep: char, n: nat)
    requires n >= 1
    requires n == 1 || sep !in a
    ensures SplitN(a, sep, n) == [a]
  {
    if n > 1 {
      assert a[..|a|] == a;
      IndexOfIs(a, sep, |a|);
    }
  }

  lemma LinesCons(line: string, rest: seq<string>)
    ensures Lines([line] + rest) == line + "\n" + Lines(rest)
  {
    assert ([line] + rest)[1..] == rest;
  }

  lemma {:induction false} LinesConcat(a: seq<string>, b: seq<string>)
    ensures Lines(a + b) == Lines(a) + Lines(b)
  {
    hide Lines;
    if a == [] {
      NoLines();
      assert a + b == b && "" + Lines(b) == Lines(b);
    } else {
      LinesConcat(a[1..], b);
      HeadAndTail(a);
      Associate([a[0]], a[1..], b);
      LinesCons(a[0], a[1..] + b);
      LinesCons(a[0], a[1..]);
      Associate(a[0] + "\n", Lines(a[1..]), Lines(b));
    }
  }

  lemma NoLines()
    ensures Lines([]) == ""
  {
  }

  /** Splitting newline-free lines and what follows them gives the lines back, then the parts of the rest. */
  lemma {:induction false} SplitAfter(lines: seq<string>, rest: string)
    requires forall l :: l in lines ==> '\n' !in l
    ensures Split(Lines(lines) + rest, '\n') == lines + Split(rest, '\n')
  {
    hide Split;
    if lines == [] {
      assert "" + rest == rest && lines + Split(rest, '\n') == Split(rest, '\n');
    } else {
      SplitAfter(lines[1..], rest);
      SplitCons(lines[0], '\n', Lines(lines[1..]) + rest);
      Associate(lines[0] + "\n", Lines(lines[1..]), rest);
      HeadAndTail(lines);
      Associate([lines[0]], lines[1..], Split(rest, '\n'));
    }
  }

  /** Splitting a document of newline-free lines gives the lines back, then one empty part. */
  lemma SplitLines(lines: seq<string>)
    requires forall l :: l in lines ==> '\n' !in l
    ensures Split(Lines(lines), '\n') == lines + [""]
  {
    SplitAfter(lines, "");
    assert Lines(lines) + "" == Lines(lines);
  }

  /** A separator splits what is before it and what is after it independently. */
  lemma {:induction false} SplitConcat(a: string, sep: char, b: string)
    ensures Split(a + [sep] + b, sep) == Split(a, sep) + Split(b, sep)
    decreases |a|
  {
    hide IndexOf;
    var i := IndexOf(a, sep);
    if i == |a| {
      SplitCons(a, sep, b);
    } else {
      var front, back := a[..i], a[i + 1..];
      SplitConcat(back, sep, b);
      assert a + [sep] + b == front + [sep] + (back + [sep] + b);
      SplitCons(front, sep, back + [sep] + b);
      Associate([front], Split(back, sep), Split(b, sep));
    }
  }

  /** The first `k` lines of a text, and the text after them. */
  lemma {:induction false} TakeLines(s: string, k: nat) returns (rest: string)
    requires k < |Split(s, '\n')|
    ensures s == Lines(Split(s, '\n')[..k]) + rest && Split(rest, '\n') == Split(s, '\n')[k..]
    decreases k
  {
    hide IndexOf;
    if k == 0 {
      rest := s;
      assert Lines([]) + s == s;
    } else {
      var i := IndexOf(s, '\n');
      rest := TakeLines(s[i + 1..], k - 1);
      CutAt(s, i);
      TakeStep(s, i, k, rest);
    }
  }

  lemma TakeStep(s: string, i: nat, k: nat, rest: string)
    requires i < |s| && s[i] == '\n' && 0 < k
    requires Split(s, '\n') == [s[..i]] + Split(s[i + 1..], '\n') && k - 1 < |Split(s[i + 1..], '\n')|
    requires s[i + 1..] == Lines(Split(s[i + 1..], '\n')[..k - 1]) + rest
    ensures s == Lines(Split(s, '\n')[..k]) + rest
  {
    hide Split;
    var parts := Split(s[i + 1..], '\n');
    assert Split(s, '\n')[..k] == [s[..i]] + parts[..k - 1];
    LinesCons(s[..i], parts[..k - 1]);
    CutAt(s, i);
    Associate(s[..i] + "\n", Lines(parts[..k - 1]), rest);
  }

  lemma OnePart(s: string, sep: char)
    requires |Split(s, sep)| == 1
    ensures Split(s, sep) == [s]
  {
  }

  /** A text is determined by its lines. */
  lemma SplitInjective(a: string, b: string)
    requires Split(a, '\n') == Split(b, '\n')
    ensures a == b
  {
    hide Split;
    var k := |Split(a, '\n')| - 1;
    var x := TakeLines(a, k);
    var y := TakeLines(b, k);
    OnePart(x, '\n');
    OnePart(y, '\n');
    assert [x][0] == [y][0];
  }

  lemma Associate<T>(a: seq<T>, b: seq<T>, c: seq<T>)
    ensures (a + b) + c == a + (b + c)
  {
  }

  lemma HeadAndTail<T>(s: seq<T>)
    requires |s| > 0
    ensures s == [s[0]] + s[1..]
  {
  }

  /** Space-separated fields, as `format!("{} {} {}")` writes them. */
  type Fields = f: seq<string> | f != [] witness [""]

  function Spaced(fields: Fields): (s: string)
    ensures |fields| >= 2 || fields[0] != "" ==> s != ""
  {
    if |fields| == 1 then fields[0] else fields[0] + [' '] + Spaced(fields[1..])
  }

  /** Fields come back one by one; only the last may hold spaces, and only when `n` is reached. */
  lemma {:induction false} SplitSpaced(fields: seq<string>, n: nat)
    requires 1 <= |fields| <= n
    requires forall i :: 0 <= i < |fields| - 1 ==> ' ' !in fields[i]
    requires |fields| == n || ' ' !in fields[|fields| - 1]
    ensures SplitN(Spaced(fields), ' ', n) == fields
  {
    hide SplitN, IndexOf;
    if |fields| == 1 {
      SplitNLast(fields[0], ' ', n);
    } else {
      var rest := fields[1..];
      SplitSpaced(rest, n - 1);
      SplitNCons(fields[0], ' ', Spaced(rest), n);
      HeadAndTail(fields);
    }
  }

  lemma {:induction false} SpacedNoNewline(fields: seq<string>)
    requires |fields| >= 1 && forall i :: 0 <= i < |fields| ==> '\n' !in fields[i]
    ensures '\n' !in Spaced(fields)
  {
    if |fields| > 1 {
      SpacedNoNewline(fields[1..]);
    }
  }

  lemma {:induction false} SpacedLast(fields: seq<string>, last: string)
    ensures forall c :: c in last ==> c in Spaced(fields + [last])
  {
    if fields != [] {
      SpacedLast(fields[1..], last);
      assert (fields + [last])[1..] == fields[1..] + [last];
    }
  }

  lemma CutAt(s: string, i: nat)
    requires i < |s|
    ensures s[..i] + [s[i]] + s[i + 1..] == s
  {
  }

  /** A text whose last part is empty is exactly its other parts, each with its newline. */
  lemma LinesOfSplit(s: string)
    requires Split(s, '\n')[|Split(s, '\n')| - 1] == ""
    ensures s == Lines(Split(s, '\n')[..|Split(s, '\n')| - 1])
  {
    hide Split;
    var rest := TakeLines(s, |Split(s, '\n')| - 1);
    OnePart(rest, '\n');
    assert [rest][0] == "";
  }

  /** Putting the spaces back between split fields gives the text back. */
  lemma {:induction false} SpacedOfSplit(s: string, n: nat)
    requires n >= 1
    ensures Spaced(SplitN(s, ' ', n)) == s
    decreases n
  {
    var i := IndexOf(s, ' ');
    if n > 1 && i < |s| {
      SpacedOfSplit(s[i + 1..], n - 1);
      SpacedCons(s[..i], SplitN(s[i + 1..], ' ', n - 1));
      CutAt(s, i);
    }
  }

  lemma SpacedCons(field: string, rest: Fields)
    ensures Spaced([field] + rest) == field + [' '] + Spaced(rest)
  {
    assert ([field] + rest)[1..] == rest;
  }

  /** `str::strip_prefix` */
  function StripPrefix(s: string, prefix: string): (r: Option<string>)
    ensures r.Some? <==> prefix <= s
    ensures r.Some? ==> s == prefix + r.value
  {
    if prefix <= s then Some(s[|prefix|..]) else None
  }

  lemma StripPrefixOf(prefix: string, rest: string)
    ensures StripPrefix(prefix + rest, prefix) == Some(rest)
  {
  }

  // ---------- decimal numbers ----------

  function Digit(d: DecimalDigit): (c: char)
    ensures IsDigit(c)
  {
    ('0' as int + d) as char
  }

  function DigitValue(c: DigitChar): (d: nat)
    ensures d < 10 && Digit(d) == c
  {
    c as int - '0' as int
  }

  /** The decimal `Display` of an unsigned integer. */
  function Decimal(n: nat): (s: string)
    ensures |s| >= 1
    ensures forall c :: c in s ==> IsDigit(c)
  {
    if n < 10 then [Digit(n)] else Decimal(n / 10) + [Digit(n % 10)]
  }

  lemma PlainDecimal(n: nat)
    ensures Plain(Decimal(n)) && ' ' !in Decimal(n)
  {
    assert forall i :: 0 <= i < |Decimal(n)| ==> Decimal(n)[i] in Decimal(n);
  }

  type Digits = s: string | forall c :: c in s ==> IsDigit(c) witness ""

  function DigitsValue(s: Digits): nat {
    if s == [] then 0 else 10 * DigitsValue(s[..|s| - 1]) + DigitValue(s[|s| - 1])
  }

  lemma {:induction false} DecimalValue(n: nat)
    ensures DigitsValue(Decimal(n)) == n
  {
    if n < 10 {
      assert Decimal(n)[..0] == [];
    } else {
      DecimalValue(n / 10);
      assert Decimal(n)[..|Decimal(n)| - 1] == Decimal(n / 10);
    }
  }

  /** `str::parse::<u64>`: one leading `+` and any number of leading zeros are accepted. */
  function ParseU64(s: string): (r: Option<u64>)
    ensures r.Some? ==> forall c :: c in s ==> IsDigit(c) || c == '+'
  {
    if s != [] && s[0] == '+' then
      assert s == [s[0]] + s[1..];
      ParseDigits(s[1..])
    else ParseDigits(s)
  }

  function ParseDigits(body: string): (r: Option<u64>)
    ensures r.Some? ==> forall c :: c in body ==> IsDigit(c)
  {
    if body == [] || exists i :: 0 <= i < |body| && !IsDigit(body[i]) then None
    else
      var value := DigitsValue(body);
      if value <= U64_MAX then Some(value) else None
  }

  lemma ParseDecimal(n: nat)
    ensures ParseU64(Decimal(n)) == if n <= U64_MAX then Some(n) else None
  {
    hide Decimal, DigitsValue;
    DecimalValue(n);
    assert Decimal(n)[0] in Decimal(n);
  }

  type Zeros = s: string | forall c :: c in s ==> c == '0' witness ""

  ghost predicate Padded(s: string, n: u64) {
    exists zeros: Zeros :: s == zeros + Decimal(n)
  }

  /** How a number may be written: a plus sign or none, any number of zeros, and its digits. */
  ghost predicate Spells(s: string, n: u64) {
    exists zeros: Zeros :: s == zeros + Decimal(n) || s == "+" + (zeros + Decimal(n))
  }

  lemma {:induction false} ZerosAddNothing(zeros: Zeros, s: Digits)
    ensures forall c :: c in zeros + s ==> IsDigit(c)
    ensures DigitsValue(zeros + s) == DigitsValue(s)
    decreases |s|, |zeros|
  {
    if s != "" {
      ZerosAddNothing(zeros, s[..|s| - 1]);
      assert (zeros + s)[..|zeros + s| - 1] == zeros + s[..|s| - 1];
    } else if zeros != "" {
      var fewer := zeros[..|zeros| - 1];
      ZerosAddNothing(fewer, s);
      assert zeros + s == zeros && fewer + s == fewer;
      assert zeros[|zeros| - 1] in zeros && DigitValue('0') == 0;
    }
  }

  lemma DecimalStep(v: nat, d: DecimalDigit)
    ensures v > 0 ==> Decimal(10 * v + d) == Decimal(v) + [Digit(d)]
  {
  }

  lemma OneDigit(d: DecimalDigit)
    ensures Decimal(d) == [Digit(d)] && Decimal(0) == "0"
  {
  }

  lemma LastDigit(s: Digits)
    ensures s != "" ==> DigitsValue(s) == 10 * DigitsValue(s[..|s| - 1]) + DigitValue(s[|s| - 1])
  {
  }

  lemma NoDigits()
    ensures DigitsValue("") == 0
  {
  }

  lemma {:induction false} DigitsAreDecimal(s: Digits) returns (zeros: Zeros)
    requires s != ""
    ensures s == zeros + Decimal(DigitsValue(s))
    decreases |s|
  {
    hide Decimal, DigitsValue;
    var d := DigitValue(s[|s| - 1]);
    var front := s[..|s| - 1];
    OneDigit(d);
    LastDigit(s);
    assert s == front + [Digit(d)];
    if front == "" {
      zeros := "";
      NoDigits();
    } else {
      var more := DigitsAreDecimal(front);
      var v := DigitsValue(front);
      if v == 0 {
        zeros := more + "0";
      } else {
        zeros := more;
        DecimalStep(v, d);
        Associate(zeros, Decimal(v), [Digit(d)]);
      }
    }
  }

  lemma BodyExact(body: string, n: u64)
    ensures (body != "" && (forall c :: c in body ==> IsDigit(c)) && DigitsValue(body) == n) <==> Padded(body, n)
  {
    hide Decimal, DigitsValue;
    if body != "" && (forall c :: c in body ==> IsDigit(c)) && DigitsValue(body) == n {
      var zeros := DigitsAreDecimal(body);
    }
    forall zeros: Zeros | body == zeros + Decimal(n)
      ensures body != "" && (forall c :: c in body ==> IsDigit(c)) && DigitsValue(body) == n
    {
      ZerosAddNothing(zeros, Decimal(n));
      DecimalValue(n);
    }
  }

  lemma SpellsBody(s: string, n: u64)
    ensures Spells(s, n) <==> Padded(if s != [] && s[0] == '+' then s[1..] else s, n)
  {
    hide Decimal;
    var body := if s != [] && s[0] == '+' then s[1..] else s;
    forall zeros: Zeros ensures (s == zeros + Decimal(n) || s == "+" + (zeros + Decimal(n))) <==> body == zeros + Decimal(n) {
      var digits := zeros + Decimal(n);
      assert digits[0] == (if zeros == "" then Decimal(n)[0] else zeros[0]);
      assert Decimal(n)[0] in Decimal(n) && (zeros != "" ==> zeros[0] in zeros);
      if s == "+" + digits {
        assert s[1..] == digits;
      }
      if s != [] && s[0] == '+' {
        assert s == "+" + s[1..];
      }
    }
  }

  /** A number is accepted exactly if it is so written, and fits into 64 bits. */
  lemma NumberExact(s: string, n: u64)
    ensures ParseU64(s) == Some(n) <==> Spells(s, n)
  {
    hide Decimal, DigitsValue, Spells, Padded, ParseDigits;
    var body := if s != [] && s[0] == '+' then s[1..] else s;
    SpellsBody(s, n);
    DigitsExact(body, n);
  }

  lemma DigitsExact(body: string, n: u64)
    ensures ParseDigits(body) == Some(n) <==> Padded(body, n)
  {
    hide Decimal, DigitsValue, Padded;
    BodyExact(body, n);
    AllDigits(body);
  }

  lemma AllDigits(body: string)
    ensures (exists i :: 0 <= i < |body| && !IsDigit(body[i])) <==> !(forall c :: c in body ==> IsDigit(c))
  {
    if c :| c in body && !IsDigit(c) {
      var i :| 0 <= i < |body| && body[i] == c;
      assert !IsDigit(body[i]);
    }
  }

  // ---------- digests in hexadecimal ----------

  /** The 32 bytes of a SHA-256 value. */
  type Digest = d: string | |d| == 32 && forall i :: 0 <= i < |d| ==> IsByte(d[i])
    witness seq(32, _ => '\0')

  function HexDigit(d: Nibble): (c: char)
    ensures IsLowerHex(c)
  {
    if d < 10 then ('0' as int + d) as char else ('a' as int + d - 10) as char
  }

  function HexValue(c: HexChar): (d: nat)
    ensures d < 16 && HexDigit(d) == c
  {
    if IsDigit(c) then c as int - '0' as int else c as int - 'a' as int + 10
  }

  /** `Display for Sha256`: two lowercase hexadecimal digits a byte. */
  function Hex(bytes: Bytes): (t: string)
    ensures |t| == 2 * |bytes|
    ensures forall i :: 0 <= i < |t| ==> IsLowerHex(t[i])
  {
    if bytes == [] then ""
    else
      assert IsByte(bytes[0]);
      [HexDigit(bytes[0] as int / 16), HexDigit(bytes[0] as int % 16)] + Hex(bytes[1..])
  }

  lemma PlainHex(d: Digest)
    ensures Plain(Hex(d)) && ' ' !in Hex(d)
  {
  }

  function HexByte(hi: HexChar, lo: HexChar): (c: char)
    ensures IsByte(c) && c as int / 16 == HexValue(hi) && c as int % 16 == HexValue(lo)
  {
    (HexValue(hi) * 16 + HexValue(lo)) as char
  }

  predicate IsDigestHex(t: string) {
    |t| == 64 && forall i :: 0 <= i < |t| ==> IsLowerHex(t[i])
  }

  type DigestText = t: string | IsDigestHex(t) witness seq(64, _ => '0')

  /** What `parse_sha256` must return, byte by byte. */
  function ParseDigest(t: string): (r: Option<Digest>)
    ensures r.Some? <==> IsDigestHex(t)
    ensures r.Some? ==> forall i :: 0 <= i < 32 ==> r.value[i] == HexByte(t[2 * i], t[2 * i + 1])
  {
    if IsDigestHex(t) then
      Some(seq(32, i requires 0 <= i < 32 => HexByte(t[2 * i], t[2 * i + 1])))
    else None
  }

  lemma {:induction false} HexAt(bytes: Bytes, i: nat)
    requires i < |bytes|
    ensures Hex(bytes)[2 * i] == HexDigit(bytes[i] as int / 16)
    ensures Hex(bytes)[2 * i + 1] == HexDigit(bytes[i] as int % 16)
  {
    if i > 0 {
      HexAt(bytes[1..], i - 1);
    }
  }

  lemma HexDigitValue(d: Nibble)
    ensures HexValue(HexDigit(d)) == d
  {
  }

  /** Printing a digest and parsing it are inverse to each other, in both directions. */
  lemma {:induction false} DigestRoundTrip(d: Digest)
    ensures ParseDigest(Hex(d)) == Some(d)
  {
    var r := ParseDigest(Hex(d)).value;
    forall i | 0 <= i < 32 ensures r[i] == d[i] {
      HexAt(d, i);
      HexDigitValue(d[i] as int / 16);
      HexDigitValue(d[i] as int % 16);
    }
    assert r == d;
  }

  lemma {:induction false} DigestCanonical(t: DigestText)
    ensures Hex(ParseDigest(t).value) == t
  {
    var d := ParseDigest(t).value;
    forall i | 0 <= i < 64 ensures Hex(d)[i] == t[i] {
      HexAt(d, i / 2);
      assert i == 2 * (i / 2) || i == 2 * (i / 2) + 1;
    }
  }

  lemma HexInjective(a: Digest, b: Digest)
    ensures Hex(a) == Hex(b) <==> a == b
  {
    DigestRoundTrip(a);
    DigestRoundTrip(b);
  }

  /** `parse_sha256`, filling the 32-byte buffer two digits at a time. */
  method ParseSha256(value: string) returns (r: Option<Digest>)
    ensures r == ParseDigest(value)
  {
    if |value| != 64 {
      return None;
    }
    for i := 0 to 64
      invariant forall j :: 0 <= j < i ==> IsLowerHex(value[j])
    {
      if !IsLowerHex(value[i]) {
        return None;
      }
    }
    var digest := new char[32](_ => '\0');
    for index := 0 to 32
      invariant forall j :: 0 <= j < index ==> digest[j] == HexByte(value[2 * j], value[2 * j + 1])
    {
      digest[index] := HexByte(value[2 * index], value[2 * index + 1]);
    }
    assert digest[..] == ParseDigest(value).value;
    r := Some(digest[..]);
  }
}
