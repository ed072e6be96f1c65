/**
 Content-addressed asset keys, their filenames and public URLs (`workflow/asset_delivery.rs`).

 A key embeds the digest of its asset and, when it is named, one encoded filename segment. What is
 printed is what is accepted, and under one base different assets have different URLs.
 */
module AssetKeys {
  import opened Wrappers
  import opened Text
  import opened ContentPaths
  import Utf8

  // ---------- percent encoding ----------

  /** The unreserved characters of section 2.3 of RFC 3986. */
  predicate Unreserved(c: char) {
    'A' <= c <= 'Z' || 'a' <= c <= 'z' || IsDigit(c) || c == '-' || c == '.' || c == '_' || c == '~'
  }

  function UpperHex(d: Nibble): (c: char) {
    if d < 10 then ('0' as int + d) as char else ('A' as int + d - 10) as char
  }

  predicate IsUpperHex(c: char) {
    IsDigit(c) || 'A' <= c <= 'F'
  }

  type UpperHexChar = c: char | IsUpperHex(c) witness '0'

  function UpperHexValue(c: UpperHexChar): (d: nat)
    ensures d < 16 && UpperHex(d) == c
  {
    if IsDigit(c) then c as int - '0' as int else c as int - 'A' as int + 10
  }

  function EncodedByte(c: ByteChar): string {
    if Unreserved(c) then [c] else ['%', UpperHex(c as int / 16), UpperHex(c as int % 16)]
  }

  function Encoded(value: Bytes): string
    decreases |value|
  {
    if value == "" then "" else
      assert IsByte(value[0]);
      EncodedByte(value[0]) + Encoded(value[1..])
  }

  /** `percent_encode_segment` */
  method PercentEncodeSegment(value: Bytes) returns (encoded: string)
    ensures encoded == Encoded(value)
  {
    encoded := "";
    assert value[0..] == value && "" + Encoded(value) == Encoded(value);
    for i := 0 to |value|
      invariant encoded + Encoded(value[i..]) == Encoded(value)
    {
      assert IsByte(value[i]) && value[i..][0] == value[i] && value[i..][1..] == value[i + 1..];
      Associate(encoded, EncodedByte(value[i]), Encoded(value[i + 1..]));
      if Unreserved(value[i]) {
        encoded := encoded + [value[i]];
      } else {
        encoded := encoded + ['%', UpperHex(value[i] as int / 16), UpperHex(value[i] as int % 16)];
      }
    }
    assert encoded + "" == encoded;
  }

  /** Reads `%XX` and unreserved characters, and nothing else. */
  function Decoded(text: string): Option<string>
    decreases |text|
  {
    if text == "" then Some("")
    else if Unreserved(text[0]) then Prepend(text[0], Decoded(text[1..]))
    else if text[0] == '%' && |text| >= 3 && IsUpperHex(text[1]) && IsUpperHex(text[2]) then
      Prepend((UpperHexValue(text[1]) * 16 + UpperHexValue(text[2])) as char, Decoded(text[3..]))
    else None
  }

  function Prepend(c: char, rest: Option<string>): Option<string> {
    match rest
    case None => None
    case Some(s) => Some([c] + s)
  }

  lemma DecodeByte(c: ByteChar, rest: string)
    ensures Decoded(EncodedByte(c) + rest) == Prepend(c, Decoded(rest))
  {
    var text := EncodedByte(c) + rest;
    if Unreserved(c) {
      assert text[1..] == rest;
    } else {
      assert text[3..] == rest;
      UpperHexDigit(c as int / 16);
      UpperHexDigit(c as int % 16);
    }
  }

  lemma UpperHexDigit(d: Nibble)
    ensures IsUpperHex(UpperHex(d)) && UpperHexValue(UpperHex(d)) == d
  {
  }

  /** Decoding inverts encoding, which therefore loses nothing. */
  lemma {:induction false} DecodeInvertsEncode(value: Bytes)
    ensures Decoded(Encoded(value)) == Some(value)
    decreases |value|
  {
    if value != "" {
      assert IsByte(value[0]);
      DecodeInvertsEncode(value[1..]);
      DecodeByte(value[0], Encoded(value[1..]));
      HeadAndTail(value);
    }
  }

  /** What encoding emits: unreserved characters and `%` only, so no separator, query or fragment. */
  lemma {:induction false} EncodedIsSafe(value: Bytes)
    ensures forall c :: c in Encoded(value) ==> Unreserved(c) || c == '%'
    ensures value != "" ==> Encoded(value) != ""
    decreases |value|
  {
    if value != "" {
      EncodedIsSafe(value[1..]);
    }
  }

  /** Exactly the values made of unreserved characters are left as they are. */
  lemma {:induction false} EncodedKeepsUnreserved(value: Bytes)
    ensures |Encoded(value)| >= |value|
    ensures Encoded(value) == value <==> forall c :: c in value ==> Unreserved(c)
    decreases |value|
  {
    if value != "" {
      EncodedKeepsUnreserved(value[1..]);
      HeadAndTail(value);
      assert Unreserved(value[0]) ==> Encoded(value)[1..] == Encoded(value[1..]);
    }
  }

  lemma EncodedInjective(a: Bytes, b: Bytes)
    ensures Encoded(a) == Encoded(b) <==> a == b
  {
    DecodeInvertsEncode(a);
    DecodeInvertsEncode(b);
  }

  // ---------- filenames ----------

  const MAX_FILENAME_BYTES := 255

  datatype FilenameError =
    | EmptyFilename | NotASingleSegment | RelativeSegment | ControlCharacter | TooLong
    | UnusableBasename | UnsupportedContentType

  predicate IsFilename(s: string) {
    && AllBytes(s) && s != "" && '/' !in s && '\\' !in s && s != "." && s != ".."
    && !Utf8.HasControl(s) && |s| <= MAX_FILENAME_BYTES
  }

  type Filename = s: string | IsFilename(s) witness "a"

  /** `AssetPublicFilename::new` */
  function NewFilename(value: Bytes): (r: Result<Filename, FilenameError>)
    ensures r.Success? <==> IsFilename(value)
    ensures r.Success? ==> r.value == value
  {
    if value == "" then Failure(EmptyFilename)
    else if '/' in value || '\\' in value then Failure(NotASingleSegment)
    else if value == "." || value == ".." then Failure(RelativeSegment)
    else if Utf8.HasControl(value) then Failure(ControlCharacter)
    else if |value| > MAX_FILENAME_BYTES then Failure(TooLong)
    else Success(value)
  }

  // ---------- keys ----------

  const ASSET_OBJECT_KEY_PREFIX := "assets/sha256"

  datatype AssetObjectKey = AssetObjectKey(text: string, filename: Option<Filename>)

  /** The segments of a key, legacy or named. */
  function KeySegments(sha256: Digest, filename: Option<Filename>): seq<string> {
    [Hex(sha256)[..2], Hex(sha256)] + (match filename case None => [] case Some(f) => [f])
  }

  /** The last part of a key: the digest, and the filename when there is one. */
  function KeyTail(sha256: Digest, filename: Option<Filename>): string {
    match filename case None => Hex(sha256) case Some(f) => Hex(sha256) + ['/'] + f
  }

  /** The prefix and the two-digit fan-out segment, each with its separator. */
  function KeyFront(sha256: Digest): string {
    (ASSET_OBJECT_KEY_PREFIX + "/") + (Hex(sha256)[..2] + ['/'])
  }

  function KeyText(sha256: Digest, filename: Option<Filename>): string {
    KeyFront(sha256) + KeyTail(sha256, filename)
  }

  /** `for_published_asset` and `legacy_for_published_sha256` */
  function KeyFor(sha256: Digest, filename: Option<Filename>): AssetObjectKey {
    AssetObjectKey(KeyText(sha256, filename), filename)
  }

  predicate IsLowerHexText(value: string, length: nat) {
    |value| == length && forall i :: 0 <= i < |value| ==> IsLowerHex(value[i])
  }

  /** `rehydrate`: each segment is pinned, one after the other. */
  function Rehydrate(value: Bytes): Option<AssetObjectKey> {
    match StripPrefix(value, ASSET_OBJECT_KEY_PREFIX + "/")
    case None => None
    case Some(rest) => FromSegments(value, Split(rest, '/'))
  }

  function FromSegments(value: string, segments: seq<string>): Option<AssetObjectKey> {
    if |segments| < 2 || |segments| > 3 then None
    else if |segments| == 3 && !IsFilename(segments[2]) then None
    else if !IsLowerHexText(segments[0], 2) || !IsLowerHexText(segments[1], 64) || !(segments[0] <= segments[1]) then None
    else Some(AssetObjectKey(value, if |segments| == 2 then None else Some(segments[2])))
  }

  lemma HexHasNoSlash(sha256: Digest)
    ensures '/' !in Hex(sha256) && '/' !in Hex(sha256)[..2]
  {
  }

  lemma KeyTextSplits(sha256: Digest, filename: Option<Filename>)
    ensures var p := ASSET_OBJECT_KEY_PREFIX + "/";
      p <= KeyText(sha256, filename) && Split(KeyText(sha256, filename)[|p|..], '/') == KeySegments(sha256, filename)
  {
    hide Split, Hex, IsFilename;
    var hex, p, tail := Hex(sha256), ASSET_OBJECT_KEY_PREFIX + "/", KeyTail(sha256, filename);
    HexHasNoSlash(sha256);
    DropFront(p, hex[..2] + ['/'], tail);
    SplitCons(hex[..2], '/', tail);
    KeyTailSplits(sha256, filename);
    ThreeSegments(hex[..2], hex, match filename case None => [] case Some(f) => [f]);
  }

  lemma DropFront(p: string, q: string, r: string)
    ensures p <= (p + q) + r && ((p + q) + r)[|p|..] == q + r
  {
  }

  lemma ThreeSegments(a: string, b: string, c: seq<string>)
    ensures [a] + ([b] + c) == [a, b] + c
  {
  }

  lemma KeyTailSplits(sha256: Digest, filename: Option<Filename>)
    ensures Split(KeyTail(sha256, filename), '/') == [Hex(sha256)] + (match filename case None => [] case Some(f) => [f])
  {
    hide Split, Hex, Utf8.HasControl;
    HexHasNoSlash(sha256);
    match filename
    case None => NoSeparator(Hex(sha256));
    case Some(f) =>
      NoSeparator(f);
      SplitCons(Hex(sha256), '/', f);
  }

  lemma NoSeparator(s: string)
    requires '/' !in s
    ensures Split(s, '/') == [s]
  {
    IndexOfIs(s, '/', |s|);
  }

  /** Every printed key is read back as itself. */
  lemma PrintedIsAccepted(sha256: Digest, filename: Option<Filename>)
    ensures AllBytes(KeyText(sha256, filename))
    ensures Rehydrate(KeyText(sha256, filename)) == Some(KeyFor(sha256, filename))
  {
    hide Split, Hex, Utf8.HasControl, AllBytes;
    KeyTextIsBytes(sha256, filename);
    KeyTextSplits(sha256, filename);
    SegmentsAccepted(KeyText(sha256, filename), sha256, filename);
  }

  lemma SegmentsAccepted(value: string, sha256: Digest, filename: Option<Filename>)
    ensures FromSegments(value, KeySegments(sha256, filename)) == Some(AssetObjectKey(value, filename))
  {
    var segments := KeySegments(sha256, filename);
    assert segments[0] == Hex(sha256)[..2] && segments[1] == Hex(sha256);
    match filename
    case None => assert |segments| == 2;
    case Some(f) => assert segments[2] == f && |segments| == 3;
  }

  lemma KeyTextIsBytes(sha256: Digest, filename: Option<Filename>)
    ensures AllBytes(KeyText(sha256, filename))
  {
    var p := ASSET_OBJECT_KEY_PREFIX + "/";
    assert forall i :: 0 <= i < |p| ==> IsByte(p[i]);
  }

  /** Everything accepted is the printed form of the digest and filename it carries. */
  lemma AcceptedIsPrinted(value: Bytes) returns (sha256: Digest)
    requires Rehydrate(value).Some?
    ensures var k := Rehydrate(value).value;
      k == KeyFor(sha256, k.filename) && k.text == value
  {
    hide Split, Hex, ParseDigest, Utf8.HasControl, KeyText;
    var rest := StripPrefix(value, ASSET_OBJECT_KEY_PREFIX + "/").value;
    var segments := Split(rest, '/');
    sha256 := SegmentDigest(segments);
    SegmentsJoined(rest, segments);
    JoinedIsKey(sha256, segments);
  }

  lemma SegmentDigest(segments: seq<string>) returns (sha256: Digest)
    requires |segments| >= 2 && IsLowerHexText(segments[0], 2) && IsLowerHexText(segments[1], 64) && segments[0] <= segments[1]
    ensures Hex(sha256) == segments[1] && Hex(sha256)[..2] == segments[0]
  {
    sha256 := ParseDigest(segments[1]).value;
    DigestCanonical(segments[1]);
  }

  lemma JoinedIsKey(sha256: Digest, segments: seq<string>)
    requires 2 <= |segments| <= 3 && Hex(sha256) == segments[1] && Hex(sha256)[..2] == segments[0]
    requires |segments| == 3 ==> IsFilename(segments[2])
    ensures KeyText(sha256, if |segments| == 2 then None else Some(segments[2])) ==
      (ASSET_OBJECT_KEY_PREFIX + "/") + (segments[0] + ['/'] + (if |segments| == 2 then segments[1] else segments[1] + ['/'] + segments[2]))
  {
    hide Hex, Utf8.HasControl;
    var tail := if |segments| == 2 then segments[1] else segments[1] + ['/'] + segments[2];
    Associate(ASSET_OBJECT_KEY_PREFIX + "/", segments[0] + ['/'], tail);
  }

  lemma SegmentsJoined(rest: string, segments: seq<string>)
    requires segments == Split(rest, '/') && 2 <= |segments| <= 3
    ensures rest == segments[0] + ['/'] + (if |segments| == 2 then segments[1] else segments[1] + ['/'] + segments[2])
  {
    var i := IndexOf(rest, '/');
    var more := rest[i + 1..];
    CutAt(rest, i);
    assert segments[1..] == Split(more, '/');
    var j := IndexOf(more, '/');
    if |segments| == 3 {
      CutAt(more, j);
      assert segments[2..] == Split(more[j + 1..], '/');
    }
  }

  /** `rehydrate` accepts exactly the printed canonical keys. */
  lemma RehydrateExact(value: Bytes)
    ensures Rehydrate(value).Some? <==> exists sha256: Digest, filename: Option<Filename> :: value == KeyText(sha256, filename)
  {
    if Rehydrate(value).Some? {
      var sha256 := AcceptedIsPrinted(value);
      assert value == KeyText(sha256, Rehydrate(value).value.filename);
    }
    forall sha256: Digest, filename: Option<Filename> | value == KeyText(sha256, filename) ensures Rehydrate(value).Some? {
      PrintedIsAccepted(sha256, filename);
    }
  }

  /** `digest_hex` */
  function DigestHex(key: AssetObjectKey): string
    requires |key.text| >= 81
  {
    key.text[17..81]
  }

  lemma DigestHexOf(sha256: Digest, filename: Option<Filename>)
    ensures |KeyText(sha256, filename)| >= 81 && DigestHex(KeyFor(sha256, filename)) == Hex(sha256)
  {
  }

  /** `published_sha256`: two digits a byte, into the 32-byte buffer. */
  method PublishedSha256(key: AssetObjectKey) returns (sha256: Digest)
    requires |key.text| >= 81 && IsDigestHex(DigestHex(key))
    ensures Hex(sha256) == DigestHex(key)
  {
    var hex := DigestHex(key);
    var bytes := new char[32](_ => '\0');
    for index := 0 to 32
      invariant forall j :: 0 <= j < index ==> bytes[j] == HexByte(hex[2 * j], hex[2 * j + 1])
    {
      bytes[index] := HexByte(hex[2 * index], hex[2 * index + 1]);
    }
    assert bytes[..] == ParseDigest(hex).value;
    DigestCanonical(hex);
    sha256 := bytes[..];
  }

  /** The digest a key was made from is the digest read back from it. */
  method RecoverDigest(sha256: Digest, filename: Option<Filename>) returns (recovered: Digest)
    ensures recovered == sha256
  {
    DigestHexOf(sha256, filename);
    recovered := PublishedSha256(KeyFor(sha256, filename));
    HexInjective(recovered, sha256);
  }

  // ---------- URLs ----------

  /** `as_url_path`: the key with its filename segment encoded. */
  function AsUrlPath(key: AssetObjectKey): string
    requires key.filename.Some? ==> |key.filename.value| <= |key.text|
  {
    match key.filename
    case None => key.text
    case Some(f) => key.text[..|key.text| - |f|] + Encoded(f)
  }

  /** `AssetDeliveryConfig::public_url` */
  function PublicUrl(base: string, key: AssetObjectKey): string
    requires key.filename.Some? ==> |key.filename.value| <= |key.text|
  {
    base + "/" + AsUrlPath(key)
  }

  /** The segments a key has in a URL: those of the key, with the filename encoded. */
  function UrlSegments(sha256: Digest, filename: Option<Filename>): seq<string> {
    ["assets", "sha256", Hex(sha256)[..2]] + ([Hex(sha256)] + (match filename case None => [] case Some(f) => [Encoded(f)]))
  }

  function UrlTail(sha256: Digest, filename: Option<Filename>): string {
    match filename case None => Hex(sha256) case Some(f) => Hex(sha256) + ['/'] + Encoded(f)
  }

  function UrlText(sha256: Digest, filename: Option<Filename>): string {
    KeyFront(sha256) + UrlTail(sha256, filename)
  }

  lemma UrlTextIs(sha256: Digest, filename: Option<Filename>)
    ensures filename.Some? ==> |filename.value| <= |KeyText(sha256, filename)|
    ensures AsUrlPath(KeyFor(sha256, filename)) == UrlText(sha256, filename)
  {
    hide Hex, Encoded, Utf8.HasControl;
    if filename.Some? {
      var f := filename.value;
      SwapTail(KeyFront(sha256), Hex(sha256) + ['/'], f, Encoded(f));
    }
  }

  lemma SwapTail(front: string, mid: string, f: string, g: string)
    ensures var text := front + (mid + f);
      |f| <= |text| && text[..|text| - |f|] + g == front + (mid + g)
  {
    var text := front + (mid + f);
    assert text[..|text| - |f|] == front + mid;
  }

  /** A filename never adds a segment to a URL, nor takes one away. */
  lemma UrlKeepsSegments(sha256: Digest, filename: Option<Filename>)
    ensures filename.Some? ==> |filename.value| <= |KeyText(sha256, filename)|
    ensures Split(AsUrlPath(KeyFor(sha256, filename)), '/') == UrlSegments(sha256, filename)
  {
    hide Split, Encoded, Hex, AsUrlPath, KeyText, KeyFront;
    UrlTextIs(sha256, filename);
    var hex, last := Hex(sha256), UrlTail(sha256, filename);
    UrlTailSplits(sha256, filename);
    HexHasNoSlash(sha256);
    FrontNests(sha256, last);
    SplitCons(hex[..2], '/', last);
    SplitCons("sha256", '/', hex[..2] + ['/'] + last);
    SplitCons("assets", '/', "sha256" + ['/'] + (hex[..2] + ['/'] + last));
    FourSegments("assets", "sha256", hex[..2], Split(last, '/'));
  }

  lemma FrontNests(sha256: Digest, tail: string)
    ensures KeyFront(sha256) + tail == "assets" + ['/'] + ("sha256" + ['/'] + (Hex(sha256)[..2] + ['/'] + tail))
  {
    hide Hex;
    assert ASSET_OBJECT_KEY_PREFIX + "/" == "assets" + ['/'] + ("sha256" + ['/']);
    Nest("assets" + ['/'], "sha256" + ['/'], Hex(sha256)[..2] + ['/'], tail);
  }

  lemma Nest(a: string, b: string, c: string, d: string)
    ensures ((a + b) + c) + d == a + (b + (c + d))
  {
  }

  lemma FourSegments(a: string, b: string, c: string, rest: seq<string>)
    ensures [a] + ([b] + ([c] + rest)) == [a, b, c] + rest
  {
  }

  lemma UrlTailSplits(sha256: Digest, filename: Option<Filename>)
    ensures [Hex(sha256)] + (match filename case None => [] case Some(f) => [Encoded(f)]) == Split(UrlTail(sha256, filename), '/')
  {
    hide Split, Encoded, Hex, Utf8.HasControl;
    HexHasNoSlash(sha256);
    match filename
    case None => NoSeparator(Hex(sha256));
    case Some(f) =>
      EncodedIsSafe(f);
      NoSeparator(Encoded(f));
      SplitCons(Hex(sha256), '/', Encoded(f));
  }

  /** Under one base, no two keys, legacy or named, share a public URL. */
  lemma PublicUrlInjective(base: string, a: Digest, f: Option<Filename>, b: Digest, g: Option<Filename>)
    ensures f.Some? ==> |f.value| <= |KeyText(a, f)|
    ensures g.Some? ==> |g.value| <= |KeyText(b, g)|
    ensures PublicUrl(base, KeyFor(a, f)) == PublicUrl(base, KeyFor(b, g)) <==> a == b && f == g
  {
    UrlKeepsSegments(a, f);
    UrlKeepsSegments(b, g);
    if PublicUrl(base, KeyFor(a, f)) == PublicUrl(base, KeyFor(b, g)) {
      var front := base + "/";
      assert (front + AsUrlPath(KeyFor(a, f)))[|front|..] == (front + AsUrlPath(KeyFor(b, g)))[|front|..];
      SameSegments(a, f, b, g);
    }
  }

  lemma SameSegments(a: Digest, f: Option<Filename>, b: Digest, g: Option<Filename>)
    ensures UrlSegments(a, f) == UrlSegments(b, g) <==> a == b && f == g
  {
    var x, y := UrlSegments(a, f), UrlSegments(b, g);
    assert x[3] == Hex(a) && y[3] == Hex(b);
    assert |x| == (if f.Some? then 5 else 4) && |y| == (if g.Some? then 5 else 4);
    HexInjective(a, b);
    if f.Some? && g.Some? {
      assert x[4] == Encoded(f.value) && y[4] == Encoded(g.value);
      EncodedInjective(f.value, g.value);
    }
  }

  // ---------- the public base ----------

  datatype BaseError =
    | EmptyBase | UnsupportedScheme | NotAscii | ContainsQueryOrFragment | NotCanonicalBase
    | MissingAuthority | ContainsCredentials

  const SCHEME := "https://"

  /** `trim_end_matches(c)` */
  function TrimmedEnd(s: string, c: char): (t: string)
    ensures t <= s && (t == "" || t[|t| - 1] != c)
    ensures forall i :: |t| <= i < |s| ==> s[i] == c
  {
    if s == "" || s[|s| - 1] != c then s else TrimmedEnd(s[..|s| - 1], c)
  }

  /** What must hold of an address whose trailing slashes are gone. */
  function AddressProblem(address: string): Option<BaseError> {
    var i := IndexOf(address, '/');
    var authority := address[..i];
    if authority == "" then Some(MissingAuthority)
    else if '@' in authority then Some(ContainsCredentials)
    else if i < |address| && exists part :: part in Split(address[i + 1..], '/') && !PlainSegment(part) then Some(NotCanonicalBase)
    else None
  }

  /** `AssetPublicBaseUrl::new` */
  function NewBase(value: string): Result<string, BaseError> {
    if value == "" then Failure(EmptyBase)
    else if !(SCHEME <= value) then Failure(UnsupportedScheme)
    else if exists i :: 0 <= i < |value| && value[i] as int >= 0x80 then Failure(NotAscii)
    else if '?' in value || '#' in value then Failure(ContainsQueryOrFragment)
    else if exists i :: 0 <= i < |value| && (value[i] as int <= 0x20 || value[i] as int == 0x7F) then Failure(NotCanonicalBase)
    else
      var address := TrimmedEnd(value[|SCHEME|..], '/');
      match AddressProblem(address)
      case Some(error) => Failure(error)
      case None => Success(SCHEME + address)
  }

  lemma TrimmedTwice(s: string, c: char)
    ensures TrimmedEnd(TrimmedEnd(s, c), c) == TrimmedEnd(s, c)
  {
  }

  lemma AddressHasAuthority(address: string)
    ensures AddressProblem(address).None? ==> address != ""
  {
  }

  lemma FrontIsClean(value: string, n: nat)
    requires n <= |value|
    ensures (exists i :: 0 <= i < n && value[..n][i] as int >= 0x80) ==> exists i :: 0 <= i < |value| && value[i] as int >= 0x80
    ensures '?' in value[..n] || '#' in value[..n] ==> '?' in value || '#' in value
    ensures (exists i :: 0 <= i < n && (value[..n][i] as int <= 0x20 || value[..n][i] as int == 0x7F)) ==>
      exists i :: 0 <= i < |value| && (value[i] as int <= 0x20 || value[i] as int == 0x7F)
  {
  }

  /** An accepted base is canonical: it is the value without trailing slashes, and names itself. */
  lemma BaseIsCanonical(value: string)
    requires NewBase(value).Success?
    ensures var base := NewBase(value).value;
      && NewBase(base) == Success(base)
      && base <= value && (forall i :: |base| <= i < |value| ==> value[i] == '/')
      && base[|base| - 1] != '/'
  {
    hide AddressProblem, TrimmedEnd;
    var rest := value[|SCHEME|..];
    var address := TrimmedEnd(rest, '/');
    var base := NewBase(value).value;
    assert value == SCHEME + rest && base == SCHEME + address && base[|SCHEME|..] == address;
    AddressHasAuthority(address);
    TrimmedTwice(rest, '/');
    assert base == value[..|base|];
    FrontIsClean(value, |base|);
    assert base[|base| - 1] == address[|address| - 1];
  }

  // ---------- filenames derived from paths ----------

  datatype ExtensionRule = Exact(extensions: seq<string>) | Unclaimed

  /** Every rule names extensions that can follow a dot. */
  predicate GoodRule(rule: ExtensionRule) {
    rule.Exact? ==>
      rule.extensions != [] && rule.extensions[0] != "" && '.' !in rule.extensions[0] && AllBytes(rule.extensions[0])
  }

  type NamingRule = r: ExtensionRule | GoodRule(r) witness Unclaimed

  type Extension = e: string | e != "" && '.' !in e && AllBytes(e) witness "md"

  function One(extension: Extension): NamingRule {
    Exact([extension])
  }

  function Two(extension: Extension, other: string): NamingRule {
    Exact([extension, other])
  }

  /** `extension_rule`: the media types that can be named truthfully. */
  function RuleFor(contentType: string): Option<NamingRule> {
    if contentType == "image/png" then Some(One("png"))
    else if contentType == "image/jpeg" then Some(Two("jpg", "jpeg"))
    else if contentType == "image/gif" then Some(One("gif"))
    else if contentType == "image/webp" then Some(One("webp"))
    else if contentType == "image/avif" then Some(One("avif"))
    else if contentType == "image/tiff" then Some(Two("tiff", "tif"))
    else if contentType == "image/bmp" then Some(One("bmp"))
    else if contentType == "image/svg+xml" then Some(One("svg"))
    else if contentType == "application/pdf" then Some(One("pdf"))
    else if contentType == "application/json" then Some(One("json"))
    else if contentType == "application/zip" then Some(One("zip"))
    else if contentType == "text/plain" then Some(One("txt"))
    else if contentType == "text/markdown" then Some(One("md"))
    else if contentType == "text/csv" then Some(One("csv"))
    else if contentType == "audio/mpeg" then Some(One("mp3"))
    else if contentType == "video/mp4" then Some(One("mp4"))
    else if contentType == "application/octet-stream" then Some(Unclaimed)
    else None
  }

  /** `rfind(c)`, or the length when there is none. */
  function LastIndexOf(s: string, c: char): (i: nat)
    ensures i <= |s|
    ensures i < |s| ==> s[i] == c && forall j :: i < j < |s| ==> s[j] != c
    ensures i == |s| ==> c !in s
  {
    if s == "" then 0
    else if s[|s| - 1] == c then |s| - 1
    else
      var i := LastIndexOf(s[..|s| - 1], c);
      if i == |s| - 1 then |s| else i
  }

  /** `split_extension`: neither a leading dot nor a trailing one separates an extension. */
  function SplitExtension(basename: string): (string, Option<string>) {
    var i := LastIndexOf(basename, '.');
    if 0 < i && i + 1 < |basename| then (basename[..i], Some(basename[i + 1..])) else (basename, None)
  }

  function LowerAscii(s: string): string {
    seq(|s|, i requires 0 <= i < |s| => if 'A' <= s[i] <= 'Z' then (s[i] as int + 32) as char else s[i])
  }

  predicate SameIgnoringCase(a: string, b: string) {
    LowerAscii(a) == LowerAscii(b)
  }

  /** The extension is one of those the rule allows. */
  predicate Allowed(extension: Option<string>, extensions: seq<string>) {
    extension.Some? && exists i :: 0 <= i < |extensions| && SameIgnoringCase(extensions[i], extension.value)
  }

  /** The name before it is validated. */
  function Derived(basename: string, rule: NamingRule): Result<string, FilenameError> {
    match rule
    case Unclaimed => Success(basename)
    case Exact(extensions) =>
      var (stem, extension) := SplitExtension(basename);
      if Allowed(extension, extensions) then Success(basename)
      else
        var kept := TrimmedEnd(stem, '.');
        if kept == "" then Failure(UnusableBasename) else Success(kept + ['.'] + extensions[0])
  }

  /** `AssetPublicFilename::from_logical_path` */
  function FromLogicalPath(path: ContentPath, contentType: string): Result<Filename, FilenameError>
    requires AllBytes(FileName(path))
  {
    match RuleFor(contentType)
    case None => Failure(UnsupportedContentType)
    case Some(rule) =>
      match Derived(FileName(path), rule)
      case Failure(error) => Failure(error)
      case Success(name) =>
        DerivedIsBytes(FileName(path), rule);
        NewFilename(name)
  }

  lemma DerivedIsBytes(basename: Bytes, rule: NamingRule)
    ensures Derived(basename, rule).Success? ==> AllBytes(Derived(basename, rule).value)
  {
  }

  lemma NewExtension(kept: string, extension: string)
    requires kept != "" && extension != "" && '.' !in extension
    ensures SplitExtension(kept + ['.'] + extension) == (kept, Some(extension))
  {
    var name := kept + ['.'] + extension;
    var i := LastIndexOf(name, '.');
    assert name[|kept|] == '.';
    assert forall j :: |kept| < j < |name| ==> name[j] == extension[j - |kept| - 1];
    assert i == |kept|;
    assert name[..i] == kept && name[i + 1..] == extension;
  }

  /** A derived name never contradicts its media type, and deriving again changes nothing. */
  lemma DerivedNameIsTruthful(basename: string, rule: NamingRule)
    requires Derived(basename, rule).Success?
    ensures var name := Derived(basename, rule).value;
      && (rule.Unclaimed? ==> name == basename)
      && (rule.Exact? ==> Allowed(SplitExtension(name).1, rule.extensions))
      && (rule.Exact? && Allowed(SplitExtension(basename).1, rule.extensions) ==> name == basename)
      && Derived(name, rule) == Success(name)
  {
    if rule.Exact? && !Allowed(SplitExtension(basename).1, rule.extensions) {
      NewExtension(TrimmedEnd(SplitExtension(basename).0, '.'), rule.extensions[0]);
      assert SameIgnoringCase(rule.extensions[0], rule.extensions[0]);
    }
  }

  /** The filename of a published asset: one segment, with an extension its media type allows. */
  lemma FilenameIsTruthful(path: ContentPath, contentType: string)
    requires AllBytes(FileName(path)) && FromLogicalPath(path, contentType).Success?
    ensures var name := FromLogicalPath(path, contentType).value;
      && RuleFor(contentType).Some?
      && match RuleFor(contentType).value
         case Unclaimed => name == FileName(path)
         case Exact(extensions) => Allowed(SplitExtension(name).1, extensions)
  {
    hide SplitExtension, Derived, RuleFor, IsFilename, FileName;
    DerivedNameIsTruthful(FileName(path), RuleFor(contentType).value);
  }
}
