/**
 What asset URLs, base addresses and derived filenames look like (`workflow/asset_delivery.rs`): how
 a URL is put together, exactly which base addresses are accepted and as what, and what becomes of a
 name whose extension its media type does not allow.
 */
module AssetNames {
  import opened Wrappers
  import opened Text
  import opened ContentPaths
  import opened AssetKeys
  import Utf8

  // ---------- URLs ----------

  /** A public URL is the base, the fixed prefix, the fan-out, the digest and the encoded filename, one segment each. */
  lemma PublicUrlExact(base: string, sha256: Digest, filename: Option<Filename>)
    ensures filename.Some? ==> |filename.value| <= |KeyText(sha256, filename)|
    ensures PublicUrl(base, KeyFor(sha256, filename)) ==
      base + ("/assets/sha256/" + (Hex(sha256)[..2] + ("/" + (Hex(sha256) + (match filename case None => "" case Some(f) => "/" + Encoded(f))))))
  {
    hide Hex, Encoded, AsUrlPath, Utf8.HasControl;
    UrlTextIs(sha256, filename);
    var hex, tail := Hex(sha256), UrlTail(sha256, filename);
    var last := match filename case None => "" case Some(f) => "/" + Encoded(f);
    assert tail == hex + last by {
      if filename.Some? {
        assert hex + ['/'] + Encoded(filename.value) == hex + ("/" + Encoded(filename.value));
      } else {
        assert hex + "" == hex;
      }
    }
    FrontIs(hex[..2], tail);
    Associate(base, "/", ("assets/sha256/") + (hex[..2] + ("/" + tail)));
    assert "/" + "assets/sha256/" == "/assets/sha256/";
    Associate("/", "assets/sha256/", hex[..2] + ("/" + tail));
  }

  lemma FrontIs(fan: string, tail: string)
    ensures ((ASSET_OBJECT_KEY_PREFIX + "/") + (fan + ['/'])) + tail == "assets/sha256/" + (fan + ("/" + tail))
  {
    assert ASSET_OBJECT_KEY_PREFIX + "/" == "assets/sha256/";
    Associate("assets/sha256/", fan + ['/'], tail);
    Associate(fan, ['/'], tail);
    assert ['/'] == "/";
  }

  // ---------- bases ----------

  type Slashes = s: string | forall i :: 0 <= i < |s| ==> s[i] == '/' witness ""

  /** A host, and perhaps a port, but no credentials. */
  predicate Authority(s: string) {
    s != "" && '/' !in s && '@' !in s
  }

  /** Nothing, or segments that are names. */
  predicate BasePath(s: string) {
    s == "" || (s[0] == '/' && forall part :: part in Split(s[1..], '/') ==> PlainSegment(part))
  }

  /** Printable ASCII, and neither query nor fragment. */
  predicate UrlCharacters(s: string) {
    forall i :: 0 <= i < |s| ==> 0x20 < s[i] as int < 0x7F && s[i] != '?' && s[i] != '#'
  }

  /** How an accepted value is put together. */
  predicate BaseSpelling(value: string, authority: string, path: string, slashes: Slashes) {
    && value == "https://" + ((authority + path) + slashes)
    && Authority(authority) && BasePath(path) && UrlCharacters(value)
  }

  lemma {:induction false} TrimmedIs(t: string, slashes: Slashes)
    requires t == "" || t[|t| - 1] != '/'
    ensures TrimmedEnd(t + slashes, '/') == t
    decreases |slashes|
  {
    if slashes == "" {
      assert t + slashes == t;
    } else {
      var fewer := slashes[..|slashes| - 1];
      assert (t + slashes)[..|t + slashes| - 1] == t + fewer;
      TrimmedIs(t, fewer);
    }
  }

  lemma {:induction false} EndsInGap(s: string)
    requires s == "" || s[|s| - 1] == '/'
    ensures "" in Split(s, '/')
    decreases |s|
  {
    var i := IndexOf(s, '/');
    if i < |s| {
      EndsInGap(s[i + 1..]);
      assert Split(s, '/') == [s[..i]] + Split(s[i + 1..], '/');
    } else {
      assert Split(s, '/')[0] == "";
    }
  }

  lemma NoSlashAtTheEnd(authority: string, path: string)
    requires Authority(authority) && BasePath(path)
    ensures (authority + path)[|authority + path| - 1] != '/'
  {
    hide Split;
    var address := authority + path;
    if path == "" {
      assert address == authority;
    } else if address[|address| - 1] == '/' {
      EndsInGap(path[1..]);
    }
  }

  lemma AddressExact(authority: string, path: string)
    requires '/' !in authority && (path == "" || path[0] == '/')
    ensures AddressProblem(authority + path) ==
      if authority == "" then Some(MissingAuthority)
      else if '@' in authority then Some(ContainsCredentials)
      else if !BasePath(path) then Some(NotCanonicalBase) else None
  {
    hide Split;
    IndexOfIs(authority + path, '/', |authority|);
    assert (authority + path)[..|authority|] == authority;
    if path != "" {
      assert (authority + path)[|authority| + 1..] == path[1..];
    }
  }

  lemma CharactersExact(value: string)
    ensures UrlCharacters(value) <==>
      && !(exists i :: 0 <= i < |value| && value[i] as int >= 0x80)
      && !('?' in value || '#' in value)
      && !(exists i :: 0 <= i < |value| && (value[i] as int <= 0x20 || value[i] as int == 0x7F))
  {
  }

  lemma SpelledIsAccepted(value: string, authority: string, path: string, slashes: Slashes)
    requires BaseSpelling(value, authority, path, slashes)
    ensures NewBase(value) == Success("https://" + (authority + path))
  {
    hide AddressProblem, UrlCharacters, BasePath, TrimmedEnd;
    CharactersExact(value);
    assert value[8..] == (authority + path) + slashes;
    NoSlashAtTheEnd(authority, path);
    TrimmedIs(authority + path, slashes);
    PathStarts(path);
    AddressExact(authority, path);
  }

  lemma PathStarts(path: string)
    ensures BasePath(path) ==> path == "" || path[0] == '/'
  {
  }

  lemma AcceptedIsSpelled(value: string) returns (authority: string, path: string, slashes: Slashes)
    requires NewBase(value).Success?
    ensures BaseSpelling(value, authority, path, slashes) && NewBase(value).value == "https://" + (authority + path)
  {
    hide AddressProblem, UrlCharacters, BasePath, TrimmedEnd, Split;
    CharactersExact(value);
    var rest := value[8..];
    var address := TrimmedEnd(rest, '/');
    slashes := rest[|address|..];
    var i := IndexOf(address, '/');
    authority, path := address[..i], address[i..];
    assert authority + path == address && address + slashes == rest;
    assert value == "https://" + rest;
    AddressExact(authority, path);
  }

  /** A base is accepted exactly if it is so put together, and what is kept is all but the trailing slashes. */
  lemma BaseExact(value: string, base: string)
    ensures NewBase(value) == Success(base) <==>
      exists authority: string, path: string, slashes: Slashes ::
        BaseSpelling(value, authority, path, slashes) && base == "https://" + (authority + path)
  {
    hide BaseSpelling, NewBase;
    if NewBase(value) == Success(base) {
      var authority, path, slashes := AcceptedIsSpelled(value);
    }
    forall authority: string, path: string, slashes: Slashes | BaseSpelling(value, authority, path, slashes)
      ensures NewBase(value) == Success("https://" + (authority + path))
    {
      SpelledIsAccepted(value, authority, path, slashes);
    }
  }

  /** The reason given for refusing a base is true of it. */
  lemma BaseRefusal(value: string)
    requires NewBase(value).Failure?
    ensures match NewBase(value).error
      case EmptyBase => value == ""
      case UnsupportedScheme => value != "" && !("https://" <= value)
      case NotAscii => exists i :: 0 <= i < |value| && value[i] as int >= 0x80
      case ContainsQueryOrFragment => '?' in value || '#' in value
      case MissingAuthority => value == "https://" || "https:///" <= value
      case ContainsCredentials => '@' in value
      case NotCanonicalBase => !UrlCharacters(value) || exists part :: part in Split(value[8..], '/') && !PlainSegment(part)
  {
    if NewBase(value).error.MissingAuthority? {
      NoAuthority(value);
    } else if NewBase(value).error.NotCanonicalBase? && UrlCharacters(value) {
      BadPath(value);
    }
  }

  lemma NoAuthority(value: string)
    requires NewBase(value) == Failure(MissingAuthority)
    ensures value == "https://" || "https:///" <= value
  {
    var rest := value[8..];
    var address := TrimmedEnd(rest, '/');
    assert address == "" || address[0] == '/';
    assert rest == "" || rest[0] == '/';
  }

  lemma BadPath(value: string)
    requires NewBase(value) == Failure(NotCanonicalBase) && UrlCharacters(value)
    ensures "https://" <= value && exists part :: part in Split(value[8..], '/') && !PlainSegment(part)
  {
    hide Split, AddressProblem, TrimmedEnd, UrlCharacters, PlainSegment;
    CharactersExact(value);
    var rest := value[8..];
    var address := TrimmedEnd(rest, '/');
    if address == rest {
      BadAddress(rest);
    } else {
      assert rest[|rest| - 1] == '/';
      EndsInGap(rest);
      GapIsNoName();
    }
  }

  lemma GapIsNoName()
    ensures !PlainSegment("")
  {
  }

  lemma BadAddress(address: string)
    requires AddressProblem(address) == Some(NotCanonicalBase)
    ensures exists part :: part in Split(address, '/') && !PlainSegment(part)
  {
    hide Split, PlainSegment;
    var i := IndexOf(address, '/');
    var part :| part in Split(address[i + 1..], '/') && !PlainSegment(part);
    CutAt(address, i);
    SplitCons(address[..i], '/', address[i + 1..]);
  }

  // ---------- filenames ----------

  /** The reason given for refusing a filename is true of it. */
  lemma FilenameRefusal(value: Bytes)
    ensures NewFilename(value).Failure? ==> match NewFilename(value).error
      case EmptyFilename => value == ""
      case NotASingleSegment => '/' in value || '\\' in value
      case RelativeSegment => value == "." || value == ".."
      case ControlCharacter => Utf8.HasControl(value)
      case TooLong => |value| > 255
      case _ => false
  {
  }

  /** The media types that can be named, with the extensions each allows; the first is the one written. */
  const EXTENSIONS: map<string, seq<string>> := map[
    "image/png" := ["png"], "image/jpeg" := ["jpg", "jpeg"], "image/gif" := ["gif"], "image/webp" := ["webp"],
    "image/avif" := ["avif"], "image/tiff" := ["tiff", "tif"], "image/bmp" := ["bmp"], "image/svg+xml" := ["svg"],
    "application/pdf" := ["pdf"], "application/json" := ["json"], "application/zip" := ["zip"], "text/plain" := ["txt"],
    "text/markdown" := ["md"], "text/csv" := ["csv"], "audio/mpeg" := ["mp3"], "video/mp4" := ["mp4"]]

  lemma RuleExact(contentType: string)
    ensures RuleFor(contentType) ==
      if contentType in EXTENSIONS then Some(Exact(EXTENSIONS[contentType]))
      else if contentType == "application/octet-stream" then Some(Unclaimed) else None
  {
  }

  /** An extension belongs to one media type only, so a name never speaks for two. */
  lemma ExtensionNamesOneType(a: string, b: string, extension: string)
    requires a in EXTENSIONS && b in EXTENSIONS && extension in EXTENSIONS[a] && extension in EXTENSIONS[b]
    ensures a == b
  {
  }

  predicate SameLetter(a: char, b: char) {
    a == b || ('A' <= a <= 'Z' && b as int == a as int + 32) || ('A' <= b <= 'Z' && a as int == b as int + 32)
  }

  /** Extensions are compared letter by letter, without regard to ASCII case. */
  lemma CaseExact(a: string, b: string)
    ensures SameIgnoringCase(a, b) <==> |a| == |b| && forall i :: 0 <= i < |a| ==> SameLetter(a[i], b[i])
  {
    if SameIgnoringCase(a, b) {
      forall i | 0 <= i < |a| ensures SameLetter(a[i], b[i]) {
        assert LowerAscii(a)[i] == LowerAscii(b)[i];
      }
    }
  }

  type Dots = s: string | forall i :: 0 <= i < |s| ==> s[i] == '.' witness ""

  /** A stem, as it is kept: without dots at its end. */
  type Kept = s: string | s == "" || s[|s| - 1] != '.' witness ""

  lemma {:induction false} DotsAreTrimmed(kept: Kept, dots: Dots)
    ensures TrimmedEnd(kept + dots, '.') == kept
    decreases |dots|
  {
    if dots == "" {
      assert kept + dots == kept;
    } else {
      var fewer := dots[..|dots| - 1];
      assert (kept + dots)[..|kept + dots| - 1] == kept + fewer;
      DotsAreTrimmed(kept, fewer);
    }
  }

  /** What a name becomes when its extension is not one its media type allows. */
  ghost function Renamed(kept: Kept, rule: NamingRule): Result<string, FilenameError>
    requires rule.Exact?
  {
    if kept == "" then Failure(UnusableBasename) else Success(kept + ("." + rule.extensions[0]))
  }

  /** An allowed extension is kept with its name; another is replaced, and the stem before it kept. */
  lemma ExtensionIsReplaced(kept: Kept, dots: Dots, extension: Extension, rule: NamingRule)
    requires rule.Exact? && kept + dots != ""
    ensures var basename := (kept + dots) + ("." + extension);
      Derived(basename, rule) ==
        if exists e :: e in rule.extensions && SameIgnoringCase(e, extension) then Success(basename) else Renamed(kept, rule)
  {
    hide SplitExtension, TrimmedEnd, SameIgnoringCase;
    var stem := kept + dots;
    NewExtension(stem, extension);
    assert stem + ['.'] + extension == stem + ("." + extension);
    DotsAreTrimmed(kept, dots);
    assert kept + ['.'] + rule.extensions[0] == kept + ("." + rule.extensions[0]);
    if e :| e in rule.extensions && SameIgnoringCase(e, extension) {
      var i :| 0 <= i < |rule.extensions| && rule.extensions[i] == e;
    }
  }

  /** A name without an extension, because it has no dot inside or ends in one, is given the one that is written. */
  lemma ExtensionIsAdded(kept: Kept, dots: Dots, rule: NamingRule)
    requires rule.Exact? && (dots != "" || forall i :: 0 < i < |kept| ==> kept[i] != '.')
    ensures Derived(kept + dots, rule) == Renamed(kept, rule)
  {
    hide TrimmedEnd, SameIgnoringCase;
    var basename := kept + dots;
    DotsAreTrimmed(kept, dots);
    assert dots != "" ==> basename[|basename| - 1] == '.';
    assert dots == "" ==> basename == kept;
    assert SplitExtension(basename) == (basename, None);
    assert kept + ['.'] + rule.extensions[0] == kept + ("." + rule.extensions[0]);
  }
}
