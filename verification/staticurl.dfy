/** `getStaticUrl` (src/lib/api.ts): turns a stored path or URL into a
    `local-file://` URL the renderer can load. The URL parser (`new URL`) and
    `decodeURIComponent` are parameters: `None` stands for the exception they
    throw, which sends the source into its `catch` branch. */
module StaticUrl {
  import opened Text
  import opened Wrappers
  import opened UriEncoding

  /** The two fields of a parsed URL the function reads. */
  datatype UrlParts = UrlParts(hostname: string, pathname: string)

  /** `new URL(s)`, or `None` when it throws. */
  type UrlParser = string -> Option<UrlParts>

  /** `decodeURIComponent(s)`, or `None` when it throws. */
  type Decoder = string -> Option<string>

  const LocalFileScheme: string := "local-file://"
  const FileScheme: string := "file://"

  /** Every rewritten path is put under this root. */
  const LocalFileRoot: string := "local-file:///"

  predicate IsSlash(c: char) {
    c == '/'
  }

  /** `s.replace(/^\/+/, '')`. */
  function StripLeadingSlashes(s: string): (r: string)
    ensures |r| <= |s| && r == s[|s| - |r|..]
    ensures |r| > 0 ==> r[0] != '/'
  {
    DropWhile(s, IsSlash)
  }

  /** `s.replace(/\\/g, '/')`. */
  function Slashes(s: string): (r: string)
    ensures |r| == |s|
    ensures '\\' !in r
  {
    ReplaceChar(s, '\\', '/')
  }

  /** `local-file:///` followed by the encoded path. */
  function LocalUrl(p: string): (r: string)
    ensures StartsWith(r, LocalFileRoot)
    ensures '#' !in r && '?' !in r
  {
    EncodeLocalPathSafe(p);
    RootChars();
    var r := LocalFileRoot + EncodeLocalPath(p);
    assert r[..|LocalFileRoot|] == LocalFileRoot;
    r
  }

  lemma RootChars()
    ensures '#' !in LocalFileRoot && '?' !in LocalFileRoot
  {
    var s := LocalFileRoot;
    forall i | 0 <= i < |s| ensures s[i] != '#' && s[i] != '?' {
      if i < 5 {} else if i < 10 {} else {}
    }
  }

  /** The `host=c` repair: a one-letter host was a drive letter whose colon
      was lost; it is restored as `C:/` in front of the decoded path. */
  function DriveHostUrl(url: UrlParts, decode: Decoder): (r: Option<string>)
    requires |url.hostname| == 1
  {
    match decode(url.pathname)
    case None => None
    case Some(d) =>
      Some(LocalUrl([UpperChar(url.hostname[0])] + ":/" + StripLeadingSlashes(d)))
  }

  /** The `try` block of the `local-file://` branch; `None` when something in
      it throws. */
  function LocalFileTry(path: string, parse: UrlParser, decode: Decoder): (r: Option<string>)
  {
    match parse(path)
    case None => None
    case Some(url) =>
      if |url.hostname| == 1 then DriveHostUrl(url, decode)
      else if '#' in path || '?' in path then
        match decode(url.pathname)
        case None => None
        case Some(raw) =>
          var fixed := if StartsWith(raw, "/") then raw[1..] else raw;
          Some(LocalUrl(fixed))
      else Some(path)
  }

  /** The `catch` block of the `local-file://` branch: only `#` and `?` are
      escaped. */
  function EscapeHashAndQuery(path: string): (r: string)
    ensures '#' !in r && '?' !in r
  {
    var a := ReplaceAll(path, "#", "%23");
    ReplaceAllRemoves(path, '#', "%23");
    ReplaceAllKeepsOut(a, "?", "%3F", '#');
    ReplaceAllRemoves(a, '?', "%3F");
    ReplaceAll(a, "?", "%3F")
  }

  /** The `try` block of the `file://` branch. */
  function FileTry(path: string, parse: UrlParser, decode: Decoder): (r: Option<string>)
  {
    match parse(path)
    case None => None
    case Some(url) =>
      if |url.hostname| == 1 then DriveHostUrl(url, decode)
      else
        match decode(url.pathname)
        case None => None
        case Some(p0) =>
          var p1 := if StartsWith(p0, "/") && |p0| >= 3 && IsAsciiLetter(p0[1]) && p0[2] == ':'
            then p0[1..] else p0;
          Some(LocalUrl(Slashes(StripLeadingSlashes(p1))))
  }

  /** The `catch` block of the `file://` branch: drop the scheme and any
      leading slashes, then turn backslashes into `/`. */
  function FileFallback(path: string): (r: string)
    requires StartsWith(path, FileScheme)
    ensures StartsWith(r, LocalFileRoot)
  {
    LocalUrl(Slashes(StripLeadingSlashes(path[|FileScheme|..])))
  }

  /** `/^[A-Za-z]:\\/`: a Windows drive path. */
  predicate IsDrivePath(p: string) {
    |p| >= 3 && IsAsciiLetter(p[0]) && p[1] == ':' && p[2] == '\\'
  }

  /** `getStaticUrl`. */
  function GetStaticUrl(path: Option<string>, parse: UrlParser, decode: Decoder): (r: string)
    ensures path.None? || path.value == [] ==> r == []
    ensures r == path.GetOr([]) || ('#' !in r && '?' !in r)
  {
    var p := path.GetOr([]);
    if p == [] then []
    else if StartsWith(p, LocalFileScheme) then
      match LocalFileTry(p, parse, decode)
      case Some(u) => u
      case None => if '#' in p || '?' in p then EscapeHashAndQuery(p) else p
    else if StartsWith(p, FileScheme) then
      match FileTry(p, parse, decode)
      case Some(u) => u
      case None => FileFallback(p)
    else if IsDrivePath(p) then LocalUrl(Slashes(p))
    else p
  }

  /** A path without either scheme that is not a drive path (a relative or
      POSIX path) is returned as it is, whatever the parser would say. */
  lemma PlainPathUnchanged(p: string, parse: UrlParser, decode: Decoder)
    requires p != [] && !StartsWith(p, LocalFileScheme) && !StartsWith(p, FileScheme)
    requires !IsDrivePath(p)
    ensures GetStaticUrl(Some(p), parse, decode) == p
  {
  }

  /** A drive path `X:\...` becomes `local-file:///` plus the path encoded
      character by character, each backslash and slash written as `/`, the
      colon kept, everything else as `encodeURIComponent` writes it. */
  lemma DrivePathUrl(p: string, parse: UrlParser, decode: Decoder)
    requires IsDrivePath(p)
    ensures GetStaticUrl(Some(p), parse, decode) == LocalFileRoot + LocalPathSpec(p)
  {
    assert !StartsWith(p, LocalFileScheme) by {
      assert p[1] != LocalFileScheme[1];
    }
    assert !StartsWith(p, FileScheme) by {
      assert p[1] != FileScheme[1];
    }
    EncodeLocalPathPerChar(Slashes(p));
    LocalPathSpecSlashes(p);
  }

  /** A well-formed `local-file://` URL with a real host and neither `#` nor
      `?` is returned untouched. */
  lemma LocalFileUrlKept(p: string, parse: UrlParser, decode: Decoder)
    requires StartsWith(p, LocalFileScheme) && '#' !in p && '?' !in p
    requires parse(p).Some? && |parse(p).value.hostname| != 1
    ensures GetStaticUrl(Some(p), parse, decode) == p
  {
  }

  /** An unparseable `local-file://` URL only has `#` and `?` escaped. */
  lemma LocalFileUnparseable(p: string, parse: UrlParser, decode: Decoder)
    requires StartsWith(p, LocalFileScheme) && parse(p).None?
    ensures GetStaticUrl(Some(p), parse, decode)
      == ReplaceAll(ReplaceAll(p, "#", "%23"), "?", "%3F")
  {
    if '#' !in p && '?' !in p {
      ReplaceAllAbsent(p, '#', "%23");
      ReplaceAllAbsent(p, '?', "%3F");
    }
  }

  /** Replacing a one-character pattern that does not occur is the identity. */
  lemma {:induction false} ReplaceAllAbsent(s: string, c: char, rep: string)
    requires c !in s
    ensures ReplaceAll(s, [c], rep) == s
    decreases |s|
  {
    if |s| > 0 {
      assert !StartsWith(s, [c]) by {
        assert s[..1] == [s[0]];
      }
      ReplaceAllAbsent(s[1..], c, rep);
    }
  }

  /** An unparseable `file://` URL loses the scheme and its leading slashes
      and has its backslashes turned into `/`. */
  lemma FileUnparseable(p: string, parse: UrlParser, decode: Decoder)
    requires StartsWith(p, FileScheme) && parse(p).None?
    ensures GetStaticUrl(Some(p), parse, decode)
      == LocalFileRoot + EncodeLocalPath(Slashes(StripLeadingSlashes(p[|FileScheme|..])))
  {
    assert !StartsWith(p, LocalFileScheme) by {
      assert p[0] != LocalFileScheme[0];
    }
  }
}
