/** Where requests go (`src-main/services/api.ts`): the API base URL read
    from the environment, the resolution of a request path against it, and
    the loop that tries candidate endpoints in turn. The environment value
    and the transport are parameters. */
module Endpoint {
  import opened Text
  import opened Wrappers

  const DefaultBase: string := "https://api.tu-zi.com/v1"

  predicate IsSlash(c: char) {
    c == '/'
  }

  /** `/^https?:\/\//i`: letters match in either case, the rest exactly. */
  predicate HasHttpScheme(s: string) {
    && |s| >= 7
    && LowerChar(s[0]) == 'h' && LowerChar(s[1]) == 't'
    && LowerChar(s[2]) == 't' && LowerChar(s[3]) == 'p'
    && (|| (s[4] == ':' && s[5] == '/' && s[6] == '/')
        || (|s| >= 8 && LowerChar(s[4]) == 's' && s[5] == ':' && s[6] == '/' && s[7] == '/'))
  }

  /** `process.env.VEO_API_BASE_URL || DEFAULT`, trimmed; the default has
      nothing to trim (see `RawBaseTrims`). */
  function RawBase(env: Option<string>): string {
    if env.Some? && env.value != [] then Trim(env.value) else DefaultBase
  }

  lemma RawBaseTrims(env: Option<string>)
    ensures RawBase(env) == Trim(if env.Some? && env.value != [] then env.value else DefaultBase)
  {
    DefaultScheme();
    TrimOfTrimmed(DefaultBase);
  }

  /** The base before its trailing slashes go: a value with a scheme is
      kept, one starting with `/` is replaced by the default, any other gets
      `https://` in front. */
  function SchemedBase(raw: string): (r: string)
    ensures HasHttpScheme(r)
  {
    if HasHttpScheme(raw) then raw
    else if StartsWith(raw, "/") then DefaultScheme(); DefaultBase
    else "https://" + raw
  }

  lemma DefaultScheme()
    ensures HasHttpScheme(DefaultBase)
    ensures !IsSpace(DefaultBase[0]) && !IsSpace(DefaultBase[|DefaultBase| - 1])
    ensures DefaultBase[|DefaultBase| - 1] != '/'
  {
  }

  /** `base.replace(/\/+$/g, '')` on a base with a scheme: the scheme's
      first five characters survive. */
  function StripTrailingSlashes(s: string): (r: string)
    requires HasHttpScheme(s)
    ensures 5 <= |r| <= |s| && r == s[..|r|] && r[|r| - 1] != '/'
    ensures forall i :: |r| <= i < |s| ==> s[i] == '/'
  {
    DropWhileEnd(s, IsSlash)
  }

  /** `getApiBaseUrl`. */
  function BaseUrl(env: Option<string>): (r: string)
    ensures |r| >= 5 && r[|r| - 1] != '/'
  {
    var raw := RawBase(env);
    if raw == [] then DefaultScheme(); DefaultBase
    else StripTrailingSlashes(SchemedBase(raw))
  }

  /** Without a usable value (unset, empty, blank or a bare path such as
      `/v1`) the default base is used. */
  lemma BaseUrlDefault(env: Option<string>)
    requires env.None? || Trim(env.value) == [] || StartsWith(Trim(env.value), "/")
    ensures BaseUrl(env) == DefaultBase
  {
    DefaultScheme();
    var raw := RawBase(env);
    if raw != [] {
      assert SchemedBase(raw) == DefaultBase by {
        if env.Some? && env.value != [] {
          assert StartsWith(raw, "/");
        }
      }
      StripDefault();
    }
  }

  lemma StripDefault()
    ensures HasHttpScheme(DefaultBase) && StripTrailingSlashes(DefaultBase) == DefaultBase
  {
    DefaultScheme();
    var r := StripTrailingSlashes(DefaultBase);
    assert DefaultBase[|DefaultBase| - 1] != '/';
    assert |r| == |DefaultBase|;
  }

  /** A host without a scheme gets `https://`; its trailing slashes go. */
  lemma BaseUrlAddsScheme(env: Option<string>)
    requires env.Some? && var raw := Trim(env.value);
      raw != [] && !HasHttpScheme(raw) && !StartsWith(raw, "/")
    ensures BaseUrl(env) == StripTrailingSlashes("https://" + Trim(env.value))
  {
  }

  /** A value with a scheme is kept, less its trailing slashes. */
  lemma BaseUrlKeepsScheme(env: Option<string>)
    requires env.Some? && HasHttpScheme(Trim(env.value))
    ensures BaseUrl(env) == StripTrailingSlashes(Trim(env.value))
  {
  }

  // ---------------------------------------------------------------------
  // resolveApiUrl

  const EmptyUrlError: string := "Empty request URL"

  /** The path with one leading `/` put in front when it has none. */
  function Slashed(input: string): string {
    if StartsWith(input, "/") then input else "/" + input
  }

  /** The path with a leading `/`, less a `/v1` the base already ends in. */
  function RelativePath(base: string, input: string): (p: string)
    requires input != []
    ensures |p| > 0 && p[0] == '/'
  {
    var p := Slashed(input);
    if StartsWith(p, "/v1/") && EndsWith(base, "/v1") then p[3..] else p
  }

  /** `resolveApiUrl`: the error is the exception it throws. */
  function ResolveApiUrl(base: string, pathOrUrl: Option<string>): (r: Result<string, string>)
    ensures r.Failure? <==> Trim(pathOrUrl.GetOr([])) == []
    ensures r.Failure? ==> r.error == EmptyUrlError
    ensures r.Success? && HasHttpScheme(Trim(pathOrUrl.GetOr([]))) ==>
      r.value == Trim(pathOrUrl.GetOr([]))
    ensures r.Success? && !HasHttpScheme(Trim(pathOrUrl.GetOr([]))) ==>
      |r.value| > |base| && r.value[..|base|] == base && r.value[|base|] == '/'
  {
    var input := Trim(pathOrUrl.GetOr([]));
    if input == [] then Failure(EmptyUrlError)
    else if HasHttpScheme(input) then Success(input)
    else
      var r := base + RelativePath(base, input);
      assert r[..|base|] == base;
      Success(r)
  }

  /** A `/v1/...` path against a base that already ends in `/v1` keeps one
      `/v1`, with or without its leading slash. */
  lemma NoDoubledVersion(base: string, input: string, rest: string)
    requires EndsWith(base, "/v1")
    requires input == "/v1/" + rest || input == "v1/" + rest
    requires Trim(input) == input
    ensures ResolveApiUrl(base, Some(input)) == Success(base + "/" + rest)
  {
    VersionDropped(base, input, rest);
    assert base + ("/" + rest) == base + "/" + rest;
  }

  lemma VersionDropped(base: string, input: string, rest: string)
    requires EndsWith(base, "/v1")
    requires input == "/v1/" + rest || input == "v1/" + rest
    ensures input != [] && !HasHttpScheme(input)
    ensures RelativePath(base, input) == "/" + rest
  {
    assert !HasHttpScheme(input) by {
      assert input[0] == '/' || input[0] == 'v';
    }
    var p := if StartsWith(input, "/") then input else "/" + input;
    assert p == "/v1/" + rest by {
      if input == "/v1/" + rest {
        assert input[..1] == "/";
      } else {
        assert input[0] == 'v';
      }
    }
    assert p[..4] == "/v1/";
    assert p[3..] == "/" + rest;
  }

  /** A path that is neither absolute nor `/v1/...` against a `/v1` base is
      appended after exactly one `/`. */
  lemma RelativeJoin(base: string, input: string)
    requires input != [] && Trim(input) == input && !HasHttpScheme(input)
    requires !StartsWith(input, "/") && !StartsWith(input, "v1/")
    ensures ResolveApiUrl(base, Some(input)) == Success(base + "/" + input)
  {
    var p := "/" + input;
    if |input| >= 3 {
      assert p[1..4] == input[..3];
    }
    assert !StartsWith(p, "/v1/");
    assert RelativePath(base, input) == p;
    assert base + p == base + "/" + input;
  }

  /** Any other relative path, `/`-led or not, is appended to the base as
      its `/`-led form: `/videos` and `videos` both give `base/videos`, and
      `/v1/x` against a base not ending in `/v1` keeps its `/v1`. */
  lemma PathJoin(base: string, input: string)
    requires input != [] && Trim(input) == input && !HasHttpScheme(input)
    requires !(StartsWith(Slashed(input), "/v1/") && EndsWith(base, "/v1"))
    ensures ResolveApiUrl(base, Some(input)) == Success(base + Slashed(input))
  {
  }

  /** A `/`-led path that is not `/v1/...` against a `/v1` base is appended
      as it is. */
  lemma LeadingSlashJoin(base: string, input: string)
    requires Trim(input) == input && StartsWith(input, "/")
    requires !(StartsWith(input, "/v1/") && EndsWith(base, "/v1"))
    ensures ResolveApiUrl(base, Some(input)) == Success(base + input)
  {
    assert input[0] == '/';
    PathJoin(base, input);
  }

  // ---------------------------------------------------------------------
  // makeRequestWithFallback

  /** `/Invalid URL/i.test(String(error?.message || ''))`. */
  predicate IsInvalidUrlError(message: string) {
    ContainsIgnoreCase(message, "invalid url")
  }

  /** One request: the reply, or the message of the error it rejects
      with. */
  type Send<T> = string -> Result<T, string>

  /** The loop of `makeRequestWithFallback` from candidate `urls[0]` on,
      with the last error caught so far. `Failure(None)` is `throw
      undefined`, which only an empty candidate list reaches. */
  function TryFrom<T>(urls: seq<string>, send: Send<T>, last: Option<string>): (r: Result<T, Option<string>>)
    ensures r.Failure? && r.error.None? ==> urls == [] && last.None?
    decreases |urls|
  {
    if urls == [] then Failure(last)
    else
      match send(urls[0])
      case Success(v) => Success(v)
      case Failure(e) =>
        if !IsInvalidUrlError(e) then Failure(Some(e))
        else TryFrom(urls[1..], send, Some(e))
  }

  /** `makeRequestWithFallback`. */
  function Fallback<T>(urls: seq<string>, send: Send<T>): (r: Result<T, Option<string>>)
    ensures r.Failure? && r.error.None? <==> urls == []
  {
    TryFrom(urls, send, None)
  }

  /** The candidates before `i` all failed with an invalid-URL error. */
  predicate SkippedBefore<T>(urls: seq<string>, send: Send<T>, i: nat)
    requires i <= |urls|
  {
    forall j :: 0 <= j < i ==> send(urls[j]).Failure? && IsInvalidUrlError(send(urls[j]).error)
  }

  lemma {:induction false} TryFromAt<T>(urls: seq<string>, send: Send<T>, last: Option<string>, i: nat)
    requires i < |urls| && SkippedBefore(urls, send, i)
    ensures var r := send(urls[i]);
      && (r.Success? ==> TryFrom(urls, send, last) == Success(r.value))
      && (r.Failure? && !IsInvalidUrlError(r.error) ==> TryFrom(urls, send, last) == Failure(Some(r.error)))
    decreases i
  {
    if i > 0 {
      assert SkippedBefore(urls[1..], send, i - 1) by {
        forall j | 0 <= j < i - 1 ensures urls[1..][j] == urls[j + 1] {}
      }
      TryFromAt(urls[1..], send, Some(send(urls[0]).error), i - 1);
    }
  }

  /** Candidates are tried in order: the first success is returned, and the
      first error that is not an invalid-URL error is thrown at once. */
  lemma FallbackFirstDecisive<T>(urls: seq<string>, send: Send<T>, i: nat)
    requires i < |urls| && SkippedBefore(urls, send, i)
    ensures send(urls[i]).Success? ==> Fallback(urls, send) == Success(send(urls[i]).value)
    ensures send(urls[i]).Failure? && !IsInvalidUrlError(send(urls[i]).error)
      ==> Fallback(urls, send) == Failure(Some(send(urls[i]).error))
  {
    TryFromAt(urls, send, None, i);
  }

  lemma {:induction false} TryFromAllSkipped<T>(urls: seq<string>, send: Send<T>, last: Option<string>)
    requires urls != [] && SkippedBefore(urls, send, |urls|)
    ensures TryFrom(urls, send, last) == Failure(Some(send(urls[|urls| - 1]).error))
    decreases |urls|
  {
    if |urls| > 1 {
      assert SkippedBefore(urls[1..], send, |urls| - 1) by {
        forall j | 0 <= j < |urls| - 1 ensures urls[1..][j] == urls[j + 1] {}
      }
      TryFromAllSkipped(urls[1..], send, Some(send(urls[0]).error));
    }
  }

  /** When every candidate fails with an invalid-URL error, the last error
      is the one thrown. */
  lemma FallbackAllInvalid<T>(urls: seq<string>, send: Send<T>)
    requires urls != [] && SkippedBefore(urls, send, |urls|)
    ensures Fallback(urls, send) == Failure(Some(send(urls[|urls| - 1]).error))
  {
    TryFromAllSkipped(urls, send, None);
  }
}
