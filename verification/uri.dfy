/** `encodeURIComponent` and the local-path encoder built on it in the
    renderer's `getStaticUrl` (src/lib/api.ts), which percent-encodes a path
    and then turns `%2F` and `%5C` back into `/` and `%3A` back into `:`. */
module UriEncoding {
  import opened Text
  import Utf8

  /** The characters `encodeURIComponent` leaves alone. */
  predicate IsUnreserved(c: char) {
    IsAsciiAlnum(c) || c == '-' || c == '_' || c == '.' || c == '!' || c == '~'
    || c == '*' || c == '\'' || c == '(' || c == ')'
  }

  /** An upper-case hexadecimal digit. */
  function HexDigit(d: nat): (c: char)
    requires d < 16
    ensures IsAsciiAlnum(c)
    ensures d < 8 ==> c < '8'
    ensures d >= 8 ==> c >= '8'
  {
    if d < 10 then DigitChar(d) else ('A' as int + d - 10) as char
  }

  lemma HexDigitInjective(a: nat, b: nat)
    requires a < 16 && b < 16 && HexDigit(a) == HexDigit(b)
    ensures a == b
  {
  }

  /** The escape `%XY` of one byte. */
  function PercentByte(b: Utf8.byte): (t: string)
    ensures |t| == 3 && t[0] == '%' && t[1] != '%' && t[2] != '%'
  {
    ['%', HexDigit(b as nat / 16), HexDigit(b as nat % 16)]
  }

  lemma PercentByteInjective(a: Utf8.byte, b: Utf8.byte)
    requires PercentByte(a) == PercentByte(b)
    ensures a == b
  {
    HexDigitInjective(a as nat / 16, b as nat / 16);
    HexDigitInjective(a as nat % 16, b as nat % 16);
  }

  /** A piece of `encodeURIComponent` output: one literal character other
      than `%`, or one `%XY` escape. */
  predicate IsToken(t: string) {
    || (|t| == 1 && t[0] != '%')
    || (|t| == 3 && t[0] == '%' && t[1] != '%' && t[2] != '%')
  }

  function Flatten(ts: seq<string>): string
    decreases |ts|
  {
    if |ts| == 0 then [] else ts[0] + Flatten(ts[1..])
  }

  lemma {:induction false} FlattenAppend(a: seq<string>, b: seq<string>)
    ensures Flatten(a + b) == Flatten(a) + Flatten(b)
    decreases |a|
  {
    if |a| == 0 {
      assert a + b == b;
    } else {
      assert (a + b)[1..] == a[1..] + b;
      FlattenAppend(a[1..], b);
    }
  }

  function PercentBytes(bs: seq<Utf8.byte>): (ts: seq<string>)
    ensures |ts| == |bs|
    ensures forall i :: 0 <= i < |bs| ==> ts[i] == PercentByte(bs[i])
  {
    seq(|bs|, i requires 0 <= i < |bs| => PercentByte(bs[i]))
  }

  /** The tokens `encodeURIComponent` produces for one character. */
  function CharTokens(c: char): (ts: seq<string>)
    ensures forall i :: 0 <= i < |ts| ==> IsToken(ts[i])
  {
    if IsUnreserved(c) then [[c]] else PercentBytes(Utf8.EncodeChar(c))
  }

  function PathTokens(p: string): (ts: seq<string>)
    ensures forall i :: 0 <= i < |ts| ==> IsToken(ts[i])
    decreases |p|
  {
    if |p| == 0 then [] else CharTokens(p[0]) + PathTokens(p[1..])
  }

  /** `encodeURIComponent(c)` for one character. */
  function EncodeComponentChar(c: char): string {
    Flatten(CharTokens(c))
  }

  /** `encodeURIComponent(p)`. */
  function EncodeUriComponent(p: string): string
    decreases |p|
  {
    if |p| == 0 then [] else EncodeComponentChar(p[0]) + EncodeUriComponent(p[1..])
  }

  lemma {:induction false} EncodeUriComponentTokens(p: string)
    ensures EncodeUriComponent(p) == Flatten(PathTokens(p))
    decreases |p|
  {
    if |p| > 0 {
      FlattenAppend(CharTokens(p[0]), PathTokens(p[1..]));
      EncodeUriComponentTokens(p[1..]);
    }
  }

  /** `s.replace(/pat/g, rep)` for a literal pattern: leftmost, non-overlapping. */
  function ReplaceAll(s: string, pat: string, rep: string): string
    requires |pat| > 0
    decreases |s|
  {
    if |s| == 0 then []
    else if StartsWith(s, pat) then rep + ReplaceAll(s[|pat|..], pat, rep)
    else [s[0]] + ReplaceAll(s[1..], pat, rep)
  }

  /** A character absent from the input and the replacement stays absent. */
  lemma {:induction false} ReplaceAllKeepsOut(s: string, pat: string, rep: string, c: char)
    requires |pat| > 0 && c !in s && c !in rep
    ensures c !in ReplaceAll(s, pat, rep)
    decreases |s|
  {
    if |s| > 0 {
      if StartsWith(s, pat) {
        ReplaceAllKeepsOut(s[|pat|..], pat, rep, c);
      } else {
        ReplaceAllKeepsOut(s[1..], pat, rep, c);
      }
    }
  }

  /** Replacing a one-character pattern by text without it removes every
      occurrence. */
  lemma {:induction false} ReplaceAllRemoves(s: string, c: char, rep: string)
    requires c !in rep
    ensures c !in ReplaceAll(s, [c], rep)
    decreases |s|
  {
    if |s| > 0 {
      if StartsWith(s, [c]) {
        ReplaceAllRemoves(s[1..], c, rep);
      } else {
        assert s[0] != c by {
          assert s[..1] == [s[0]];
        }
        ReplaceAllRemoves(s[1..], c, rep);
      }
    }
  }

  /** The token-wise replacement: every token equal to `pat` becomes `rep`. */
  function ReplaceTokens(ts: seq<string>, pat: string, rep: string): (us: seq<string>)
    ensures |us| == |ts|
    ensures forall i :: 0 <= i < |ts| ==> us[i] == if ts[i] == pat then rep else ts[i]
  {
    seq(|ts|, i requires 0 <= i < |ts| => if ts[i] == pat then rep else ts[i])
  }

  /** An escape other than the pattern is copied through whole: the pattern
      cannot start inside it, since only its first character is `%`. */
  lemma ReplaceAllPastEscape(t: string, rest: string, pat: string, rep: string)
    requires |t| == 3 && t[0] == '%' && t[1] != '%' && t[2] != '%' && t != pat
    requires |pat| == 3 && pat[0] == '%'
    ensures ReplaceAll(t + rest, pat, rep) == t + ReplaceAll(rest, pat, rep)
  {
    var s := t + rest;
    assert s[..3] == t;
    assert !StartsWith(s, pat);
    assert s[1..][1..] == s[2..];
    assert s[2..][1..] == rest;
    assert ReplaceAll(s[2..], pat, rep) == [t[2]] + ReplaceAll(rest, pat, rep);
    assert ReplaceAll(s[1..], pat, rep) == [t[1]] + ReplaceAll(s[2..], pat, rep);
    assert t == [t[0]] + [t[1]] + [t[2]];
  }

  /** On a string made of tokens, replacing an escape pattern can only ever
      match a whole token: the replacement acts token by token. */
  lemma {:induction false} ReplaceAllOnTokens(ts: seq<string>, pat: string, rep: string)
    requires forall i :: 0 <= i < |ts| ==> IsToken(ts[i])
    requires |pat| == 3 && pat[0] == '%'
    ensures ReplaceAll(Flatten(ts), pat, rep) == Flatten(ReplaceTokens(ts, pat, rep))
    decreases |ts|
  {
    if |ts| > 0 {
      var t, rest := ts[0], Flatten(ts[1..]);
      var s := t + rest;
      assert Flatten(ts) == s;
      assert ReplaceTokens(ts, pat, rep)[1..] == ReplaceTokens(ts[1..], pat, rep);
      ReplaceAllOnTokens(ts[1..], pat, rep);
      if |t| == 1 {
        assert !StartsWith(s, pat);
        assert s[1..] == rest;
      } else if t == pat {
        assert StartsWith(s, pat);
        assert s[3..] == rest;
      } else {
        ReplaceAllPastEscape(t, rest, pat, rep);
      }
    }
  }

  /** `encodeLocalPath` exactly as written: encode, then three global replaces. */
  function EncodeLocalPath(p: string): string {
    ReplaceAll(ReplaceAll(ReplaceAll(EncodeUriComponent(p), "%2F", "/"), "%5C", "/"), "%3A", ":")
  }

  /** The per-character reading of `encodeLocalPath`: both slashes become `/`,
      the colon stays, every other character is encoded as by
      `encodeURIComponent`. */
  function LocalPathChar(c: char): string {
    if c == '/' || c == '\\' then "/" else if c == ':' then ":" else EncodeComponentChar(c)
  }

  function LocalPathSpec(p: string): string
    decreases |p|
  {
    if |p| == 0 then [] else LocalPathChar(p[0]) + LocalPathSpec(p[1..])
  }

  /** The three replacements composed, token by token. */
  function LocalTokens(ts: seq<string>): seq<string> {
    ReplaceTokens(ReplaceTokens(ReplaceTokens(ts, "%2F", "/"), "%5C", "/"), "%3A", ":")
  }

  lemma LocalTokensAppend(a: seq<string>, b: seq<string>)
    ensures LocalTokens(a + b) == LocalTokens(a) + LocalTokens(b)
  {
  }

  lemma LocalTokensOfChar(c: char)
    ensures Flatten(LocalTokens(CharTokens(c))) == LocalPathChar(c)
  {
    var ts := CharTokens(c);
    if c == '/' {
      assert ts == ["%2F"];
      assert LocalTokens(ts) == ["/"];
    } else if c == '\\' {
      assert ts == ["%5C"];
      assert LocalTokens(ts) == ["/"];
    } else if c == ':' {
      assert ts == ["%3A"];
      assert LocalTokens(ts) == [":"];
    } else {
      forall i | 0 <= i < |ts|
        ensures ts[i] != "%2F" && ts[i] != "%5C" && ts[i] != "%3A"
      {
        if !IsUnreserved(c) {
          var bs := Utf8.EncodeChar(c);
          if |bs| == 1 {
            if ts[i] == "%2F" {
              assert PercentByte(0x2F) == "%2F";
              PercentByteInjective(bs[0], 0x2F);
            }
            if ts[i] == "%5C" {
              assert PercentByte(0x5C) == "%5C";
              PercentByteInjective(bs[0], 0x5C);
            }
            if ts[i] == "%3A" {
              assert PercentByte(0x3A) == "%3A";
              PercentByteInjective(bs[0], 0x3A);
            }
          } else {
            assert bs[i] >= 0x80;
            assert ts[i][1] >= '8';
          }
        }
      }
      assert LocalTokens(ts) == ts;
    }
  }

  /** `encodeLocalPath` acts character by character: `/` and `\` become `/`,
      `:` stays `:`, and everything else is percent-encoded as by
      `encodeURIComponent`. */
  lemma {:induction false} EncodeLocalPathPerChar(p: string)
    ensures EncodeLocalPath(p) == LocalPathSpec(p)
  {
    var ts := PathTokens(p);
    EncodeUriComponentTokens(p);
    ReplaceAllOnTokens(ts, "%2F", "/");
    ReplaceAllOnTokens(ReplaceTokens(ts, "%2F", "/"), "%5C", "/");
    ReplaceAllOnTokens(ReplaceTokens(ReplaceTokens(ts, "%2F", "/"), "%5C", "/"), "%3A", ":");
    LocalTokensFlatten(p);
  }

  lemma {:induction false} LocalTokensFlatten(p: string)
    ensures Flatten(LocalTokens(PathTokens(p))) == LocalPathSpec(p)
    decreases |p|
  {
    if |p| > 0 {
      LocalTokensAppend(CharTokens(p[0]), PathTokens(p[1..]));
      FlattenAppend(LocalTokens(CharTokens(p[0])), LocalTokens(PathTokens(p[1..])));
      LocalTokensOfChar(p[0]);
      LocalTokensFlatten(p[1..]);
    }
  }

  /** Turning backslashes into slashes before encoding changes nothing: the
      encoder already writes both as `/`. */
  lemma {:induction false} LocalPathSpecSlashes(p: string)
    ensures LocalPathSpec(ReplaceChar(p, '\\', '/')) == LocalPathSpec(p)
    decreases |p|
  {
    if |p| > 0 {
      var q := ReplaceChar(p, '\\', '/');
      assert q[1..] == ReplaceChar(p[1..], '\\', '/');
      LocalPathSpecSlashes(p[1..]);
    }
  }

  /** The characters an encoded local path can contain. */
  predicate IsUrlSafe(c: char) {
    IsUnreserved(c) || c == '%' || c == '/' || c == ':'
  }

  lemma {:induction false} FlattenTokensSafe(ts: seq<string>)
    requires forall i :: 0 <= i < |ts| ==> forall j :: 0 <= j < |ts[i]| ==> IsUrlSafe(ts[i][j])
    ensures forall j :: 0 <= j < |Flatten(ts)| ==> IsUrlSafe(Flatten(ts)[j])
    decreases |ts|
  {
    if |ts| > 0 {
      FlattenTokensSafe(ts[1..]);
    }
  }

  lemma {:induction false} LocalPathSpecSafe(p: string)
    ensures forall j :: 0 <= j < |LocalPathSpec(p)| ==> IsUrlSafe(LocalPathSpec(p)[j])
    decreases |p|
  {
    if |p| > 0 {
      var ts := CharTokens(p[0]);
      FlattenTokensSafe(ts);
      LocalPathSpecSafe(p[1..]);
    }
  }

  /** An encoded local path never contains `#` or `?`, so it cannot be cut
      short by a URL parser. */
  lemma EncodeLocalPathSafe(p: string)
    ensures forall j :: 0 <= j < |EncodeLocalPath(p)| ==> IsUrlSafe(EncodeLocalPath(p)[j])
    ensures '#' !in EncodeLocalPath(p) && '?' !in EncodeLocalPath(p)
  {
    EncodeLocalPathPerChar(p);
    LocalPathSpecSafe(p);
    var e := EncodeLocalPath(p);
    assert !IsUrlSafe('#') && !IsUrlSafe('?');
    forall j | 0 <= j < |e| ensures e[j] != '#' && e[j] != '?' {
      assert IsUrlSafe(e[j]);
    }
  }
}
