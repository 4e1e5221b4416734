/** File-name building: the Windows-safe sanitiser, the local-time stamp and
    the video file name of the main process (src-main/services/api.ts), and
    the suggested download name of the renderer (src/lib/downloadName.ts).
    The two files carry identical copies of the sanitiser and of the time
    stamp; here each is defined once. */
module Filenames {
  import opened Text
  import opened Wrappers

  /** `[<>:"/\\|?*\u0000-\u001F#]`. */
  predicate IsForbidden(c: char) {
    || c == '<' || c == '>' || c == ':' || c == '"' || c == '/' || c == '\\'
    || c == '|' || c == '?' || c == '*' || c == '#' || IsControl(c)
  }

  predicate IsDotOrSpace(c: char) {
    c == '.' || IsSpace(c)
  }

  /** No forbidden character, whitespace only as single spaces. */
  predicate IsCollapsed(s: string) {
    && (forall i :: 0 <= i < |s| ==> !IsForbidden(s[i]))
    && (forall i :: 0 <= i < |s| ==> IsSpace(s[i]) ==> s[i] == ' ')
    && (forall i :: 0 <= i < |s| - 1 ==> !(IsSpace(s[i]) && IsSpace(s[i + 1])))
  }

  /** What the sanitiser guarantees of its output: no forbidden or control
      character, single spaces as the only whitespace, no leading whitespace,
      and no trailing dot or whitespace. */
  predicate IsSanitized(s: string) {
    IsCollapsed(s) && (|s| > 0 ==> !IsSpace(s[0]) && !IsDotOrSpace(s[|s| - 1]))
  }

  lemma CollapsedSlice(s: string, i: nat, j: nat)
    requires IsCollapsed(s) && i <= j <= |s|
    ensures IsCollapsed(s[i..j])
  {
    var t := s[i..j];
    assert forall k :: 0 <= k < |t| ==> t[k] == s[i + k];
    forall k | 0 <= k < |t| - 1 ensures !(IsSpace(t[k]) && IsSpace(t[k + 1])) {
      assert t[k] == s[i + k] && t[k + 1] == s[i + k + 1];
    }
  }

  /** The first replace: runs of forbidden or control characters become `_`. */
  function ReplaceForbidden(s: string): (a: string)
    ensures |a| <= |s|
    ensures forall i :: 0 <= i < |a| ==> !IsForbidden(a[i])
    ensures forall c :: c in a ==> c == '_' || c in s
  {
    CollapseRunsChars(s, IsForbidden, '_');
    CollapseRuns(s, IsForbidden, '_')
  }

  /** The second replace: whitespace runs become one space. */
  function CollapseSpaces(a: string): (b: string)
    requires forall i :: 0 <= i < |a| ==> !IsForbidden(a[i])
    ensures |b| <= |a|
    ensures IsCollapsed(b)
  {
    var b := CollapseRuns(a, IsSpace, ' ');
    CollapseRunsChars(a, IsSpace, ' ');
    CollapseRunsSeparated(a, IsSpace, ' ');
    forall i | 0 <= i < |b| ensures !IsForbidden(b[i]) && (IsSpace(b[i]) ==> b[i] == ' ') {
      assert b[i] in b;
      if b[i] != ' ' {
        var j :| 0 <= j < |a| && a[j] == b[i];
      }
    }
    b
  }

  /** `sanitizeWindowsFilename` / `sanitizeFilename`: each run of forbidden or
      control characters becomes one `_`, each whitespace run one space, then
      trim, then strip trailing dots and whitespace. */
  function Sanitize(s: string): (r: string)
    ensures |r| <= |s|
    ensures IsSanitized(r)
  {
    var b := CollapseSpaces(ReplaceForbidden(s));
    TrimCollapsed(b);
    StripTrailingSanitized(Trim(b));
    DropWhileEnd(Trim(b), IsDotOrSpace)
  }

  /** The first replace is the run collapse for the forbidden class. */
  lemma ReplaceForbiddenIs(s: string)
    ensures ReplaceForbidden(s) == CollapseRuns(s, IsForbidden, '_')
  {
  }

  /** The second replace is the run collapse for whitespace. */
  lemma CollapseSpacesIs(a: string)
    requires forall i :: 0 <= i < |a| ==> !IsForbidden(a[i])
    ensures CollapseSpaces(a) == CollapseRuns(a, IsSpace, ' ')
  {
  }

  /** The sanitiser depends on its input only through the first replace. */
  lemma SanitizeThroughReplace(x: string, y: string)
    requires ReplaceForbidden(x) == ReplaceForbidden(y)
    ensures Sanitize(x) == Sanitize(y)
  {
  }

  /** The first replace read left to right: a forbidden character adds `_`
      unless it continues a forbidden run, any other character is kept. */
  lemma ReplaceForbiddenStep(s: string, c: char)
    ensures ReplaceForbidden(s + [c])
         == ReplaceForbidden(s)
            + (if IsForbidden(c) && |s| > 0 && IsForbidden(s[|s| - 1]) then "" else [if IsForbidden(c) then '_' else c])
  {
    ReplaceForbiddenIs(s);
    ReplaceForbiddenIs(s + [c]);
    CollapseRunsStep(s, IsForbidden, '_', c);
  }

  /** The second replace read left to right: whitespace adds one space unless
      it continues a whitespace run, any other character is kept. */
  lemma CollapseSpacesStep(a: string, c: char)
    requires forall i :: 0 <= i < |a| ==> !IsForbidden(a[i])
    requires !IsForbidden(c)
    ensures var ac := a + [c];
      && (forall i :: 0 <= i < |ac| ==> !IsForbidden(ac[i]))
      && CollapseSpaces(ac)
         == CollapseSpaces(a)
            + (if IsSpace(c) && |a| > 0 && IsSpace(a[|a| - 1]) then "" else [if IsSpace(c) then ' ' else c])
  {
    var ac := a + [c];
    assert forall i :: 0 <= i < |a| ==> ac[i] == a[i];
    CollapseSpacesIs(a);
    CollapseSpacesIs(ac);
    CollapseRunsStep(a, IsSpace, ' ', c);
  }

  /** Joining two sanitised pieces with `_`, or with a space when neither is
      empty, gives a sanitised string. */
  lemma JoinSanitized(a: string, sep: char, b: string)
    requires IsSanitized(a) && IsSanitized(b)
    requires (!IsForbidden(sep) && !IsSpace(sep) && sep != '.') || (sep == ' ' && |a| > 0 && |b| > 0)
    ensures IsSanitized(a + [sep] + b)
  {
    var m := a + [sep] + b;
    forall i | 0 <= i < |m| ensures !IsForbidden(m[i]) && (IsSpace(m[i]) ==> m[i] == ' ') {
      if i < |a| {
        assert m[i] == a[i];
      } else if i > |a| {
        assert m[i] == b[i - |a| - 1];
      }
    }
    forall i | 0 <= i < |m| - 1 ensures !(IsSpace(m[i]) && IsSpace(m[i + 1])) {
      if i + 1 < |a| {
        assert m[i] == a[i] && m[i + 1] == a[i + 1];
      } else if i + 1 == |a| {
        assert m[i] == a[|a| - 1];
      } else if i == |a| {
        if |b| > 0 {
          assert m[i + 1] == b[0];
        }
      } else {
        assert m[i] == b[i - |a| - 1] && m[i + 1] == b[i - |a|];
      }
    }
    if |a| > 0 {
      assert m[0] == a[0];
    }
    if |b| > 0 {
      assert m[|m| - 1] == b[|b| - 1];
    }
  }

  /** A run of forbidden characters between two sanitised pieces becomes a
      single `_`: `a<>:|b` gives `a_b`. */
  lemma SanitizeForbiddenRun(a: string, d: string, b: string)
    requires IsSanitized(a) && IsSanitized(b)
    requires |d| > 0 && forall i :: 0 <= i < |d| ==> IsForbidden(d[i])
    ensures Sanitize(a + d + b) == a + "_" + b
  {
    var m := a + "_" + b;
    ForbiddenRunReplaced(a, d, b);
    JoinSanitized(a, '_', b);
    CleanReplaced(m);
    SanitizeThroughReplace(a + d + b, m);
    SanitizeFixpointIff(m);
  }

  /** The first replace turns a forbidden run between clean pieces into `_`. */
  lemma ForbiddenRunReplaced(a: string, d: string, b: string)
    requires forall i :: 0 <= i < |a| ==> !IsForbidden(a[i])
    requires |d| > 0 && forall i :: 0 <= i < |d| ==> IsForbidden(d[i])
    requires forall i :: 0 <= i < |b| ==> !IsForbidden(b[i])
    ensures ReplaceForbidden(a + d + b) == a + "_" + b
  {
    ReplaceForbiddenIs(a + d + b);
    CollapseRunsSplice(a, d, b, IsForbidden, '_');
    CollapseRunsNoop(a, IsForbidden, '_');
    CollapseRunsNoop(b, IsForbidden, '_');
  }

  /** The first replace leaves a string without forbidden characters as it is. */
  lemma CleanReplaced(m: string)
    requires forall i :: 0 <= i < |m| ==> !IsForbidden(m[i])
    ensures ReplaceForbidden(m) == m
  {
    ReplaceForbiddenIs(m);
    CollapseRunsNoop(m, IsForbidden, '_');
  }

  /** A run of whitespace (other than control characters) between two
      non-empty sanitised pieces becomes a single space: `a \u00a0 b` gives
      `a b`. */
  lemma SanitizeSpaceRun(a: string, d: string, b: string)
    requires IsSanitized(a) && IsSanitized(b) && |a| > 0 && |b| > 0
    requires |d| > 0 && forall i :: 0 <= i < |d| ==> IsSpace(d[i]) && !IsForbidden(d[i])
    ensures Sanitize(a + d + b) == a + " " + b
  {
    var s := a + d + b;
    var m := a + " " + b;
    forall i | 0 <= i < |s| ensures !IsForbidden(s[i]) {
      if i < |a| {
        assert s[i] == a[i];
      } else if i < |a| + |d| {
        assert s[i] == d[i - |a|];
      } else {
        assert s[i] == b[i - |a| - |d|];
      }
    }
    CollapseRunsNoop(s, IsForbidden, '_');
    CollapseRunsSplice(a, d, b, IsSpace, ' ');
    CollapseRunsFixpoint(a, IsSpace, ' ');
    CollapseRunsFixpoint(b, IsSpace, ' ');
    assert CollapseSpaces(ReplaceForbidden(s)) == m;
    JoinSanitized(a, ' ', b);
    TrimOfTrimmed(m);
    assert DropWhileEnd(m, IsDotOrSpace) == m;
  }

  /** Trimming keeps a collapsed string collapsed. */
  lemma TrimCollapsed(b: string)
    requires IsCollapsed(b)
    ensures IsCollapsed(Trim(b))
  {
    var k := LeadingSpaces(b);
    CollapsedSlice(b, k, k + |Trim(b)|);
  }

  /** Stripping trailing dots and whitespace from a collapsed string without
      leading whitespace yields a sanitised string. */
  lemma StripTrailingSanitized(t: string)
    requires IsCollapsed(t) && (|t| > 0 ==> !IsSpace(t[0]))
    ensures IsSanitized(DropWhileEnd(t, IsDotOrSpace))
  {
    var r := DropWhileEnd(t, IsDotOrSpace);
    CollapsedSlice(t, 0, |r|);
    assert t[0..|r|] == r;
  }

  /** A sanitised string is its own sanitisation, and only sanitised strings
      are: the sanitiser is idempotent and its fixed points are exactly the
      strings it can produce. */
  lemma SanitizeFixpointIff(s: string)
    ensures Sanitize(s) == s <==> IsSanitized(s)
  {
    if IsSanitized(s) {
      CollapseRunsNoop(s, IsForbidden, '_');
      CollapseRunsFixpoint(s, IsSpace, ' ');
      TrimOfTrimmed(s);
    }
  }

  lemma SanitizeIdempotent(s: string)
    ensures Sanitize(Sanitize(s)) == Sanitize(s)
  {
    SanitizeFixpointIff(Sanitize(s));
  }

  /** The local-time fields a `Date` reports (`getFullYear()`,
      `getMonth() + 1`, `getDate()`, `getHours()`, ...). */
  datatype LocalTime = LocalTime(year: int, month: nat, day: nat, hour: nat, minute: nat, second: nat) {
    predicate Valid() {
      1 <= month <= 12 && 1 <= day <= 31 && hour < 24 && minute < 60 && second < 60
    }
  }

  /** `String(n).padStart(2, '0')`: below 100, the tens digit then the units
      digit. */
  function Pad2(n: nat): (r: string)
    ensures n < 100 ==> r == [DigitChar(n / 10), DigitChar(n % 10)]
    ensures forall i :: 0 <= i < |r| ==> IsDigit(r[i])
  {
    if n < 100 then TwoDigitString(n); PadStart(NatToString(n), 2, '0')
    else PadStart(NatToString(n), 2, '0')
  }

  /** The decimal string of a number below 100. */
  lemma TwoDigitString(n: nat)
    requires n < 100
    ensures NatToString(n) == if n < 10 then [DigitChar(n)] else [DigitChar(n / 10), DigitChar(n % 10)]
  {
    if n >= 10 {
      assert NatToString(n / 10) == [DigitChar(n / 10)];
    }
  }

  lemma Pad2Value(n: nat)
    requires n < 100
    ensures DecimalValue(Pad2(n)) == n
  {
    var x, y := DigitChar(n / 10), DigitChar(n % 10);
    assert [x, y][..1] == [x];
    assert [x][..0] == [];
    assert DigitValue(x) == n / 10;
    assert DecimalValue([x]) == n / 10;
  }

  /** Five two-digit fields joined as `MMdd_HHmmss`, and where each field
      sits. */
  lemma ClockLayout(c: string, m: string, d: string, h: string, mi: string, se: string)
    requires |m| == 2 && |d| == 2 && |h| == 2 && |mi| == 2 && |se| == 2
    requires forall i :: 0 <= i < 2 ==> IsDigit(m[i]) && IsDigit(d[i]) && IsDigit(h[i]) && IsDigit(mi[i]) && IsDigit(se[i])
    requires c == m + d + "_" + h + mi + se
    ensures |c| == 11 && c[4] == '_'
    ensures forall i :: 0 <= i < 11 && i != 4 ==> IsDigit(c[i])
    ensures c[0..2] == m && c[2..4] == d && c[5..7] == h && c[7..9] == mi && c[9..11] == se
  {
    assert c == [m[0], m[1], d[0], d[1], '_', h[0], h[1], mi[0], mi[1], se[0], se[1]];
    assert c[0..2] == [m[0], m[1]];
    assert c[2..4] == [d[0], d[1]];
    assert c[5..7] == [h[0], h[1]];
    assert c[7..9] == [mi[0], mi[1]];
    assert c[9..11] == [se[0], se[1]];
  }

  /** The `MMdd_HHmmss` part of the stamp. */
  function Clock(t: LocalTime): (c: string)
    ensures t.Valid() ==> |c| == 11
  {
    Pad2(t.month) + Pad2(t.day) + "_" + Pad2(t.hour) + Pad2(t.minute) + Pad2(t.second)
  }

  /** `formatTimestampForFilename`: `yyyyMMdd_HHmmss` with every field after
      the year zero-padded to two digits. */
  function FormatTimestamp(t: LocalTime): (r: string)
    ensures |r| >= |IntToString(t.year)|
    ensures t.Valid() ==> |r| == |IntToString(t.year)| + 11
    ensures r[..|IntToString(t.year)|] == IntToString(t.year)
  {
    IntToString(t.year) + Clock(t)
  }

  /** The stamp is made of digits, `_` and a sign, all one code unit each. */
  lemma TimestampBmp(t: LocalTime)
    ensures IsBmp(FormatTimestamp(t))
  {
    var n := if t.year < 0 then -t.year else t.year;
    assert IsBmp(NatToString(n));
    if t.year < 0 {
      assert IsBmp("-");
      AppendBmp("-", NatToString(n));
    }
    assert IsBmp(IntToString(t.year));
    var m, d, h, mi, se := Pad2(t.month), Pad2(t.day), Pad2(t.hour), Pad2(t.minute), Pad2(t.second);
    assert IsBmp(m) && IsBmp(d) && IsBmp("_") && IsBmp(h) && IsBmp(mi) && IsBmp(se);
    AppendBmp(m, d);
    AppendBmp(m + d, "_");
    AppendBmp(m + d + "_", h);
    AppendBmp(m + d + "_" + h, mi);
    AppendBmp(m + d + "_" + h + mi, se);
    AppendBmp(IntToString(t.year), Clock(t));
  }

  /** Where each field sits in the `MMdd_HHmmss` part. */
  lemma ClockFields(t: LocalTime)
    requires t.Valid()
    ensures var c := Clock(t);
      && c[4] == '_'
      && (forall i :: 0 <= i < 11 && i != 4 ==> IsDigit(c[i]))
      && c[0..2] == Pad2(t.month) && c[2..4] == Pad2(t.day)
      && c[5..7] == Pad2(t.hour) && c[7..9] == Pad2(t.minute) && c[9..11] == Pad2(t.second)
  {
    ClockLayout(Clock(t), Pad2(t.month), Pad2(t.day), Pad2(t.hour), Pad2(t.minute), Pad2(t.second));
  }

  /** The stamp is the year's decimal string followed by the clock part. */
  lemma TimestampSplit(t: LocalTime)
    ensures var r, y := FormatTimestamp(t), IntToString(t.year);
      r[..|y|] == y && r[|y|..] == Clock(t)
  {
  }

  lemma IntToStringInjective(a: int, b: int)
    requires IntToString(a) == IntToString(b)
    ensures a == b
  {
    if a < 0 && b < 0 {
      assert IntToString(a)[1..] == NatToString(-a);
      assert IntToString(b)[1..] == NatToString(-b);
      NatToStringInjective(-a, -b);
    } else if a >= 0 && b >= 0 {
      NatToStringInjective(a, b);
    }
  }

  /** Different valid times give different stamps, so names stamped to the
      second do not collide across seconds. */
  lemma {:induction false} TimestampInjective(t1: LocalTime, t2: LocalTime)
    requires t1.Valid() && t2.Valid()
    requires FormatTimestamp(t1) == FormatTimestamp(t2)
    ensures t1 == t2
  {
    var r := FormatTimestamp(t1);
    assert |IntToString(t1.year)| == |IntToString(t2.year)|;
    TimestampSplit(t1);
    TimestampSplit(t2);
    IntToStringInjective(t1.year, t2.year);
    ClockFields(t1);
    ClockFields(t2);
    Pad2Value(t1.month); Pad2Value(t2.month);
    Pad2Value(t1.day); Pad2Value(t2.day);
    Pad2Value(t1.hour); Pad2Value(t2.hour);
    Pad2Value(t1.minute); Pad2Value(t2.minute);
    Pad2Value(t1.second); Pad2Value(t2.second);
  }

  /** The name used when neither text nor task id gives one. */
  const VideoFallback: string := "video"

  /** Any prefix of a sanitised string is free of forbidden characters. */
  lemma PrefixOfSanitized(s: string, n: nat)
    requires IsSanitized(s)
    ensures forall i :: 0 <= i < |TakeUnits(s, n)| ==> !IsForbidden(TakeUnits(s, n)[i])
  {
    var r := TakeUnits(s, n);
    forall i | 0 <= i < |r| ensures !IsForbidden(r[i]) {
      assert r[i] == s[i];
    }
  }

  /** A word of lower-case ASCII letters passes the sanitiser unchanged. */
  lemma LowerWordSanitized(v: string)
    requires forall i :: 0 <= i < |v| ==> 'a' <= v[i] <= 'z'
    ensures IsSanitized(v) && Sanitize(v) == v
  {
    assert IsSanitized(v);
    SanitizeFixpointIff(v);
  }

  lemma VideoFallbackSanitized()
    ensures IsSanitized(VideoFallback) && Sanitize(VideoFallback) == VideoFallback
  {
    var v := VideoFallback;
    forall i | 0 <= i < |v| ensures 'a' <= v[i] <= 'z' {
      if i == 0 {} else if i == 1 {} else if i == 2 {} else if i == 3 {} else {}
    }
    LowerWordSanitized(v);
  }

  /** The prefix of a video file name: the sanitised record text cut to 18
      UTF-16 code units, falling back to the task id and then to `video`. */
  function VideoPrefix(text: string, taskId: string): (r: string)
    ensures r != [] && UnitLength(r) <= 18
    ensures forall i :: 0 <= i < |r| ==> !IsForbidden(r[i])
  {
    VideoFallbackSanitized();
    var raw := Trim(text);
    var prefixRaw := if raw != [] then raw else if taskId != [] then taskId else VideoFallback;
    var p := TakeUnits(Sanitize(prefixRaw), 18);
    PrefixOfSanitized(Sanitize(prefixRaw), 18);
    if p != [] then p else VideoFallback
  }

  /** `getVideoFilename`: `prefix_stamp`, cut to 60 UTF-16 code units, plus
      `.mp4`.
      `text` is the record's prompt, storyboard or system context, whichever
      is first non-empty (empty when there is no record; the source's
      fallback when the record lookup throws computes the same name). */
  function VideoFilename(text: string, taskId: string, t: LocalTime): (r: string)
    ensures EndsWith(r, ".mp4")
    ensures UnitLength(r) <= 64
    ensures t.Valid() && |IntToString(t.year)| <= 30 ==>
      r == VideoPrefix(text, taskId) + "_" + FormatTimestamp(t) + ".mp4"
  {
    BaseFits(text, taskId, t);
    CutName(VideoPrefix(text, taskId) + "_" + FormatTimestamp(t))
  }

  /** The first 60 units of `base`, then `.mp4`. */
  function CutName(base: string): (r: string)
    ensures EndsWith(r, ".mp4")
    ensures UnitLength(r) <= 64
    ensures UnitLength(base) <= 60 ==> r == base + ".mp4"
  {
    var cut := TakeUnits(base, 60);
    UnitLengthAppend(cut, ".mp4");
    ShortUnits();
    assert (cut + ".mp4")[|cut|..] == ".mp4";
    cut + ".mp4"
  }

  lemma ShortUnits()
    ensures UnitLength(".mp4") == 4 && UnitLength("_") == 1
  {
    assert ".mp4"[1..] == "mp4" && "mp4"[1..] == "p4" && "p4"[1..] == "4" && "4"[1..] == [];
    assert "_"[1..] == [];
  }

  /** With a valid time and a year of at most 30 digits, `prefix_stamp` is
      at most 60 units long, so the cut keeps all of it. */
  lemma BaseFits(text: string, taskId: string, t: LocalTime)
    ensures t.Valid() && |IntToString(t.year)| <= 30 ==>
      UnitLength(VideoPrefix(text, taskId) + "_" + FormatTimestamp(t)) <= 60
  {
    var prefix := VideoPrefix(text, taskId);
    TimestampBmp(t);
    BmpUnitLength(FormatTimestamp(t));
    ShortUnits();
    UnitLengthAppend(prefix, "_");
    UnitLengthAppend(prefix + "_", FormatTimestamp(t));
  }

  /** Non-blank text whose sanitisation is non-empty decides the prefix:
      its first 18 characters, whatever the task id. */
  lemma VideoPrefixPrefersText(text: string, taskId: string)
    requires Sanitize(Trim(text)) != []
    ensures VideoPrefix(text, taskId) == TakeUnits(Sanitize(Trim(text)), 18)
  {
    assert |Trim(text)| > 0;
  }

  /** Blank text falls back to the sanitised task id, and when that is empty
      too, to `video`. */
  lemma VideoPrefixFallback(text: string, taskId: string)
    requires Trim(text) == []
    ensures Sanitize(taskId) != [] ==> VideoPrefix(text, taskId) == TakeUnits(Sanitize(taskId), 18)
    ensures Sanitize(taskId) == [] ==> VideoPrefix(text, taskId) == VideoFallback
  {
    if Sanitize(taskId) == [] {
      VideoPrefixDefault(text, taskId);
    } else {
      VideoPrefixFromId(text, taskId);
    }
  }

  lemma VideoPrefixFromId(text: string, taskId: string)
    requires Trim(text) == [] && Sanitize(taskId) != []
    ensures VideoPrefix(text, taskId) == TakeUnits(Sanitize(taskId), 18)
  {
    VideoFallbackSanitized();
  }

  lemma VideoPrefixDefault(text: string, taskId: string)
    requires Trim(text) == [] && Sanitize(taskId) == []
    ensures VideoPrefix(text, taskId) == VideoFallback
  {
    VideoFallbackSanitized();
    if taskId != [] {
      assert TakeUnits([], 18) == [];
    }
  }

  /** Where `/\.[A-Za-z0-9]+$/` matches: a dot followed by a non-empty run of
      ASCII letters and digits reaching the end of the string. */
  predicate ExtMatchAt(s: string, j: int) {
    0 <= j && j + 1 < |s| && s[j] == '.' && forall k :: j < k < |s| ==> IsAsciiAlnum(s[k])
  }

  /** The regular expression matches at most once: just before the maximal
      run of letters and digits that ends the string. */
  lemma ExtMatchUnique(s: string, j: int)
    requires ExtMatchAt(s, j)
    ensures var stem := DropWhileEnd(s, IsAsciiAlnum); j == |stem| - 1 && |stem| < |s|
  {
    var stem := DropWhileEnd(s, IsAsciiAlnum);
    assert !IsAsciiAlnum(s[j]);
    assert j < |stem|;
    assert s[|stem| - 1] == stem[|stem| - 1];
  }

  /** `getExtFromPath`: the matched extension, or empty. */
  function ExtFromPath(p: Option<string>): (r: string)
    ensures var s := p.GetOr([]);
      && (r != [] <==> exists j :: ExtMatchAt(s, j))
      && (forall j :: ExtMatchAt(s, j) ==> r == s[j..])
  {
    var s := p.GetOr([]);
    var stem := DropWhileEnd(s, IsAsciiAlnum);
    if |stem| < |s| && |stem| > 0 && stem[|stem| - 1] == '.' then
      assert ExtMatchAt(s, |stem| - 1);
      assert forall j :: ExtMatchAt(s, j) ==> j == |stem| - 1 by {
        forall j | ExtMatchAt(s, j) ensures j == |stem| - 1 {
          ExtMatchUnique(s, j);
        }
      }
      s[|stem| - 1..]
    else
      assert forall j :: !ExtMatchAt(s, j) by {
        forall j ensures !ExtMatchAt(s, j) {
          if ExtMatchAt(s, j) {
            ExtMatchUnique(s, j);
          }
        }
      }
      []
  }

  /** The name prefix of `makeSuggestedFileName`: the sanitised first twelve
      UTF-16 code units of the trimmed, whitespace-collapsed prompt, else the
      default base as given, else `file`. */
  function SuggestedPrefix(prompt: string, defaultBase: Option<string>): (r: string)
    ensures r != []
    ensures var p := Sanitize(TakeUnits(CollapseRuns(Trim(prompt), IsSpace, ' '), 12));
      && (p != [] ==> r == p && |r| <= 12 && IsSanitized(r))
      && (p == [] && defaultBase.Some? && defaultBase.value != [] ==> r == defaultBase.value)
      && (p == [] && (defaultBase.None? || defaultBase.value == []) ==> r == "file")
  {
    var raw := CollapseRuns(Trim(prompt), IsSpace, ' ');
    var p := Sanitize(TakeUnits(raw, 12));
    if p != [] then p
    else if defaultBase.Some? && defaultBase.value != [] then defaultBase.value
    else "file"
  }

  /** `_` plus the 1-based position `n`, zero-padded to two digits, reads
      back as `n`. */
  lemma PaddedPosition(n: nat)
    requires n >= 1
    ensures var d := PadStart(IntToString(n), 2, '0');
      |d| >= 2 && (forall i :: 0 <= i < |d| ==> IsDigit(d[i])) && DecimalValue(d) == n
  {
    var s := NatToString(n);
    var d := PadStart(s, 2, '0');
    NatToStringRoundTrip(n);
    if |s| < 2 {
      assert d == "0" + s;
      assert d[..1] == "0";
    }
  }

  /** The sequence suffix: `_NN` (the 1-based index, at least two digits)
      when there is more than one file and an index is given. */
  function SeqSuffix(index: Option<int>, total: int): (r: string)
    ensures r != [] <==> total > 1 && index.Some?
    ensures r != [] ==> r[0] == '_' && r[1..] == PadStart(IntToString(index.value + 1), 2, '0')
  {
    if total > 1 && index.Some? then "_" + PadStart(IntToString(index.value + 1), 2, '0') else []
  }

  /** For a non-negative index the suffix's digits read back as the index
      plus one. */
  lemma SeqSuffixValue(index: Option<int>, total: int)
    requires total > 1 && index.Some? && index.value >= 0
    ensures var r := SeqSuffix(index, total);
      |r| >= 3 && (forall i :: 1 <= i < |r| ==> IsDigit(r[i])) && DecimalValue(r[1..]) == index.value + 1
  {
    PaddedPosition(index.value + 1);
  }

  /** `makeSuggestedFileName`: always `prefix + "_" + stamp + seq + ext`. */
  function SuggestedFileName(prompt: string, filePath: Option<string>, t: LocalTime,
                             index: Option<int>, total: int, defaultBase: Option<string>): (r: string)
    ensures StartsWith(r, SuggestedPrefix(prompt, defaultBase) + "_" + FormatTimestamp(t))
    ensures EndsWith(r, SeqSuffix(index, total) + ExtFromPath(filePath))
    ensures |r| == |SuggestedPrefix(prompt, defaultBase)| + 1 + |FormatTimestamp(t)|
      + |SeqSuffix(index, total)| + |ExtFromPath(filePath)|
  {
    var head := SuggestedPrefix(prompt, defaultBase) + "_" + FormatTimestamp(t);
    var tail := SeqSuffix(index, total) + ExtFromPath(filePath);
    Glued(head, tail);
    head + tail
  }

  lemma Glued(head: string, tail: string)
    ensures StartsWith(head + tail, head) && EndsWith(head + tail, tail)
  {
    assert (head + tail)[..|head|] == head;
    assert (head + tail)[|head + tail| - |tail|..] == tail;
  }
}
