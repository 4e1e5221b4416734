/** String helpers following the JavaScript built-ins the application
    relies on: `\s` and `trim()` whitespace, ASCII-only case folding of a
    `/i` regular expression, run replacement (`/[..]+/g`), `join`,
    `padStart`, decimal `String(n)`, and `length` and `slice` counted in
    UTF-16 code units. A string is a sequence of Unicode scalar values, so
    a lone surrogate, which JavaScript strings can hold, has no counterpart
    here. */
module Text {

  /** A string is truthy in JavaScript exactly when it is not empty. */
  predicate Truthy(s: string) {
    s != []
  }

  /** The characters matched by `\s` and removed by `trim()`: the ECMAScript
      WhiteSpace and LineTerminator sets. */
  predicate IsSpace(c: char) {
    || c == '\t' || c == '\n' || c == '\U{0B}' || c == '\U{0C}' || c == '\r'
    || c == ' ' || c == '\U{A0}' || c == '\U{1680}'
    || ('\U{2000}' <= c <= '\U{200A}')
    || c == '\U{2028}' || c == '\U{2029}' || c == '\U{202F}' || c == '\U{205F}'
    || c == '\U{3000}' || c == '\U{FEFF}'
  }

  /** `\u0000-\u001F`. */
  predicate IsControl(c: char) {
    c <= '\U{1F}'
  }

  /** `\d` (ASCII digits only). */
  predicate IsDigit(c: char) {
    '0' <= c <= '9'
  }

  /** `[A-Za-z]`. */
  predicate IsAsciiLetter(c: char) {
    ('a' <= c <= 'z') || ('A' <= c <= 'Z')
  }

  /** `[A-Za-z0-9]`. */
  predicate IsAsciiAlnum(c: char) {
    IsAsciiLetter(c) || IsDigit(c)
  }

  function LowerChar(c: char): (r: char)
    ensures IsAsciiLetter(c) ==> 'a' <= r <= 'z'
    ensures !('A' <= c <= 'Z') ==> r == c
  {
    if 'A' <= c <= 'Z' then (c as int + 32) as char else c
  }

  function UpperChar(c: char): (r: char)
    ensures IsAsciiLetter(c) ==> 'A' <= r <= 'Z'
    ensures !('a' <= c <= 'z') ==> r == c
  {
    if 'a' <= c <= 'z' then (c as int - 32) as char else c
  }

  function Lower(s: string): (r: string)
    ensures |r| == |s|
    ensures forall i :: 0 <= i < |s| ==> r[i] == LowerChar(s[i])
  {
    seq(|s|, i requires 0 <= i < |s| => LowerChar(s[i]))
  }

  /** Whole-string match of a case-insensitive pattern made of ASCII
      characters, as `/^(word)$/i` does it: letters match in either case,
      every other character only itself. */
  predicate EqualsIgnoreCase(s: string, word: string) {
    Lower(s) == Lower(word)
  }

  predicate StartsWith(s: string, prefix: string) {
    |prefix| <= |s| && s[..|prefix|] == prefix
  }

  predicate EndsWith(s: string, suffix: string) {
    |suffix| <= |s| && s[|s| - |suffix|..] == suffix
  }

  /** `s.includes(sub)`. */
  predicate Contains(s: string, sub: string)
    decreases |s|
  {
    StartsWith(s, sub) || (|s| > 0 && Contains(s[1..], sub))
  }

  /** `/sub/i.test(s)` for an ASCII `sub`. */
  predicate ContainsIgnoreCase(s: string, sub: string) {
    Contains(Lower(s), Lower(sub))
  }

  /** Drops the longest prefix whose characters satisfy `p` (a `^[..]+` replace). */
  function DropWhile(s: string, p: char -> bool): (r: string)
    ensures |r| <= |s| && r == s[|s| - |r|..]
    ensures |r| > 0 ==> !p(r[0])
    ensures forall i :: 0 <= i < |s| - |r| ==> p(s[i])
    decreases |s|
  {
    if |s| > 0 && p(s[0]) then DropWhile(s[1..], p) else s
  }

  /** Drops the longest suffix whose characters satisfy `p` (a `[..]+$` replace). */
  function DropWhileEnd(s: string, p: char -> bool): (r: string)
    ensures |r| <= |s| && r == s[..|r|]
    ensures |r| > 0 ==> !p(r[|r| - 1])
    ensures forall i :: |r| <= i < |s| ==> p(s[i])
    decreases |s|
  {
    if |s| > 0 && p(s[|s| - 1]) then DropWhileEnd(s[..|s| - 1], p) else s
  }

  /** The length of the longest prefix whose characters satisfy `p`. */
  function LeadingCount(s: string, p: char -> bool): (n: nat)
    ensures n <= |s|
    ensures forall i :: 0 <= i < n ==> p(s[i])
    ensures n < |s| ==> !p(s[n])
    decreases |s|
  {
    if |s| > 0 && p(s[0]) then 1 + LeadingCount(s[1..], p) else 0
  }

  /** The length of the longest suffix whose characters satisfy `p`. */
  function TrailingCount(s: string, p: char -> bool): (n: nat)
    ensures n <= |s|
    ensures forall i :: |s| - n <= i < |s| ==> p(s[i])
    ensures n < |s| ==> !p(s[|s| - n - 1])
    decreases |s|
  {
    if |s| > 0 && p(s[|s| - 1]) then 1 + TrailingCount(s[..|s| - 1], p) else 0
  }

  /** The number of leading whitespace characters `trim()` removes. */
  function LeadingSpaces(s: string): (n: nat)
    ensures n <= |s|
  {
    LeadingCount(s, IsSpace)
  }

  /** Strips the longest prefix and then the longest suffix whose characters
      satisfy `p`; what remains is a contiguous slice of `s`. */
  function TrimBy(s: string, p: char -> bool): (r: string)
    ensures LeadingCount(s, p) + |r| <= |s|
    ensures r == s[LeadingCount(s, p)..LeadingCount(s, p) + |r|]
    ensures |r| > 0 ==> !p(r[0]) && !p(r[|r| - 1])
    ensures forall i :: LeadingCount(s, p) + |r| <= i < |s| ==> p(s[i])
  {
    var a := LeadingCount(s, p);
    if a == |s| then []
    else
      var e := |s| - TrailingCount(s, p);
      assert a < e;
      s[a..e]
  }

  /** `String.prototype.trim`. */
  function Trim(s: string): (r: string)
    ensures LeadingSpaces(s) + |r| <= |s|
    ensures r == s[LeadingSpaces(s)..LeadingSpaces(s) + |r|]
    ensures |r| > 0 ==> !IsSpace(r[0]) && !IsSpace(r[|r| - 1])
    ensures forall i :: 0 <= i < LeadingSpaces(s) ==> IsSpace(s[i])
    ensures forall i :: LeadingSpaces(s) + |r| <= i < |s| ==> IsSpace(s[i])
  {
    TrimBy(s, IsSpace)
  }

  /** A string without leading or trailing whitespace is its own trim. */
  lemma TrimOfTrimmed(s: string)
    requires |s| > 0 ==> !IsSpace(s[0]) && !IsSpace(s[|s| - 1])
    ensures Trim(s) == s
  {
  }

  /** Trimming is idempotent. */
  lemma TrimIdempotent(s: string)
    ensures Trim(Trim(s)) == Trim(s)
  {
    TrimOfTrimmed(Trim(s));
  }

  /** `Trim(s)` is empty exactly when `s` is all whitespace. */
  lemma TrimEmptyIff(s: string)
    ensures Trim(s) == [] <==> forall i :: 0 <= i < |s| ==> IsSpace(s[i])
  {
  }

  /** Replaces every maximal run of characters satisfying `inRun` by the single
      character `rep`, as `s.replace(/[..]+/g, rep)` does. */
  function CollapseRuns(s: string, inRun: char -> bool, rep: char): (r: string)
    ensures |r| <= |s|
    ensures |s| > 0 ==> |r| > 0 && r[0] == (if inRun(s[0]) then rep else s[0])
    decreases |s|
  {
    if |s| == 0 then []
    else if inRun(s[0]) then [rep] + CollapseRuns(DropWhile(s[1..], inRun), inRun, rep)
    else [s[0]] + CollapseRuns(s[1..], inRun, rep)
  }

  /** Every output character is the replacement or a character of the input
      outside the run class. */
  lemma {:induction false} CollapseRunsChars(s: string, inRun: char -> bool, rep: char)
    ensures forall c :: c in CollapseRuns(s, inRun, rep) ==> c == rep || (!inRun(c) && c in s)
    decreases |s|
  {
    if |s| > 0 {
      if inRun(s[0]) {
        var rest := DropWhile(s[1..], inRun);
        CollapseRunsChars(rest, inRun, rep);
        assert forall c :: c in rest ==> c in s by {
          assert rest == s[|s| - |rest|..];
        }
      } else {
        CollapseRunsChars(s[1..], inRun, rep);
        assert forall c :: c in s[1..] ==> c in s;
      }
    }
  }

  /** No two neighbouring characters are both in the class. */
  predicate Separated(s: string, inRun: char -> bool) {
    forall i :: 0 <= i < |s| - 1 ==> !(inRun(s[i]) && inRun(s[i + 1]))
  }

  /** No two neighbouring output characters are both in the run class. */
  lemma {:induction false} CollapseRunsSeparated(s: string, inRun: char -> bool, rep: char)
    ensures Separated(CollapseRuns(s, inRun, rep), inRun)
    decreases |s|
  {
    if |s| > 0 {
      var r := CollapseRuns(s, inRun, rep);
      var rest := if inRun(s[0]) then DropWhile(s[1..], inRun) else s[1..];
      var tail := CollapseRuns(rest, inRun, rep);
      CollapseRunsSeparated(rest, inRun, rep);
      assert r == [r[0]] + tail;
      assert |tail| > 0 ==> !inRun(tail[0]) || !inRun(r[0]);
      forall i | 0 <= i < |r| - 1 ensures !(inRun(r[i]) && inRun(r[i + 1])) {
        assert r[i + 1] == tail[i];
        if i > 0 {
          assert r[i] == tail[i - 1];
          assert !(inRun(tail[i - 1]) && inRun(tail[i]));
        } else {
          assert !inRun(tail[0]) || !inRun(r[0]);
        }
      }
    }
  }

  /** A string with no character in the run class is left unchanged. */
  lemma {:induction false} CollapseRunsNoop(s: string, inRun: char -> bool, rep: char)
    requires forall i :: 0 <= i < |s| ==> !inRun(s[i])
    ensures CollapseRuns(s, inRun, rep) == s
    decreases |s|
  {
    if |s| > 0 {
      CollapseRunsNoop(s[1..], inRun, rep);
    }
  }

  /** When `rep` is itself in the run class, a string whose runs are already
      single `rep` characters is left unchanged. */
  lemma {:induction false} CollapseRunsFixpoint(s: string, inRun: char -> bool, rep: char)
    requires inRun(rep)
    requires forall i :: 0 <= i < |s| ==> inRun(s[i]) ==> s[i] == rep
    requires forall i :: 0 <= i < |s| - 1 ==> !(inRun(s[i]) && inRun(s[i + 1]))
    ensures CollapseRuns(s, inRun, rep) == s
    decreases |s|
  {
    if |s| > 0 {
      if inRun(s[0]) {
        assert DropWhile(s[1..], inRun) == s[1..] by {
          if |s| > 1 {
            assert !inRun(s[1]);
          }
        }
      }
      CollapseRunsFixpoint(s[1..], inRun, rep);
    }
  }

  /** The first character of `x + y` and what follows it. */
  lemma SplitHead(x: string, y: string)
    requires |x| > 0
    ensures (x + y)[0] == x[0] && (x + y)[1..] == x[1..] + y
  {
  }

  lemma ConcatAssoc(a: string, b: string, c: string)
    ensures a + (b + c) == (a + b) + c
  {
  }

  lemma RegroupFour(w: string, x: string, y: string, z: string)
    ensures w + (x + y + z) == (w + x) + y + z
  {
  }

  /** Once the dropped run ends inside `t`, appending to `t` only extends the
      remainder. */
  lemma {:induction false} DropWhileConcat(t: string, u: string, p: char -> bool)
    requires DropWhile(t, p) != []
    ensures DropWhile(t + u, p) == DropWhile(t, p) + u
    decreases |t|
  {
    SplitHead(t, u);
    if p(t[0]) {
      DropWhileConcat(t[1..], u, p);
    }
  }

  /** A prefix lying wholly in the run is dropped, and dropping continues into
      what follows it. */
  lemma {:induction false} DropWhileSkipRun(d: string, u: string, p: char -> bool)
    requires forall i :: 0 <= i < |d| ==> p(d[i])
    ensures DropWhile(d + u, p) == DropWhile(u, p)
    decreases |d|
  {
    if |d| == 0 {
      assert d + u == u;
    } else {
      SplitHead(d, u);
      DropWhileSkipRun(d[1..], u, p);
    }
  }

  /** A string that ends outside the class keeps its last character once its
      leading run is dropped. */
  lemma DropWhileKeepsLast(t: string, p: char -> bool)
    requires |t| > 0 && !p(t[|t| - 1])
    ensures var r := DropWhile(t, p); |r| > 0 && r[|r| - 1] == t[|t| - 1]
  {
  }

  /** One unfolding of `CollapseRuns`. */
  lemma CollapseRunsOpen(s: string, inRun: char -> bool, rep: char)
    requires |s| > 0
    ensures inRun(s[0]) ==> CollapseRuns(s, inRun, rep) == [rep] + CollapseRuns(DropWhile(s[1..], inRun), inRun, rep)
    ensures !inRun(s[0]) ==> CollapseRuns(s, inRun, rep) == [s[0]] + CollapseRuns(s[1..], inRun, rep)
  {
  }

  /** One character: the replacement if it is in the class, else itself. */
  lemma CollapseRunsSingle(c: char, inRun: char -> bool, rep: char)
    ensures DropWhile([c], inRun) == (if inRun(c) then [] else [c])
    ensures CollapseRuns([c], inRun, rep) == [if inRun(c) then rep else c]
  {
    assert [c][1..] == [];
  }

  /** Reading the input left to right: appending one character appends the
      replacement when it opens a run, nothing when it extends one, and the
      character itself otherwise. With `CollapseRuns([]) == []` this
      determines every output. */
  lemma {:induction false} CollapseRunsStep(s: string, inRun: char -> bool, rep: char, c: char)
    ensures CollapseRuns(s + [c], inRun, rep)
         == CollapseRuns(s, inRun, rep) + StepTail(s, inRun, rep, c)
    decreases |s|, 2
  {
    if |s| == 0 {
      assert s + [c] == [c];
      CollapseRunsSingle(c, inRun, rep);
    } else if inRun(s[0]) {
      if DropWhile(s[1..], inRun) == [] {
        CollapseRunsStepWholeRun(s, inRun, rep, c);
      } else {
        CollapseRunsStepPastRun(s, inRun, rep, c);
      }
    } else {
      CollapseRunsStepPlain(s, inRun, rep, c);
    }
  }

  /** What appending `c` to `s` adds to the collapsed output. */
  function StepTail(s: string, inRun: char -> bool, rep: char, c: char): string {
    if inRun(c) && |s| > 0 && inRun(s[|s| - 1]) then [] else [if inRun(c) then rep else c]
  }

  /** The step when `s` opens outside the class. */
  lemma {:induction false} CollapseRunsStepPlain(s: string, inRun: char -> bool, rep: char, c: char)
    requires |s| > 0 && !inRun(s[0])
    ensures CollapseRuns(s + [c], inRun, rep)
         == CollapseRuns(s, inRun, rep) + StepTail(s, inRun, rep, c)
    decreases |s|, 0
  {
    SplitHead(s, [c]);
    CollapseRunsOpen(s, inRun, rep);
    CollapseRunsOpen(s + [c], inRun, rep);
    CollapseRunsStep(s[1..], inRun, rep, c);
    assert StepTail(s[1..], inRun, rep, c) == StepTail(s, inRun, rep, c) by {
      if |s| > 1 {
        assert s[1..][|s| - 2] == s[|s| - 1];
      }
    }
    ConcatAssoc([s[0]], CollapseRuns(s[1..], inRun, rep), StepTail(s, inRun, rep, c));
  }

  /** The step when `s` is one run. */
  lemma CollapseRunsStepWholeRun(s: string, inRun: char -> bool, rep: char, c: char)
    requires |s| > 0 && inRun(s[0]) && DropWhile(s[1..], inRun) == []
    ensures CollapseRuns(s + [c], inRun, rep)
         == CollapseRuns(s, inRun, rep) + StepTail(s, inRun, rep, c)
  {
    SplitHead(s, [c]);
    DropWhileAllRun(s[1..], c, inRun);
    CollapseRunsOpen(s, inRun, rep);
    CollapseRunsOpen(s + [c], inRun, rep);
    CollapseRunsSingle(c, inRun, rep);
    RunEndsIn(s, inRun);
  }

  /** When all of `t` is one run, dropping from `t + [c]` is dropping from `[c]`. */
  lemma {:induction false} DropWhileAllRun(t: string, c: char, p: char -> bool)
    requires DropWhile(t, p) == []
    ensures DropWhile(t + [c], p) == DropWhile([c], p)
    decreases |t|
  {
    if |t| == 0 {
      assert t + [c] == [c];
    } else {
      SplitHead(t, [c]);
      DropWhileAllRun(t[1..], c, p);
    }
  }

  /** A string whose opening run is all of it ends in the class. */
  lemma RunEndsIn(s: string, p: char -> bool)
    requires |s| > 0 && p(s[0]) && DropWhile(s[1..], p) == []
    ensures p(s[|s| - 1])
  {
    if |s| > 1 {
      assert s[1..][|s| - 2] == s[|s| - 1];
    }
  }

  /** The step when the opening run of `s` ends inside `s`. */
  lemma {:induction false} CollapseRunsStepPastRun(s: string, inRun: char -> bool, rep: char, c: char)
    requires |s| > 0 && inRun(s[0]) && DropWhile(s[1..], inRun) != []
    ensures CollapseRuns(s + [c], inRun, rep)
         == CollapseRuns(s, inRun, rep) + StepTail(s, inRun, rep, c)
    decreases |s|, 0
  {
    var d := DropWhile(s[1..], inRun);
    SplitHead(s, [c]);
    CollapseRunsOpen(s, inRun, rep);
    CollapseRunsOpen(s + [c], inRun, rep);
    DropWhileConcat(s[1..], [c], inRun);
    CollapseRunsStep(d, inRun, rep, c);
    assert d[|d| - 1] == s[|s| - 1];
    assert StepTail(d, inRun, rep, c) == StepTail(s, inRun, rep, c);
    ConcatAssoc([rep], CollapseRuns(d, inRun, rep), StepTail(s, inRun, rep, c));
  }

  /** A non-empty run between two pieces that do not touch it with run
      characters becomes one `rep`, and each piece is collapsed on its own. */
  lemma {:induction false} CollapseRunsSplice(a: string, d: string, b: string, inRun: char -> bool, rep: char)
    requires |a| > 0 ==> !inRun(a[|a| - 1])
    requires |d| > 0 && forall i :: 0 <= i < |d| ==> inRun(d[i])
    requires |b| > 0 ==> !inRun(b[0])
    ensures CollapseRuns(a + d + b, inRun, rep)
         == CollapseRuns(a, inRun, rep) + [rep] + CollapseRuns(b, inRun, rep)
    decreases |a|, 1
  {
    if |a| == 0 {
      assert a + d + b == d + b;
      CollapseRunsSpliceAlone(d, b, inRun, rep);
    } else if inRun(a[0]) {
      CollapseRunsSpliceRunHead(a, d, b, inRun, rep);
    } else {
      CollapseRunsSplicePlainHead(a, d, b, inRun, rep);
    }
  }

  /** A run at the front becomes one `rep`. */
  lemma CollapseRunsSpliceAlone(d: string, b: string, inRun: char -> bool, rep: char)
    requires |d| > 0 && forall i :: 0 <= i < |d| ==> inRun(d[i])
    requires |b| > 0 ==> !inRun(b[0])
    ensures CollapseRuns(d + b, inRun, rep) == [rep] + CollapseRuns(b, inRun, rep)
  {
    SplitHead(d, b);
    CollapseRunsOpen(d + b, inRun, rep);
    DropWhileSkipRun(d[1..], b, inRun);
    assert DropWhile(b, inRun) == b;
  }

  /** The splice when `a` opens with its own run. */
  lemma {:induction false} CollapseRunsSpliceRunHead(a: string, d: string, b: string, inRun: char -> bool, rep: char)
    requires |a| > 0 && inRun(a[0]) && !inRun(a[|a| - 1])
    requires |d| > 0 && forall i :: 0 <= i < |d| ==> inRun(d[i])
    requires |b| > 0 ==> !inRun(b[0])
    ensures CollapseRuns(a + d + b, inRun, rep)
         == CollapseRuns(a, inRun, rep) + [rep] + CollapseRuns(b, inRun, rep)
    decreases |a|, 0
  {
    var e := DropWhile(a[1..], inRun);
    assert !inRun(a[1..][|a[1..]| - 1]);
    DropWhileKeepsLast(a[1..], inRun);
    ConcatAssoc(a, d, b);
    SplitHead(a, d + b);
    CollapseRunsOpen(a, inRun, rep);
    CollapseRunsOpen(a + (d + b), inRun, rep);
    DropWhileConcat(a[1..], d + b, inRun);
    ConcatAssoc(e, d, b);
    CollapseRunsSplice(e, d, b, inRun, rep);
    var ce, cb := CollapseRuns(e, inRun, rep), CollapseRuns(b, inRun, rep);
    RegroupFour([rep], ce, [rep], cb);
  }

  /** The splice when `a` opens outside the class. */
  lemma {:induction false} CollapseRunsSplicePlainHead(a: string, d: string, b: string, inRun: char -> bool, rep: char)
    requires |a| > 0 && !inRun(a[0]) && !inRun(a[|a| - 1])
    requires |d| > 0 && forall i :: 0 <= i < |d| ==> inRun(d[i])
    requires |b| > 0 ==> !inRun(b[0])
    ensures CollapseRuns(a + d + b, inRun, rep)
         == CollapseRuns(a, inRun, rep) + [rep] + CollapseRuns(b, inRun, rep)
    decreases |a|, 0
  {
    ConcatAssoc(a, d, b);
    SplitHead(a, d + b);
    CollapseRunsOpen(a, inRun, rep);
    CollapseRunsOpen(a + (d + b), inRun, rep);
    if |a| > 1 {
      assert a[1..][|a| - 2] == a[|a| - 1];
    }
    ConcatAssoc(a[1..], d, b);
    CollapseRunsSplice(a[1..], d, b, inRun, rep);
    var ca, cb := CollapseRuns(a[1..], inRun, rep), CollapseRuns(b, inRun, rep);
    RegroupFour([a[0]], ca, [rep], cb);
  }

  /** `s.replace(/x/g, y)` for single characters. */
  function ReplaceChar(s: string, x: char, y: char): (r: string)
    ensures |r| == |s|
    ensures forall i :: 0 <= i < |s| ==> r[i] == (if s[i] == x then y else s[i])
  {
    seq(|s|, i requires 0 <= i < |s| => if s[i] == x then y else s[i])
  }

  /** `s.replace(x, y)` with a one-character string pattern: only the first
      occurrence is replaced. */
  function ReplaceFirst(s: string, x: char, y: char): (r: string)
    ensures |r| == |s|
    ensures x !in s ==> r == s
    decreases |s|
  {
    if |s| == 0 then []
    else if s[0] == x then [y] + s[1..]
    else [s[0]] + ReplaceFirst(s[1..], x, y)
  }

  /** When the first `x` sits at `k`, exactly that character is replaced. */
  lemma {:induction false} ReplaceFirstAt(s: string, x: char, y: char, k: nat)
    requires k < |s| && s[k] == x
    requires forall i :: 0 <= i < k ==> s[i] != x
    ensures ReplaceFirst(s, x, y) == s[..k] + [y] + s[k + 1..]
    decreases k
  {
    if k > 0 {
      ReplaceFirstAt(s[1..], x, y, k - 1);
      assert s[1..][..k - 1] == s[1..k];
      assert s[1..][k..] == s[k + 1..];
      assert s[..k] == [s[0]] + s[1..k];
    }
  }

  /** `parts.join(sep)`. */
  function Join(parts: seq<string>, sep: string): string
    decreases |parts|
  {
    if |parts| == 0 then []
    else if |parts| == 1 then parts[0]
    else parts[0] + sep + Join(parts[1..], sep)
  }

  /** The string of `n` copies of `c`. */
  function Repeat(c: char, n: nat): (r: string)
    ensures |r| == n
    ensures forall i :: 0 <= i < n ==> r[i] == c
  {
    seq(n, _ => c)
  }

  /** `s.padStart(width, c)` for a one-character pad. */
  function PadStart(s: string, width: nat, c: char): (r: string)
    ensures |r| == if |s| >= width then |s| else width
    ensures EndsWith(r, s)
    ensures forall i :: 0 <= i < |r| - |s| ==> r[i] == c
  {
    if |s| >= width then s else Repeat(c, width - |s|) + s
  }

  function DigitChar(d: nat): (c: char)
    requires d < 10
    ensures IsDigit(c) && c as int == '0' as int + d
  {
    ('0' as int + d) as char
  }

  function DigitValue(c: char): (d: nat)
    requires IsDigit(c)
    ensures d < 10 && DigitChar(d) == c
  {
    c as int - '0' as int
  }

  /** `String(n)` for a non-negative integer: decimal, no leading zeros. */
  function NatToString(n: nat): (r: string)
    ensures |r| > 0
    ensures forall i :: 0 <= i < |r| ==> IsDigit(r[i])
    ensures |r| > 1 ==> r[0] != '0'
    ensures n < 10 <==> |r| == 1
    decreases n
  {
    if n < 10 then [DigitChar(n)] else NatToString(n / 10) + [DigitChar(n % 10)]
  }

  /** `String(n)` for any integer. */
  function IntToString(n: int): (r: string)
    ensures |r| > 0
    ensures n >= 0 ==> r == NatToString(n)
    ensures n < 0 ==> r == "-" + NatToString(-n)
  {
    if n < 0 then "-" + NatToString(-n) else NatToString(n)
  }

  /** The number a string of decimal digits denotes (most significant first). */
  function DecimalValue(s: string): nat
    requires forall i :: 0 <= i < |s| ==> IsDigit(s[i])
    decreases |s|
  {
    if |s| == 0 then 0 else DecimalValue(s[..|s| - 1]) * 10 + DigitValue(s[|s| - 1])
  }

  /** Reading back the decimal string of `n` gives `n`. */
  lemma {:induction false} NatToStringRoundTrip(n: nat)
    ensures DecimalValue(NatToString(n)) == n
    decreases n
  {
    if n >= 10 {
      var s := NatToString(n);
      assert s[..|s| - 1] == NatToString(n / 10);
      NatToStringRoundTrip(n / 10);
    }
  }

  /** Distinct numbers have distinct decimal strings. */
  lemma NatToStringInjective(m: nat, n: nat)
    requires NatToString(m) == NatToString(n)
    ensures m == n
  {
    NatToStringRoundTrip(m);
    NatToStringRoundTrip(n);
  }

  // ---------------------------------------------------------------------
  // UTF-16 length

  /** The UTF-16 code units of a character: a surrogate pair for one
      outside the Basic Multilingual Plane, else one unit. */
  function Units(c: char): nat {
    if c as int >= 0x1_0000 then 2 else 1
  }

  /** `s.length`: the number of UTF-16 code units. */
  function UnitLength(s: string): (n: nat)
    ensures |s| <= n <= 2 * |s|
  {
    if s == [] then 0 else Units(s[0]) + UnitLength(s[1..])
  }

  lemma {:induction false} UnitLengthAppend(a: string, b: string)
    ensures UnitLength(a + b) == UnitLength(a) + UnitLength(b)
    decreases |a|
  {
    if a == [] {
      assert a + b == b;
    } else {
      assert (a + b)[1..] == a[1..] + b;
      UnitLengthAppend(a[1..], b);
    }
  }

  /** Every character lies in the Basic Multilingual Plane. */
  predicate IsBmp(s: string) {
    forall i :: 0 <= i < |s| ==> s[i] as int < 0x1_0000
  }

  lemma AppendBmp(a: string, b: string)
    requires IsBmp(a) && IsBmp(b)
    ensures IsBmp(a + b)
  {
    forall i | 0 <= i < |a + b| ensures (a + b)[i] as int < 0x1_0000 {
      if i < |a| { assert (a + b)[i] == a[i]; } else { assert (a + b)[i] == b[i - |a|]; }
    }
  }

  /** Text of the Basic Multilingual Plane takes one unit per character. */
  lemma {:induction false} BmpUnitLength(s: string)
    requires IsBmp(s)
    ensures UnitLength(s) == |s|
    decreases |s|
  {
    if s != [] {
      assert IsBmp(s[1..]) by {
        forall i | 0 <= i < |s| - 1 ensures s[1..][i] as int < 0x1_0000 {
          assert s[1..][i] == s[i + 1];
        }
      }
      BmpUnitLength(s[1..]);
    }
  }

  /** `s.slice(0, n)`, `n` counted in UTF-16 code units: the longest prefix
      of whole characters at most `n` units long. */
  function TakeUnits(s: string, n: nat): (r: string)
    ensures |r| <= |s| && r == s[..|r|]
    ensures UnitLength(r) <= n
    ensures |r| < |s| ==> UnitLength(r) + Units(s[|r|]) > n
    ensures UnitLength(s) <= n ==> r == s
    decreases |s|
  {
    if s == [] || Units(s[0]) > n then []
    else
      var rest := TakeUnits(s[1..], n - Units(s[0]));
      assert ([s[0]] + rest)[1..] == rest;
      [s[0]] + rest
  }

  /** On text of the Basic Multilingual Plane a unit is a character, so
      the cut keeps the first `n` characters. */
  lemma BmpTakeUnits(s: string, n: nat)
    requires IsBmp(s)
    ensures TakeUnits(s, n) == if |s| <= n then s else s[..n]
  {
    var r := TakeUnits(s, n);
    assert IsBmp(r) by {
      forall i | 0 <= i < |r| ensures r[i] as int < 0x1_0000 {
        assert r[i] == s[i];
      }
    }
    BmpUnitLength(r);
    BmpUnitLength(s);
  }
}
