/** `parseDateAsUtc` (src/lib/datetime.ts): the database writes timestamps
    without a zone, and the renderer reads a zone-less `YYYY-MM-DD HH:MM:SS`
    as UTC. The model computes the string handed to `new Date`, or `None`
    where the source builds the invalid date `new Date(NaN)`; the parsing
    inside `Date` itself is not modelled. */
module DateNormalize {
  import opened Text
  import opened Wrappers

  predicate IsSign(c: char) {
    c == '+' || c == '-'
  }

  /** `/[+-]\d{2}:?\d{2}$/`: a numeric offset, with or without the colon,
      ends the string. */
  predicate EndsWithOffset(s: string) {
    var n := |s|;
    || (n >= 5 && IsSign(s[n - 5]) && IsDigit(s[n - 4]) && IsDigit(s[n - 3])
        && IsDigit(s[n - 2]) && IsDigit(s[n - 1]))
    || (n >= 6 && IsSign(s[n - 6]) && IsDigit(s[n - 5]) && IsDigit(s[n - 4])
        && s[n - 3] == ':' && IsDigit(s[n - 2]) && IsDigit(s[n - 1]))
  }

  /** `/[zZ]$/.test(s) || /[+-]\d{2}:?\d{2}$/.test(s)`: the string already
      names its zone. */
  predicate HasZone(s: string) {
    (|s| > 0 && (s[|s| - 1] == 'z' || s[|s| - 1] == 'Z')) || EndsWithOffset(s)
  }

  /** Position `i` of `YYYY-MM-DD?HH:MM:SS`, with `sep` in place of `?`. */
  predicate ShapeAt(c: char, i: nat, sep: char) {
    if i == 4 || i == 7 then c == '-'
    else if i == 10 then c == sep
    else if i == 13 || i == 16 then c == ':'
    else IsDigit(c)
  }

  /** `/^\d{4}-\d{2}-\d{2}<sep>\d{2}:\d{2}:\d{2}/`: the string starts with a
      date and a time of day separated by `sep` (anything may follow). */
  predicate StartsWithDateTime(s: string, sep: char) {
    |s| >= 19 && forall i :: 0 <= i < 19 ==> ShapeAt(s[i], i, sep)
  }

  /** `parseDateAsUtc` up to the `Date` constructor: `None` for the invalid
      date built from blank input, otherwise the text passed to `new Date`. */
  function DateInput(dateStr: Option<string>): (r: Option<string>)
    ensures r.None? <==> Trim(dateStr.GetOr([])) == []
    ensures r.Some? ==> |r.value| > 0 && !IsSpace(r.value[0])
    ensures r.Some? && HasZone(Trim(dateStr.GetOr([]))) ==> r.value == Trim(dateStr.GetOr([]))
    ensures var s := Trim(dateStr.GetOr([]));
      s != [] && !HasZone(s) && StartsWithDateTime(s, ' ') ==> r == Some(s[..10] + "T" + s[11..] + "Z")
    ensures var s := Trim(dateStr.GetOr([]));
      s != [] && !HasZone(s) && StartsWithDateTime(s, 'T') ==> r == Some(s + "Z")
    ensures var s := Trim(dateStr.GetOr([]));
      s != [] && !HasZone(s) && !StartsWithDateTime(s, ' ') && !StartsWithDateTime(s, 'T') ==> r == Some(s)
  {
    var s := Trim(dateStr.GetOr([]));
    if s == [] then None
    else if HasZone(s) then Some(s)
    else if StartsWithDateTime(s, ' ') then
      SpaceFormReplace(s);
      ShapesExclusive(s);
      Some(ReplaceFirst(s, ' ', 'T') + "Z")
    else if StartsWithDateTime(s, 'T') then Some(s + "Z")
    else Some(s)
  }

  /** No string has both shapes: they differ in the separator. */
  lemma ShapesExclusive(s: string)
    ensures !(StartsWithDateTime(s, ' ') && StartsWithDateTime(s, 'T'))
  {
    if |s| >= 19 {
      assert ShapeAt(s[10], 10, ' ') ==> !ShapeAt(s[10], 10, 'T');
    }
  }

  /** For a string of the `YYYY-MM-DD HH:MM:SS` shape, the first space is the
      separator, so the replacement yields the `T` form. */
  lemma SpaceFormReplace(s: string)
    requires StartsWithDateTime(s, ' ')
    ensures ReplaceFirst(s, ' ', 'T') == s[..10] + "T" + s[11..]
    ensures StartsWithDateTime(ReplaceFirst(s, ' ', 'T'), 'T')
  {
    assert forall i :: 0 <= i < 10 ==> ShapeAt(s[i], i, ' ');
    ReplaceFirstAt(s, ' ', 'T', 10);
    var t := s[..10] + "T" + s[11..];
    assert forall i :: 0 <= i < 19 ==> t[i] == if i == 10 then 'T' else s[i];
  }

  /** Whether a string names its zone depends on its last six characters
      only. */
  lemma ZoneOfTail(s: string, t: string)
    requires |s| == |t| >= 6
    requires forall j :: |s| - 6 <= j < |s| ==> s[j] == t[j]
    ensures HasZone(s) == HasZone(t)
  {
  }

  /** The two shapes read as the same instant: a zone-less
      `YYYY-MM-DD HH:MM:SS` is normalised to exactly what its `T` form is. */
  lemma SpaceAndTFormsAgree(s: string)
    requires StartsWithDateTime(s, ' ') && !HasZone(s)
    requires !IsSpace(s[|s| - 1])
    ensures DateInput(Some(s)) == DateInput(Some(s[..10] + "T" + s[11..]))
  {
    var t := s[..10] + "T" + s[11..];
    SpaceFormReplace(s);
    assert IsDigit(s[0]);
    TrimOfTrimmed(s);
    assert |t| == |s| && forall j :: 11 <= j < |s| ==> t[j] == s[j];
    TrimOfTrimmed(t);
    ZoneOfTail(s, t);
    assert !StartsWithDateTime(t, ' ') by {
      assert !ShapeAt(t[10], 10, ' ');
    }
    assert Some(s).GetOr([]) == s && Some(t).GetOr([]) == t;
    assert DateInput(Some(s)) == Some(t + "Z");
    assert DateInput(Some(t)) == Some(t + "Z");
  }

  /** Each date-time shape gets an explicit UTC marker, so the `Date`
      constructor never falls back to local time for it. */
  lemma ShapedInputGetsZone(dateStr: Option<string>)
    requires var s := Trim(dateStr.GetOr([])); StartsWithDateTime(s, ' ') || StartsWithDateTime(s, 'T')
    ensures DateInput(dateStr).Some? && HasZone(DateInput(dateStr).value)
  {
  }

  /** Normalising twice is normalising once: the text handed to `Date` is
      already in the form the function leaves alone. */
  lemma DateInputIdempotent(dateStr: Option<string>)
    ensures var r := DateInput(dateStr);
      r.Some? ==> DateInput(Some(r.value)) == r
  {
    var s := Trim(dateStr.GetOr([]));
    var r := DateInput(dateStr);
    if r.Some? {
      var v := r.value;
      if HasZone(s) || !(StartsWithDateTime(s, ' ') || StartsWithDateTime(s, 'T')) {
        TrimIdempotent(dateStr.GetOr([]));
      } else {
        if StartsWithDateTime(s, ' ') {
          SpaceFormReplace(s);
        }
        assert v[|v| - 1] == 'Z';
        TrimOfTrimmed(v);
      }
    }
  }
}
