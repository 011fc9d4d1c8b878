/** String handling used by the cleaning stage: Python's `str.lower`,
    `str.strip`, the column-name clean-up and the `int(...)` / `float(...)`
    conversions behind pandas' `astype`. */
module Text {
  import opened Results

  // ---------------------------------------------------------------------------
  // Characters
  // ---------------------------------------------------------------------------

  /** The characters Python's `str.isspace` accepts, which is what a bare
      `str.strip()` removes from both ends. */
  predicate IsSpace(c: char) {
    || c == ' ' || c == '\t' || c == '\n' || c == '\r'
    || c == '\U{0B}' || c == '\U{0C}'
    || ('\U{1C}' <= c <= '\U{1F}')
    || c == '\U{85}' || c == '\U{A0}' || c == '\U{1680}'
    || ('\U{2000}' <= c <= '\U{200A}')
    || c == '\U{2028}' || c == '\U{2029}' || c == '\U{202F}'
    || c == '\U{205F}' || c == '\U{3000}'
  }

  predicate IsUpper(c: char) {
    'A' <= c <= 'Z'
  }

  predicate IsDigit(c: char) {
    '0' <= c <= '9'
  }

  /** Lower-cases one character (ASCII letters only). */
  function LowerChar(c: char): (r: char)
    ensures !IsUpper(r)
    ensures !IsUpper(c) ==> r == c
    ensures IsUpper(c) ==> 'a' <= r <= 'z' && r as int - c as int == 32
    ensures IsSpace(r) <==> IsSpace(c)
  {
    if IsUpper(c) then (c as int + 32) as char else c
  }

  // ---------------------------------------------------------------------------
  // Lower-casing and stripping
  // ---------------------------------------------------------------------------

  predicate IsLower(s: string) {
    forall i :: 0 <= i < |s| ==> !IsUpper(s[i])
  }

  /** Every character before position `a` is whitespace. */
  predicate SpaceBefore(s: string, a: nat) {
    forall k :: 0 <= k < a && k < |s| ==> IsSpace(s[k])
  }

  /** Every character from position `b` on is whitespace. */
  predicate SpaceFrom(s: string, b: nat) {
    forall k :: b <= k < |s| ==> IsSpace(s[k])
  }

  /** Neither the first nor the last character is whitespace. */
  predicate Trimmed(s: string) {
    |s| == 0 || (!IsSpace(s[0]) && !IsSpace(s[|s| - 1]))
  }

  /** `r` is `s` with a whitespace-only prefix and a whitespace-only suffix
      removed, and `r` itself neither starts nor ends with whitespace. */
  predicate IsStripOf(r: string, s: string) {
    && Trimmed(r)
    && exists a, b :: 0 <= a <= b <= |s| && r == s[a..b] && SpaceBefore(s, a) && SpaceFrom(s, b)
  }

  /** Python's `str.lower()`. */
  function Lower(s: string): (r: string)
    ensures |r| == |s| && IsLower(r)
    ensures forall i :: 0 <= i < |s| ==> r[i] == LowerChar(s[i])
    ensures IsLower(s) ==> r == s
  {
    seq(|s|, i requires 0 <= i < |s| => LowerChar(s[i]))
  }

  /** Scans forward from `i` over whitespace: the first position at or
      after `i` that holds a non-space, or `|s|`. */
  function SkipLeading(s: string, i: nat): (a: nat)
    requires i <= |s|
    ensures i <= a <= |s|
    ensures forall k :: i <= k < a ==> IsSpace(s[k])
    ensures a < |s| ==> !IsSpace(s[a])
    decreases |s| - i
  {
    if i < |s| && IsSpace(s[i]) then SkipLeading(s, i + 1) else i
  }

  /** Scans backward from `b` over whitespace, not below `a`: the position
      just after the last non-space in `s[a..b]`, or `a`. */
  function SkipTrailing(s: string, a: nat, b: nat): (e: nat)
    requires a <= b <= |s|
    ensures a <= e <= b
    ensures forall k :: e <= k < b ==> IsSpace(s[k])
    ensures e > a ==> !IsSpace(s[e - 1])
    decreases b
  {
    if b > a && IsSpace(s[b - 1]) then SkipTrailing(s, a, b - 1) else b
  }

  /** Python's `str.strip()` with no argument. */
  function Strip(s: string): (r: string)
    ensures |r| <= |s|
    ensures IsStripOf(r, s)
  {
    var a := SkipLeading(s, 0);
    var b := SkipTrailing(s, a, |s|);
    assert b > a ==> s[a..b][0] == s[a] && s[a..b][b - a - 1] == s[b - 1];
    s[a..b]
  }

  /** The clean-up every text cell receives: `.str.lower().str.strip()`. */
  function CleanText(s: string): (r: string)
    ensures IsLower(r) && Trimmed(r)
    ensures IsStripOf(r, Lower(s))
  {
    Strip(Lower(s))
  }

  /** `Strip(s)` is the only string satisfying `IsStripOf(_, s)`: the
      whitespace-only prefix and suffix a trimmed result leaves are forced. */
  lemma StripCharacterised(r: string, s: string)
    ensures IsStripOf(r, s) <==> r == Strip(s)
  {
    if IsStripOf(r, s) {
      var a, b :| 0 <= a <= b <= |s| && r == s[a..b] && SpaceBefore(s, a) && SpaceFrom(s, b);
      StripBetween(s, a, b);
    }
  }

  /** A trimmed slice with only whitespace around it is what `Strip` returns. */
  lemma StripBetween(s: string, a: nat, b: nat)
    requires a <= b <= |s| && SpaceBefore(s, a) && SpaceFrom(s, b) && Trimmed(s[a..b])
    ensures Strip(s) == s[a..b]
  {
    if a == b {
      SkipLeadingFrom(s, 0, |s|);
      assert SkipTrailing(s, |s|, |s|) == |s|;
    } else {
      assert s[a] == s[a..b][0] && s[b - 1] == s[a..b][b - a - 1];
      SkipLeadingFrom(s, 0, a);
      SkipTrailingFrom(s, a, |s|, b);
    }
  }

  /** The forward scan from `i` stops at the first non-space `a`. */
  lemma {:induction false} SkipLeadingFrom(s: string, i: nat, a: nat)
    requires i <= a <= |s|
    requires forall k :: i <= k < a ==> IsSpace(s[k])
    requires a < |s| ==> !IsSpace(s[a])
    ensures SkipLeading(s, i) == a
    decreases a - i
  {
    if i < a {
      SkipLeadingFrom(s, i + 1, a);
    }
  }

  /** The backward scan from `b` stops just after the last non-space `e`. */
  lemma {:induction false} SkipTrailingFrom(s: string, a: nat, b: nat, e: nat)
    requires a <= e <= b <= |s|
    requires forall k :: e <= k < b ==> IsSpace(s[k])
    requires e > a ==> !IsSpace(s[e - 1])
    ensures SkipTrailing(s, a, b) == e
    decreases b - e
  {
    if e < b {
      SkipTrailingFrom(s, a, b - 1, e);
    }
  }

  /** Stripping a string that is already trimmed changes nothing. */
  lemma StripTrimmed(s: string)
    requires Trimmed(s)
    ensures Strip(s) == s
  {
    StripCharacterised(s, s);
    assert s == s[0..|s|];
  }

  /** Cleaning text twice is the same as cleaning it once. */
  lemma CleanTextIdempotent(s: string)
    ensures CleanText(CleanText(s)) == CleanText(s)
  {
    var c := CleanText(s);
    assert Lower(c) == c;
    StripTrimmed(c);
  }

  // ---------------------------------------------------------------------------
  // Column names: lower(), replace(' ', '_'), replace('(%)', '')
  // ---------------------------------------------------------------------------

  /** A `(%)` marker starts at index `i` of `s`. */
  predicate MarkerAt(s: string, i: int)
    requires 0 <= i
  {
    i + 3 <= |s| && s[i] == '(' && s[i + 1] == '%' && s[i + 2] == ')'
  }

  predicate HasMarker(s: string) {
    exists i :: 0 <= i < |s| && MarkerAt(s, i)
  }

  /** `str.replace(' ', '_')`. */
  function ReplaceSpaces(s: string): (r: string)
    ensures |r| == |s| && ' ' !in r
    ensures forall i :: 0 <= i < |s| && s[i] != ' ' ==> r[i] == s[i]
    ensures forall i :: 0 <= i < |s| && s[i] == ' ' ==> r[i] == '_'
  {
    seq(|s|, i requires 0 <= i < |s| => if s[i] == ' ' then '_' else s[i])
  }

  /** `str.replace('(%)', '')`: one left-to-right pass deleting every
      non-overlapping `(%)`. */
  function RemoveMarkers(s: string): (r: string)
    ensures |r| <= |s|
  {
    if |s| == 0 then []
    else if MarkerAt(s, 0) then RemoveMarkers(s[3..])
    else [s[0]] + RemoveMarkers(s[1..])
  }

  /** The pass only deletes characters, and a string without a marker comes
      back unchanged. */
  lemma {:induction false} RemoveMarkersDeletes(s: string)
    ensures multiset(RemoveMarkers(s)) <= multiset(s)
    ensures !HasMarker(s) ==> RemoveMarkers(s) == s
    decreases |s|
  {
    if |s| == 0 {
    } else if MarkerAt(s, 0) {
      RemoveMarkersDeletes(s[3..]);
      assert s == s[..3] + s[3..];
    } else {
      RemoveMarkersDeletes(s[1..]);
      if HasMarker(s[1..]) {
        var i :| 0 <= i < |s[1..]| && MarkerAt(s[1..], i);
        assert MarkerAt(s, i + 1);
      }
      assert s == [s[0]] + s[1..];
    }
  }

  /** One step of the pass over a string that does not start with a marker. */
  lemma RemoveMarkersKeep(s: string)
    requires |s| > 0 && !MarkerAt(s, 0)
    ensures RemoveMarkers(s) == [s[0]] + RemoveMarkers(s[1..])
  {
  }

  /** One step of the pass over a string that starts with a marker. */
  lemma RemoveMarkersSkip(s: string)
    requires MarkerAt(s, 0)
    ensures RemoveMarkers(s) == RemoveMarkers(s[3..])
  {
  }

  /** The pass copies a prefix in which no marker starts. */
  lemma {:induction false} RemoveMarkersPrefix(a: string, b: string)
    requires forall i :: 0 <= i < |a| ==> !MarkerAt(a + b, i)
    ensures RemoveMarkers(a + b) == a + RemoveMarkers(b)
    decreases |a|
  {
    if |a| > 0 {
      var s := a + b;
      assert !MarkerAt(s, 0);
      RemoveMarkersKeep(s);
      assert s[1..] == a[1..] + b;
      forall i | 0 <= i < |a[1..]| ensures !MarkerAt(a[1..] + b, i) {
        assert !MarkerAt(s, i + 1);
      }
      RemoveMarkersPrefix(a[1..], b);
      assert a == [s[0]] + a[1..];
    } else {
      assert a + b == b;
    }
  }

  /** The single pass: the first marker is deleted, what comes before it is
      kept, and the pass resumes after it. */
  lemma RemoveMarkersFirst(a: string, b: string)
    requires forall i :: 0 <= i < |a| ==> !MarkerAt(a + "(%)" + b, i)
    ensures RemoveMarkers(a + "(%)" + b) == a + RemoveMarkers(b)
  {
    var m := "(%)" + b;
    assert a + "(%)" + b == a + m;
    RemoveMarkersPrefix(a, m);
    RemoveMarkersSkip(m);
    assert m[3..] == b;
  }

  /** Lower-casing and replacing spaces, the character-wise part of the clean-up,
      neither create nor destroy a marker. */
  lemma UnderscoreMarkers(s: string)
    ensures forall i :: 0 <= i ==> (MarkerAt(ReplaceSpaces(Lower(s)), i) <==> MarkerAt(s, i))
  {
    var u := ReplaceSpaces(Lower(s));
    forall k | 0 <= k < |s|
      ensures (u[k] == '(' <==> s[k] == '(') && (u[k] == '%' <==> s[k] == '%') && (u[k] == ')' <==> s[k] == ')')
    {
      if IsUpper(s[k]) {
        assert 'a' <= LowerChar(s[k]) <= 'z';
      }
    }
  }

  /** The character-wise part distributes over concatenation. */
  lemma UnderscoreConcat(a: string, b: string)
    ensures ReplaceSpaces(Lower(a + b)) == ReplaceSpaces(Lower(a)) + ReplaceSpaces(Lower(b))
  {
    var l, r := ReplaceSpaces(Lower(a + b)), ReplaceSpaces(Lower(a)) + ReplaceSpaces(Lower(b));
    forall k | 0 <= k < |l| ensures l[k] == r[k] {
      if k < |a| {
        assert (a + b)[k] == a[k];
      } else {
        assert (a + b)[k] == b[k - |a|];
      }
    }
  }

  /** The column-name clean-up of the transform stage. Without a marker it
      works character by character: upper case lowered, a space turned into
      an underscore. */
  function NormalizeName(s: string): (r: string)
    ensures |r| <= |s|
    ensures ' ' !in r && IsLower(r)
    ensures (' ' !in s && IsLower(s) && !HasMarker(s)) ==> r == s
    ensures !HasMarker(s) ==>
      && |r| == |s|
      && forall i :: 0 <= i < |s| ==> r[i] == (if s[i] == ' ' then '_' else LowerChar(s[i]))
  {
    CleanupLowerNoSpaces(s);
    CleanupWithoutMarker(s);
    RemoveMarkers(ReplaceSpaces(Lower(s)))
  }

  /** Deleting markers keeps the lower case and the absence of spaces that
      the character-wise part produced. */
  lemma CleanupLowerNoSpaces(s: string)
    ensures var r := RemoveMarkers(ReplaceSpaces(Lower(s)));
      |r| <= |s| && ' ' !in r && IsLower(r)
  {
    var under := ReplaceSpaces(Lower(s));
    var r := RemoveMarkers(under);
    RemoveMarkersDeletes(under);
    forall i | 0 <= i < |r| ensures r[i] in under {
      assert r[i] in multiset(r);
    }
  }

  /** Without a marker the clean-up is the character-wise part alone. */
  lemma CleanupWithoutMarker(s: string)
    ensures !HasMarker(s) ==> RemoveMarkers(ReplaceSpaces(Lower(s))) == ReplaceSpaces(Lower(s))
    ensures ' ' !in s && IsLower(s) ==> ReplaceSpaces(Lower(s)) == s
    ensures forall i :: 0 <= i < |s| ==> (Lower(s)[i] == ' ' <==> s[i] == ' ')
  {
    UnderscoreMarkers(s);
    RemoveMarkersDeletes(ReplaceSpaces(Lower(s)));
    if ' ' !in s && IsLower(s) {
      assert forall i :: 0 <= i < |s| ==> s[i] != ' ';
    }
  }

  /** Around its first marker the clean-up splits: the part before is
      cleaned character by character, the marker is deleted and the rest is
      cleaned on its own. With the marker-free case of `NormalizeName` this
      determines the clean-up of every name. */
  lemma NormalizeNameFirstMarker(a: string, b: string)
    requires forall i :: 0 <= i < |a| ==> !MarkerAt(a + "(%)" + b, i)
    ensures NormalizeName(a + "(%)" + b) == NormalizeName(a) + NormalizeName(b)
  {
    var s := a + "(%)" + b;
    var m := "(%)";
    UnderscoreConcat(a, m);
    UnderscoreConcat(a + m, b);
    assert ReplaceSpaces(Lower(m)) == m;
    var ua, ub := ReplaceSpaces(Lower(a)), ReplaceSpaces(Lower(b));
    assert ReplaceSpaces(Lower(s)) == ua + m + ub;
    UnderscoreMarkers(s);
    UnderscoreMarkers(a);
    forall i | 0 <= i < |ua| ensures !MarkerAt(ua + m + ub, i) {
      assert !MarkerAt(s, i);
    }
    RemoveMarkersFirst(ua, ub);
    forall i | 0 <= i < |a| ensures !MarkerAt(a, i) {
      assert !MarkerAt(s, i);
      if i + 3 <= |a| {
        assert s[i] == a[i] && s[i + 1] == a[i + 1] && s[i + 2] == a[i + 2];
      }
    }
    RemoveMarkersDeletes(ua);
  }

  /** A name already free of spaces and upper case only loses its markers. */
  lemma NormalizeNameOfClean(s: string)
    requires ' ' !in s && IsLower(s)
    ensures NormalizeName(s) == RemoveMarkers(s)
  {
    assert Lower(s) == s;
    assert forall i :: 0 <= i < |s| ==> s[i] != ' ';
    assert ReplaceSpaces(s) == s;
  }

  /** Deleting the inner marker of `((%)%)` leaves a new marker behind. */
  lemma RemoveMarkersNested()
    ensures RemoveMarkers("((%)%)") == "(%)"
  {
    var s := "((%)%)";
    var t := s[1..];
    var u := t[3..];
    var v := u[1..];
    assert t == "(%)%)" && u == "%)" && v == ")";
    assert |v[1..]| == 0;
    RemoveMarkersKeep(v);
    RemoveMarkersKeep(u);
    RemoveMarkersSkip(t);
    RemoveMarkersKeep(s);
  }

  /** The clean-up is not idempotent: a marker nested in a marker survives one pass. */
  lemma NormalizeNameNotIdempotent()
    ensures NormalizeName("((%)%)") == "(%)"
    ensures NormalizeName("(%)") == ""
  {
    var s := "((%)%)";
    assert forall i :: 0 <= i < |s| ==> !IsUpper(s[i]) && s[i] != ' ';
    NormalizeNameOfClean(s);
    RemoveMarkersNested();
    var m := "(%)";
    assert forall i :: 0 <= i < |m| ==> !IsUpper(m[i]) && m[i] != ' ';
    NormalizeNameOfClean(m);
    RemoveMarkersSkip(m);
    assert |m[3..]| == 0;
  }

  // ---------------------------------------------------------------------------
  // Numbers: int(...) and float(...) of a text value
  // ---------------------------------------------------------------------------

  predicate AllDigits(s: string) {
    forall i :: 0 <= i < |s| ==> IsDigit(s[i])
  }

  function DigitValue(c: char): (r: nat)
    requires IsDigit(c)
    ensures r < 10
  {
    c as int - '0' as int
  }

  function DigitChar(d: nat): (r: char)
    requires d < 10
    ensures IsDigit(r) && DigitValue(r) == d
  {
    ('0' as int + d) as char
  }

  /** The value of a string of decimal digits, most significant first. */
  function DigitsValue(s: string): nat
    requires AllDigits(s)
  {
    if |s| == 0 then 0 else 10 * DigitsValue(s[..|s| - 1]) + DigitValue(s[|s| - 1])
  }

  /** The shortest decimal spelling of a natural number. */
  function NatToDigits(n: nat): (r: string)
    ensures |r| > 0 && AllDigits(r)
    ensures |r| > 1 ==> r[0] != '0'
  {
    if n < 10 then [DigitChar(n)] else NatToDigits(n / 10) + [DigitChar(n % 10)]
  }

  function IntToString(n: int): string {
    if n < 0 then "-" + NatToDigits(-n) else NatToDigits(n)
  }

  /** The sign prefix of a numeric literal, if any. */
  function SignOf(s: string): (r: int)
    ensures r == 1 || r == -1
  {
    if |s| > 0 && s[0] == '-' then -1 else 1
  }

  function Unsigned(s: string): (r: string)
    ensures |r| <= |s|
  {
    if |s| > 0 && (s[0] == '-' || s[0] == '+') then s[1..] else s
  }

  /** Python's `int(s)` for an optionally signed run of ASCII digits;
      anything else is a conversion failure. */
  function ParseInt(s: string): (r: Option<int>)
    ensures r.Some? <==> |Unsigned(s)| > 0 && AllDigits(Unsigned(s))
    ensures r.Some? && SignOf(s) == 1 ==> r.value >= 0
    ensures r.Some? && SignOf(s) == -1 ==> r.value <= 0
  {
    var u := Unsigned(s);
    if |u| > 0 && AllDigits(u) then Some(SignOf(s) * DigitsValue(u)) else None
  }

  lemma {:induction false} DigitsRoundTrip(n: nat)
    ensures DigitsValue(NatToDigits(n)) == n
  {
    if n >= 10 {
      DigitsRoundTrip(n / 10);
      var d := NatToDigits(n);
      assert d[..|d| - 1] == NatToDigits(n / 10);
    }
  }

  /** Printing an integer and parsing it back gives the same integer. */
  lemma ParseIntRoundTrip(n: int)
    ensures ParseInt(IntToString(n)) == Some(n)
  {
    var s := IntToString(n);
    if n < 0 {
      var d := NatToDigits(-n);
      DigitsRoundTrip(-n);
      assert s == "-" + d && s[0] == '-' && s[1..] == d;
      assert Unsigned(s) == d && SignOf(s) == -1;
      assert ParseInt(s) == Some(-1 * DigitsValue(d));
    } else {
      var d := NatToDigits(n);
      DigitsRoundTrip(n);
      assert s == d && IsDigit(s[0]);
      assert Unsigned(s) == d && SignOf(s) == 1;
      assert ParseInt(s) == Some(DigitsValue(d));
    }
  }

  function Pow10(k: nat): (r: nat)
    ensures r >= 1
  {
    if k == 0 then 1 else 10 * Pow10(k - 1)
  }

  /** The positional reading of a digit string: the leading digit weighs ten
      to the number of digits after it. */
  function LeftDigitsValue(s: string): nat
    requires AllDigits(s)
  {
    if |s| == 0 then 0 else DigitValue(s[0]) * Pow10(|s| - 1) + LeftDigitsValue(s[1..])
  }

  /** Reading the digits right to left, as `DigitsValue` does, agrees with
      the positional reading. */
  lemma {:induction false} DigitsValueFromLeft(s: string)
    requires AllDigits(s)
    ensures DigitsValue(s) == LeftDigitsValue(s)
    decreases |s|
  {
    var n := |s|;
    if n == 1 {
      assert s[..0] == [] && s[1..] == [];
    } else if n > 1 {
      var init, tail, mid := s[..n - 1], s[1..], s[1..n - 1];
      assert AllDigits(init) && AllDigits(tail) && AllDigits(mid);
      DigitsValueFromLeft(init);
      DigitsValueFromLeft(tail);
      DigitsValueFromLeft(mid);
      assert init[0] == s[0] && init[1..] == mid;
      assert tail[..|tail| - 1] == mid && tail[|tail| - 1] == s[n - 1];
      var d0, dl, p, m := DigitValue(s[0]), DigitValue(s[n - 1]), Pow10(n - 2), DigitsValue(mid);
      assert Pow10(n - 1) == 10 * p;
      assert DigitsValue(init) == d0 * p + m;
      assert DigitsValue(tail) == 10 * m + dl;
      assert DigitsValue(s) == 10 * DigitsValue(init) + dl;
      assert LeftDigitsValue(s) == d0 * Pow10(n - 1) + DigitsValue(tail);
      ShiftDigit(d0, p, m, dl);
    }
  }

  lemma ShiftDigit(d0: int, p: int, m: int, dl: int)
    ensures 10 * (d0 * p + m) + dl == d0 * (10 * p) + (10 * m + dl)
  {
  }

  /** The value `int` gives a literal: its sign times the positional value
      of its digits. */
  lemma ParseIntValue(s: string)
    requires ParseInt(s).Some?
    ensures ParseInt(s).value == SignOf(s) * LeftDigitsValue(Unsigned(s))
  {
    DigitsValueFromLeft(Unsigned(s));
  }

  /** Zeros in front of a digit string add nothing to its value. */
  lemma {:induction false} LeadingZerosValue(zeros: string, u: string)
    requires forall i :: 0 <= i < |zeros| ==> zeros[i] == '0'
    requires AllDigits(u)
    ensures AllDigits(zeros + u) && LeftDigitsValue(zeros + u) == LeftDigitsValue(u)
    decreases |zeros|
  {
    if |zeros| > 0 {
      LeadingZerosValue(zeros[1..], u);
      var w := zeros + u;
      assert w[0] == '0' && w[1..] == zeros[1..] + u;
      assert AllDigits(w);
      assert LeftDigitsValue(w) == DigitValue('0') * Pow10(|w| - 1) + LeftDigitsValue(w[1..]);
    } else {
      assert zeros + u == u;
    }
  }

  /** `int` ignores leading zeros, after an optional sign: `int("007") == 7`. */
  lemma ParseIntLeadingZeros(sign: string, zeros: string, u: string)
    requires sign == "" || sign == "+" || sign == "-"
    requires forall i :: 0 <= i < |zeros| ==> zeros[i] == '0'
    requires |u| > 0 && AllDigits(u)
    ensures ParseInt(sign + zeros + u) == ParseInt(sign + u)
  {
    LeadingZerosValue(zeros, u);
    var a, b := sign + zeros + u, sign + u;
    assert Unsigned(a) == zeros + u by {
      assert a == sign + (zeros + u);
      if sign == "" { assert a == zeros + u && (|a| > 0 ==> IsDigit(a[0])); }
    }
    assert Unsigned(b) == u by {
      if sign == "" { assert IsDigit(b[0]); }
    }
    assert SignOf(a) == SignOf(b);
    DigitsValueFromLeft(zeros + u);
    DigitsValueFromLeft(u);
  }

  /** A leading `+` changes nothing: `int("+5") == int("5")`. */
  lemma ParseIntPlus(u: string)
    requires AllDigits(u)
    ensures ParseInt("+" + u) == ParseInt(u)
  {
    assert ("+" + u)[1..] == u;
    if |u| > 0 {
      assert IsDigit(u[0]);
    }
  }

  /** A leading `-` negates: `int("-0") == 0`. */
  lemma ParseIntMinus(u: string)
    requires |u| > 0 && AllDigits(u)
    ensures ParseInt("-" + u) == Some(-ParseInt(u).value)
  {
    assert ("-" + u)[1..] == u;
    assert IsDigit(u[0]);
  }

  /** `int` on three literals that are not in the shortest spelling. */
  lemma ParseIntExamples()
    ensures ParseInt("007") == Some(7)
    ensures ParseInt("+5") == Some(5)
    ensures ParseInt("-0") == Some(0)
  {
    ParseIntLeadingZeros("", "00", "7");
    assert "" + "00" + "7" == "007" && "" + "7" == "7";
    ParseIntRoundTrip(7);
    ParseIntPlus("5");
    assert "+" + "5" == "+5";
    ParseIntRoundTrip(5);
    ParseIntMinus("0");
    assert "-" + "0" == "-0";
    ParseIntRoundTrip(0);
  }

  /** Index of the first `c` in `s`, or `|s|` when there is none. */
  function IndexOfChar(s: string, c: char): (r: nat)
    ensures r <= |s|
    ensures r < |s| ==> s[r] == c
    ensures c !in s[..r]
  {
    if |s| == 0 then 0
    else if s[0] == c then 0
    else
      assert s[..1 + IndexOfChar(s[1..], c)] == [s[0]] + s[1..][..IndexOfChar(s[1..], c)];
      1 + IndexOfChar(s[1..], c)
  }

  lemma {:induction false} IndexOfAbsent(s: string, c: char)
    requires forall i :: 0 <= i < |s| ==> s[i] != c
    ensures IndexOfChar(s, c) == |s|
  {
    if |s| > 0 {
      IndexOfAbsent(s[1..], c);
    }
  }

  /** Python's `float(s)` for an optionally signed decimal `digits[.digits]`
      with at least one digit; exponents, `inf` and `nan` are not modelled. */
  function ParseDecimal(s: string): (r: Option<real>)
    ensures r.Some? && SignOf(s) == 1 ==> r.value >= 0.0
    ensures r.Some? && SignOf(s) == -1 ==> r.value <= 0.0
  {
    var u := Unsigned(s);
    var k := IndexOfChar(u, '.');
    var whole := u[..k];
    var frac := if k < |u| then u[k + 1..] else "";
    if |whole| + |frac| > 0 && AllDigits(whole) && AllDigits(frac) then
      var magnitude := DigitsValue(whole) as real + DigitsValue(frac) as real / Pow10(|frac|) as real;
      Some(SignOf(s) as real * magnitude)
    else None
  }

  /** Every literal `int(...)` accepts, `float(...)` accepts with the same value. */
  lemma ParseDecimalExtendsParseInt(s: string)
    requires ParseInt(s).Some?
    ensures ParseDecimal(s) == Some(ParseInt(s).value as real)
  {
    var u := Unsigned(s);
    assert forall i :: 0 <= i < |u| ==> u[i] != '.';
    IndexOfAbsent(u, '.');
    assert u[..|u|] == u;
  }

  /** The search stops at the first occurrence. */
  lemma IndexOfFirst(s: string, c: char, k: nat)
    requires k < |s| && s[k] == c
    requires forall i :: 0 <= i < k ==> s[i] != c
    ensures IndexOfChar(s, c) == k
  {
  }

  /** A concrete reading: the engagement value `"55.5"` parses to 55.5. */
  lemma ParseDecimalExample()
    ensures ParseDecimal("55.5") == Some(55.5)
  {
    var u := "55.5";
    assert Unsigned(u) == u;
    IndexOfFirst(u, '.', 2);
    assert u[..2] == "55" && u[3..] == "5";
    assert DigitsValue("55") == 55 by { assert "55"[..1] == "5"; assert "5"[..0] == ""; }
    assert DigitsValue("5") == 5 by { assert "5"[..0] == ""; }
  }

  /** A non-numeric value does not parse. */
  lemma ParseDecimalRejects()
    ensures ParseDecimal("unknown") == None
  {
    var w := "unknown";
    assert Unsigned(w) == w;
    assert forall i :: 0 <= i < |w| ==> w[i] != '.';
    IndexOfAbsent(w, '.');
    assert w[..|w|] == w && !IsDigit(w[0]);
  }

  /** A whole number truncates to itself. */
  lemma TruncateWhole(n: int)
    ensures Truncate(n as real) == n
  {
  }

  /** `astype(int)` of a float: truncation toward zero. */
  function Truncate(v: real): (r: int)
    ensures v >= 0.0 ==> 0.0 <= r as real <= v < r as real + 1.0
    ensures v < 0.0 ==> r as real - 1.0 < v <= r as real <= 0.0
  {
    if v >= 0.0 then v.Floor else -((-v).Floor)
  }
}
