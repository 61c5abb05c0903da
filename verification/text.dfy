/** Character and string rules the modelled code relies on: whitespace
    stripping, lower-casing, code-point string order, decimal rendering and
    parsing of integers, and substring search. */
module Text {
  import opened Values

  // ---------------------------------------------------------------------
  // Whitespace and stripping

  /** Whitespace as the host language's unicode `strip()` removes it. */
  predicate IsSpace(c: char) {
    || c == ' '
    || ('\t' <= c <= '\r')
    || ('\U{1C}' <= c <= '\U{1F}')
    || c == '\U{85}'
    || c == '\U{A0}'
    || c == '\U{1680}'
    || c == '\U{180E}'
    || ('\U{2000}' <= c <= '\U{200A}')
    || c == '\U{2028}'
    || c == '\U{2029}'
    || c == '\U{202F}'
    || c == '\U{205F}'
    || c == '\U{3000}'
  }

  predicate AllSpaces(s: string) {
    forall i :: 0 <= i < |s| ==> IsSpace(s[i])
  }

  /** `s` without its leading whitespace: a suffix of `s`, and only
      whitespace was dropped. */
  function StripLeft(s: string): (r: string)
    ensures |r| <= |s| && r == s[|s| - |r|..]
    ensures AllSpaces(s[..|s| - |r|])
    ensures |r| > 0 ==> !IsSpace(r[0])
  {
    if |s| > 0 && IsSpace(s[0]) then
      var r := StripLeft(s[1..]);
      assert s[1..][..|s[1..]| - |r|] == s[1..|s| - |r|];
      r
    else
      s
  }

  /** `s` without its trailing whitespace: a prefix of `s`, and only
      whitespace was dropped. */
  function StripRight(s: string): (r: string)
    ensures |r| <= |s| && r == s[..|r|]
    ensures AllSpaces(s[|r|..])
    ensures |r| > 0 ==> !IsSpace(r[|r| - 1])
  {
    if |s| > 0 && IsSpace(s[|s| - 1]) then
      var r := StripRight(s[..|s| - 1]);
      assert s[..|s| - 1][|r|..] == s[|r|..|s| - 1];
      r
    else
      s
  }

  /** `r` sits in `s` from position `k` on, with only whitespace before
      and after it. */
  predicate SpacedSlice(s: string, k: int, r: string) {
    && 0 <= k && k + |r| <= |s| && r == s[k..k + |r|]
    && AllSpaces(s[..k]) && AllSpaces(s[k + |r|..])
  }

  /** Leading and trailing whitespace removed. */
  function Strip(s: string): (r: string)
    ensures |r| <= |s|
    ensures |r| > 0 ==> !IsSpace(r[0]) && !IsSpace(r[|r| - 1])
  {
    var l := StripLeft(s);
    var r := StripRight(l);
    assert |r| > 0 ==> r[0] == l[0];
    r
  }

  /** What `Strip` keeps is the slice of `s` between its leading and its
      trailing whitespace. */
  lemma StripSlice(s: string)
    ensures SpacedSlice(s, |s| - |StripLeft(s)|, Strip(s))
  {
    SliceOfSuffix(s, StripLeft(s), Strip(s));
  }

  /** A prefix of a suffix, each cut off by whitespace only, is a slice
      cut off by whitespace only. */
  lemma SliceOfSuffix(s: string, l: string, r: string)
    requires |l| <= |s| && l == s[|s| - |l|..] && AllSpaces(s[..|s| - |l|])
    requires |r| <= |l| && r == l[..|r|] && AllSpaces(l[|r|..])
    ensures SpacedSlice(s, |s| - |l|, r)
  {
    var k := |s| - |l|;
    assert s[k..k + |r|] == l[..|r|];
    assert s[k + |r|..] == l[|r|..];
  }

  /** A string is stripped to nothing exactly when it is all whitespace. */
  lemma StripEmptyIffAllSpaces(s: string)
    ensures |Strip(s)| == 0 <==> AllSpaces(s)
  {
    var l := StripLeft(s);
    if |l| > 0 {
      assert l[0] == s[|s| - |l|];
      assert l[0..] == l;
    }
  }

  /** Stripping a string that has no whitespace at either end changes nothing. */
  lemma StripUnchanged(s: string)
    requires |s| > 0 ==> !IsSpace(s[0]) && !IsSpace(s[|s| - 1])
    ensures Strip(s) == s
  {
  }

  /** Stripping twice is stripping once. */
  lemma StripIdempotent(s: string)
    ensures Strip(Strip(s)) == Strip(s)
  {
    StripUnchanged(Strip(s));
  }

  // ---------------------------------------------------------------------
  // Lower-casing

  /** Lower-case mapping for ASCII and Latin-1 letters; every other
      character is its own lower case in this model. */
  function LowerChar(c: char): char {
    if 'A' <= c <= 'Z' || ('\U{C0}' <= c <= '\U{DE}' && c != '\U{D7}') then
      (c as int + 32) as char
    else
      c
  }

  function Lower(s: string): (r: string)
    ensures |r| == |s|
    ensures forall i :: 0 <= i < |s| ==> r[i] == LowerChar(s[i])
  {
    if |s| == 0 then [] else [LowerChar(s[0])] + Lower(s[1..])
  }

  lemma LowerCharKeepsSpaces(c: char)
    ensures IsSpace(LowerChar(c)) <==> IsSpace(c)
  {
  }

  // ---------------------------------------------------------------------
  // Code-point order on strings

  /** `a` sorts strictly before `b`: at the first difference `a` has the
      smaller character, or `a` is a proper prefix of `b`. */
  predicate Less(a: string, b: string)
    decreases |a|
  {
    if |a| == 0 then |b| > 0
    else if |b| == 0 then false
    else if a[0] != b[0] then a[0] < b[0]
    else Less(a[1..], b[1..])
  }

  lemma {:induction false} LessIrreflexive(a: string)
    ensures !Less(a, a)
    decreases |a|
  {
    if |a| > 0 {
      LessIrreflexive(a[1..]);
    }
  }

  lemma {:induction false} LessTransitive(a: string, b: string, c: string)
    requires Less(a, b) && Less(b, c)
    ensures Less(a, c)
    decreases |a|
  {
    if |a| > 0 && |b| > 0 && |c| > 0 && a[0] == b[0] && b[0] == c[0] {
      LessTransitive(a[1..], b[1..], c[1..]);
    }
  }

  lemma {:induction false} LessTotal(a: string, b: string)
    requires a != b
    ensures Less(a, b) || Less(b, a)
    decreases |a|
  {
    if |a| > 0 && |b| > 0 && a[0] == b[0] {
      assert a == [a[0]] + a[1..] && b == [b[0]] + b[1..];
      LessTotal(a[1..], b[1..]);
    }
  }

  lemma LessAsymmetric(a: string, b: string)
    requires Less(a, b)
    ensures !Less(b, a)
  {
    if Less(b, a) {
      LessTransitive(a, b, a);
      LessIrreflexive(a);
    }
  }

  /** `a` sorts no later than `b`. */
  predicate LessEq(a: string, b: string) {
    a == b || Less(a, b)
  }

  /** Not sorting before is sorting no earlier: the order is total. */
  lemma NotLessIsLessEq(a: string, b: string)
    ensures !Less(a, b) <==> LessEq(b, a)
  {
    if a != b {
      LessTotal(a, b);
    }
    if Less(b, a) {
      LessAsymmetric(b, a);
    }
    LessIrreflexive(a);
  }

  lemma LessEqTransitive(a: string, b: string, c: string)
    requires LessEq(a, b) && LessEq(b, c)
    ensures LessEq(a, c)
  {
    if a != b && b != c {
      LessTransitive(a, b, c);
    }
  }

  // ---------------------------------------------------------------------
  // Decimal rendering and parsing of integers

  predicate IsDigit(c: char) {
    '0' <= c <= '9'
  }

  predicate IsDigits(s: string) {
    |s| > 0 && forall i :: 0 <= i < |s| ==> IsDigit(s[i])
  }

  function DigitChar(d: int): (c: char)
    requires 0 <= d < 10
    ensures IsDigit(c)
  {
    ('0' as int + d) as char
  }

  function DigitValue(c: char): (d: int)
    requires IsDigit(c)
    ensures 0 <= d < 10
  {
    c as int - '0' as int
  }

  /** Decimal digits of a natural number, no leading zero. */
  function NatToString(n: nat): (s: string)
    ensures IsDigits(s)
    decreases n
  {
    if n < 10 then [DigitChar(n)] else NatToString(n / 10) + [DigitChar(n % 10)]
  }

  /** `str(i)` / `'%s' % i` of an integer. */
  function IntToString(i: int): (s: string)
    ensures |s| > 0
    ensures forall k :: 0 <= k < |s| ==> IsDigit(s[k]) || s[k] == '-'
  {
    if i < 0 then "-" + NatToString(-i) else NatToString(i)
  }

  /** Value of a run of decimal digits. */
  function DigitsValue(s: string): nat
    requires forall i :: 0 <= i < |s| ==> IsDigit(s[i])
  {
    if |s| == 0 then 0 else DigitsValue(s[..|s| - 1]) * 10 + DigitValue(s[|s| - 1])
  }

  lemma {:induction false} NatToStringValue(n: nat)
    ensures DigitsValue(NatToString(n)) == n
    decreases n
  {
    if n >= 10 {
      var p := NatToString(n / 10);
      var s := p + [DigitChar(n % 10)];
      assert s[..|s| - 1] == p;
      NatToStringValue(n / 10);
    }
  }

  /** `int(s)` of a text value: surrounding whitespace, an optional sign,
      optional whitespace after the sign, then at least one decimal digit;
      anything else is rejected. */
  function ParseInt(s: string): Option<int> {
    ParseStripped(Strip(s))
  }

  /** `int` of a text with no whitespace at either end. */
  function ParseStripped(t: string): Option<int> {
    if |t| > 0 && (t[0] == '-' || t[0] == '+') then
      var u := SkipSpaces(t[1..]);
      if IsDigits(u) then
        var v: int := DigitsValue(u);
        Some(if t[0] == '-' then -v else v)
      else
        None
    else if IsDigits(t) then
      assert t[0..] == t;
      Some(DigitsValue(t))
    else
      None
  }

  /** What `int` skips between the sign and the digits: the conversion
      first turns every unicode whitespace character into a space and then
      skips spaces after the sign, so the set is the one `strip()` uses. */
  function SkipSpaces(u: string): string {
    if |u| > 0 && IsSpace(u[0]) then SkipSpaces(u[1..]) else u
  }

  /** Leading whitespace in front of a text that starts with something
      else is exactly what `SkipSpaces` drops. */
  lemma {:induction false} SkipSpacesBefore(w: string, d: string)
    requires AllSpaces(w) && (|d| > 0 ==> !IsSpace(d[0]))
    ensures SkipSpaces(w + d) == d
    decreases |w|
  {
    if |w| > 0 {
      assert (w + d)[1..] == w[1..] + d;
      SkipSpacesBefore(w[1..], d);
    } else {
      assert w + d == d;
    }
  }

  /** A stripped text that is a sign, then whitespace, then digits. */
  lemma ParseSigned(s: string, d: string)
    requires |s| > 0 && (s[0] == '-' || s[0] == '+')
    requires SkipSpaces(s[1..]) == d && IsDigits(d)
    ensures ParseStripped(s) == Some(if s[0] == '-' then -(DigitsValue(d) as int) else DigitsValue(d))
  {
  }

  /** A stripped text of digits alone. */
  lemma ParseUnsigned(s: string)
    requires IsDigits(s)
    ensures ParseStripped(s) == Some(DigitsValue(s))
  {
  }

  /** Whitespace between the sign and the digits is skipped. */
  lemma ParseIntSpaceAfterSign(w: string, n: nat)
    requires AllSpaces(w)
    ensures ParseInt("-" + w + NatToString(n)) == Some(-(n as int))
    ensures ParseInt("+" + w + NatToString(n)) == Some(n)
  {
    SignSpaceDigits('-', w, n);
    SignSpaceDigits('+', w, n);
    assert "-" == ['-'] && "+" == ['+'];
  }

  lemma SignSpaceDigits(sign: char, w: string, n: nat)
    requires sign == '-' || sign == '+'
    requires AllSpaces(w)
    ensures ParseInt([sign] + w + NatToString(n)) == Some(if sign == '-' then -(n as int) else n)
  {
    var d := NatToString(n);
    var s := [sign] + w + d;
    assert s[|s| - 1] == d[|d| - 1];
    ParseUnstripped(s);
    SignSpaceDigitsStripped(sign, w, n);
  }

  lemma SignSpaceDigitsStripped(sign: char, w: string, n: nat)
    requires sign == '-' || sign == '+'
    requires AllSpaces(w)
    ensures ParseStripped([sign] + w + NatToString(n)) == Some(if sign == '-' then -(n as int) else n)
  {
    var d := NatToString(n);
    var s := [sign] + w + d;
    assert s == [sign] + (w + d);
    assert s[1..] == w + d;
    SkipSpacesBefore(w, d);
    NatToStringValue(n);
    ParseSigned(s, d);
  }

  /** Rendering an integer and parsing it back gives the integer. */
  lemma IntToStringRoundTrip(i: int)
    ensures ParseInt(IntToString(i)) == Some(i)
  {
    if i < 0 {
      NegativeIntRoundTrip(i);
    } else {
      NatRoundTrip(i);
    }
  }

  lemma NegativeIntRoundTrip(i: int)
    requires i < 0
    ensures ParseInt(IntToString(i)) == Some(i)
  {
    var n := -i;
    assert IntToString(i) == "-" + NatToString(n);
    NegativeRoundTrip(n);
  }

  lemma NatRoundTrip(n: nat)
    ensures ParseInt(NatToString(n)) == Some(n)
  {
    var s := NatToString(n);
    assert !IsSpace(s[0]) && !IsSpace(s[|s| - 1]);
    ParseUnstripped(s);
    NatToStringValue(n);
    ParseUnsigned(s);
  }

  lemma NegativeRoundTrip(n: nat)
    requires n > 0
    ensures ParseInt("-" + NatToString(n)) == Some(-(n as int))
  {
    var s := "-" + NatToString(n);
    assert !IsSpace(s[0]) && !IsSpace(s[|s| - 1]);
    ParseUnstripped(s);
    NegativeParses(n);
  }

  /** A text with no whitespace at either end parses as it stands. */
  lemma ParseUnstripped(s: string)
    requires |s| > 0 ==> !IsSpace(s[0]) && !IsSpace(s[|s| - 1])
    ensures ParseInt(s) == ParseStripped(s)
  {
    StripUnchanged(s);
  }

  lemma NegativeParses(n: nat)
    requires n > 0
    ensures ParseStripped("-" + NatToString(n)) == Some(-(n as int))
  {
    var d := NatToString(n);
    var s := "-" + d;
    assert s[1..] == d;
    SkipSpacesBefore("", d);
    assert "" + d == d;
    NatToStringValue(n);
    ParseSigned(s, d);
  }

  /** Distinct integers render to distinct strings. */
  lemma IntToStringInjective(i: int, j: int)
    requires IntToString(i) == IntToString(j)
    ensures i == j
  {
    IntToStringRoundTrip(i);
    IntToStringRoundTrip(j);
  }

  // ---------------------------------------------------------------------
  // Substring search

  predicate OccursAt(hay: string, needle: string, i: int) {
    0 <= i && i + |needle| <= |hay| && hay[i..i + |needle|] == needle
  }

  /** First position at or after `from` where `needle` occurs in `hay`. */
  function IndexFrom(hay: string, needle: string, from: nat): (r: Option<nat>)
    ensures r.Some? ==> from <= r.value && OccursAt(hay, needle, r.value)
    ensures r.Some? ==> forall i :: from <= i < r.value ==> !OccursAt(hay, needle, i)
    ensures r.None? ==> forall i :: from <= i ==> !OccursAt(hay, needle, i)
    decreases |hay| - from
  {
    if from + |needle| > |hay| then None
    else if hay[from..from + |needle|] == needle then Some(from)
    else IndexFrom(hay, needle, from + 1)
  }

  /** `hay.find(needle)`: the first position where `needle` occurs. */
  function IndexOf(hay: string, needle: string): (r: Option<nat>)
    ensures r.Some? ==> OccursAt(hay, needle, r.value)
    ensures r.Some? ==> forall i :: 0 <= i < r.value ==> !OccursAt(hay, needle, i)
    ensures r.None? ==> forall i :: !OccursAt(hay, needle, i)
  {
    IndexFrom(hay, needle, 0)
  }
}
