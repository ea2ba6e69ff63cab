/**
 * The few functions of Go's standard library that the extraction and search
 * code calls: strings.TrimSpace, strconv.ParseInt(s, 10, 64) and
 * strings.EqualFold, together with the decimal rendering that is the inverse
 * of ParseInt.  Strings are sequences of Unicode code points.
 */
module GoLibrary {
  import opened Wrappers

  const MaxInt64: int := 0x7FFF_FFFF_FFFF_FFFF
  const MinInt64: int := -0x8000_0000_0000_0000
  const MaxUint64: int := 0xFFFF_FFFF_FFFF_FFFF

  // ---------------------------------------------------------------------
  // strings.TrimSpace
  // ---------------------------------------------------------------------

  /** unicode.IsSpace: the ASCII blanks, NEL, NBSP and the Unicode space separators. */
  predicate IsSpace(c: char) {
    c == ' ' || c == '\t' || c == '\n' || c == '\U{B}' || c == '\U{C}' || c == '\r'
    || c == '\U{85}' || c == '\U{A0}' || c == '\U{1680}'
    || ('\U{2000}' <= c <= '\U{200A}')
    || c == '\U{2028}' || c == '\U{2029}' || c == '\U{202F}' || c == '\U{205F}' || c == '\U{3000}'
  }

  /** Every character of s[lo..hi] is white space. */
  predicate SpaceBetween(s: string, lo: nat, hi: nat)
    requires lo <= hi <= |s|
  {
    forall i :: lo <= i < hi ==> IsSpace(s[i])
  }

  predicate AllSpace(s: string) {
    SpaceBetween(s, 0, |s|)
  }

  /** Where the text of `s` starts when scanning forward from `lo`. */
  function LeadingSpace(s: string, lo: nat): (n: nat)
    requires lo <= |s|
    ensures lo <= n <= |s| && SpaceBetween(s, lo, n)
    ensures n < |s| ==> !IsSpace(s[n])
    decreases |s| - lo
  {
    if lo < |s| && IsSpace(s[lo]) then LeadingSpace(s, lo + 1) else lo
  }

  /** Where the text of s[..hi] ends when scanning back from hi but not past lo. */
  function TextEnd(s: string, lo: nat, hi: nat): (n: nat)
    requires lo <= hi <= |s|
    ensures lo <= n <= hi && SpaceBetween(s, n, hi)
    ensures n > lo ==> !IsSpace(s[n - 1])
    decreases hi
  {
    if hi > lo && IsSpace(s[hi - 1]) then TextEnd(s, lo, hi - 1) else hi
  }

  /**
   * strings.TrimSpace: the result is an infix of `s` that neither starts nor
   * ends with white space, and everything cut off on either side is white space.
   */
  function TrimSpace(s: string): (r: string)
    ensures |r| <= |s|
    ensures r != [] ==> !IsSpace(r[0]) && !IsSpace(r[|r| - 1])
    ensures exists i :: 0 <= i <= |s| - |r| && IsTrimmedAt(s, i, r)
  {
    var i := LeadingSpace(s, 0);
    var j := TextEnd(s, i, |s|);
    assert IsTrimmedAt(s, i, s[i..j]);
    s[i..j]
  }

  /** `r` sits at offset `i` of `s`, with only white space before and after it. */
  predicate IsTrimmedAt(s: string, i: nat, r: string) {
    i + |r| <= |s| && r == s[i..i + |r|] && SpaceBetween(s, 0, i) && SpaceBetween(s, i + |r|, |s|)
  }

  /** LeadingSpace is the only cut with white space before it and none right after it. */
  lemma LeadingSpaceIs(s: string, lo: nat, m: nat)
    requires lo <= m <= |s| && SpaceBetween(s, lo, m)
    requires m < |s| ==> !IsSpace(s[m])
    ensures LeadingSpace(s, lo) == m
  {
  }

  /** TextEnd is the only cut, not before lo, with white space after it and none right before it. */
  lemma TextEndIs(s: string, lo: nat, hi: nat, m: nat)
    requires lo <= m <= hi <= |s| && SpaceBetween(s, m, hi)
    requires m > lo ==> !IsSpace(s[m - 1])
    ensures TextEnd(s, lo, hi) == m
  {
  }

  /**
   * TrimSpace recovers any text that has no white space at its ends from
   * white-space padding on both sides; in particular it is idempotent.
   */
  lemma TrimSpaceOfPadded(pre: string, x: string, post: string)
    requires AllSpace(pre) && AllSpace(post)
    requires x != [] ==> !IsSpace(x[0]) && !IsSpace(x[|x| - 1])
    ensures TrimSpace(pre + x + post) == x
  {
    var s := pre + x + post;
    var i := |pre|;
    var j := |pre| + |x|;
    assert forall k :: 0 <= k < i ==> s[k] == pre[k];
    assert forall k :: j <= k < |s| ==> s[k] == post[k - j];
    assert s[i..j] == x;
    if x == [] {
      LeadingSpaceIs(s, 0, |s|);
      assert TextEnd(s, |s|, |s|) == |s|;
    } else {
      assert s[i] == x[0] && s[j - 1] == x[|x| - 1];
      LeadingSpaceIs(s, 0, i);
      TextEndIs(s, i, |s|, j);
    }
  }

  // ---------------------------------------------------------------------
  // Decimal digits
  // ---------------------------------------------------------------------

  predicate IsDigit(c: char) {
    '0' <= c <= '9'
  }

  predicate AllDigits(s: string) {
    forall i :: 0 <= i < |s| ==> IsDigit(s[i])
  }

  function DigitValue(c: char): nat
    requires IsDigit(c)
  {
    c as int - '0' as int
  }

  function DigitChar(d: nat): char
    requires d < 10
  {
    ('0' as int + d) as char
  }

  /** The value of a string of decimal digits, most significant first. */
  function DecimalValue(s: string): nat
    requires AllDigits(s)
    decreases |s|
  {
    if s == [] then 0 else DecimalValue(s[..|s| - 1]) * 10 + DigitValue(s[|s| - 1])
  }

  /** The shortest decimal rendering of `n` (strconv.FormatUint in base 10). */
  function Decimal(n: nat): (s: string)
    ensures s != [] && AllDigits(s)
    ensures |s| > 1 ==> s[0] != '0'
    ensures n < 10 ==> |s| == 1
    ensures 10 <= n < 100 ==> |s| == 2
    ensures 100 <= n < 1000 ==> |s| == 3
    ensures 1000 <= n < 10000 ==> |s| == 4
    decreases n
  {
    if n < 10 then [DigitChar(n)] else Decimal(n / 10) + [DigitChar(n % 10)]
  }

  lemma {:induction false} DecimalValueOfDecimal(n: nat)
    ensures DecimalValue(Decimal(n)) == n
    decreases n
  {
    if n >= 10 {
      var s := Decimal(n);
      assert s[..|s| - 1] == Decimal(n / 10);
      DecimalValueOfDecimal(n / 10);
    }
  }

  /** Leading zeros do not change the value of a digit string. */
  lemma {:induction false} DecimalValueOfZeroPadded(zeros: string, s: string)
    requires AllDigits(s)
    requires forall i :: 0 <= i < |zeros| ==> zeros[i] == '0'
    ensures AllDigits(zeros + s) && DecimalValue(zeros + s) == DecimalValue(s)
    decreases |s|
  {
    var t := zeros + s;
    if s == [] {
      assert t == zeros;
      ZerosHaveValueZero(zeros);
    } else {
      assert t[..|t| - 1] == zeros + s[..|s| - 1];
      DecimalValueOfZeroPadded(zeros, s[..|s| - 1]);
    }
  }

  lemma {:induction false} ZerosHaveValueZero(zeros: string)
    requires forall i :: 0 <= i < |zeros| ==> zeros[i] == '0'
    ensures AllDigits(zeros) && DecimalValue(zeros) == 0
    decreases |zeros|
  {
    if zeros != [] {
      ZerosHaveValueZero(zeros[..|zeros| - 1]);
    }
  }

  // ---------------------------------------------------------------------
  // strconv.ParseInt(s, 10, 64)
  // ---------------------------------------------------------------------

  /** `s` without its sign, if it starts with one. */
  function Unsigned(s: string): (d: string)
    ensures |d| <= |s|
  {
    if s != [] && (s[0] == '+' || s[0] == '-') then s[1..] else s
  }

  /** An optional sign followed by at least one decimal digit. */
  predicate IsDecimalLiteral(s: string) {
    Unsigned(s) != [] && AllDigits(Unsigned(s))
  }

  /** The integer an optionally signed decimal literal denotes, of any size. */
  function LiteralValue(s: string): int
    requires IsDecimalLiteral(s)
  {
    if s[0] == '-' then -(DecimalValue(Unsigned(s)) as int) else DecimalValue(Unsigned(s))
  }

  /** strconv.ParseUint(s, 10, 64): digits only, no sign, no underscore, at most 2^64 - 1. */
  function ParseUint(s: string): Option<nat> {
    if s != [] && AllDigits(s) && DecimalValue(s) <= MaxUint64 then Some(DecimalValue(s)) else None
  }

  /**
   * strconv.ParseInt(s, 10, 64).  An error (syntax or range) is None.
   * Exactly the optionally signed digit strings whose value fits in 64 bits
   * parse, to that value; white space, an empty string, a lone sign or an
   * underscore are rejected.
   */
  function ParseInt(s: string): (r: Option<int>)
    ensures r.Some? <==> IsDecimalLiteral(s) && MinInt64 <= LiteralValue(s) <= MaxInt64
    ensures r.Some? ==> r.value == LiteralValue(s)
  {
    if s == [] then None
    else
      var neg := s[0] == '-';
      var digits := if s[0] == '+' || s[0] == '-' then s[1..] else s;
      match ParseUint(digits)
      case None => None
      case Some(u) =>
        if !neg && u > MaxInt64 then None
        else if neg && u > -MinInt64 then None
        else var v: int := if neg then -(u as int) else u as int; Some(v)
  }

  /** strconv.FormatInt(n, 10). */
  function FormatInt(n: int): string {
    if n < 0 then "-" + Decimal(-n) else Decimal(n)
  }

  /** ParseInt reads back every 64-bit value that FormatInt renders. */
  lemma ParseIntOfFormatInt(n: int)
    requires MinInt64 <= n <= MaxInt64
    ensures ParseInt(FormatInt(n)) == Some(n)
  {
    var m: nat := if n < 0 then -n else n;
    ParseUintOfDecimal(m);
    var d := Decimal(m);
    if n < 0 {
      var s := "-" + d;
      assert s[0] == '-' && s[1..] == d;
    } else {
      assert d[0] != '-' && d[0] != '+';
    }
  }

  /** ParseUint reads back the decimal rendering of every 64-bit unsigned value. */
  lemma ParseUintOfDecimal(m: nat)
    requires m <= MaxUint64
    ensures ParseUint(Decimal(m)) == Some(m)
  {
    DecimalValueOfDecimal(m);
  }

  // ---------------------------------------------------------------------
  // strings.EqualFold
  // ---------------------------------------------------------------------

  function ToLowerAscii(c: char): char {
    if 'A' <= c <= 'Z' then (c as int + 32) as char else c
  }

  /** The case-folded key of a string: every ASCII capital letter lowered. */
  function FoldCase(s: string): (r: string)
    ensures |r| == |s|
    ensures forall i :: 0 <= i < |s| ==> r[i] == ToLowerAscii(s[i])
  {
    seq(|s|, i requires 0 <= i < |s| => ToLowerAscii(s[i]))
  }

  /** strings.EqualFold, with case folding restricted to ASCII letters. */
  predicate EqualFold(a: string, b: string) {
    FoldCase(a) == FoldCase(b)
  }

  /**
   * Two characters are the same letter up to case: equal, or an ASCII capital
   * and the small letter 32 code points above it, in either order.
   */
  predicate SameUpToCase(x: char, y: char) {
    x == y
    || ('A' <= x <= 'Z' && y as int == x as int + 32)
    || ('A' <= y <= 'Z' && x as int == y as int + 32)
  }

  /** Folding two characters to the same key is the same as being one letter up to case. */
  lemma FoldCaseCharwise(x: char, y: char)
    ensures ToLowerAscii(x) == ToLowerAscii(y) <==> SameUpToCase(x, y)
  {
  }

  /**
   * Two strings are equal up to case exactly when they have the same length
   * and each pair of characters is the same letter up to case.
   */
  lemma EqualFoldCharwise(a: string, b: string)
    ensures EqualFold(a, b) <==>
      |a| == |b| && forall i :: 0 <= i < |a| ==> SameUpToCase(a[i], b[i])
  {
    forall i | 0 <= i < |a| && i < |b| {
      FoldCaseCharwise(a[i], b[i]);
    }
    if |a| == |b| && forall i :: 0 <= i < |a| ==> SameUpToCase(a[i], b[i]) {
      assert forall i :: 0 <= i < |a| ==> FoldCase(a)[i] == FoldCase(b)[i];
    }
  }

  /** Only the empty string is equal up to case to the empty string. */
  lemma EqualFoldEmpty(s: string)
    ensures EqualFold("", s) <==> s == ""
  {
    if EqualFold("", s) {
      assert |FoldCase(s)| == 0;
    }
  }
}
