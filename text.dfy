/** The .NET string operations the parser and the search call: String.Split,
    String.Trim, String.StartsWith, case folding, substring search, Int32.Parse and
    Int32.ToString. A string is a sequence of Unicode scalar values; the lone surrogates
    a .NET string can hold are not modelled. */
module Text {
  import opened Wrappers

  const MinInt32: int := -0x8000_0000
  const MaxInt32: int := 0x7FFF_FFFF

  /** Char.IsWhiteSpace: the Unicode separators, U+0009..U+000D, U+0085 and U+00A0. */
  predicate IsWhiteSpace(c: char) {
    c == ' ' || ('\t' <= c <= '\r') || c == '\U{0085}' || c == '\U{00A0}'
    || c == '\U{1680}' || ('\U{2000}' <= c <= '\U{200A}') || c == '\U{2028}'
    || c == '\U{2029}' || c == '\U{202F}' || c == '\U{205F}' || c == '\U{3000}'
  }

  predicate IsStar(c: char) {
    c == '*'
  }

  /** Ordinal prefix test. */
  predicate StartsWith(s: string, prefix: string) {
    |prefix| <= |s| && s[..|prefix|] == prefix
  }

  predicate OccursAt(s: string, sub: string, i: nat) {
    i + |sub| <= |s| && s[i..i + |sub|] == sub
  }

  predicate Contains(s: string, sub: string) {
    exists i | 0 <= i <= |s| - |sub| :: OccursAt(s, sub, i)
  }

  /** Position of the first occurrence of sep at or after `from`. */
  function IndexFrom(s: string, sep: string, from: nat): (r: Option<nat>)
    requires |sep| > 0
    ensures r.Some? ==> from <= r.value && OccursAt(s, sep, r.value)
    ensures r.Some? ==> forall j :: from <= j < r.value ==> !OccursAt(s, sep, j)
    ensures r.None? ==> forall j :: from <= j ==> !OccursAt(s, sep, j)
    decreases |s| - from
  {
    if from + |sep| > |s| then None
    else if OccursAt(s, sep, from) then Some(from)
    else IndexFrom(s, sep, from + 1)
  }

  /** The pieces joined back with the separator between them. */
  function Join(pieces: seq<string>, sep: string): string
    requires |pieces| > 0
  {
    if |pieces| == 1 then pieces[0] else pieces[0] + sep + Join(pieces[1..], sep)
  }

  /** String.Split with StringSplitOptions.None: the text between successive
      non-overlapping occurrences of sep, found left to right; empty pieces are kept. */
  function Split(s: string, sep: string): (r: seq<string>)
    requires |sep| > 0
    ensures |r| > 0
    ensures forall i :: 0 <= i < |r| ==> !Contains(r[i], sep)
    decreases |s|
  {
    match IndexFrom(s, sep, 0)
    case None => [s]
    case Some(k) =>
      PrefixFree(s, sep, k);
      [s[..k]] + Split(s[k + |sep|..], sep)
  }

  /** The text before the first occurrence of sep does not contain sep. */
  lemma PrefixFree(s: string, sep: string, k: nat)
    requires |sep| > 0 && k <= |s|
    requires forall j :: 0 <= j < k ==> !OccursAt(s, sep, j)
    ensures !Contains(s[..k], sep)
  {
    forall j | 0 <= j <= k - |sep| ensures !OccursAt(s[..k], sep, j) {
      SlicePrefix(s, k, j, j + |sep|);
      assert !OccursAt(s, sep, j);
    }
  }

  lemma SlicePrefix(s: string, k: nat, i: nat, j: nat)
    requires i <= j <= k <= |s|
    ensures s[..k][i..j] == s[i..j]
  {
  }

  /** Joining the pieces back with the separator gives the string that was split. */
  lemma {:induction false} SplitJoin(s: string, sep: string)
    requires |sep| > 0
    ensures Join(Split(s, sep), sep) == s
    decreases |s|
  {
    match IndexFrom(s, sep, 0)
    case None =>
    case Some(k) =>
      SplitJoin(s[k + |sep|..], sep);
      var rest := Split(s[k + |sep|..], sep);
      assert Split(s, sep)[1..] == rest;
      assert s == s[..k] + sep + s[k + |sep|..] by {
        assert s[k..k + |sep|] == sep;
        assert s == s[..k] + s[k..k + |sep|] + s[k + |sep|..];
      }
  }

  /** A piece free of a one-character separator, followed by that separator, is split off
      as the first piece. */
  lemma SplitCons(piece: string, c: char, rest: string)
    requires c !in piece
    ensures Split(piece + [c] + rest, [c]) == [piece] + Split(rest, [c])
  {
    var s := piece + [c] + rest;
    forall j | 0 <= j < |piece| ensures !OccursAt(s, [c], j) {
      assert s[j] == piece[j];
    }
    assert OccursAt(s, [c], |piece|);
    assert s[..|piece|] == piece;
    assert s[|piece| + 1..] == rest;
  }

  /** A piece free of the separator is not split at all. */
  lemma SplitNone(s: string, sep: string)
    requires |sep| > 0 && !Contains(s, sep)
    ensures Split(s, sep) == [s]
  {
    assert IndexFrom(s, sep, 0).None?;
  }

  lemma CharNotContained(s: string, c: char)
    requires c !in s
    ensures !Contains(s, [c])
  {
    forall i | 0 <= i <= |s| - 1 ensures !OccursAt(s, [c], i) {
      assert s[i..i + 1][0] == s[i];
    }
  }

  /** For a one-character separator, Split is the only way to cut s into separator-free
      pieces that join back to s. */
  lemma {:induction false} SplitUnique(pieces: seq<string>, c: char)
    requires |pieces| > 0
    requires forall i :: 0 <= i < |pieces| ==> c !in pieces[i]
    ensures Split(Join(pieces, [c]), [c]) == pieces
  {
    if |pieces| == 1 {
      CharNotContained(pieces[0], c);
      SplitNone(pieces[0], [c]);
    } else {
      SplitUnique(pieces[1..], c);
      SplitCons(pieces[0], c, Join(pieces[1..], [c]));
      assert pieces == [pieces[0]] + pieces[1..];
    }
  }

  /** The number of leading characters satisfying drop. */
  function LeadingDropped(s: string, drop: char -> bool): (n: nat)
    ensures n <= |s|
    ensures forall k :: 0 <= k < n ==> drop(s[k])
    ensures n < |s| ==> !drop(s[n])
  {
    if |s| == 0 || !drop(s[0]) then 0 else 1 + LeadingDropped(s[1..], drop)
  }

  /** The number of trailing characters satisfying drop. */
  function TrailingDropped(s: string, drop: char -> bool): (n: nat)
    ensures n <= |s|
    ensures forall k :: |s| - n <= k < |s| ==> drop(s[k])
    ensures n < |s| ==> !drop(s[|s| - n - 1])
  {
    if |s| == 0 || !drop(s[|s| - 1]) then 0 else 1 + TrailingDropped(s[..|s| - 1], drop)
  }

  /** r is s with i characters satisfying drop removed before it and the rest, all
      satisfying drop, after it. */
  predicate TrimmedAt(s: string, r: string, i: nat, drop: char -> bool) {
    && i + |r| <= |s| && r == s[i..i + |r|]
    && (forall k :: 0 <= k < i ==> drop(s[k]))
    && (forall k :: i + |r| <= k < |s| ==> drop(s[k]))
  }

  /** String.Trim / String.Trim(char): the middle of s, after every leading and trailing
      character satisfying drop is removed. */
  function Trim(s: string, drop: char -> bool): (r: string)
    ensures exists i :: TrimmedAt(s, r, i, drop)
    ensures |r| > 0 ==> !drop(r[0]) && !drop(r[|r| - 1])
  {
    var a := LeadingDropped(s, drop);
    var b := TrailingDropped(s[a..], drop);
    assert TrimmedAt(s, s[a..|s| - b], a, drop) by {
      forall k | |s| - b <= k < |s| ensures drop(s[k]) {
        assert s[k] == s[a..][k - a];
      }
    }
    s[a..|s| - b]
  }

  /** A string that starts and ends with a kept character is its own trim. */
  lemma TrimKept(s: string, drop: char -> bool)
    requires |s| > 0 && !drop(s[0]) && !drop(s[|s| - 1])
    ensures Trim(s, drop) == s
  {
    assert s[0..] == s;
  }

  /** A string made only of dropped characters trims to the empty string. */
  lemma TrimAllDropped(s: string, drop: char -> bool)
    requires forall k :: 0 <= k < |s| ==> drop(s[k])
    ensures Trim(s, drop) == ""
  {
    assert LeadingDropped(s, drop) == |s|;
  }

  /** Case folding: ASCII letters to lower case, everything else unchanged. */
  function LowerChar(c: char): char {
    if 'A' <= c <= 'Z' then (c as int + 32) as char else c
  }

  function Lower(s: string): (r: string)
    ensures |r| == |s| && forall i :: 0 <= i < |s| ==> r[i] == LowerChar(s[i])
  {
    if |s| == 0 then [] else Lower(s[..|s| - 1]) + [LowerChar(s[|s| - 1])]
  }

  /** Case-insensitive substring test. */
  predicate ContainsIgnoreCase(text: string, fragment: string) {
    Contains(Lower(text), Lower(fragment))
  }

  predicate IsDigit(c: char) {
    '0' <= c <= '9'
  }

  function DigitValue(c: char): nat
    requires IsDigit(c)
  {
    c as int - '0' as int
  }

  function DigitChar(d: nat): (c: char)
    requires d < 10
    ensures IsDigit(c) && DigitValue(c) == d
  {
    ('0' as int + d) as char
  }

  /** The value of a run of decimal digits, most significant first. */
  function DigitsValue(s: string): nat
    requires forall i :: 0 <= i < |s| ==> IsDigit(s[i])
  {
    if |s| == 0 then 0 else DigitsValue(s[..|s| - 1]) * 10 + DigitValue(s[|s| - 1])
  }

  /** Decimal digits of n, no leading zeros. */
  function Digits(n: nat): (r: string)
    ensures |r| > 0 && forall i :: 0 <= i < |r| ==> IsDigit(r[i])
  {
    if n < 10 then [DigitChar(n)] else Digits(n / 10) + [DigitChar(n % 10)]
  }

  /** Int32.ToString(): an optional '-' followed by the decimal digits. */
  function IntToString(n: int): string {
    if n < 0 then "-" + Digits(-n) else Digits(n)
  }

  predicate AllDigits(s: string) {
    forall i :: 0 <= i < |s| ==> IsDigit(s[i])
  }

  /** The text after an optional leading sign. */
  function Unsigned(s: string): string {
    if |s| > 0 && (s[0] == '-' || s[0] == '+') then s[1..] else s
  }

  /** An optional '+' or '-' followed by at least one decimal digit. */
  predicate SignedDigits(s: string) {
    |Unsigned(s)| > 0 && AllDigits(Unsigned(s))
  }

  /** The value such a text denotes, negated after a '-'. */
  function SignedValue(s: string): int
    requires SignedDigits(s)
  {
    var magnitude: int := DigitsValue(Unsigned(s));
    if s[0] == '-' then -magnitude else magnitude
  }

  /** Int32.Parse with the default NumberStyles.Integer on a trimmed value: an optional
      '+' or '-' and at least one decimal digit, in the 32-bit range; None where .NET
      throws FormatException or OverflowException. */
  function ParseInt(s: string): (r: Option<int>)
    ensures r.Some? <==> SignedDigits(s) && MinInt32 <= SignedValue(s) <= MaxInt32
    ensures r.Some? ==> r.value == SignedValue(s)
  {
    var negative := |s| > 0 && s[0] == '-';
    var digits := if |s| > 0 && (s[0] == '-' || s[0] == '+') then s[1..] else s;
    if |digits| == 0 || exists i | 0 <= i < |digits| :: !IsDigit(digits[i]) then None
    else
      var magnitude: int := DigitsValue(digits);
      var v := if negative then -magnitude else magnitude;
      if MinInt32 <= v <= MaxInt32 then Some(v) else None
  }

  /** A leading '+' and leading zeros are accepted; a letter among the digits is not. */
  lemma ParseIntPlusZeros()
    ensures ParseInt("+007") == Some(7)
  {
    assert Unsigned("+007") == "007";
    assert DigitsValue("0") == 0;
    assert DigitsValue("00") == 0 by { assert "00"[..1] == "0"; }
    assert DigitsValue("007") == 7 by { assert "007"[..2] == "00"; }
  }

  lemma ParseIntRejectsLetter()
    ensures ParseInt("1a") == None
  {
    assert !IsDigit("1a"[1]);
  }
  lemma {:induction false} DigitsRoundTrip(n: nat)
    ensures DigitsValue(Digits(n)) == n
  {
    if n >= 10 {
      DigitsRoundTrip(n / 10);
      var d := Digits(n);
      assert d[..|d| - 1] == Digits(n / 10);
    }
  }

  /** Parsing the decimal rendering of a 32-bit integer gives the integer back. */
  lemma IntToStringRoundTrip(n: int)
    requires MinInt32 <= n <= MaxInt32
    ensures ParseInt(IntToString(n)) == Some(n)
  {
    if n < 0 {
      DigitsRoundTrip(-n);
      assert IntToString(n)[1..] == Digits(-n);
    } else {
      DigitsRoundTrip(n);
    }
  }

  /** Digits with no leading zero, other than "0" itself. */
  predicate NoLeadingZero(d: string) {
    |d| > 0 && (d[0] != '0' || |d| == 1)
  }

  /** The form Int32.ToString() writes: no '+', no leading zeros and no "-0". */
  predicate Canonical(s: string) {
    && SignedDigits(s) && NoLeadingZero(Unsigned(s)) && s[0] != '+'
    && (s[0] == '-' ==> Unsigned(s) != "0")
  }

  /** Digits starting with a non-zero digit denote a positive value. */
  lemma {:induction false} LeadingNonZeroPositive(d: string)
    requires |d| > 0 && AllDigits(d) && d[0] != '0'
    ensures DigitsValue(d) >= 1
  {
    if |d| > 1 {
      LeadingNonZeroPositive(d[..|d| - 1]);
    }
  }

  /** Digits without leading zeros are the decimal rendering of their value. */
  lemma {:induction false} DigitsOfValue(d: string)
    requires AllDigits(d) && NoLeadingZero(d)
    ensures Digits(DigitsValue(d)) == d
  {
    var last := d[|d| - 1];
    if |d| == 1 {
      assert DigitChar(DigitValue(last)) == last;
    } else {
      var init := d[..|d| - 1];
      LeadingNonZeroPositive(init);
      DigitsOfValue(init);
      var n := DigitsValue(d);
      assert n / 10 == DigitsValue(init) && n % 10 == DigitValue(last);
      assert DigitChar(DigitValue(last)) == last;
      assert d == init + [last];
    }
  }

  /** A canonical text that parses is exactly the rendering of the value it parses to. */
  lemma ParseIntCanonical(s: string, v: int)
    requires Canonical(s) && ParseInt(s) == Some(v)
    ensures IntToString(v) == s
  {
    var d := Unsigned(s);
    DigitsOfValue(d);
    if s[0] == '-' {
      if d[0] == '0' {
        assert false;
      }
      LeadingNonZeroPositive(d);
      assert s == "-" + d;
    } else {
      assert s == d;
    }
  }
}
