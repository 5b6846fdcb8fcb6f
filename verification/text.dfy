/**
 * Character strings as the catalog searches, compares and prints them.
 * A string is a sequence of Unicode scalar values; there is no normalisation.
 */
module Text {
  import opened Nullable

  /** `s` starts with `p`. */
  predicate IsPrefix(p: string, s: string)
  {
    |p| <= |s| && s[..|p|] == p
  }

  /** `needle` occurs in `hay` at index `i`. */
  predicate OccursAt(needle: string, hay: string, i: int)
  {
    0 <= i && i + |needle| <= |hay| && hay[i..i + |needle|] == needle
  }

  /** `needle` occurs somewhere in `hay`, scanning from the left. */
  predicate IsInfix(needle: string, hay: string)
    decreases |hay|
  {
    IsPrefix(needle, hay) || (|hay| > 0 && IsInfix(needle, hay[1..]))
  }

  /** An occurrence at any index is found by the scan. */
  lemma {:induction false} OccurrenceIsFound(needle: string, hay: string, i: int)
    requires OccursAt(needle, hay, i)
    ensures IsInfix(needle, hay)
    decreases i
  {
    if i > 0 {
      assert hay[1..][i - 1..i - 1 + |needle|] == hay[i..i + |needle|];
      OccurrenceIsFound(needle, hay[1..], i - 1);
    } else {
      assert IsPrefix(needle, hay);
    }
  }

  /** The scan finds the needle exactly when some index holds it. */
  lemma {:induction false} InfixIffOccurs(needle: string, hay: string)
    ensures IsInfix(needle, hay) <==> exists i :: OccursAt(needle, hay, i)
    decreases |hay|
  {
    if IsPrefix(needle, hay) {
      assert OccursAt(needle, hay, 0);
    } else if |hay| > 0 && IsInfix(needle, hay[1..]) {
      InfixIffOccurs(needle, hay[1..]);
      var j :| OccursAt(needle, hay[1..], j);
      assert hay[1..][j..j + |needle|] == hay[j + 1..j + 1 + |needle|];
      assert OccursAt(needle, hay, j + 1);
    }
    forall i | OccursAt(needle, hay, i)
      ensures IsInfix(needle, hay)
    {
      OccurrenceIsFound(needle, hay, i);
    }
  }

  /**
   * SQL `column LIKE '%value%'`: a NULL column matches nothing. `%` and `_`
   * inside `value` are taken literally, and the comparison is case-sensitive.
   */
  predicate LikeContains(column: Option<string>, value: string)
  {
    column.Some? && IsInfix(value, column.value)
  }

  /** SQL `LOWER` on one character: ASCII and Latin-1 capital letters. */
  function LowerChar(c: char): char
  {
    if 'A' <= c <= 'Z' || ('\U{C0}' <= c <= '\U{DE}' && c != '\U{D7}') then (c as int + 32) as char else c
  }

  /** SQL `LOWER` on a string. */
  function Lower(s: string): (r: string)
    ensures |r| == |s|
  {
    seq(|s|, i requires 0 <= i < |s| => LowerChar(s[i]))
  }

  /** Two names are the same name once case is ignored. */
  predicate SameIgnoringCase(a: string, b: string)
  {
    Lower(a) == Lower(b)
  }

  /** Lower-casing twice is lower-casing once. */
  lemma LowerIdempotent(s: string)
    ensures Lower(Lower(s)) == Lower(s)
  {
    assert forall i :: 0 <= i < |s| ==> LowerChar(LowerChar(s[i])) == LowerChar(s[i]);
  }

  /**
   * A character the form layer trims from both ends of submitted text:
   * control characters, space and line/paragraph separators, and the
   * common invisible format characters.
   */
  predicate IsTrimmed(c: char)
  {
    c <= ' ' || '\U{7F}' <= c <= '\U{A0}' || c == '\U{AD}' || c == '\U{1680}'
    || '\U{2000}' <= c <= '\U{200F}' || '\U{2028}' <= c <= '\U{202F}'
    || '\U{205F}' <= c <= '\U{2064}' || '\U{2066}' <= c <= '\U{206F}'
    || c == '\U{3000}' || c == '\U{FEFF}'
  }

  /** Text that is empty once trimmed. */
  predicate IsBlank(s: string)
  {
    forall i :: 0 <= i < |s| ==> IsTrimmed(s[i])
  }

  /** Index of the first character that is not trimmed (or `|s|`). */
  function StartOfText(s: string): (i: nat)
    ensures i <= |s|
    ensures forall k :: 0 <= k < i ==> IsTrimmed(s[k])
    ensures i == |s| || !IsTrimmed(s[i])
    decreases |s|
  {
    if |s| == 0 || !IsTrimmed(s[0]) then 0
    else
      var i := StartOfText(s[1..]);
      assert forall k :: 1 <= k < i + 1 ==> s[k] == s[1..][k - 1];
      1 + i
  }

  /** One past the last character at or after `lo` that is not trimmed (or `lo`). */
  function EndOfText(s: string, lo: nat): (j: nat)
    requires lo <= |s|
    ensures lo <= j <= |s|
    ensures forall k :: j <= k < |s| ==> IsTrimmed(s[k])
    ensures j == lo || !IsTrimmed(s[j - 1])
    decreases |s|
  {
    if |s| == lo || !IsTrimmed(s[|s| - 1]) then |s|
    else
      var j := EndOfText(s[..|s| - 1], lo);
      assert forall k :: j <= k < |s| - 1 ==> s[k] == s[..|s| - 1][k];
      j
  }

  /** The text with trimmed characters removed from both ends. */
  function Trim(s: string): (r: string)
    ensures r == "" <==> IsBlank(s)
    ensures r == "" || (!IsTrimmed(r[0]) && !IsTrimmed(r[|r| - 1]))
    ensures exists i :: 0 <= i <= |s| - |r| && r == s[i..i + |r|] && IsBlank(s[..i]) && IsBlank(s[i + |r|..])
  {
    var i := StartOfText(s);
    var j := EndOfText(s, i);
    var r := s[i..j];
    assert IsBlank(s[..i]) && IsBlank(s[j..]);
    r
  }

  /** Trimming is idempotent. */
  lemma TrimIdempotent(s: string)
    ensures Trim(Trim(s)) == Trim(s)
  {
    var t := Trim(s);
    if t != "" {
      assert StartOfText(t) == 0;
      assert EndOfText(t, 0) == |t|;
    }
  }

  predicate IsDigit(c: char)
  {
    '0' <= c <= '9'
  }

  predicate AllDigits(s: string)
  {
    forall i :: 0 <= i < |s| ==> IsDigit(s[i])
  }

  function DigitChar(d: nat): (c: char)
    requires d < 10
    ensures IsDigit(c)
  {
    ('0' as int + d) as char
  }

  function DigitValue(c: char): nat
    requires IsDigit(c)
  {
    c as int - '0' as int
  }

  /** The number a string of decimal digits denotes (leading zeros allowed). */
  function DigitsValue(s: string): nat
    requires AllDigits(s)
    decreases |s|
  {
    if |s| == 0 then 0 else DigitsValue(s[..|s| - 1]) * 10 + DigitValue(s[|s| - 1])
  }

  /** Decimal rendering of a natural number, without leading zeros. */
  function Decimal(n: nat): (r: string)
    ensures 1 <= |r| && AllDigits(r)
    ensures DigitsValue(r) == n
    ensures r[0] == '0' <==> n == 0
    ensures n < 10 ==> |r| == 1
    ensures n < 100 ==> |r| <= 2
    ensures n < 10000 ==> |r| <= 4
    decreases n
  {
    if n < 10 then
      var r := [DigitChar(n)];
      assert r[..0] == [];
      r
    else
      var r := Decimal(n / 10) + [DigitChar(n % 10)];
      assert r[..|r| - 1] == Decimal(n / 10);
      r
  }

  /** `k` zero digits. */
  function Zeros(k: nat): (r: string)
    ensures |r| == k && AllDigits(r)
  {
    seq(k, _ => '0')
  }

  /** Leading zeros do not change the value of a digit string. */
  lemma {:induction false} LeadingZeros(k: nat, d: string)
    requires AllDigits(d)
    ensures AllDigits(Zeros(k) + d)
    ensures DigitsValue(Zeros(k) + d) == DigitsValue(d)
    decreases |d|, k
  {
    var s := Zeros(k) + d;
    if |d| > 0 {
      LeadingZeros(k, d[..|d| - 1]);
      assert s[..|s| - 1] == Zeros(k) + d[..|d| - 1];
    } else if k > 0 {
      LeadingZeros(k - 1, d);
      assert s[..|s| - 1] == Zeros(k - 1) + d;
    }
  }

  /** PHP `sprintf('%0{width}d', n)`: decimal, left-padded with zeros to `width`. */
  function PadDecimal(n: nat, width: nat): (r: string)
    ensures AllDigits(r) && DigitsValue(r) == n
    ensures |r| >= width
    ensures |Decimal(n)| <= width ==> |r| == width
  {
    var d := Decimal(n);
    if |d| >= width then d
    else
      LeadingZeros(width - |d|, d);
      Zeros(width - |d|) + d
  }
}
