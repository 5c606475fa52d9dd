/**
 * The few Python string built-ins the request-governance code relies on:
 * `str.strip()` with no argument, `str.split(",")[0]` and `str(int)`.
 */
module Strings {

  /** Python's `str.isspace` for one character: the characters `str.strip()` removes. */
  predicate IsSpace(c: char)
  {
    || ('\t' <= c <= '\r')                     // tab, line feed, vertical tab, form feed, carriage return
    || ('\U{1C}' <= c <= '\U{1F}')             // file, group, record and unit separators
    || c == ' '
    || c == '\U{85}'                           // next line
    || c == '\U{A0}'                           // no-break space
    || c == '\U{1680}'                         // ogham space mark
    || ('\U{2000}' <= c <= '\U{200A}')         // en quad .. hair space
    || c == '\U{2028}' || c == '\U{2029}'      // line and paragraph separators
    || c == '\U{202F}' || c == '\U{205F}' || c == '\U{3000}'
  }

  /** The first index at or after `i` that does not hold whitespace (or the end of `s`). */
  function SkipSpaces(s: string, i: nat): (j: nat)
    requires i <= |s|
    ensures i <= j <= |s|
    ensures forall k :: i <= k < j ==> IsSpace(s[k])
    ensures j == |s| || !IsSpace(s[j])
    decreases |s| - i
  {
    if i == |s| || !IsSpace(s[i]) then i else SkipSpaces(s, i + 1)
  }

  /** The end of `s[lo..hi]` once the whitespace at its end is dropped. */
  function TrimEnd(s: string, lo: nat, hi: nat): (j: nat)
    requires lo <= hi <= |s|
    ensures lo <= j <= hi
    ensures forall k :: j <= k < hi ==> IsSpace(s[k])
    ensures j == lo || !IsSpace(s[j - 1])
    decreases hi
  {
    if hi == lo || !IsSpace(s[hi - 1]) then hi else TrimEnd(s, lo, hi - 1)
  }

  /** `s.strip()`: `s` without its leading and trailing whitespace. */
  function Strip(s: string): (r: string)
    ensures r == [] || (!IsSpace(r[0]) && !IsSpace(r[|r| - 1]))
  {
    var i := SkipSpaces(s, 0);
    var j := TrimEnd(s, i, |s|);
    assert i < j ==> s[i..j][0] == s[i] && s[i..j][j - i - 1] == s[j - 1];
    s[i..j]
  }

  /**
   * Where `s.strip()` comes from: it is the piece `s[start..end]`, and
   * everything cut off on either side is whitespace.
   */
  lemma StripSpec(s: string) returns (start: nat, end: nat)
    ensures start <= end <= |s| && Strip(s) == s[start..end]
    ensures forall k :: 0 <= k < start ==> IsSpace(s[k])
    ensures forall k :: end <= k < |s| ==> IsSpace(s[k])
  {
    start := SkipSpaces(s, 0);
    end := TrimEnd(s, start, |s|);
  }

  /** The index of the first `sep` at or after `i`, or the end of `s`. */
  function FieldEnd(s: string, sep: char, i: nat): (j: nat)
    requires i <= |s|
    ensures i <= j <= |s|
    ensures forall k :: i <= k < j ==> s[k] != sep
    ensures j == |s| || s[j] == sep
    decreases |s| - i
  {
    if i == |s| || s[i] == sep then i else FieldEnd(s, sep, i + 1)
  }

  /**
   * `s.split(sep)[0]`: the text before the first occurrence of `sep`, or all
   * of `s` when `sep` does not occur (Python's split always yields at least
   * one piece, so the index never fails).
   */
  function FirstField(s: string, sep: char): (r: string)
    ensures |r| <= |s| && r == s[..|r|]
    ensures sep !in r
    ensures |r| == |s| || s[|r|] == sep
  {
    s[..FieldEnd(s, sep, 0)]
  }

  /** The first field of `head + [sep] + tail` is `head`, when `head` holds no separator. */
  lemma FirstFieldOfJoin(head: string, sep: char, tail: string)
    requires sep !in head
    ensures FirstField(head + [sep] + tail, sep) == head
  {
    var s := head + [sep] + tail;
    assert s[..|head|] == head && s[|head|] == sep;
    var r := FirstField(s, sep);
    assert |r| <= |head| ==> r == head[..|r|];
  }

  /**
   * Where `s.split(sep)[0].strip()` sits in `s`: it is `s[start..end]`,
   * `stop` ends the first field (at the first `sep` or at the end of `s`),
   * and only whitespace lies before `start` and between `end` and `stop`.
   */
  lemma StrippedFirstField(s: string, sep: char) returns (start: nat, end: nat, stop: nat)
    ensures start <= end <= stop <= |s|
    ensures Strip(FirstField(s, sep)) == s[start..end]
    ensures sep !in s[..stop] && (stop == |s| || s[stop] == sep)
    ensures forall k :: 0 <= k < start ==> IsSpace(s[k])
    ensures forall k :: end <= k < stop ==> IsSpace(s[k])
  {
    var field := FirstField(s, sep);
    stop := |field|;
    start, end := StripSpec(field);
    assert field == s[..stop];
    assert s[start..end] == field[start..end];
    forall k | 0 <= k < stop
      ensures s[k] == field[k]
    {
    }
  }

  /** Stripping changes nothing when a string neither starts nor ends with whitespace. */
  lemma StripUntrimmed(s: string)
    requires s == [] || (!IsSpace(s[0]) && !IsSpace(s[|s| - 1]))
    ensures Strip(s) == s
  {
    var start, end := StripSpec(s);
    if s != [] {
      assert start == 0;
      assert end == |s|;
    }
  }

  /** The character for a decimal digit. */
  function DigitChar(d: nat): (c: char)
    requires d < 10
    ensures '0' <= c <= '9' && (c as int) - ('0' as int) == d
  {
    (('0' as int) + d) as char
  }

  predicate IsDigit(c: char)
  {
    '0' <= c <= '9'
  }

  /** The value of a decimal digit character. */
  function DigitValue(c: char): (d: nat)
    requires IsDigit(c)
    ensures d < 10 && DigitChar(d) == c
  {
    var d := (c as int) - ('0' as int);
    assert 0 <= d < 10;
    d
  }

  /** `str(n)` for a natural number: its decimal numeral, without leading zeros. */
  function NatToDecimal(n: nat): (s: string)
    ensures |s| >= 1
    ensures forall k :: 0 <= k < |s| ==> IsDigit(s[k])
    ensures s[0] == '0' ==> n == 0
    ensures |s| > 1 ==> s[0] != '0'
    decreases n
  {
    if n < 10 then [DigitChar(n)] else NatToDecimal(n / 10) + [DigitChar(n % 10)]
  }

  /** The value of a string of decimal digits (the inverse of NatToDecimal). */
  function DecimalValue(s: string): (n: nat)
    requires forall k :: 0 <= k < |s| ==> IsDigit(s[k])
  {
    if s == [] then 0
    else DecimalValue(s[..|s| - 1]) * 10 + DigitValue(s[|s| - 1])
  }

  lemma {:induction false} DecimalRoundTrip(n: nat)
    ensures DecimalValue(NatToDecimal(n)) == n
    decreases n
  {
    if n >= 10 {
      var s := NatToDecimal(n);
      assert s[..|s| - 1] == NatToDecimal(n / 10);
      DecimalRoundTrip(n / 10);
    }
  }

  /** `str(i)` for a Python integer: a minus sign before the numeral of a negative value. */
  function IntToString(i: int): (s: string)
    ensures |s| >= 1
    ensures s[0] == '-' <==> i < 0
  {
    if i < 0 then "-" + NatToDecimal(-i) else NatToDecimal(i)
  }

  lemma NegativeRendering(i: int)
    requires i < 0
    ensures IntToString(i)[1..] == NatToDecimal(-i)
  {
  }

  /**
   * What `str(i)` spells: an optional minus sign, then `digits`, the decimal
   * numeral of the magnitude of `i`, with no leading zero unless `i` is 0.
   */
  lemma IntToStringDigits(i: int) returns (digits: string)
    ensures IntToString(i) == (if i < 0 then "-" else "") + digits
    ensures |digits| >= 1 && forall k :: 0 <= k < |digits| ==> IsDigit(digits[k])
    ensures DecimalValue(digits) == if i < 0 then -i else i
    ensures digits[0] == '0' ==> i == 0
    ensures |digits| > 1 ==> digits[0] != '0'
  {
    digits := NatToDecimal(if i < 0 then -i else i);
    DecimalRoundTrip(if i < 0 then -i else i);
  }

  /** `str(0)` is the single digit `"0"`. */
  lemma ZeroRendering()
    ensures IntToString(0) == "0"
  {
    assert NatToDecimal(0) == [DigitChar(0)];
  }

  /** Distinct integers have distinct decimal renderings. */
  lemma IntToStringInjective(a: int, b: int)
    requires IntToString(a) == IntToString(b)
    ensures a == b
  {
    if a < 0 {
      NegativeRendering(a);
      NegativeRendering(b);
      DecimalRoundTrip(-a);
      DecimalRoundTrip(-b);
    } else {
      assert NatToDecimal(a) == NatToDecimal(b);
      DecimalRoundTrip(a);
      DecimalRoundTrip(b);
    }
  }
}
