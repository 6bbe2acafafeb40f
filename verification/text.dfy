/**
 String helpers the converter and the SAINT writers rely on: joining with a
 separator (Java's `Collectors.joining`), splitting on one character (the
 inverse a reader of the tab-separated tables applies), and the decimal
 rendering of an `int` (Java's `String.valueOf(int)`) with its parser.
 */
module Text {
  import opened Wrappers

  /** `parts` glued together with `sep` between consecutive parts; `""` for no parts. */
  function Join(parts: seq<string>, sep: string): (r: string)
    ensures parts == [] ==> r == ""
    ensures |parts| == 1 ==> r == parts[0]
    ensures |parts| >= 1 ==> |r| >= |parts[0]| && r[..|parts[0]|] == parts[0]
  {
    if |parts| == 0 then ""
    else if |parts| == 1 then parts[0]
    else parts[0] + sep + Join(parts[1..], sep)
  }

  /** Position of the first occurrence of `c` in `s`. */
  function IndexOf(s: string, c: char): (i: nat)
    requires c in s
    ensures i < |s| && s[i] == c
    ensures c !in s[..i]
  {
    if s[0] == c then 0
    else
      assert c in s[1..] by { var k :| 0 <= k < |s| && s[k] == c; assert s[1..][k - 1] == c; }
      var j := IndexOf(s[1..], c);
      assert s[..j + 1] == [s[0]] + s[1..][..j];
      1 + j
  }

  /**
   The maximal pieces of `s` between occurrences of `c`: never empty, no
   piece contains `c`, and joining the pieces with `c` gives back `s`.
   */
  function Split(s: string, c: char): (r: seq<string>)
    ensures |r| >= 1
    ensures forall k :: 0 <= k < |r| ==> c !in r[k]
    ensures Join(r, [c]) == s
    decreases |s|
  {
    if c !in s then [s]
    else
      var i := IndexOf(s, c);
      var rest := Split(s[i + 1..], c);
      var r := [s[..i]] + rest;
      assert r[1..] == rest;
      assert s == s[..i] + [c] + s[i + 1..];
      r
  }

  /** Splitting a join undoes it, provided no part contains the separator. */
  lemma {:induction false} SplitJoin(parts: seq<string>, c: char)
    requires |parts| >= 1
    requires forall k :: 0 <= k < |parts| ==> c !in parts[k]
    ensures Split(Join(parts, [c]), c) == parts
    decreases |parts|
  {
    if |parts| > 1 {
      var tail := Join(parts[1..], [c]);
      var s := Join(parts, [c]);
      assert s == parts[0] + [c] + tail;
      assert s[|parts[0]|] == c;
      var i := IndexOf(s, c);
      assert s[..|parts[0]|] == parts[0];
      assert i == |parts[0]|;
      assert s[i + 1..] == tail;
      SplitJoin(parts[1..], c);
      assert Split(s, c) == [parts[0]] + parts[1..];
    }
  }

  predicate IsDigit(ch: char) {
    '0' <= ch <= '9'
  }

  predicate AllDigits(s: string) {
    forall k :: 0 <= k < |s| ==> IsDigit(s[k])
  }

  function DigitChar(d: nat): (ch: char)
    requires d < 10
    ensures IsDigit(ch)
  {
    ('0' as int + d) as char
  }

  function DigitValue(ch: char): nat
    requires IsDigit(ch)
  {
    ch as int - '0' as int
  }

  /** Decimal digits of `n`, most significant first, without leading zeros. */
  function NatToDecimal(n: nat): (r: string)
    ensures |r| >= 1
    ensures AllDigits(r)
    ensures r[0] == '0' ==> n == 0
  {
    if n < 10 then [DigitChar(n)]
    else NatToDecimal(n / 10) + [DigitChar(n % 10)]
  }

  /** The number a string of decimal digits denotes (`0` for the empty string). */
  function DecimalValue(s: string): nat
    requires AllDigits(s)
  {
    if s == [] then 0
    else DecimalValue(s[..|s| - 1]) * 10 + DigitValue(s[|s| - 1])
  }

  /** Java's `String.valueOf(int)`: a leading `-` for negatives, then the digits of the magnitude. */
  function IntToDecimal(i: int): (r: string)
    ensures i >= 0 ==> AllDigits(r) && '-' !in r
    ensures i < 0 ==> |r| >= 2 && r[0] == '-' && AllDigits(r[1..])
  {
    if i < 0 then "-" + NatToDecimal(-i) else NatToDecimal(i)
  }

  /** Reads back an optional `-` followed by at least one digit; anything else is rejected. */
  function ParseDecimal(s: string): (r: Option<int>)
    ensures r.Some? ==> |s| >= 1
    ensures r.Some? && r.value < 0 ==> s[0] == '-'
  {
    if |s| >= 2 && s[0] == '-' && AllDigits(s[1..]) then Some(0 - DecimalValue(s[1..]))
    else if |s| >= 1 && AllDigits(s) then Some(DecimalValue(s))
    else None
  }

  lemma {:induction false} DecimalValueOfNat(n: nat)
    ensures DecimalValue(NatToDecimal(n)) == n
  {
    if n >= 10 {
      var prefix := NatToDecimal(n / 10);
      var s := NatToDecimal(n);
      assert s[..|s| - 1] == prefix;
      DecimalValueOfNat(n / 10);
    }
  }

  /** A `-` followed by digits parses as the negated value of the digits. */
  lemma ParseNegative(digits: string)
    requires |digits| >= 1 && AllDigits(digits)
    ensures ParseDecimal("-" + digits) == Some(0 - DecimalValue(digits))
  {
    var s := "-" + digits;
    assert s[1..] == digits;
  }

  /** Digits that do not start with `-` parse as their value. */
  lemma ParseDigits(s: string)
    requires |s| >= 1 && AllDigits(s)
    ensures ParseDecimal(s) == Some(DecimalValue(s))
  {
    assert s[0] != '-' by { assert IsDigit(s[0]); }
  }

  /** The digits of a `nat` parse back to it. */
  lemma NatRoundTrip(n: nat)
    ensures ParseDecimal(NatToDecimal(n)) == Some(n)
  {
    ParseDigits(NatToDecimal(n));
    DecimalValueOfNat(n);
  }

  /** A `-` followed by the digits of a positive `n` parses back to `-n`. */
  lemma NegRoundTrip(n: nat)
    requires n > 0
    ensures ParseDecimal("-" + NatToDecimal(n)) == Some(0 - n)
  {
    ParseNegative(NatToDecimal(n));
    DecimalValueOfNat(n);
  }

  /** Rendering an `int` in decimal and parsing it back gives the same `int`. */
  lemma DecimalRoundTrip(i: int)
    ensures ParseDecimal(IntToDecimal(i)) == Some(i)
  {
    if i < 0 {
      NegRoundTrip(-i);
    } else {
      NatRoundTrip(i);
    }
  }
}
