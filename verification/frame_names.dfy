/**
 Output file names: `"frame"`, the frame counter in decimal padded with
 zeros to three digits, then `".mpff"`. The source builds the name in a
 fixed buffer with `sprintf("%d")` and `strcat`, adding two zeros below
 10, one zero below 100 and none otherwise.
 */
module FrameNames {

  datatype Option<T> = None | Some(value: T)

  const PREFIX: string := "frame"
  const SUFFIX: string := ".mpff"

  predicate IsDigit(ch: char)
  {
    '0' <= ch <= '9'
  }

  function DigitChar(d: int): (ch: char)
    requires 0 <= d < 10
    ensures IsDigit(ch)
  {
    "0123456789"[d]
  }

  function DigitValue(ch: char): int
  {
    ch as int - '0' as int
  }

  /** `sprintf(s, "%d", n)` for a non-negative `n`: its decimal digits, no leading zero. */
  function DecimalString(n: nat): (s: string)
    ensures 1 <= |s|
    ensures forall k :: 0 <= k < |s| ==> IsDigit(s[k])
    ensures n >= 10 ==> s[0] != '0'
    ensures n < 10 ==> |s| == 1
    ensures 10 <= n < 100 ==> |s| == 2
    ensures 100 <= n < 1000 ==> |s| == 3
    ensures n >= 100 ==> |s| >= 3
  {
    if n < 10 then [DigitChar(n)] else DecimalString(n / 10) + [DigitChar(n % 10)]
  }

  /** The value of a string of decimal digits (leading zeros allowed). */
  function ParseDecimal(s: string): nat
  {
    if |s| == 0 then 0
    else
      var d := DigitValue(s[|s| - 1]);
      ParseDecimal(s[..|s| - 1]) * 10 + (if 0 <= d < 10 then d else 0)
  }

  /** The digits the loop appends after `"frame"`: two zeros below 10, one below 100, none otherwise. */
  function ZeroPadded(i: nat): (padded: string)
    ensures 3 <= |padded|
    ensures forall k :: 0 <= k < |padded| ==> IsDigit(padded[k])
    ensures i < 1000 ==> |padded| == 3
    ensures i >= 100 ==> padded[0] != '0'
  {
    var digits := DecimalString(i);
    if i < 10 then "0" + "0" + digits
    else if i < 100 then "0" + digits
    else digits
  }

  /** The name the frame loop gives frame `i`. */
  function FrameName(i: nat): (name: string)
    ensures |name| == |PREFIX| + |ZeroPadded(i)| + |SUFFIX|
    ensures name[..|PREFIX|] == PREFIX && name[|name| - |SUFFIX|..] == SUFFIX
  {
    PREFIX + ZeroPadded(i) + SUFFIX
  }

  /** Reads the frame number back from a name, if it has the frame-name shape. */
  function ParseFrameName(name: string): Option<nat>
  {
    if |name| < |PREFIX| + 3 + |SUFFIX| then None
    else if name[..|PREFIX|] != PREFIX || name[|name| - |SUFFIX|..] != SUFFIX then None
    else
      var digits := name[|PREFIX|..|name| - |SUFFIX|];
      if forall k :: 0 <= k < |digits| ==> IsDigit(digits[k]) then Some(ParseDecimal(digits)) else None
  }

  /** Reading the decimal string of `n` gives back `n`. */
  lemma {:induction false} ParseDecimalString(n: nat)
    ensures ParseDecimal(DecimalString(n)) == n
  {
    var s := DecimalString(n);
    if n >= 10 {
      ParseDecimalString(n / 10);
      assert s[..|s| - 1] == DecimalString(n / 10);
    }
  }

  /** Leading zeros do not change the value of a digit string. */
  lemma {:induction false} ParseLeadingZero(s: string)
    ensures ParseDecimal("0" + s) == ParseDecimal(s)
    decreases |s|
  {
    if |s| == 0 {
      assert ParseDecimal("0") == ParseDecimal("0"[..0]) * 10 + 0;
    } else {
      ParseLeadingZero(s[..|s| - 1]);
      assert ("0" + s)[..|"0" + s| - 1] == "0" + s[..|s| - 1];
    }
  }

  /** The frame number can be read back from every frame name. */
  lemma FrameNameRoundTrip(i: nat)
    ensures ParseFrameName(FrameName(i)) == Some(i)
  {
    var digits := DecimalString(i);
    var padded := ZeroPadded(i);
    var name := FrameName(i);
    assert name[..|PREFIX|] == PREFIX;
    assert name[|name| - |SUFFIX|..] == SUFFIX;
    assert name[|PREFIX|..|name| - |SUFFIX|] == padded;
    ParseDecimalString(i);
    if i < 10 {
      ParseLeadingZero(digits);
      ParseLeadingZero("0" + digits);
      assert "0" + "0" + digits == "0" + ("0" + digits);
    } else if i < 100 {
      ParseLeadingZero(digits);
    }
  }

  /** Distinct frames get distinct names. */
  lemma FrameNameInjective(i: nat, j: nat)
    ensures FrameName(i) == FrameName(j) ==> i == j
  {
    FrameNameRoundTrip(i);
    FrameNameRoundTrip(j);
  }

  /**
   For frames 0 to 999 the name is `"frame"`, exactly three decimal digits
   of the number (hundreds, tens, units) and `".mpff"`: thirteen characters.
   */
  lemma FrameNameThreeDigits(i: nat)
    requires i < 1000
    ensures FrameName(i) == PREFIX + [DigitChar(i / 100), DigitChar(i / 10 % 10), DigitChar(i % 10)] + SUFFIX
    ensures |FrameName(i)| == 13
  {
    ZeroPaddedThreeDigits(i);
  }

  /** Below 1000 the padded digits are the hundreds, tens and units digits. */
  lemma ZeroPaddedThreeDigits(i: nat)
    requires i < 1000
    ensures ZeroPadded(i) == [DigitChar(i / 100), DigitChar(i / 10 % 10), DigitChar(i % 10)]
  {
    var digits := [DigitChar(i / 100), DigitChar(i / 10 % 10), DigitChar(i % 10)];
    ThreeDigitsOf(i);
    if i < 10 {
      assert "0" + "0" + DecimalString(i) == digits;
    } else if i < 100 {
      assert "0" + DecimalString(i) == digits;
    }
  }

  /** The decimal string of a number below 1000 is the tail of its zero-padded three digits. */
  lemma ThreeDigitsOf(i: nat)
    requires i < 1000
    ensures DecimalString(i) == [DigitChar(i / 100), DigitChar(i / 10 % 10), DigitChar(i % 10)][3 - |DecimalString(i)|..]
    ensures i < 100 ==> i / 100 == 0 && DigitChar(i / 100) == '0'
    ensures i < 10 ==> i / 10 % 10 == 0 && DigitChar(i / 10 % 10) == '0'
  {
    if i >= 100 {
      HundredsDigits(i);
    } else if i >= 10 {
      assert i / 100 == 0;
      assert DecimalString(i) == DecimalString(i / 10) + [DigitChar(i % 10)];
      assert DecimalString(i / 10) == [DigitChar(i / 10 % 10)];
    } else {
      assert i / 100 == 0 && i / 10 % 10 == 0;
    }
  }

  /** From 100 to 999 the decimal string is the hundreds, tens and units digits. */
  lemma HundredsDigits(i: nat)
    requires 100 <= i < 1000
    ensures DecimalString(i) == [DigitChar(i / 100), DigitChar(i / 10 % 10), DigitChar(i % 10)]
  {
    var t := i / 10;
    assert 10 <= t < 100 && t / 10 == i / 100 && t % 10 == i / 10 % 10;
    assert DecimalString(t) == DecimalString(t / 10) + [DigitChar(t % 10)];
    assert DecimalString(t / 10) == [DigitChar(i / 100)];
    assert DecimalString(i) == DecimalString(t) + [DigitChar(i % 10)];
  }
}
