/** The string operations the source relies on: decimal digits (`parseInt`
    of a two-digit group, `${n}` of an integer), `toLowerCase` and `join`. */
module Text {

  predicate IsDigit(c: char) {
    '0' <= c <= '9'
  }

  predicate AllDigits(s: string) {
    forall i :: 0 <= i < |s| ==> IsDigit(s[i])
  }

  function DigitValue(c: char): (d: nat)
    requires IsDigit(c)
    ensures d < 10
  {
    c as int - '0' as int
  }

  function DigitChar(d: nat): (c: char)
    requires d < 10
    ensures IsDigit(c) && DigitValue(c) == d
  {
    (d + '0' as int) as char
  }

  /** The value of a string of decimal digits, as `parseInt(s, 10)` reads it. */
  function DigitsValue(s: string): nat
    requires AllDigits(s)
    decreases |s|
  {
    if s == [] then 0 else DigitsValue(s[..|s| - 1]) * 10 + DigitValue(s[|s| - 1])
  }

  /** `${n}` for a non-negative integer: its shortest decimal numeral. */
  function NatToString(n: nat): (s: string)
    ensures |s| >= 1 && AllDigits(s)
    ensures (s[0] == '0') == (n == 0)
    decreases n
  {
    if n < 10 then [DigitChar(n)] else NatToString(n / 10) + [DigitChar(n % 10)]
  }

  /** Reading back the numeral of `n` gives `n`. */
  lemma {:induction false} NatToStringRoundTrip(n: nat)
    ensures DigitsValue(NatToString(n)) == n
  {
    var s := NatToString(n);
    if n >= 10 {
      NatToStringRoundTrip(n / 10);
      assert s[..|s| - 1] == NatToString(n / 10);
    }
  }

  /** Two numbers have the same numeral only if they are equal. */
  lemma NatToStringInjective(m: nat, n: nat)
    requires NatToString(m) == NatToString(n)
    ensures m == n
  {
    NatToStringRoundTrip(m);
    NatToStringRoundTrip(n);
  }

  /** `${i}` for an integer (JavaScript writes a negative integer with a leading '-'). */
  function IntToString(i: int): (s: string)
    ensures |s| >= 1 && (s[0] == '-') == (i < 0)
    ensures AllDigits(if i < 0 then s[1..] else s)
  {
    if i < 0 then "-" + NatToString(-i) else NatToString(i)
  }

  /** The digits of `${i}` read back as the magnitude of `i`, after a '-' exactly when `i` is negative. */
  lemma IntToStringValue(i: int)
    ensures var s := IntToString(i);
      |s| >= 1 && (s[0] == '-') == (i < 0) &&
      (i < 0 ==> s[1..] == NatToString(-i) && DigitsValue(s[1..]) == -i) &&
      (i >= 0 ==> DigitsValue(s) == i)
  {
    if i < 0 {
      NatToStringRoundTrip(-i);
      assert IntToString(i)[1..] == NatToString(-i);
    } else {
      NatToStringRoundTrip(i);
    }
  }

  /** `toLowerCase` on one character; only A to Z are mapped. */
  function LowerChar(c: char): char {
    if 'A' <= c <= 'Z' then (c as int + 32) as char else c
  }

  function ToLower(s: string): (r: string)
    ensures |r| == |s|
  {
    seq(|s|, i requires 0 <= i < |s| => LowerChar(s[i]))
  }

  lemma LowerCharIs(c: char, target: char)
    requires 'a' <= target <= 'z'
    ensures LowerChar(c) == target <==> c == target || c as int == target as int - 32
  {
  }

  /** The lower-cased string is "yes" exactly for the eight spellings of yes in any case. */
  lemma LowerIsYes(s: string)
    ensures ToLower(s) == "yes" <==>
      |s| == 3 && s[0] in "yY" && s[1] in "eE" && s[2] in "sS"
  {
    if |s| == 3 {
      LowerCharIs(s[0], 'y');
      LowerCharIs(s[1], 'e');
      LowerCharIs(s[2], 's');
      assert ToLower(s)[0] == LowerChar(s[0]);
      assert ToLower(s)[1] == LowerChar(s[1]);
      assert ToLower(s)[2] == LowerChar(s[2]);
    }
  }

  /** The lower-cased string is "no" exactly for "no", "No", "nO" and "NO". */
  lemma LowerIsNo(s: string)
    ensures ToLower(s) == "no" <==> |s| == 2 && s[0] in "nN" && s[1] in "oO"
  {
    if |s| == 2 {
      LowerCharIs(s[0], 'n');
      LowerCharIs(s[1], 'o');
      assert ToLower(s)[0] == LowerChar(s[0]);
      assert ToLower(s)[1] == LowerChar(s[1]);
    }
  }

  /** `xs.join(sep)`. */
  function Join(xs: seq<string>, sep: string): string
    decreases |xs|
  {
    if xs == [] then ""
    else if |xs| == 1 then xs[0]
    else xs[0] + sep + Join(xs[1..], sep)
  }
}
