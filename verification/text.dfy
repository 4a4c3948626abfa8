/** Decimal rendering and reading of integers as JavaScript does it:
    Number.prototype.toString, String.prototype.padStart with "0" (the way
    date-fns pads its tokens) and Number(string) restricted to plain digit
    strings. */
module Text {

  import opened Seqs

  predicate IsDigit(c: char)
  {
    '0' <= c <= '9'
  }

  predicate AllDigits(s: string)
  {
    forall i :: 0 <= i < |s| ==> IsDigit(s[i])
  }

  function DigitChar(d: int): (c: char)
    requires 0 <= d < 10
    ensures IsDigit(c)
  {
    ((('0' as int) + d) as char)
  }

  function DigitValue(c: char): (d: int)
    requires IsDigit(c)
    ensures 0 <= d < 10
    ensures DigitChar(d) == c
  {
    (c as int) - ('0' as int)
  }

  function Pow10(k: nat): (r: nat)
    ensures r >= 1
  {
    if k == 0 then 1 else 10 * Pow10(k - 1)
  }

  /** The value of a string of decimal digits (the empty string reads as 0). */
  function ParseDigits(s: string): (n: nat)
    requires AllDigits(s)
    ensures n < Pow10(|s|)
  {
    if |s| == 0 then 0 else ParseDigits(s[..|s| - 1]) * 10 + DigitValue(s[|s| - 1])
  }

  /** Number.prototype.toString for a non-negative integer: no leading zeros. */
  function Decimal(n: nat): (s: string)
    ensures 1 <= |s|
    ensures AllDigits(s)
    ensures ParseDigits(s) == n
    ensures |s| > 1 ==> s[0] != '0'
    decreases n
  {
    if n < 10 then [DigitChar(n)]
    else
      var s := Decimal(n / 10) + [DigitChar(n % 10)];
      assert s[..|s| - 1] == Decimal(n / 10);
      s
  }

  /** Template-literal rendering of a JavaScript integer. */
  function IntToString(i: int): (s: string)
    ensures 1 <= |s|
  {
    if i < 0 then "-" + Decimal(-i) else Decimal(i)
  }

  /** A string of k zeros. */
  function Zeros(k: nat): (s: string)
    ensures |s| == k
    ensures AllDigits(s)
    ensures ParseDigits(s) == 0
  {
    if k == 0 then "" else
      var s := Zeros(k - 1) + "0";
      assert s[..|s| - 1] == Zeros(k - 1);
      s
  }

  /** Decimal(n) padded on the left with zeros to at least w characters: the
      date-fns helper that renders "yyyy", "MM", "dd", and toISOString's fields. */
  function ZeroPad(n: nat, w: nat): (s: string)
    ensures AllDigits(s)
    ensures ParseDigits(s) == n
    ensures |s| >= w
    ensures 1 <= w && n < Pow10(w) ==> |s| == w
  {
    var d := Decimal(n);
    if |d| >= w then
      (if n < Pow10(w) then DecimalShort(n, w); d else d)
    else
      ZerosPrefixValue(w - |d|, d);
      Zeros(w - |d|) + d
  }

  lemma {:induction false} ZerosPrefixValue(k: nat, s: string)
    requires AllDigits(s)
    ensures AllDigits(Zeros(k) + s)
    ensures ParseDigits(Zeros(k) + s) == ParseDigits(s)
    decreases |s|
  {
    if |s| > 0 {
      var z := Zeros(k) + s;
      assert z[..|z| - 1] == Zeros(k) + s[..|s| - 1];
      ZerosPrefixValue(k, s[..|s| - 1]);
    } else {
      assert Zeros(k) + s == Zeros(k);
    }
  }

  /** A number below 10^w needs at most w digits. */
  lemma {:induction false} DecimalShort(n: nat, w: nat)
    requires n < Pow10(w)
    ensures w == 0 || |Decimal(n)| <= w
    decreases w
  {
    if w > 1 && n >= 10 {
      DecimalShort(n / 10, w - 1);
    }
  }

  /** Two digit strings of the same length with the same value are equal. */
  lemma {:induction false} ParseDigitsInjective(s: string, t: string)
    requires AllDigits(s) && AllDigits(t) && |s| == |t|
    requires ParseDigits(s) == ParseDigits(t)
    ensures s == t
    decreases |s|
  {
    if |s| > 0 {
      var k := |s| - 1;
      assert DigitValue(s[k]) == DigitValue(t[k]);
      ParseDigitsInjective(s[..k], t[..k]);
      assert s == s[..k] + [s[k]];
      assert t == t[..k] + [t[k]];
    }
  }

  /** Padding the value of a w-digit string back to w characters restores it. */
  lemma PadParse(s: string)
    requires AllDigits(s) && 1 <= |s|
    ensures ZeroPad(ParseDigits(s), |s|) == s
  {
    var n := ParseDigits(s);
    ParseDigitsInjective(ZeroPad(n, |s|), s);
  }

  /** Number(s) for the strings the model feeds it: "" is 0, a digit string is
      its value, anything else is NaN (None). */
  function NumberOf(s: string): Option<nat>
  {
    if AllDigits(s) then Some(ParseDigits(s)) else None
  }
}
