/** Decimal and hexadecimal digit strings: Python's `int(s)`, `int(s, 16)`,
    `str(n)` and the zero-padded format `f"{n:0Wd}"`, as far as the file names
    of the three programs need them. */
module DecimalText {

  predicate IsDigit(c: char) { '0' <= c <= '9' }

  predicate IsHexDigit(c: char) { IsDigit(c) || 'a' <= c <= 'f' || 'A' <= c <= 'F' }

  predicate AllDigits(s: string) { forall i :: 0 <= i < |s| ==> IsDigit(s[i]) }

  predicate AllHexDigits(s: string) { forall i :: 0 <= i < |s| ==> IsHexDigit(s[i]) }

  function Pow10(k: nat): (p: nat)
    ensures p >= 1
  {
    if k == 0 then 1 else 10 * Pow10(k - 1)
  }

  /** The value of one hexadecimal digit (a decimal digit is one too). */
  function DigitValue(c: char): (v: nat)
    requires IsHexDigit(c)
    ensures v < 16
    ensures IsDigit(c) ==> v < 10
  {
    if IsDigit(c) then c as int - '0' as int
    else if 'a' <= c <= 'f' then c as int - 'a' as int + 10
    else c as int - 'A' as int + 10
  }

  /** `int(s)` for a non-negative string of ASCII decimal digits (leading zeros allowed). */
  function DecValue(s: string): (v: nat)
    requires AllDigits(s)
    ensures v < Pow10(|s|)
  {
    if s == [] then 0
    else
      var init := s[..|s| - 1];
      assert AllDigits(init);
      var d := DigitValue(s[|s| - 1]);
      assert DecValue(init) * 10 <= (Pow10(|init|) - 1) * 10;
      DecValue(init) * 10 + d
  }

  /** `int(s, 16)` for a string of ASCII hexadecimal digits. */
  function HexValue(s: string): nat
    requires AllHexDigits(s)
  {
    if s == [] then 0
    else
      assert AllHexDigits(s[..|s| - 1]);
      HexValue(s[..|s| - 1]) * 16 + DigitValue(s[|s| - 1])
  }

  function DigitChar(d: nat): (c: char)
    requires d < 10
    ensures IsDigit(c) && DigitValue(c) == d
  {
    ('0' as int + d) as char
  }

  /** `str(n)` for `n >= 0`: the shortest decimal spelling, which `int` reads back as `n`. */
  function Dec(n: nat): (s: string)
    ensures 1 <= |s| && AllDigits(s)
    ensures DecValue(s) == n
    decreases n
  {
    if n < 10 then [DigitChar(n)]
    else
      var s := Dec(n / 10) + [DigitChar(n % 10)];
      assert s[..|s| - 1] == Dec(n / 10);
      s
  }

  lemma {:induction false} DecLength(n: nat, k: nat)
    requires 1 <= k && n < Pow10(k)
    ensures |Dec(n)| <= k
    decreases k
  {
    if n >= 10 {
      assert k >= 2;
      DecLength(n / 10, k - 1);
    }
  }

  function ZeroDigits(k: nat): (s: string)
    ensures |s| == k && AllDigits(s)
  {
    if k == 0 then [] else ZeroDigits(k - 1) + ['0']
  }

  lemma {:induction false} LeadingZerosIgnored(k: nat, s: string)
    requires AllDigits(s)
    ensures AllDigits(ZeroDigits(k) + s) && DecValue(ZeroDigits(k) + s) == DecValue(s)
    decreases |s|, k
  {
    var z := ZeroDigits(k) + s;
    assert AllDigits(z);
    if s == [] {
      assert z == ZeroDigits(k);
      if k > 0 {
        assert z[..|z| - 1] == ZeroDigits(k - 1) + [];
        LeadingZerosIgnored(k - 1, []);
      }
    } else {
      var init := s[..|s| - 1];
      assert z[..|z| - 1] == ZeroDigits(k) + init;
      LeadingZerosIgnored(k, init);
    }
  }

  /** `f"{n:0{width}d}"`: the decimal spelling of `n`, left-padded with zeros to at least `width` characters. */
  function PadDec(n: nat, width: nat): (s: string)
    ensures AllDigits(s) && DecValue(s) == n
    ensures |s| == if |Dec(n)| < width then width else |Dec(n)|
  {
    var digits := Dec(n);
    var pad := if |digits| < width then width - |digits| else 0;
    LeadingZerosIgnored(pad, digits);
    ZeroDigits(pad) + digits
  }

  /** `str(c)` for any integer: a minus sign before the digits of a negative value. */
  function IntToString(c: int): string
  {
    if c < 0 then "-" + Dec(-c) else Dec(c)
  }
}
