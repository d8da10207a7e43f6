/** OTP generation (app/services/twilio_service.py, `TwilioService.generate_otp`).

    The source renders `random.randint(100000, 999999)` with `str`. The random
    draw is a parameter here; `DecimalString` is Python's `str` on a
    non-negative integer and `DecimalValue` reads such a string back. */
module Twilio {
  import opened Schemas

  const OTP_MIN: int := 100000
  const OTP_MAX: int := 999999

  function Pow10(k: nat): (p: nat)
    ensures p >= 1
  {
    if k == 0 then 1 else 10 * Pow10(k - 1)
  }

  function DigitChar(d: nat): (c: char)
    requires d < 10
    ensures IsDigit(c)
  {
    (('0' as int) + d) as char
  }

  function DigitValue(c: char): (d: nat)
    requires IsDigit(c)
    ensures d < 10
  {
    (c as int) - ('0' as int)
  }

  /** `str(n)` for `n >= 0`: most significant digit first, no leading zero. */
  function DecimalString(n: nat): (s: string)
    ensures |s| >= 1 && AllDigits(s)
    ensures n >= 1 ==> s[0] != '0'
    decreases n
  {
    if n < 10 then [DigitChar(n)] else DecimalString(n / 10) + [DigitChar(n % 10)]
  }

  /** The integer a string of decimal digits denotes. */
  function DecimalValue(s: string): nat
    requires AllDigits(s)
    decreases |s|
  {
    if s == [] then 0 else DecimalValue(s[..|s| - 1]) * 10 + DigitValue(s[|s| - 1])
  }

  /** Reading a rendered number gives the number back. */
  lemma {:induction false} DecimalRoundTrip(n: nat)
    ensures DecimalValue(DecimalString(n)) == n
    decreases n
  {
    var s := DecimalString(n);
    if n >= 10 {
      DecimalRoundTrip(n / 10);
      assert s[..|s| - 1] == DecimalString(n / 10);
    }
  }

  /** A number with k digits renders as k characters. */
  lemma {:induction false} DecimalLength(n: nat, k: nat)
    requires k >= 1 && Pow10(k - 1) <= n < Pow10(k)
    ensures |DecimalString(n)| == k
    decreases k
  {
    if k > 1 {
      assert Pow10(k - 1) == 10 * Pow10(k - 2);
      assert n / 10 >= Pow10(k - 2) by {
        assert n >= 10 * Pow10(k - 2);
      }
      assert n / 10 < Pow10(k - 1) by {
        assert n < 10 * Pow10(k - 1);
      }
      DecimalLength(n / 10, k - 1);
    }
  }

  /** Bounds on the value of a k-character digit string. */
  lemma {:induction false} DecimalValueBounds(s: string)
    requires AllDigits(s) && |s| >= 1
    ensures DecimalValue(s) < Pow10(|s|)
    ensures s[0] != '0' ==> DecimalValue(s) >= Pow10(|s| - 1)
    decreases |s|
  {
    var t := s[..|s| - 1];
    if |s| > 1 {
      DecimalValueBounds(t);
      assert t[0] == s[0];
    }
  }

  /** A digit string without a leading zero is the rendering of its value. */
  lemma {:induction false} DecimalStringOfValue(s: string)
    requires AllDigits(s) && |s| >= 1 && s[0] != '0'
    ensures DecimalString(DecimalValue(s)) == s
    decreases |s|
  {
    var t := s[..|s| - 1];
    var d := DigitValue(s[|s| - 1]);
    if |s| == 1 {
      assert DigitChar(d) == s[0];
    } else {
      assert t[0] == s[0];
      DecimalValueBounds(t);
      DecimalStringOfValue(t);
      var n := DecimalValue(t) * 10 + d;
      assert n / 10 == DecimalValue(t) && n % 10 == d;
      assert DigitChar(d) == s[|s| - 1];
      assert s == t + [s[|s| - 1]];
    }
  }

  /** `generate_otp`, given the integer `random.randint(100000, 999999)` drew. */
  function GenerateOtp(draw: int): (code: string)
    requires OTP_MIN <= draw <= OTP_MAX
    ensures |code| == 6 && AllDigits(code) && code[0] != '0'
    ensures DecimalValue(code) == draw
  {
    assert Pow10(5) == OTP_MIN && Pow10(6) == OTP_MAX + 1;
    DecimalLength(draw, 6);
    DecimalRoundTrip(draw);
    DecimalString(draw)
  }

  /** Every generated code passes the `otp_code` constraint of the verify request. */
  lemma GeneratedCodeAccepted(draw: int)
    requires OTP_MIN <= draw <= OTP_MAX
    ensures OtpCodeAccepted(GenerateOtp(draw))
  {
  }

  /** Distinct draws give distinct codes. */
  lemma GenerateOtpInjective(a: int, b: int)
    requires OTP_MIN <= a <= OTP_MAX && OTP_MIN <= b <= OTP_MAX
    requires GenerateOtp(a) == GenerateOtp(b)
    ensures a == b
  {
  }

  /** The codes that can be generated are exactly the six-digit strings whose
      first digit is not '0'. */
  lemma GeneratedCodesExactly(code: string)
    requires |code| == 6 && AllDigits(code) && code[0] != '0'
    ensures OTP_MIN <= DecimalValue(code) <= OTP_MAX
    ensures GenerateOtp(DecimalValue(code)) == code
  {
    DecimalValueBounds(code);
    DecimalStringOfValue(code);
  }
}
