/** Request validation of the two signup endpoints (app/schemas/user_schemas.py).

    The source states its formats as regular expressions. Both are anchored at
    both ends and use only literals and `\d` with a fixed repetition count, so a
    pattern here is a sequence of atoms, each matching exactly one character,
    and matching is a full match. `\d` is read as an ASCII digit. */
module Schemas {
  import opened Wrappers

  /** One position of an anchored, fixed-length pattern. */
  datatype Atom = Lit(c: char) | Digit

  predicate IsDigit(c: char) {
    '0' <= c <= '9'
  }

  predicate AllDigits(s: string) {
    forall i :: 0 <= i < |s| ==> IsDigit(s[i])
  }

  predicate AtomMatches(a: Atom, c: char) {
    match a
    case Lit(l) => c == l
    case Digit => IsDigit(c)
  }

  /** `a{n}` */
  function Repeat(a: Atom, n: nat): (p: seq<Atom>)
    ensures |p| == n
    ensures forall i :: 0 <= i < n ==> p[i] == a
  {
    if n == 0 then [] else [a] + Repeat(a, n - 1)
  }

  /** `^p$`: the pattern consumes the whole string, atom by atom. */
  predicate FullMatch(p: seq<Atom>, s: string)
    decreases |p|
  {
    if p == [] then s == []
    else s != [] && AtomMatches(p[0], s[0]) && FullMatch(p[1..], s[1..])
  }

  /** A full match is a position-wise match of equal-length pattern and string. */
  lemma {:induction false} FullMatchPointwise(p: seq<Atom>, s: string)
    ensures FullMatch(p, s) <==>
              |p| == |s| && forall i :: 0 <= i < |s| ==> AtomMatches(p[i], s[i])
    decreases |p|
  {
    if p != [] && s != [] {
      FullMatchPointwise(p[1..], s[1..]);
      if |p| == |s| && forall i :: 0 <= i < |s| ==> AtomMatches(p[i], s[i]) {
        forall i | 0 <= i < |s| - 1 ensures AtomMatches(p[1..][i], s[1..][i]) {
          assert AtomMatches(p[i + 1], s[i + 1]);
        }
      }
      if FullMatch(p, s) {
        forall i | 0 <= i < |s| ensures AtomMatches(p[i], s[i]) {
          if i > 0 {
            assert AtomMatches(p[1..][i - 1], s[1..][i - 1]);
          }
        }
      }
    }
  }

  const PHONE_PREFIX: string := "+91"

  /** `^\+91\d{10}$` */
  const PHONE_REGEX: seq<Atom> := [Lit('+'), Lit('9'), Lit('1')] + Repeat(Digit, 10)

  /** `^\d{6}$` */
  const OTP_REGEX: seq<Atom> := Repeat(Digit, 6)

  const OTP_MIN_LENGTH: nat := 6
  const OTP_MAX_LENGTH: nat := 6

  const INVALID_MOBILE_MESSAGE: string :=
    "Invalid mobile number. Must be an Indian mobile number in E.164 format (e.g. +919876543210)"

  datatype ValidationError =
    | ValueError(message: string)       // raised by a field validator
    | ConstraintViolation(field: string) // a declarative `Field(...)` constraint failed

  /** A mobile number in the accepted shape: "+91" and ten digits, 13 characters. */
  predicate IsIndianMobile(v: string) {
    |v| == 13 && v[..3] == PHONE_PREFIX && AllDigits(v[3..])
  }

  /** The phone pattern matches exactly the numbers of the accepted shape. */
  lemma PhoneRegexIff(v: string)
    ensures FullMatch(PHONE_REGEX, v) <==> IsIndianMobile(v)
  {
    FullMatchPointwise(PHONE_REGEX, v);
    if |v| == 13 && FullMatch(PHONE_REGEX, v) {
      assert forall i :: 0 <= i < 3 ==> v[i] == PHONE_PREFIX[i];
      assert forall i :: 0 <= i < 10 ==> v[3..][i] == v[i + 3];
    }
    if IsIndianMobile(v) {
      assert forall i :: 0 <= i < 3 ==> v[i] == v[..3][i];
      assert forall i :: 0 <= i < 10 ==> IsDigit(v[3..][i]) && v[3..][i] == v[i + 3];
    }
  }

  /** `UserCreate.validate_mobile`: returns its input unchanged when the phone
      pattern matches, and raises a ValueError otherwise. */
  function ValidateMobile(v: string): (r: Result<string, ValidationError>)
    ensures r.Success? <==> IsIndianMobile(v)
    ensures r.Success? ==> r.value == v
    ensures r.Failure? ==> r.error == ValueError(INVALID_MOBILE_MESSAGE)
  {
    PhoneRegexIff(v);
    if FullMatch(PHONE_REGEX, v) then Success(v) else Failure(ValueError(INVALID_MOBILE_MESSAGE))
  }

  /** Every string that does not start with "+91" is rejected. */
  lemma RejectsWithoutPrefix(v: string)
    requires |v| < 3 || v[..3] != PHONE_PREFIX
    ensures ValidateMobile(v) == Failure(ValueError(INVALID_MOBILE_MESSAGE))
  {
  }

  /** A non-digit among the last ten characters is rejected. */
  lemma RejectsNonDigitTail(v: string, i: int)
    requires 3 <= i < |v| && !IsDigit(v[i])
    ensures ValidateMobile(v).Failure?
  {
    if |v| == 13 {
      assert !IsDigit(v[3..][i - 3]);
    }
  }

  /** The `otp_code` field: `min_length=6, max_length=6, pattern=^\d{6}$`.
      Together the three hold exactly of six-digit strings. */
  predicate OtpCodeAccepted(code: string)
    ensures OtpCodeAccepted(code) <==> |code| == 6 && AllDigits(code)
  {
    FullMatchPointwise(OTP_REGEX, code);
    OTP_MIN_LENGTH <= |code| <= OTP_MAX_LENGTH && FullMatch(OTP_REGEX, code)
  }

  /** A validated body of the verify endpoint. */
  datatype VerifyRequest = VerifyRequest(mobileNumber: string, otpCode: string)

  /** `UserVerify`: `mobile_number` is any string, only `otp_code` is constrained. */
  function ValidateVerify(mobileNumber: string, otpCode: string): (r: Result<VerifyRequest, ValidationError>)
    ensures r.Success? <==> |otpCode| == 6 && AllDigits(otpCode)
    ensures r.Success? ==> r.value == VerifyRequest(mobileNumber, otpCode)
  {
    if OtpCodeAccepted(otpCode) then Success(VerifyRequest(mobileNumber, otpCode))
    else Failure(ConstraintViolation("otp_code"))
  }

  /** The verify endpoint does not check the number's format: with a six-digit
      code, every mobile number string is accepted, including ones `ValidateMobile`
      rejects. */
  lemma VerifyAcceptsAnyMobile(mobileNumber: string, otpCode: string)
    requires |otpCode| == 6 && AllDigits(otpCode)
    ensures ValidateVerify(mobileNumber, otpCode) == Success(VerifyRequest(mobileNumber, otpCode))
  {
  }
}
