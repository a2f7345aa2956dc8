/**
 * The input validators of the three snapshots (car_rental_system/util,
 * app/util and the top-level validation module) and their prompt loops.
 *
 * `str.isdigit` and the regex class `\d` are modelled on ASCII '0'..'9'.
 */
module Validation {
  import opened Base

  predicate IsAsciiDigit(c: char) {
    '0' <= c <= '9'
  }

  /** Every character is a digit (vacuously true of ""). */
  ghost predicate AllDigits(s: string) {
    forall i :: 0 <= i < |s| ==> IsAsciiDigit(s[i])
  }

  function DigitsOnly(s: string): (r: bool)
    ensures r <==> AllDigits(s)
  {
    if |s| == 0 then true
    else
      var rest := DigitsOnly(s[1..]);
      assert forall i :: 1 <= i < |s| ==> s[1..][i - 1] == s[i];
      IsAsciiDigit(s[0]) && rest
  }

  /**
   * `validate_digit` / `validate_id`: Python's `str.isdigit`, which is
   * false on the empty string.
   */
  function ValidateDigit(s: string): (ok: bool)
    ensures ok <==> |s| > 0 && AllDigits(s)
  {
    |s| > 0 && DigitsOnly(s)
  }

  /** Python's `str.count` for a single character. */
  function Count(s: string, c: char): (n: nat)
    ensures n == 0 <==> forall i :: 0 <= i < |s| ==> s[i] != c
    ensures n <= |s|
  {
    if |s| == 0 then 0
    else
      var rest := Count(s[1..], c);
      assert forall i :: 1 <= i < |s| ==> s[1..][i - 1] == s[i];
      (if s[0] == c then 1 else 0) + rest
  }

  /** `c` occurs at exactly one index of `s`. */
  ghost predicate ExactlyOnce(s: string, c: char) {
    exists i :: 0 <= i < |s| && s[i] == c && forall j :: 0 <= j < |s| && j != i ==> s[j] != c
  }

  lemma {:induction false} CountOneIff(s: string, c: char)
    ensures Count(s, c) == 1 <==> ExactlyOnce(s, c)
    decreases |s|
  {
    if |s| > 0 {
      var t := s[1..];
      assert forall i :: 1 <= i < |s| ==> t[i - 1] == s[i];
      CountOneIff(t, c);
      if Count(s, c) == 1 {
        if s[0] == c {
          assert forall j :: 0 <= j < |s| && j != 0 ==> s[j] != c;
        } else {
          var i :| 0 <= i < |t| && t[i] == c && forall j :: 0 <= j < |t| && j != i ==> t[j] != c;
          assert forall j :: 0 <= j < |s| && j != i + 1 ==> s[j] != c by {
            forall j | 0 <= j < |s| && j != i + 1 ensures s[j] != c {
              if j > 0 { assert t[j - 1] == s[j]; }
            }
          }
        }
      }
      if ExactlyOnce(s, c) {
        var i :| 0 <= i < |s| && s[i] == c && forall j :: 0 <= j < |s| && j != i ==> s[j] != c;
        if i == 0 {
          assert forall j :: 0 <= j < |t| ==> t[j] != c by {
            forall j | 0 <= j < |t| ensures t[j] != c { assert t[j] == s[j + 1]; }
          }
        } else {
          assert t[i - 1] == c;
          assert forall j :: 0 <= j < |t| && j != i - 1 ==> t[j] != c by {
            forall j | 0 <= j < |t| && j != i - 1 ensures t[j] != c { assert t[j] == s[j + 1]; }
          }
          assert ExactlyOnce(t, c);
        }
      }
    }
  }

  /** `validate_email`: exactly one '@' and at least one '.'. */
  function ValidateEmail(s: string): (ok: bool)
    ensures ok <==> ExactlyOnce(s, '@') && exists j :: 0 <= j < |s| && s[j] == '.'
  {
    CountOneIff(s, '@');
    Count(s, '@') == 1 && Count(s, '.') > 0
  }

  /** `validate_phone` of car_rental_system/util: ten digits exactly. */
  function ValidatePhone(s: string): (ok: bool)
    ensures ok <==> |s| == 10 && AllDigits(s)
  {
    ValidateDigit(s) && |s| == 10
  }

  /** `validate_phone` of app/util: any non-empty digit string, no length bound. */
  function ValidatePhoneAnyLength(s: string): (ok: bool)
    ensures ok <==> |s| > 0 && AllDigits(s)
    ensures |s| == 10 ==> (ok <==> ValidatePhone(s))
  {
    ValidateDigit(s)
  }

  /**
   * `validate_phone` of the top-level validation module: True for ten
   * digits, otherwise it falls off the end and returns None (never False).
   */
  function ValidatePhoneOrNone(s: string): (r: Option<bool>)
    ensures r == Some(true) <==> ValidatePhone(s)
    ensures r != Some(false)
  {
    if ValidateDigit(s) && |s| == 10 then Some(true) else None
  }

  /** Python truthiness of a validator's return value. */
  predicate Truthy(r: Option<bool>) {
    r.Some? && r.value
  }

  /**
   * The regular expression `^\d+\.\d{2}$` without its end-of-line subtlety:
   * one or more digits, a dot, then exactly two digits.
   */
  ghost predicate PriceShape(t: string) {
    exists k :: 1 <= k && k + 3 == |t| && AllDigits(t[..k]) && t[k] == '.' && AllDigits(t[k + 1..])
  }

  /**
   * What `re.match(r"^\d+\.\d{2}$", s)` accepts: Python's `$` also matches
   * just before a single trailing newline.
   */
  ghost predicate PriceRegexMatches(s: string) {
    PriceShape(s) || (|s| > 0 && s[|s| - 1] == '\n' && PriceShape(s[..|s| - 1]))
  }

  /** The price shape checked at the one position where the dot must be. */
  function PriceShapeAt(t: string): (ok: bool)
    ensures ok <==> PriceShape(t)
  {
    if |t| < 4 then false
    else
      var k := |t| - 3;
      var ok := DigitsOnly(t[..k]) && t[k] == '.' && DigitsOnly(t[k + 1..]);
      assert ok ==> PriceShape(t);
      ok
  }

  /**
   * `validate_price`: the regex match; the `Decimal(price)` conversion that
   * follows cannot fail on such a string, since `Decimal` strips the newline.
   */
  function ValidatePrice(s: string): (ok: bool)
    ensures ok <==> PriceRegexMatches(s)
  {
    PriceShapeAt(s) || (|s| > 0 && s[|s| - 1] == '\n' && PriceShapeAt(s[..|s| - 1]))
  }

  function DigitValue(c: char): nat
    requires IsAsciiDigit(c)
  {
    (c - '0') as nat
  }

  /** The number a non-empty digit string denotes, read most significant first. */
  function DigitsValue(s: string): nat
    requires AllDigits(s)
  {
    if |s| == 0 then 0
    else DigitsValue(s[..|s| - 1]) * 10 + DigitValue(s[|s| - 1])
  }

  /**
   * Python's `int(s)` restricted to an optional sign followed by one or more
   * ASCII digits; anything else raises ValueError, modelled as None.
   */
  function ParseInt(s: string): (r: Option<int>)
    ensures r.Some? <==> (|s| > 0 && AllDigits(s)) || (|s| > 1 && (s[0] == '-' || s[0] == '+') && AllDigits(s[1..]))
    ensures |s| > 0 && AllDigits(s) ==> r == Some(DigitsValue(s))
    ensures |s| > 1 && s[0] == '+' && AllDigits(s[1..]) ==> r == Some(DigitsValue(s[1..]))
    ensures |s| > 1 && s[0] == '-' && AllDigits(s[1..]) ==> r == Some(-(DigitsValue(s[1..]) as int))
  {
    if |s| > 0 && (s[0] == '-' || s[0] == '+') then
      var body := s[1..];
      if |body| > 0 && DigitsOnly(body) then
        Some(if s[0] == '-' then -(DigitsValue(body) as int) else DigitsValue(body))
      else None
    else if |s| > 0 && DigitsOnly(s) then Some(DigitsValue(s))
    else None
  }

  /** `str(n)` for a natural number. */
  function NatToString(n: nat): (s: string)
    ensures |s| > 0 && AllDigits(s)
  {
    var d := ['0' + (n % 10) as char];
    if n < 10 then d else NatToString(n / 10) + d
  }

  lemma {:induction false} DigitsValueOfNatToString(n: nat)
    ensures DigitsValue(NatToString(n)) == n
  {
    var s := NatToString(n);
    if n >= 10 {
      DigitsValueOfNatToString(n / 10);
      assert s[..|s| - 1] == NatToString(n / 10);
    }
  }

  /** `int(str(n)) == n`: the parser inverts decimal rendering. */
  lemma ParseIntRoundTrip(n: nat)
    ensures ParseInt(NatToString(n)) == Some(n)
  {
    DigitsValueOfNatToString(n);
  }

  /**
   * `validate_year`: the string parses to an integer between 1900 and the
   * year after `currentYear` (today's year, a parameter here).
   */
  function ValidateYear(s: string, currentYear: int): (ok: bool)
    ensures ok ==> |s| > 0
    ensures ok <==> exists n :: ParseInt(s) == Some(n) && 1900 <= n <= currentYear + 1
  {
    match ParseInt(s)
    case None => false
    case Some(n) => 1900 <= n <= currentYear + 1
  }

  /** The rendered current year is accepted, whatever it is. */
  lemma CurrentYearAccepted(currentYear: nat)
    requires 1900 <= currentYear
    ensures ValidateYear(NatToString(currentYear), currentYear)
  {
    ParseIntRoundTrip(currentYear);
  }

  /** A year two past the current one is refused. */
  lemma YearAfterNextRefused(currentYear: nat)
    ensures !ValidateYear(NatToString(currentYear + 2), currentYear)
  {
    ParseIntRoundTrip(currentYear + 2);
  }

  // ---------------------------------------------------------------------
  // Prompt loops. `Prompt.ask` is modelled by a finite sequence of answers;
  // None means the answers ran out before one was accepted (the source
  // would keep prompting).
  // ---------------------------------------------------------------------

  /** The first answer that `accepts` admits, scanning in order. */
  method FirstAccepted(answers: seq<string>, accepts: string -> bool) returns (r: Option<string>)
    ensures r.None? <==> forall k :: 0 <= k < |answers| ==> !accepts(answers[k])
    ensures r.Some? ==> exists k :: 0 <= k < |answers| && answers[k] == r.value && accepts(r.value)
                               && forall j :: 0 <= j < k ==> !accepts(answers[j])
  {
    var i := 0;
    while i < |answers|
      invariant 0 <= i <= |answers|
      invariant forall j :: 0 <= j < i ==> !accepts(answers[j])
    {
      if accepts(answers[i]) {
        return Some(answers[i]);
      }
      i := i + 1;
    }
    return None;
  }

  /**
   * Acceptance test of car_rental_system's `get_validated_input`: an empty
   * answer ends an optional prompt, otherwise the validator (if any) decides.
   */
  predicate AcceptsOptionalFirst(validator: Option<string -> bool>, optional: bool, v: string) {
    (optional && v == "") || validator.None? || validator.value(v)
  }

  /** `get_validated_input(prompt, validator, optional)` of car_rental_system/util. */
  method GetValidatedInput(answers: seq<string>, validator: Option<string -> bool>, optional: bool)
    returns (r: Option<string>)
    ensures r.Some? ==> r.value in answers
    ensures r.Some? && r.value != "" && validator.Some? ==> validator.value(r.value)
    ensures r.Some? && validator.Some? && !optional ==> validator.value(r.value)
    ensures r.None? <==> forall k :: 0 <= k < |answers| ==> !AcceptsOptionalFirst(validator, optional, answers[k])
    ensures optional && |answers| > 0 && answers[0] == "" ==> r == Some("")
    ensures r.Some? ==> exists k :: 0 <= k < |answers| && answers[k] == r.value
                                    && AcceptsOptionalFirst(validator, optional, r.value)
                                    && forall j :: 0 <= j < k ==> !AcceptsOptionalFirst(validator, optional, answers[j])
  {
    r := FirstAccepted(answers, v => AcceptsOptionalFirst(validator, optional, v));
  }

  /**
   * Acceptance test of app's `get_validated_input`: an empty answer is
   * returned only when optional and is otherwise re-prompted; a non-empty
   * one must pass the validator, if any.
   */
  predicate AcceptsNonEmptyUnlessOptional(validator: Option<string -> bool>, optional: bool, v: string) {
    if v == "" then optional else validator.None? || validator.value(v)
  }

  /** `get_validated_input(prompt, error, validator, optional)` of app/util. */
  method GetValidatedInputRequired(answers: seq<string>, validator: Option<string -> bool>, optional: bool)
    returns (r: Option<string>)
    ensures r.Some? ==> r.value in answers
    ensures r.Some? && !optional ==> r.value != ""
    ensures r.Some? && r.value != "" && validator.Some? ==> validator.value(r.value)
    ensures optional && |answers| > 0 && answers[0] == "" ==> r == Some("")
    ensures r.None? <==> forall k :: 0 <= k < |answers| ==> !AcceptsNonEmptyUnlessOptional(validator, optional, answers[k])
    ensures r.Some? ==> exists k :: 0 <= k < |answers| && answers[k] == r.value
                                    && AcceptsNonEmptyUnlessOptional(validator, optional, r.value)
                                    && forall j :: 0 <= j < k ==> !AcceptsNonEmptyUnlessOptional(validator, optional, answers[j])
  {
    r := FirstAccepted(answers, v => AcceptsNonEmptyUnlessOptional(validator, optional, v));
  }

  /** `get_validated_input(prompt, validator)` of the top-level validation module. */
  method GetValidatedInputAny(answers: seq<string>, validator: Option<string -> bool>)
    returns (r: Option<string>)
    ensures r.Some? ==> r.value in answers
    ensures r.Some? && validator.Some? ==> validator.value(r.value)
    ensures validator.None? && |answers| > 0 ==> r == Some(answers[0])
    ensures r.None? <==> forall k :: 0 <= k < |answers| ==> !(validator.None? || validator.value(answers[k]))
    ensures r.Some? ==> exists k :: 0 <= k < |answers| && answers[k] == r.value
                                    && (validator.None? || validator.value(r.value))
                                    && forall j :: 0 <= j < k ==> !(validator.None? || validator.value(answers[j]))
  {
    r := FirstAccepted(answers, v => validator.None? || validator.value(v));
  }

  // ---------------------------------------------------------------------
  // The cases of tests/test_validation.py, as facts about the model.
  // ---------------------------------------------------------------------

  lemma DigitExamples()
    ensures ValidateDigit("1")
    ensures !ValidateDigit("-1") && !ValidateDigit("abc") && !ValidateDigit("12.3")
    ensures !ValidateDigit("") && !ValidateDigit("123abc")
  {
    assert !IsAsciiDigit("-1"[0]);
    assert !IsAsciiDigit("abc"[0]);
    assert !IsAsciiDigit("12.3"[2]);
    assert !IsAsciiDigit("123abc"[3]);
  }

  lemma EmailAccepted()
    ensures ValidateEmail("test@example.com")
  {
    var s := "test@example.com";
    assert s[4] == '@' && s[12] == '.';
    assert forall j :: 0 <= j < |s| && j != 4 ==> s[j] != '@';
    assert ExactlyOnce(s, '@');
  }

  lemma EmailRefused()
    ensures !ValidateEmail("invalid.email") && !ValidateEmail("test@multiple@at.com")
    ensures !ValidateEmail("") && !ValidateEmail("test@nodot")
  {
    var two := "test@multiple@at.com";
    assert two[4] == '@' && two[13] == '@';
    assert forall j :: 0 <= j < |"test@nodot"| ==> "test@nodot"[j] != '.';
    assert forall j :: 0 <= j < |"invalid.email"| ==> "invalid.email"[j] != '@';
  }

  lemma PhoneExamples()
    ensures ValidatePhone("1234567890")
    ensures !ValidatePhone("123456789") && !ValidatePhone("12345678901")
    ensures !ValidatePhone("abcdefghij") && !ValidatePhone("")
    ensures ValidatePhoneAnyLength("123456789") && ValidatePhoneAnyLength("12345678901")
    ensures ValidatePhoneOrNone("abcdefghij") == None
  {
    assert !IsAsciiDigit("abcdefghij"[0]);
    assert AllDigits("1234567890");
    assert AllDigits("123456789");
    assert AllDigits("12345678901");
  }

  lemma PriceExamples()
    ensures ValidatePrice("100.00")
    ensures !ValidatePrice("100") && !ValidatePrice("1.2.3") && !ValidatePrice("abc")
    ensures !ValidatePrice("12b") && !ValidatePrice("100.0023") && !ValidatePrice("-1")
    ensures ValidatePrice("100.00\n")
  {
    assert "100.00\n"[..6] == "100.00";
    assert !IsAsciiDigit("1.2.3"[1]);
    assert "100.0023"[5] != '.';
  }

  lemma YearExamples()
    ensures ValidateYear("1950", 2026)
    ensures !ValidateYear("1899", 2026)
    ensures !ValidateYear("abc", 2026) && !ValidateYear("", 2026)
  {
    assert DigitsValue("1") == 1;
    assert DigitsValue("19") == 19 by { assert "19"[..1] == "1"; }
    assert DigitsValue("195") == 195 by { assert "195"[..2] == "19"; }
    assert DigitsValue("1950") == 1950 by { assert "1950"[..3] == "195"; }
    assert DigitsValue("18") == 18 by { assert "18"[..1] == "1"; }
    assert DigitsValue("189") == 189 by { assert "189"[..2] == "18"; }
    assert DigitsValue("1899") == 1899 by { assert "1899"[..3] == "189"; }
    assert !IsAsciiDigit("abc"[0]);
  }
}
