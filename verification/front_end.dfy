/** The two input checks of the landing page script: the message shown
    under the phone field as the user types, and the guard that stops the
    newsletter signup on a blank email. */
module FrontEnd {
  import opened JsText

  const MobileOnlyMessage: string := "Please enter mobile number only."
  const TenDigitMessage: string := "Please enter a 10-digit mobile number."

  /** The text the phone input handler puts in the error element for the
      field's current value. The value is trimmed first; it must then match
      `^\d+$` and be ten characters long. */
  function PhoneError(value: string): (message: string)
    ensures message in {MobileOnlyMessage, TenDigitMessage, ""}
    ensures message == MobileOnlyMessage <==>
              Trim(value) == [] || exists i :: 0 <= i < |Trim(value)| && !IsAsciiDigit(Trim(value)[i])
    ensures message == TenDigitMessage ==> |Trim(value)| != 10
    ensures message == "" <==>
              |Trim(value)| == 10 && forall i :: 0 <= i < |Trim(value)| ==> IsAsciiDigit(Trim(value)[i])
  {
    var input := Trim(value);
    if !FullMatchPlus(input, IsAsciiDigit) then MobileOnlyMessage
    else if |input| != 10 then TenDigitMessage
    else ""
  }

  /** Only the trimmed value matters: whitespace around the value never
      changes the message. */
  lemma PhoneErrorIgnoresSurroundingWhitespace(before: string, value: string, after: string)
    requires AllWhitespace(before) && AllWhitespace(after)
    ensures PhoneError(before + value + after) == PhoneError(value)
  {
    TrimIgnoresSurroundingWhitespace(before, value, after);
  }

  /** A value whose trimmed text is a run of digits gets the ten-digit
      message exactly when the run is not ten long. */
  lemma PhoneErrorOfDigits(before: string, digits: string, after: string)
    requires AllWhitespace(before) && AllWhitespace(after)
    requires |digits| > 0 && forall i :: 0 <= i < |digits| ==> IsAsciiDigit(digits[i])
    ensures PhoneError(before + digits + after) == if |digits| == 10 then "" else TenDigitMessage
  {
    assert !IsJsWhitespace(digits[0]) && !IsJsWhitespace(digits[|digits| - 1]);
    TrimOfPadded(before, digits, after);
  }

  /** A character that is neither whitespace nor a digit anywhere in the
      value always gives the mobile-number-only message. */
  lemma PhoneErrorOfNonDigit(value: string, i: int)
    requires 0 <= i < |value|
    requires !IsJsWhitespace(value[i]) && !IsAsciiDigit(value[i])
    ensures PhoneError(value) == MobileOnlyMessage
  {
    var lo := LeadingWhitespace(value);
    var hi := TrailingStart(value);
    assert lo <= i < hi;
    assert Trim(value)[i - lo] == value[i];
  }

  /** A blank value (nothing but whitespace, or nothing at all) gives the
      mobile-number-only message, since `^\d+$` needs at least one digit. */
  lemma PhoneErrorOfBlank(value: string)
    requires AllWhitespace(value)
    ensures PhoneError(value) == MobileOnlyMessage
  {
  }

  /** Whether the signup button handler goes on past its guard: the email
      must hold some character that is not whitespace. */
  function SignupProceeds(email: string): (proceed: bool)
    ensures proceed <==> exists i :: 0 <= i < |email| && !IsJsWhitespace(email[i])
  {
    Trim(email) != ""
  }
}
