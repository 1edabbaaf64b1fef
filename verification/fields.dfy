/** The validated field types of a contact: a phone number and a birthday.
    A contact's name is an arbitrary string and needs no type of its own. */
module Fields {
  import opened Results
  import opened Text
  import opened Calendar
  import opened DateText

  /** A phone number; only `NewPhone` makes one from raw input. */
  datatype Phone = Phone(value: string)

  /** The invariant every stored phone keeps: ten ASCII digits. */
  predicate ValidPhone(p: Phone) {
    |p.value| == 10 && forall i :: 0 <= i < 10 ==> IsDigit(p.value[i])
  }

  /** The two ways `CheckPhoneNumber` is raised, with the rejected text. */
  datatype PhoneError = NotDigit(value: string) | WrongLength(value: string)

  /** The message `CheckPhoneNumber` carries. */
  function PhoneErrorMessage(e: PhoneError): string {
    match e
    case NotDigit(v) => "Phone " + v + " is not digit"
    case WrongLength(v) => "Phone " + v + " > 10 digits"
  }

  /** `str.isdigit` restricted to ASCII: non-empty and digits only. */
  predicate IsDigitString(s: string) {
    |s| > 0 && AllDigits(s)
  }

  /** `Phone(value)`: the digit check runs first, then the length check; the
      accepted text is stored unchanged. */
  function NewPhone(value: string): (r: Result<Phone, PhoneError>)
    ensures r.Success? <==> ValidPhone(Phone(value))
    ensures r.Success? ==> r.value.value == value
    ensures r.Failure? && (exists i :: 0 <= i < |value| && !IsDigit(value[i])) ==> r.error == NotDigit(value)
    ensures value == "" ==> r == Failure(NotDigit(value))
    ensures AllDigits(value) && 0 < |value| != 10 ==> r == Failure(WrongLength(value))
  {
    if !IsDigitString(value) then Failure(NotDigit(value))
    else if |value| != 10 then Failure(WrongLength(value))
    else Success(Phone(value))
  }

  /** `Birthday(value)` fails with ValueError("Invalid date format. Use DD.MM.YYYY"). */
  datatype BirthdayError = InvalidDateFormat

  /** `Birthday(value)`: the date the text spells under `%d.%m.%Y`. */
  function NewBirthday(value: string): (r: Result<Date, BirthdayError>)
    ensures r.Success? <==> ParseDate(value).Some?
    ensures r.Success? ==> r.value == ParseDate(value).value && ValidDate(r.value)
  {
    match ParseDate(value)
    case Some(d) => Success(d)
    case None => Failure(InvalidDateFormat)
  }

  /** Every birthday built from text is a representable date, and every such
      date, written as `DD.MM.YYYY`, is accepted back as itself. */
  lemma BirthdayRoundTrip(value: string, d: Date)
    requires ValidDate(d)
    ensures NewBirthday(value).Success? ==> ValidDate(NewBirthday(value).value)
    ensures NewBirthday(FormatDate(d)) == Success(d)
  {
    FormatParseRoundTrip(d);
  }

  /** Ten digits pass; "123" and "12345abcde" fail, the latter on the digit check. */
  lemma PhoneExamples()
    ensures NewPhone("1234567890") == Success(Phone("1234567890"))
    ensures NewPhone("123") == Failure(WrongLength("123"))
    ensures NewPhone("12345abcde") == Failure(NotDigit("12345abcde"))
  {
    assert !IsDigit("12345abcde"[5]);
  }
}
