/** The field checks of `validateUserData`, in both service variants, and `isValidEmail`. */
module Validation {
  import opened Wrappers
  import opened Text

  /** Longest accepted name, counted after trimming. */
  const MaxNameLength: int := 100
  /** Accepted ages are MinAge..MaxAge inclusive. */
  const MinAge: int := 0
  const MaxAge: int := 150

  /** The reason a field check fails; each is a distinct `IllegalArgumentException` message in the source. */
  datatype FieldError =
    | NameEmpty       // name null or blank after trimming
    | NameTooLong     // trimmed name longer than MaxNameLength
    | EmailEmpty      // email null or blank after trimming
    | EmailMalformed  // email lacks "@" or "."
    | AgeMissing      // age null
    | AgeOutOfRange   // age outside MinAge..MaxAge

  /** What a validator decides: accept, or the first failed check. */
  datatype Verdict = Accepted | Rejected(error: FieldError)

  /** `s == null || s.trim().isEmpty()`. */
  predicate IsBlank(s: Option<string>)
  {
    s.None? || Trim(s.value) == []
  }

  /** `isValidEmail`: a non-null email containing "@" and containing ".". */
  function IsValidEmail(email: Option<string>): (b: bool)
    ensures b <==> email.Some? && '@' in email.value && '.' in email.value
  {
    if email.None? then
      false
    else
      ContainsChar(email.value, '@');
      ContainsChar(email.value, '.');
      Contains(email.value, "@") && Contains(email.value, ".")
  }

  // The field constraints, each stated on its own, independently of the order the checks run in.

  /** A name is acceptable when it has a non-trimmable character and at most MaxNameLength characters after trimming. */
  ghost predicate NameAcceptable(name: Option<string>)
  {
    name.Some? && !AllTrimmable(name.value) && |Trim(name.value)| <= MaxNameLength
  }

  /** An email is present when it has a non-trimmable character. */
  ghost predicate EmailPresent(email: Option<string>)
  {
    email.Some? && !AllTrimmable(email.value)
  }

  /** An email is shaped like an address when it holds an '@' and a '.' anywhere. */
  ghost predicate EmailShaped(email: Option<string>)
  {
    email.Some? && '@' in email.value && '.' in email.value
  }

  /** An age is acceptable when present and within MinAge..MaxAge. */
  ghost predicate AgeAcceptable(age: Option<int>)
  {
    age.Some? && MinAge <= age.value <= MaxAge
  }

  /** `validateUserData` of the DAO-backed service: name, then email presence, then email format,
      then age; the first failing check decides. */
  function ValidateUserData(name: Option<string>, email: Option<string>, age: Option<int>): (r: Verdict)
    ensures r == Accepted <==>
              NameAcceptable(name) && EmailPresent(email) && EmailShaped(email) && AgeAcceptable(age)
    ensures r == Rejected(NameEmpty) <==> name.None? || AllTrimmable(name.value)
    ensures r == Rejected(NameTooLong) <==> name.Some? && |Trim(name.value)| > MaxNameLength
    ensures r == Rejected(EmailEmpty) <==> NameAcceptable(name) && !EmailPresent(email)
    ensures r == Rejected(EmailMalformed) <==>
              NameAcceptable(name) && EmailPresent(email) && !EmailShaped(email)
    ensures r == Rejected(AgeMissing) <==>
              NameAcceptable(name) && EmailPresent(email) && EmailShaped(email) && age.None?
    ensures r == Rejected(AgeOutOfRange) <==>
              NameAcceptable(name) && EmailPresent(email) && EmailShaped(email)
              && age.Some? && (age.value < MinAge || age.value > MaxAge)
  {
    if IsBlank(name) then Rejected(NameEmpty)
    else if |Trim(name.value)| > MaxNameLength then Rejected(NameTooLong)
    else if IsBlank(email) then Rejected(EmailEmpty)
    else if !IsValidEmail(email) then Rejected(EmailMalformed)
    else if age.None? then Rejected(AgeMissing)
    else if age.value < MinAge || age.value > MaxAge then Rejected(AgeOutOfRange)
    else Accepted
  }

  /** `validateUserData` of the repository-backed service: the same checks in the same order,
      except that the email format is never checked. */
  function ValidateUserDataLenient(name: Option<string>, email: Option<string>, age: Option<int>): (r: Verdict)
    ensures r == Accepted <==> NameAcceptable(name) && EmailPresent(email) && AgeAcceptable(age)
    ensures r != Rejected(EmailMalformed)
    ensures r == Rejected(NameEmpty) <==> name.None? || AllTrimmable(name.value)
    ensures r == Rejected(NameTooLong) <==> name.Some? && |Trim(name.value)| > MaxNameLength
    ensures r == Rejected(EmailEmpty) <==> NameAcceptable(name) && !EmailPresent(email)
    ensures r == Rejected(AgeMissing) <==> NameAcceptable(name) && EmailPresent(email) && age.None?
    ensures r == Rejected(AgeOutOfRange) <==>
              NameAcceptable(name) && EmailPresent(email)
              && age.Some? && (age.value < MinAge || age.value > MaxAge)
  {
    if IsBlank(name) then Rejected(NameEmpty)
    else if |Trim(name.value)| > MaxNameLength then Rejected(NameTooLong)
    else if IsBlank(email) then Rejected(EmailEmpty)
    else if age.None? then Rejected(AgeMissing)
    else if age.value < MinAge || age.value > MaxAge then Rejected(AgeOutOfRange)
    else Accepted
  }

  /** An accepted record has all three fields present. */
  lemma AcceptedFieldsPresent(name: Option<string>, email: Option<string>, age: Option<int>)
    requires ValidateUserData(name, email, age) == Accepted || ValidateUserDataLenient(name, email, age) == Accepted
    ensures name.Some? && email.Some? && age.Some?
  {
  }

  /** The two validators differ only where the strict one rejects the email format:
      everywhere else they give the same verdict. */
  lemma ValidatorsAgreeOffFormat(name: Option<string>, email: Option<string>, age: Option<int>)
    requires ValidateUserData(name, email, age) != Rejected(EmailMalformed)
    ensures ValidateUserDataLenient(name, email, age) == ValidateUserData(name, email, age)
  {
  }

  /** So the lenient validator accepts everything the strict one accepts, and more:
      a present email without '@' passes it while the strict one rejects the format. */
  lemma LenientAcceptsEmailWithoutAt(name: Option<string>, email: Option<string>, age: Option<int>)
    requires NameAcceptable(name) && AgeAcceptable(age)
    requires email.Some? && !AllTrimmable(email.value) && '@' !in email.value
    ensures ValidateUserDataLenient(name, email, age) == Accepted
    ensures ValidateUserData(name, email, age) == Rejected(EmailMalformed)
  {
  }

  /** The name limit is inclusive: with the other fields valid, a name whose trimmed form is exactly
      MaxNameLength characters is accepted and one character more is rejected. */
  lemma NameLengthBoundary(name: string, email: Option<string>, age: Option<int>)
    requires EmailPresent(email) && EmailShaped(email) && AgeAcceptable(age)
    requires !AllTrimmable(name)
    ensures |Trim(name)| == MaxNameLength ==> ValidateUserData(Some(name), email, age) == Accepted
    ensures |Trim(name)| == MaxNameLength + 1 ==> ValidateUserData(Some(name), email, age) == Rejected(NameTooLong)
  {
  }
}
