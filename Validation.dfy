/**
 * The field checks the create and edit handlers of the customer controller
 * apply before they write: the name pattern `^[a-zA-Z ]+$`, the case-sensitive
 * `@gmail.com` suffix test, JavaScript truthiness of a field, and the
 * rejection reasons with the messages the handlers flash.
 */
module Validation {

  /** The literal tail every accepted email must have. */
  const GmailSuffix: string := "@gmail.com"

  /** The text of the 400 response when a field is missing on create. */
  const AllFieldsRequired: string := "All fields are required"

  /** Why a create or an edit was refused with a redirect. */
  datatype Reason = EmailInUse | InvalidName | InvalidEmailDomain

  /** The flash message the handler queues for each reason. */
  function Message(r: Reason): string
  {
    match r
    case EmailInUse => "Email address is already in use"
    case InvalidName => "First name and last name must be non-empty strings without numbers"
    case InvalidEmailDomain => "Email address must end with @gmail.com"
  }

  /** A member of the character class `[a-zA-Z ]`. */
  predicate IsNameChar(c: char)
  {
    ('a' <= c <= 'z') || ('A' <= c <= 'Z') || c == ' '
  }

  /**
   * `/^[a-zA-Z ]+$/.test(s)`: without the multiline flag `^` and `$` anchor
   * at the ends of the whole string, so the string is one or more
   * characters of the class and nothing else.
   */
  predicate IsValidName(s: string)
  {
    |s| > 0 && forall i :: 0 <= i < |s| ==> IsNameChar(s[i])
  }

  /** `s.endsWith(suffix)`: an exact, case-sensitive tail match. */
  predicate EndsWith(s: string, suffix: string)
  {
    |suffix| <= |s| && s[|s| - |suffix|..] == suffix
  }

  predicate HasGmailSuffix(email: string)
  {
    EndsWith(email, GmailSuffix)
  }

  /** JavaScript truthiness of a string: only the empty string is falsy. */
  predicate Truthy(s: string)
  {
    s != ""
  }

  /** The create handler's `!firstName || !lastName || !telephone || !email` test, negated. */
  predicate AllFieldsPresent(firstName: string, lastName: string, telephone: string, email: string)
  {
    Truthy(firstName) && Truthy(lastName) && Truthy(telephone) && Truthy(email)
  }

  /** Each rejection reason is reported with its own message, and none is the 400 text. */
  lemma MessagesDistinct(r1: Reason, r2: Reason)
    ensures Message(r1) == Message(r2) <==> r1 == r2
    ensures Message(r1) != AllFieldsRequired
  {
  }

  /** A single character outside `[a-zA-Z ]` (a digit, punctuation, a non-ASCII letter) fails the name pattern. */
  lemma NameWithForeignCharRejected(s: string, i: nat)
    requires i < |s| && !IsNameChar(s[i])
    ensures !IsValidName(s)
  {
  }

  /** The pattern admits a name made of spaces only, and rejects the empty name. */
  lemma NamePatternEdges()
    ensures IsValidName(" ") && IsValidName("   ")
    ensures !IsValidName("")
    ensures !IsValidName("A1")
  {
    assert "A1"[1] == '1';
  }

  /**
   * The suffix test is literal and case-sensitive: a capitalised domain, a
   * subdomain (whose tail is `.gmail.com`) and a longer tail all fail.
   */
  lemma SuffixExamples()
    ensures HasGmailSuffix("ann@gmail.com")
    ensures !HasGmailSuffix("x@Gmail.com")
    ensures !HasGmailSuffix("x@sub.gmail.com")
    ensures !HasGmailSuffix("user@gmail.co")
    ensures !HasGmailSuffix("user@gmail.com.evil.com")
  {
  }

  /**
   * Once both names match the pattern and the email has the suffix, the
   * all-fields test can only fail on an empty telephone.
   */
  lemma OnlyTelephoneCanBeMissing(firstName: string, lastName: string, telephone: string, email: string)
    requires IsValidName(firstName) && IsValidName(lastName) && HasGmailSuffix(email)
    ensures AllFieldsPresent(firstName, lastName, telephone, email) <==> telephone != ""
  {
  }
}
