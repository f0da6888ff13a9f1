/** The failures the core raises or handles: the two exception classes of
    the service, plus the framework exceptions the global handler maps. */
module Errors {
  import opened Strings

  datatype Error =
    | EmployeeNotFound(message: string)
    | DuplicateEmail(message: string)
    | AccessDenied
    | UsernameNotFound(message: string)
    | Unexpected(message: string)

  const NotFoundPrefix: string := "Employee not found with id : "
  const DuplicatePrefix: string := "Email address already exists : "

  /** The message of the not-found error raised for an id. */
  function NotFoundMessage(id: int): (m: string)
    ensures |NotFoundPrefix| < |m| && m[..|NotFoundPrefix|] == NotFoundPrefix
    ensures m[|NotFoundPrefix|..] == IntToString(id)
  {
    NotFoundPrefix + IntToString(id)
  }

  /** The message of the duplicate-email error raised for an email. */
  function DuplicateEmailMessage(email: string): (m: string)
    ensures |DuplicatePrefix| <= |m| && m[..|DuplicatePrefix|] == DuplicatePrefix && m[|DuplicatePrefix|..] == email
  {
    DuplicatePrefix + email
  }

  /** A not-found message names exactly one id. */
  lemma NotFoundMessageInjective(a: int, b: int)
    requires NotFoundMessage(a) == NotFoundMessage(b)
    ensures a == b
  {
    IntToStringInjective(a, b);
  }
}
