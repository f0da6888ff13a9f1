/** The global exception handler: every error kind becomes a status code
    and a text body, and a failed bean validation becomes a 400 whose body
    maps each erroneous field to one message. */
module ExceptionHandler {
  import opened Entity
  import opened Errors
  import opened Http

  const AccessDeniedText := "You do not have access to perform this operation !!"
  const GenericPrefix := "An error occurred : "

  /** The handler chosen for each exception kind; the generic one catches
      everything the others do not. */
  function HandleException(err: Error): (r: Response)
    ensures r.status == NOT_FOUND <==> err.EmployeeNotFound?
    ensures r.status == FORBIDDEN <==> err.AccessDenied?
    ensures r.status == CONFLICT <==> err.DuplicateEmail?
    ensures r.status == INTERNAL_SERVER_ERROR <==> err.UsernameNotFound? || err.Unexpected?
    ensures r.body.Text?
    ensures (err.EmployeeNotFound? || err.DuplicateEmail?) ==> r.body.text == err.message
    ensures err.AccessDenied? ==> r.body.text == AccessDeniedText
    ensures (err.UsernameNotFound? || err.Unexpected?) ==> r.body.text == GenericPrefix + err.message
  {
    match err
    case EmployeeNotFound(message) => Response(NOT_FOUND, Text(message))
    case AccessDenied => Response(FORBIDDEN, Text(AccessDeniedText))
    case DuplicateEmail(message) => Response(CONFLICT, Text(message))
    case UsernameNotFound(message) => Response(INTERNAL_SERVER_ERROR, Text(GenericPrefix + message))
    case Unexpected(message) => Response(INTERNAL_SERVER_ERROR, Text(GenericPrefix + message))
  }

  /** No later error in the list names the same field as errors[i]. */
  predicate LastForField(errors: seq<FieldError>, i: int)
    requires 0 <= i < |errors|
  {
    forall j | i < j < |errors| :: errors[j].field != errors[i].field
  }

  /** The fields named in an error list. */
  function FieldsOf(errors: seq<FieldError>): set<string> {
    set i | 0 <= i < |errors| :: errors[i].field
  }

  /** Puts each error in turn into a map from field to message, so one key
      per erroneous field, holding the last message given for it. */
  method HandleValidationException(errors: seq<FieldError>) returns (r: Response)
    ensures r.status == BAD_REQUEST && r.body.FieldMessages?
    ensures r.body.messages.Keys == FieldsOf(errors)
    ensures forall i | 0 <= i < |errors| && LastForField(errors, i) ::
      r.body.messages[errors[i].field] == errors[i].message
  {
    var messages: map<string, string> := map[];
    for n := 0 to |errors|
      invariant messages.Keys == set k | 0 <= k < n :: errors[k].field
      invariant forall k | 0 <= k < n && (forall j | k < j < n :: errors[j].field != errors[k].field) ::
        messages[errors[k].field] == errors[k].message
    {
      messages := messages[errors[n].field := errors[n].message];
    }
    r := Response(BAD_REQUEST, FieldMessages(messages));
  }

  /** For an employee's validation errors, the keys of the 400 body are
      exactly the names of the fields whose constraints fail. */
  lemma ValidationKeysAreFailingFields(e: Employee, today: int, isEmail: string -> bool, f: Field)
    ensures FieldName(f) in FieldsOf(ValidationErrors(e, today, isEmail)) <==> !FieldOk(e, f, today, isEmail)
  {
    var errors := ValidationErrors(e, today, isEmail);
    if !FieldOk(e, f, today, isEmail) {
      assert HasError(errors, FieldName(f));
      var i :| 0 <= i < |errors| && errors[i].field == FieldName(f);
    }
  }
}
