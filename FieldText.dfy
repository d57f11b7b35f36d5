/** The helper line under every field and its error flag: an error message,
    when there is one, takes precedence over the helper text. */
module FieldText {
  import opened Text

  /** A validation error; its message may be absent. */
  datatype FieldError = FieldError(message: Option<string>)

  /** `error?.message` is truthy: an error is present and its message is a
      non-empty string. */
  predicate HasMessage(error: Option<FieldError>)
  {
    error.Some? && error.value.message.Some? && error.value.message.value != []
  }

  /** `getErrorText`: the message of the error when it has one, otherwise the
      helper text, which may itself be absent. */
  function GetErrorText(error: Option<FieldError>, helperText: Option<string>): (shown: Option<string>)
    ensures shown == helperText || (error.Some? && shown == error.value.message)
  {
    if HasMessage(error) then error.value.message else helperText
  }

  /** `hasError`: an error object is present, whatever its message. */
  function HasError(error: Option<FieldError>): (b: bool)
    ensures b <==> error != None
  {
    match error
    case None => false
    case Some(_) => true
  }

  /** A non-empty message wins over the helper text. */
  lemma MessageWins(message: string, helperText: Option<string>)
    requires message != []
    ensures GetErrorText(Some(FieldError(Some(message))), helperText) == Some(message)
  {
  }

  /** An error without a usable message shows the helper text, although the
      field is still in error. */
  lemma EmptyMessageFallsBack(message: Option<string>, helperText: Option<string>)
    requires message == None || message == Some("")
    ensures GetErrorText(Some(FieldError(message)), helperText) == helperText
    ensures HasError(Some(FieldError(message)))
  {
  }

  /** Without an error the helper text is shown and the field is not in
      error. */
  lemma NoErrorShowsHelper(helperText: Option<string>)
    ensures GetErrorText(None, helperText) == helperText && !HasError(None)
  {
  }
}
