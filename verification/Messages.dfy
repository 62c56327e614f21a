/** The kinds of server message the handlers send. Their wording is left as any function of the kind. */
module Messages {
  import opened Bytes

  datatype Message =
    | AskUsername
    | AskPassword
    | EndedByAbort
    | NoContinueForUser
    | NoContinueForPass
    | NoUserMessage
    | UnknownUserOrPassword
    | MissingUsername
    | MissingPassword
    | LoginSuccess
    | LoginFailure
    | AuthenticationDenied
    | AuthenticationDeniedFor(name: Text)
    | ExpectedStart(session: uint32)
    | UnknownStart
    | AuthorizationApproved
    | NotAuthorized
    | AuthorizationDeniedFor(name: Text)
    | InvalidAuthorRequest
    | UndecodableAuthorRequest
    | AccountingDenied
    | AccountingLookupFailed(name: Text)
    | ExpectedAccounting

  type Wording = Message -> Text
}
