/** cmds/server/config/aaa.go, config/provider.go and authenticators/shared.go: one user's three handlers,
    and the users of a scope. */
module Aaa {
  import opened Bytes
  import opened Config
  import opened CommandAuthorizer
  import opened Fields
  import opened Messages
  import opened Transport
  import Acct = Accounting
  import Authen = Authenticate

  /** A password check left as any function of the password, or the default that denies. */
  datatype Authenticator = DenyAll | Checker(accepts: Text -> bool)

  /** An accounter makes one reply to the request, whose header it may read too. */
  datatype Accounter = NoAccounter | Logger(account: Packet -> Acct.AcctReply)

  datatype AAA = AAA(authenticator: Authenticator, authorizer: User, accounter: Accounter)

  /** What the handlers of one scope are given. */
  datatype Scope = Scope(users: map<Text, AAA>, regex: Regex, say: Wording)

  /** Every user's authorizer carries the name the user is found by. */
  predicate WellNamed(s: Scope) { forall name :: name in s.users ==> s.users[name].authorizer.name == name }

  /** GetPassword: the data of a START, or else the user message of a CONTINUE. */
  function GetPassword(body: Text): Option<Text> {
    if Authen.DecodeStart(body).Ok? then Some(Authen.DecodeStart(body).value.data)
    else if Authen.DecodeContinue(body).Ok? then Some(Authen.DecodeContinue(body).value.userMessage)
    else None
  }

  /** The password taken from a CONTINUE is its user message exactly when the bytes are not also those of a START;
      otherwise it is what the START would carry as its data. */
  lemma PasswordIff(body: Text)
    requires Authen.DecodeContinue(body).Ok?
    ensures GetPassword(body) == Some(Authen.DecodeContinue(body).value.userMessage) <==> !Authen.StartReadable(body)
    ensures Authen.StartReadable(body) ==> GetPassword(body) == Some(Authen.StartData(body))
  {
    Authen.StartDecodesIff(body);
    if Authen.StartReadable(body) {
      Authen.BothDiffer(body);
    }
  }

  /** So it is the message whenever the message or the data of the CONTINUE is under 256 bytes. */
  lemma PasswordIsUserMessage(body: Text)
    requires Authen.DecodeContinue(body).Ok?
    requires var c := Authen.DecodeContinue(body).value; |c.userMessage| < 256 || |c.data| < 256
    ensures GetPassword(body) == Some(Authen.DecodeContinue(body).value.userMessage)
  {
    Authen.ContinueIsNotStart(body);
    PasswordIff(body);
  }

  /** A CONTINUE with a message of 256 bytes whose password is taken to be empty. */
  lemma PasswordCanDiffer() returns (body: Text)
    ensures Authen.DecodeContinue(body).Ok? && !Authen.DecodeContinue(body).value.Abort()
    ensures |Authen.DecodeContinue(body).value.userMessage| == 256 && GetPassword(body) == Some([])
  {
    body := Authen.BothStartAndContinue(0);
  }

  function AuthenticatorReply(a: Authenticator, say: Wording, body: Text): Authen.AuthenReply {
    match a
    case DenyAll => Authen.AuthenReply(AUTHEN_FAIL, 0, say(AuthenticationDenied), [])
    case Checker(accepts) =>
      match GetPassword(body)
      case None => Authen.AuthenReply(AUTHEN_ERROR, 0, say(MissingPassword), [])
      case Some(password) =>
        if accepts(password) then Authen.AuthenReply(AUTHEN_PASS, 0, say(LoginSuccess), [])
        else Authen.AuthenReply(AUTHEN_FAIL, 0, say(LoginFailure), [])
  }

  function AccounterReply(a: Accounter, say: Wording, req: Packet): Acct.AcctReply {
    match a
    case NoAccounter => Acct.AcctReply(ACCT_ERROR, say(AccountingDenied), [])
    case Logger(account) => account(req)
  }
}
