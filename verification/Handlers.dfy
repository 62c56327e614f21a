/** cmds/server/handlers: what each handler replies and which handler it names for the session's next packet. */
module Handlers {
  import opened Aaa
  import opened Bytes
  import opened Fields
  import opened Messages
  import opened Transport
  import Acct = Accounting
  import Authen = Authenticate
  import Author = Authorize
  import Stringy

  datatype Reply =
    | AuthenR(authen: Authen.AuthenReply)
    | AuthorR(author: Author.AuthorReply)
    | AcctR(acct: Acct.AcctReply)
  {
    function Marshal(): Option<Text> {
      match this
      case AuthenR(r) => r.Marshal()
      case AuthorR(r) => r.Marshal()
      case AcctR(r) => r.Marshal()
    }

    predicate Restart() { AuthenR? && authen.status == AUTHEN_RESTART }

    /** The header type whose replies have this body. */
    function Type(): byte { if AuthenR? then AUTHENTICATE else if AuthorR? then AUTHORIZE else ACCOUNTING }
  }

  /** The handlers that wait for a session's next packet. A session without one gets the start handler. */
  datatype HandlerState = AskUser(username: Text) | AskPass(username: Text)

  /** What one Handle call does: the handler passed to Next, if any, and the Reply calls. */
  datatype Effect = Effect(next: Option<HandlerState>, replies: seq<Reply>)

  function Final(r: Reply): Effect { Effect(None, [r]) }

  function AuthenMsg(status: byte, msg: Text): Reply { AuthenR(Authen.AuthenReply(status, 0, msg, [])) }
  function AuthorMsg(status: byte, msg: Text): Reply { AuthorR(Author.AuthorReply(status, [], msg, [])) }
  function AcctMsg(status: byte, msg: Text): Reply { AcctR(Acct.AcctReply(status, msg, [])) }

  function AskUserReply(say: Wording): Reply { AuthenMsg(AUTHEN_GET_USER, say(AskUsername)) }
  function AskPassReply(say: Wording): Reply { AuthenR(Authen.AuthenReply(AUTHEN_GET_PASS, 1, say(AskPassword), [])) }
  function AbortReply(say: Wording): Reply { AuthenMsg(AUTHEN_FAIL, say(EndedByAbort)) }

  // ---- authen_ascii.go ----

  /** authenticateContinueStop: the body is a CONTINUE with the abort flag. */
  predicate Aborts(body: Text) { Authen.DecodeContinue(body).Ok? && Authen.DecodeContinue(body).value.Abort() }

  /** Exactly when the START of an ASCII login is taken as an abort. */
  lemma StartAbortsIff(body: Text)
    requires Authen.DecodeStart(body).Ok?
    requires Authen.DecodeStart(body).value.action == ACTION_LOGIN && Authen.DecodeStart(body).value.atype == TYPE_ASCII
    ensures Aborts(body) <==>
              517 + body[1] as nat + body[3] <= |body| && AllAscii(body[5..261 + body[1] as nat]) && body[4] % 2 == 1
  {
    Authen.StartIsContinueIff(body);
  }

  /** A START that is: 517 bytes, and an odd length for its user name. */
  lemma StartCanAbort() returns (body: Text)
    ensures |body| == 517 && Authen.DecodeStart(body).Ok? && Aborts(body)
    ensures Authen.DecodeStart(body).value.action == ACTION_LOGIN && Authen.DecodeStart(body).value.atype == TYPE_ASCII
  {
    body := Authen.BothStartAndContinue(1);
  }

  function AsciiHandle(say: Wording, username: Text, body: Text): Effect {
    if Aborts(body) then Final(AbortReply(say))
    else if username == [] then Effect(Some(AskUser(username)), [AskUserReply(say)])
    else AsciiGetUsername(say, username, body)
  }

  function AsciiGetUsername(say: Wording, username: Text, body: Text): Effect {
    if Aborts(body) then Final(AbortReply(say))
    else if username != [] then Effect(Some(AskPass(username)), [AskPassReply(say)])
    else match Authen.DecodeContinue(body)
      case Ok(c) =>
        if c.userMessage == [] then Final(AuthenMsg(AUTHEN_ERROR, say(NoUserMessage)))
        else Effect(Some(AskPass(c.userMessage)), [AskPassReply(say)])
      case _ => Final(AuthenMsg(AUTHEN_ERROR, say(NoContinueForUser)))
  }

  function AsciiGetPassword(s: Scope, username: Text, body: Text): Effect {
    if Aborts(body) then Final(AbortReply(s.say))
    else match Authen.DecodeContinue(body)
      case Ok(c) =>
        if c.userMessage == [] then Final(AuthenMsg(AUTHEN_ERROR, s.say(UnknownUserOrPassword)))
        else if username !in s.users then Final(AuthenMsg(AUTHEN_FAIL, s.say(AuthenticationDeniedFor(username))))
        else Final(AuthenR(AuthenticatorReply(s.users[username].authenticator, s.say, body)))
      case _ => Final(AuthenMsg(AUTHEN_ERROR, s.say(NoContinueForPass)))
  }

  // ---- authen.go, authen_pap.go ----

  function PapHandle(s: Scope, start: Authen.AuthenStart, body: Text): Effect {
    if start.user == [] then Final(AuthenMsg(AUTHEN_ERROR, s.say(MissingUsername)))
    else if start.data == [] then Final(AuthenMsg(AUTHEN_ERROR, s.say(MissingPassword)))
    else if start.user !in s.users then Final(AuthenMsg(AUTHEN_FAIL, s.say(AuthenticationDeniedFor(start.user))))
    else Final(AuthenR(AuthenticatorReply(s.users[start.user].authenticator, s.say, body)))
  }

  /** The router's keys. Fields a table entry leaves out are zero, as in Go. */
  datatype RouteKey = RouteKey(action: byte, atype: byte, service: byte, minor: byte)

  /** The handlers in the router's table; NoHandler marks the types that are not implemented. */
  datatype Route = NoHandler | AsciiLogin | PapLogin

  const ROUTER: map<RouteKey, Route> := map[
    ENABLE_KEY := AsciiLogin,
    RouteKey(ACTION_LOGIN, TYPE_ASCII, 0, 0) := AsciiLogin,
    RouteKey(ACTION_LOGIN, TYPE_PAP, 0, 1) := PapLogin,
    RouteKey(ACTION_LOGIN, TYPE_CHAP, 0, 1) := NoHandler,
    RouteKey(ACTION_LOGIN, TYPE_MSCHAP, 0, 1) := NoHandler,
    RouteKey(ACTION_LOGIN, TYPE_MSCHAPV2, 0, 1) := NoHandler]

  const ENABLE_KEY: RouteKey := RouteKey(ACTION_LOGIN, 0, SERVICE_ENABLE, 1)

  /** The key a START is looked up by. It names no service. */
  function LookupKey(start: Authen.AuthenStart, minor: byte): RouteKey { RouteKey(start.action, start.atype, 0, minor) }

  function RouterLookup(start: Authen.AuthenStart, minor: byte): Route {
    var key := LookupKey(start, minor);
    if key in ROUTER then ROUTER[key] else NoHandler
  }

  /** What the lookup comes down to. */
  function Routed(start: Authen.AuthenStart, minor: byte): Route {
    if start.action == ACTION_LOGIN && start.atype == TYPE_ASCII && minor == 0 then AsciiLogin
    else if start.action == ACTION_LOGIN && start.atype == TYPE_PAP && minor == 1 then PapLogin
    else NoHandler
  }

  /** The lookup is those two tests, and no START reaches the ENABLE entry. */
  lemma RouterTests(start: Authen.AuthenStart, minor: byte)
    ensures RouterLookup(start, minor) == Routed(start, minor)
    ensures LookupKey(start, minor) != ENABLE_KEY && ENABLE_KEY in ROUTER
  {
  }

  function AuthenticateStart(s: Scope, req: Packet): Effect {
    match Authen.DecodeStart(req.body)
    case Ok(b) =>
      (match Routed(b, req.header.version.minor)
       case AsciiLogin => AsciiHandle(s.say, b.user, req.body)
       case PapLogin => PapHandle(s, b, req.body)
       case NoHandler => Final(AuthenMsg(AUTHEN_ERROR, s.say(UnknownStart))))
    case _ =>
      Final(AuthenMsg(AUTHEN_ERROR, s.say(ExpectedStart(req.header.session))))
  }

  // ---- author.go, acct.go ----

  ghost function AuthorizeRequest(s: Scope, body: Text): Effect {
    match Author.DecodeRequest(body)
    case Ok(b) =>
      if b.user !in s.users then
        Final(AuthorMsg(AUTHOR_FAIL, s.say(AuthorizationDeniedFor(b.user))))
      else
        Effect(None, AsReplies(Stringy.Replies(s.users[b.user].authorizer, s.regex, s.say, body)))
    case _ => Final(AuthorMsg(AUTHOR_ERROR, s.say(InvalidAuthorRequest)))
  }

  function AsReplies(rs: seq<Author.AuthorReply>): (r: seq<Reply>)
    ensures |r| == |rs|
  {
    seq(|rs|, i requires 0 <= i < |rs| => AuthorR(rs[i]))
  }

  function AccountingRequest(s: Scope, req: Packet): Effect {
    match Acct.DecodeRequest(req.body)
    case Ok(b) =>
      if b.user !in s.users then
        Final(AcctMsg(ACCT_ERROR, s.say(AccountingLookupFailed(b.user))))
      else
        Final(AcctR(AccounterReply(s.users[b.user].accounter, s.say, req)))
    case _ => Final(AcctMsg(ACCT_ERROR, s.say(ExpectedAccounting)))
  }

  // ---- start.go ----

  ghost function StartHandle(s: Scope, req: Packet): Effect {
    match req.header.typ
    case 1 => AuthenticateStart(s, req)
    case 2 => AuthorizeRequest(s, req.body)
    case 3 => AccountingRequest(s, req)
    case _ => Effect(None, [])
  }

  /** The handler stored for the session, or the start handler. */
  ghost function Handle(s: Scope, state: Option<HandlerState>, req: Packet): Effect {
    match state
    case None => StartHandle(s, req)
    case Some(AskUser(username)) => AsciiGetUsername(s.say, username, req.body)
    case Some(AskPass(username)) => AsciiGetPassword(s, username, req.body)
  }

  /** How a connection's handlers behave: a function of the stored handler and the packet. */
  type Behaviour = (Option<HandlerState>, Packet) -> Effect

  /** The repository's own handlers. */
  ghost function Serving(s: Scope): Behaviour { (state, req) => Handle(s, state, req) }

  /** b is the repository's handlers, whatever expression it is given by. */
  ghost predicate Implements(b: Behaviour, s: Scope) {
    forall state: Option<HandlerState>, p: Packet {:trigger Handle(s, state, p)} :: b(state, p) == Handle(s, state, p)
  }

  lemma ServingImplements(s: Scope)
    ensures Implements(Serving(s), s)
  {
  }

  // ---- what the handlers guarantee ----

  /** The packet is a START that opens an ASCII login for this user name. */
  predicate OpensAscii(p: Packet, username: Text) {
    p.header.typ == AUTHENTICATE && p.header.version.minor == 0 &&
    match Authen.DecodeStart(p.body)
    case Ok(b) => b.action == ACTION_LOGIN && b.atype == TYPE_ASCII && b.user == username
    case _ => false
  }

  /** The packet is a CONTINUE that carries this user message. */
  predicate Answers(p: Packet, message: Text) {
    Authen.DecodeContinue(p.body).Ok? && Authen.DecodeContinue(p.body).value.userMessage == message
  }

  /** Which handler can follow which, on what packet, and with what prompt. */
  predicate Follows(state: Option<HandlerState>, p: Packet, e: Effect) {
    e.next.Some? ==>
      && (state.None? || state.value.AskUser?)
      && (e.next.value.AskUser? ==> state.None? && e.next.value.username == [] && OpensAscii(p, []))
      && (e.next.value.AskPass? ==> e.next.value.username != [])
      && (e.next.value.AskPass? && state.None? ==> OpensAscii(p, e.next.value.username))
      && (e.next.value.AskPass? && state.Some? ==> Answers(p, e.next.value.username))
      && |e.replies| == 1 && e.replies[0].AuthenR?
      && e.replies[0].authen.status == if e.next.value.AskPass? then AUTHEN_GET_PASS else AUTHEN_GET_USER
  }

  lemma NextHandler(s: Scope, state: Option<HandlerState>, p: Packet)
    requires state.Some? && state.value.AskUser? ==> state.value.username == []
    ensures Follows(state, p, Handle(s, state, p))
  {
    if state.None? && p.header.typ == AUTHENTICATE {
      StartFollows(s, p);
    }
  }

  lemma StartFollows(s: Scope, p: Packet)
    requires p.header.typ == AUTHENTICATE
    ensures Follows(None, p, AuthenticateStart(s, p))
  {
  }

  /** Every handler it names may follow, on the right packet. */
  ghost predicate Proper(b: Behaviour) {
    forall state: Option<HandlerState>, p: Packet {:trigger Follows(state, p, b(state, p))} ::
      (state.Some? && state.value.AskUser? ==> state.value.username == []) ==> Follows(state, p, b(state, p))
  }

  lemma ServingIsProper(s: Scope)
    ensures Proper(Serving(s))
  {
    forall state: Option<HandlerState>, p: Packet | state.Some? && state.value.AskUser? ==> state.value.username == []
      ensures Follows(state, p, Serving(s)(state, p))
    {
      NextHandler(s, state, p);
    }
  }

  /** Exactly one Reply call, never a restart, on every packet of a known type. */
  ghost predicate OneReplyEach(b: Behaviour) {
    forall state: Option<HandlerState>, p: Packet :: 1 <= p.header.typ <= 3 ==>
      |b(state, p).replies| == 1 && !b(state, p).replies[0].Restart()
  }

  lemma ServingRepliesOnce(s: Scope)
    requires WellNamed(s)
    ensures OneReplyEach(Serving(s))
  {
    forall state: Option<HandlerState>, p: Packet | 1 <= p.header.typ <= 3
      ensures |Serving(s)(state, p).replies| == 1 && !Serving(s)(state, p).replies[0].Restart()
    {
      OneReply(s, state, p);
    }
  }

  lemma AuthorizeOneReply(s: Scope, body: Text)
    requires WellNamed(s)
    ensures |AuthorizeRequest(s, body).replies| == 1 && AuthorizeRequest(s, body).replies[0].AuthorR?
  {
    if Author.DecodeRequest(body).Ok? && Author.DecodeRequest(body).value.user in s.users {
      var user := Author.DecodeRequest(body).value.user;
      Stringy.OneReplyForOwnName(s.users[user].authorizer, s.regex, s.say, body);
    }
  }

  lemma AuthenticateOneReply(s: Scope, p: Packet)
    ensures |AuthenticateStart(s, p).replies| == 1 && !AuthenticateStart(s, p).replies[0].Restart()
  {
  }

  /** In a well-named scope every packet of a known type gets exactly one Reply call, never a restart. */
  lemma OneReply(s: Scope, state: Option<HandlerState>, p: Packet)
    requires WellNamed(s) && 1 <= p.header.typ <= 3
    ensures |Handle(s, state, p).replies| == 1 && !Handle(s, state, p).replies[0].Restart()
  {
    if state.None? {
      match p.header.typ {
        case 1 => AuthenticateOneReply(s, p);
        case 2 => AuthorizeOneReply(s, p.body);
        case 3 => assert |AccountingRequest(s, p).replies| == 1;
      }
    }
  }

  /** Stored handlers send authentication replies whatever the packet's type; other replies have the packet's type. */
  lemma ReplyTypes(s: Scope, state: Option<HandlerState>, p: Packet)
    ensures forall i :: 0 <= i < |Handle(s, state, p).replies| ==>
              Handle(s, state, p).replies[i].Type() == if state.Some? then AUTHENTICATE else p.header.typ
  {
    if state.Some? {
      StoredReplyType(s, state.value, p);
    } else if p.header.typ == AUTHENTICATE {
      StartReplyType(s, p);
    }
  }

  lemma StoredReplyType(s: Scope, state: HandlerState, p: Packet)
    ensures |Handle(s, Some(state), p).replies| == 1 && Handle(s, Some(state), p).replies[0].AuthenR?
  {
  }

  lemma StartReplyType(s: Scope, p: Packet)
    ensures forall i :: 0 <= i < |AuthenticateStart(s, p).replies| ==> AuthenticateStart(s, p).replies[i].AuthenR?
  {
  }

  /** The user's check accepts the password the authenticator reads from the body. */
  predicate PasswordAccepted(s: Scope, username: Text, body: Text) {
    username in s.users && s.users[username].authenticator.Checker? &&
    GetPassword(body).Some? && s.users[username].authenticator.accepts(GetPassword(body).value)
  }

  predicate SendsPass(e: Effect) {
    exists i :: 0 <= i < |e.replies| && e.replies[i].AuthenR? && e.replies[i].authen.status == AUTHEN_PASS
  }

  /** A stored handler sends a Pass only from the password step, for a user configured in the scope, when
      that user's check accepts the password: the user message, unless the bytes are also those of a START. */
  lemma StoredPassMeans(s: Scope, state: HandlerState, p: Packet)
    requires SendsPass(Handle(s, Some(state), p))
    ensures state.AskPass? && PasswordAccepted(s, state.username, p.body) && !Aborts(p.body)
    ensures Authen.DecodeContinue(p.body).Ok?
    ensures var m := Authen.DecodeContinue(p.body).value.userMessage;
            m != [] && s.users[state.username].authenticator.accepts(
              if Authen.StartReadable(p.body) then Authen.StartData(p.body) else m)
  {
    PasswordIff(p.body);
  }

  /** A stored handler sends a Pass exactly in the password step, on a CONTINUE that does not abort, with a non-empty
      message and a password that the check of the session's user accepts. */
  lemma StoredPassIff(s: Scope, state: HandlerState, p: Packet)
    ensures SendsPass(Handle(s, Some(state), p)) <==>
              && state.AskPass? && Authen.DecodeContinue(p.body).Ok? && !Aborts(p.body)
              && Authen.DecodeContinue(p.body).value.userMessage != [] && PasswordAccepted(s, state.username, p.body)
  {
    if SendsPass(Handle(s, Some(state), p)) {
      StoredPassMeans(s, state, p);
    } else if state.AskPass? && PasswordAccepted(s, state.username, p.body) {
      assert AuthenticatorReply(s.users[state.username].authenticator, s.say, p.body).status == AUTHEN_PASS;
      assert AsciiGetPassword(s, state.username, p.body).replies[0].AuthenR?;
    }
  }

  /** The packet is a PAP START whose data the check of the named user accepts. */
  predicate PapAccepted(s: Scope, p: Packet) {
    p.header.version.minor == 1 &&
    match Authen.DecodeStart(p.body)
    case Ok(b) =>
      b.action == ACTION_LOGIN && b.atype == TYPE_PAP && b.user != [] && b.data != [] && b.user in s.users &&
      s.users[b.user].authenticator.Checker? && s.users[b.user].authenticator.accepts(b.data)
    case _ => false
  }

  /** The start handler sends a Pass exactly on a PAP START with a password that user's check accepts. */
  lemma StartPassIff(s: Scope, p: Packet)
    ensures SendsPass(Handle(s, None, p)) <==> p.header.typ == AUTHENTICATE && PapAccepted(s, p)
  {
    ReplyTypes(s, None, p);
    if p.header.typ == AUTHENTICATE {
      assert Handle(s, None, p) == AuthenticateStart(s, p);
      PapPassIff(s, p);
    }
  }

  lemma PapPassIff(s: Scope, p: Packet)
    ensures SendsPass(AuthenticateStart(s, p)) <==> PapAccepted(s, p)
  {
    AuthenticateOneReply(s, p);
    SendsPassOne(AuthenticateStart(s, p));
    if PapAccepted(s, p) {
      assert AuthenticateStart(s, p).replies[0].authen.status == AUTHEN_PASS;
    }
  }

  lemma SendsPassOne(e: Effect)
    requires |e.replies| == 1
    ensures SendsPass(e) <==> e.replies[0].AuthenR? && e.replies[0].authen.status == AUTHEN_PASS
  {
  }
}
