/** server.go, sessions.go, handlers.go and authen_ascii.go as they are written: objects updated in place.
    Every method is proved against the pure machine. */
module Server {
  import opened Aaa
  import opened Bytes
  import opened Crypt
  import opened Fields
  import opened Handlers
  import opened Headers
  import opened Machine
  import opened Messages
  import opened Transport
  import Authen = Authenticate
  import Author = Authorize
  import Stringy

  lemma {:induction false} SentNext(key: Key, base: Text, wire: seq<Packet>, p: Packet)
    requires AllSendable(wire) && Sendable(p)
    ensures var wire' := wire + [Packet(Sized(p), p.body)];
            AllSendable(wire') && base + WrittenAll(key, wire') == base + WrittenAll(key, wire) + Written(key, p)
  {
    var sent := Packet(Sized(p), p.body);
    WrittenAllAppend(key, wire, [sent]);
    WrittenOne(key, p);
    Associates(base, WrittenAll(key, wire), Written(key, p));
  }

  lemma {:induction false} WrittenOne(key: Key, p: Packet)
    requires Sendable(p)
    ensures AllSendable([Packet(Sized(p), p.body)]) && WrittenAll(key, [Packet(Sized(p), p.body)]) == Written(key, p)
  {
    var sent := Packet(Sized(p), p.body);
    assert Sized(sent) == Sized(p);
    assert [sent][1..] == [];
  }

  // ---- handlers.go ----

  /** The handler passed to Next: a method bound to its login object. */
  datatype StoredHandler = GetUsername(login: AuthenticateASCII) | GetPassword(login: AuthenticateASCII) {
    ghost function State(): HandlerState
      reads login
    {
      if GetUsername? then AskUser(login.username) else AskPass(login.username)
    }
  }

  class ResponseObject {
    const crypter: Crypter
    var header: Header
    var next: Option<StoredHandler>
    /** What the connection had sent before this response, and the packets written since. */
    ghost const base: Text
    ghost var wire: seq<Packet>

    ghost predicate Sent()
      reads this, crypter
    {
      AllSendable(wire) && crypter.output == base + WrittenAll(crypter.key, wire)
    }

    constructor (crypter: Crypter, header: Header)
      ensures this.crypter == crypter && this.header == header && next == None && wire == [] &&
              base == crypter.output && Sent()
    {
      this.crypter := crypter;
      this.header := header;
      next := None;
      base := crypter.output;
      wire := [];
    }

    method Reply(v: Reply) returns (ok: bool)
      requires Sent()
      modifies this`header, this`wire, crypter`output
      ensures Sent() && Machine.Response(header, wire) == ReplyOnce(Machine.Response(old(header), old(wire)), v)
    {
      var seqNo: nat := header.seqNo;
      if v.AuthenR? && v.authen.status == AUTHEN_RESTART {
        seqNo := 1;
      } else {
        seqNo := seqNo + 1;
      }
      var h := Header(header.version, header.typ, seqNo % 0x1_0000, header.session, header.flags, 0);
      var body := v.Marshal();
      if body.None? {
        return false;
      }
      header := h;
      var p := Packet(h, body.value);
      ok := crypter.Write(p);
      if ok {
        SentNext(crypter.key, base, wire, p);
        wire := wire + [Packet(Sized(p), p.body)];
      }
    }

    method Next(next: StoredHandler)
      modifies this`next
      ensures this.next == Some(next)
    {
      this.next := Some(next);
    }

    ghost predicate Unused(h: Header)
      reads this, crypter
    {
      Sent() && header == h && next == None && wire == []
    }

    /** The calls made on this response add up to the effect, counted from the request's header. */
    ghost predicate Shows(e: Effect, h: Header)
      reads this, crypter, if next.Some? then {next.value.login} else {}
    {
      Sent() && Machine.Response(header, wire) == ReplyAll(Machine.Response(h, []), e.replies) &&
      e.next == AbstractHandler(next)
    }
  }

  ghost function AbstractHandler(h: Option<StoredHandler>): Option<HandlerState>
    reads if h.Some? then {h.value.login} else {}
  {
    if h.Some? then Some(h.value.State()) else None
  }

  lemma {:induction false} ReplyAllOne(r: Machine.Response, v: Reply)
    ensures ReplyAll(r, [v]) == ReplyOnce(r, v)
  {
    assert [v][1..] == [];
  }

  // ---- authen_ascii.go ----

  class AuthenticateASCII {
    const scope: Scope
    var username: Text

    constructor (scope: Scope, username: Text)
      ensures this.scope == scope && this.username == username
    {
      this.scope := scope;
      this.username := username;
    }

    method ContinueStop(body: Text) returns (stop: bool)
      ensures stop == Aborts(body)
    {
      var c := Authen.UnmarshalContinue(body);
      stop := c.Ok? && c.value.Abort();
    }

    method Handle(response: ResponseObject, req: Packet)
      requires response.Unused(req.header)
      modifies this, response`header, response`next, response`wire, response.crypter`output
      ensures response.Shows(AsciiHandle(scope.say, old(username), req.body), req.header)
      ensures response.next.Some? ==> response.next.value.login == this
    {
      var stop := ContinueStop(req.body);
      if stop {
        ReplyAllOne(Machine.Response(req.header, []), AbortReply(scope.say));
        var _ := response.Reply(AbortReply(scope.say));
        return;
      }
      if username == [] {
        response.Next(StoredHandler.GetUsername(this));
        ReplyAllOne(Machine.Response(req.header, []), AskUserReply(scope.say));
        var _ := response.Reply(AskUserReply(scope.say));
        return;
      }
      GetUsername(response, req);
    }

    method GetUsername(response: ResponseObject, req: Packet)
      requires response.Unused(req.header)
      modifies this, response`header, response`next, response`wire, response.crypter`output
      ensures response.Shows(AsciiGetUsername(scope.say, old(username), req.body), req.header)
      ensures response.next.Some? ==> response.next.value.login == this
    {
      var stop := ContinueStop(req.body);
      if stop {
        ReplyAllOne(Machine.Response(req.header, []), AbortReply(scope.say));
        var _ := response.Reply(AbortReply(scope.say));
        return;
      }
      if username == [] {
        var body := Authen.UnmarshalContinue(req.body);
        if !body.Ok? {
          var reply := AuthenMsg(AUTHEN_ERROR, scope.say(NoContinueForUser));
          ReplyAllOne(Machine.Response(req.header, []), reply);
          var _ := response.Reply(reply);
          return;
        }
        if |body.value.userMessage| == 0 {
          var reply := AuthenMsg(AUTHEN_ERROR, scope.say(NoUserMessage));
          ReplyAllOne(Machine.Response(req.header, []), reply);
          var _ := response.Reply(reply);
          return;
        }
        username := body.value.userMessage;
      }
      response.Next(StoredHandler.GetPassword(this));
      ReplyAllOne(Machine.Response(req.header, []), AskPassReply(scope.say));
      var _ := response.Reply(AskPassReply(scope.say));
    }

    method GetPassword(response: ResponseObject, req: Packet)
      requires response.Unused(req.header)
      modifies response`header, response`wire, response.crypter`output
      ensures response.Shows(AsciiGetPassword(scope, username, req.body), req.header)
    {
      var reply: Reply;
      var stop := ContinueStop(req.body);
      var body := Authen.UnmarshalContinue(req.body);
      if stop {
        reply := AbortReply(scope.say);
      } else if !body.Ok? {
        reply := AuthenMsg(AUTHEN_ERROR, scope.say(NoContinueForPass));
      } else if |body.value.userMessage| == 0 {
        reply := AuthenMsg(AUTHEN_ERROR, scope.say(UnknownUserOrPassword));
      } else if username !in scope.users {
        reply := AuthenMsg(AUTHEN_FAIL, scope.say(AuthenticationDeniedFor(username)));
      } else {
        reply := AuthenR(AuthenticatorReply(scope.users[username].authenticator, scope.say, req.body));
      }
      ReplyAllOne(Machine.Response(req.header, []), reply);
      var _ := response.Reply(reply);
    }
  }

  // ---- start.go and the handlers that finish a session at once ----

  method Start(scope: Scope, response: ResponseObject, req: Packet)
    requires response.Unused(req.header)
    modifies response`header, response`next, response`wire, response.crypter`output
    ensures response.Shows(StartHandle(scope, req), req.header)
    ensures response.next.Some? ==> fresh(response.next.value.login) && response.next.value.login.scope == scope
  {
    match req.header.typ {
      case 1 =>
        var route, user := FindRoute(req);
        if route == AsciiLogin {
          var login := new AuthenticateASCII(scope, user);
          login.Handle(response, req);
        } else {
          ReplyEach(response, req.header, AuthenticateStart(scope, req).replies);
        }
      case 2 =>
        var replies := AuthorizeReplies(scope, req.body);
        ReplyEach(response, req.header, replies);
      case 3 =>
        ReplyEach(response, req.header, AccountingRequest(scope, req).replies);
      case _ =>
    }
  }

  /** The router's lookup for a decoded START, and its user. */
  method FindRoute(req: Packet) returns (route: Route, user: Text)
    ensures match Authen.DecodeStart(req.body)
            case Ok(b) => route == Routed(b, req.header.version.minor) && user == b.user
            case _ => route == NoHandler
  {
    var start := Authen.UnmarshalStart(req.body);
    if !start.Ok? {
      return NoHandler, [];
    }
    RouterTests(start.value, req.header.version.minor);
    return RouterLookup(start.value, req.header.version.minor), start.value.user;
  }

  method AuthorizeReplies(scope: Scope, body: Text) returns (replies: seq<Reply>)
    ensures replies == AuthorizeRequest(scope, body).replies
  {
    var req := Author.UnmarshalRequest(body);
    if !req.Ok? {
      return [AuthorMsg(AUTHOR_ERROR, scope.say(InvalidAuthorRequest))];
    }
    if req.value.user !in scope.users {
      return [AuthorMsg(AUTHOR_FAIL, scope.say(AuthorizationDeniedFor(req.value.user)))];
    }
    var rs := Stringy.Handle(scope.users[req.value.user].authorizer, scope.regex, scope.say, body);
    return AsReplies(rs);
  }

  method ReplyEach(response: ResponseObject, ghost h: Header, replies: seq<Reply>)
    requires response.Unused(h)
    modifies response`header, response`wire, response.crypter`output
    ensures response.Shows(Effect(None, replies), h)
  {
    for i := 0 to |replies|
      invariant response.Sent() && response.next == None
      invariant ReplyAll(Machine.Response(response.header, response.wire), replies[i..]) ==
          ReplyAll(Machine.Response(h, []), replies)
    {
      assert replies[i..][1..] == replies[i + 1..];
      var _ := response.Reply(replies[i]);
    }
  }

  // ---- sessions.go ----

  datatype Context = Context(header: Header, handler: Option<StoredHandler>)

  ghost function LoginsOf(known: map<uint32, Context>): set<AuthenticateASCII> {
    set x | x in known && known[x].handler.Some? :: known[x].handler.value.login
  }

  /** No two sessions share a login object, and all belong to the connection's scope. */
  ghost predicate InOrder(known: map<uint32, Context>, scope: Scope) {
    (forall x, y :: x in known && y in known && x != y && known[x].handler.Some? && known[y].handler.Some? ==>
      known[x].handler.value.login != known[y].handler.value.login) &&
    (forall x :: x in known && known[x].handler.Some? ==> known[x].handler.value.login.scope == scope)
  }

  class Sessions {
    var known: map<uint32, Context>
    var sets: nat
    var deletes: nat

    constructor ()
      ensures known == map[] && sets == 0 && deletes == 0
    {
      known, sets, deletes := map[], 0, 0;
    }

    /** The login objects the table can reach. */
    ghost function Logins(): set<AuthenticateASCII>
      reads this
    {
      LoginsOf(known)
    }

    ghost function Abstract(): Table
      reads this, Logins()
    {
      Table(map x | x in known :: Entry(known[x].header, AbstractHandler(known[x].handler)), sets, deletes)
    }

    method Get(h: Header) returns (found: bool, handler: Option<StoredHandler>)
      modifies this
      ensures match Machine.Get(old(Abstract()), h)
              case Refused(t) => !found && Abstract() == t
              case Found(state) => found && unchanged(this) && AbstractHandler(handler) == state
      ensures found ==> handler == if h.session in known then known[h.session].handler else None
    {
      if !ClientSeqOk(h.seqNo) {
        Delete(h.session);
        return false, None;
      }
      if h.session !in known {
        return true, None;
      }
      if !LastSeqOk(known[h.session].header.seqNo, h.seqNo) {
        return false, None;
      }
      return true, known[h.session].handler;
    }

    method Set(h: Header)
      modifies this
      ensures known == old(known)[h.session := Context(h, None)] && sets == old(sets) + 1 && deletes == old(deletes)
      ensures Abstract() == Machine.Set(old(Abstract()), h)
    {
      known, sets := known[h.session := Context(h, None)], sets + 1;
    }

    method Update(h: Header, next: StoredHandler)
      modifies this
      ensures known == (if h.session in old(known) then old(known)[h.session := Context(h, Some(next))] else old(known))
      ensures Abstract() == Machine.Update(old(Abstract()), h, next.State())
    {
      if h.session in known {
        known := known[h.session := Context(h, Some(next))];
      }
    }

    method Delete(session: uint32)
      modifies this
      ensures known == old(known) - {session} && sets == old(sets) && deletes == old(deletes) + 1
      ensures Abstract() == Machine.Delete(old(Abstract()), session)
    {
      known, deletes := known - {session}, deletes + 1;
    }
  }

  // ---- server.go ----

  /** The stored handler, or the start handler when the table has none. */
  method Dispatch(ghost b: Behaviour, scope: Scope, response: ResponseObject, handler: Option<StoredHandler>, p: Packet)
    requires Implements(b, scope)
    requires response.Unused(p.header) && (handler.Some? ==> handler.value.login.scope == scope)
    modifies response`header, response`next, response`wire, response.crypter`output
    modifies if handler.Some? then {handler.value.login} else {}
    ensures response.Shows(b(old(AbstractHandler(handler)), p), p.header)
    ensures response.next.Some? ==> response.next.value.login.scope == scope
    ensures response.next.Some? && handler.Some? ==> response.next.value.login == handler.value.login
    ensures response.next.Some? && handler.None? ==> fresh(response.next.value.login)
  {
    ghost var state := AbstractHandler(handler);
    ghost var e := Handlers.Handle(scope, state, p);
    match handler {
      case None => Start(scope, response, p);
      case Some(GetUsername(a)) => a.GetUsername(response, p);
      case Some(GetPassword(a)) => a.GetPassword(response, p);
    }
    assert response.Shows(e, p.header);
  }

  /** Two tables that agree except perhaps on what is stored for session x. */
  ghost predicate AgreeElsewhere(t: Table, u: Table, x: uint32) {
    t.known.Keys == u.known.Keys && t.sets == u.sets && t.deletes == u.deletes &&
    forall y :: y in t.known && y != x ==> t.known[y] == u.known[y]
  }

  lemma OverwriteAgrees(t: Table, u: Table, h: Header, next: HandlerState)
    requires AgreeElsewhere(t, u, h.session)
    ensures Machine.Delete(t, h.session) == Machine.Delete(u, h.session) &&
            Machine.Update(t, h, next) == Machine.Update(u, h, next)
  {
    assert t.known - {h.session} == u.known - {h.session};
    var e := Entry(h, Some(next));
    assert t.known[h.session := e] == u.known[h.session := e];
  }

  lemma RemovalInOrder(known: map<uint32, Context>, scope: Scope, x: uint32)
    requires InOrder(known, scope)
    ensures InOrder(known - {x}, scope) && LoginsOf(known - {x}) <= LoginsOf(known)
  {
  }

  /** Replacing one session's login by its own or by one no session has keeps the table in order. */
  lemma UpdateInOrder(known: map<uint32, Context>, scope: Scope, x: uint32, h: Header, next: StoredHandler)
    requires InOrder(known, scope) && next.login.scope == scope && x in known
    requires if known[x].handler.Some? then known[x].handler.value.login == next.login
             else next.login !in LoginsOf(known)
    ensures var after := known[x := Context(h, Some(next))];
            InOrder(after, scope) && LoginsOf(after) <= LoginsOf(known) + {next.login}
  {
    var after := known[x := Context(h, Some(next))];
    forall y | y in known && y != x && known[y].handler.Some?
      ensures known[y].handler.value.login != next.login
    {
      assert known[y].handler.value.login in LoginsOf(known);
    }
  }

  /** The handler runs; of the table it can change only what session x stores. */
  method DispatchInTable(ghost b: Behaviour, scope: Scope, response: ResponseObject, sessions: Sessions,
                         handler: Option<StoredHandler>, p: Packet)
    requires Implements(b, scope) && InOrder(sessions.known, scope) && response.Unused(p.header)
    requires p.header.session in sessions.known && sessions.known[p.header.session].handler == handler
    modifies response`header, response`next, response`wire, response.crypter`output
    modifies if handler.Some? then {handler.value.login} else {}
    ensures response.Shows(b(old(AbstractHandler(handler)), p), p.header)
    ensures AgreeElsewhere(old(sessions.Abstract()), sessions.Abstract(), p.header.session)
    ensures NextLoginOk(response.next, handler, scope)
    ensures response.next.Some? && handler.None? ==> fresh(response.next.value.login)
  {
    assert handler.Some? ==> handler.value.login in sessions.Logins();
    ghost var t := sessions.Abstract();
    Dispatch(b, scope, response, handler, p);
    assert AgreeElsewhere(t, sessions.Abstract(), p.header.session) by {
      forall y | y in sessions.known && y != p.header.session
        ensures sessions.Abstract().known[y] == t.known[y]
      {
      }
    }
  }

  ghost predicate NextLoginOk(next: Option<StoredHandler>, handler: Option<StoredHandler>, scope: Scope) {
    next.Some? ==> next.value.login.scope == scope && (handler.Some? ==> next.value.login == handler.value.login)
  }

  /** delete or update, once the handler has run. */
  method Finish(scope: Scope, sessions: Sessions, response: ResponseObject, x: uint32, ghost t: Table,
                ghost handler: Option<StoredHandler>)
    requires InOrder(sessions.known, scope) && response.header.session == x && AgreeElsewhere(t, sessions.Abstract(), x)
    requires x in sessions.known && sessions.known[x].handler == handler && NextLoginOk(response.next, handler, scope)
    requires response.next.Some? && handler.None? ==> response.next.value.login !in sessions.Logins()
    modifies sessions
    ensures sessions.Abstract() == if response.next.None? then Machine.Delete(t, x)
                                   else Machine.Update(t, response.header, response.next.value.State())
    ensures InOrder(sessions.known, scope)
    ensures sessions.Logins() <=
            old(sessions.Logins()) + if response.next.Some? then {response.next.value.login} else {}
  {
    ghost var next := if response.next.Some? then response.next.value.State() else AskUser([]);
    OverwriteAgrees(t, sessions.Abstract(), response.header, next);
    if response.next.None? {
      RemovalInOrder(sessions.known, scope, x);
      sessions.Delete(x);
    } else {
      UpdateInOrder(sessions.known, scope, x, response.header, response.next.value);
      sessions.Update(response.header, response.next.value);
    }
  }

  /** The handler runs on a fresh response, and its outcome is filed. */
  method HandleAndFile(ghost b: Behaviour, scope: Scope, c: Crypter, sessions: Sessions,
                       handler: Option<StoredHandler>, p: Packet)
    requires Implements(b, scope) && InOrder(sessions.known, scope)
    requires p.header.session in sessions.known && sessions.known[p.header.session].handler == handler
    modifies sessions, c`output, if handler.Some? then {handler.value.login} else {}
    ensures var e := b(old(AbstractHandler(handler)), p);
            var r := ReplyAll(Machine.Response(p.header, []), e.replies);
            && sessions.Abstract() == Filed(old(sessions.Abstract()), p.header, r.header, e.next)
            && AllSendable(r.wire) && c.output == old(c.output) + WrittenAll(c.key, r.wire)
    ensures InOrder(sessions.known, scope) && fresh(sessions.Logins() - old(sessions.Logins()))
  {
    var response := new ResponseObject(c, p.header);
    ghost var e := b(AbstractHandler(handler), p);
    ghost var t := sessions.Abstract();
    ReplySession(Machine.Response(p.header, []), e.replies);
    DispatchInTable(b, scope, response, sessions, handler, p);
    ghost var r := ReplyAll(Machine.Response(p.header, []), e.replies);
    assert response.header == r.header && response.wire == r.wire && AbstractHandler(response.next) == e.next;
    Finish(scope, sessions, response, p.header.session, t, handler);
    assert sessions.Abstract() == Filed(t, p.header, r.header, e.next);
  }

  /** The table once the handler's outcome is filed. */
  ghost function Filed(t: Table, request: Header, reply: Header, next: Option<HandlerState>): Table {
    if next.None? then Machine.Delete(t, request.session) else Machine.Update(t, reply, next.value)
  }

  /** The lookup, which also makes the entry of a new session. */
  method LookUp(scope: Scope, sessions: Sessions, h: Header) returns (found: bool, handler: Option<StoredHandler>)
    requires InOrder(sessions.known, scope)
    modifies sessions
    ensures match Machine.Get(old(sessions.Abstract()), h)
            case Refused(t) => !found && sessions.Abstract() == t
            case Found(state) =>
              && found && AbstractHandler(handler) == state
              && sessions.Abstract() ==
                 if state.None? then Machine.Set(old(sessions.Abstract()), h) else old(sessions.Abstract())
    ensures found ==> InOrder(sessions.known, scope) && sessions.Logins() <= old(sessions.Logins())
    ensures found ==> h.session in sessions.known && sessions.known[h.session].handler == handler
  {
    found, handler := sessions.Get(h);
    if found && handler.None? {
      sessions.Set(h);
    }
  }

  /** The step of the machine, with its replies sent. */
  ghost predicate StepTaken(key: Key, b: Behaviour, t: Table, p: Packet, output: Text,
                            go: bool, t': Table, output': Text) {
    match Step(b, t, p)
    case Stop(after) => !go && t' == after && output' == output
    case Go(after, e) => go && t' == after && AllSendable(e.wire) && output' == output + WrittenAll(key, e.wire)
  }

  /** Looking up, handling and filing make the step. */
  lemma {:induction false} FiledIsStep(key: Key, b: Behaviour, t: Table, p: Packet, output: Text,
                                       state: Option<HandlerState>, t1: Table, t2: Table, output': Text)
    requires Machine.Get(t, p.header) == Found(state) && t1 == (if state.None? then Machine.Set(t, p.header) else t)
    requires var e := b(state, p);
             var r := ReplyAll(Machine.Response(p.header, []), e.replies);
             && t2 == Filed(t1, p.header, r.header, e.next)
             && AllSendable(r.wire) && output' == output + WrittenAll(key, r.wire)
    ensures StepTaken(key, b, t, p, output, true, t2, output')
  {
  }

  /** One packet: looked up, handled and filed, or refused. */
  method HandlePacket(ghost b: Behaviour, scope: Scope, c: Crypter, sessions: Sessions, p: Packet) returns (go: bool)
    requires Implements(b, scope) && InOrder(sessions.known, scope)
    modifies sessions, sessions.Logins(), c`output
    ensures StepTaken(c.key, b, old(sessions.Abstract()), p, old(c.output), go, sessions.Abstract(), c.output)
    ensures go ==> InOrder(sessions.known, scope) && fresh(sessions.Logins() - old(sessions.Logins()))
  {
    var found, handler := LookUp(scope, sessions, p.header);
    if !found {
      return false;
    }
    assert handler.Some? ==> handler.value.login in sessions.Logins();
    ghost var state, t1 := AbstractHandler(handler), sessions.Abstract();
    HandleAndFile(b, scope, c, sessions, handler, p);
    FiledIsStep(c.key, b, old(sessions.Abstract()), p, old(c.output), state, t1, sessions.Abstract(), c.output);
    return true;
  }

  /** Every packet a step writes can be written. */
  lemma {:induction false} StepSendable(b: Behaviour, t: Table, p: Packet)
    ensures Step(b, t, p).Go? ==> AllSendable(Step(b, t, p).event.wire)
  {
    if Step(b, t, p).Go? {
      ReplySendable(Machine.Response(p.header, []), b(Machine.Get(t, p.header).state, p).replies);
    }
  }

  lemma {:induction false} ReplySendable(r: Machine.Response, replies: seq<Reply>)
    requires AllSendable(r.wire)
    ensures AllSendable(ReplyAll(r, replies).wire)
    decreases replies
  {
    if replies == [] {
    } else {
      ReplySendable(ReplyOnce(r, replies[0]), replies[1..]);
    }
  }

  /** The bytes a connection sends from here on: replies to each packet read, until the peer's bytes run out,
      a packet cannot be read (a bad secret leaves its notice) or one is refused. */
  ghost function ServedBytes(key: Key, b: Behaviour, t: Table, input: Text): Text
    decreases |input|
  {
    match Receive(key, input)
    case Closed(notice) => notice
    case Received(p, rest) =>
      StepSendable(b, t, p);
      match Step(b, t, p)
      case Stop(_) => []
      case Go(t', e) => WrittenAll(key, e.wire) + ServedBytes(key, b, t', rest)
  }

  /** One turn of handle's loop: a packet is read and handled, or the connection ends. */
  method ServeOne(ghost b: Behaviour, scope: Scope, c: Crypter, sessions: Sessions) returns (go: bool)
    requires Implements(b, scope) && InOrder(sessions.known, scope)
    modifies c, sessions, sessions.Logins()
    ensures TurnTaken(c.key, b, old(sessions.Abstract()), old(c.input), old(c.output),
                      go, sessions.Abstract(), c.input, c.output)
    ensures go ==> |c.input| < |old(c.input)| && InOrder(sessions.known, scope)
    ensures go ==> fresh(sessions.Logins() - old(sessions.Logins()))
  {
    var packet := c.Read();
    if packet.None? {
      return false;
    }
    go := HandlePacket(b, scope, c, sessions, packet.value);
  }

  ghost predicate TurnTaken(key: Key, b: Behaviour, t: Table, input: Text, output: Text, go: bool, t': Table,
                            input': Text, output': Text) {
    match Receive(key, input)
    case Closed(notice) => !go && output' == output + notice
    case Received(p, rest) => StepTaken(key, b, t, p, output, go, t', output') && (go ==> input' == rest)
  }

  /** handle's loop, for any expression of the repository's handlers. */
  method ServeAs(ghost b: Behaviour, scope: Scope, c: Crypter)
    requires Implements(b, scope)
    modifies c
    ensures c.output == old(c.output) + ServedBytes(c.key, b, INIT.table, old(c.input))
  {
    var sessions := new Sessions();
    assert sessions.Abstract() == INIT.table;
    ghost var all := c.output + ServedBytes(c.key, b, sessions.Abstract(), c.input);
    while true
      invariant fresh(sessions) && fresh(sessions.Logins()) && InOrder(sessions.known, scope)
      invariant c.output + ServedBytes(c.key, b, sessions.Abstract(), c.input) == all
      decreases |c.input|
    {
      ghost var t, input, output := sessions.Abstract(), c.input, c.output;
      var go := ServeOne(b, scope, c, sessions);
      ServedNext(c.key, b, t, input, output, go, sessions.Abstract(), c.input, c.output);
      if !go {
        return;
      }
    }
  }

  /** What has been sent and what is still to come add up to the same bytes, turn by turn. */
  lemma {:induction false} ServedNext(key: Key, b: Behaviour, t: Table, input: Text, output: Text, go: bool,
                                      t': Table, input': Text, output': Text)
    requires TurnTaken(key, b, t, input, output, go, t', input', output')
    ensures output + ServedBytes(key, b, t, input) == output' + if go then ServedBytes(key, b, t', input') else []
  {
    if go {
      var wire := Step(b, t, Receive(key, input).packet).event.wire;
      ServedUnfolds(key, b, t, input);
      Associates(output, WrittenAll(key, wire), ServedBytes(key, b, t', input'));
    }
  }

  lemma {:induction false} ServedUnfolds(key: Key, b: Behaviour, t: Table, input: Text)
    requires Receive(key, input).Received? && Step(b, t, Receive(key, input).packet).Go?
    ensures var r := Receive(key, input);
            var turn := Step(b, t, r.packet);
            AllSendable(turn.event.wire) &&
            ServedBytes(key, b, t, input) == WrittenAll(key, turn.event.wire) + ServedBytes(key, b, turn.table, r.rest)
  {
    StepSendable(b, t, Receive(key, input).packet);
  }

  /** Server.handle sends exactly the bytes of the machine's replies. */
  method Serve(scope: Scope, c: Crypter)
    modifies c
    ensures c.output == old(c.output) + ServedBytes(c.key, Serving(scope), INIT.table, old(c.input))
  {
    ServingImplements(scope);
    ServeAs(Serving(scope), scope, c);
  }
}
