/** Which requests get a reply packet: a reply that does not marshal, or is too long, leaves the client without one. */
module Answers {
  import opened Aaa
  import opened Bytes
  import opened Config
  import opened EndToEnd
  import opened Fields
  import opened Handlers
  import opened Headers
  import opened Machine
  import opened Messages
  import opened Runs
  import opened SessionAuthorizer
  import opened Transport
  import Acct = Accounting
  import ArgLists
  import Arguments
  import Authen = Authenticate
  import Author = Authorize
  import CommandAuthorizer
  import Loader
  import ReadBuffers
  import SessionOrder
  import Stringy

  // ---- what is asked of the wording and of the accounters ----

  /** The client's text that a message repeats. */
  function NameIn(m: Message): Text {
    match m
    case AuthenticationDeniedFor(name) => name
    case AuthorizationDeniedFor(name) => name
    case AccountingLookupFailed(name) => name
    case _ => []
  }

  /** Messages are ASCII and at most 250 bytes, the client's own text aside. */
  ghost predicate PlainWording(say: Wording) {
    forall m: Message :: |say(m)| <= 250 + |NameIn(m)| && (AllAscii(NameIn(m)) ==> AllAscii(say(m)))
  }

  /** The reply marshals and is not too long. */
  predicate Goes(v: Reply) { v.Marshal().Some? && |v.Marshal().value| <= MAX_BODY_LENGTH }

  ghost predicate GoodAccounter(a: Accounter) { a.Logger? ==> forall p: Packet :: Goes(AcctR(a.account(p))) }

  // ---- single replies ----

  lemma AuthenGoes(v: Authen.AuthenReply)
    requires v.Valid() && |v.serverMsg| <= 65530 && v.data == []
    ensures Goes(AuthenR(v))
  {
    ReadBuffers.FlattenOf2([v.serverMsg, v.data]);
  }

  lemma AcctGoes(v: Acct.AcctReply)
    requires v.Valid() && |v.serverMsg| <= 65530 && v.data == []
    ensures Goes(AcctR(v))
  {
    ReadBuffers.FlattenOf2([v.serverMsg, v.data]);
  }

  lemma {:induction false} ArgsSize(args: seq<Text>)
    requires ValidArgs(args)
    ensures |ReadBuffers.Flatten(args)| <= 255 * |args|
  {
    if args == [] {
    } else {
      ArgsSize(args[1..]);
      assert ValidArg(args[0]);
    }
  }

  lemma AuthorSize(v: Author.AuthorReply)
    requires v.data == []
    ensures |v.Encode()| == 6 + |v.args| + |v.serverMsg| + |ReadBuffers.Flatten(v.args)|
  {
    Arguments.FlattenPast2(v.serverMsg, v.data, v.args);
  }

  lemma AuthorGoes(v: Author.AuthorReply)
    requires v.Valid() && v.data == []
    requires |v.args| <= 255 && |v.serverMsg| <= (if v.args == [] then 65530 else 250)
    ensures Goes(AuthorR(v))
  {
    AuthorSize(v);
    ArgsSize(v.args);
  }

  // ---- session authorization, exactly ----

  /** The set-values of every service that applies to these arguments can be sent. */
  ghost predicate ApplyingSendable(u: User, args: seq<Text>) {
    forall i :: 0 <= i < |u.services| && Applies(u.services[i], Seen(u, args)) ==> SendableValues(u.services[i])
  }

  lemma PlainApproval(say: Wording)
    requires PlainWording(say)
    ensures AllAscii(say(AuthorizationApproved)) && |say(AuthorizationApproved)| <= 250
    ensures AllAscii(say(NotAuthorized)) && |say(NotAuthorized)| <= 250
  {
    assert NameIn(AuthorizationApproved) == [] && NameIn(NotAuthorized) == [];
  }

  lemma DecisionShape(u: User, args: seq<Text>, regex: CommandAuthorizer.Regex, say: Wording)
    ensures var v := Stringy.Decision(u, args, regex, say);
            && v.data == [] && ValidAuthorStatus(v.status)
            && v.serverMsg in {say(AuthorizationApproved), say(NotAuthorized)}
            && v.args == if CommandAuthorizer.IsCommandRequest(args) then [] else ReplyArgs(u, args)
  {
  }

  /** The decision on session arguments goes out exactly when the set-values of the applying services can be sent and
      the reply is not too long. */
  lemma DecisionGoesIff(u: User, args: seq<Text>, regex: CommandAuthorizer.Regex, say: Wording)
    requires PlainWording(say) && !CommandAuthorizer.IsCommandRequest(args)
    ensures var v := Stringy.Decision(u, args, regex, say);
            Goes(AuthorR(v)) <==> ApplyingSendable(u, args) && |v.Encode()| <= MAX_BODY_LENGTH
  {
    var v := Stringy.Decision(u, args, regex, say);
    DecisionShape(u, args, regex, say);
    PlainApproval(say);
    ReplyArgsValidIff(u, args);
    assert v.Valid() <==> ApplyingSendable(u, args);
  }

  /** A request for a session that a user of the scope makes, as its session's first packet. */
  ghost predicate SessionRequest(s: Scope, p: Packet) {
    p.header.typ == AUTHORIZE && Author.DecodeRequest(p.body).Ok? &&
    Author.DecodeRequest(p.body).value.user in s.users &&
    !CommandAuthorizer.IsCommandRequest(Author.DecodeRequest(p.body).value.args)
  }

  ghost function DecisionOn(s: Scope, p: Packet): Author.AuthorReply
    requires SessionRequest(s, p)
  {
    var req := Author.DecodeRequest(p.body).value;
    Stringy.Decision(s.users[req.user].authorizer, req.args, s.regex, s.say)
  }

  lemma SessionReply(s: Scope, p: Packet)
    requires WellNamed(s) && SessionRequest(s, p)
    ensures Handle(s, None, p).replies == [AuthorR(DecisionOn(s, p))]
  {
    var user := Author.DecodeRequest(p.body).value.user;
    assert s.users[user].authorizer.name == user;
    assert Handle(s, None, p) == AuthorizeRequest(s, p.body);
    assert Stringy.Replies(s.users[user].authorizer, s.regex, s.say, p.body) == [DecisionOn(s, p)];
  }

  /** In every run, a session request numbered below 255 gets exactly one packet or none, and one exactly when the
      set-values of the services that apply to it can be sent and the reply is not too long. */
  lemma {:induction false} SessionAnsweredIff(s: Scope, ps: seq<Packet>, i: nat)
    requires WellNamed(s) && PlainWording(s.say) && FromWire(ps) && i < |Run(Serving(s), ps).log|
    requires Run(Serving(s), ps).log[i].before.None? && SessionRequest(s, ps[i]) && ps[i].header.seqNo < 255
    ensures var req, wire := Author.DecodeRequest(ps[i].body).value, Run(Serving(s), ps).log[i].wire;
            if ApplyingSendable(s.users[req.user].authorizer, req.args) &&
               |DecisionOn(s, ps[i]).Encode()| <= MAX_BODY_LENGTH
            then |wire| == 1 else wire == []
  {
    var req := Author.DecodeRequest(ps[i].body).value;
    EventIs(Serving(s), ps, i);
    SessionReply(s, ps[i]);
    DecisionGoesIff(s.users[req.user].authorizer, req.args, s.regex, s.say);
    SingleReply(ps[i].header, AuthorR(DecisionOn(s, ps[i])));
  }

  // ---- every request ----

  /** All set-values of all users can be sent, there are at most 255 for each, and accounters reply properly. */
  ghost predicate Answering(s: Scope) {
    PlainWording(s.say) && FewSetValues(s) &&
    forall name :: name in s.users ==>
      GoodAccounter(s.users[name].accounter) && AllServicesSendable(s.users[name].authorizer.services)
  }

  predicate AllServicesSendable(services: seq<Service>) {
    forall i :: 0 <= i < |services| ==> SendableValues(services[i])
  }

  lemma DecisionGoes(u: User, args: seq<Text>, regex: CommandAuthorizer.Regex, say: Wording)
    requires PlainWording(say) && AllServicesSendable(u.services) && SetValueCount(u.services) <= 255
    ensures Goes(AuthorR(Stringy.Decision(u, args, regex, say)))
  {
    ReplyArgsValidIff(u, args);
    ReplyArgsCount(u, args);
    DecisionShape(u, args, regex, say);
    PlainApproval(say);
    AuthorGoes(Stringy.Decision(u, args, regex, say));
  }

  lemma AuthorizeGoes(s: Scope, body: Text)
    requires WellNamed(s) && Answering(s)
    ensures |AuthorizeRequest(s, body).replies| == 1 && Goes(AuthorizeRequest(s, body).replies[0])
  {
    AuthorizeOneReply(s, body);
    if Author.DecodeRequest(body).Ok? {
      var req := Author.DecodeRequest(body).value;
      Author.RequestSound(body);
      if req.user in s.users {
        var u := s.users[req.user].authorizer;
        DecisionGoes(u, req.args, s.regex, s.say);
        assert Stringy.Replies(u, s.regex, s.say, body) == [Stringy.Decision(u, req.args, s.regex, s.say)];
      } else {
        assert NameIn(AuthorizationDeniedFor(req.user)) == req.user;
        AuthorGoes(Author.AuthorReply(AUTHOR_FAIL, [], s.say(AuthorizationDeniedFor(req.user)), []));
      }
    } else {
      assert NameIn(InvalidAuthorRequest) == [];
      AuthorGoes(Author.AuthorReply(AUTHOR_ERROR, [], s.say(InvalidAuthorRequest), []));
    }
  }

  lemma AccountingGoes(s: Scope, p: Packet)
    requires Answering(s)
    ensures |AccountingRequest(s, p).replies| == 1 && Goes(AccountingRequest(s, p).replies[0])
  {
    if Acct.DecodeRequest(p.body).Ok? {
      var user := Acct.DecodeRequest(p.body).value.user;
      AcctUser(p.body);
      if user !in s.users {
        assert NameIn(AccountingLookupFailed(user)) == user;
        AcctGoes(Acct.AcctReply(ACCT_ERROR, s.say(AccountingLookupFailed(user)), []));
      } else {
        AccounterGoes(s.users[user].accounter, s.say, p);
      }
    } else {
      assert NameIn(ExpectedAccounting) == [];
      AcctGoes(Acct.AcctReply(ACCT_ERROR, s.say(ExpectedAccounting), []));
    }
  }

  lemma AcctUser(body: Text)
    requires Acct.DecodeRequest(body).Ok?
    ensures |Acct.DecodeRequest(body).value.user| <= 255 && AllAscii(Acct.DecodeRequest(body).value.user)
  {
    Acct.RequestSound(body);
  }

  lemma AccounterGoes(a: Accounter, say: Wording, p: Packet)
    requires GoodAccounter(a) && PlainWording(say)
    ensures Goes(AcctR(AccounterReply(a, say, p)))
  {
    if a.NoAccounter? {
      assert NameIn(AccountingDenied) == [];
      AcctGoes(Acct.AcctReply(ACCT_ERROR, say(AccountingDenied), []));
    }
  }

  /** An authentication reply in the wording of the scope, about a name of at most this length. */
  ghost predicate Worded(v: Reply, say: Wording, longest: nat) {
    v.AuthenR? && v.authen.Valid() && v.authen.data == [] &&
    exists m: Message :: v.authen.serverMsg == say(m) && |NameIn(m)| <= longest
  }

  lemma WordedGoes(v: Reply, say: Wording, longest: nat)
    requires Worded(v, say, longest) && PlainWording(say) && longest <= 65280
    ensures Goes(v)
  {
    AuthenGoes(v.authen);
  }

  lemma SaysMessage(v: Reply, say: Wording, m: Message, longest: nat)
    requires v.AuthenR? && v.authen.Valid() && v.authen.data == [] && v.authen.serverMsg == say(m)
    requires |NameIn(m)| <= longest
    ensures Worded(v, say, longest)
  {
  }

  lemma CheckerReply(a: Authenticator, say: Wording, body: Text)
    ensures Worded(AuthenR(AuthenticatorReply(a, say, body)), say, 0)
  {
    var v := AuthenR(AuthenticatorReply(a, say, body));
    if a.DenyAll? {
      SaysMessage(v, say, AuthenticationDenied, 0);
    } else if GetPassword(body).None? {
      SaysMessage(v, say, MissingPassword, 0);
    } else if a.accepts(GetPassword(body).value) {
      SaysMessage(v, say, LoginSuccess, 0);
    } else {
      SaysMessage(v, say, LoginFailure, 0);
    }
  }

  lemma UsernameStepWorded(say: Wording, username: Text, body: Text)
    ensures var e := AsciiGetUsername(say, username, body); |e.replies| == 1 && Worded(e.replies[0], say, 0)
  {
    var v := AsciiGetUsername(say, username, body).replies[0];
    if Aborts(body) {
      SaysMessage(v, say, EndedByAbort, 0);
    } else if username != [] {
      SaysMessage(v, say, AskPassword, 0);
    } else if !Authen.DecodeContinue(body).Ok? {
      SaysMessage(v, say, NoContinueForUser, 0);
    } else if Authen.DecodeContinue(body).value.userMessage == [] {
      SaysMessage(v, say, NoUserMessage, 0);
    } else {
      SaysMessage(v, say, AskPassword, 0);
    }
  }

  lemma PasswordStepWorded(s: Scope, username: Text, body: Text)
    ensures var e := AsciiGetPassword(s, username, body); |e.replies| == 1 && Worded(e.replies[0], s.say, |username|)
  {
    var v := AsciiGetPassword(s, username, body).replies[0];
    if Aborts(body) {
      SaysMessage(v, s.say, EndedByAbort, |username|);
    } else if !Authen.DecodeContinue(body).Ok? {
      SaysMessage(v, s.say, NoContinueForPass, |username|);
    } else if Authen.DecodeContinue(body).value.userMessage == [] {
      SaysMessage(v, s.say, UnknownUserOrPassword, |username|);
    } else if username !in s.users {
      SaysMessage(v, s.say, AuthenticationDeniedFor(username), |username|);
    } else {
      CheckerReply(s.users[username].authenticator, s.say, body);
    }
  }

  lemma PapWorded(s: Scope, start: Authen.AuthenStart, body: Text)
    ensures var e := PapHandle(s, start, body); |e.replies| == 1 && Worded(e.replies[0], s.say, |start.user|)
  {
    var v := PapHandle(s, start, body).replies[0];
    if start.user == [] {
      SaysMessage(v, s.say, MissingUsername, |start.user|);
    } else if start.data == [] {
      SaysMessage(v, s.say, MissingPassword, |start.user|);
    } else if start.user !in s.users {
      SaysMessage(v, s.say, AuthenticationDeniedFor(start.user), |start.user|);
    } else {
      CheckerReply(s.users[start.user].authenticator, s.say, body);
    }
  }

  lemma UserShort(body: Text)
    requires Authen.DecodeStart(body).Ok?
    ensures |Authen.DecodeStart(body).value.user| <= 255
  {
    Authen.StartSound(body);
  }

  lemma AsciiWorded(say: Wording, username: Text, body: Text)
    ensures var e := AsciiHandle(say, username, body); |e.replies| == 1 && Worded(e.replies[0], say, 0)
  {
    var v := AsciiHandle(say, username, body).replies[0];
    if Aborts(body) {
      SaysMessage(v, say, EndedByAbort, 0);
    } else if username == [] {
      SaysMessage(v, say, AskUsername, 0);
    } else {
      UsernameStepWorded(say, username, body);
    }
  }

  lemma StartWorded(s: Scope, p: Packet)
    ensures var e := AuthenticateStart(s, p); |e.replies| == 1 && Worded(e.replies[0], s.say, 255)
  {
    var v := AuthenticateStart(s, p).replies[0];
    if Authen.DecodeStart(p.body).Ok? {
      var b := Authen.DecodeStart(p.body).value;
      UserShort(p.body);
      match Routed(b, p.header.version.minor) {
        case AsciiLogin => AsciiWorded(s.say, b.user, p.body);
        case PapLogin => PapWorded(s, b, p.body);
        case NoHandler => SaysMessage(v, s.say, UnknownStart, 255);
      }
    } else {
      SaysMessage(v, s.say, ExpectedStart(p.header.session), 255);
    }
  }

  lemma HandleGoes(s: Scope, state: Option<HandlerState>, p: Packet)
    requires WellNamed(s) && Answering(s) && 1 <= p.header.typ <= 3
    requires state.Some? ==> |state.value.username| <= 65280
    ensures |Handle(s, state, p).replies| == 1 && Goes(Handle(s, state, p).replies[0])
  {
    match state {
      case Some(AskUser(u)) =>
        UsernameStepWorded(s.say, u, p.body);
        WordedGoes(Handle(s, state, p).replies[0], s.say, 0);
      case Some(AskPass(u)) =>
        PasswordStepWorded(s, u, p.body);
        WordedGoes(Handle(s, state, p).replies[0], s.say, |u|);
      case None =>
        StartGoes(s, p);
    }
  }

  lemma StartGoes(s: Scope, p: Packet)
    requires WellNamed(s) && Answering(s) && 1 <= p.header.typ <= 3
    ensures |StartHandle(s, p).replies| == 1 && Goes(StartHandle(s, p).replies[0])
  {
    if p.header.typ == AUTHENTICATE {
      StartWorded(s, p);
      WordedGoes(AuthenticateStart(s, p).replies[0], s.say, 255);
    } else if p.header.typ == AUTHORIZE {
      AuthorizeGoes(s, p.body);
    } else {
      AccountingGoes(s, p);
    }
  }

  /** A waiting session's user name is no longer than the bodies the client sent. */
  lemma {:induction false} NameBound(b: Behaviour, ps: seq<Packet>, i: nat)
    requires Proper(b) && FromWire(ps) && i < |Run(b, ps).log|
    requires forall j :: 0 <= j < |ps| ==> |ps[j].body| <= 65280
    requires Run(b, ps).log[i].before.Some?
    ensures |Run(b, ps).log[i].before.value.username| <= 65280
  {
    var life := Life(Run(b, ps).log[..i], ps[i].header.session);
    WaitingName(b, ps, i);
    LifeInRun(b, ps, i, ps[i].header.session, |life| - 1);
  }

  lemma {:induction false} WaitingName(b: Behaviour, ps: seq<Packet>, i: nat)
    requires Proper(b) && FromWire(ps) && i < |Run(b, ps).log| && Run(b, ps).log[i].before.Some?
    ensures var life := Life(Run(b, ps).log[..i], ps[i].header.session);
            |life| > 0 && |Run(b, ps).log[i].before.value.username| <= |life[|life| - 1].body|
  {
    ShapeBefore(b, ps, i);
    LastFixesName(Life(Run(b, ps).log[..i], ps[i].header.session), Run(b, ps).log[i].before.value);
  }

  lemma {:induction false} LifeInRun(b: Behaviour, ps: seq<Packet>, i: nat, x: uint32, k: nat)
    requires i < |Run(b, ps).log| && k < |Life(Run(b, ps).log[..i], x)|
    ensures exists j :: 0 <= j < i && ps[j] == Life(Run(b, ps).log[..i], x)[k]
  {
    var log := Run(b, ps).log;
    LifeInLog(log[..i], x, k);
    var j :| 0 <= j < i && log[..i][j].request == Life(log[..i], x)[k] && log[..i][j].Of(x);
    assert log[..i][j] == log[j] && log[j].request == ps[j];
  }

  lemma LastFixesName(life: seq<Packet>, h: HandlerState)
    requires LifeShape(life, h)
    ensures |life| > 0 && |h.username| <= |life[|life| - 1].body|
  {
    var last := life[|life| - 1];
    if h.AskPass? && |life| == 2 {
      Authen.ContinueSound(last.body);
      ContinueHolds(Authen.DecodeContinue(last.body).value);
    } else if h.AskPass? {
      Authen.StartSound(last.body);
      StartHolds(Authen.DecodeStart(last.body).value);
    }
  }

  lemma ContinueHolds(c: Authen.AuthenContinue)
    ensures |c.userMessage| <= |c.Encode()|
  {
    ReadBuffers.FlattenOf2([c.userMessage, c.data]);
  }

  lemma StartHolds(v: Authen.AuthenStart)
    ensures |v.user| <= |v.Encode()|
  {
    ReadBuffers.FlattenOf4([v.user, v.port, v.remAddr, v.data]);
  }

  /** In every run of such a scope, with bodies of at most 65280 bytes, every accepted request numbered below 255 gets
      exactly one packet. */
  lemma {:induction false} EveryRequestAnswered(s: Scope, ps: seq<Packet>, i: nat)
    requires WellNamed(s) && Answering(s) && FromWire(ps) && i < |Run(Serving(s), ps).log|
    requires (forall j :: 0 <= j < |ps| ==> |ps[j].body| <= 65280) && ps[i].header.seqNo < 255
    ensures |Run(Serving(s), ps).log[i].wire| == 1
  {
    var e := Run(Serving(s), ps).log[i];
    ServingIsProper(s);
    if e.before.Some? {
      NameBound(Serving(s), ps, i);
    }
    EventIs(Serving(s), ps, i);
    HandleGoes(s, e.before, ps[i]);
    assert e.replies == [e.replies[0]];
    OneReply(s, e.before, ps[i]);
    SingleReply(ps[i].header, e.replies[0]);
  }

  /** All accounters a factory makes reply properly. */
  ghost predicate GoodFactories(f: Loader.Factories) {
    forall k, o: Options :: k in f.accounters ==> GoodAccounter(f.accounters[k](o))
  }

  /** Every user's own and group set-values can be sent. */
  ghost predicate SendableUsers(users: seq<User>) {
    forall i :: 0 <= i < |users| ==> AllServicesSendable(Stringy.Reduced(users[i]).services)
  }

  /** The conditions on a configuration under which the scopes built from it answer every request. */
  lemma {:induction false} ConfiguredAnswering(f: Loader.Factories, c: Loader.ServerConfig, p: Loader.Provider,
                                               regex: CommandAuthorizer.Regex, say: Wording)
    requires p in Loader.Providers(f, c.users, c.secrets)
    requires SmallUsers(c.users) && SendableUsers(c.users) && GoodFactories(f) && PlainWording(say)
    ensures var s := Scope(p.users, regex, say); WellNamed(s) && Answering(s)
  {
    Loader.BuiltScopes(f, c.users, c.secrets, p, regex, say);
    BuiltFewSetValues(f, c, p, regex, say);
    var names, vals := Loader.NamesOf(c.users), Loader.Landings(f, p.config.name, c.users);
    forall name | name in p.users
      ensures GoodAccounter(p.users[name].accounter) && AllServicesSendable(p.users[name].authorizer.services)
    {
      var i: nat :| Loader.IsLast(names, vals, name, i) && p.users[name] == vals[i].value;
      MadeServices(f, p.config.name, c.users[i]);
      MadeAccounter(f, p.config.name, c.users[i]);
    }
  }

  lemma MadeAccounter(f: Loader.Factories, scope: Text, u: User)
    requires GoodFactories(f)
    ensures Loader.MakeAAA(f, scope, u).Some? ==> GoodAccounter(Loader.MakeAAA(f, scope, u).value.accounter)
  {
  }

  // ---- a request that gets no packet ----

  /** A service for every session, with one set-value that renders to 256 bytes. */
  function TooLong(): Service { Service(SessionOrder.SCOPE, [], [Value(seq(255, i => 97), [], false)]) }

  lemma TooLongUnsendable()
    ensures !SendableValue(TooLong().setValues[0])
  {
    var r := TooLong().setValues[0].Render();
    assert |r| == 256 && r[0] == 97 && r[255] == 61;
    assert ArgLists.Trim(r) == r;
  }

  /** A request without arguments, from this user. */
  function Asking(u: Text): Author.AuthorRequest { Author.AuthorRequest(0, 0, 0, 0, u, [], [], []) }

  lemma AskingDecodes(u: Text)
    requires AllAscii(u) && |u| <= 255
    ensures |Asking(u).Encode()| == 8 + |u| && Author.DecodeRequest(Asking(u).Encode()) == Ok(Asking(u))
  {
    Arguments.FlattenPast3(u, [], [], []);
    Author.RequestRoundTrip(Asking(u), Asking(u).Encode());
  }

  /** The client of a user with that service can send a request that the server accepts and never answers. */
  lemma {:induction false} NoPacketSent(s: Scope, u: Text, session: uint32) returns (p: Packet)
    requires WellNamed(s) && PlainWording(s.say) && AllAscii(u) && |u| <= 255
    requires u in s.users && s.users[u].authorizer.services == [TooLong()]
    ensures p.header.Valid() && p.header.seqNo == 1 && Sendable(p) && !Flagged(p) && Delivered(p) == p
    ensures Run(Serving(s), [p]).open && |Run(Serving(s), [p]).log| == 1 && Run(Serving(s), [p]).log[0].wire == []
  {
    AskingDecodes(u);
    var body := Asking(u).Encode();
    p := Packet(Header(Version(0xc, 0), AUTHORIZE, 1, session, 0, |body|), body);
    ValidlyEncodedNotFlagged(p);
    FirstAccepted(Serving(s), p);
    TooLongApplies(s.users[u].authorizer);
    SessionAnsweredIff(s, [p], 0);
  }

  lemma {:induction false} FirstAccepted(b: Behaviour, p: Packet)
    requires p.header.Valid() && p.header.seqNo == 1
    ensures Run(b, [p]).open && |Run(b, [p]).log| == 1 && Run(b, [p]).log[0].before.None?
  {
    assert [] + [p] == [p];
    RunNext(b, [], p);
  }

  lemma TooLongApplies(u: User)
    requires u.services == [TooLong()]
    ensures !ApplyingSendable(u, [])
  {
    SessionOrder.ScopeIsNamed(u, []);
    TooLongUnsendable();
    assert Applies(u.services[0], Seen(u, []));
  }
}
