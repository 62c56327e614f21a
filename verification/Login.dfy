/** Whole ASCII logins: what a client that answers the prompts is told, alone, interleaved with other sessions, and
    over the wire. */
module Login {
  import opened Aaa
  import opened Bytes
  import opened Crypt
  import opened EndToEnd
  import opened Fields
  import opened Handlers
  import opened Headers
  import opened Machine
  import opened Messages
  import opened Runs
  import opened Transport
  import Arguments
  import Authen = Authenticate
  import Author = Authorize
  import ReadBuffers
  import Server

  // ---- steps that prompt ----

  /** The session waits for a packet numbered above n, to be given to this handler. */
  ghost predicate Waits(st: State, session: uint32, n: nat, handler: HandlerState) {
    st.open && session in st.table.known && st.table.known[session].handler == Some(handler) &&
    st.table.known[session].header.seqNo == n + 1
  }

  predicate IsPrompt(v: Reply) { v.AuthenR? && v.authen.status in {AUTHEN_GET_USER, AUTHEN_GET_PASS} }

  lemma {:induction false} PromptStep(b: Behaviour, st: State, p: Packet, state: Option<HandlerState>,
                                      next: HandlerState, v: Reply)
    requires st.open && p.header.Valid() && Get(st.table, p.header) == Found(state)
    requires b(state, p) == Effect(Some(next), [v]) && IsPrompt(v)
    ensures var st' := Extend(b, st, p);
            Waits(st', p.header.session, p.header.seqNo, next) && |st'.log| == |st.log| + 1
  {
    OutcomeEntry(st.table, p, state, b(state, p));
    PromptHeader(p.header, v);
  }

  /** The next packet of a waiting session is given to its handler when it is odd and at least two above the last, or
      the last was 255. */
  lemma {:induction false} NextFound(st: State, n: nat, handler: HandlerState, q: Packet)
    requires Waits(st, q.header.session, n, handler) && n % 2 == 1 && 1 <= n <= 255
    requires q.header.Valid() && q.header.seqNo % 2 == 1 && (n == 255 || q.header.seqNo >= n + 2)
    ensures Get(st.table, q.header) == Found(Some(handler))
  {
    NextAccepted(n, q.header.seqNo);
  }

  lemma {:induction false} StepLog(b: Behaviour, st: State, p: Packet, state: Option<HandlerState>)
    requires st.open && Get(st.table, p.header) == Found(state)
    ensures var st' := Extend(b, st, p);
            st'.open && |st'.log| == |st.log| + 1 && st'.log[|st.log|].replies == b(state, p).replies
  {
  }

  // ---- logins ----

  predicate Opens(p: Packet, username: Text) { OpensAscii(p, username) && !Aborts(p.body) }

  predicate Gives(p: Packet, message: Text) { Answers(p, message) && !Aborts(p.body) }

  /** One session's packets, numbered with odd numbers that rise and stay below 255. */
  ghost predicate InSequence(ps: seq<Packet>) {
    FromWire(ps) &&
    (forall i :: 0 <= i < |ps| ==>
      ps[i].header.session == ps[0].header.session && ps[i].header.seqNo % 2 == 1 && ps[i].header.seqNo < 255) &&
    (forall i :: 0 <= i < |ps| - 1 ==> ps[i + 1].header.seqNo >= ps[i].header.seqNo + 2)
  }

  /** A START that names the user, or one that does not and a CONTINUE that does; then a CONTINUE with the message m. */
  ghost predicate IsLogin(ps: seq<Packet>, u: Text, m: Text) {
    InSequence(ps) && u != [] && m != [] && 2 <= |ps| <= 3 &&
    (if |ps| == 2 then Opens(ps[0], u) else Opens(ps[0], []) && Gives(ps[1], u)) && Gives(ps[|ps| - 1], m)
  }

  lemma StartPrompts(s: Scope, p: Packet, u: Text)
    requires Opens(p, u)
    ensures Handle(s, None, p) ==
            if u == [] then Effect(Some(AskUser([])), [AskUserReply(s.say)])
            else Effect(Some(AskPass(u)), [AskPassReply(s.say)])
  {
    assert Handle(s, None, p) == AuthenticateStart(s, p);
  }

  lemma NamePrompts(s: Scope, p: Packet, u: Text)
    requires Gives(p, u) && u != []
    ensures Handle(s, Some(AskUser([])), p) == Effect(Some(AskPass(u)), [AskPassReply(s.say)])
  {
  }

  /** A login gets as far as the password step. */
  lemma {:induction false} LoginWaits(s: Scope, ps: seq<Packet>, u: Text, m: Text)
    requires IsLogin(ps, u, m)
    ensures var init, last := ps[..|ps| - 1], ps[|ps| - 1];
            |Run(Serving(s), init).log| == |init| &&
            Waits(Run(Serving(s), init), last.header.session, init[|init| - 1].header.seqNo, AskPass(u))
  {
    var b := Serving(s);
    assert [] + [ps[0]] == ps[..1];
    RunNext(b, [], ps[0]);
    if |ps| == 2 {
      StartPrompts(s, ps[0], u);
      PromptStep(b, INIT, ps[0], None, AskPass(u), AskPassReply(s.say));
    } else {
      StartPrompts(s, ps[0], []);
      PromptStep(b, INIT, ps[0], None, AskUser([]), AskUserReply(s.say));
      var st := Run(b, ps[..1]);
      NextFound(st, ps[0].header.seqNo, AskUser([]), ps[1]);
      NamePrompts(s, ps[1], u);
      assert ps[..1] + [ps[1]] == ps[..2];
      RunNext(b, ps[..1], ps[1]);
      PromptStep(b, st, ps[1], Some(AskUser([])), AskPass(u), AskPassReply(s.say));
    }
  }

  function PassReply(say: Wording): Reply { AuthenMsg(AUTHEN_PASS, say(LoginSuccess)) }

  lemma PasswordStep(s: Scope, u: Text, p: Packet, m: Text)
    requires Gives(p, m) && m != []
    ensures Handle(s, Some(AskPass(u)), p) == Final(PassReply(s.say)) <==> PasswordAccepted(s, u, p.body)
    ensures |Handle(s, Some(AskPass(u)), p).replies| == 1
  {
    StoredPassIff(s, AskPass(u), p);
    if Handle(s, Some(AskPass(u)), p) == Final(PassReply(s.say)) {
      assert Handle(s, Some(AskPass(u)), p).replies[0] == PassReply(s.say);
      assert SendsPass(Handle(s, Some(AskPass(u)), p));
    }
  }

  lemma {:induction false} LastStep(s: Scope, st: State, last: Packet, u: Text, m: Text)
    requires st.open && Get(st.table, last.header) == Found(Some(AskPass(u))) && Gives(last, m) && m != []
    ensures var st' := Extend(Serving(s), st, last);
            && st'.open && |st'.log| == |st.log| + 1
            && (st'.log[|st.log|].replies == [PassReply(s.say)] <==> PasswordAccepted(s, u, last.body))
  {
    PasswordStep(s, u, last, m);
    StepLog(Serving(s), st, last, Some(AskPass(u)));
    assert Handle(s, Some(AskPass(u)), last).next == None;
  }

  /** Every packet of a login is accepted, and the last one gets a Pass exactly when the check of the configured user
      accepts the password. */
  lemma {:induction false} LoginPasses(s: Scope, ps: seq<Packet>, u: Text, m: Text)
    requires IsLogin(ps, u, m)
    ensures var st := Run(Serving(s), ps);
            && st.open && |st.log| == |ps|
            && (st.log[|ps| - 1].replies == [PassReply(s.say)] <==> PasswordAccepted(s, u, ps[|ps| - 1].body))
  {
    var init, last := ps[..|ps| - 1], ps[|ps| - 1];
    LoginWaits(s, ps, u, m);
    NextFound(Run(Serving(s), init), init[|init| - 1].header.seqNo, AskPass(u), last);
    LastStep(s, Run(Serving(s), init), last, u, m);
    assert init + [last] == ps;
    RunNext(Serving(s), init, last);
  }

  /** The same among the packets of other sessions, as long as none is refused. */
  lemma {:induction false} InterleavedLoginPasses(s: Scope, ps: seq<Packet>, x: uint32, u: Text, m: Text)
    requires Run(Serving(s), ps).open && IsLogin(Only(ps, x), u, m)
    ensures var own, events := Only(ps, x), Project(Run(Serving(s), ps).log, x);
            && |events| == |own|
            && (events[|own| - 1].replies == [PassReply(s.say)] <==> PasswordAccepted(s, u, own[|own| - 1].body))
  {
    RepliesUndisturbed(Serving(s), ps, x);
    LoginPasses(s, Only(ps, x), u, m);
  }

  // ---- over the wire ----

  /** What a client of authentication packets, or of packets that are not obfuscated, gets back is readable. */
  lemma {:induction false} LoginReadable(s: Scope, ps: seq<Packet>)
    requires forall i :: 0 <= i < |ps| ==> ps[i].header.typ == AUTHENTICATE || ps[i].header.Unencrypted()
    ensures forall i :: 0 <= i < |Run(Serving(s), ps).log| ==> ReadableReplies(Run(Serving(s), ps).log[i])
  {
    var log := Run(Serving(s), ps).log;
    forall i | 0 <= i < |log|
      ensures ReadableReplies(log[i])
    {
      EventTypes(s, ps, i);
    }
  }

  /** A Pass for this request, under its own session and type and one number above it. */
  ghost predicate IsPassFor(last: Packet, request: Packet, say: Wording) {
    last.header.session == request.header.session && last.header.typ == request.header.typ &&
    last.header.seqNo == request.header.seqNo + 1 &&
    Authen.DecodeReply(last.body) == Ok(PassReply(say).authen)
  }

  /** Alike in everything but the length and the SingleConnect flag. */
  predicate SameTrip(p: Packet, q: Packet) {
    p.body == q.body && p.header.session == q.header.session && p.header.typ == q.header.typ &&
    p.header.seqNo == q.header.seqNo
  }

  /** The Pass of an accepted login is its last packet on the wire. */
  lemma {:induction false} LastIsPass(s: Scope, ps: seq<Packet>, u: Text, m: Text)
    requires IsLogin(ps, u, m) && PasswordAccepted(s, u, ps[|ps| - 1].body)
    requires |PassReply(s.say).authen.Encode()| <= MAX_BODY_LENGTH
    ensures var wire := WireOf(Run(Serving(s), ps).log);
            |wire| > 0 && IsPassFor(wire[|wire| - 1], ps[|ps| - 1], s.say)
  {
    LoginPasses(s, ps, u, m);
    LoginEnds(ps, u, m);
    PassGoesOut(Serving(s), ps, s.say);
  }

  lemma {:induction false} LoginEnds(ps: seq<Packet>, u: Text, m: Text)
    requires IsLogin(ps, u, m)
    ensures |ps| >= 2 && ps[|ps| - 1].header.Valid() && ps[|ps| - 1].header.seqNo < 255
  {
  }

  lemma {:induction false} PassGoesOut(b: Behaviour, ps: seq<Packet>, say: Wording)
    requires ps != [] && ps[|ps| - 1].header.Valid() && ps[|ps| - 1].header.seqNo < 255
    requires |Run(b, ps).log| == |ps| && Run(b, ps).log[|ps| - 1].replies == [PassReply(say)]
    requires |PassReply(say).authen.Encode()| <= MAX_BODY_LENGTH
    ensures var wire := WireOf(Run(b, ps).log); |wire| > 0 && IsPassFor(wire[|wire| - 1], ps[|ps| - 1], say)
  {
    var log, last := Run(b, ps).log, ps[|ps| - 1];
    EventIs(b, ps, |ps| - 1);
    assert log[|ps| - 1].wire == ReplyAll(Response(last.header, []), [PassReply(say)]).wire;
    PassPacket(last, say);
    WireEnds(log);
  }

  /** The packet that a Pass goes out in. */
  lemma {:induction false} PassPacket(p: Packet, say: Wording)
    requires p.header.Valid() && p.header.seqNo < 255 && |PassReply(say).authen.Encode()| <= MAX_BODY_LENGTH
    ensures var wire := ReplyAll(Response(p.header, []), [PassReply(say)]).wire;
            |wire| == 1 && IsPassFor(wire[0], p, say)
  {
    SingleReply(p.header, PassReply(say));
    AuthenReplyDecodes(PassReply(say).authen);
  }

  lemma {:induction false} WireEnds(log: seq<Event>)
    requires log != [] && |log[|log| - 1].wire| == 1
    ensures |WireOf(log)| > 0 && WireOf(log)[|WireOf(log)| - 1] == log[|log| - 1].wire[0]
  {
  }

  /** The client reads back exactly the replies of the run over its packets. */
  ghost predicate ReadsAll(key: Key, b: Behaviour, ps: seq<Packet>)
    requires AllSendable(ps)
  {
    var wire := WireOf(Run(b, DeliveredAll(ps)).log);
    AllSendable(wire) &&
    ReceiveAll(key, Server.ServedBytes(key, b, INIT.table, WrittenAll(key, ps))) == (DeliveredAll(wire), [])
  }

  /** Such a client reads back every reply. */
  lemma {:induction false} LoginReadBack(key: Key, s: Scope, ps: seq<Packet>)
    requires AllSendable(ps) && NoneFlagged(ps)
    requires forall i :: 0 <= i < |ps| ==> ps[i].header.typ == AUTHENTICATE || ps[i].header.Unencrypted()
    ensures ReadsAll(key, Serving(s), ps)
  {
    var arrived := DeliveredAll(ps);
    var wire := WireOf(Run(Serving(s), arrived).log);
    ReadBack(key, Serving(s), ps);
    DeliveredReadable(ps);
    LoginReadable(s, arrived);
    RunNotFlagged(Serving(s), arrived);
    AllUnflagged(wire);
    assert wire[..|wire|] == wire && wire[|wire|..] == [];
  }

  lemma {:induction false} DeliveredReadable(ps: seq<Packet>)
    requires AllSendable(ps)
    requires forall i :: 0 <= i < |ps| ==> ps[i].header.typ == AUTHENTICATE || ps[i].header.Unencrypted()
    ensures var arrived := DeliveredAll(ps);
            forall i :: 0 <= i < |arrived| ==> arrived[i].header.typ == AUTHENTICATE || arrived[i].header.Unencrypted()
  {
    forall i | 0 <= i < |ps|
      ensures Delivered(ps[i]).header.Unencrypted() == ps[i].header.Unencrypted()
    {
      SingleConnectKeepsUnencrypted(Sized(ps[i]));
    }
  }

  lemma {:induction false} LastDelivered(wire: seq<Packet>)
    requires AllSendable(wire) && |wire| > 0
    ensures SameTrip(DeliveredAll(wire)[|wire| - 1], wire[|wire| - 1])
  {
    assert DeliveredAll(wire)[|wire| - 1] == Delivered(wire[|wire| - 1]);
  }

  lemma {:induction false} LastRead(wire: seq<Packet>, ps: seq<Packet>, say: Wording)
    requires AllSendable(wire) && |wire| > 0 && AllSendable(ps) && |ps| > 0
    requires IsPassFor(wire[|wire| - 1], DeliveredAll(ps)[|ps| - 1], say)
    ensures IsPassFor(DeliveredAll(wire)[|wire| - 1], ps[|ps| - 1], say)
  {
    LastDelivered(wire);
    LastDelivered(ps);
  }

  /** The client reads every reply to its packets, and the last is a Pass for its last packet, under that packet's
      session and type. */
  ghost predicate ReadsPass(key: Key, b: Behaviour, ps: seq<Packet>, say: Wording) {
    AllSendable(ps) && |ps| > 0 &&
    var (got, left) := ReceiveAll(key, Server.ServedBytes(key, b, INIT.table, WrittenAll(key, ps)));
    left == [] && |got| > 0 && IsPassFor(got[|got| - 1], ps[|ps| - 1], say)
  }

  /** A client that logs in with a password the user's check accepts reads back a Pass as the last packet, under its
      own session and type, one number above its last request. */
  lemma {:induction false} LoginReadsPass(key: Key, s: Scope, ps: seq<Packet>, u: Text, m: Text)
    requires AllSendable(ps) && NoneFlagged(ps)
    requires forall i :: 0 <= i < |ps| ==> ps[i].header.typ == AUTHENTICATE || ps[i].header.Unencrypted()
    requires IsLogin(DeliveredAll(ps), u, m) && PasswordAccepted(s, u, DeliveredAll(ps)[|ps| - 1].body)
    requires |PassReply(s.say).authen.Encode()| <= MAX_BODY_LENGTH
    ensures ReadsPass(key, Serving(s), ps, s.say)
  {
    LastIsPass(s, DeliveredAll(ps), u, m);
    LoginEnds(DeliveredAll(ps), u, m);
    ReadsLast(key, s, ps);
  }

  /** The last reply of the run is a Pass for the last packet. */
  ghost predicate EndsWithPass(b: Behaviour, ps: seq<Packet>, say: Wording)
    requires AllSendable(ps) && |ps| > 0
  {
    var wire := WireOf(Run(b, DeliveredAll(ps)).log);
    |wire| > 0 && IsPassFor(wire[|wire| - 1], DeliveredAll(ps)[|ps| - 1], say)
  }

  lemma {:induction false} ReadsLast(key: Key, s: Scope, ps: seq<Packet>)
    requires AllSendable(ps) && NoneFlagged(ps) && |ps| > 0
    requires forall i :: 0 <= i < |ps| ==> ps[i].header.typ == AUTHENTICATE || ps[i].header.Unencrypted()
    requires EndsWithPass(Serving(s), ps, s.say)
    ensures ReadsPass(key, Serving(s), ps, s.say)
  {
    LoginReadBack(key, s, ps);
    PassRead(key, Serving(s), ps, s.say);
  }

  lemma {:induction false} PassRead(key: Key, b: Behaviour, ps: seq<Packet>, say: Wording)
    requires AllSendable(ps) && |ps| > 0 && ReadsAll(key, b, ps) && EndsWithPass(b, ps, say)
    ensures ReadsPass(key, b, ps, say)
  {
    LastRead(WireOf(Run(b, DeliveredAll(ps)).log), ps, say);
  }

  // ---- packets that make a login ----

  function Sent(typ: byte, session: uint32, n: byte, flags: byte, body: Text): Packet
    requires |body| <= MAX_BODY_LENGTH
  {
    Packet(Header(Version(0xc, 0), typ, n, session, flags, |body|), body)
  }

  function StartBody(u: Text): Text { Authen.AuthenStart(ACTION_LOGIN, 0, TYPE_ASCII, 0, u, [], [], []).Encode() }

  function ContinueBody(m: Text): Text { Authen.AuthenContinue(0, m, []).Encode() }

  lemma StartBodyOpens(u: Text)
    requires AllAscii(u) && |u| <= 255
    ensures |StartBody(u)| == 8 + |u| && !Aborts(StartBody(u))
    ensures Authen.DecodeStart(StartBody(u)) == Ok(Authen.AuthenStart(ACTION_LOGIN, 0, TYPE_ASCII, 0, u, [], [], []))
  {
    ReadBuffers.FlattenOf4([u, [], [], []]);
    Authen.StartRoundTrip(Authen.AuthenStart(ACTION_LOGIN, 0, TYPE_ASCII, 0, u, [], [], []), StartBody(u));
    Authen.StartIsNotContinue(StartBody(u));
  }

  lemma ContinueBodyGives(m: Text)
    requires AllAscii(m) && |m| <= 65531
    ensures |ContinueBody(m)| == 5 + |m| && !Aborts(ContinueBody(m))
    ensures Authen.DecodeContinue(ContinueBody(m)) == Ok(Authen.AuthenContinue(0, m, []))
    ensures GetPassword(ContinueBody(m)) == Some(m)
  {
    ReadBuffers.FlattenOf2([m, []]);
    Authen.ContinueRoundTrip(Authen.AuthenContinue(0, m, []), ContinueBody(m));
    PasswordIsUserMessage(ContinueBody(m));
  }

  ghost predicate Carries(p: Packet, typ: byte, session: uint32, n: byte) {
    p.header.Valid() && p.header.typ == typ && p.header.session == session && p.header.seqNo == n
  }

  /** The packet can be sent, gets past the bad-secret guess and arrives as it is. */
  ghost predicate Ready(p: Packet) {
    Sendable(p) && !Flagged(p) && p.header.length == |p.body| && p.header.seqNo != 2 &&
    (p.header.typ == AUTHENTICATE || p.header.Unencrypted())
  }

  ghost predicate AllReady(ps: seq<Packet>) { forall i :: 0 <= i < |ps| ==> Ready(ps[i]) }

  lemma {:induction false} ReadyIsDelivered(ps: seq<Packet>)
    requires AllReady(ps)
    ensures AllSendable(ps) && NoneFlagged(ps) && DeliveredAll(ps) == ps
  {
  }

  lemma StartPacket(session: uint32, n: byte, u: Text) returns (p: Packet)
    requires AllAscii(u) && |u| <= 255 && n % 2 == 1
    ensures Carries(p, AUTHENTICATE, session, n) && Opens(p, u) && Ready(p)
  {
    StartBodyOpens(u);
    p := Sent(AUTHENTICATE, session, n, 0, StartBody(u));
    ValidlyEncodedNotFlagged(p);
  }

  /** Authentication packets are obfuscated here and others are not. */
  function FlagsFor(typ: byte): byte { if typ == AUTHENTICATE then 0 else UNENCRYPTED }

  lemma ContinuePacket(typ: byte, session: uint32, n: byte, m: Text) returns (p: Packet)
    requires AllAscii(m) && |m| <= 65531 && n % 2 == 1 && 1 <= typ <= 3
    ensures Carries(p, typ, session, n) && Gives(p, m) && GetPassword(p.body) == Some(m) && Ready(p)
  {
    ContinueBodyGives(m);
    p := Sent(typ, session, n, FlagsFor(typ), ContinueBody(m));
    if typ == AUTHENTICATE {
      ValidlyEncodedNotFlagged(p);
    } else {
      ClearIsReady(typ, session, n, ContinueBody(m));
    }
  }

  lemma ClearIsReady(typ: byte, session: uint32, n: byte, body: Text)
    requires 1 <= typ <= 3 && n % 2 == 1 && |body| <= MAX_BODY_LENGTH
    ensures Ready(Sent(typ, session, n, UNENCRYPTED, body))
  {
    assert Sent(typ, session, n, UNENCRYPTED, body).header.Unencrypted();
  }

  lemma TwoInSequence(a: Packet, c: Packet, session: uint32)
    requires Carries(a, a.header.typ, session, 1) && Carries(c, c.header.typ, session, 3)
    ensures InSequence([a, c])
  {
  }

  lemma ThreeInSequence(a: Packet, n: Packet, c: Packet, session: uint32)
    requires Carries(a, a.header.typ, session, 1) && Carries(n, n.header.typ, session, 3) &&
             Carries(c, c.header.typ, session, 5)
    ensures InSequence([a, n, c])
  {
  }

  /** Any ASCII message of up to 65531 bytes and user name of as many, or of up to 255 in the START, make a login,
      whatever the type of the packet that carries the message. */
  lemma LoginExists(session: uint32, u: Text, m: Text, named: bool, typ: byte) returns (ps: seq<Packet>)
    requires AllAscii(u) && 1 <= |u| <= 65531 && (named ==> |u| <= 255) && AllAscii(m) && 1 <= |m| <= 65531
    requires 1 <= typ <= 3
    ensures IsLogin(ps, u, m) && AllReady(ps) && |ps| == if named then 2 else 3
    ensures var last := ps[|ps| - 1];
            last.header.session == session && last.header.typ == typ && GetPassword(last.body) == Some(m)
  {
    var c := ContinuePacket(typ, session, if named then 3 else 5, m);
    if named {
      var a := StartPacket(session, 1, u);
      TwoInSequence(a, c, session);
      ps := [a, c];
    } else {
      var a := StartPacket(session, 1, []);
      var n := ContinuePacket(AUTHENTICATE, session, 3, u);
      ThreeInSequence(a, n, c, session);
      ps := [a, n, c];
    }
  }

  ghost predicate Accepts(s: Scope, u: Text, m: Text) {
    u in s.users && s.users[u].authenticator.Checker? && s.users[u].authenticator.accepts(m)
  }

  /** So every configured user can log in over the wire with any password the check accepts. The packet that carries
      it can be of any type: stored handlers do not look at it, and the Pass then comes back under that type. */
  lemma {:induction false} LoginSucceeds(key: Key, s: Scope, session: uint32, u: Text, m: Text, named: bool, typ: byte)
    returns (ps: seq<Packet>)
    requires AllAscii(u) && 1 <= |u| <= 65531 && (named ==> |u| <= 255) && AllAscii(m) && 1 <= |m| <= 65531
    requires 1 <= typ <= 3 && Accepts(s, u, m) && |PassReply(s.say).authen.Encode()| <= MAX_BODY_LENGTH
    ensures AllSendable(ps) && NoneFlagged(ps) && DeliveredAll(ps) == ps && IsLogin(ps, u, m)
    ensures |ps| == (if named then 2 else 3) && ps[|ps| - 1].header.typ == typ
    ensures ReadsPass(key, Serving(s), ps, s.say)
  {
    ps := LoginExists(session, u, m, named, typ);
    ReadyIsDelivered(ps);
    LoginReadsPass(key, s, ps, u, m);
  }

  /** In such a run with an authorization packet, an authentication reply answers it. */
  lemma {:induction false} OtherTypeLogsIn(key: Key, s: Scope, u: Text, m: Text) returns (ps: seq<Packet>)
    requires AllAscii(u) && 1 <= |u| <= 255 && AllAscii(m) && 1 <= |m| <= 65531
    requires Accepts(s, u, m) && |PassReply(s.say).authen.Encode()| <= MAX_BODY_LENGTH
    ensures AllSendable(ps) && NoneFlagged(ps) && DeliveredAll(ps) == ps && FromWire(ps) && |ps| == 2
    ensures Run(Serving(s), ps).open && |Run(Serving(s), ps).log| == 2 && !TypesMatch(Run(Serving(s), ps).log)
    ensures ReadsPass(key, Serving(s), ps, s.say) && ps[1].header.typ == AUTHORIZE
  {
    ps := LoginSucceeds(key, s, 7, u, m, true, AUTHORIZE);
    OtherTypeMismatch(s, ps, u, m);
  }

  lemma {:induction false} OtherTypeMismatch(s: Scope, ps: seq<Packet>, u: Text, m: Text)
    requires IsLogin(ps, u, m) && |ps| == 2 && ps[1].header.typ != AUTHENTICATE
    ensures Run(Serving(s), ps).open && |Run(Serving(s), ps).log| == 2 && !TypesMatch(Run(Serving(s), ps).log)
  {
    LoginPasses(s, ps, u, m);
    EventTypes(s, ps, 1);
    SecondIsStored(s, ps, u, m);
    assert Run(Serving(s), ps).log[1].replies[0].Type() == AUTHENTICATE;
  }

  lemma {:induction false} SecondIsStored(s: Scope, ps: seq<Packet>, u: Text, m: Text)
    requires IsLogin(ps, u, m) && |ps| == 2 && |Run(Serving(s), ps).log| == 2
    ensures Run(Serving(s), ps).log[1].before.Some?
  {
    LoginWaits(s, ps, u, m);
    LookupAt(Serving(s), ps, 1);
    NextFound(Run(Serving(s), ps[..1]), ps[0].header.seqNo, AskPass(u), ps[1]);
  }

  /** Obfuscated, such a packet has to get past the bad-secret guess first; if it trips it, the prompts are followed by
      the notice and the connection ends. */
  lemma {:induction false} FlaggedLoginStops(key: Key, s: Scope, ps: seq<Packet>, u: Text, m: Text)
    requires AllSendable(ps) && IsLogin(DeliveredAll(ps), u, m)
    requires NoneFlagged(ps[..|ps| - 1]) && Flagged(ps[|ps| - 1])
    ensures var init, last := ps[..|ps| - 1], ps[|ps| - 1];
            var prompts := WireOf(Run(Serving(s), DeliveredAll(init)).log);
            && AllSendable(prompts) && Sized(last).AsRead().Valid()
            && Server.ServedBytes(key, Serving(s), INIT.table, WrittenAll(key, ps)) ==
               WrittenAll(key, prompts) + Notice(key, Sized(last).AsRead())
  {
    PromptsOpen(s, ps, u, m);
    LastFlaggedStops(key, Serving(s), ps);
  }

  lemma {:induction false} DeliveredInit(ps: seq<Packet>)
    requires AllSendable(ps) && ps != []
    ensures AllSendable(ps[..|ps| - 1]) && DeliveredAll(ps[..|ps| - 1]) == DeliveredAll(ps)[..|ps| - 1]
  {
  }

  lemma {:induction false} PromptsOpen(s: Scope, ps: seq<Packet>, u: Text, m: Text)
    requires AllSendable(ps) && IsLogin(DeliveredAll(ps), u, m)
    ensures ps != [] && AllSendable(ps[..|ps| - 1]) && Run(Serving(s), DeliveredAll(ps[..|ps| - 1])).open
  {
    LoginOpen(s, DeliveredAll(ps), u, m);
    DeliveredInit(ps);
  }

  lemma {:induction false} LoginOpen(s: Scope, ps: seq<Packet>, u: Text, m: Text)
    requires IsLogin(ps, u, m)
    ensures ps != [] && Run(Serving(s), ps[..|ps| - 1]).open
  {
    LoginWaits(s, ps, u, m);
  }

  lemma {:induction false} LastFlaggedStops(key: Key, b: Behaviour, ps: seq<Packet>)
    requires AllSendable(ps) && ps != [] && NoneFlagged(ps[..|ps| - 1]) && Flagged(ps[|ps| - 1])
    ensures var init, last := ps[..|ps| - 1], ps[|ps| - 1];
            var st := Run(b, DeliveredAll(init));
            && AllSendable(WireOf(st.log)) && Sized(last).AsRead().Valid()
            && Server.ServedBytes(key, b, INIT.table, WrittenAll(key, ps)) ==
               WrittenAll(key, WireOf(st.log)) + if st.open then Notice(key, Sized(last).AsRead()) else []
  {
    WrittenLast(key, ps);
    ServedUpToFlagged(key, b, ps[..|ps| - 1], ps[|ps| - 1], []);
  }

  lemma {:induction false} WrittenLast(key: Key, ps: seq<Packet>)
    requires AllSendable(ps) && ps != []
    ensures var init, last := ps[..|ps| - 1], ps[|ps| - 1];
            AllSendable(init) && WrittenAll(key, ps) == WrittenAll(key, init) + (Written(key, last) + [])
  {
    var init, last := ps[..|ps| - 1], ps[|ps| - 1];
    WrittenAllAppend(key, init, [last]);
    WrittenAllCons(key, last, []);
    assert init + [last] == ps && [last] + [] == [last];
  }

  /** An ordinary password trips it: 3 to 60 printable bytes in an obfuscated authorization packet. */
  lemma OrdinaryPasswordFlagged(session: uint32, n: byte, m: Text)
    requires 3 <= |m| <= 60 && forall i :: 0 <= i < |m| ==> 32 <= m[i] <= 126
    ensures |ContinueBody(m)| == 5 + |m| && Flagged(Sent(AUTHORIZE, session, n, 0, ContinueBody(m)))
  {
    ContinueBytes(m);
    RequestFlags(ContinueBody(m));
    ReplyFlags(ContinueBody(m));
  }

  lemma ContinueBytes(m: Text)
    requires 3 <= |m| <= 60
    ensures ContinueBody(m) == [0, |m|, 0, 0, 0] + m
  {
    ReadBuffers.FlattenOf2([m, []]);
    assert Hi8(|m|) == 0 && Low8(|m|) == |m| && Hi8(0) == 0 && Low8(0) == 0;
  }

  lemma RequestFlags(data: Text)
    requires 8 <= |data| <= 65 && data[5] >= 32 && data[6] >= 32
    ensures Author.RequestOverruns(data)
  {
    var lens := ReadBuffers.LensAt(data[8..], data[7]);
    Arguments.SumPast3(data[4], data[5], data[6], lens);
  }

  lemma ReplyFlags(data: Text)
    requires 8 <= |data| && data[1] as nat == |data| - 5 && data[5] >= 32
    requires data[2] == 0 && data[3] == 0 && data[4] == 0
    ensures Author.ReplyOverruns(data)
  {
    var lens := ReadBuffers.LensAt(data[6..], data[1]);
    Arguments.SumPast2(FromBE16(data[2], data[3]), FromBE16(data[4], data[5]), lens);
  }

  /** A live session whose last request was numbered 255 takes a packet numbered 1. */
  lemma {:induction false} AcceptedAfter255(s: Scope, session: uint32) returns (p: Packet, q: Packet)
    ensures p.header.session == session && q.header.session == session && Ready(p) && Ready(q)
    ensures p.header.seqNo == 255 && q.header.seqNo == 1
    ensures Waits(Run(Serving(s), [p]), session, 255, AskUser([])) && Run(Serving(s), [p] + [q]).open
  {
    p := StartPacket(session, 255, []);
    q := StartPacket(session, 1, []);
    var b := Serving(s);
    StartPrompts(s, p, []);
    assert [] + [p] == [p];
    RunNext(b, [], p);
    PromptStep(b, INIT, p, None, AskUser([]), AskUserReply(s.say));
    NextFound(Run(b, [p]), 255, AskUser([]), q);
    RunNext(b, [p], q);
    StepLog(b, Run(b, [p]), q, Some(AskUser([])));
  }
}
