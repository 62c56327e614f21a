/** From the packets a client writes to the packets it reads back, through both byte streams. */
module EndToEnd {
  import opened Aaa
  import opened Bytes
  import opened Config
  import opened Crypt
  import opened Fields
  import opened Handlers
  import opened Headers
  import opened Machine
  import opened Messages
  import opened Transport
  import Acct = Accounting
  import Arguments
  import Authen = Authenticate
  import Author = Authorize
  import CommandAuthorizer
  import Loader
  import ReadBuffers
  import Runs
  import Server
  import SessionAuthorizer
  import Stringy

  /** All packets of a log, in the order they were written. */
  ghost function WireOf(log: seq<Event>): seq<Packet> {
    if log == [] then [] else WireOf(log[..|log| - 1]) + log[|log| - 1].wire
  }

  ghost function RunFrom(b: Behaviour, st: State, ps: seq<Packet>): State
    decreases |ps|
  {
    if ps == [] then st else RunFrom(b, Extend(b, st, ps[0]), ps[1..])
  }

  lemma {:induction false} RunFromIsRun(b: Behaviour, qs: seq<Packet>, ps: seq<Packet>)
    ensures RunFrom(b, Run(b, qs), ps) == Run(b, qs + ps)
    decreases |ps|
  {
    if ps == [] {
      assert qs + ps == qs;
    } else {
      RunNext(b, qs, ps[0]);
      RunFromIsRun(b, qs + [ps[0]], ps[1..]);
      assert (qs + [ps[0]]) + ps[1..] == qs + ps;
    }
  }

  lemma {:induction false} RunFromStopped(b: Behaviour, st: State, ps: seq<Packet>)
    requires !st.open
    ensures RunFrom(b, st, ps) == st
    decreases |ps|
  {
    if ps == [] {
    } else {
      RunFromStopped(b, st, ps[1..]);
    }
  }

  lemma {:induction false} WireNext(log: seq<Event>, e: Event)
    requires AllSendable(WireOf(log)) && AllSendable(e.wire)
    ensures WireOf(log + [e]) == WireOf(log) + e.wire && AllSendable(WireOf(log + [e]))
  {
    assert (log + [e])[..|log|] == log;
  }

  /** The next packet on the stream is read, stepped and answered, or ends the connection. */
  lemma {:induction false} ServedTurn(key: Key, b: Behaviour, st: State, p: Packet, tail: Text)
    requires Sendable(p) && !Flagged(p) && st.open && AllSendable(WireOf(st.log))
    ensures var st' := Extend(b, st, Delivered(p));
            AllSendable(WireOf(st'.log)) &&
            WrittenAll(key, WireOf(st.log)) + Server.ServedBytes(key, b, st.table, Written(key, p) + tail) ==
            WrittenAll(key, WireOf(st'.log)) + if st'.open then Server.ServedBytes(key, b, st'.table, tail) else []
  {
    WrittenIsReceived(key, p, tail);
    var turn := Step(b, st.table, Delivered(p));
    if turn.Go? {
      Server.StepSendable(b, st.table, Delivered(p));
      WireNext(st.log, turn.event);
      WrittenAllAppend(key, WireOf(st.log), turn.event.wire);
      Server.ServedUnfolds(key, b, st.table, Written(key, p) + tail);
      Associates(WrittenAll(key, WireOf(st.log)), WrittenAll(key, turn.event.wire),
                 Server.ServedBytes(key, b, turn.table, tail));
    }
  }

  /** From any open state: what was sent, and what is still sent for these packets and the bytes behind them. */
  lemma {:induction false} ServedFrom(key: Key, b: Behaviour, st: State, ps: seq<Packet>, tail: Text)
    requires AllSendable(ps) && NoneFlagged(ps) && st.open && AllSendable(WireOf(st.log))
    ensures var st' := RunFrom(b, st, DeliveredAll(ps));
            AllSendable(WireOf(st'.log)) &&
            WrittenAll(key, WireOf(st.log)) + Server.ServedBytes(key, b, st.table, WrittenAll(key, ps) + tail) ==
            WrittenAll(key, WireOf(st'.log)) + if st'.open then Server.ServedBytes(key, b, st'.table, tail) else []
    decreases |ps|
  {
    if ps == [] {
      assert WrittenAll(key, ps) + tail == tail;
    } else {
      var st', rest := Extend(b, st, Delivered(ps[0])), WrittenAll(key, ps[1..]) + tail;
      assert WrittenAll(key, ps) + tail == Written(key, ps[0]) + rest;
      ServedTurn(key, b, st, ps[0], rest);
      DeliveredNext(ps);
      assert DeliveredAll(ps)[1..] == DeliveredAll(ps[1..]);
      if st'.open {
        ServedFrom(key, b, st', ps[1..], tail);
      } else {
        RunFromStopped(b, st', DeliveredAll(ps[1..]));
      }
    }
  }

  /** Fed the bytes of the client's packets, the server sends the bytes of the machine's replies; if none was
      refused it goes on with the bytes behind them. */
  lemma {:induction false} ServedThen(key: Key, b: Behaviour, ps: seq<Packet>, tail: Text)
    requires AllSendable(ps) && NoneFlagged(ps)
    ensures var st := Run(b, DeliveredAll(ps));
            AllSendable(WireOf(st.log)) &&
            Server.ServedBytes(key, b, INIT.table, WrittenAll(key, ps) + tail) ==
            WrittenAll(key, WireOf(st.log)) + if st.open then Server.ServedBytes(key, b, st.table, tail) else []
  {
    ServedFrom(key, b, INIT, ps, tail);
    RunFromIsRun(b, [], DeliveredAll(ps));
    assert [] + DeliveredAll(ps) == DeliveredAll(ps);
  }

  lemma {:induction false} ServedRun(key: Key, b: Behaviour, ps: seq<Packet>)
    requires AllSendable(ps) && NoneFlagged(ps)
    ensures var wire := WireOf(Run(b, DeliveredAll(ps)).log);
            AllSendable(wire) && Server.ServedBytes(key, b, INIT.table, WrittenAll(key, ps)) == WrittenAll(key, wire)
  {
    ServedThen(key, b, ps, []);
    assert WrittenAll(key, ps) + [] == WrittenAll(key, ps);
  }

  /** A flagged packet, if the connection is still open, is answered with the bad-secret notice and ends it,
      whatever follows. */
  lemma {:induction false} ServedUpToFlagged(key: Key, b: Behaviour, ps: seq<Packet>, bad: Packet, tail: Text)
    requires AllSendable(ps) && NoneFlagged(ps) && Sendable(bad) && Flagged(bad)
    ensures var st := Run(b, DeliveredAll(ps));
            AllSendable(WireOf(st.log)) && Sized(bad).AsRead().Valid() &&
            Server.ServedBytes(key, b, INIT.table, WrittenAll(key, ps) + (Written(key, bad) + tail)) ==
            WrittenAll(key, WireOf(st.log)) + if st.open then Notice(key, Sized(bad).AsRead()) else []
  {
    ServedThen(key, b, ps, Written(key, bad) + tail);
    FlaggedIsClosed(key, bad, tail);
  }

  // ---- what the client reads back ----

  /** Every reply has its packet's type. */
  ghost predicate TypesMatch(log: seq<Event>) {
    forall i, k :: 0 <= i < |log| && 0 <= k < |log[i].replies| ==> log[i].replies[k].Type() == log[i].request.header.typ
  }

  /** Every packet given to a stored handler is an authentication packet. */
  ghost predicate StoredGetAuthentication(log: seq<Event>) {
    forall i :: 0 <= i < |log| && log[i].before.Some? ==> log[i].request.header.typ == AUTHENTICATE
  }

  /** Every packet given to a stored handler is an authentication packet or is not obfuscated. */
  ghost predicate StoredGetReadable(log: seq<Event>) {
    forall i :: 0 <= i < |log| && log[i].before.Some? ==>
      log[i].request.header.typ == AUTHENTICATE || log[i].request.header.Unencrypted()
  }

  /** A stored handler never looks at the packet's type, so every reply of a run has its packet's type exactly when
      every packet given to a stored handler is an authentication packet. */
  lemma {:induction false} TypesMatchIff(s: Scope, ps: seq<Packet>)
    ensures TypesMatch(Run(Serving(s), ps).log) <==> StoredGetAuthentication(Run(Serving(s), ps).log)
  {
    var log := Run(Serving(s), ps).log;
    forall i | 0 <= i < |log|
      ensures forall k :: 0 <= k < |log[i].replies| ==>
                log[i].replies[k].Type() == if log[i].before.Some? then AUTHENTICATE else log[i].request.header.typ
      ensures log[i].before.Some? ==> |log[i].replies| == 1
    {
      EventTypes(s, ps, i);
    }
    if TypesMatch(log) {
      forall i | 0 <= i < |log| && log[i].before.Some?
        ensures log[i].request.header.typ == AUTHENTICATE
      {
        assert log[i].replies[0].Type() == AUTHENTICATE;
      }
    }
  }

  lemma {:induction false} EventTypes(s: Scope, ps: seq<Packet>, i: nat)
    requires i < |Run(Serving(s), ps).log|
    ensures var e := Run(Serving(s), ps).log[i];
            && (forall k :: 0 <= k < |e.replies| ==>
                  e.replies[k].Type() == if e.before.Some? then AUTHENTICATE else e.request.header.typ)
            && (e.before.Some? ==> |e.replies| == 1)
  {
    var e := Run(Serving(s), ps).log[i];
    Runs.EventIs(Serving(s), ps, i);
    ReplyTypes(s, e.before, ps[i]);
    if e.before.Some? {
      StoredReplyType(s, e.before.value, ps[i]);
    }
  }

  ghost predicate OneTypePerSession(ps: seq<Packet>) {
    forall i, j :: 0 <= i < |ps| && 0 <= j < |ps| && ps[i].header.session == ps[j].header.session ==>
      ps[i].header.typ == ps[j].header.typ
  }

  /** An argument count is one byte on the wire. */
  predicate ArgsFit(v: Reply) { v.AuthorR? ==> |v.author.args| <= 255 }

  ghost predicate AllArgsFit(log: seq<Event>) {
    forall i, k :: 0 <= i < |log| && 0 <= k < |log[i].replies| ==> ArgsFit(log[i].replies[k])
  }

  /** No user has more than 255 set-values configured. */
  ghost predicate FewSetValues(s: Scope) {
    forall name :: name in s.users ==> SessionAuthorizer.SetValueCount(s.users[name].authorizer.services) <= 255
  }

  lemma DecisionFits(u: User, args: seq<Text>, regex: CommandAuthorizer.Regex, say: Wording)
    requires SessionAuthorizer.SetValueCount(u.services) <= 255
    ensures |Stringy.Decision(u, args, regex, say).args| <= 255
  {
    SessionAuthorizer.ReplyArgsCount(u, args);
  }

  lemma AuthorizeFits(s: Scope, body: Text, i: nat)
    requires FewSetValues(s) && i < |AuthorizeRequest(s, body).replies|
    ensures ArgsFit(AuthorizeRequest(s, body).replies[i])
  {
    if Author.DecodeRequest(body).Ok? && Author.DecodeRequest(body).value.user in s.users {
      var req := Author.DecodeRequest(body).value;
      DecisionFits(s.users[req.user].authorizer, req.args, s.regex, s.say);
    }
  }

  lemma HandleFits(s: Scope, state: Option<HandlerState>, p: Packet, i: nat)
    requires FewSetValues(s) && i < |Handle(s, state, p).replies|
    ensures ArgsFit(Handle(s, state, p).replies[i])
  {
    ReplyTypes(s, state, p);
    if state.None? && p.header.typ == AUTHORIZE {
      AuthorizeFits(s, p.body, i);
    }
  }

  lemma {:induction false} RunArgsFit(s: Scope, ps: seq<Packet>)
    requires FewSetValues(s)
    ensures AllArgsFit(Run(Serving(s), ps).log)
  {
    var log := Run(Serving(s), ps).log;
    forall i, k | 0 <= i < |log| && 0 <= k < |log[i].replies|
      ensures ArgsFit(log[i].replies[k])
    {
      Runs.EventIs(Serving(s), ps, i);
      HandleFits(s, log[i].before, ps[i], k);
    }
  }

  lemma AuthenReplyDecodes(v: Authen.AuthenReply)
    requires v.Valid() && |v.Encode()| <= MAX_BODY_LENGTH
    ensures Authen.DecodeReply(v.Encode()) == Ok(v)
  {
    ReadBuffers.FlattenOf2([v.serverMsg, v.data]);
    Authen.ReplyRoundTrip(v, v.Encode());
  }

  lemma AcctReplyDecodes(v: Acct.AcctReply)
    requires v.Valid() && |v.Encode()| <= MAX_BODY_LENGTH
    ensures Acct.DecodeReply(v.Encode()) == Ok(v)
  {
    ReadBuffers.FlattenOf2([v.serverMsg, v.data]);
    Acct.ReplyRoundTrip(v, v.Encode());
  }

  lemma AuthorReplyDecodes(v: Author.AuthorReply)
    requires v.Valid() && |v.args| <= 255 && |v.Encode()| <= MAX_BODY_LENGTH
    ensures Author.DecodeReply(v.Encode()) == Ok(v)
  {
    Arguments.FlattenPast2(v.serverMsg, v.data, v.args);
    Author.ReplyRoundTrip(v, v.Encode());
  }

  /** A reply sent under its own type is never taken for a bad secret. */
  lemma ReplyNotFlagged(v: Reply, h: Header)
    requires v.Marshal().Some? && |v.Marshal().value| <= MAX_BODY_LENGTH && h.typ == v.Type() && ArgsFit(v)
    ensures !Flagged(Packet(h, v.Marshal().value))
  {
    match v {
      case AuthenR(r) => AuthenReplyDecodes(r);
      case AuthorR(r) => AuthorReplyDecodes(r);
      case AcctR(r) => AcctReplyDecodes(r);
    }
    ValidlyEncodedNotFlagged(Packet(h, v.Marshal().value));
  }

  /** Nor is any of several, and none of any kind that is not obfuscated. */
  lemma {:induction false} RepliesNotFlagged(r: Response, replies: seq<Reply>)
    requires NoneFlagged(r.wire)
    requires r.header.Unencrypted() ||
             forall k :: 0 <= k < |replies| ==> replies[k].Type() == r.header.typ && ArgsFit(replies[k])
    ensures NoneFlagged(ReplyAll(r, replies).wire)
    decreases replies
  {
    if replies == [] {
    } else {
      var v, r' := replies[0], ReplyOnce(r, replies[0]);
      if |r'.wire| > |r.wire| && !r.header.Unencrypted() {
        ReplyNotFlagged(v, r'.wire[|r.wire|].header);
      }
      RepliesNotFlagged(r', replies[1..]);
    }
  }

  lemma {:induction false} WireNotFlagged(log: seq<Event>)
    requires forall i :: 0 <= i < |log| ==> NoneFlagged(log[i].wire)
    ensures NoneFlagged(WireOf(log))
  {
    if log == [] {
    } else {
      WireNotFlagged(log[..|log| - 1]);
    }
  }

  /** The replies have the packet's type and their argument counts fit, or they are not obfuscated. */
  ghost predicate ReadableReplies(e: Event) {
    e.request.header.Unencrypted() ||
    forall k :: 0 <= k < |e.replies| ==> e.replies[k].Type() == e.request.header.typ && ArgsFit(e.replies[k])
  }

  lemma {:induction false} RunNotFlagged(b: Behaviour, ps: seq<Packet>)
    requires forall i :: 0 <= i < |Run(b, ps).log| ==> ReadableReplies(Run(b, ps).log[i])
    ensures NoneFlagged(WireOf(Run(b, ps).log))
  {
    var log := Run(b, ps).log;
    forall i | 0 <= i < |log|
      ensures NoneFlagged(log[i].wire)
    {
      Runs.EventIs(b, ps, i);
      RepliesNotFlagged(Response(ps[i].header, []), log[i].replies);
    }
    WireNotFlagged(log);
  }

  lemma {:induction false} RunReadable(s: Scope, ps: seq<Packet>)
    requires StoredGetReadable(Run(Serving(s), ps).log) && FewSetValues(s)
    ensures forall i :: 0 <= i < |Run(Serving(s), ps).log| ==> ReadableReplies(Run(Serving(s), ps).log[i])
  {
    var log := Run(Serving(s), ps).log;
    RunArgsFit(s, ps);
    forall i | 0 <= i < |log|
      ensures ReadableReplies(log[i])
    {
      EventTypes(s, ps, i);
    }
  }

  /** The packets of a life belong to its session and to the run. */
  lemma {:induction false} LifeInLog(log: seq<Event>, session: uint32, k: nat)
    requires k < |Life(log, session)|
    ensures exists j :: 0 <= j < |log| && log[j].request == Life(log, session)[k] && log[j].Of(session)
    decreases |log|
  {
    var init, e := log[..|log| - 1], log[|log| - 1];
    if k < |Life(init, session)| {
      LifeInLog(init, session, k);
      var j :| 0 <= j < |init| && init[j].request == Life(init, session)[k] && init[j].Of(session);
      assert log[j] == init[j];
    } else {
      assert log[|log| - 1] == e;
    }
  }

  /** A stored handler is given authentication packets only, if the client keeps one type to a session. */
  lemma {:induction false} OneTypeSuffices(b: Behaviour, ps: seq<Packet>)
    requires Proper(b) && FromWire(ps) && OneTypePerSession(ps)
    ensures StoredGetAuthentication(Run(b, ps).log)
  {
    var log := Run(b, ps).log;
    forall i | 0 <= i < |log| && log[i].before.Some?
      ensures log[i].request.header.typ == AUTHENTICATE
    {
      Runs.ShapeBefore(b, ps, i);
      var life := Life(log[..i], ps[i].header.session);
      assert |life| > 0 && life[0].header.typ == AUTHENTICATE;
      LifeInLog(log[..i], ps[i].header.session, 0);
      var j :| 0 <= j < i && log[..i][j].request == life[0] && log[..i][j].Of(ps[i].header.session);
      assert log[..i][j] == log[j] && log[j].request == ps[j];
    }
  }

  lemma {:induction false} DeliveredFromWire(ps: seq<Packet>)
    requires AllSendable(ps)
    ensures FromWire(DeliveredAll(ps)) && (OneTypePerSession(ps) ==> OneTypePerSession(DeliveredAll(ps)))
  {
  }

  /** What the client reads of the server's replies to its packets: all of them up to the first that trips the guess. */
  lemma {:induction false} ReadBack(key: Key, b: Behaviour, ps: seq<Packet>)
    requires AllSendable(ps) && NoneFlagged(ps)
    ensures var wire := WireOf(Run(b, DeliveredAll(ps)).log);
            var n := Unflagged(wire);
            AllSendable(wire) &&
            ReceiveAll(key, Server.ServedBytes(key, b, INIT.table, WrittenAll(key, ps))) ==
            (DeliveredAll(wire[..n]), WrittenAll(key, wire[n..]))
  {
    ServedRun(key, b, ps);
    StreamReadUpTo(key, WireOf(Run(b, DeliveredAll(ps)).log));
  }

  /** A client that shares the key reads back the replies of the machine's run over its packets, in order, up to the
      first that trips the bad-secret guess. None does, so it reads exactly all of them with no bytes left over, if
      stored handlers got only authentication packets or packets that are not obfuscated, as they do when it keeps one
      type to a session. */
  lemma {:induction false} Conversation(key: Key, s: Scope, ps: seq<Packet>)
    requires AllSendable(ps) && NoneFlagged(ps)
    ensures var log := Run(Serving(s), DeliveredAll(ps)).log;
            var wire, n := WireOf(log), Unflagged(WireOf(log));
            && AllSendable(wire)
            && ReceiveAll(key, Server.ServedBytes(key, Serving(s), INIT.table, WrittenAll(key, ps))) ==
               (DeliveredAll(wire[..n]), WrittenAll(key, wire[n..]))
            && (StoredGetReadable(log) && FewSetValues(s) ==> n == |wire|)
            && (OneTypePerSession(ps) ==> StoredGetReadable(log))
  {
    var arrived := DeliveredAll(ps);
    ReadBack(key, Serving(s), ps);
    DeliveredFromWire(ps);
    if StoredGetReadable(Run(Serving(s), arrived).log) && FewSetValues(s) {
      RunReadable(s, arrived);
      RunNotFlagged(Serving(s), arrived);
      AllUnflagged(WireOf(Run(Serving(s), arrived).log));
    }
    if OneTypePerSession(ps) {
      ServingIsProper(s);
      OneTypeSuffices(Serving(s), arrived);
    }
  }

  // ---- built scopes ----

  /** Whatever the configuration, the handlers of a built scope make exactly one Reply call for every packet of a
      known type, so the name-mismatch reply of the authorizer is never sent. */
  lemma ConfiguredRepliesOnce(f: Loader.Factories, c: Loader.ServerConfig, p: Loader.Provider,
                              regex: CommandAuthorizer.Regex, say: Wording)
    requires p in Loader.Providers(f, c.users, c.secrets)
    ensures OneReplyEach(Serving(Scope(p.users, regex, say)))
  {
    Loader.BuiltScopes(f, c.users, c.secrets, p, regex, say);
    ServingRepliesOnce(Scope(p.users, regex, say));
  }

  /** No listed user has more than 255 set-values, those of the groups included. */
  ghost predicate SmallUsers(users: seq<User>) {
    forall i :: 0 <= i < |users| ==> SessionAuthorizer.SetValueCount(Stringy.Reduced(users[i]).services) <= 255
  }

  lemma {:induction false} BuiltFewSetValues(f: Loader.Factories, c: Loader.ServerConfig, p: Loader.Provider,
                                             regex: CommandAuthorizer.Regex, say: Wording)
    requires p in Loader.Providers(f, c.users, c.secrets) && SmallUsers(c.users)
    ensures FewSetValues(Scope(p.users, regex, say))
  {
    Loader.BuiltScopes(f, c.users, c.secrets, p, regex, say);
    var names, vals := Loader.NamesOf(c.users), Loader.Landings(f, p.config.name, c.users);
    forall name | name in p.users
      ensures SessionAuthorizer.SetValueCount(p.users[name].authorizer.services) <= 255
    {
      var i: nat :| Loader.IsLast(names, vals, name, i) && p.users[name] == vals[i].value;
      MadeServices(f, p.config.name, c.users[i]);
    }
  }

  lemma MadeServices(f: Loader.Factories, scope: Text, u: User)
    ensures Loader.MakeAAA(f, scope, u).Some? ==>
              Loader.MakeAAA(f, scope, u).value.authorizer.services == Stringy.Reduced(u).services
  {
  }

  /** The conversation with a connection whose scope was built from a configuration. */
  lemma {:induction false} ConfiguredConversation(key: Key, f: Loader.Factories, c: Loader.ServerConfig,
                                                  p: Loader.Provider, regex: CommandAuthorizer.Regex,
                                                  say: Wording, ps: seq<Packet>)
    requires p in Loader.Providers(f, c.users, c.secrets) && SmallUsers(c.users)
    requires AllSendable(ps) && NoneFlagged(ps) && OneTypePerSession(ps)
    ensures var b := Serving(Scope(p.users, regex, say));
            var wire := WireOf(Run(b, DeliveredAll(ps)).log);
            && AllSendable(wire)
            && ReceiveAll(key, Server.ServedBytes(key, b, INIT.table, WrittenAll(key, ps))) == (DeliveredAll(wire), [])
            && OneReplyEach(b)
  {
    var s := Scope(p.users, regex, say);
    BuiltFewSetValues(f, c, p, regex, say);
    ConfiguredRepliesOnce(f, c, p, regex, say);
    Conversation(key, s, ps);
    var wire := WireOf(Run(Serving(s), DeliveredAll(ps)).log);
    assert wire[..|wire|] == wire && wire[|wire|..] == [];
  }
}
