/** The connection state machine: sessions.go, handlers.go's response and the loop of server.go, as pure
    steps over the session table, with a log of what each accepted packet caused. */
module Machine {
  import opened Bytes
  import opened Fields
  import opened Handlers
  import opened Headers
  import opened Transport

  // ---- response.Reply ----

  /** The response object: the header the next Reply counts from, and the packets written. */
  datatype Response = Response(header: Header, wire: seq<Packet>)

  /** Reply stores the new header before the write is attempted, and not at all if the body does not marshal. */
  function ReplyOnce(r: Response, v: Reply): Response {
    match v.Marshal()
    case None => r
    case Some(body) =>
      var h := r.header.(seqNo := if v.Restart() then 1 else (r.header.seqNo + 1) % 0x1_0000, length := 0);
      var p := Packet(h, body);
      Response(h, if Sendable(p) then r.wire + [Packet(Sized(p), body)] else r.wire)
  }

  function ReplyAll(r: Response, replies: seq<Reply>): Response
    decreases replies
  {
    if replies == [] then r else ReplyAll(ReplyOnce(r, replies[0]), replies[1..])
  }

  // ---- the session table ----

  /** A nil handler is what `set` stores until the first packet has been handled. */
  datatype Entry = Entry(header: Header, handler: Option<HandlerState>)
  datatype Table = Table(known: map<uint32, Entry>, sets: nat, deletes: nat)

  datatype Lookup = Refused(table: Table) | Found(state: Option<HandlerState>)

  function Get(t: Table, h: Header): Lookup {
    if !ClientSeqOk(h.seqNo) then Refused(Delete(t, h.session))
    else if h.session !in t.known then Found(None)
    else if !LastSeqOk(t.known[h.session].header.seqNo, h.seqNo) then Refused(t)
    else Found(t.known[h.session].handler)
  }

  function Set(t: Table, h: Header): Table { Table(t.known[h.session := Entry(h, None)], t.sets + 1, t.deletes) }

  function Update(t: Table, h: Header, next: HandlerState): Table {
    if h.session in t.known then t.(known := t.known[h.session := Entry(h, Some(next))]) else t
  }

  function Delete(t: Table, session: uint32): Table { Table(t.known - {session}, t.sets, t.deletes + 1) }

  // ---- one turn of the loop ----

  datatype Event = Event(request: Packet, before: Option<HandlerState>, replies: seq<Reply>, wire: seq<Packet>,
                         after: Option<HandlerState>) {
    predicate Of(session: uint32) { request.header.session == session }
  }

  datatype Turn = Stop(table: Table) | Go(table: Table, event: Event)

  /** What handling a packet does to the table, given what the handler did. */
  function Outcome(t: Table, p: Packet, state: Option<HandlerState>, e: Effect): Turn {
    var t1 := if state.None? then Set(t, p.header) else t;
    var r := ReplyAll(Response(p.header, []), e.replies);
    var t2 := if e.next.None? then Delete(t1, p.header.session) else Update(t1, r.header, e.next.value);
    Go(t2, Event(p, state, e.replies, r.wire, e.next))
  }

  ghost function Step(b: Behaviour, t: Table, p: Packet): Turn {
    match Get(t, p.header)
    case Refused(t') => Stop(t')
    case Found(state) => Outcome(t, p, state, b(state, p))
  }

  // ---- whole runs ----

  datatype State = State(table: Table, log: seq<Event>, open: bool)

  const INIT := State(Table(map[], 0, 0), [], true)

  /** The connection after these packets arrived; it stops at the first one that is refused. */
  ghost function Run(b: Behaviour, ps: seq<Packet>): (st: State)
    ensures |st.log| <= |ps| && (st.open <==> |st.log| == |ps|)
    ensures forall i :: 0 <= i < |st.log| ==> st.log[i].request == ps[i]
  {
    if ps == [] then INIT else
    Extend(b, Run(b, ps[..|ps| - 1]), ps[|ps| - 1])
  }

  ghost function Extend(b: Behaviour, st: State, p: Packet): State {
    if !st.open then st else
    match Step(b, st.table, p)
    case Stop(t) => State(t, st.log, false)
    case Go(t, e) => State(t, st.log + [e], true)
  }

  lemma {:induction false} RunNext(b: Behaviour, ps: seq<Packet>, p: Packet)
    ensures Run(b, ps + [p]) == Extend(b, Run(b, ps), p)
  {
    assert (ps + [p])[..|ps|] == ps;
  }

  ghost predicate FromWire(ps: seq<Packet>) { forall i :: 0 <= i < |ps| ==> ps[i].header.Valid() }

  /** The packets accepted since the session was last unknown. */
  ghost function Life(log: seq<Event>, session: uint32): seq<Packet> {
    if log == [] then [] else
    var init, e := log[..|log| - 1], log[|log| - 1];
    if !e.Of(session) then Life(init, session)
    else if e.after.None? then []
    else Life(init, session) + [e.request]
  }

  // ---- the loop-head invariant ----

  ghost predicate LiveOk(entry: Entry, session: uint32, life: seq<Packet>) {
    entry.handler.Some? && entry.header.session == session && |life| > 0 &&
    entry.header.seqNo == life[|life| - 1].header.seqNo + 1 && entry.header.seqNo % 2 == 0 &&
    (entry.handler.value.AskUser? ==> entry.handler.value.username == [])
  }

  ghost predicate LoopHead(st: State) {
    (forall x :: x in st.table.known ==> LiveOk(st.table.known[x], x, Life(st.log, x))) &&
    (forall x: uint32 :: x !in st.table.known ==> Life(st.log, x) == []) &&
    st.table.sets == st.table.deletes + |st.table.known|
  }

  /** What a live session's packets so far were, by the handler that waits for the next one. */
  ghost predicate LifeShape(life: seq<Packet>, handler: HandlerState) {
    match handler
    case AskUser(u) => u == [] && |life| == 1 && OpensAscii(life[0], [])
    case AskPass(u) =>
      u != [] &&
      ((|life| == 1 && OpensAscii(life[0], u)) ||
       (|life| == 2 && OpensAscii(life[0], []) && Answers(life[1], u)))
  }

  ghost predicate Shaped(st: State) {
    forall x :: x in st.table.known && st.table.known[x].handler.Some? ==>
      LifeShape(Life(st.log, x), st.table.known[x].handler.value)
  }

  lemma {:induction false} LifeNext(log: seq<Event>, e: Event, session: uint32)
    ensures Life(log + [e], session) ==
            if !e.Of(session) then Life(log, session)
            else if e.after.None? then [] else Life(log, session) + [e.request]
  {
    assert (log + [e])[..|log|] == log;
  }

  /** After a prompt for a user name or password the stored header is the request's, one number up. */
  lemma {:induction false} PromptHeader(h: Header, v: Reply)
    requires h.seqNo < 0xFFFF && v.AuthenR? && v.authen.status in {AUTHEN_GET_USER, AUTHEN_GET_PASS}
    ensures ReplyAll(Response(h, []), [v]).header == h.(seqNo := h.seqNo + 1, length := 0)
  {
    assert [v][1..] == [];
  }

  /** The session is live afterwards exactly when a next handler was named, under the response's header. */
  lemma {:induction false} OutcomeEntry(t: Table, p: Packet, state: Option<HandlerState>, e: Effect)
    requires state.Some? ==> p.header.session in t.known
    ensures var x, t' := p.header.session, Outcome(t, p, state, e).table;
            && (x in t'.known <==> e.next.Some?)
            && (e.next.Some? ==> t'.known[x] == Entry(ReplyAll(Response(p.header, []), e.replies).header, e.next))
  {
    ReplySession(Response(p.header, []), e.replies);
  }

  /** The effect names a next handler and sends the one prompt that goes with it. */
  predicate Prompts(e: Effect) {
    e.next.Some? && |e.replies| == 1 && e.replies[0].AuthenR? &&
    e.replies[0].authen.status in {AUTHEN_GET_USER, AUTHEN_GET_PASS} &&
    (e.next.value.AskUser? ==> e.next.value.username == [])
  }

  lemma FollowsPrompts(state: Option<HandlerState>, p: Packet, e: Effect)
    requires e.next.Some? && Follows(state, p, e)
    ensures Prompts(e)
  {
  }

  lemma {:induction false} LiveNext(life: seq<Packet>, p: Packet, e: Effect)
    requires Prompts(e) && p.header.Valid() && ClientSeqOk(p.header.seqNo)
    ensures LiveOk(Entry(ReplyAll(Response(p.header, []), e.replies).header, e.next), p.header.session, life + [p])
  {
    var v := e.replies[0];
    assert e.replies == [v];
    PromptHeader(p.header, v);
    PromptIsLive(life, p, e.next.value);
  }

  lemma {:induction false} PromptIsLive(life: seq<Packet>, p: Packet, next: HandlerState)
    requires p.header.Valid() && ClientSeqOk(p.header.seqNo) && (next.AskUser? ==> next.username == [])
    ensures LiveOk(Entry(p.header.(seqNo := p.header.seqNo + 1, length := 0), Some(next)), p.header.session, life + [p])
  {
    assert Low8(p.header.seqNo) == p.header.seqNo;
    assert (life + [p])[|life|] == p;
  }

  lemma {:induction false} ShapeNext(life: seq<Packet>, state: Option<HandlerState>, p: Packet, e: Effect)
    requires if state.None? then life == [] else LifeShape(life, state.value)
    requires e.next.Some? && Follows(state, p, e)
    ensures LifeShape(life + [p], e.next.value)
  {
  }

  lemma {:induction false} OutcomeKeepsCount(st: State, p: Packet, state: Option<HandlerState>, e: Effect)
    requires LoopHead(st) && Get(st.table, p.header) == Found(state)
    ensures var t := Outcome(st.table, p, state, e).table; t.sets == t.deletes + |t.known|
  {
    var x, t0, t := p.header.session, st.table, Outcome(st.table, p, state, e).table;
    var t1 := if state.None? then Set(t0, p.header) else t0;
    if state.None? {
      assert x !in t0.known;
      assert t1.known.Keys == t0.known.Keys + {x};
      assert |t1.known.Keys| == |t0.known.Keys| + 1;
    }
    ReplySession(Response(p.header, []), e.replies);
    if e.next.None? {
      assert t.known.Keys == t1.known.Keys - {x};
      assert |t.known.Keys| == |t1.known.Keys| - 1;
    } else {
      assert t.known.Keys == t1.known.Keys;
    }
  }

  /** Other sessions' entries are untouched by an accepted packet. */
  lemma {:induction false} OutcomeFrame(t0: Table, p: Packet, state: Option<HandlerState>, e: Effect, x: uint32)
    requires x != p.header.session
    ensures var t := Outcome(t0, p, state, e).table;
            (x in t.known <==> x in t0.known) && (x in t.known ==> t.known[x] == t0.known[x])
  {
    ReplySession(Response(p.header, []), e.replies);
  }

  lemma {:induction false} ReplySession(r: Response, replies: seq<Reply>)
    ensures ReplyAll(r, replies).header.session == r.header.session
    decreases replies
  {
    if replies == [] {
    } else {
      ReplySession(ReplyOnce(r, replies[0]), replies[1..]);
    }
  }

  /** The invariant holds at the head of the loop in every run. */
  lemma {:induction false} LoopHeadInvariant(b: Behaviour, ps: seq<Packet>)
    requires Proper(b) && FromWire(ps)
    ensures Run(b, ps).open ==> LoopHead(Run(b, ps))
  {
    if ps == [] {
    } else {
      var init, p := ps[..|ps| - 1], ps[|ps| - 1];
      LoopHeadInvariant(b, init);
      var st, st' := Run(b, init), Run(b, ps);
      if st'.open {
        var t0, state := st.table, Get(st.table, p.header).state;
        var e := b(state, p);
        assert Follows(state, p, e);
        OutcomeEntry(t0, p, state, e);
        if e.next.Some? {
          FollowsPrompts(state, p, e);
          LiveNext(Life(st.log, p.header.session), p, e);
        }
        OutcomeKeepsCount(st, p, state, e);
        forall x: uint32
          ensures x in st'.table.known ==> LiveOk(st'.table.known[x], x, Life(st'.log, x))
          ensures x !in st'.table.known ==> Life(st'.log, x) == []
        {
          LifeNext(st.log, Outcome(t0, p, state, e).event, x);
          if x != p.header.session {
            OutcomeFrame(t0, p, state, e, x);
          }
        }
      }
    }
  }

  lemma {:induction false} ShapeInvariant(b: Behaviour, ps: seq<Packet>)
    requires Proper(b) && FromWire(ps)
    ensures Run(b, ps).open ==> Shaped(Run(b, ps))
  {
    if ps == [] {
    } else {
      var init, p := ps[..|ps| - 1], ps[|ps| - 1];
      ShapeInvariant(b, init);
      LoopHeadInvariant(b, init);
      if Run(b, ps).open {
        ShapeStep(b, Run(b, init), p);
      }
    }
  }

  lemma {:induction false} ShapeStep(b: Behaviour, st: State, p: Packet)
    requires Proper(b) && p.header.Valid() && st.open && LoopHead(st) && Shaped(st) && Extend(b, st, p).open
    ensures Shaped(Extend(b, st, p))
  {
    var state, x := Get(st.table, p.header).state, p.header.session;
    var e := b(state, p);
    assert Follows(state, p, e);
    var t := Outcome(st.table, p, state, e).table;
    OutcomeEntry(st.table, p, state, e);
    if e.next.Some? {
      ShapeNext(Life(st.log, x), state, p, e);
    }
    forall y | y in t.known && t.known[y].handler.Some?
      ensures LifeShape(Life(Extend(b, st, p).log, y), t.known[y].handler.value)
    {
      LifeNext(st.log, Outcome(st.table, p, state, e).event, y);
      if y != x {
        OutcomeFrame(st.table, p, state, e, y);
      }
    }
  }
}
