/** What holds in every run of a connection, whatever packets arrive. */
module Runs {
  import opened Aaa
  import opened Bytes
  import opened Handlers
  import opened Headers
  import opened Machine
  import opened Transport
  import Authen = Authenticate

  /** Each event of the log is the step taken by the run up to its place. */
  lemma {:induction false} LogAt(b: Behaviour, ps: seq<Packet>, i: nat)
    requires i < |Run(b, ps).log|
    ensures Run(b, ps[..i]).open && Run(b, ps[..i]).log == Run(b, ps).log[..i]
    ensures var t := Run(b, ps[..i]).table; Step(b, t, ps[i]).Go? && Step(b, t, ps[i]).event == Run(b, ps).log[i]
  {
    var init := ps[..|ps| - 1];
    if i < |Run(b, init).log| {
      LogAt(b, init, i);
      assert ps[..i] == init[..i] && Run(b, ps).log[..i] == Run(b, init).log[..i];
    } else {
      assert i == |init| && ps[..i] == init;
    }
  }

  /** What the lookup tells of a session at the head of the loop. */
  ghost predicate Expected(life: seq<Packet>, before: Option<HandlerState>, p: Packet) {
    && ClientSeqOk(p.header.seqNo)
    && (before.None? <==> life == [])
    && (before.Some? ==> LastSeqOk(life[|life| - 1].header.seqNo + 1, p.header.seqNo))
    && (before.Some? && before.value.AskUser? ==> before.value.username == [])
  }

  lemma {:induction false} LookupExpected(st: State, p: Packet, before: Option<HandlerState>)
    requires LoopHead(st) && Get(st.table, p.header) == Found(before)
    ensures Expected(Life(st.log, p.header.session), before, p)
  {
  }

  lemma {:induction false} BeforeEvent(b: Behaviour, ps: seq<Packet>, i: nat)
    requires Proper(b) && FromWire(ps) && i < |Run(b, ps).log|
    ensures Expected(Life(Run(b, ps).log[..i], ps[i].header.session), Run(b, ps).log[i].before, ps[i])
  {
    LookupAt(b, ps, i);
    LoopHeadInvariant(b, ps[..i]);
    LookupExpected(Run(b, ps[..i]), ps[i], Run(b, ps).log[i].before);
  }

  lemma {:induction false} LookupAt(b: Behaviour, ps: seq<Packet>, i: nat)
    requires i < |Run(b, ps).log|
    ensures Run(b, ps[..i]).open && Run(b, ps[..i]).log == Run(b, ps).log[..i]
    ensures Get(Run(b, ps[..i]).table, ps[i].header) == Found(Run(b, ps).log[i].before)
  {
    LogAt(b, ps, i);
  }

  lemma {:induction false} ShapeBefore(b: Behaviour, ps: seq<Packet>, i: nat)
    requires Proper(b) && FromWire(ps) && i < |Run(b, ps).log|
    ensures var before, life := Run(b, ps).log[i].before, Life(Run(b, ps).log[..i], ps[i].header.session);
            before.Some? ==> LifeShape(life, before.value)
  {
    LookupAt(b, ps, i);
    LoopHeadInvariant(b, ps[..i]);
    ShapeInvariant(b, ps[..i]);
  }

  /** Event i records what its session's handler did. */
  lemma {:induction false} EventIs(b: Behaviour, ps: seq<Packet>, i: nat)
    requires i < |Run(b, ps).log|
    ensures var e := Run(b, ps).log[i];
            && b(e.before, ps[i]) == Effect(e.after, e.replies)
            && e.wire == ReplyAll(Response(ps[i].header, []), e.replies).wire
            && ClientSeqOk(ps[i].header.seqNo)
  {
    LogAt(b, ps, i);
  }

  // ---- lengths of lives ----

  /** Start is 3, the two stored handlers 2 and 1, a finished session 0. */
  function RankBefore(h: Option<HandlerState>): nat {
    match h case None => 3 case Some(AskUser(_)) => 2 case Some(AskPass(_)) => 1
  }

  function RankAfter(h: Option<HandlerState>): nat { if h.None? then 0 else RankBefore(h) }

  /** Every accepted packet lowers its session's rank, and no life accepts more than three packets. */
  lemma {:induction false} AtMostThreePackets(b: Behaviour, ps: seq<Packet>, i: nat)
    requires Proper(b) && FromWire(ps) && i < |Run(b, ps).log|
    ensures var e := Run(b, ps).log[i]; RankAfter(e.after) < RankBefore(e.before)
    ensures |Life(Run(b, ps).log[..i], ps[i].header.session)| + 1 <= 3
    ensures |Life(Run(b, ps).log[..i], ps[i].header.session)| + RankBefore(Run(b, ps).log[i].before) <= 3
  {
    BeforeEvent(b, ps, i);
    ShapeBefore(b, ps, i);
    EventIs(b, ps, i);
    assert Follows(Run(b, ps).log[i].before, ps[i], b(Run(b, ps).log[i].before, ps[i]));
  }

  // ---- sequence numbers ----

  /** Odd numbers, each at least two above the one before unless that was 255. */
  ghost predicate Numbered(life: seq<Packet>) {
    (forall i :: 0 <= i < |life| ==> life[i].header.seqNo % 2 == 1) &&
    (forall i :: 0 <= i < |life| - 1 ==>
      life[i].header.seqNo == 255 || life[i + 1].header.seqNo >= life[i].header.seqNo + 2)
  }

  /** In every life, up to and including the packet being accepted, the request numbers are Numbered. */
  lemma {:induction false} LivesAreNumbered(b: Behaviour, ps: seq<Packet>, i: nat, session: uint32)
    requires Proper(b) && FromWire(ps) && i < |Run(b, ps).log|
    ensures Numbered(Life(Run(b, ps).log[..i], session)) && FromWire(Life(Run(b, ps).log[..i], session))
    ensures ps[i].header.session == session ==> Numbered(Life(Run(b, ps).log[..i], session) + [ps[i]])
    decreases i
  {
    var log := Run(b, ps).log;
    if i > 0 {
      LivesAreNumbered(b, ps, i - 1, session);
      LifeGrows(log, i - 1, session);
    }
    BeforeEvent(b, ps, i);
    if ps[i].header.session == session {
      NumberedNext(Life(log[..i], session), ps[i]);
    }
  }

  lemma {:induction false} LifeGrows(log: seq<Event>, i: nat, session: uint32)
    requires i < |log|
    ensures var life := Life(log[..i], session);
            Life(log[..i + 1], session) in {life, [], life + [log[i].request]} &&
            (log[i].Of(session) || Life(log[..i + 1], session) == life)
  {
    assert log[..i + 1] == log[..i] + [log[i]];
    LifeNext(log[..i], log[i], session);
  }

  lemma NumberedNext(life: seq<Packet>, p: Packet)
    requires Numbered(life) && FromWire(life) && p.header.Valid() && ClientSeqOk(p.header.seqNo)
    requires life != [] ==> LastSeqOk(life[|life| - 1].header.seqNo + 1, p.header.seqNo)
    ensures Numbered(life + [p])
  {
    assert Low8(p.header.seqNo) == p.header.seqNo;
    if life != [] {
      NextAccepted(life[|life| - 1].header.seqNo, p.header.seqNo);
    }
  }

  /** Exactly when the next packet is accepted: any odd number opens a session; a live session takes an odd
      number at least two above its last request, or any odd number after a request numbered 255. */
  lemma {:induction false} AcceptedIff(b: Behaviour, ps: seq<Packet>, p: Packet)
    requires Proper(b) && FromWire(ps) && Run(b, ps).open && p.header.Valid()
    ensures Run(b, ps + [p]).open <==> MayFollow(Life(Run(b, ps).log, p.header.session), p)
  {
    RunNext(b, ps, p);
    LoopHeadInvariant(b, ps);
    LifeFromWire(b, ps, p.header.session);
    ExtendOpens(b, Run(b, ps), p);
  }

  ghost predicate MayFollow(life: seq<Packet>, p: Packet) {
    p.header.seqNo % 2 == 1 &&
    (life != [] ==> life[|life| - 1].header.seqNo == 255 || p.header.seqNo >= life[|life| - 1].header.seqNo + 2)
  }

  lemma {:induction false} ExtendOpens(b: Behaviour, st: State, p: Packet)
    requires st.open && LoopHead(st) && p.header.Valid() && FromWire(Life(st.log, p.header.session))
    ensures Extend(b, st, p).open <==> MayFollow(Life(st.log, p.header.session), p)
  {
    var x := p.header.session;
    var life := Life(st.log, x);
    if x in st.table.known {
      LookupAccepts(st.table, p.header, life[|life| - 1].header.seqNo);
    }
  }

  lemma LookupAccepts(t: Table, h: Header, last: nat)
    requires h.Valid() && h.session in t.known && 1 <= last <= 255
    requires t.known[h.session].header.seqNo == last + 1 && (last + 1) % 2 == 0
    ensures Get(t, h).Found? <==> h.seqNo % 2 == 1 && (last == 255 || h.seqNo >= last + 2)
  {
    NextAccepted(last, h.seqNo);
  }

  /** The packets of a life are packets of the run. */
  lemma {:induction false} LifeFromWire(b: Behaviour, ps: seq<Packet>, session: uint32)
    requires FromWire(ps)
    ensures FromWire(Life(Run(b, ps).log, session))
  {
    if ps == [] {
    } else {
      var init := ps[..|ps| - 1];
      LifeFromWire(b, init, session);
      var st, st' := Run(b, init), Run(b, ps);
      if st'.log != st.log {
        LifeNext(st.log, st'.log[|st.log|], session);
      }
    }
  }

  // ---- replies ----

  /** With handlers that reply once, each accepted packet makes one Reply call. What goes on the wire keeps the
      request's session, type, version and flags and carries the even number one above it, never over 254; nothing
      goes on the wire exactly when the body does not marshal, is too long, or the request was numbered 255. */
  lemma {:induction false} ReplyNumbers(b: Behaviour, ps: seq<Packet>, i: nat)
    requires OneReplyEach(b) && FromWire(ps) && i < |Run(b, ps).log|
    ensures var e, h := Run(b, ps).log[i], ps[i].header;
            && |e.replies| == 1
            && var body := e.replies[0].Marshal();
               if body.None? || |body.value| > MAX_BODY_LENGTH || h.seqNo == 255 then e.wire == []
               else e.wire == [Packet(h.(seqNo := h.seqNo + 1, length := |body.value|), body.value)] &&
                    (h.seqNo + 1) % 2 == 0 && h.seqNo + 1 <= 254
  {
    EventIs(b, ps, i);
    SingleReply(ps[i].header, Run(b, ps).log[i].replies[0]);
    assert Run(b, ps).log[i].replies == [Run(b, ps).log[i].replies[0]];
  }

  lemma {:induction false} SingleReply(h: Header, v: Reply)
    requires h.Valid() && !v.Restart()
    ensures ReplyAll(Response(h, []), [v]) == ReplyOnce(Response(h, []), v)
    ensures var body := v.Marshal();
            ReplyOnce(Response(h, []), v).wire ==
            if body.None? || |body.value| > MAX_BODY_LENGTH || h.seqNo == 255 then []
            else [Packet(h.(seqNo := h.seqNo + 1, length := |body.value|), body.value)]
  {
    assert [v][1..] == [];
  }

  // ---- who can log in ----

  /** In every run an ASCII Pass comes only from the password step, for a user configured in the scope, whose
      name was fixed by the START or, when that had none, by the first CONTINUE, and only when that user's check
      accepts the password: the non-empty user message, unless the bytes are also those of a START, whose data it
      then is. */
  lemma {:induction false} AsciiPass(s: Scope, ps: seq<Packet>, i: nat)
    requires FromWire(ps) && i < |Run(Serving(s), ps).log|
    requires Run(Serving(s), ps).log[i].before.Some? &&
             SendsPass(Effect(Run(Serving(s), ps).log[i].after, Run(Serving(s), ps).log[i].replies))
    ensures var e, life := Run(Serving(s), ps).log[i], Life(Run(Serving(s), ps).log[..i], ps[i].header.session);
            && e.before.value.AskPass? && e.after.None?
            && var u := e.before.value.username;
               && u != [] && u in s.users
               && ((|life| == 1 && OpensAscii(life[0], u)) ||
                   (|life| == 2 && OpensAscii(life[0], []) && Answers(life[1], u)))
               && PasswordAccepted(s, u, ps[i].body)
               && Authen.DecodeContinue(ps[i].body).Ok?
               && var m := Authen.DecodeContinue(ps[i].body).value.userMessage;
                  m != [] && s.users[u].authenticator.accepts(
                    if Authen.StartReadable(ps[i].body) then Authen.StartData(ps[i].body) else m)
  {
    ServingIsProper(s);
    ShapeBefore(Serving(s), ps, i);
    EventIs(Serving(s), ps, i);
    StoredPassMeans(s, Run(Serving(s), ps).log[i].before.value, ps[i]);
  }

  // ---- non-interference ----

  ghost function Project(log: seq<Event>, session: uint32): seq<Event> {
    if log == [] then [] else
    var init, e := log[..|log| - 1], log[|log| - 1];
    Project(init, session) + if e.Of(session) then [e] else []
  }

  /** The packets of one session, in order. */
  ghost function Only(ps: seq<Packet>, session: uint32): seq<Packet> {
    if ps == [] then [] else
    var init, p := ps[..|ps| - 1], ps[|ps| - 1];
    Only(init, session) + if p.header.session == session then [p] else []
  }

  ghost predicate AgreeOn(t: Table, u: Table, session: uint32) {
    (session in t.known <==> session in u.known) && (session in t.known ==> t.known[session] == u.known[session])
  }

  /** A step sees and changes the table only at its own session. */
  lemma {:induction false} StepLocal(b: Behaviour, t: Table, u: Table, p: Packet)
    requires AgreeOn(t, u, p.header.session)
    ensures Step(b, t, p).Go? <==> Step(b, u, p).Go?
    ensures Step(b, t, p).Go? ==>
              Step(b, t, p).event == Step(b, u, p).event &&
              AgreeOn(Step(b, t, p).table, Step(b, u, p).table, p.header.session)
  {
    if Step(b, t, p).Go? {
      var state := Get(t, p.header).state;
      OutcomeEntry(t, p, state, b(state, p));
      OutcomeEntry(u, p, state, b(state, p));
    }
  }

  /** Session x sees the same in a run and in one of its packets alone: every event, and its entry. */
  ghost predicate Undisturbed(st: State, alone: State, x: uint32) {
    alone.open && alone.log == Project(st.log, x) && (st.open ==> AgreeOn(st.table, alone.table, x))
  }

  lemma {:induction false} ProjectNext(log: seq<Event>, e: Event, x: uint32)
    ensures Project(log + [e], x) == Project(log, x) + if e.Of(x) then [e] else []
  {
    assert (log + [e])[..|log|] == log;
  }

  lemma {:induction false} StepApart(b: Behaviour, st: State, alone: State, p: Packet, x: uint32)
    requires Undisturbed(st, alone, x)
    ensures var own := p.header.session == x && Extend(b, st, p).open;
            Undisturbed(Extend(b, st, p), if own then Extend(b, alone, p) else alone, x)
  {
    if Extend(b, st, p).open {
      ProjectNext(st.log, Step(b, st.table, p).event, x);
      if p.header.session == x {
        StepLocal(b, st.table, alone.table, p);
      } else {
        var state := Get(st.table, p.header).state;
        OutcomeFrame(st.table, p, state, b(state, p), x);
      }
    }
  }

  function Requests(log: seq<Event>): seq<Packet> { seq(|log|, i requires 0 <= i < |log| => log[i].request) }

  /** Extending a run by one packet extends the requests seen by session x when the packet is its own. */
  lemma {:induction false} RequestsNext(b: Behaviour, st: State, p: Packet, x: uint32)
    ensures Requests(Project(Extend(b, st, p).log, x)) ==
            Requests(Project(st.log, x)) + if st.open && Extend(b, st, p).open && p.header.session == x then [p] else []
  {
    if st.open && Extend(b, st, p).open {
      var e := Step(b, st.table, p).event;
      ProjectNext(st.log, e, x);
      assert Requests(Project(st.log, x) + [e]) == Requests(Project(st.log, x)) + [p];
    }
  }

  /** The events of one session are those of the run that holds only its accepted packets. */
  lemma {:induction false} NonInterference(b: Behaviour, ps: seq<Packet>, x: uint32)
    ensures Undisturbed(Run(b, ps), Run(b, Requests(Project(Run(b, ps).log, x))), x)
  {
    if ps == [] {
    } else {
      var init, p := ps[..|ps| - 1], ps[|ps| - 1];
      NonInterference(b, init, x);
      var st := Run(b, init);
      var alone := Requests(Project(st.log, x));
      StepApart(b, st, Run(b, alone), p, x);
      RequestsNext(b, st, p, x);
      RunNext(b, alone, p);
    }
  }

  lemma {:induction false} RequestsAre(b: Behaviour, ps: seq<Packet>, x: uint32)
    requires Run(b, ps).open
    ensures Requests(Project(Run(b, ps).log, x)) == Only(ps, x)
  {
    if ps == [] {
    } else {
      RequestsAre(b, ps[..|ps| - 1], x);
      RequestsNext(b, Run(b, ps[..|ps| - 1]), ps[|ps| - 1], x);
    }
  }

  /** When no packet is refused, one session's replies are those of its own packets alone. */
  lemma {:induction false} RepliesUndisturbed(b: Behaviour, ps: seq<Packet>, x: uint32)
    requires Run(b, ps).open
    ensures Run(b, Only(ps, x)).open && Run(b, Only(ps, x)).log == Project(Run(b, ps).log, x)
  {
    NonInterference(b, ps, x);
    RequestsAre(b, ps, x);
  }
}
