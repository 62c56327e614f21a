/** What every kind of packet is answered with, in the status numbers of RFC 8907, by the decoded fields alone. */
module Outcomes {
  import opened Aaa
  import opened ArgLists
  import opened Bytes
  import opened CommandAuthorizer
  import opened Config
  import opened Fields
  import opened Handlers
  import opened Headers
  import opened Machine
  import opened Messages
  import opened Runs
  import opened Selection
  import opened SessionAuthorizer
  import opened Transport
  import Acct = Accounting
  import Authen = Authenticate
  import Author = Authorize
  import Stringy

  // ---- the rules of a command ----

  /** The rule decides on the command, and this way: by the name `*`, by its name without patterns, or by the first of
      its trimmed patterns that does not simply fail to match, where one that is no regular expression denies. */
  ghost predicate DecidesAs(rule: Command, cmd: Text, text: Text, regex: Regex, permit: bool) {
    var name := Trim(rule.name);
    if name == [42] || (name == cmd && rule.matches == []) then permit == (rule.action == 2)
    else name == cmd && exists i :: 0 <= i < |rule.matches| && FirstToSpeak(rule, text, regex, i) &&
                                    permit == (regex(Trim(rule.matches[i]), text) == Match && rule.action == 2)
  }

  ghost predicate FirstToSpeak(rule: Command, text: Text, regex: Regex, i: int) {
    0 <= i < |rule.matches| && regex(Trim(rule.matches[i]), text) != NoMatch &&
    forall j :: 0 <= j < i ==> regex(Trim(rule.matches[j]), text) == NoMatch
  }

  lemma {:induction false} VerdictMeans(rule: Command, cmd: Text, text: Text, regex: Regex)
    ensures RuleVerdict(rule, cmd, text, regex) == Permitted <==> DecidesAs(rule, cmd, text, regex, true)
    ensures RuleVerdict(rule, cmd, text, regex) == Denied <==> DecidesAs(rule, cmd, text, regex, false)
  {
    var c := rule.Trimmed();
    forall i: nat
      ensures FirstHit(c.matches, text, regex, i) <==> FirstToSpeak(rule, text, regex, i)
    {
      assert forall j :: 0 <= j < |rule.matches| ==> c.matches[j] == Trim(rule.matches[j]);
    }
    forall i: int, j: int | FirstToSpeak(rule, text, regex, i) && FirstToSpeak(rule, text, regex, j)
      ensures i == j
    {
    }
  }

  /** Rule i is the first that decides, and it permits. */
  ghost predicate PermittedAt(rules: seq<Command>, cmd: Text, text: Text, regex: Regex, i: int) {
    0 <= i < |rules| && DecidesAs(rules[i], cmd, text, regex, true) &&
    forall j :: 0 <= j < i ==>
      !DecidesAs(rules[j], cmd, text, regex, true) && !DecidesAs(rules[j], cmd, text, regex, false)
  }

  lemma {:induction false} PermitsMeans(rules: seq<Command>, cmd: Text, text: Text, regex: Regex)
    ensures Permits(rules, cmd, text, regex) <==> exists i :: PermittedAt(rules, cmd, text, regex, i)
  {
    var verdicts := Verdicts(rules, cmd, text, regex);
    forall i | 0 <= i < |rules|
      ensures verdicts[i] == Permitted <==> DecidesAs(rules[i], cmd, text, regex, true)
      ensures verdicts[i] == Denied <==> DecidesAs(rules[i], cmd, text, regex, false)
    {
      VerdictMeans(rules[i], cmd, text, regex);
    }
    if i: nat :| Decides(verdicts, i) && verdicts[i] == Permitted {
      assert PermittedAt(rules, cmd, text, regex, i);
    }
    if i :| PermittedAt(rules, cmd, text, regex, i) {
      assert Decides(verdicts, i) && verdicts[i] == Permitted;
    }
  }

  // ---- the arguments of a command ----

  /** The first argument with this attribute stands at i. */
  ghost predicate FirstAt(args: seq<Text>, attr: Text, i: int) {
    0 <= i < |args| && Split(args[i]).attr == attr && forall j :: 0 <= j < i ==> Split(args[j]).attr != attr
  }

  lemma {:induction false} FirstWithAt(args: seq<Text>, attr: Text, i: int)
    requires FirstAt(args, attr, i)
    ensures FirstWith(args, attr) == Some(Split(args[i]))
  {
    if i > 0 {
      assert forall j :: 0 <= j < |args| - 1 ==> args[1..][j] == args[j + 1];
      FirstWithAt(args[1..], attr, i - 1);
    }
  }

  lemma {:induction false} FirstWithFrom(args: seq<Text>, attr: Text) returns (i: int)
    requires FirstWith(args, attr).Some?
    ensures FirstAt(args, attr, i) && FirstWith(args, attr) == Some(Split(args[i]))
  {
    if Split(args[0]).attr == attr {
      i := 0;
    } else {
      i := FirstWithFrom(args[1..], attr);
      i := i + 1;
      assert forall j :: 0 < j < |args| ==> args[j] == args[1..][j - 1];
    }
  }

  /** A request is for a command exactly when its first `service` is shell and its first `cmd` has an `=` and
      a value. */
  lemma {:induction false} CommandRequestIff(args: seq<Text>)
    ensures IsCommandRequest(args) <==>
            && (exists i :: FirstAt(args, Ascii("service"), i) && Split(args[i]).value == Ascii("shell"))
            && (exists j :: FirstAt(args, Ascii("cmd"), j) && Split(args[j]).sep == [61] && Split(args[j]).value != [])
  {
    if IsCommandRequest(args) {
      var i := FirstWithFrom(args, Ascii("service"));
      var j := FirstWithFrom(args, Ascii("cmd"));
    }
    if i :| FirstAt(args, Ascii("service"), i) && Split(args[i]).value == Ascii("shell") {
      FirstWithAt(args, Ascii("service"), i);
    }
    if j :| FirstAt(args, Ascii("cmd"), j) && Split(args[j]).sep == [61] && Split(args[j]).value != [] {
      FirstWithAt(args, Ascii("cmd"), j);
    }
  }

  /** The command is the value of the first `cmd`. */
  lemma {:induction false} CommandNameIs(args: seq<Text>, j: int)
    requires FirstAt(args, Ascii("cmd"), j)
    ensures CommandName(args) == Split(args[j]).value
  {
    FirstWithAt(args, Ascii("cmd"), j);
  }

  /** The text matched is the values of the `cmd-arg` arguments in order, with spaces between. */
  lemma {:induction false} CommandTextGrows(args: seq<Text>, x: Text)
    ensures JoinedCommandArgs([]) == []
    ensures var before := ValuesWith(args, Ascii("cmd-arg"));
            && JoinedCommandArgs(args) == Join(before)
            && JoinedCommandArgs(args + [x]) ==
               Join(before + Picked(x, Ascii("cmd-arg")))
  {
    ValuesSnoc(args, Ascii("cmd-arg"), x);
  }

  function Picked(arg: Text, attr: Text): seq<Text> { if Split(arg).attr == attr then [Split(arg).value] else [] }

  lemma {:induction false} ValuesCons(x: Text, args: seq<Text>, attr: Text)
    ensures ValuesWith([x] + args, attr) == Picked(x, attr) + ValuesWith(args, attr)
  {
    assert ([x] + args)[1..] == args && ([x] + args)[0] == x;
  }

  lemma {:induction false} ValuesSnoc(args: seq<Text>, attr: Text, x: Text)
    ensures ValuesWith(args + [x], attr) == ValuesWith(args, attr) + Picked(x, attr)
  {
    if args == [] {
      ValuesCons(x, [], attr);
      assert [] + [x] == [x] + [];
    } else {
      var y, rest := args[0], args[1..];
      ValuesSnoc(rest, attr, x);
      ValuesCons(y, rest + [x], attr);
      ValuesCons(y, rest, attr);
      assert [y] + (rest + [x]) == args + [x] && [y] + rest == args;
      TextsAssociate(Picked(y, attr), ValuesWith(rest, attr), Picked(x, attr));
    }
  }

  lemma TextsAssociate(a: seq<Text>, b: seq<Text>, c: seq<Text>)
    ensures a + (b + c) == (a + b) + c
  {
  }

  // ---- authorization ----

  /** A decoded authorization request of a user of the scope. */
  ghost predicate Authorizes(s: Scope, p: Packet, req: Author.AuthorRequest) {
    p.header.typ == 2 && Author.DecodeRequest(p.body) == Ok(req) && req.user in s.users
  }

  /** The one reply to a request for a command: 1 when the first rule that decides permits it, 0x10 otherwise, and no
      arguments. */
  lemma {:induction false} CommandOutcome(s: Scope, p: Packet, req: Author.AuthorRequest)
    requires WellNamed(s) && Authorizes(s, p, req) && IsCommandRequest(req.args)
    ensures var e := Handle(s, None, p);
            && e.next.None? && |e.replies| == 1 && e.replies[0].AuthorR?
            && e.replies[0].author.args == []
            && e.replies[0].author.status ==
               if exists i :: PermittedAt(s.users[req.user].authorizer.commands, CommandName(req.args),
                                          JoinedCommandArgs(req.args), s.regex, i) then 1 else 0x10
  {
    SingleDecision(s, p, req);
    PermitsMeans(s.users[req.user].authorizer.commands, CommandName(req.args), JoinedCommandArgs(req.args), s.regex);
  }

  /** The one reply to a request for a session: 0x10 without arguments when no selected service has a set-value,
      and otherwise the arguments and the status 1 or 2 that `Selection` describes. */
  lemma {:induction false} SessionOutcome(s: Scope, p: Packet, req: Author.AuthorRequest)
    requires WellNamed(s) && Authorizes(s, p, req) && !IsCommandRequest(req.args)
    ensures var e, u := Handle(s, None, p), s.users[req.user].authorizer;
            && e.next.None? && |e.replies| == 1 && e.replies[0].AuthorR?
            && e.replies[0].author.args == ReplyArgs(u, req.args)
            && e.replies[0].author.status ==
               if exists i :: 0 <= i < |u.services| && Selected(u.services[i], Seen(u, req.args)) &&
                              u.services[i].setValues != []
               then ReplyStatus(u, req.args) else 0x10
  {
    var u := s.users[req.user].authorizer;
    SingleDecision(s, p, req);
    SomethingGranted(u, req.args);
  }

  lemma {:induction false} SomethingGranted(u: User, args: seq<Text>)
    ensures ReplyArgs(u, args) != [] <==>
            exists i :: 0 <= i < |u.services| && Selected(u.services[i], Seen(u, args)) && u.services[i].setValues != []
  {
    if ReplyArgs(u, args) != [] {
      assert ReplyArgs(u, args)[0] in ReplyArgs(u, args);
      var i, k := ReplyFrom(u, args, ReplyArgs(u, args)[0]);
    }
    if i :| 0 <= i < |u.services| && Selected(u.services[i], Seen(u, args)) && u.services[i].setValues != [] {
      ReplyHas(u, args, i, 0);
    }
  }

  lemma {:induction false} SingleDecision(s: Scope, p: Packet, req: Author.AuthorRequest)
    requires WellNamed(s) && Authorizes(s, p, req)
    ensures Handle(s, None, p) ==
            Effect(None, [AuthorR(Stringy.Decision(s.users[req.user].authorizer, req.args, s.regex, s.say))])
  {
    var u := s.users[req.user].authorizer;
    assert u.name == req.user;
    assert Handle(s, None, p) == AuthorizeRequest(s, p.body);
    assert Stringy.Replies(u, s.regex, s.say, p.body) == [Stringy.Decision(u, req.args, s.regex, s.say)];
  }

  /** An authorizer given another user's request says 0x10 first and then decides all the same; no built scope
      does that. */
  lemma OtherUsersRequest(u: User, regex: Regex, say: Wording, body: Text)
    requires Author.DecodeRequest(body).Ok? && Author.DecodeRequest(body).value.user != u.name
    ensures var replies := Stringy.Replies(u, regex, say, body);
            |replies| == 2 && replies[0] == Author.AuthorReply(0x10, [], say(NotAuthorized), [])
  {
  }

  /** Other authorization packets: 0x11 when the body does not decode, 0x10 for an unknown user. */
  lemma OtherAuthorization(s: Scope, p: Packet)
    requires p.header.typ == 2
    ensures var d, e := Author.DecodeRequest(p.body), Handle(s, None, p);
            && (!d.Ok? ==> e == Effect(None, [AuthorR(Author.AuthorReply(0x11, [], s.say(InvalidAuthorRequest), []))]))
            && (d.Ok? && d.value.user !in s.users ==>
                  var msg := s.say(AuthorizationDeniedFor(d.value.user));
                  e == Effect(None, [AuthorR(Author.AuthorReply(0x10, [], msg, []))]))
  {
    assert Handle(s, None, p) == AuthorizeRequest(s, p.body);
  }

  /** Accounting: 2 when the body does not decode, the user is unknown or has no accounter, and else what the accounter
      says to the packet. */
  lemma AccountingOutcome(s: Scope, p: Packet)
    requires p.header.typ == 3
    ensures var d, e := Acct.DecodeRequest(p.body), Handle(s, None, p);
            && e.next.None? && |e.replies| == 1 && e.replies[0].AcctR?
            && if d.Ok? && d.value.user in s.users && s.users[d.value.user].accounter.Logger?
               then e.replies[0].acct == s.users[d.value.user].accounter.account(p)
               else e.replies[0].acct.status == 2 && e.replies[0].acct.data == []
  {
    assert Handle(s, None, p) == AccountingRequest(s, p);
  }

  // ---- authentication ----

  function Plain(status: byte, msg: Text): Reply { AuthenR(Authen.AuthenReply(status, 0, msg, [])) }

  /** The body is a CONTINUE with bit 0 of its flags set. */
  predicate AbortBit(body: Text) {
    Authen.DecodeContinue(body).Ok? && Authen.DecodeContinue(body).value.flags % 2 == 1
  }

  lemma AbortBitIs(body: Text)
    ensures Aborts(body) <==> AbortBit(body)
  {
  }

  /** What the password step answers, and that it ends the session: 2 to an abort, 7 to anything but a CONTINUE with a
      message, 2 for an unknown user, and 1 or 2 by the user's check of the password. */
  lemma PasswordStepOutcome(s: Scope, username: Text, p: Packet)
    ensures var d, e, say := Authen.DecodeContinue(p.body), Handle(s, Some(AskPass(username)), p), s.say;
            && e.next.None? && |e.replies| == 1
            && e.replies[0] ==
               if AbortBit(p.body) then Plain(2, say(EndedByAbort))
               else if !d.Ok? then Plain(7, say(NoContinueForPass))
               else if d.value.userMessage == [] then Plain(7, say(UnknownUserOrPassword))
               else if username !in s.users then Plain(2, say(AuthenticationDeniedFor(username)))
               else CheckOutcome(s.users[username].authenticator, say, p.body)
  {
    AbortBitIs(p.body);
    if username in s.users {
      CheckOutcomeIs(s.users[username].authenticator, s.say, p.body);
    }
  }

  function CheckOutcome(a: Authenticator, say: Wording, body: Text): Reply {
    if a.DenyAll? then Plain(2, say(AuthenticationDenied))
    else if GetPassword(body).None? then Plain(7, say(MissingPassword))
    else if a.accepts(GetPassword(body).value) then Plain(1, say(LoginSuccess))
    else Plain(2, say(LoginFailure))
  }

  lemma CheckOutcomeIs(a: Authenticator, say: Wording, body: Text)
    ensures AuthenR(AuthenticatorReply(a, say, body)) == CheckOutcome(a, say, body)
  {
  }

  /** The prompts: 4 for the user name, and 5 for the password, with the flag that says not to echo it. */
  function UserPrompt(say: Wording): Reply { Plain(4, say(AskUsername)) }

  function PasswordPrompt(say: Wording): Reply { AuthenR(Authen.AuthenReply(5, 1, say(AskPassword), [])) }

  /** The user-name step of a session that has no name yet. */
  lemma UsernameStepOutcome(s: Scope, p: Packet)
    ensures var d, e, say := Authen.DecodeContinue(p.body), Handle(s, Some(AskUser([])), p), s.say;
            e == if AbortBit(p.body) then Effect(None, [Plain(2, say(EndedByAbort))])
                 else if !d.Ok? then Effect(None, [Plain(7, say(NoContinueForUser))])
                 else if d.value.userMessage == [] then Effect(None, [Plain(7, say(NoUserMessage))])
                 else Effect(Some(AskPass(d.value.userMessage)), [PasswordPrompt(say)])
  {
    AbortBitIs(p.body);
  }

  /** The first packet of an authentication session. */
  lemma StartOutcome(s: Scope, p: Packet)
    requires p.header.typ == 1
    ensures var d, e, say := Authen.DecodeStart(p.body), Handle(s, None, p), s.say;
            if !d.Ok? then e == Effect(None, [Plain(7, say(ExpectedStart(p.header.session)))])
            else if d.value.action == 1 && d.value.atype == 1 && p.header.version.minor == 0 then
              e == if AbortBit(p.body) then Effect(None, [Plain(2, say(EndedByAbort))])
                   else if d.value.user == [] then Effect(Some(AskUser([])), [UserPrompt(say)])
                   else Effect(Some(AskPass(d.value.user)), [PasswordPrompt(say)])
            else if d.value.action == 1 && d.value.atype == 2 && p.header.version.minor == 1 then
              e == Effect(None, [PapOutcome(s, d.value, p.body)])
            else e == Effect(None, [Plain(7, say(UnknownStart))])
  {
    assert Handle(s, None, p) == AuthenticateStart(s, p);
    AbortBitIs(p.body);
    if Authen.DecodeStart(p.body).Ok? {
      PapOutcomeIs(s, Authen.DecodeStart(p.body).value, p.body);
    }
  }

  function PapOutcome(s: Scope, start: Authen.AuthenStart, body: Text): Reply {
    if start.user == [] then Plain(7, s.say(MissingUsername))
    else if start.data == [] then Plain(7, s.say(MissingPassword))
    else if start.user !in s.users then Plain(2, s.say(AuthenticationDeniedFor(start.user)))
    else CheckOutcome(s.users[start.user].authenticator, s.say, body)
  }

  lemma PapOutcomeIs(s: Scope, start: Authen.AuthenStart, body: Text)
    ensures PapHandle(s, start, body) == Effect(None, [PapOutcome(s, start, body)])
  {
    if start.user in s.users {
      CheckOutcomeIs(s.users[start.user].authenticator, s.say, body);
    }
  }

  /** A reply with status 6, which no handler sends, starts the numbers over at 1. */
  lemma RestartNumber(r: Response, v: Reply)
    requires v.AuthenR? && v.authen.status == 6
    ensures ReplyOnce(r, v).header.seqNo == 1
  {
  }

  // ---- in every run ----

  /** In every run, a command request that opens a session is answered by the first rule that decides. */
  lemma {:induction false} CommandInRun(s: Scope, ps: seq<Packet>, i: nat, req: Author.AuthorRequest)
    requires WellNamed(s) && i < |Run(Serving(s), ps).log| && Run(Serving(s), ps).log[i].before.None?
    requires Authorizes(s, ps[i], req) && IsCommandRequest(req.args)
    ensures var replies := Run(Serving(s), ps).log[i].replies;
            && |replies| == 1 && replies[0].AuthorR?
            && replies[0].author.status ==
               if exists k :: PermittedAt(s.users[req.user].authorizer.commands, CommandName(req.args),
                                          JoinedCommandArgs(req.args), s.regex, k) then 1 else 0x10
  {
    EventIs(Serving(s), ps, i);
    CommandOutcome(s, ps[i], req);
  }

  /** And a session request gets 0x10 exactly when no selected service has a set-value. */
  lemma {:induction false} SessionInRun(s: Scope, ps: seq<Packet>, i: nat, req: Author.AuthorRequest)
    requires WellNamed(s) && i < |Run(Serving(s), ps).log| && Run(Serving(s), ps).log[i].before.None?
    requires Authorizes(s, ps[i], req) && !IsCommandRequest(req.args)
    ensures var replies, u := Run(Serving(s), ps).log[i].replies, s.users[req.user].authorizer;
            && |replies| == 1 && replies[0].AuthorR? && replies[0].author.args == ReplyArgs(u, req.args)
            && (replies[0].author.status == 0x10 <==>
                forall k :: 0 <= k < |u.services| && Selected(u.services[k], Seen(u, req.args)) ==>
                  u.services[k].setValues == [])
  {
    EventIs(Serving(s), ps, i);
    SessionOutcome(s, ps[i], req);
    StatusIff(s.users[req.user].authorizer, req.args);
  }
}
