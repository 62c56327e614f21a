/** stringy/stringy.go: one user's authorizer, which dispatches to command or session rules. */
module Stringy {
  import opened ArgLists
  import opened Bytes
  import opened Config
  import opened Fields
  import opened CommandAuthorizer
  import opened Messages
  import opened SessionAuthorizer
  import A = Authorize

  function GroupServices(groups: seq<Group>): seq<Service> {
    if groups == [] then [] else groups[0].services + GroupServices(groups[1..])
  }

  function GroupCommands(groups: seq<Group>): seq<Command> {
    if groups == [] then [] else groups[0].commands + GroupCommands(groups[1..])
  }

  /** The user's own rules first, then each group's in order. */
  function Reduced(u: User): User {
    u.(services := u.services + GroupServices(u.groups), commands := u.commands + GroupCommands(u.groups))
  }

  method ReduceAll(u: User) returns (r: User)
    ensures r == Reduced(u)
  {
    r := u;
    for i := 0 to |u.groups|
      invariant r == u.(services := r.services, commands := r.commands)
      invariant r.services + GroupServices(u.groups[i..]) == u.services + GroupServices(u.groups)
      invariant r.commands + GroupCommands(u.groups[i..]) == u.commands + GroupCommands(u.groups)
    {
      var g := u.groups[i];
      assert u.groups[i..][1..] == u.groups[i + 1..];
      r := r.(services := r.services + g.services, commands := r.commands + g.commands);
    }
  }

  function NotAuthorizedReply(say: Wording): A.AuthorReply { A.AuthorReply(AUTHOR_FAIL, [], say(NotAuthorized), []) }

  /** The reply to a decoded request. */
  ghost function Decision(u: User, args: seq<Text>, regex: Regex, say: Wording): A.AuthorReply {
    if IsCommandRequest(args) then
      if Permits(u.commands, CommandName(args), JoinedCommandArgs(args), regex)
      then A.AuthorReply(AUTHOR_PASS_ADD, [], say(AuthorizationApproved), []) else NotAuthorizedReply(say)
    else if ReplyArgs(u, args) != [] then
      A.AuthorReply(ReplyStatus(u, args), ReplyArgs(u, args), say(AuthorizationApproved), [])
    else NotAuthorizedReply(say)
  }

  /** The Reply calls of Handle, in order: a name mismatch is reported and then not stopped at. */
  ghost function Replies(u: User, regex: Regex, say: Wording, body: Text): seq<A.AuthorReply> {
    match A.DecodeRequest(body)
    case Ok(req) => (if u.name != req.user then [NotAuthorizedReply(say)] else []) + [Decision(u, req.args, regex, say)]
    case _ => [A.AuthorReply(AUTHOR_ERROR, [], say(UndecodableAuthorRequest), [])]
  }

  method Handle(u: User, regex: Regex, say: Wording, body: Text) returns (replies: seq<A.AuthorReply>)
    ensures replies == Replies(u, regex, say, body)
  {
    var decoded := A.UnmarshalRequest(body);
    if !decoded.Ok? {
      return [A.AuthorReply(AUTHOR_ERROR, [], say(UndecodableAuthorRequest), [])];
    }
    var req := decoded.value;
    replies := [];
    if u.name != req.user {
      replies := [NotAuthorizedReply(say)];
    }
    if IsCommandRequest(req.args) {
      var rules := new Rules(u.commands);
      var permitted := rules.Evaluate(req.args, regex);
      var approved := A.AuthorReply(AUTHOR_PASS_ADD, [], say(AuthorizationApproved), []);
      replies := replies + [if permitted then approved else NotAuthorizedReply(say)];
    } else {
      var args, status := Evaluate(u, req.args);
      var approved := A.AuthorReply(status, args, say(AuthorizationApproved), []);
      replies := replies + [if args != [] then approved else NotAuthorizedReply(say)];
    }
  }

  /** For the user the request names there is exactly one Reply call. */
  lemma OneReplyForOwnName(u: User, regex: Regex, say: Wording, body: Text)
    requires A.DecodeRequest(body).Ok? ==> A.DecodeRequest(body).value.user == u.name
    ensures |Replies(u, regex, say, body)| == 1
  {
  }
}
