/** What a configuration means: for every name in a built scope, which listed user it stands for and which
    authenticator, accounter and rules it gets, by the entries of the configuration alone. */
module Resolution {
  import opened Aaa
  import opened Bytes
  import opened Config
  import opened Crypt
  import opened EndToEnd
  import opened Handlers
  import opened Headers
  import opened Loader
  import opened Login
  import opened Messages
  import opened Transport
  import CommandAuthorizer
  import Stringy

  // ---- authenticator and accounter configurations ----

  /** Group i is the first one with an authenticator. */
  ghost predicate FirstGroupAuth(groups: seq<Group>, i: int) {
    0 <= i < |groups| && groups[i].authenticator.Some? && forall j :: 0 <= j < i ==> groups[j].authenticator.None?
  }

  ghost predicate FirstGroupAcct(groups: seq<Group>, i: int) {
    0 <= i < |groups| && groups[i].accounter.Some? && forall j :: 0 <= j < i ==> groups[j].accounter.None?
  }

  /** The authenticator configured for a user: its own, or that of the first group that has one, or none. */
  ghost predicate AuthConfig(u: User, c: Option<AuthenticatorConfig>) {
    if u.authenticator.Some? then c == u.authenticator
    else if c.Some? then exists i :: FirstGroupAuth(u.groups, i) && c == u.groups[i].authenticator
    else forall i :: 0 <= i < |u.groups| ==> u.groups[i].authenticator.None?
  }

  ghost predicate AcctConfig(u: User, c: Option<AccounterConfig>) {
    if u.accounter.Some? then c == u.accounter
    else if c.Some? then exists i :: FirstGroupAcct(u.groups, i) && c == u.groups[i].accounter
    else forall i :: 0 <= i < |u.groups| ==> u.groups[i].accounter.None?
  }

  /** What the registered factories make of it: None if the factory fails, and the default that denies if no factory
      is registered for its kind or nothing is configured. */
  function Authenticated(f: Factories, name: Text, c: Option<AuthenticatorConfig>): Option<Authenticator> {
    if c.Some? && c.value.kind in f.authenticators then f.authenticators[c.value.kind](name, c.value.options)
    else Some(DenyAll)
  }

  function Accounted(f: Factories, c: Option<AccounterConfig>): Accounter {
    if c.Some? && c.value.kind in f.accounters then f.accounters[c.value.kind](c.value.options) else NoAccounter
  }

  lemma {:induction false} AuthConfigIs(u: User)
    ensures AuthConfig(u, WithGroups(u).authenticator)
  {
    FirstAuthenticatorIs(u.groups);
    var c := FirstAuthenticator(u.groups);
    if u.authenticator.None? && c.Some? {
      var i :| 0 <= i < |u.groups| && u.groups[i].authenticator == c &&
               forall j :: 0 <= j < i ==> u.groups[j].authenticator.None?;
      assert FirstGroupAuth(u.groups, i);
    }
  }

  lemma {:induction false} AcctConfigIs(u: User)
    ensures AcctConfig(u, WithGroups(u).accounter)
  {
    FirstAccounterIs(u.groups);
    var c := FirstAccounter(u.groups);
    if u.accounter.None? && c.Some? {
      var i :| 0 <= i < |u.groups| && u.groups[i].accounter == c &&
               forall j :: 0 <= j < i ==> u.groups[j].accounter.None?;
      assert FirstGroupAcct(u.groups, i);
    }
  }

  /** There is only one such configuration. */
  lemma AuthConfigUnique(u: User, c: Option<AuthenticatorConfig>, c': Option<AuthenticatorConfig>)
    requires AuthConfig(u, c) && AuthConfig(u, c')
    ensures c == c'
  {
    if u.authenticator.None? && c.Some? && c'.Some? {
      var i :| FirstGroupAuth(u.groups, i) && c == u.groups[i].authenticator;
      var j :| FirstGroupAuth(u.groups, j) && c' == u.groups[j].authenticator;
      assert i == j;
    }
  }

  lemma AcctConfigUnique(u: User, c: Option<AccounterConfig>, c': Option<AccounterConfig>)
    requires AcctConfig(u, c) && AcctConfig(u, c')
    ensures c == c'
  {
    if u.accounter.None? && c.Some? && c'.Some? {
      var i :| FirstGroupAcct(u.groups, i) && c == u.groups[i].accounter;
      var j :| FirstGroupAcct(u.groups, j) && c' == u.groups[j].accounter;
      assert i == j;
    }
  }

  // ---- rules ----

  /** Rules of groups follow the user's own, group by group. */
  lemma {:induction false} RulesFollow(u: User, g: Group)
    ensures var bare := Stringy.Reduced(u.(groups := [])); bare.services == u.services && bare.commands == u.commands
    ensures var more := Stringy.Reduced(u.(groups := u.groups + [g]));
            && more.services == Stringy.Reduced(u).services + g.services
            && more.commands == Stringy.Reduced(u).commands + g.commands
  {
    GroupRulesSnoc(u.groups, g);
  }

  lemma {:induction false} GroupRulesSnoc(groups: seq<Group>, g: Group)
    ensures Stringy.GroupServices(groups + [g]) == Stringy.GroupServices(groups) + g.services
    ensures Stringy.GroupCommands(groups + [g]) == Stringy.GroupCommands(groups) + g.commands
  {
    if groups == [] {
      assert [] + [g] == [g] && [g][1..] == [];
    } else {
      GroupRulesSnoc(groups[1..], g);
      assert (groups + [g])[1..] == groups[1..] + [g];
    }
  }

  // ---- names ----

  /** The entry's authenticator can be built, for a user of this name and scope. */
  ghost predicate Lands(f: Factories, u: User, name: Text, scope: Text) {
    u.name == name && scope in u.scopes && exists c :: AuthConfig(u, c) && Authenticated(f, name, c).Some?
  }

  /** Entry i is the one the name stands for in the scope: the last that lands. */
  ghost predicate StandsFor(f: Factories, users: seq<User>, name: Text, scope: Text, i: int) {
    0 <= i < |users| && Lands(f, users[i], name, scope) &&
    forall j :: i < j < |users| ==> !Lands(f, users[j], name, scope)
  }

  /** The handlers of an entry: the authenticator and accounter configured for it, and its rules with the groups'. */
  ghost predicate HandlersOf(f: Factories, u: User, scope: Text, a: AAA) {
    (forall c :: AuthConfig(u, c) ==> Authenticated(f, u.name, c) == Some(a.authenticator)) &&
    (forall c :: AcctConfig(u, c) ==> Accounted(f, c) == a.accounter) &&
    a.authorizer.name == u.name && a.authorizer.scopes == [scope] &&
    a.authorizer.services == Stringy.Reduced(u).services && a.authorizer.commands == Stringy.Reduced(u).commands
  }

  lemma {:induction false} LandingIff(f: Factories, scope: Text, u: User)
    ensures Landing(f, scope, u).Some? <==> Lands(f, u, u.name, scope)
    ensures Landing(f, scope, u).Some? ==> HandlersOf(f, u, scope, Landing(f, scope, u).value)
  {
    var local := u.LocalizedTo(scope);
    AuthConfigIs(local);
    AcctConfigIs(local);
    var ac, cc := WithGroups(local).authenticator, WithGroups(local).accounter;
    assert AuthConfig(u, ac) && AcctConfig(u, cc);
    forall c | AuthConfig(u, c)
      ensures c == ac
    {
      AuthConfigUnique(u, c, ac);
    }
    forall c | AcctConfig(u, c)
      ensures c == cc
    {
      AcctConfigUnique(u, c, cc);
    }
    assert MakeAAA(f, scope, u).Some? <==> Authenticated(f, u.name, ac).Some?;
  }

  /** In every provider built from a configuration, a name is known exactly when an entry stands for it, and it has
      that entry's handlers. */
  lemma {:induction false} NamesResolve(f: Factories, c: ServerConfig, p: Provider, name: Text, i: nat)
    requires p in Providers(f, c.users, c.secrets) && StandsFor(f, c.users, name, p.config.name, i)
    ensures name in p.users && HandlersOf(f, c.users[i], p.config.name, p.users[name])
  {
    ScopeMapOf(f, c.users, c.secrets, p);
    var scope, names, vals := p.config.name, NamesOf(c.users), Landings(f, p.config.name, c.users);
    LandingIff(f, scope, c.users[i]);
    assert names[i] == name && vals[i].Some?;
    var k: nat :| IsLast(names, vals, name, k) && p.users[name] == vals[k].value;
    LandingIff(f, scope, c.users[k]);
    assert k == i;
  }

  lemma {:induction false} KnownStandsFor(f: Factories, c: ServerConfig, p: Provider, name: Text) returns (i: nat)
    requires p in Providers(f, c.users, c.secrets) && name in p.users
    ensures StandsFor(f, c.users, name, p.config.name, i)
  {
    ScopeMapOf(f, c.users, c.secrets, p);
    var scope, names, vals := p.config.name, NamesOf(c.users), Landings(f, p.config.name, c.users);
    i :| IsLast(names, vals, name, i) && p.users[name] == vals[i].value;
    LandingIff(f, scope, c.users[i]);
    forall j | i < j < |c.users|
      ensures !Lands(f, c.users[j], name, scope)
    {
      LandingIff(f, scope, c.users[j]);
      assert names[j] == c.users[j].name && vals[j] == Landing(f, scope, c.users[j]);
    }
  }

  lemma {:induction false} ScopeMapOf(f: Factories, users: seq<User>, secrets: seq<SecretConfig>, p: Provider)
    requires p in Providers(f, users, secrets)
    ensures IsScopeMap(f, p.config.name, users, p.users)
  {
    BuiltScopes(f, users, secrets, p, (x, y) => CommandAuthorizer.NoMatch, m => []);
  }

  // ---- providers ----

  /** Secret configurations are taken in order. Each gives a provider exactly when some entry lands in its scope, its
      handler type and provider type are registered and the provider factory gives one. */
  lemma {:induction false} ProvidersInOrder(f: Factories, users: seq<User>, secrets: seq<SecretConfig>,
                                            last: SecretConfig)
    ensures Providers(f, users, []) == []
    ensures var before, after := Providers(f, users, secrets), Providers(f, users, secrets + [last]);
            if (exists i :: 0 <= i < |users| && Lands(f, users[i], users[i].name, last.name)) &&
               last.handler in f.handlers && last.kind in f.providers && f.providers[last.kind](last)
            then |after| == |before| + 1 && after[..|before|] == before && after[|before|].config == last
            else after == before
  {
    assert (secrets + [last])[..|secrets|] == secrets;
    var m := ScopeMap(f, last.name, users);
    var names, vals := NamesOf(users), Landings(f, last.name, users);
    if i :| 0 <= i < |users| && Lands(f, users[i], users[i].name, last.name) {
      LandingIff(f, last.name, users[i]);
      assert vals[i].Some? && names[i] in m;
    }
    if name :| name in m {
      var k: nat :| IsLast(names, vals, name, k) && m[name] == vals[k].value;
      LandingIff(f, last.name, users[k]);
    }
  }

  // ---- logging in to a built scope ----

  lemma {:induction false} ConfiguredChecker(f: Factories, c: ServerConfig, p: Provider, i: nat,
                                             cfg: AuthenticatorConfig, accepts: Text -> bool)
    requires p in Providers(f, c.users, c.secrets) && i < |c.users|
    requires StandsFor(f, c.users, c.users[i].name, p.config.name, i) && AuthConfig(c.users[i], Some(cfg))
    requires cfg.kind in f.authenticators
    requires f.authenticators[cfg.kind](c.users[i].name, cfg.options) == Some(Checker(accepts))
    ensures c.users[i].name in p.users && p.users[c.users[i].name].authenticator == Checker(accepts)
  {
    var u := c.users[i].name;
    NamesResolve(f, c, p, u, i);
    assert Authenticated(f, u, Some(cfg)) == Some(p.users[u].authenticator);
  }

  /** A user of the configuration whose configured check accepts the password can log in to the built scope. */
  lemma {:induction false} ConfiguredLogin(key: Key, f: Factories, c: ServerConfig, p: Provider, i: nat,
                                           cfg: AuthenticatorConfig, accepts: Text -> bool,
                                           regex: CommandAuthorizer.Regex, say: Wording,
                                           session: uint32, m: Text, named: bool, typ: byte)
    returns (ps: seq<Packet>)
    requires p in Providers(f, c.users, c.secrets) && i < |c.users|
    requires var u := c.users[i].name;
             && StandsFor(f, c.users, u, p.config.name, i) && AuthConfig(c.users[i], Some(cfg))
             && cfg.kind in f.authenticators && f.authenticators[cfg.kind](u, cfg.options) == Some(Checker(accepts))
             && AllAscii(u) && 1 <= |u| <= 65531 && (named ==> |u| <= 255)
    requires AllAscii(m) && 1 <= |m| <= 65531 && accepts(m) && 1 <= typ <= 3
    requires |PassReply(say).authen.Encode()| <= MAX_BODY_LENGTH
    ensures AllSendable(ps) && NoneFlagged(ps) && DeliveredAll(ps) == ps && IsLogin(ps, c.users[i].name, m)
    ensures ReadsPass(key, Serving(Scope(p.users, regex, say)), ps, say)
  {
    var u := c.users[i].name;
    ConfiguredChecker(f, c, p, i, cfg, accepts);
    ps := LoginSucceeds(key, Scope(p.users, regex, say), session, u, m, named, typ);
  }
}
