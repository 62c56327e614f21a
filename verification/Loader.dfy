/** cmds/server/loader/loader.go: users, groups and scopes reduced to an ordered list of providers. */
module Loader {
  import opened Aaa
  import opened Bytes
  import opened Config
  import CommandAuthorizer
  import Messages
  import Stringy

  /** The registered factories. An authenticator factory may fail, a provider factory may give nil. */
  datatype Factories = Factories(
    authenticators: map<int, (Text, Options) -> Option<Authenticator>>,
    accounters: map<int, Options -> Accounter>,
    handlers: set<int>,
    providers: map<int, SecretConfig -> bool>)

  datatype SecretConfig = SecretConfig(name: Text, handler: int, kind: int, options: Options)
  datatype ServerConfig = ServerConfig(secrets: seq<SecretConfig>, users: seq<User>)
  datatype Provider = Provider(config: SecretConfig, users: map<Text, AAA>)

  // ---- authenticators and accounters from groups ----

  function FirstAuthenticator(groups: seq<Group>): Option<AuthenticatorConfig> {
    if groups == [] then None
    else if groups[0].authenticator.Some? then groups[0].authenticator
    else FirstAuthenticator(groups[1..])
  }

  function FirstAccounter(groups: seq<Group>): Option<AccounterConfig> {
    if groups == [] then None
    else if groups[0].accounter.Some? then groups[0].accounter
    else FirstAccounter(groups[1..])
  }

  lemma {:induction false} FirstAuthenticatorIs(groups: seq<Group>)
    ensures match FirstAuthenticator(groups)
            case None => forall i :: 0 <= i < |groups| ==> groups[i].authenticator.None?
            case Some(a) => exists i :: 0 <= i < |groups| && groups[i].authenticator == Some(a) &&
                                        forall j :: 0 <= j < i ==> groups[j].authenticator.None?
  {
    if groups != [] && groups[0].authenticator.None? {
      FirstAuthenticatorIs(groups[1..]);
      if a :| FirstAuthenticator(groups) == Some(a) {
        var i :| 0 <= i < |groups[1..]| && groups[1..][i].authenticator == Some(a) &&
                 forall j :: 0 <= j < i ==> groups[1..][j].authenticator.None?;
        assert groups[i + 1].authenticator == Some(a);
        assert forall j :: 0 < j < i + 1 ==> groups[j] == groups[1..][j - 1];
      }
    }
  }

  lemma {:induction false} FirstAccounterIs(groups: seq<Group>)
    ensures match FirstAccounter(groups)
            case None => forall i :: 0 <= i < |groups| ==> groups[i].accounter.None?
            case Some(a) => exists i :: 0 <= i < |groups| && groups[i].accounter == Some(a) &&
                                        forall j :: 0 <= j < i ==> groups[j].accounter.None?
  {
    if groups != [] && groups[0].accounter.None? {
      FirstAccounterIs(groups[1..]);
      if a :| FirstAccounter(groups) == Some(a) {
        var i :| 0 <= i < |groups[1..]| && groups[1..][i].accounter == Some(a) &&
                 forall j :: 0 <= j < i ==> groups[1..][j].accounter.None?;
        assert groups[i + 1].accounter == Some(a);
        assert forall j :: 0 < j < i + 1 ==> groups[j] == groups[1..][j - 1];
      }
    }
  }

  /** The user's own authenticator and accounter, or else those of the first group that has one. */
  function WithGroups(u: User): User {
    u.(authenticator := if u.authenticator.Some? then u.authenticator else FirstAuthenticator(u.groups),
       accounter := if u.accounter.Some? then u.accounter else FirstAccounter(u.groups))
  }

  method ReduceFromGroups(u: User) returns (r: User)
    ensures r == WithGroups(u)
  {
    r := u;
    if r.authenticator.Some? && r.accounter.Some? {
      return;
    }
    for i := 0 to |u.groups|
      invariant r == u.(authenticator := r.authenticator, accounter := r.accounter)
      invariant WithGroups(u) == WithGroups(r.(groups := u.groups[i..])).(groups := u.groups)
    {
      var g := u.groups[i];
      assert u.groups[i..][1..] == u.groups[i + 1..];
      if g.authenticator.Some? && !r.authenticator.Some? {
        r := r.(authenticator := g.authenticator);
      }
      if g.accounter.Some? && !r.accounter.Some? {
        r := r.(accounter := g.accounter);
      }
      if r.authenticator.Some? && r.accounter.Some? {
        return;
      }
    }
  }

  // ---- one user in one scope ----

  /** The handlers built for a user, or None when the authenticator factory fails. */
  function MakeAAA(f: Factories, scope: Text, user: User): Option<AAA> {
    var u := WithGroups(user.LocalizedTo(scope));
    var accounter :=
      if u.accounter.Some? && u.accounter.value.kind in f.accounters
      then f.accounters[u.accounter.value.kind](u.accounter.value.options) else NoAccounter;
    if u.authenticator.Some? && u.authenticator.value.kind in f.authenticators then
      match f.authenticators[u.authenticator.value.kind](u.name, u.authenticator.value.options)
      case None => None
      case Some(a) => Some(AAA(a, Stringy.Reduced(u), accounter))
    else Some(AAA(DenyAll, Stringy.Reduced(u), accounter))
  }

  /** What entry u of the user list contributes to the scope. */
  function Landing(f: Factories, scope: Text, u: User): Option<AAA> {
    if u.HasScope(scope) then MakeAAA(f, scope, u) else None
  }

  function Landings(f: Factories, scope: Text, users: seq<User>): (r: seq<Option<AAA>>)
    ensures |r| == |users|
  {
    seq(|users|, i requires 0 <= i < |users| => Landing(f, scope, users[i]))
  }

  function NamesOf(users: seq<User>): (r: seq<Text>)
    ensures |r| == |users|
  {
    seq(|users|, i requires 0 <= i < |users| => users[i].name)
  }

  /** i is the last entry with this name that has a value. */
  predicate IsLast<T>(names: seq<Text>, vals: seq<Option<T>>, name: Text, i: nat)
    requires |names| == |vals|
  {
    i < |names| && names[i] == name && vals[i].Some? &&
    forall j :: i < j < |names| && names[j] == name ==> vals[j].None?
  }

  /** A name resolves to the last entry with a value, and to nothing when it has none. */
  ghost predicate LastWins<T>(names: seq<Text>, vals: seq<Option<T>>, m: map<Text, T>)
    requires |names| == |vals|
  {
    (forall name :: name in m ==> exists i: nat :: IsLast(names, vals, name, i) && m[name] == vals[i].value) &&
    (forall i :: 0 <= i < |names| && vals[i].Some? ==> names[i] in m)
  }

  /** The user map of a scope. */
  ghost predicate IsScopeMap(f: Factories, scope: Text, users: seq<User>, m: map<Text, AAA>) {
    LastWins(NamesOf(users), Landings(f, scope, users), m)
  }

  lemma LastWinsNext<T>(names: seq<Text>, vals: seq<Option<T>>, m: map<Text, T>, name: Text, val: Option<T>)
    requires |names| == |vals| && LastWins(names, vals, m)
    ensures LastWins(names + [name], vals + [val], if val.Some? then m[name := val.value] else m)
  {
    var names', vals' := names + [name], vals + [val];
    var m' := if val.Some? then m[name := val.value] else m;
    forall n | n in m'
      ensures exists i: nat :: IsLast(names', vals', n, i) && m'[n] == vals'[i].value
    {
      if val.Some? && n == name {
        assert IsLast(names', vals', n, |names|);
      } else {
        var i: nat :| IsLast(names, vals, n, i) && m[n] == vals[i].value;
        assert IsLast(names', vals', n, i);
      }
    }
  }

  /** Two maps that follow the rule are the same map. */
  lemma LastWinsUnique<T>(names: seq<Text>, vals: seq<Option<T>>, m: map<Text, T>, m': map<Text, T>)
    requires |names| == |vals| && LastWins(names, vals, m) && LastWins(names, vals, m')
    ensures m == m'
  {
    forall name | name in m
      ensures name in m' && m[name] == m'[name]
    {
      var i: nat :| IsLast(names, vals, name, i) && m[name] == vals[i].value;
      var j: nat :| IsLast(names, vals, name, j) && m'[name] == vals[j].value;
      assert i == j;
    }
    forall name | name in m'
      ensures name in m
    {
      var i: nat :| IsLast(names, vals, name, i) && m'[name] == vals[i].value;
    }
  }

  method BuildUser(f: Factories, scope: Text, user: User) returns (r: Option<AAA>)
    ensures r == MakeAAA(f, scope, user)
  {
    var u := ReduceFromGroups(user.LocalizedTo(scope));
    var authorizer := Stringy.ReduceAll(u);
    var authenticator, accounter := DenyAll, NoAccounter;
    if u.authenticator.Some? && u.authenticator.value.kind in f.authenticators {
      var a := f.authenticators[u.authenticator.value.kind](u.name, u.authenticator.value.options);
      if a.None? {
        return None;
      }
      authenticator := a.value;
    }
    if u.accounter.Some? && u.accounter.value.kind in f.accounters {
      accounter := f.accounters[u.accounter.value.kind](u.accounter.value.options);
    }
    return Some(AAA(authenticator, authorizer, accounter));
  }

  method BuildUsers(f: Factories, scope: Text, users: seq<User>) returns (m: map<Text, AAA>)
    ensures IsScopeMap(f, scope, users, m)
  {
    m := map[];
    for i := 0 to |users|
      invariant IsScopeMap(f, scope, users[..i], m)
    {
      var u := users[i];
      assert NamesOf(users[..i + 1]) == NamesOf(users[..i]) + [u.name];
      assert Landings(f, scope, users[..i + 1]) == Landings(f, scope, users[..i]) + [Landing(f, scope, u)];
      LastWinsNext(NamesOf(users[..i]), Landings(f, scope, users[..i]), m, u.name, Landing(f, scope, u));
      if !u.HasScope(scope) {
        continue;
      }
      var aaa := BuildUser(f, scope, u);
      if aaa.None? {
        continue;
      }
      m := m[u.name := aaa.value];
    }
    assert users[..|users|] == users;
  }

  // ---- the provider list ----

  /** A secret config yields a provider when it has users, a known handler type and a provider factory
      that gives one. */
  predicate Served(f: Factories, c: SecretConfig, users: map<Text, AAA>) {
    users != map[] && c.handler in f.handlers && c.kind in f.providers && f.providers[c.kind](c)
  }

  ghost function ScopeMap(f: Factories, scope: Text, users: seq<User>): (m: map<Text, AAA>)
    ensures IsScopeMap(f, scope, users, m)
  {
    if users == [] then map[] else
    var init, last := users[..|users| - 1], users[|users| - 1];
    var m := ScopeMap(f, scope, init);
    assert NamesOf(users) == NamesOf(init) + [last.name];
    assert Landings(f, scope, users) == Landings(f, scope, init) + [Landing(f, scope, last)];
    LastWinsNext(NamesOf(init), Landings(f, scope, init), m, last.name, Landing(f, scope, last));
    if Landing(f, scope, last).Some? then m[last.name := Landing(f, scope, last).value] else m
  }

  /** The providers of the served secret configs, in the order they are listed. */
  ghost function Providers(f: Factories, users: seq<User>, secrets: seq<SecretConfig>): seq<Provider> {
    if secrets == [] then [] else
    var init, last := secrets[..|secrets| - 1], secrets[|secrets| - 1];
    var m := ScopeMap(f, last.name, users);
    Providers(f, users, init) + if Served(f, last, m) then [Provider(last, m)] else []
  }

  method Build(f: Factories, c: ServerConfig) returns (providers: seq<Provider>)
    ensures providers == Providers(f, c.users, c.secrets)
  {
    providers := [];
    for i := 0 to |c.secrets|
      invariant providers == Providers(f, c.users, c.secrets[..i])
    {
      var provider := c.secrets[i];
      assert c.secrets[..i + 1][..i] == c.secrets[..i];
      var users := BuildUsers(f, provider.name, c.users);
      LastWinsUnique(NamesOf(c.users), Landings(f, provider.name, c.users), users, ScopeMap(f, provider.name, c.users));
      if |users| == 0 {
        continue;
      }
      if provider.handler !in f.handlers {
        continue;
      }
      if provider.kind !in f.providers {
        continue;
      }
      if !f.providers[provider.kind](provider) {
        continue;
      }
      providers := providers + [Provider(provider, users)];
    }
    assert c.secrets[..|c.secrets|] == c.secrets;
  }

  /** get: the first provider that answers the remote address with a secret, or None. */
  method Get(providers: seq<Provider>, remote: Text, answer: (Provider, Text) -> Option<Text>)
    returns (r: Option<(Provider, Text)>)
    ensures r.None? ==> forall i :: 0 <= i < |providers| ==> answer(providers[i], remote).None?
    ensures r.Some? ==>
              exists i :: 0 <= i < |providers| && r.value.0 == providers[i] &&
                          answer(providers[i], remote) == Some(r.value.1) &&
                          forall j :: 0 <= j < i ==> answer(providers[j], remote).None?
  {
    for i := 0 to |providers|
      invariant forall j :: 0 <= j < i ==> answer(providers[j], remote).None?
    {
      var a := answer(providers[i], remote);
      if a.Some? {
        return Some((providers[i], a.value));
      }
    }
    return None;
  }

  // ---- what every built scope guarantees ----

  /** In every built provider each name resolves to the last listed user with that name and scope whose
      authenticator factory did not fail, and that user's authorizer carries the same name. */
  lemma {:induction false} BuiltScopes(f: Factories, users: seq<User>, secrets: seq<SecretConfig>, p: Provider,
                                       regex: CommandAuthorizer.Regex, say: Messages.Wording)
    requires p in Providers(f, users, secrets)
    ensures p.config in secrets && p.users != map[] && IsScopeMap(f, p.config.name, users, p.users)
    ensures WellNamed(Scope(p.users, regex, say))
  {
    var init, last := secrets[..|secrets| - 1], secrets[|secrets| - 1];
    if p in Providers(f, users, init) {
      BuiltScopes(f, users, init, p, regex, say);
    } else {
      var m, names, vals := p.users, NamesOf(users), Landings(f, last.name, users);
      forall name | name in m
        ensures m[name].authorizer.name == name
      {
        var i: nat :| IsLast(names, vals, name, i) && m[name] == vals[i].value;
        MadeName(f, last.name, users[i]);
      }
    }
  }

  lemma MadeName(f: Factories, scope: Text, u: User)
    ensures MakeAAA(f, scope, u).Some? ==> MakeAAA(f, scope, u).value.authorizer.name == u.name
  {
  }
}
