/** cmds/server/config/types.go: users, groups, services and commands. */
module Config {
  import opened ArgLists
  import opened Bytes

  datatype Value = Value(name: Text, values: seq<Text>, optional: bool) {
    /** The attribute-value pair as sent: `*` for optional values, `=` otherwise. */
    function Render(): Text { name + [if optional then STAR else EQUALS] + Join(values) }
  }

  datatype Service = Service(name: Text, matches: seq<Value>, setValues: seq<Value>)

  const PERMIT: int := 2

  datatype Command = Command(name: Text, matches: seq<Text>, action: int) {
    /** TrimSpace, as evaluation sees the rule. */
    function Trimmed(): Command { Command(Trim(name), MapTrim(matches), action) }
  }

  type Options = map<Text, Text>
  datatype AuthenticatorConfig = AuthenticatorConfig(kind: int, options: Options)
  datatype AccounterConfig = AccounterConfig(kind: int, options: Options)

  datatype Group = Group(services: seq<Service>, commands: seq<Command>,
                         authenticator: Option<AuthenticatorConfig>, accounter: Option<AccounterConfig>)

  datatype User = User(name: Text, scopes: seq<Text>, groups: seq<Group>,
                       services: seq<Service>, commands: seq<Command>,
                       authenticator: Option<AuthenticatorConfig>, accounter: Option<AccounterConfig>) {
    predicate HasScope(scope: Text) { scope in scopes }

    function LocalizedTo(scope: Text): User { this.(scopes := [scope]) }

    /** GetLocalizedScope: the argument injected into session requests. */
    function LocalizedScope(): Text {
      if scopes == [] then Ascii("scope=no-scope-set") else Ascii("scope=") + scopes[0]
    }
  }
}
