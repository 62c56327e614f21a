/** stringy/command.go: command-based authorization. */
module CommandAuthorizer {
  import opened ArgLists
  import opened Bytes
  import opened Config

  /** regexp.MatchString, left as any function of the pattern and the text. */
  datatype RegexResult = Match | NoMatch | BadRegex
  type Regex = (Text, Text) -> RegexResult

  const ANY: Text := [STAR]

  /** NewCommandBasedAuthorizer: the request is for one shell command, named with a mandatory `=`. */
  predicate IsCommandRequest(args: seq<Text>) {
    FirstWith(args, SERVICE).Some? && FirstWith(args, SERVICE).value.value == SHELL &&
    FirstWith(args, CMD).Some? && FirstWith(args, CMD).value.sep == [EQUALS] && FirstWith(args, CMD).value.value != []
  }

  function CommandName(args: seq<Text>): Text {
    match FirstWith(args, CMD) case Some(a) => a.value case None => []
  }

  // ---- the declarative reading ----

  datatype Verdict = Undecided | Permitted | Denied

  function ByAction(action: int): Verdict { if action == PERMIT then Permitted else Denied }

  /** The first pattern that matches or is not a regular expression, if any. */
  predicate FirstHit(patterns: seq<Text>, text: Text, regex: Regex, i: nat) {
    i < |patterns| && regex(patterns[i], text) != NoMatch &&
    forall j :: 0 <= j < i ==> regex(patterns[j], text) == NoMatch
  }

  /** What one rule, trimmed, says about a command. */
  ghost function RuleVerdict(rule: Command, cmd: Text, text: Text, regex: Regex): Verdict {
    var c := rule.Trimmed();
    if c.name == ANY then ByAction(c.action)
    else if c.name != cmd then Undecided
    else if c.matches == [] then ByAction(c.action)
    else if i: nat :| FirstHit(c.matches, text, regex, i) then
      if regex(c.matches[i], text) == BadRegex then Denied else ByAction(c.action)
    else Undecided
  }

  /** The verdicts of a list of rules, in order. */
  ghost function Verdicts(rules: seq<Command>, cmd: Text, text: Text, regex: Regex): (r: seq<Verdict>)
    ensures |r| == |rules|
  {
    seq(|rules|, i requires 0 <= i < |rules| => RuleVerdict(rules[i], cmd, text, regex))
  }

  /** i is the first verdict that decides. */
  ghost predicate Decides(verdicts: seq<Verdict>, i: nat) {
    i < |verdicts| && verdicts[i] != Undecided && forall j :: 0 <= j < i ==> verdicts[j] == Undecided
  }

  /** Evaluation gets as far as rule i. */
  ghost predicate Reached(verdicts: seq<Verdict>, i: nat) {
    i < |verdicts| && forall j :: 0 <= j < i ==> verdicts[j] == Undecided
  }

  /** The first deciding rule permits. */
  ghost predicate Permits(rules: seq<Command>, cmd: Text, text: Text, regex: Regex) {
    var verdicts := Verdicts(rules, cmd, text, regex);
    exists i: nat :: Decides(verdicts, i) && verdicts[i] == Permitted
  }

  lemma PermitsIff(rules: seq<Command>, cmd: Text, text: Text, regex: Regex, i: nat)
    requires Decides(Verdicts(rules, cmd, text, regex), i)
    ensures Permits(rules, cmd, text, regex) <==> RuleVerdict(rules[i], cmd, text, regex) == Permitted
  {
    var verdicts := Verdicts(rules, cmd, text, regex);
    assert verdicts[i] == RuleVerdict(rules[i], cmd, text, regex);
    if k: nat :| Decides(verdicts, k) && verdicts[k] == Permitted {
      assert k == i;
    }
  }

  /** Whatever rules follow the deciding one, the outcome is the same. */
  lemma LaterRulesIgnored(rules: seq<Command>, more: seq<Command>, cmd: Text, text: Text, regex: Regex, i: nat)
    requires Decides(Verdicts(rules, cmd, text, regex), i)
    ensures Permits(rules[..i + 1] + more, cmd, text, regex) <==> Permits(rules, cmd, text, regex)
  {
    var v, w := Verdicts(rules, cmd, text, regex), Verdicts(rules[..i + 1] + more, cmd, text, regex);
    assert forall j :: 0 <= j <= i ==> w[j] == v[j];
    assert Decides(w, i);
    PermitsIff(rules, cmd, text, regex, i);
    PermitsIff(rules[..i + 1] + more, cmd, text, regex, i);
  }

  /** Trimming a rule's patterns for good, as evaluation does, changes no later verdict. */
  function WithTrimmedPatterns(rule: Command): Command { rule.(matches := MapTrim(rule.matches)) }

  lemma TrimmedPatternsVerdict(rule: Command, cmd: Text, text: Text, regex: Regex)
    ensures RuleVerdict(WithTrimmedPatterns(rule), cmd, text, regex) == RuleVerdict(rule, cmd, text, regex)
  {
    forall i | 0 <= i < |rule.matches|
      ensures MapTrim(MapTrim(rule.matches))[i] == MapTrim(rule.matches)[i]
    {
      TrimIdempotent(rule.matches[i]);
    }
    assert WithTrimmedPatterns(rule).Trimmed().matches == rule.Trimmed().matches;
  }

  lemma PermitsSame(rules: seq<Command>, rules': seq<Command>, cmd: Text, text: Text, regex: Regex)
    requires |rules| == |rules'|
    requires forall i :: 0 <= i < |rules| ==> rules'[i] == rules[i] || rules'[i] == WithTrimmedPatterns(rules[i])
    ensures Permits(rules', cmd, text, regex) == Permits(rules, cmd, text, regex)
  {
    forall i | 0 <= i < |rules|
      ensures RuleVerdict(rules'[i], cmd, text, regex) == RuleVerdict(rules[i], cmd, text, regex)
    {
      TrimmedPatternsVerdict(rules[i], cmd, text, regex);
    }
    assert Verdicts(rules', cmd, text, regex) == Verdicts(rules, cmd, text, regex);
  }

  // ---- the loops ----

  /** The user's rules. Evaluation trims the patterns of each rule it reaches where they are stored. */
  class Rules {
    var commands: seq<Command>

    constructor (commands: seq<Command>)
      ensures this.commands == commands
    {
      this.commands := commands;
    }

    /** evaluate: permits exactly when the first deciding rule does, now and for every later request. */
    method Evaluate(args: seq<Text>, regex: Regex) returns (permitted: bool)
      modifies this
      ensures permitted == Permits(old(commands), CommandName(args), JoinedCommandArgs(args), regex)
      ensures |commands| == |old(commands)|
      ensures var verdicts := Verdicts(old(commands), CommandName(args), JoinedCommandArgs(args), regex);
              forall i :: 0 <= i < |commands| ==>
                commands[i] == if Reached(verdicts, i) then WithTrimmedPatterns(old(commands)[i]) else old(commands)[i]
    {
      var cmd := CommandName(args);
      var values := CollectValues(args, CMD_ARG);
      var text := Join(values);
      ghost var rules, verdicts := commands, Verdicts(commands, cmd, text, regex);
      for i := 0 to |commands|
        invariant |commands| == |rules|
        invariant forall j :: 0 <= j < i ==> verdicts[j] == Undecided
        invariant forall j :: 0 <= j < |rules| ==>
            commands[j] == if j < i then WithTrimmedPatterns(rules[j]) else rules[j]
      {
        var c := commands[i].Trimmed();
        commands := commands[i := WithTrimmedPatterns(commands[i])];
        var verdict := EvaluateRule(c, rules[i], cmd, text, regex);
        assert verdict == verdicts[i];
        if verdict != Undecided {
          PermitsIff(rules, cmd, text, regex, i);
          assert forall j :: 0 <= j < |rules| ==> (Reached(verdicts, j) <==> j <= i);
          return verdict == Permitted;
        }
      }
      return false;
    }
  }

  /** One turn of the loop: the special name, the name test, and the scan of the patterns. */
  method EvaluateRule(c: Command, ghost rule: Command, cmd: Text, text: Text, regex: Regex) returns (verdict: Verdict)
    requires c == rule.Trimmed()
    ensures verdict == RuleVerdict(rule, cmd, text, regex)
  {
    if c.name == ANY {
      return ByAction(c.action);
    }
    if c.name != cmd {
      return Undecided;
    }
    if |c.matches| == 0 {
      return ByAction(c.action);
    }
    for i := 0 to |c.matches|
      invariant forall j :: 0 <= j < i ==> regex(c.matches[j], text) == NoMatch
    {
      var r := regex(c.matches[i], text);
      if r != NoMatch {
        assert FirstHit(c.matches, text, regex, i);
        assert forall k: nat :: FirstHit(c.matches, text, regex, k) ==> k == i;
        return if r == BadRegex then Denied else ByAction(c.action);
      }
    }
    return Undecided;
  }
}
