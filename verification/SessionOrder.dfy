/** When the order of the client's arguments matters to session authorization: exactly when the value of some
    attribute is ambiguous. */
module SessionOrder {
  import opened ArgLists
  import opened Bytes
  import opened Config
  import opened SessionAuthorizer

  const SCOPE: Text := Ascii("scope")

  /** Some attribute has two different values among the client's arguments. The injected scope argument stands
      last and settles the attribute `scope`, unless the client sent that very argument itself. */
  ghost predicate Ambiguous(u: User, args: seq<Text>) {
    exists i, j :: 0 <= i < |args| && 0 <= j < |args| && Split(args[i]).attr == Split(args[j]).attr &&
      Split(args[i]).value != Split(args[j]).value && !ScopeSettles(u, args, Split(args[i]).attr)
  }

  ghost predicate ScopeSettles(u: User, args: seq<Text>, attr: Text) {
    attr == SCOPE && Trim(u.LocalizedScope()) !in MapTrim(args)
  }

  function WithServices(u: User, services: seq<Service>): User { u.(services := services) }

  /** For every service configuration, every order of the arguments gets the same reply. */
  ghost predicate OrderFree(u: User, args: seq<Text>) {
    forall services: seq<Service>, args': seq<Text> :: multiset(args') == multiset(args) ==>
      ReplyArgs(WithServices(u, services), args') == ReplyArgs(WithServices(u, services), args) &&
      ReplyStatus(WithServices(u, services), args') == ReplyStatus(WithServices(u, services), args)
  }

  // ---- the injected scope ----

  lemma {:induction false} TrimRightKeeps(p: Text, s: Text)
    requires |p| > 0 && p[|p| - 1] == EQUALS && p <= s
    ensures p <= TrimRight(s)
    decreases |s|
  {
    var n := SpaceTail(s);
    if n > 0 {
      assert s[|p| - 1] == EQUALS;
      TrimRightKeeps(p, s[..|s| - n]);
    }
  }

  lemma {:induction false} ScopeAttribute(u: User)
    ensures Split(u.LocalizedScope()).attr == SCOPE
  {
    var p, s := Ascii("scope="), u.LocalizedScope();
    assert p <= s;
    assert s[0] == 115 && TrimLeft(s) == s;
    TrimRightKeeps(p, s);
    ScopeSplit(Trim(s));
  }

  lemma ScopeSplit(s: Text)
    requires Ascii("scope=") <= s
    ensures SepIndex(s) == 5 && s[..5] == SCOPE
  {
    var p := Ascii("scope=");
    assert s[0] == p[0] && s[1] == p[1] && s[2] == p[2] && s[3] == p[3] && s[4] == p[4] && s[5] == p[5] == EQUALS;
    assert s[..5] == p[..5] == SCOPE;
    assert !(SepIndex(s) > 5);
  }

  lemma {:induction false} SplitTrim(arg: Text)
    ensures Split(Trim(arg)) == Split(arg)
  {
    TrimIdempotent(arg);
  }

  /** The arguments seen: the client's, deduplicated, with the scope behind them if it is new. */
  lemma {:induction false} SeenIs(u: User, args: seq<Text>)
    ensures var d, t := Dedup(MapTrim(args)), Trim(u.LocalizedScope());
            Seen(u, args) == if t in MapTrim(args) then d else d + [t]
  {
    MapTrimAppend(args, [u.LocalizedScope()]);
    assert MapTrim([u.LocalizedScope()]) == [Trim(u.LocalizedScope())];
    DedupSnoc(MapTrim(args), Trim(u.LocalizedScope()));
  }

  lemma {:induction false} LastValueSnoc(s: seq<Text>, x: Text, attr: Text)
    ensures LastValue(s + [x], attr) == if Split(x).attr == attr then Some(Split(x).value) else LastValue(s, attr)
  {
    assert (s + [x])[..|s|] == s;
  }

  lemma {:induction false} LookupSeen(u: User, args: seq<Text>, attr: Text)
    ensures LastValue(Seen(u, args), attr) ==
            if ScopeSettles(u, args, attr) then Some(Split(u.LocalizedScope()).value)
            else LastValue(Dedup(MapTrim(args)), attr)
  {
    SeenIs(u, args);
    ScopeAttribute(u);
    SplitTrim(u.LocalizedScope());
    LastValueSnoc(Dedup(MapTrim(args)), Trim(u.LocalizedScope()), attr);
  }

  // ---- unambiguous arguments in any order ----

  ghost predicate SameElements(a: seq<Text>, b: seq<Text>) { forall x :: x in a <==> x in b }

  ghost predicate SameLookup(a: seq<Text>, b: seq<Text>) { forall attr :: LastValue(a, attr) == LastValue(b, attr) }

  ghost predicate OneValue(s: seq<Text>, attr: Text) {
    forall x, y :: x in s && y in s && Split(x).attr == attr && Split(y).attr == attr ==>
      Split(x).value == Split(y).value
  }

  lemma {:induction false} LastValueFound(args: seq<Text>, attr: Text)
    ensures LastValue(args, attr).Some? <==> exists x :: x in args && Split(x).attr == attr
    ensures LastValue(args, attr).Some? ==>
            exists x :: x in args && Split(x).attr == attr && Split(x).value == LastValue(args, attr).value
  {
    if args == [] {
    } else {
      var init, last := args[..|args| - 1], args[|args| - 1];
      LastValueFound(init, attr);
      assert args == init + [last];
      assert last in args;
    }
  }

  lemma {:induction false} LastValueOrderFree(a: seq<Text>, b: seq<Text>, attr: Text)
    requires SameElements(a, b) && OneValue(a, attr)
    ensures LastValue(a, attr) == LastValue(b, attr)
  {
    LastValueFound(a, attr);
    LastValueFound(b, attr);
  }

  lemma {:induction false} AppliesOrderFree(c: Service, a: seq<Text>, b: seq<Text>)
    requires SameElements(a, b) && SameLookup(a, b)
    ensures Applies(c, a) == Applies(c, b) && MakesOptional(c, a) == MakesOptional(c, b)
  {
    var name := Trim(c.name);
    ExistsOrderFree(a, b, x => Names(x, name));
    ExistsOrderFree(a, b, x => AsksOptional(x, name));
  }

  lemma {:induction false} ExistsOrderFree(a: seq<Text>, b: seq<Text>, p: Text -> bool)
    requires SameElements(a, b)
    ensures (exists i :: 0 <= i < |a| && p(a[i])) <==> (exists i :: 0 <= i < |b| && p(b[i]))
  {
    if i :| 0 <= i < |a| && p(a[i]) {
      assert a[i] in b;
    }
    if i :| 0 <= i < |b| && p(b[i]) {
      assert b[i] in a;
    }
  }

  lemma {:induction false} GrantedOrderFree(services: seq<Service>, a: seq<Text>, b: seq<Text>)
    requires SameElements(a, b) && SameLookup(a, b)
    ensures Granted(services, a) == Granted(services, b) &&
            SomeMakesOptional(services, a) == SomeMakesOptional(services, b)
  {
    forall i | 0 <= i < |services|
      ensures MakesOptional(services[i], a) == MakesOptional(services[i], b)
    {
      AppliesOrderFree(services[i], a, b);
    }
    if services == [] {
    } else {
      GrantedOrderFree(services[..|services| - 1], a, b);
      AppliesOrderFree(services[|services| - 1], a, b);
    }
  }

  lemma {:induction false} PermutedTrims(args: seq<Text>, args': seq<Text>)
    requires multiset(args) == multiset(args')
    ensures SameElements(MapTrim(args), MapTrim(args'))
  {
    forall x
      ensures x in args <==> x in args'
    {
      assert x in args <==> x in multiset(args);
      assert x in args' <==> x in multiset(args');
    }
    MapTrimSubset(args, args');
    MapTrimSubset(args', args);
  }

  lemma {:induction false} TrimmedFrom(args: seq<Text>, x: Text) returns (k: nat)
    requires x in MapTrim(args)
    ensures k < |args| && Trim(args[k]) == x && Split(args[k]) == Split(x)
  {
    k :| 0 <= k < |args| && MapTrim(args)[k] == x;
    SplitTrim(args[k]);
  }

  lemma {:induction false} UnambiguousValues(u: User, args: seq<Text>, attr: Text)
    requires !Ambiguous(u, args) && !ScopeSettles(u, args, attr)
    ensures OneValue(Dedup(MapTrim(args)), attr)
  {
    var d := Dedup(MapTrim(args));
    DedupMeans(MapTrim(args));
    forall x, y | x in d && y in d && Split(x).attr == attr && Split(y).attr == attr
      ensures Split(x).value == Split(y).value
    {
      var i := TrimmedFrom(args, x);
      var j := TrimmedFrom(args, y);
    }
  }

  lemma {:induction false} LookupOrderFree(u: User, args: seq<Text>, args': seq<Text>, attr: Text)
    requires multiset(args) == multiset(args') && !Ambiguous(u, args)
    ensures LastValue(Seen(u, args), attr) == LastValue(Seen(u, args'), attr)
  {
    PermutedTrims(args, args');
    LookupSeen(u, args, attr);
    LookupSeen(u, args', attr);
    if !ScopeSettles(u, args, attr) {
      UnambiguousValues(u, args, attr);
      DedupMeans(MapTrim(args));
      DedupMeans(MapTrim(args'));
      LastValueOrderFree(Dedup(MapTrim(args)), Dedup(MapTrim(args')), attr);
    }
  }

  lemma {:induction false} SeenSameElements(u: User, args: seq<Text>, args': seq<Text>)
    requires multiset(args) == multiset(args')
    ensures SameElements(Seen(u, args), Seen(u, args'))
  {
    PermutedTrims(args, args');
    SeenIs(u, args);
    SeenIs(u, args');
    DedupMeans(MapTrim(args));
    DedupMeans(MapTrim(args'));
  }

  /** Permuting unambiguous arguments changes neither the reply arguments, nor their order, nor the status. */
  lemma {:induction false} PermutationFree(u: User, args: seq<Text>, args': seq<Text>)
    requires multiset(args) == multiset(args') && !Ambiguous(u, args)
    ensures ReplyArgs(u, args) == ReplyArgs(u, args') && ReplyStatus(u, args) == ReplyStatus(u, args')
  {
    forall attr
      ensures LastValue(Seen(u, args), attr) == LastValue(Seen(u, args'), attr)
    {
      LookupOrderFree(u, args, args', attr);
    }
    SeenSameElements(u, args, args');
    GrantedOrderFree(u.services, Seen(u, args), Seen(u, args'));
  }

  // ---- ambiguous arguments ----

  /** The first argument of every trimmed string, and the repetitions. */
  ghost function Firsts(args: seq<Text>): seq<Text> {
    if args == [] then [] else
    var init, last := args[..|args| - 1], args[|args| - 1];
    if Trim(last) in MapTrim(init) then Firsts(init) else Firsts(init) + [last]
  }

  ghost function Copies(args: seq<Text>): seq<Text> {
    if args == [] then [] else
    var init, last := args[..|args| - 1], args[|args| - 1];
    if Trim(last) in MapTrim(init) then Copies(init) + [last] else Copies(init)
  }

  lemma {:induction false} FirstsAndCopies(args: seq<Text>)
    ensures multiset(Firsts(args)) + multiset(Copies(args)) == multiset(args)
    ensures MapTrim(Firsts(args)) == Dedup(MapTrim(args))
  {
    if args == [] {
    } else {
      var init, last := args[..|args| - 1], args[|args| - 1];
      FirstsAndCopies(init);
      assert args == init + [last];
      MapTrimAppend(init, [last]);
      MapTrimAppend(Firsts(init), [last]);
      assert MapTrim([last]) == [Trim(last)];
      DedupSnoc(MapTrim(init), Trim(last));
    }
  }

  lemma {:induction false} DedupDistinct(s: seq<Text>)
    ensures forall i, j :: 0 <= i < j < |Dedup(s)| ==> Dedup(s)[i] != Dedup(s)[j]
  {
    DedupMeans(s);
  }

  function Without(s: seq<Text>, k: nat): seq<Text>
    requires k < |s|
  {
    s[..k] + s[k + 1..]
  }

  lemma WithoutDistinct(s: seq<Text>, k: nat)
    requires k < |s| && forall i, j :: 0 <= i < j < |s| ==> Trim(s[i]) != Trim(s[j])
    ensures Trim(s[k]) !in MapTrim(Without(s, k))
    ensures multiset(Without(s, k)) + multiset([s[k]]) == multiset(s)
    ensures forall x :: x in s ==> x in Without(s, k) + [s[k]]
  {
    var others := Without(s, k);
    assert s == s[..k] + [s[k]] + s[k + 1..];
    forall i | 0 <= i < |others|
      ensures MapTrim(others)[i] != Trim(s[k])
    {
      assert others[i] == s[if i < k then i else i + 1];
    }
  }

  lemma {:induction false} FirstsDistinct(args: seq<Text>)
    ensures var s := Firsts(args); forall i, j :: 0 <= i < j < |s| ==> Trim(s[i]) != Trim(s[j])
  {
    FirstsAndCopies(args);
    DedupDistinct(MapTrim(args));
    var s := Firsts(args);
    assert forall i :: 0 <= i < |s| ==> MapTrim(s)[i] == Trim(s[i]);
  }

  lemma {:induction false} FirstOf(args: seq<Text>, x: Text) returns (k: nat)
    requires x in MapTrim(args)
    ensures k < |Firsts(args)| && Trim(Firsts(args)[k]) == x
  {
    FirstsAndCopies(args);
    DedupMeans(MapTrim(args));
    k :| 0 <= k < |Firsts(args)| && MapTrim(Firsts(args))[k] == x;
  }

  /** Any argument can be made the last one seen. */
  lemma {:induction false} CanBeLast(args: seq<Text>, x: Text) returns (args': seq<Text>)
    requires x in MapTrim(args)
    ensures multiset(args') == multiset(args)
    ensures LastValue(Dedup(MapTrim(args')), Split(x).attr) == Some(Split(x).value)
  {
    var k := FirstOf(args, x);
    var firsts := Firsts(args);
    var last := firsts[k];
    FirstsAndCopies(args);
    FirstsDistinct(args);
    WithoutDistinct(firsts, k);
    DedupMeans(MapTrim(args));
    MapTrimSubset(firsts, Without(firsts, k) + [last]);
    SplitTrim(last);
    LastSeen(Without(firsts, k), last, Copies(args), args);
    return Without(firsts, k) + [last] + Copies(args);
  }

  lemma {:induction false} LastSeen(others: seq<Text>, last: Text, copies: seq<Text>, args: seq<Text>)
    requires multiset(others) + multiset([last]) + multiset(copies) == multiset(args)
    requires forall x :: x in MapTrim(args) ==> x in MapTrim(others + [last])
    requires Trim(last) !in MapTrim(others)
    ensures LastValue(Dedup(MapTrim(others + [last] + copies)), Split(last).attr) == Some(Split(last).value)
  {
    MapTrimAppend(others + [last], copies);
    assert forall x :: x in copies ==> x in multiset(args);
    MapTrimSubset(copies, args);
    DedupAbsorbs(MapTrim(others + [last]), MapTrim(copies));
    MapTrimAppend(others, [last]);
    assert MapTrim([last]) == [Trim(last)];
    DedupSnoc(MapTrim(others), Trim(last));
    LastValueSnoc(Dedup(MapTrim(others)), Trim(last), Split(last).attr);
    SplitTrim(last);
  }

  /** A service named by the injected scope, for one value of one attribute. */
  function Probe(attr: Text, value: Text): Service {
    Service(SCOPE, [Value(attr, [value], false)], [Value(attr, [value], false)])
  }

  lemma {:induction false} ProbeShows(u: User, args: seq<Text>, attr: Text, value: Text)
    ensures ReplyArgs(WithServices(u, [Probe(attr, value)]), args) != [] <==>
            LastValue(Seen(u, args), attr) == Some(value)
  {
    ScopeIsNamed(u, args);
    ProbeApplies(Seen(u, args), attr, value);
    ProbeGrants(Probe(attr, value), Seen(u, args));
    assert Seen(WithServices(u, [Probe(attr, value)]), args) == Seen(u, args);
  }

  lemma {:induction false} ProbeApplies(seen: seq<Text>, attr: Text, value: Text)
    requires SomeNames(seen, Trim(SCOPE))
    ensures Applies(Probe(attr, value), seen) <==> LastValue(seen, attr) == Some(value)
  {
    var m := Probe(attr, value).matches[0];
    assert m.values[0] == value;
    assert Satisfied(m, seen) <==> LastValue(seen, attr) == Some(value);
  }

  lemma {:induction false} ProbeGrants(c: Service, seen: seq<Text>)
    requires c.setValues != []
    ensures Dedup(MapTrim(Granted([c], seen))) != [] <==> Applies(c, seen)
  {
    var granted := Granted([c], seen);
    assert Granted([c][..0], seen) == [];
    assert [c][0] == c && granted == [] + GrantedBy(c, seen);
    DedupMeans(MapTrim(granted));
    if Applies(c, seen) {
      assert MapTrim(granted)[0] in MapTrim(granted);
    }
  }

  lemma ScopeTrims()
    ensures Trim(SCOPE) == SCOPE
  {
    assert SCOPE[0] == 115 && SCOPE[4] == 101;
  }

  lemma {:induction false} ScopeSeen(u: User, args: seq<Text>)
    ensures Trim(u.LocalizedScope()) in Seen(u, args)
  {
    SeenIs(u, args);
    DedupMeans(MapTrim(args));
  }

  lemma {:induction false} ScopeIsNamed(u: User, args: seq<Text>)
    ensures SomeNames(Seen(u, args), Trim(SCOPE))
  {
    ScopeTrims();
    ScopeAttribute(u);
    SplitTrim(u.LocalizedScope());
    ScopeSeen(u, args);
    var i :| 0 <= i < |Seen(u, args)| && Seen(u, args)[i] == Trim(u.LocalizedScope());
    assert Names(Seen(u, args)[i], SCOPE);
  }

  /** Ambiguous arguments can be ordered so that some service configuration tells the orders apart. */
  lemma {:induction false} AmbiguityShows(u: User, args: seq<Text>)
    requires Ambiguous(u, args)
    ensures !OrderFree(u, args)
  {
    var i, j :| 0 <= i < |args| && 0 <= j < |args| && Split(args[i]).attr == Split(args[j]).attr &&
      Split(args[i]).value != Split(args[j]).value && !ScopeSettles(u, args, Split(args[i]).attr);
    var attr, value := Split(args[i]).attr, Split(args[i]).value;
    SplitTrim(args[i]);
    SplitTrim(args[j]);
    assert MapTrim(args)[i] in MapTrim(args) && MapTrim(args)[j] in MapTrim(args);
    var p := CanBeLast(args, Trim(args[i]));
    var q := CanBeLast(args, Trim(args[j]));
    PermutedTrims(p, args);
    PermutedTrims(q, args);
    LookupSeen(u, p, attr);
    LookupSeen(u, q, attr);
    ProbeShows(u, p, attr, value);
    ProbeShows(u, q, attr, value);
  }

  /** Every order of the arguments gets the same reply, whatever the services, exactly when they are unambiguous. */
  lemma {:induction false} OrderFreeIff(u: User, args: seq<Text>)
    ensures OrderFree(u, args) <==> !Ambiguous(u, args)
  {
    if Ambiguous(u, args) {
      AmbiguityShows(u, args);
    } else {
      forall services: seq<Service>, args': seq<Text> | multiset(args') == multiset(args)
        ensures ReplyArgs(WithServices(u, services), args') == ReplyArgs(WithServices(u, services), args)
        ensures ReplyStatus(WithServices(u, services), args') == ReplyStatus(WithServices(u, services), args)
      {
        assert WithServices(u, services).LocalizedScope() == u.LocalizedScope();
        PermutationFree(WithServices(u, services), args, args');
      }
    }
  }
}
