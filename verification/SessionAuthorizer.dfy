/** stringy/session.go: session-based authorization. */
module SessionAuthorizer {
  import opened ArgLists
  import opened Bytes
  import opened Config
  import opened Fields

  // ---- the declarative reading ----

  /** The argument names the service by its attribute or by its value. */
  predicate Names(arg: Text, service: Text) { Split(arg).attr == service || Split(arg).value == service }

  predicate SomeNames(args: seq<Text>, service: Text) { exists i :: 0 <= i < |args| && Names(args[i], service) }

  /** A `*` on an argument that names the service, `cmd*` excepted. */
  predicate AsksOptional(arg: Text, service: Text) {
    Names(arg, service) && Split(arg).attr != CMD && Split(arg).sep == [STAR]
  }

  predicate SomeAsksOptional(args: seq<Text>, service: Text) {
    exists i :: 0 <= i < |args| && AsksOptional(args[i], service)
  }

  /** The value of the last argument with this attribute. */
  function LastValue(args: seq<Text>, attr: Text): Option<Text> {
    if args == [] then None else
    var last := Split(args[|args| - 1]);
    if last.attr == attr then Some(last.value) else LastValue(args[..|args| - 1], attr)
  }

  /** A match condition holds when its attribute is present and equals every listed value. */
  predicate Satisfied(m: Value, args: seq<Text>) {
    LastValue(args, m.name).Some? && forall k :: 0 <= k < |m.values| ==> LastValue(args, m.name).value == m.values[k]
  }

  predicate AllSatisfied(matches: seq<Value>, args: seq<Text>) {
    forall i :: 0 <= i < |matches| ==> Satisfied(matches[i], args)
  }

  predicate Applies(c: Service, args: seq<Text>) {
    SomeNames(args, Trim(c.name)) && AllSatisfied(c.matches, args)
  }

  function Rendered(values: seq<Value>): (r: seq<Text>)
    ensures |r| == |values|
  {
    seq(|values|, i requires 0 <= i < |values| => values[i].Render())
  }

  predicate AnyOptional(values: seq<Value>) { exists i :: 0 <= i < |values| && values[i].optional }

  /** The rendered set-values of the applying services, in configuration order. */
  function Granted(services: seq<Service>, args: seq<Text>): seq<Text> {
    if services == [] then [] else
    var init, last := services[..|services| - 1], services[|services| - 1];
    Granted(init, args) + GrantedBy(last, args)
  }

  function GrantedBy(c: Service, args: seq<Text>): seq<Text> { if Applies(c, args) then Rendered(c.setValues) else [] }

  predicate MakesOptional(c: Service, args: seq<Text>) {
    SomeAsksOptional(args, Trim(c.name)) || (Applies(c, args) && AnyOptional(c.setValues))
  }

  predicate SomeMakesOptional(services: seq<Service>, args: seq<Text>) {
    exists i :: 0 <= i < |services| && MakesOptional(services[i], args)
  }

  /** The client's arguments with the injected scope, trimmed and deduplicated. */
  function Seen(u: User, args: seq<Text>): seq<Text> { Dedup(MapTrim(args + [u.LocalizedScope()])) }

  /** The arguments of the reply. */
  function ReplyArgs(u: User, args: seq<Text>): seq<Text> { Dedup(MapTrim(Granted(u.services, Seen(u, args)))) }

  /** The status of the reply, should there be arguments to send. */
  function ReplyStatus(u: User, args: seq<Text>): byte {
    if SomeMakesOptional(u.services, Seen(u, args)) then AUTHOR_PASS_REPL else AUTHOR_PASS_ADD
  }

  // ---- the loops ----

  /** serviceMatcher: a map from attribute to value, then the conditions one by one. */
  method ServiceMatcher(args: seq<Text>, matches: seq<Value>) returns (ok: bool)
    ensures ok == AllSatisfied(matches, args)
  {
    var kvs: map<Text, Text> := map[];
    for i := 0 to |args|
      invariant forall a :: Lookup(kvs, a) == LastValue(args[..i], a)
    {
      var asv := Split(args[i]);
      var kvs' := kvs[asv.attr := asv.value];
      forall a
        ensures Lookup(kvs', a) == LastValue(args[..i + 1], a)
      {
        LastValueNext(args, i, a);
        assert Lookup(kvs, a) == LastValue(args[..i], a);
      }
      kvs := kvs';
    }
    assert args[..|args|] == args;
    var matchers := matches;
    ghost var done := 0;
    while |matchers| > 0
      invariant done <= |matches| && matchers == matches[done..]
      invariant forall i :: 0 <= i < done ==> Satisfied(matches[i], args)
    {
      var m := matchers[0];
      assert m == matches[done] && Lookup(kvs, m.name) == LastValue(args, m.name);
      matchers := matchers[1..];
      if m.name !in kvs {
        return false;
      }
      for j := 0 to |m.values|
        invariant forall k :: 0 <= k < j ==> kvs[m.name] == m.values[k]
      {
        if kvs[m.name] != m.values[j] {
          return false;
        }
      }
      done := done + 1;
    }
    return true;
  }

  function Lookup(kvs: map<Text, Text>, a: Text): Option<Text> { if a in kvs then Some(kvs[a]) else None }

  lemma {:induction false} LastValueNext(args: seq<Text>, i: nat, attr: Text)
    requires i < |args|
    ensures LastValue(args[..i + 1], attr) ==
            if Split(args[i]).attr == attr then Some(Split(args[i]).value) else LastValue(args[..i], attr)
  {
    assert args[..i + 1][..i] == args[..i];
  }

  /** collateAVPs */
  method CollateAVPs(values: seq<Value>) returns (unfiltered: seq<Text>, optional: bool)
    ensures unfiltered == Rendered(values) && optional == AnyOptional(values)
  {
    unfiltered, optional := [], false;
    for i := 0 to |values|
      invariant unfiltered == Rendered(values[..i])
      invariant optional <==> exists k :: 0 <= k < i && values[k].optional
    {
      if values[i].optional {
        optional := true;
      }
      unfiltered := unfiltered + [values[i].Render()];
    }
    assert values[..|values|] == values;
  }

  lemma {:induction false} NamesNext(args: seq<Text>, service: Text, i: nat)
    requires i < |args|
    ensures SomeNames(args[..i + 1], service) <==> SomeNames(args[..i], service) || Names(args[i], service)
    ensures SomeAsksOptional(args[..i + 1], service) <==>
            SomeAsksOptional(args[..i], service) || AsksOptional(args[i], service)
  {
    assert args[..i + 1] == args[..i] + [args[i]];
    SomeSnoc(args[..i], args[i], x => Names(x, service));
    SomeSnoc(args[..i], args[i], x => AsksOptional(x, service));
  }

  lemma {:induction false} SomeSnoc<T>(s: seq<T>, last: T, p: T -> bool)
    ensures (exists i :: 0 <= i < |s + [last]| && p((s + [last])[i])) <==>
            ((exists i :: 0 <= i < |s| && p(s[i])) || p(last))
  {
    var t := s + [last];
    assert t[|s|] == last;
    if i :| 0 <= i < |s| && p(s[i]) {
      assert t[i] == s[i];
    }
  }

  /** What the matcher has collected for one service: nothing, or its set-values first and only. */
  ghost predicate Collected(avps: seq<Text>, c: Service, applies: bool) {
    if applies then Rendered(c.setValues) <= avps && (forall x :: x in avps ==> x in Rendered(c.setValues))
    else avps == []
  }

  lemma CollectedAgain(avps: seq<Text>, c: Service, before: bool)
    requires Collected(avps, c, before)
    ensures Collected(avps + Rendered(c.setValues), c, true)
  {
    var added := Rendered(c.setValues);
    assert avps == [] ==> avps + added == added;
    assert forall x :: x in avps + added ==> x in avps || x in added;
  }

  lemma CollectedNext(avps: seq<Text>, c: Service, before: bool, sat: bool)
    requires Collected(avps, c, before) && (before ==> sat)
    ensures Collected(avps + if sat then Rendered(c.setValues) else [], c, sat)
  {
    if sat {
      CollectedAgain(avps, c, before);
    } else {
      assert avps + [] == avps;
    }
  }

  /** The set-values of a service, if it has no match conditions or they hold. */
  method MatchAndCollate(args: seq<Text>, c: Service) returns (unfiltered: seq<Text>, isOptional: bool)
    ensures var sat := AllSatisfied(c.matches, args);
            && unfiltered == (if sat then Rendered(c.setValues) else [])
            && isOptional == (sat && AnyOptional(c.setValues))
  {
    var ok := true;
    if |c.matches| != 0 {
      ok := ServiceMatcher(args, c.matches);
    }
    if !ok {
      return [], false;
    }
    unfiltered, isOptional := CollateAVPs(c.setValues);
  }

  /** serviceMatcherModifier: the set-values are appended once for every argument that names the service. */
  method ServiceMatcherModifier(args: seq<Text>, c: Service, name: Text) returns (avps: seq<Text>, optional: bool)
    requires name == Trim(c.name)
    ensures optional == MakesOptional(c, args) && Collected(avps, c, Applies(c, args))
  {
    avps, optional := [], false;
    ghost var sat, any := AllSatisfied(c.matches, args), AnyOptional(c.setValues);
    ghost var named, asked := false, false;
    for i := 0 to |args|
      invariant named == SomeNames(args[..i], name) && asked == SomeAsksOptional(args[..i], name)
      invariant optional <==> asked || (named && sat && any)
      invariant Collected(avps, c, named && sat)
    {
      NamesNext(args, name, i);
      ghost var before := named && sat;
      named, asked := named || Names(args[i], name), asked || AsksOptional(args[i], name);
      var asv := Split(args[i]);
      if asv.attr != name && asv.value != name {
        continue;
      }
      if asv.attr != CMD && asv.sep == [STAR] {
        optional := true;
      }
      var unfiltered, isOptional := MatchAndCollate(args, c);
      if isOptional {
        optional := true;
      }
      CollectedNext(avps, c, before, sat);
      avps := avps + unfiltered;
    }
    assert args[..|args|] == args;
  }

  /** evaluate computes the closed form. */
  method Evaluate(u: User, args: seq<Text>) returns (replyArgs: seq<Text>, status: byte)
    ensures replyArgs == ReplyArgs(u, args) && status == ReplyStatus(u, args)
  {
    var seen := TrimmedUnique(args + [u.LocalizedScope()]);
    var responseArgs: seq<Text> := [];
    status := AUTHOR_PASS_ADD;
    for i := 0 to |u.services|
      invariant Dedup(MapTrim(responseArgs)) == Dedup(MapTrim(Granted(u.services[..i], seen)))
      invariant status == if SomeMakesOptional(u.services[..i], seen) then AUTHOR_PASS_REPL else AUTHOR_PASS_ADD
    {
      var c := u.services[i];
      var matched, optional := ServiceMatcherModifier(seen, c, Trim(c.name));
      if optional {
        status := AUTHOR_PASS_REPL;
      }
      MakesOptionalNext(u.services, i, seen);
      GrantedNext(u.services, i, seen, responseArgs, matched);
      responseArgs := responseArgs + matched;
    }
    assert u.services[..|u.services|] == u.services;
    replyArgs := TrimmedUnique(responseArgs);
  }

  /** Repeated set-values leave the deduplicated reply as if each applying service spoke once. */
  lemma {:induction false} GrantedNext(services: seq<Service>, i: nat, args: seq<Text>, sofar: seq<Text>,
                                       matched: seq<Text>)
    requires i < |services|
    requires Dedup(MapTrim(sofar)) == Dedup(MapTrim(Granted(services[..i], args)))
    requires Collected(matched, services[i], Applies(services[i], args))
    ensures Dedup(MapTrim(sofar + matched)) == Dedup(MapTrim(Granted(services[..i + 1], args)))
  {
    GrantedPrefix(services, i, args);
    TrimmedReplaces(sofar, Granted(services[..i], args), GrantedBy(services[i], args), matched);
  }

  lemma {:induction false} GrantedPrefix(services: seq<Service>, i: nat, args: seq<Text>)
    requires i < |services|
    ensures Granted(services[..i + 1], args) == Granted(services[..i], args) + GrantedBy(services[i], args)
  {
    assert services[..i + 1][..i] == services[..i];
  }

  lemma {:induction false} MakesOptionalNext(services: seq<Service>, i: nat, args: seq<Text>)
    requires i < |services|
    ensures SomeMakesOptional(services[..i + 1], args) <==>
            SomeMakesOptional(services[..i], args) || MakesOptional(services[i], args)
  {
    assert services[..i + 1] == services[..i] + [services[i]];
    SomeSnoc(services[..i], services[i], s => MakesOptional(s, args));
  }

  // ---- the size of a reply ----

  function SetValueCount(services: seq<Service>): nat {
    if services == [] then 0 else SetValueCount(services[..|services| - 1]) + |services[|services| - 1].setValues|
  }

  lemma {:induction false} GrantedCount(services: seq<Service>, args: seq<Text>)
    ensures |Granted(services, args)| <= SetValueCount(services)
  {
    if services == [] {
    } else {
      GrantedCount(services[..|services| - 1], args);
    }
  }

  /** However often the client names a service, a reply has at most one argument for each configured set-value. */
  lemma {:induction false} ReplyArgsCount(u: User, args: seq<Text>)
    ensures |ReplyArgs(u, args)| <= SetValueCount(u.services)
  {
    GrantedCount(u.services, Seen(u, args));
    DedupCount(MapTrim(Granted(u.services, Seen(u, args))));
  }

  // ---- whether a reply can be sent ----

  /** The value is sent as an argument of 2 to 255 ASCII bytes. */
  predicate SendableValue(v: Value) { ValidArg(Trim(v.Render())) }

  predicate SendableValues(c: Service) { forall k :: 0 <= k < |c.setValues| ==> SendableValue(c.setValues[k]) }

  lemma {:induction false} GrantedFrom(services: seq<Service>, args: seq<Text>, x: Text) returns (i: nat)
    requires x in Granted(services, args)
    ensures i < |services| && x in GrantedBy(services[i], args)
  {
    var init, last := services[..|services| - 1], services[|services| - 1];
    if x in Granted(init, args) {
      i := GrantedFrom(init, args, x);
    } else {
      i := |init|;
    }
  }

  lemma {:induction false} GrantedHas(services: seq<Service>, args: seq<Text>, x: Text, i: nat)
    requires i < |services| && x in GrantedBy(services[i], args)
    ensures x in Granted(services, args)
  {
    if i < |services| - 1 {
      GrantedHas(services[..|services| - 1], args, x, i);
    } else {
      assert services[|services| - 1] == services[i];
    }
  }

  /** The arguments of a reply are all valid exactly when every set-value of every applying service is sendable. */
  lemma {:induction false} ReplyArgsValidIff(u: User, args: seq<Text>)
    ensures ValidArgs(ReplyArgs(u, args)) <==>
            forall i :: 0 <= i < |u.services| && Applies(u.services[i], Seen(u, args)) ==> SendableValues(u.services[i])
  {
    var seen := Seen(u, args);
    var granted := Granted(u.services, seen);
    DedupMeans(MapTrim(granted));
    AllTrimmed(granted, ReplyArgs(u, args));
    forall i | 0 <= i < |u.services|
      ensures (Applies(u.services[i], seen) ==> SendableValues(u.services[i])) <==>
              forall x :: x in GrantedBy(u.services[i], seen) ==> ValidArg(Trim(x))
    {
      RenderedSendable(u.services[i]);
    }
    forall x | x in granted
      ensures exists i :: 0 <= i < |u.services| && x in GrantedBy(u.services[i], seen)
    {
      var i := GrantedFrom(u.services, seen, x);
    }
    forall i, x | 0 <= i < |u.services| && x in GrantedBy(u.services[i], seen)
      ensures x in granted
    {
      GrantedHas(u.services, seen, x, i);
    }
  }

  lemma AllTrimmed(granted: seq<Text>, d: seq<Text>)
    requires forall x :: x in d <==> x in MapTrim(granted)
    ensures ValidArgs(d) <==> forall x :: x in granted ==> ValidArg(Trim(x))
  {
    if ValidArgs(d) {
      forall x | x in granted
        ensures ValidArg(Trim(x))
      {
        var k :| 0 <= k < |granted| && granted[k] == x;
        assert MapTrim(granted)[k] == Trim(x) && Trim(x) in d;
      }
    } else {
      var j :| 0 <= j < |d| && !ValidArg(d[j]);
      assert d[j] in d;
      var k :| 0 <= k < |granted| && MapTrim(granted)[k] == d[j];
      assert granted[k] in granted;
    }
  }

  lemma RenderedSendable(c: Service)
    ensures SendableValues(c) <==> forall x :: x in Rendered(c.setValues) ==> ValidArg(Trim(x))
  {
    assert forall k :: 0 <= k < |c.setValues| ==> Rendered(c.setValues)[k] == c.setValues[k].Render();
  }
}
