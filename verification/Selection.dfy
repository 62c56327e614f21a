/** Session authorization read off the arguments: which services speak, by the fields of the arguments the server sees,
    and what the reply then holds. Nothing here uses the definitions the loops are proved against. */
module Selection {
  import opened ArgLists
  import opened Bytes
  import opened Config
  import opened SessionAuthorizer

  // ---- trimming and splitting ----

  predicate White(b: byte) { b == 32 || 9 <= b <= 13 }

  lemma {:induction false} TrimLeftAscii(s: Text) returns (i: nat)
    requires AllAscii(s)
    ensures i <= |s| && TrimLeft(s) == s[i..] && (i < |s| ==> !White(s[i]))
    ensures forall k :: 0 <= k < i ==> White(s[k])
    decreases |s|
  {
    if SpaceLen(s) == 0 {
      i := 0;
    } else {
      var j := TrimLeftAscii(s[1..]);
      i := j + 1;
    }
  }

  lemma {:induction false} TrimRightAscii(s: Text) returns (j: nat)
    requires AllAscii(s)
    ensures j <= |s| && TrimRight(s) == s[..j] && (j > 0 ==> !White(s[j - 1]))
    ensures forall k :: j <= k < |s| ==> White(s[k])
    decreases |s|
  {
    if SpaceTail(s) == 0 {
      j := |s|;
    } else {
      j := TrimRightAscii(s[..|s| - 1]);
      assert s[..|s| - 1][..j] == s[..j];
    }
  }

  /** Trimming ASCII takes the white space off both ends and nothing else. */
  lemma TrimAscii(s: Text) returns (i: nat, j: nat)
    requires AllAscii(s)
    ensures i <= j <= |s| && Trim(s) == s[i..j]
    ensures forall k :: 0 <= k < i || j <= k < |s| ==> White(s[k])
    ensures i < j ==> !White(s[i]) && !White(s[j - 1])
  {
    i := TrimLeftAscii(s);
    var left := s[i..];
    var n := TrimRightAscii(left);
    j := i + n;
    assert left[..n] == s[i..j];
    assert forall k :: j <= k < |s| ==> s[k] == left[k - i];
  }

  /** A trimmed argument splits at its first `=` or `*`. */
  lemma SplitAtFirst(attr: Text, sep: byte, value: Text)
    requires (sep == 61 || sep == 42) && (forall k :: 0 <= k < |attr| ==> attr[k] != 61 && attr[k] != 42)
    requires Trim(attr + [sep] + value) == attr + [sep] + value
    ensures Split(attr + [sep] + value) == ASV(attr, [sep], value)
  {
    var s := attr + [sep] + value;
    assert s[|attr|] == sep && forall k :: 0 <= k < |attr| ==> s[k] == attr[k];
    assert SepIndex(s) == |attr|;
    assert s[..|attr|] == attr && s[|attr| + 1..] == value;
  }

  /** The injected argument says `scope=` and the scope the user was localized to. */
  lemma {:induction false} ScopeArgument(u: User)
    ensures u.scopes == [] ==> Split(u.LocalizedScope()) == ASV(Ascii("scope"), [61], Ascii("no-scope-set"))
    ensures u.scopes != [] && (u.scopes[0] == [] || SpaceTail(Ascii("scope=") + u.scopes[0]) == 0) ==>
              Split(u.LocalizedScope()) == ASV(Ascii("scope"), [61], u.scopes[0])
  {
    var name := if u.scopes == [] then Ascii("no-scope-set") else u.scopes[0];
    var s := u.LocalizedScope();
    ScopeText();
    assert s == Ascii("scope") + [61] + name;
    assert s[0] == 115;
    if SpaceTail(s) == 0 {
      assert Trim(s) == s;
      SplitAtFirst(Ascii("scope"), 61, name);
    }
    assert u.scopes == [] ==> s[|s| - 1] == 116;
    assert u.scopes != [] && u.scopes[0] == [] ==> s[|s| - 1] == 61;
  }

  lemma ScopeText()
    ensures Ascii("scope=") == Ascii("scope") + [61]
    ensures Ascii("scope=no-scope-set") == Ascii("scope=") + Ascii("no-scope-set")
    ensures forall k :: 0 <= k < 5 ==> Ascii("scope")[k] != 61 && Ascii("scope")[k] != 42
  {
  }

  // ---- which services speak ----

  /** The last argument with this attribute stands at l. */
  ghost predicate LastAt(seen: seq<Text>, attr: Text, l: int) {
    0 <= l < |seen| && Split(seen[l]).attr == attr && forall k :: l < k < |seen| ==> Split(seen[k]).attr != attr
  }

  /** The last argument with the condition's attribute has every listed value. */
  ghost predicate Holds(m: Value, seen: seq<Text>) {
    exists l :: LastAt(seen, m.name, l) && forall v :: 0 <= v < |m.values| ==> Split(seen[l]).value == m.values[v]
  }

  ghost predicate AllHold(c: Service, seen: seq<Text>) {
    forall q :: 0 <= q < |c.matches| ==> Holds(c.matches[q], seen)
  }

  /** Some argument has the service's trimmed name as attribute or as value, and all conditions hold. */
  ghost predicate Selected(c: Service, seen: seq<Text>) {
    AllHold(c, seen) &&
    exists j :: 0 <= j < |seen| && (Split(seen[j]).attr == Trim(c.name) || Split(seen[j]).value == Trim(c.name))
  }

  lemma {:induction false} LastValueAt(seen: seq<Text>, attr: Text, l: int)
    requires LastAt(seen, attr, l)
    ensures LastValue(seen, attr) == Some(Split(seen[l]).value)
  {
    if l < |seen| - 1 {
      assert LastAt(seen[..|seen| - 1], attr, l);
      LastValueAt(seen[..|seen| - 1], attr, l);
    } else {
      assert seen[|seen| - 1] == seen[l];
    }
  }

  lemma {:induction false} LastValueFrom(seen: seq<Text>, attr: Text) returns (l: int)
    requires LastValue(seen, attr).Some?
    ensures LastAt(seen, attr, l)
  {
    if Split(seen[|seen| - 1]).attr == attr {
      l := |seen| - 1;
    } else {
      var init := seen[..|seen| - 1];
      l := LastValueFrom(init, attr);
      assert forall k :: l < k < |init| ==> seen[k] == init[k];
    }
  }

  lemma {:induction false} HoldsIff(m: Value, seen: seq<Text>)
    ensures Holds(m, seen) <==> Satisfied(m, seen)
  {
    if Holds(m, seen) {
      var l :| LastAt(seen, m.name, l) && forall v :: 0 <= v < |m.values| ==> Split(seen[l]).value == m.values[v];
      LastValueAt(seen, m.name, l);
    }
    if Satisfied(m, seen) {
      var l := LastValueFrom(seen, m.name);
      LastValueAt(seen, m.name, l);
    }
  }

  lemma {:induction false} SelectedIff(c: Service, seen: seq<Text>)
    ensures Selected(c, seen) <==> Applies(c, seen)
  {
    forall q | 0 <= q < |c.matches|
      ensures Holds(c.matches[q], seen) <==> Satisfied(c.matches[q], seen)
    {
      HoldsIff(c.matches[q], seen);
    }
    if j :| 0 <= j < |seen| && (Split(seen[j]).attr == Trim(c.name) || Split(seen[j]).value == Trim(c.name)) {
      assert Names(seen[j], Trim(c.name));
    }
    if SomeNames(seen, Trim(c.name)) {
      var j :| 0 <= j < |seen| && Names(seen[j], Trim(c.name));
      assert Split(seen[j]).attr == Trim(c.name) || Split(seen[j]).value == Trim(c.name);
    }
  }

  // ---- what the reply holds ----

  /** A set-value as it is sent: name, `*` if optional and `=` otherwise, and the values with spaces between. */
  function AsSent(v: Value): Text { Trim(v.name + [if v.optional then 42 else 61] + Join(v.values)) }

  function AllAsSent(values: seq<Value>): seq<Text> {
    seq(|values|, k requires 0 <= k < |values| => AsSent(values[k]))
  }

  lemma {:induction false} JoinSnoc(parts: seq<Text>, last: Text)
    ensures Join([]) == [] && Join([last]) == last
    ensures parts != [] ==> Join(parts + [last]) == Join(parts) + [32] + last
  {
    if |parts| <= 1 {
      assert parts != [] ==> (parts + [last])[1..] == [last];
    } else {
      JoinSnoc(parts[1..], last);
      assert (parts + [last])[1..] == parts[1..] + [last];
    }
  }

  lemma RenderedAsSent(c: Service)
    ensures MapTrim(Rendered(c.setValues)) == AllAsSent(c.setValues)
  {
  }

  /** One more service adds its set-values in order if it is selected, each only if the reply does not hold it yet. */
  lemma {:induction false} ReplyGrows(u: User, c: Service, args: seq<Text>)
    ensures ReplyArgs(u.(services := []), args) == []
    ensures var seen := Seen(u, args);
            ReplyArgs(u.(services := u.services + [c]), args) ==
            Dedup(ReplyArgs(u, args) + if Selected(c, seen) then AllAsSent(c.setValues) else [])
  {
    var seen, u' := Seen(u, args), u.(services := u.services + [c]);
    var granted, more := Granted(u.services, seen), GrantedBy(c, seen);
    assert Seen(u', args) == seen && Seen(u.(services := []), args) == seen;
    assert u'.services[..|u.services|] == u.services;
    assert Granted(u'.services, seen) == granted + more;
    MapTrimAppend(granted, more);
    SelectedIff(c, seen);
    RenderedAsSent(c);
    DedupTwice(MapTrim(granted), MapTrim(more));
  }

  lemma {:induction false} DedupTwice(s: seq<Text>, t: seq<Text>)
    ensures Dedup(Dedup(s) + t) == Dedup(s + t)
  {
    DedupOfDedup(s);
    DedupCongruent(Dedup(s), s, t);
  }

  lemma {:induction false} DedupOfDedup(s: seq<Text>)
    ensures Dedup(Dedup(s)) == Dedup(s)
  {
    if s == [] {
    } else {
      var init, last := s[..|s| - 1], s[|s| - 1];
      DedupOfDedup(init);
      DedupMeans(init);
      DedupSnoc(Dedup(init), last);
    }
  }

  /** A text is in the reply exactly when a selected service has it as a set-value. */
  lemma {:induction false} ReplyIff(u: User, args: seq<Text>, y: Text)
    ensures y in ReplyArgs(u, args) <==>
            exists i, k :: 0 <= i < |u.services| && Selected(u.services[i], Seen(u, args)) &&
                           0 <= k < |u.services[i].setValues| && y == AsSent(u.services[i].setValues[k])
  {
    if y in ReplyArgs(u, args) {
      var i, k := ReplyFrom(u, args, y);
    }
    if i, k :| 0 <= i < |u.services| && Selected(u.services[i], Seen(u, args)) &&
               0 <= k < |u.services[i].setValues| && y == AsSent(u.services[i].setValues[k]) {
      ReplyHas(u, args, i, k);
    }
  }

  lemma {:induction false} ReplyFrom(u: User, args: seq<Text>, y: Text) returns (i: nat, k: nat)
    requires y in ReplyArgs(u, args)
    ensures i < |u.services| && Selected(u.services[i], Seen(u, args)) &&
            k < |u.services[i].setValues| && y == AsSent(u.services[i].setValues[k])
  {
    var seen := Seen(u, args);
    var granted := Granted(u.services, seen);
    DedupMeans(MapTrim(granted));
    var n :| 0 <= n < |granted| && MapTrim(granted)[n] == y;
    i := GrantedFrom(u.services, seen, granted[n]);
    SelectedIff(u.services[i], seen);
    k :| 0 <= k < |u.services[i].setValues| && Rendered(u.services[i].setValues)[k] == granted[n];
  }

  lemma {:induction false} ReplyHas(u: User, args: seq<Text>, i: nat, k: nat)
    requires i < |u.services| && Selected(u.services[i], Seen(u, args)) && k < |u.services[i].setValues|
    ensures AsSent(u.services[i].setValues[k]) in ReplyArgs(u, args)
  {
    var seen, x := Seen(u, args), Rendered(u.services[i].setValues)[k];
    var granted := Granted(u.services, seen);
    SelectedIff(u.services[i], seen);
    GrantedHas(u.services, seen, x, i);
    var n :| 0 <= n < |granted| && granted[n] == x;
    assert MapTrim(granted)[n] == AsSent(u.services[i].setValues[k]);
    DedupMeans(MapTrim(granted));
  }

  /** Naming the service by an attribute, as in `shell=`, brings every one of its set-values. */
  lemma {:induction false} NamedByAttribute(u: User, args: seq<Text>, i: nat, j: nat, k: nat)
    requires i < |u.services| && j < |Seen(u, args)| && k < |u.services[i].setValues|
    requires Split(Seen(u, args)[j]).attr == Trim(u.services[i].name) && AllHold(u.services[i], Seen(u, args))
    ensures AsSent(u.services[i].setValues[k]) in ReplyArgs(u, args)
  {
    ReplyHas(u, args, i, k);
  }

  /** So does naming it by a value, as in `service=shell`. */
  lemma {:induction false} NamedByValue(u: User, args: seq<Text>, i: nat, j: nat, k: nat)
    requires i < |u.services| && j < |Seen(u, args)| && k < |u.services[i].setValues|
    requires Split(Seen(u, args)[j]).value == Trim(u.services[i].name) && AllHold(u.services[i], Seen(u, args))
    ensures AsSent(u.services[i].setValues[k]) in ReplyArgs(u, args)
  {
    ReplyHas(u, args, i, k);
  }

  /** An argument that names the service with a `*`, other than `cmd*`. */
  ghost predicate StarNames(c: Service, seen: seq<Text>) {
    exists j :: 0 <= j < |seen| && (Split(seen[j]).attr == Trim(c.name) || Split(seen[j]).value == Trim(c.name)) &&
                Split(seen[j]).attr != Ascii("cmd") && Split(seen[j]).sep == [42]
  }

  ghost predicate SelectedOptional(c: Service, seen: seq<Text>) {
    Selected(c, seen) && exists k :: 0 <= k < |c.setValues| && c.setValues[k].optional
  }

  lemma {:induction false} OptionalIff(c: Service, seen: seq<Text>)
    ensures MakesOptional(c, seen) <==> StarNames(c, seen) || SelectedOptional(c, seen)
  {
    SelectedIff(c, seen);
    var name := Trim(c.name);
    if j :| 0 <= j < |seen| && AsksOptional(seen[j], name) {
      assert Split(seen[j]).attr == name || Split(seen[j]).value == name;
    }
    if StarNames(c, seen) {
      var j :| 0 <= j < |seen| && (Split(seen[j]).attr == name || Split(seen[j]).value == name) &&
               Split(seen[j]).attr != Ascii("cmd") && Split(seen[j]).sep == [42];
      assert AsksOptional(seen[j], name);
    }
  }

  /** The status is 2 exactly when a `*` names some service or a selected one has an optional set-value, else 1. */
  lemma {:induction false} StatusIff(u: User, args: seq<Text>)
    ensures ReplyStatus(u, args) in {1, 2}
    ensures ReplyStatus(u, args) == 2 <==>
            exists i :: 0 <= i < |u.services| &&
                        (StarNames(u.services[i], Seen(u, args)) || SelectedOptional(u.services[i], Seen(u, args)))
  {
    forall i | 0 <= i < |u.services|
      ensures MakesOptional(u.services[i], Seen(u, args)) <==>
              StarNames(u.services[i], Seen(u, args)) || SelectedOptional(u.services[i], Seen(u, args))
    {
      OptionalIff(u.services[i], Seen(u, args));
    }
  }
}
