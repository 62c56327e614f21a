/** authorize_fields.go: arguments as attribute, separator and value, and their deduplication. */
module ArgLists {
  import opened Bytes

  const STAR: byte := 42   // '*'
  const EQUALS: byte := 61 // '='
  const SPACE: byte := 32
  const CMD: Text := Ascii("cmd")
  const CMD_ARG: Text := Ascii("cmd-arg")
  const SERVICE: Text := Ascii("service")
  const SHELL: Text := Ascii("shell")

  // ---- strings.TrimSpace on UTF-8 bytes ----

  /** The UTF-8 encodings of the runes that unicode.IsSpace accepts, by length. */
  predicate Space1(a: byte) { 9 <= a <= 13 || a == SPACE }
  predicate Space2(a: byte, b: byte) { a == 0xC2 && (b == 0x85 || b == 0xA0) }
  predicate Space3(a: byte, b: byte, c: byte) {
    (a == 0xE1 && b == 0x9A && c == 0x80) ||
    (a == 0xE3 && b == 0x80 && c == 0x80) ||
    (a == 0xE2 && b == 0x81 && c == 0x9F) ||
    (a == 0xE2 && b == 0x80 && (0x80 <= c <= 0x8A || 0xA8 <= c <= 0xA9 || c == 0xAF))
  }

  /** The length of the white-space rune that opens s, or 0. */
  function SpaceLen(s: Text): (n: nat)
    ensures n <= |s|
  {
    if |s| >= 1 && Space1(s[0]) then 1
    else if |s| >= 2 && Space2(s[0], s[1]) then 2
    else if |s| >= 3 && Space3(s[0], s[1], s[2]) then 3
    else 0
  }

  /** The length of the white-space rune that ends s, or 0. */
  function SpaceTail(s: Text): (n: nat)
    ensures n <= |s|
  {
    var k := |s|;
    if k >= 1 && Space1(s[k - 1]) then 1
    else if k >= 2 && Space2(s[k - 2], s[k - 1]) then 2
    else if k >= 3 && Space3(s[k - 3], s[k - 2], s[k - 1]) then 3
    else 0
  }

  function TrimLeft(s: Text): Text
    decreases |s|
  {
    if SpaceLen(s) > 0 then TrimLeft(s[SpaceLen(s)..]) else s
  }

  function TrimRight(s: Text): Text
    decreases |s|
  {
    if SpaceTail(s) > 0 then TrimRight(s[..|s| - SpaceTail(s)]) else s
  }

  function Trim(s: Text): Text { TrimRight(TrimLeft(s)) }

  lemma {:induction false} TrimLeftDone(s: Text)
    ensures SpaceLen(TrimLeft(s)) == 0
    decreases |s|
  {
    if SpaceLen(s) == 0 {
    } else {
      TrimLeftDone(s[SpaceLen(s)..]);
    }
  }

  lemma {:induction false} TrimRightDone(s: Text)
    ensures TrimRight(s) <= s && SpaceTail(TrimRight(s)) == 0
    decreases |s|
  {
    if SpaceTail(s) == 0 {
    } else {
      TrimRightDone(s[..|s| - SpaceTail(s)]);
    }
  }

  /** Trimming again changes nothing. */
  lemma TrimIdempotent(s: Text)
    ensures Trim(Trim(s)) == Trim(s)
  {
    var left := TrimLeft(s);
    TrimLeftDone(s);
    TrimRightDone(left);
    assert SpaceLen(Trim(s)) == 0 by {
      var t := TrimRight(left);
      assert forall i :: 0 <= i < |t| ==> t[i] == left[i];
    }
  }

  // ---- attribute, separator, value ----

  datatype ASV = ASV(attr: Text, sep: Text, value: Text)

  /** Index of the first '=' or '*', or |s|. */
  function SepIndex(s: Text): (i: nat)
    ensures i <= |s| && (i < |s| ==> s[i] == EQUALS || s[i] == STAR)
    ensures forall j :: 0 <= j < i ==> s[j] != EQUALS && s[j] != STAR
  {
    if s == [] || s[0] == EQUALS || s[0] == STAR then 0 else 1 + SepIndex(s[1..])
  }

  function Split(arg: Text): ASV {
    var s := Trim(arg);
    var i := SepIndex(s);
    if i == |s| then ASV([], [], []) else ASV(s[..i], [s[i]], s[i + 1..])
  }

  // ---- deduplication ----

  function MapTrim(args: seq<Text>): (r: seq<Text>)
    ensures |r| == |args|
  {
    seq(|args|, i requires 0 <= i < |args| => Trim(args[i]))
  }

  /** Keeps the first occurrence of every element, in order. */
  function Dedup(s: seq<Text>): seq<Text> {
    if s == [] then [] else
    var init, last := s[..|s| - 1], s[|s| - 1];
    if last in init then Dedup(init) else Dedup(init) + [last]
  }

  function FirstIndex(s: seq<Text>, x: Text): (i: nat)
    requires x in s
    ensures i < |s| && s[i] == x && x !in s[..i]
  {
    if s[0] == x then 0 else 1 + FirstIndex(s[1..], x)
  }

  /** What Dedup means: the same elements, none twice, ordered by where each first stood. */
  lemma {:induction false} DedupMeans(s: seq<Text>)
    ensures forall x :: x in Dedup(s) <==> x in s
    ensures forall i, j :: 0 <= i < j < |Dedup(s)| ==> FirstIndex(s, Dedup(s)[i]) < FirstIndex(s, Dedup(s)[j])
  {
    if s == [] {
    } else {
      var init, last := s[..|s| - 1], s[|s| - 1];
      DedupMeans(init);
      assert s == init + [last];
      forall x | x in init
        ensures FirstIndex(s, x) == FirstIndex(init, x)
      {
        FirstIndexExtends(init, [last], x);
      }
      if last !in init {
        assert FirstIndex(s, last) == |init|;
      }
    }
  }

  lemma {:induction false} FirstIndexExtends(a: seq<Text>, b: seq<Text>, x: Text)
    requires x in a
    ensures x in a + b && FirstIndex(a + b, x) == FirstIndex(a, x)
  {
    assert (a + b)[0] == a[0];
    if a[0] != x {
      FirstIndexExtends(a[1..], b, x);
      assert (a + b)[1..] == a[1..] + b;
    }
  }

  lemma {:induction false} DedupSnoc(s: seq<Text>, x: Text)
    ensures Dedup(s + [x]) == if x in s then Dedup(s) else Dedup(s) + [x]
  {
    assert (s + [x])[..|s|] == s;
  }

  lemma {:induction false} DedupCount(s: seq<Text>)
    ensures |Dedup(s)| <= |s|
  {
    if s == [] {
    } else {
      DedupCount(s[..|s| - 1]);
    }
  }

  /** A list already seen adds nothing. */
  lemma {:induction false} DedupAbsorbs(s: seq<Text>, t: seq<Text>)
    requires forall x :: x in t ==> x in s
    ensures Dedup(s + t) == Dedup(s)
  {
    if t == [] {
      assert s + t == s;
    } else {
      var init, last := t[..|t| - 1], t[|t| - 1];
      DedupAbsorbs(s, init);
      assert s + t == (s + init) + [last];
      DedupSnoc(s + init, last);
    }
  }

  /** What follows a list sees it only through its deduplication. */
  lemma {:induction false} DedupCongruent(s: seq<Text>, s': seq<Text>, t: seq<Text>)
    requires Dedup(s) == Dedup(s')
    ensures Dedup(s + t) == Dedup(s' + t)
  {
    if t == [] {
      assert s + t == s && s' + t == s';
    } else {
      var init, last := t[..|t| - 1], t[|t| - 1];
      DedupCongruent(s, s', init);
      DedupMeans(s + init);
      DedupMeans(s' + init);
      assert s + t == (s + init) + [last] && s' + t == (s' + init) + [last];
      DedupSnoc(s + init, last);
      DedupSnoc(s' + init, last);
    }
  }

  /** Replacing a list by an equivalent one, and repeating elements, leaves the deduplication alone. */
  lemma {:induction false} DedupReplaces(s: seq<Text>, s': seq<Text>, t: seq<Text>, again: seq<Text>)
    requires Dedup(s) == Dedup(s') && forall x :: x in again ==> x in t
    ensures Dedup(s + (t + again)) == Dedup(s' + t)
  {
    DedupCongruent(s, s', t);
    assert s + (t + again) == (s + t) + again;
    DedupAbsorbs(s + t, again);
  }

  lemma MapTrimSubset(a: seq<Text>, b: seq<Text>)
    requires forall x :: x in a ==> x in b
    ensures forall x :: x in MapTrim(a) ==> x in MapTrim(b)
  {
    forall x | x in MapTrim(a)
      ensures x in MapTrim(b)
    {
      var k :| 0 <= k < |a| && x == Trim(a[k]);
      assert a[k] in b;
      var j :| 0 <= j < |b| && b[j] == a[k];
      assert MapTrim(b)[j] == x;
    }
  }

  lemma MapTrimAppend(a: seq<Text>, b: seq<Text>)
    ensures MapTrim(a + b) == MapTrim(a) + MapTrim(b)
  {
  }

  /** Taking one more argument extends the deduplicated list by its trimmed string, if that is new. */
  lemma {:induction false} DedupNext(args: seq<Text>, i: nat)
    requires i < |args|
    ensures MapTrim(args[..i + 1]) == MapTrim(args[..i]) + [Trim(args[i])]
    ensures var sofar := MapTrim(args[..i]);
            Dedup(MapTrim(args[..i + 1])) ==
            if Trim(args[i]) in sofar then Dedup(sofar) else Dedup(sofar) + [Trim(args[i])]
  {
    assert args[..i + 1] == args[..i] + [args[i]];
    MapTrimAppend(args[..i], [args[i]]);
    DedupSnoc(MapTrim(args[..i]), Trim(args[i]));
  }

  /** The same for lists that are trimmed first. */
  lemma {:induction false} TrimmedReplaces(s: seq<Text>, s': seq<Text>, t: seq<Text>, t': seq<Text>)
    requires Dedup(MapTrim(s)) == Dedup(MapTrim(s'))
    requires t <= t' && forall x :: x in t' ==> x in t
    ensures Dedup(MapTrim(s + t')) == Dedup(MapTrim(s' + t))
  {
    var again := t'[|t|..];
    assert t' == t + again && forall x :: x in again ==> x in t';
    MapTrimAppend(s, t');
    MapTrimAppend(t, again);
    MapTrimAppend(s', t);
    MapTrimSubset(again, t);
    DedupReplaces(MapTrim(s), MapTrim(s'), MapTrim(t), MapTrim(again));
  }

  // ---- the loops of Args ----

  /** Unique: keeps an argument when no earlier one trims to the same string. */
  method Unique(args: seq<Text>) returns (unique: seq<Text>)
    ensures MapTrim(unique) == Dedup(MapTrim(args))
    ensures forall x :: x in unique ==> x in args
  {
    var seen: set<Text> := {};
    unique := [];
    ghost var sofar: seq<Text> := [];
    for i := 0 to |args|
      invariant sofar == MapTrim(args[..i]) && MapTrim(unique) == Dedup(sofar)
      invariant forall x :: x in seen <==> x in sofar
      invariant forall x :: x in unique ==> x in args
    {
      var asv := Trim(args[i]);
      DedupNext(args, i);
      if asv !in seen {
        seen := seen + {asv};
        MapTrimAppend(unique, [args[i]]);
        assert MapTrim([args[i]]) == [asv];
        unique := unique + [args[i]];
      }
      sofar := sofar + [asv];
    }
    assert args[..|args|] == args;
  }

  /** Args: the trimmed strings of Unique. */
  method TrimmedUnique(args: seq<Text>) returns (r: seq<Text>)
    ensures r == Dedup(MapTrim(args))
  {
    var unique := Unique(args);
    r := [];
    for i := 0 to |unique|
      invariant r == MapTrim(unique)[..i]
    {
      r := r + [Trim(unique[i])];
    }
  }

  /** The first argument with the given attribute: Service, CommandSplit and Command stop there. */
  function FirstWith(args: seq<Text>, attr: Text): Option<ASV> {
    if args == [] then None
    else if Split(args[0]).attr == attr then Some(Split(args[0]))
    else FirstWith(args[1..], attr)
  }

  /** The values of every argument with the given attribute, in order. */
  function ValuesWith(args: seq<Text>, attr: Text): seq<Text> {
    if args == [] then []
    else (if Split(args[0]).attr == attr then [Split(args[0]).value] else []) + ValuesWith(args[1..], attr)
  }

  function Join(parts: seq<Text>): Text {
    if parts == [] then [] else if |parts| == 1 then parts[0] else parts[0] + [SPACE] + Join(parts[1..])
  }

  lemma {:induction false} ValuesWithNext(args: seq<Text>, attr: Text, i: nat)
    requires i < |args|
    ensures ValuesWith(args[i..], attr) ==
            (if Split(args[i]).attr == attr then [Split(args[i]).value] else []) + ValuesWith(args[i + 1..], attr)
  {
    assert args[i..][1..] == args[i + 1..];
  }

  function JoinedCommandArgs(args: seq<Text>): Text { Join(ValuesWith(args, CMD_ARG)) }

  method CollectValues(args: seq<Text>, attr: Text) returns (values: seq<Text>)
    ensures values == ValuesWith(args, attr)
  {
    values := [];
    for i := 0 to |args|
      invariant values + ValuesWith(args[i..], attr) == ValuesWith(args, attr)
    {
      ValuesWithNext(args, attr, i);
      ghost var rest := ValuesWith(args[i + 1..], attr);
      var a := Split(args[i]);
      if a.attr == attr {
        assert values + ([a.value] + rest) == (values + [a.value]) + rest;
        values := values + [a.value];
      } else {
        assert [] + rest == rest;
      }
    }
  }
}
