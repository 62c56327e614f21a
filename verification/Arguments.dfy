/** Argument lists: a table of one-byte lengths, then leading fields, then the arguments.
    The loops are those of authorize.go and accounting.go, which share this shape. */
module Arguments {
  import opened Bytes
  import opened Fields
  import opened ReadBuffers

  // ---- the argument loops shared by authorize.go and accounting.go ----

  method ReadArgLens(buf: ReadBuffer, argCnt: nat) returns (argLens: seq<nat>, total: nat)
    modifies buf
    ensures argLens == LensAt(old(buf.rest), argCnt) && total == Sum(argLens)
    ensures buf.rest == Drop(old(buf.rest), argCnt)
  {
    argLens, total := [], 0;
    var i := 0;
    while i < argCnt
      invariant 0 <= i <= argCnt
      invariant argLens == LensAt(old(buf.rest), i) && total == Sum(argLens)
      invariant buf.rest == Drop(old(buf.rest), i)
    {
      var aLen := buf.Byte();
      total := total + aLen;
      SumAppend(argLens, [aLen]);
      argLens := argLens + [aLen];
      i := i + 1;
    }
  }

  method ReadArgs(buf: ReadBuffer, argLens: seq<nat>) returns (args: seq<Text>)
    modifies buf
    ensures args == Chop(old(buf.rest), argLens)
  {
    args := [];
    var i := 0;
    while i < |argLens|
      invariant 0 <= i <= |argLens|
      invariant args + Chop(buf.rest, argLens[i..]) == Chop(old(buf.rest), argLens)
    {
      assert argLens[i..][1..] == argLens[i + 1..];
      var arg := buf.String(argLens[i]);
      args := args + [arg];
      i := i + 1;
    }
  }

  method AppendArgLens(buf: Text, args: seq<Text>) returns (out: Text)
    ensures out == buf + ArgLens(args)
  {
    out := buf;
    for i := 0 to |args|
      invariant out == buf + ArgLens(args[..i])
    {
      out := out + [Low8(|args[i]|)];
      assert ArgLens(args[..i + 1]) == ArgLens(args[..i]) + [Low8(|args[i]|)];
    }
    assert args[..|args|] == args;
  }

  method AppendArgs(buf: Text, args: seq<Text>) returns (out: Text)
    ensures out == buf + Flatten(args)
  {
    out := buf;
    for i := 0 to |args|
      invariant out + Flatten(args[i..]) == buf + Flatten(args)
    {
      out := out + args[i];
      assert args[i..][1..] == args[i + 1..];
    }
  }

  /** Len() of the argument-carrying bodies sums the field lengths in a loop. */
  method SumArgs(start: nat, args: seq<Text>) returns (sum: nat)
    ensures sum == start + Sum(LensOf(args))
  {
    sum := start;
    for i := 0 to |args|
      invariant sum + Sum(LensOf(args[i..])) == start + Sum(LensOf(args))
    {
      sum := sum + |args[i]|;
      assert LensOf(args[i..])[1..] == LensOf(args[i + 1..]);
    }
  }

  /** The user, port, remote address and arguments of a request, and whether the length test passed. */
  method ReadThreeAndArgs(buf: ReadBuffer, userLen: nat, portLen: nat, remAddrLen: nat, argCnt: nat)
    returns (user: Text, port: Text, remAddr: Text, args: seq<Text>, matched: bool)
    modifies buf
    ensures var s := old(buf.rest); var lens := [userLen, portLen, remAddrLen] + LensAt(s, argCnt);
            var f := Chop(Drop(s, argCnt), lens);
            f == [user, port, remAddr] + args && (matched <==> Sum(LensOf(f)) == Sum(lens))
  {
    var argLens, totalArgLen := ReadArgLens(buf, argCnt);
    ghost var rest := buf.rest;
    user := buf.String(userLen);
    port := buf.String(portLen);
    remAddr := buf.String(remAddrLen);
    args := ReadArgs(buf, argLens);
    var len := SumArgs(|user| + |port| + |remAddr|, args);
    matched := len == userLen + portLen + remAddrLen + totalArgLen;
    ChopPast3(rest, userLen, portLen, remAddrLen, argLens);
    SumPast3(userLen, portLen, remAddrLen, argLens);
    SumPast3(|user|, |port|, |remAddr|, LensOf(args));
    assert LensOf([user, port, remAddr] + args) == [|user|, |port|, |remAddr|] + LensOf(args);
  }

  /** The server message, data and arguments of a reply, and whether the length test passed. */
  method ReadTwoAndArgs(buf: ReadBuffer, serverMsgLen: nat, dataLen: nat, argCnt: nat)
    returns (serverMsg: Text, data: Text, args: seq<Text>, matched: bool)
    modifies buf
    ensures var s := old(buf.rest); var lens := [serverMsgLen, dataLen] + LensAt(s, argCnt);
            var f := Chop(Drop(s, argCnt), lens);
            f == [serverMsg, data] + args && (matched <==> Sum(LensOf(f)) == Sum(lens))
  {
    var argLens, totalArgLen := ReadArgLens(buf, argCnt);
    ghost var rest := buf.rest;
    serverMsg := buf.String(serverMsgLen);
    data := buf.String(dataLen);
    args := ReadArgs(buf, argLens);
    var len := SumArgs(|serverMsg| + |data|, args);
    matched := len == serverMsgLen + dataLen + totalArgLen;
    ChopPast2(rest, serverMsgLen, dataLen, argLens);
    SumPast2(serverMsgLen, dataLen, argLens);
    SumPast2(|serverMsg|, |data|, LensOf(args));
    assert LensOf([serverMsg, data] + args) == [|serverMsg|, |data|] + LensOf(args);
  }

  // ---- argument lists ----

  /** The table of argument lengths reads back as the lengths. */
  lemma ArgLensRead(args: seq<Text>, s: Text)
    requires ValidArgs(args) && ArgLens(args) <= s
    ensures LensAt(s, |args|) == LensOf(args)
  {
    forall i | 0 <= i < |args|
      ensures LensAt(s, |args|)[i] == |args[i]|
    {
      assert ValidArg(args[i]) && s[i] == ArgLens(args)[i];
    }
  }

  /** Valid arguments are at least two bytes long, so none of their lengths was missing. */
  lemma ArgLensPresent(s: Text, argCnt: nat, args: seq<Text>)
    requires ValidArgs(args) && LensOf(args) == LensAt(s, argCnt)
    ensures |args| == argCnt <= |s| && ArgLens(args) == s[..argCnt]
  {
    assert |LensOf(args)| == argCnt;
    if argCnt > 0 {
      var last := argCnt - 1;
      assert LensOf(args)[last] == LensAt(s, argCnt)[last] && ValidArg(args[last]);
    }
    forall i | 0 <= i < argCnt
      ensures ArgLens(args)[i] == s[i]
    {
      assert LensOf(args)[i] == LensAt(s, argCnt)[i] && ValidArg(args[i]);
    }
  }

  /** Leading fields and arguments that pass the length test stand behind the table of argument lengths. */
  lemma LeadAndArgsSound(s: Text, argCnt: nat, lens: seq<nat>, lead: seq<Text>, args: seq<Text>)
    requires ValidArgs(args) && |lead| == |lens|
    requires Chop(Drop(s, argCnt), lens + LensAt(s, argCnt)) == lead + args
    requires Sum(LensOf(lead + args)) == Sum(lens + LensAt(s, argCnt))
    ensures LensOf(lead) == lens && |args| == argCnt <= |s|
    ensures ArgLens(args) <= s && Flatten(lead + args) <= s[argCnt..]
  {
    ChopIff(Drop(s, argCnt), lens + LensAt(s, argCnt), lead + args);
    LensSplit(lead, args, lens, LensAt(s, argCnt));
    ArgLensPresent(s, argCnt, args);
  }

  lemma LensSplit(lead: seq<Text>, args: seq<Text>, lens: seq<nat>, argLens: seq<nat>)
    requires |lead| == |lens| && LensOf(lead + args) == lens + argLens
    ensures LensOf(lead) == lens && LensOf(args) == argLens
  {
    assert LensOf(lead + args) == LensOf(lead) + LensOf(args);
    assert LensOf(lead) == (lens + argLens)[..|lens|] == lens;
    assert LensOf(args) == (lens + argLens)[|lens|..] == argLens;
  }

  lemma JoinPrefix(a: Text, b: Text, c: Text, data: Text)
    requires a <= data && b <= data[|a|..] && c <= data[|a|..][|b|..]
    ensures a + b + c <= data
  {
    PrefixSplit(a, b, data);
    assert data[|a|..][|b|..] == data[|a + b|..];
    PrefixSplit(a + b, c, data);
  }

  // ---- unfolding the generic functions past the leading fields ----

  lemma SumPast2(m: nat, n: nat, rest: seq<nat>)
    ensures Sum([m, n] + rest) == m + n + Sum(rest)
  {
    SumAppend([m, n], rest);
    assert Sum([n]) == n && [m, n][1..] == [n];
  }

  lemma SumPast3(m: nat, n: nat, o: nat, rest: seq<nat>)
    ensures Sum([m, n, o] + rest) == m + n + o + Sum(rest)
  {
    SumPast2(n, o, rest);
    assert ([m, n, o] + rest)[1..] == [n, o] + rest;
  }

  lemma FlattenPast2(a: Text, b: Text, rest: seq<Text>)
    ensures Flatten([a, b] + rest) == a + b + Flatten(rest)
  {
    assert ([a, b] + rest)[1..] == [b] + rest && ([b] + rest)[1..] == rest;
  }

  lemma FlattenPast3(a: Text, b: Text, c: Text, rest: seq<Text>)
    ensures Flatten([a, b, c] + rest) == a + b + c + Flatten(rest)
  {
    assert ([a, b, c] + rest)[1..] == [b, c] + rest;
    FlattenPast2(b, c, rest);
  }

  lemma ChopPast2(s: Text, m: nat, n: nat, rest: seq<nat>)
    ensures Chop(s, [m, n] + rest) == [Take(s, m), Take(Drop(s, m), n)] + Chop(Drop(Drop(s, m), n), rest)
  {
    assert ([m, n] + rest)[1..] == [n] + rest && ([n] + rest)[1..] == rest;
  }

  lemma ChopPast3(s: Text, m: nat, n: nat, o: nat, rest: seq<nat>)
    ensures Chop(s, [m, n, o] + rest) ==
            var s1 := Drop(s, m); var s2 := Drop(s1, n);
            [Take(s, m), Take(s1, n), Take(s2, o)] + Chop(Drop(s2, o), rest)
  {
    assert ([m, n, o] + rest)[1..] == [n, o] + rest;
    ChopPast2(Drop(s, m), n, o, rest);
  }
}
