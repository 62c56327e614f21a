/** authorize.go: the REQUEST and REPLY bodies of section 6 of RFC 8907. */
module Authorize {
  import opened Arguments
  import opened Bytes
  import opened Fields
  import opened ReadBuffers

  // ---- REQUEST (section 6.1) ----

  datatype AuthorRequest = AuthorRequest(method_: byte, privLvl: byte, atype: byte, service: byte,
                                         user: Text, port: Text, remAddr: Text, args: seq<Text>) {
    predicate Valid() {
      ValidMethod(method_) && ValidPrivLvl(privLvl) && ValidAuthenType(atype) && ValidService(service) &&
      AllAscii(user) && AllAscii(port) && AllAscii(remAddr) && ValidArgs(args)
    }

    predicate Fits() { |user| <= 255 && |port| <= 255 && |remAddr| <= 255 && |args| <= 255 }

    function Fixed(): Text {
      [method_, privLvl, atype, service, Low8(|user|), Low8(|port|), Low8(|remAddr|), Low8(|args|)]
    }

    function Encode(): Text { Fixed() + ArgLens(args) + Flatten([user, port, remAddr] + args) }

    function Marshal(): Option<Text> { if Valid() then Some(Encode()) else None }
  }

  method MarshalRequest(v: AuthorRequest) returns (r: Option<Text>)
    ensures r == v.Marshal()
  {
    if !v.Valid() {
      return None;
    }
    var buf := v.Fixed();
    buf := AppendArgLens(buf, v.args);
    ghost var head := buf;
    buf := buf + v.user;
    buf := buf + v.port;
    buf := buf + v.remAddr;
    FlattenPast3(v.user, v.port, v.remAddr, v.args);
    assert buf == head + (v.user + v.port + v.remAddr);
    buf := AppendArgs(buf, v.args);
    assert buf == head + (v.user + v.port + v.remAddr + Flatten(v.args));
    r := Some(buf);
  }

  function DecodeRequest(data: Text): Decoded<AuthorRequest> {
    if |data| < 8 then TooShort else
    var argCnt := data[7];
    var lens := [data[4], data[5], data[6]] + LensAt(data[8..], argCnt);
    var f := Chop(Drop(data[8..], argCnt), lens);
    var v := AuthorRequest(data[0], data[1], data[2], data[3], f[0], f[1], f[2], f[3..]);
    if Sum(LensOf(f)) != Sum(lens) then BadSecret else if v.Valid() then Ok(v) else Invalid
  }

  method UnmarshalRequest(data: Text) returns (r: Decoded<AuthorRequest>)
    ensures r == DecodeRequest(data)
  {
    if |data| < 8 {
      return TooShort;
    }
    var buf := new ReadBuffer(data[4..]);
    var userLen := buf.Byte();
    var portLen := buf.Byte();
    var remAddrLen := buf.Byte();
    var argCnt := buf.Byte();
    assert buf.rest == data[8..];
    var user, port, remAddr, args, matched := ReadThreeAndArgs(buf, userLen, portLen, remAddrLen, argCnt);
    assert ([user, port, remAddr] + args)[3..] == args;
    if !matched {
      return BadSecret;
    }
    var v := AuthorRequest(data[0], data[1], data[2], data[3], user, port, remAddr, args);
    r := if v.Valid() then Ok(v) else Invalid;
  }

  lemma RequestFixed(v: AuthorRequest, data: Text)
    requires |data| >= 8 && v.method_ == data[0] && v.privLvl == data[1] && v.atype == data[2] && v.service == data[3]
    requires |v.user| == data[4] && |v.port| == data[5] && |v.remAddr| == data[6] && |v.args| == data[7]
    ensures v.Fits() && v.Fixed() == data[..8]
  {
    assert data[..4] == [v.method_, v.privLvl, v.atype, v.service];
    assert data[..8] == data[..4] + [data[4], data[5], data[6], data[7]];
  }

  /** The decoded fields stand behind the fixed part, with the announced lengths. */
  lemma RequestFields(data: Text, v: AuthorRequest)
    requires DecodeRequest(data) == Ok(v)
    ensures v.Valid() && |data| >= 8 && v.method_ == data[0] && v.privLvl == data[1] && v.atype == data[2] &&
            v.service == data[3]
    ensures |v.user| == data[4] && |v.port| == data[5] && |v.remAddr| == data[6] && |v.args| == data[7] <= |data[8..]|
    ensures ArgLens(v.args) <= data[8..] && Flatten([v.user, v.port, v.remAddr] + v.args) <= data[8..][|v.args|..]
  {
    var lead := [v.user, v.port, v.remAddr];
    LeadAndArgsSound(data[8..], data[7], [data[4], data[5], data[6]], lead, v.args);
    assert LensOf(lead)[0] == |v.user| && LensOf(lead)[1] == |v.port| && LensOf(lead)[2] == |v.remAddr|;
  }

  lemma RequestEncoded(v: AuthorRequest, data: Text)
    requires |data| >= 8 && v.method_ == data[0] && v.privLvl == data[1] && v.atype == data[2] && v.service == data[3]
    requires |v.user| == data[4] && |v.port| == data[5] && |v.remAddr| == data[6] && |v.args| == data[7] <= |data[8..]|
    requires ArgLens(v.args) <= data[8..] && Flatten([v.user, v.port, v.remAddr] + v.args) <= data[8..][|v.args|..]
    ensures v.Fits() && v.Encode() <= data
  {
    RequestFixed(v, data);
    JoinPrefix(v.Fixed(), ArgLens(v.args), Flatten([v.user, v.port, v.remAddr] + v.args), data);
  }

  lemma RequestSound(data: Text)
    requires DecodeRequest(data).Ok?
    ensures var v := DecodeRequest(data).value; v.Valid() && v.Fits() && v.Encode() <= data
  {
    var v := DecodeRequest(data).value;
    RequestFields(data, v);
    RequestEncoded(v, data);
  }

  lemma RequestRoundTrip(v: AuthorRequest, data: Text)
    requires v.Valid() && v.Fits() && v.Encode() <= data
    ensures DecodeRequest(data) == Ok(v)
  {
    var fields := [v.user, v.port, v.remAddr] + v.args;
    PrefixSplit(v.Fixed() + ArgLens(v.args), Flatten(fields), data);
    PrefixSplit(v.Fixed(), ArgLens(v.args), data);
    var argCnt := |v.args|;
    assert data[7] == v.Fixed()[7] == argCnt;
    ArgLensRead(v.args, data[8..]);
    assert LensOf(fields) == [data[4], data[5], data[6]] + LensAt(data[8..], argCnt);
    assert Drop(data[8..], argCnt) == data[8 + argCnt..];
    ChopIff(Drop(data[8..], argCnt), LensOf(fields), fields);
    assert fields[3..] == v.args;
  }

  /** Lengths that do not fit wrap silently: a valid request is read back from its encoding exactly when they fit. */
  lemma RequestEncodedIff(v: AuthorRequest)
    requires v.Valid()
    ensures DecodeRequest(v.Encode()) == Ok(v) <==> v.Fits()
  {
    if v.Fits() {
      RequestRoundTrip(v, v.Encode());
    }
    if DecodeRequest(v.Encode()).Ok? {
      RequestSound(v.Encode());
    }
  }

  predicate RequestOverruns(data: Text) {
    |data| >= 8 && Sum([data[4], data[5], data[6]] + LensAt(data[8..], data[7])) > |Drop(data[8..], data[7])|
  }

  lemma RequestBadSecret(data: Text)
    ensures DecodeRequest(data).BadSecret? <==> RequestOverruns(data)
  {
    if |data| >= 8 {
      ChopTotal(Drop(data[8..], data[7]), [data[4], data[5], data[6]] + LensAt(data[8..], data[7]));
    }
  }

  // ---- REPLY (section 6.2) ----

  datatype AuthorReply = AuthorReply(status: byte, args: seq<Text>, serverMsg: Text, data: Text) {
    predicate Valid() { ValidAuthorStatus(status) && AllAscii(serverMsg) && AllAscii(data) && ValidArgs(args) }

    predicate Fits() { |args| <= 255 && |serverMsg| <= 65535 && |data| <= 65535 }

    function Fixed(): Text {
      [status, Low8(|args|), Hi8(|serverMsg|), Low8(|serverMsg|), Hi8(|data|), Low8(|data|)]
    }

    function Encode(): Text { Fixed() + ArgLens(args) + Flatten([serverMsg, data] + args) }

    function Marshal(): Option<Text> { if Valid() then Some(Encode()) else None }
  }

  method MarshalReply(v: AuthorReply) returns (r: Option<Text>)
    ensures r == v.Marshal()
  {
    if !v.Valid() {
      return None;
    }
    var buf := v.Fixed();
    buf := AppendArgLens(buf, v.args);
    ghost var head := buf;
    buf := buf + v.serverMsg;
    buf := buf + v.data;
    FlattenPast2(v.serverMsg, v.data, v.args);
    assert buf == head + (v.serverMsg + v.data);
    buf := AppendArgs(buf, v.args);
    assert buf == head + (v.serverMsg + v.data + Flatten(v.args));
    r := Some(buf);
  }

  function DecodeReply(data: Text): Decoded<AuthorReply> {
    if |data| < 6 then TooShort else
    var argCnt := data[1];
    var lens := [FromBE16(data[2], data[3]), FromBE16(data[4], data[5])] + LensAt(data[6..], argCnt);
    var f := Chop(Drop(data[6..], argCnt), lens);
    var v := AuthorReply(data[0], f[2..], f[0], f[1]);
    if Sum(LensOf(f)) != Sum(lens) then BadSecret else if v.Valid() then Ok(v) else Invalid
  }

  method UnmarshalReply(data: Text) returns (r: Decoded<AuthorReply>)
    ensures r == DecodeReply(data)
  {
    if |data| < 6 {
      return TooShort;
    }
    var buf := new ReadBuffer(data);
    var status := buf.Byte();
    var argCnt := buf.Byte();
    assert buf.rest == data[2..];
    var serverMsgLen := buf.Uint16();
    var dataLen := buf.Uint16();
    assert buf.rest == data[6..];
    var serverMsg, dat, args, matched := ReadTwoAndArgs(buf, serverMsgLen, dataLen, argCnt);
    assert ([serverMsg, dat] + args)[2..] == args;
    if !matched {
      return BadSecret;
    }
    var v := AuthorReply(status, args, serverMsg, dat);
    r := if v.Valid() then Ok(v) else Invalid;
  }

  lemma ReplySound(data: Text)
    requires DecodeReply(data).Ok?
    ensures var v := DecodeReply(data).value; v.Valid() && v.Fits() && v.Encode() <= data
  {
    var v := DecodeReply(data).value;
    var lead := [v.serverMsg, v.data];
    LeadAndArgsSound(data[6..], data[1], [FromBE16(data[2], data[3]), FromBE16(data[4], data[5])], lead, v.args);
    assert LensOf(lead)[0] == |v.serverMsg| && LensOf(lead)[1] == |v.data|;
    ReplyFixed(v, data);
    JoinPrefix(v.Fixed(), ArgLens(v.args), Flatten(lead + v.args), data);
  }

  lemma ReplyFixed(v: AuthorReply, data: Text)
    requires |data| >= 6 && v.status == data[0] && |v.args| == data[1]
    requires |v.serverMsg| == FromBE16(data[2], data[3]) && |v.data| == FromBE16(data[4], data[5])
    ensures v.Fits() && v.Fixed() == data[..6]
  {
    BE16Iff(data[2], data[3], |v.serverMsg|);
    BE16Iff(data[4], data[5], |v.data|);
  }

  lemma ReplyRoundTrip(v: AuthorReply, data: Text)
    requires v.Valid() && v.Fits() && v.Encode() <= data
    ensures DecodeReply(data) == Ok(v)
  {
    var fields := [v.serverMsg, v.data] + v.args;
    PrefixSplit(v.Fixed() + ArgLens(v.args), Flatten(fields), data);
    PrefixSplit(v.Fixed(), ArgLens(v.args), data);
    var argCnt := |v.args|;
    assert data[1] == v.Fixed()[1] == argCnt;
    ArgLensRead(v.args, data[6..]);
    BE16Iff(data[2], data[3], |v.serverMsg|);
    BE16Iff(data[4], data[5], |v.data|);
    assert LensOf(fields) == [FromBE16(data[2], data[3]), FromBE16(data[4], data[5])] + LensAt(data[6..], argCnt);
    assert Drop(data[6..], argCnt) == data[6 + argCnt..];
    ChopIff(Drop(data[6..], argCnt), LensOf(fields), fields);
    assert fields[2..] == v.args;
  }

  /** Lengths that do not fit wrap silently: a valid reply is read back from its encoding exactly when they fit. */
  lemma ReplyEncodedIff(v: AuthorReply)
    requires v.Valid()
    ensures DecodeReply(v.Encode()) == Ok(v) <==> v.Fits()
  {
    if v.Fits() {
      ReplyRoundTrip(v, v.Encode());
    }
    if DecodeReply(v.Encode()).Ok? {
      ReplySound(v.Encode());
    }
  }

  /** A reply with 256 arguments is read back without any. */
  lemma ArgumentsLost() returns (v: AuthorReply)
    ensures v.Valid() && |v.args| == 256 && DecodeReply(v.Encode()) == Ok(AuthorReply(AUTHOR_PASS_ADD, [], [], []))
  {
    v := AuthorReply(AUTHOR_PASS_ADD, seq(256, i => [97, 61]), [], []);
    var w := AuthorReply(AUTHOR_PASS_ADD, [], [], []);
    FlattenPast2([], [], []);
    assert v.Fixed() == w.Fixed() == w.Encode();
    assert w.Encode() <= v.Encode();
    ReplyRoundTrip(w, v.Encode());
  }

  predicate ReplyOverruns(data: Text) {
    |data| >= 6 &&
    Sum([FromBE16(data[2], data[3]), FromBE16(data[4], data[5])] + LensAt(data[6..], data[1])) >
    |Drop(data[6..], data[1])|
  }

  lemma ReplyBadSecret(data: Text)
    ensures DecodeReply(data).BadSecret? <==> ReplyOverruns(data)
  {
    if |data| >= 6 {
      ChopTotal(Drop(data[6..], data[1]),
                [FromBE16(data[2], data[3]), FromBE16(data[4], data[5])] + LensAt(data[6..], data[1]));
    }
  }
}
