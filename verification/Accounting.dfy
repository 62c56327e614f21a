/** accounting.go: the REQUEST and REPLY bodies of section 7 of RFC 8907. */
module Accounting {
  import opened Arguments
  import opened Bytes
  import opened Fields
  import opened ReadBuffers

  // ---- REQUEST (section 7.1) ----

  datatype AcctRequest = AcctRequest(flags: byte, method_: byte, privLvl: byte, atype: byte, service: byte,
                                     user: Text, port: Text, remAddr: Text, args: seq<Text>) {
    predicate Valid() {
      ValidMethod(method_) && ValidPrivLvl(privLvl) && ValidAuthenType(atype) && ValidService(service) &&
      AllAscii(user) && AllAscii(port) && AllAscii(remAddr) && ValidAcctFlags(flags) && ValidArgs(args)
    }

    predicate Fits() { |user| <= 255 && |port| <= 255 && |remAddr| <= 255 && |args| <= 255 }

    function Fixed(): Text {
      [flags, method_, privLvl, atype, service, Low8(|user|), Low8(|port|), Low8(|remAddr|), Low8(|args|)]
    }

    function Encode(): Text { Fixed() + ArgLens(args) + Flatten([user, port, remAddr] + args) }

    function Marshal(): Option<Text> { if Valid() then Some(Encode()) else None }
  }

  method MarshalRequest(v: AcctRequest) returns (r: Option<Text>)
    ensures r == v.Marshal()
  {
    if !v.Valid() {
      return None;
    }
    var buf := v.Fixed();
    buf := AppendArgLens(buf, v.args);
    ghost var head := buf;
    buf := buf + v.user;
    buf := buf + v.port;
    buf := buf + v.remAddr;
    FlattenPast3(v.user, v.port, v.remAddr, v.args);
    assert buf == head + (v.user + v.port + v.remAddr);
    buf := AppendArgs(buf, v.args);
    assert buf == head + (v.user + v.port + v.remAddr + Flatten(v.args));
    r := Some(buf);
  }

  function DecodeRequest(data: Text): Decoded<AcctRequest> {
    if |data| < 9 then TooShort else
    var argCnt := data[8];
    var lens := [data[5], data[6], data[7]] + LensAt(data[9..], argCnt);
    var f := Chop(Drop(data[9..], argCnt), lens);
    var v := AcctRequest(data[0], data[1], data[2], data[3], data[4], f[0], f[1], f[2], f[3..]);
    if Sum(LensOf(f)) != Sum(lens) then BadSecret else if v.Valid() then Ok(v) else Invalid
  }

  method UnmarshalRequest(data: Text) returns (r: Decoded<AcctRequest>)
    ensures r == DecodeRequest(data)
  {
    if |data| < 9 {
      return TooShort;
    }
    var buf := new ReadBuffer(data[9..]);
    var user, port, remAddr, args, matched := ReadThreeAndArgs(buf, data[5], data[6], data[7], data[8]);
    assert ([user, port, remAddr] + args)[3..] == args;
    if !matched {
      return BadSecret;
    }
    var v := AcctRequest(data[0], data[1], data[2], data[3], data[4], user, port, remAddr, args);
    r := if v.Valid() then Ok(v) else Invalid;
  }

  lemma RequestFixed(v: AcctRequest, data: Text)
    requires |data| >= 9 && v.flags == data[0] && v.method_ == data[1] && v.privLvl == data[2] &&
             v.atype == data[3] && v.service == data[4]
    requires |v.user| == data[5] && |v.port| == data[6] && |v.remAddr| == data[7] && |v.args| == data[8]
    ensures v.Fits() && v.Fixed() == data[..9]
  {
    assert data[..5] == [v.flags, v.method_, v.privLvl, v.atype, v.service];
    assert data[..9] == data[..5] + [data[5], data[6], data[7], data[8]];
  }

  /** The decoded fields stand behind the fixed part, with the announced lengths. */
  lemma RequestFields(data: Text, v: AcctRequest)
    requires DecodeRequest(data) == Ok(v)
    ensures v.Valid() && |data| >= 9 && v.flags == data[0] && v.method_ == data[1] && v.privLvl == data[2] &&
            v.atype == data[3] && v.service == data[4]
    ensures |v.user| == data[5] && |v.port| == data[6] && |v.remAddr| == data[7] && |v.args| == data[8] <= |data[9..]|
    ensures ArgLens(v.args) <= data[9..] && Flatten([v.user, v.port, v.remAddr] + v.args) <= data[9..][|v.args|..]
  {
    var lead := [v.user, v.port, v.remAddr];
    LeadAndArgsSound(data[9..], data[8], [data[5], data[6], data[7]], lead, v.args);
    assert LensOf(lead)[0] == |v.user| && LensOf(lead)[1] == |v.port| && LensOf(lead)[2] == |v.remAddr|;
  }

  lemma RequestEncoded(v: AcctRequest, data: Text)
    requires |data| >= 9 && v.flags == data[0] && v.method_ == data[1] && v.privLvl == data[2] &&
             v.atype == data[3] && v.service == data[4]
    requires |v.user| == data[5] && |v.port| == data[6] && |v.remAddr| == data[7] && |v.args| == data[8] <= |data[9..]|
    requires ArgLens(v.args) <= data[9..] && Flatten([v.user, v.port, v.remAddr] + v.args) <= data[9..][|v.args|..]
    ensures v.Fits() && v.Encode() <= data
  {
    RequestFixed(v, data);
    JoinPrefix(v.Fixed(), ArgLens(v.args), Flatten([v.user, v.port, v.remAddr] + v.args), data);
  }

  lemma RequestSound(data: Text)
    requires DecodeRequest(data).Ok?
    ensures var v := DecodeRequest(data).value; v.Valid() && v.Fits() && v.Encode() <= data
  {
    var v := DecodeRequest(data).value;
    RequestFields(data, v);
    RequestEncoded(v, data);
  }

  lemma RequestRoundTrip(v: AcctRequest, data: Text)
    requires v.Valid() && v.Fits() && v.Encode() <= data
    ensures DecodeRequest(data) == Ok(v)
  {
    var fields := [v.user, v.port, v.remAddr] + v.args;
    PrefixSplit(v.Fixed() + ArgLens(v.args), Flatten(fields), data);
    PrefixSplit(v.Fixed(), ArgLens(v.args), data);
    var argCnt := |v.args|;
    assert data[8] == v.Fixed()[8] == argCnt;
    ArgLensRead(v.args, data[9..]);
    assert LensOf(fields) == [data[5], data[6], data[7]] + LensAt(data[9..], argCnt);
    assert Drop(data[9..], argCnt) == data[9 + argCnt..];
    ChopIff(Drop(data[9..], argCnt), LensOf(fields), fields);
    assert fields[3..] == v.args;
  }

  /** Lengths that do not fit wrap silently: a valid request is read back from its encoding exactly when they fit. */
  lemma RequestEncodedIff(v: AcctRequest)
    requires v.Valid()
    ensures DecodeRequest(v.Encode()) == Ok(v) <==> v.Fits()
  {
    if v.Fits() {
      RequestRoundTrip(v, v.Encode());
    }
    if DecodeRequest(v.Encode()).Ok? {
      RequestSound(v.Encode());
    }
  }

  predicate RequestOverruns(data: Text) {
    |data| >= 9 && Sum([data[5], data[6], data[7]] + LensAt(data[9..], data[8])) > |Drop(data[9..], data[8])|
  }

  lemma RequestBadSecret(data: Text)
    ensures DecodeRequest(data).BadSecret? <==> RequestOverruns(data)
  {
    if |data| >= 9 {
      ChopTotal(Drop(data[9..], data[8]), [data[5], data[6], data[7]] + LensAt(data[9..], data[8]));
    }
  }

  // ---- REPLY (section 7.2) ----

  datatype AcctReply = AcctReply(status: byte, serverMsg: Text, data: Text) {
    predicate Valid() { ValidAcctStatus(status) && AllAscii(serverMsg) && AllAscii(data) }

    predicate Fits() { |serverMsg| <= 65535 && |data| <= 65535 }

    function Fixed(): Text { [Hi8(|serverMsg|), Low8(|serverMsg|), Hi8(|data|), Low8(|data|), status] }

    function Encode(): Text { Fixed() + Flatten([serverMsg, data]) }

    function Marshal(): Option<Text> { if Valid() then Some(Encode()) else None }
  }

  function DecodeReply(data: Text): Decoded<AcctReply> {
    if |data| < 5 then TooShort else
    var lens: seq<nat> := [FromBE16(data[0], data[1]), FromBE16(data[2], data[3])];
    var f := Chop(data[5..], lens);
    var v := AcctReply(data[4], f[0], f[1]);
    if Sum(LensOf(f)) != Sum(lens) then BadSecret else if v.Valid() then Ok(v) else Invalid
  }

  method UnmarshalReply(data: Text) returns (r: Decoded<AcctReply>)
    ensures r == DecodeReply(data)
  {
    if |data| < 5 {
      return TooShort;
    }
    var buf := new ReadBuffer(data);
    var serverMsgLen := buf.Uint16();
    var dataLen := buf.Uint16();
    var status := buf.Byte();
    assert buf.rest == data[5..];
    var serverMsg := buf.String(serverMsgLen);
    var dat := buf.String(dataLen);
    Chop2(data[5..], [serverMsgLen, dataLen]);
    SumOf2([serverMsgLen, dataLen]);
    SumOf2(LensOf([serverMsg, dat]));
    if |serverMsg| + |dat| != serverMsgLen as nat + dataLen {
      return BadSecret;
    }
    var v := AcctReply(status, serverMsg, dat);
    r := if v.Valid() then Ok(v) else Invalid;
  }

  lemma ReplyFixed(v: AcctReply, data: Text)
    requires |data| >= 5 && v.status == data[4]
    requires |v.serverMsg| == FromBE16(data[0], data[1]) && |v.data| == FromBE16(data[2], data[3])
    ensures v.Fits() && v.Fixed() <= data
  {
    BE16Iff(data[0], data[1], |v.serverMsg|);
    BE16Iff(data[2], data[3], |v.data|);
  }

  lemma ReplySound(data: Text)
    requires DecodeReply(data).Ok?
    ensures var v := DecodeReply(data).value; v.Valid() && v.Fits() && v.Encode() <= data
  {
    var v := DecodeReply(data).value;
    var fields, lens: seq<nat> := [v.serverMsg, v.data], [FromBE16(data[0], data[1]), FromBE16(data[2], data[3])];
    assert LensOf(fields) == lens && Flatten(fields) <= data[5..] by {
      assert Chop(data[5..], lens) == fields;
      ChopIff(data[5..], lens, fields);
    }
    assert LensOf(fields)[0] == |v.serverMsg| && LensOf(fields)[1] == |v.data|;
    ReplyFixed(v, data);
    PrefixSplit(v.Fixed(), Flatten(fields), data);
  }

  lemma ReplyRoundTrip(v: AcctReply, data: Text)
    requires v.Valid() && v.Fits() && v.Encode() <= data
    ensures DecodeReply(data) == Ok(v)
  {
    var fields := [v.serverMsg, v.data];
    PrefixSplit(v.Fixed(), Flatten(fields), data);
    BE16Iff(data[0], data[1], |v.serverMsg|);
    BE16Iff(data[2], data[3], |v.data|);
    assert LensOf(fields) == [FromBE16(data[0], data[1]), FromBE16(data[2], data[3])];
    ChopIff(data[5..], LensOf(fields), fields);
  }

  /** Lengths that do not fit wrap silently: a valid reply is read back from its encoding exactly when they fit. */
  lemma ReplyEncodedIff(v: AcctReply)
    requires v.Valid()
    ensures DecodeReply(v.Encode()) == Ok(v) <==> v.Fits()
  {
    if v.Fits() {
      ReplyRoundTrip(v, v.Encode());
    }
    if DecodeReply(v.Encode()).Ok? {
      ReplySound(v.Encode());
    }
  }

  predicate ReplyOverruns(data: Text) {
    |data| >= 5 && Sum([FromBE16(data[0], data[1]), FromBE16(data[2], data[3])]) > |data| - 5
  }

  lemma ReplyBadSecret(data: Text)
    ensures DecodeReply(data).BadSecret? <==> ReplyOverruns(data)
  {
    if |data| >= 5 {
      ChopTotal(data[5..], [FromBE16(data[0], data[1]), FromBE16(data[2], data[3])]);
    }
  }
}
