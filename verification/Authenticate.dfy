/** authenticate.go: the START, CONTINUE and REPLY bodies of section 5 of RFC 8907. */
module Authenticate {
  import opened Bytes
  import opened Fields
  import opened ReadBuffers

  // ---- START (section 5.1) ----

  datatype AuthenStart = AuthenStart(action: byte, privLvl: byte, atype: byte, service: byte,
                                     user: Text, port: Text, remAddr: Text, data: Text) {
    predicate Valid() {
      atype != 0 && ValidAction(action) && ValidPrivLvl(privLvl) && ValidAuthenType(atype) && ValidService(service) &&
      AllAscii(user) && AllAscii(port) && AllAscii(remAddr) && (atype == TYPE_ASCII ==> AllAscii(data))
    }

    /** Every length fits its one-byte slot. */
    predicate Fits() { |user| <= 255 && |port| <= 255 && |remAddr| <= 255 && |data| <= 255 }

    function Fixed(): Text {
      [action, privLvl, atype, service, Low8(|user|), Low8(|port|), Low8(|remAddr|), Low8(|data|)]
    }

    function Encode(): Text { Fixed() + Flatten([user, port, remAddr, data]) }

    function Marshal(): Option<Text> { if Valid() then Some(Encode()) else None }
  }

  function DecodeStart(data: Text): Decoded<AuthenStart> {
    if |data| < 8 then TooShort else
    var lens: seq<nat> := [data[4], data[5], data[6], data[7]];
    var f := Chop(data[8..], lens);
    var v := AuthenStart(data[0], data[1], data[2], data[3], f[0], f[1], f[2], f[3]);
    if Sum(LensOf(f)) != Sum(lens) then BadSecret else if v.Valid() then Ok(v) else Invalid
  }

  method UnmarshalStart(data: Text) returns (r: Decoded<AuthenStart>)
    ensures r == DecodeStart(data)
  {
    if |data| < 8 {
      return TooShort;
    }
    var buf := new ReadBuffer(data[4..]);
    var userLen := buf.Byte();
    var portLen := buf.Byte();
    var remAddrLen := buf.Byte();
    var dataLen := buf.Byte();
    assert buf.rest == data[8..];
    var user := buf.String(userLen);
    var port := buf.String(portLen);
    var remAddr := buf.String(remAddrLen);
    var dat := buf.String(dataLen);
    ghost var lens: seq<nat> := [userLen, portLen, remAddrLen, dataLen];
    Chop4(data[8..], lens);
    SumOf4(lens);
    SumOf4(LensOf([user, port, remAddr, dat]));
    if |user| + |port| + |remAddr| + |dat| != userLen as nat + portLen + remAddrLen + dataLen {
      return BadSecret;
    }
    var v := AuthenStart(data[0], data[1], data[2], data[3], user, port, remAddr, dat);
    r := if v.Valid() then Ok(v) else Invalid;
  }

  /** A decoded START is valid and its encoding opens the data it came from. */
  lemma StartSound(data: Text)
    requires DecodeStart(data).Ok?
    ensures var v := DecodeStart(data).value; v.Valid() && v.Fits() && v.Encode() <= data
  {
    var v := DecodeStart(data).value;
    var fields, lens: seq<nat> := [v.user, v.port, v.remAddr, v.data], [data[4], data[5], data[6], data[7]];
    assert LensOf(fields) == lens && Flatten(fields) <= data[8..] by {
      assert Chop(data[8..], lens) == fields;
      ChopIff(data[8..], lens, fields);
    }
    assert v.Fits() && v.Fixed() <= data by {
      var l := LensOf(fields);
      assert l[0] == |v.user| && l[1] == |v.port| && l[2] == |v.remAddr| && l[3] == |v.data|;
    }
    PrefixSplit(v.Fixed(), Flatten(fields), data);
  }

  /** A valid START whose lengths fit is read back, whatever follows its encoding. */
  lemma StartRoundTrip(v: AuthenStart, data: Text)
    requires v.Valid() && v.Fits() && v.Encode() <= data
    ensures DecodeStart(data) == Ok(v)
  {
    var fields := [v.user, v.port, v.remAddr, v.data];
    PrefixSplit(v.Fixed(), Flatten(fields), data);
    assert LensOf(fields) == [data[4], data[5], data[6], data[7]];
    ChopIff(data[8..], LensOf(fields), fields);
  }

  /** Lengths that do not fit wrap silently: a valid START is read back from its encoding exactly when they fit. */
  lemma StartEncodedIff(v: AuthenStart)
    requires v.Valid()
    ensures DecodeStart(v.Encode()) == Ok(v) <==> v.Fits()
  {
    if v.Fits() {
      StartRoundTrip(v, v.Encode());
    }
    if DecodeStart(v.Encode()).Ok? {
      StartSound(v.Encode());
    }
  }

  /** The field lengths a START announces add up to more than the bytes behind its fixed part. */
  predicate StartOverruns(data: Text) {
    |data| >= 8 && Sum([data[4], data[5], data[6], data[7]]) > |data| - 8
  }

  /** A START is taken for a bad secret exactly when it announces more bytes than there are. */
  lemma StartBadSecret(data: Text)
    ensures DecodeStart(data).BadSecret? <==> StartOverruns(data)
  {
    if |data| >= 8 {
      ChopTotal(data[8..], [data[4], data[5], data[6], data[7]]);
    }
  }

  // ---- CONTINUE (section 5.3) ----

  datatype AuthenContinue = AuthenContinue(flags: byte, userMessage: Text, data: Text) {
    predicate Valid() { AllAscii(userMessage) }

    predicate Fits() { |userMessage| <= 65535 && |data| <= 65535 }

    predicate Abort() { HasBit(flags, 1) }

    function Fixed(): Text { [Hi8(|userMessage|), Low8(|userMessage|), Hi8(|data|), Low8(|data|), flags] }

    function Encode(): Text { Fixed() + Flatten([userMessage, data]) }

    function Marshal(): Option<Text> { if Valid() then Some(Encode()) else None }
  }

  function DecodeContinue(data: Text): Decoded<AuthenContinue> {
    if |data| < 5 then TooShort else
    var lens: seq<nat> := [FromBE16(data[0], data[1]), FromBE16(data[2], data[3])];
    var f := Chop(data[5..], lens);
    var v := AuthenContinue(data[4], f[0], f[1]);
    if Sum(LensOf(f)) != Sum(lens) then BadSecret else if v.Valid() then Ok(v) else Invalid
  }

  method UnmarshalContinue(data: Text) returns (r: Decoded<AuthenContinue>)
    ensures r == DecodeContinue(data)
  {
    if |data| < 5 {
      return TooShort;
    }
    var buf := new ReadBuffer(data);
    var userMessageLen := buf.Uint16();
    var dataLen := buf.Uint16();
    var flags := buf.Byte();
    assert buf.rest == data[5..];
    var userMessage := buf.String(userMessageLen);
    var dat := buf.String(dataLen);
    Chop2(data[5..], [userMessageLen, dataLen]);
    SumOf2([userMessageLen, dataLen]);
    SumOf2(LensOf([userMessage, dat]));
    if |userMessage| + |dat| != userMessageLen as nat + dataLen {
      return BadSecret;
    }
    var v := AuthenContinue(flags, userMessage, dat);
    r := if v.Valid() then Ok(v) else Invalid;
  }

  lemma ContinueFixed(v: AuthenContinue, data: Text)
    requires |data| >= 5 && v.flags == data[4]
    requires |v.userMessage| == FromBE16(data[0], data[1]) && |v.data| == FromBE16(data[2], data[3])
    ensures v.Fits() && v.Fixed() <= data
  {
    BE16Iff(data[0], data[1], |v.userMessage|);
    BE16Iff(data[2], data[3], |v.data|);
  }

  lemma ContinueSound(data: Text)
    requires DecodeContinue(data).Ok?
    ensures var v := DecodeContinue(data).value; v.Valid() && v.Fits() && v.Encode() <= data
  {
    var v := DecodeContinue(data).value;
    var fields, lens: seq<nat> := [v.userMessage, v.data], [FromBE16(data[0], data[1]), FromBE16(data[2], data[3])];
    assert LensOf(fields) == lens && Flatten(fields) <= data[5..] by {
      assert Chop(data[5..], lens) == fields;
      ChopIff(data[5..], lens, fields);
    }
    assert LensOf(fields)[0] == |v.userMessage| && LensOf(fields)[1] == |v.data|;
    ContinueFixed(v, data);
    PrefixSplit(v.Fixed(), Flatten(fields), data);
  }

  lemma ContinueRoundTrip(v: AuthenContinue, data: Text)
    requires v.Valid() && v.Fits() && v.Encode() <= data
    ensures DecodeContinue(data) == Ok(v)
  {
    var fields := [v.userMessage, v.data];
    PrefixSplit(v.Fixed(), Flatten(fields), data);
    BE16Iff(data[0], data[1], |v.userMessage|);
    BE16Iff(data[2], data[3], |v.data|);
    assert LensOf(fields) == [FromBE16(data[0], data[1]), FromBE16(data[2], data[3])];
    ChopIff(data[5..], LensOf(fields), fields);
  }

  /** Lengths that do not fit wrap silently: a valid CONTINUE is read back from its encoding exactly when they fit. */
  lemma ContinueEncodedIff(v: AuthenContinue)
    requires v.Valid()
    ensures DecodeContinue(v.Encode()) == Ok(v) <==> v.Fits()
  {
    if v.Fits() {
      ContinueRoundTrip(v, v.Encode());
    }
    if DecodeContinue(v.Encode()).Ok? {
      ContinueSound(v.Encode());
    }
  }

  predicate ContinueOverruns(data: Text) {
    |data| >= 5 && Sum([FromBE16(data[0], data[1]), FromBE16(data[2], data[3])]) > |data| - 5
  }

  lemma ContinueBadSecret(data: Text)
    ensures DecodeContinue(data).BadSecret? <==> ContinueOverruns(data)
  {
    if |data| >= 5 {
      ChopTotal(data[5..], [FromBE16(data[0], data[1]), FromBE16(data[2], data[3])]);
    }
  }

  // ---- REPLY (section 5.2) ----

  datatype AuthenReply = AuthenReply(status: byte, flags: byte, serverMsg: Text, data: Text) {
    predicate Valid() { ValidAuthenStatus(status) }

    predicate Fits() { |serverMsg| <= 65535 && |data| <= 65535 }

    function Fixed(): Text { [status, flags, Hi8(|serverMsg|), Low8(|serverMsg|), Hi8(|data|), Low8(|data|)] }

    function Encode(): Text { Fixed() + Flatten([serverMsg, data]) }

    function Marshal(): Option<Text> { if Valid() then Some(Encode()) else None }
  }

  /** The minimum size test admits five bytes, one less than the fixed part of a REPLY. */
  function DecodeReply(data: Text): Decoded<AuthenReply> {
    if |data| < 5 then TooShort else
    var lens: seq<nat> := [Uint16At(data[2..]), Uint16At(data[4..])];
    var f := Chop(Drop(data, 6), lens);
    var v := AuthenReply(data[0], data[1], f[0], f[1]);
    if Sum(LensOf(f)) != Sum(lens) then BadSecret else if v.Valid() then Ok(v) else Invalid
  }

  method UnmarshalReply(data: Text) returns (r: Decoded<AuthenReply>)
    ensures r == DecodeReply(data)
  {
    if |data| < 5 {
      return TooShort;
    }
    var buf := new ReadBuffer(data[2..]);
    var serverMsgLen := buf.Uint16();
    assert buf.rest == data[4..];
    var dataLen := buf.Uint16();
    assert buf.rest == Drop(data, 6);
    var serverMsg := buf.String(serverMsgLen);
    var dat := buf.String(dataLen);
    Chop2(Drop(data, 6), [serverMsgLen, dataLen]);
    SumOf2([serverMsgLen, dataLen]);
    SumOf2(LensOf([serverMsg, dat]));
    if |serverMsg| + |dat| != serverMsgLen as nat + dataLen {
      return BadSecret;
    }
    var v := AuthenReply(data[0], data[1], serverMsg, dat);
    r := if v.Valid() then Ok(v) else Invalid;
  }

  lemma ReplyFixed(v: AuthenReply, data: Text)
    requires |data| >= 6 && v.status == data[0] && v.flags == data[1]
    requires |v.serverMsg| == FromBE16(data[2], data[3]) && |v.data| == FromBE16(data[4], data[5])
    ensures v.Fits() && v.Fixed() <= data
  {
    BE16Iff(data[2], data[3], |v.serverMsg|);
    BE16Iff(data[4], data[5], |v.data|);
  }

  /** As for the other bodies, on inputs that hold the whole fixed part. */
  lemma ReplySound(data: Text)
    requires DecodeReply(data).Ok? && |data| >= 6
    ensures var v := DecodeReply(data).value; v.Valid() && v.Fits() && v.Encode() <= data
  {
    var v := DecodeReply(data).value;
    var fields, lens: seq<nat> := [v.serverMsg, v.data], [FromBE16(data[2], data[3]), FromBE16(data[4], data[5])];
    assert LensOf(fields) == lens && Flatten(fields) <= data[6..] by {
      assert Chop(data[6..], lens) == fields;
      ChopIff(data[6..], lens, fields);
    }
    assert LensOf(fields)[0] == |v.serverMsg| && LensOf(fields)[1] == |v.data|;
    ReplyFixed(v, data);
    PrefixSplit(v.Fixed(), Flatten(fields), data);
  }

  lemma ReplyRoundTrip(v: AuthenReply, data: Text)
    requires v.Valid() && v.Fits() && v.Encode() <= data
    ensures DecodeReply(data) == Ok(v)
  {
    var fields := [v.serverMsg, v.data];
    PrefixSplit(v.Fixed(), Flatten(fields), data);
    BE16Iff(data[2], data[3], |v.serverMsg|);
    BE16Iff(data[4], data[5], |v.data|);
    assert LensOf(fields) == [FromBE16(data[2], data[3]), FromBE16(data[4], data[5])];
    ChopIff(data[6..], LensOf(fields), fields);
  }

  /** Lengths that do not fit wrap silently: a valid REPLY is read back from its encoding exactly when they fit. */
  lemma ReplyEncodedIff(v: AuthenReply)
    requires v.Valid()
    ensures DecodeReply(v.Encode()) == Ok(v) <==> v.Fits()
  {
    if v.Fits() {
      ReplyRoundTrip(v, v.Encode());
    }
    if DecodeReply(v.Encode()).Ok? {
      ReplySound(v.Encode());
    }
  }

  predicate ReplyOverruns(data: Text) {
    |data| >= 5 && Sum([Uint16At(data[2..]), Uint16At(data[4..])]) > |Drop(data, 6)|
  }

  lemma ReplyBadSecret(data: Text)
    ensures DecodeReply(data).BadSecret? <==> ReplyOverruns(data)
  {
    if |data| >= 5 {
      ChopTotal(Drop(data, 6), [Uint16At(data[2..]), Uint16At(data[4..])]);
    }
  }

  /** Five bytes decode exactly when the status is good and the three length bytes are zero. */
  lemma ShortReplyDecodes(data: Text)
    requires |data| == 5
    ensures DecodeReply(data).Ok? <==> ValidAuthenStatus(data[0]) && data[2] == 0 && data[3] == 0 && data[4] == 0
    ensures DecodeReply(data).Ok? ==> DecodeReply(data).value == AuthenReply(data[0], data[1], [], [])
  {
    var lens: seq<nat> := [Uint16At(data[2..]), Uint16At(data[4..])];
    assert lens[0] == FromBE16(data[2], data[3]) && lens[1] == data[4];
    BE16Iff(data[2], data[3], 0);
    assert Drop(data, 6) == [];
    SumOf2(lens);
    Chop2([], lens);
    assert Chop([], lens) == [[], []];
    SumOf2(LensOf([[], []]));
  }

  lemma EmptyReplyEncodes(status: byte, flags: byte)
    ensures AuthenReply(status, flags, [], []).Encode() == [status, flags, 0, 0, 0, 0]
  {
    var v := AuthenReply(status, flags, [], []);
    FlattenOf2([v.serverMsg, v.data]);
    assert Hi8(0) == 0 && Low8(0) == 0;
    assert v.Fixed() == [status, flags, 0, 0, 0, 0];
  }

  /** Re-encoding such a REPLY gives its five bytes and one more. */
  lemma ShortReplyGrows(data: Text)
    requires |data| == 5 && DecodeReply(data).Ok?
    ensures DecodeReply(data).value.Encode() == data + [0]
  {
    ShortReplyDecodes(data);
    EmptyReplyEncodes(data[0], data[1]);
  }

  // ---- telling START and CONTINUE apart ----

  /** Where the data of a START begins: behind its user, port and remote address. */
  function StartDataAt(data: Text): nat
    requires |data| >= 8
  {
    8 + data[4] as nat + data[5] + data[6]
  }

  /** The bytes are those of a START: good fixed fields, every announced field there, and the text fields ASCII. */
  predicate StartReadable(data: Text) {
    |data| >= 8 &&
    ValidAction(data[0]) && ValidPrivLvl(data[1]) && 1 <= data[2] && ValidAuthenType(data[2]) &&
        ValidService(data[3]) &&
    StartDataAt(data) + data[7] <= |data| && AllAscii(data[8..StartDataAt(data)]) &&
    (data[2] == TYPE_ASCII ==> AllAscii(StartData(data)))
  }

  /** What a START would carry as its data. */
  function StartData(data: Text): Text
    requires |data| >= 8 && StartDataAt(data) + data[7] <= |data|
  {
    data[StartDataAt(data)..StartDataAt(data) + data[7]]
  }

  /** The fields of a START whose announced lengths are all there. */
  lemma StartPieces(data: Text)
    requires |data| >= 8 && StartDataAt(data) + data[7] <= |data|
    ensures var f := Chop(data[8..], [data[4], data[5], data[6], data[7]]);
            f[0] + f[1] + f[2] == data[8..StartDataAt(data)] && f[3] == StartData(data)
  {
    var lens: seq<nat> := [data[4], data[5], data[6], data[7]];
    SumOf4(lens);
    Pieces4(data[8..], lens);
    var f := Chop(data[8..], lens);
    SplitAt(f[0] + f[1] + f[2], f[3], data, StartDataAt(data));
  }

  lemma SplitAt(a: Text, b: Text, data: Text, k: nat)
    requires k == 8 + |a| && k + |b| <= |data| && a + b == Take(data[8..], |a| + |b|)
    ensures a == data[8..k] && b == data[k..k + |b|]
  {
    assert forall i :: 0 <= i < |a| ==> (a + b)[i] == a[i] && data[8..][i] == data[8 + i];
    assert forall i :: 0 <= i < |b| ==> (a + b)[|a| + i] == b[i] && data[8..][|a| + i] == data[k + i];
  }

  lemma AsciiAppend(a: Text, b: Text)
    ensures AllAscii(a + b) <==> AllAscii(a) && AllAscii(b)
  {
    assert forall i :: 0 <= i < |a| ==> (a + b)[i] == a[i];
    assert forall i :: 0 <= i < |b| ==> (a + b)[|a| + i] == b[i];
  }

  /** Exactly which bodies decode as a START, and what its data then is. */
  lemma StartDecodesIff(data: Text)
    ensures DecodeStart(data).Ok? <==> StartReadable(data)
    ensures StartReadable(data) ==>
              var v := DecodeStart(data).value; v.action == data[0] && v.atype == data[2] && v.data == StartData(data)
  {
    if |data| >= 8 {
      StartBadSecret(data);
      SumOf4([data[4], data[5], data[6], data[7]]);
      if StartDataAt(data) + data[7] <= |data| {
        StartPieces(data);
        var f := Chop(data[8..], [data[4], data[5], data[6], data[7]]);
        AsciiAppend(f[0], f[1]);
        AsciiAppend(f[0] + f[1], f[2]);
      }
    }
  }

  /** The bytes are those of a CONTINUE: both announced fields are there, and the message is ASCII. */
  predicate ContinueReadable(data: Text) {
    |data| >= 5 &&
    var m, d := FromBE16(data[0], data[1]), FromBE16(data[2], data[3]);
    5 + m as nat + d <= |data| && AllAscii(data[5..5 + m as nat])
  }

  /** Exactly which bodies decode as a CONTINUE. */
  lemma ContinueDecodesIff(data: Text)
    ensures DecodeContinue(data).Ok? <==> ContinueReadable(data)
  {
    if |data| >= 5 {
      var m, d := FromBE16(data[0], data[1]), FromBE16(data[2], data[3]);
      ContinueBadSecret(data);
      SumOf2([m, d]);
      Chop2(data[5..], [m, d]);
      if 5 + m + d <= |data| {
        assert data[5..][..m] == data[5..5 + m];
      }
    }
  }

  lemma ContinueSizes(data: Text)
    requires DecodeContinue(data).Ok?
    ensures var v := DecodeContinue(data).value;
            && |v.userMessage| == FromBE16(data[0], data[1]) && |v.data| == FromBE16(data[2], data[3])
            && v.flags == data[4]
  {
    var m, d := FromBE16(data[0], data[1]), FromBE16(data[2], data[3]);
    ContinueBadSecret(data);
    SumOf2([m, d]);
    Chop2(data[5..], [m, d]);
  }

  /** A CONTINUE whose message or whose data is under 256 bytes is never a START: an action or a type would be zero. */
  lemma ContinueIsNotStart(data: Text)
    requires DecodeContinue(data).Ok?
    requires |DecodeContinue(data).value.userMessage| < 256 || |DecodeContinue(data).value.data| < 256
    ensures !StartReadable(data)
  {
    ContinueSizes(data);
  }

  /** A body that is both carries less than 256 bytes as a START's data and at least 256 as a CONTINUE's message. */
  lemma BothDiffer(data: Text)
    requires DecodeContinue(data).Ok? && StartReadable(data)
    ensures |StartData(data)| <= 255 && |DecodeContinue(data).value.userMessage| >= 256
  {
    ContinueSizes(data);
  }

  /** Exactly when an ASCII-login START is also a CONTINUE, and then with which flags. */
  lemma StartIsContinueIff(data: Text)
    requires DecodeStart(data).Ok?
    requires DecodeStart(data).value.action == ACTION_LOGIN && DecodeStart(data).value.atype == TYPE_ASCII
    ensures DecodeContinue(data).Ok? <==>
              517 + data[1] as nat + data[3] <= |data| && AllAscii(data[5..261 + data[1] as nat])
    ensures DecodeContinue(data).Ok? ==> DecodeContinue(data).value.flags == data[4]
  {
    StartDecodesIff(data);
    LoginReadableIff(data);
    ContinueDecodesIff(data);
    if DecodeContinue(data).Ok? {
      ContinueSizes(data);
    }
  }

  lemma LoginReadableIff(data: Text)
    requires |data| >= 8 && data[0] == ACTION_LOGIN && data[2] == TYPE_ASCII
    ensures ContinueReadable(data) <==>
              517 + data[1] as nat + data[3] <= |data| && AllAscii(data[5..261 + data[1] as nat])
  {
    assert FromBE16(data[0], data[1]) == 256 + data[1] as nat && FromBE16(data[2], data[3]) == 256 + data[3] as nat;
  }

  /** So such a START under 517 bytes is never a CONTINUE. */
  lemma StartIsNotContinue(data: Text)
    requires DecodeStart(data).Ok? && |data| < 517
    requires DecodeStart(data).value.action == ACTION_LOGIN && DecodeStart(data).value.atype == TYPE_ASCII
    ensures DecodeContinue(data).BadSecret?
  {
    ContinueBadSecret(data);
    SumOf2([FromBE16(data[0], data[1]), FromBE16(data[2], data[3])]);
  }

  /** A body of 517 bytes that is both an ASCII-login START without data and a CONTINUE with these flags. */
  lemma BothStartAndContinue(flags: byte) returns (data: Text)
    requires flags <= 127
    ensures |data| == 517 && DecodeStart(data).Ok? && DecodeContinue(data).Ok?
    ensures DecodeStart(data).value.action == ACTION_LOGIN && DecodeStart(data).value.atype == TYPE_ASCII
    ensures DecodeStart(data).value.data == [] && |DecodeContinue(data).value.userMessage| == 256
    ensures DecodeContinue(data).value.flags == flags
  {
    data := BothBytes(flags);
    AsciiSlice(data, 8, StartDataAt(data));
    assert StartData(data) == [];
    StartDecodesIff(data);
    BothContinue(data);
  }

  lemma BothBytes(flags: byte) returns (data: Text)
    requires flags <= 127
    ensures |data| == 517 && AllAscii(data) && data[0] == 1 && data[1] == 0 && data[2] == 1 && data[3] == 0
    ensures data[4] == flags && data[5] == 0 && data[6] == 0 && data[7] == 0
  {
    data := [1, 0, 1, 0, flags, 0, 0, 0] + seq(509, i => 97);
  }

  lemma BothContinue(data: Text)
    requires |data| == 517 && AllAscii(data) && data[0] == 1 && data[1] == 0 && data[2] == 1 && data[3] == 0
    ensures DecodeContinue(data).Ok? && |DecodeContinue(data).value.userMessage| == 256
    ensures DecodeContinue(data).value.flags == data[4]
  {
    assert FromBE16(data[0], data[1]) == 256 && FromBE16(data[2], data[3]) == 256;
    AsciiSlice(data, 5, 261);
    ContinueDecodesIff(data);
    ContinueSizes(data);
  }

  lemma AsciiSlice(data: Text, i: nat, j: nat)
    requires AllAscii(data) && i <= j <= |data|
    ensures AllAscii(data[i..j])
  {
  }
}
