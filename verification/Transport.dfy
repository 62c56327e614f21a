/** crypt.go's crypter: packets framed on a byte stream, obfuscated, with the bad-secret guess. */
module Transport {
  import opened Arguments
  import opened Bytes
  import opened Crypt
  import opened Fields
  import opened Headers
  import opened ReadBuffers
  import Accounting
  import Authenticate
  import Authorize

  datatype Packet = Packet(header: Header, body: Text)

  // ---- the bad-secret guess ----

  /** Every body format of the packet's type announces more bytes than the body holds. */
  predicate Flagged(p: Packet) {
    !p.header.Unencrypted() &&
    match p.header.typ
    case 1 =>
      && Authenticate.StartOverruns(p.body)
      && Authenticate.ContinueOverruns(p.body)
      && Authenticate.ReplyOverruns(p.body)
    case 2 => Authorize.RequestOverruns(p.body) && Authorize.ReplyOverruns(p.body)
    case 3 => Accounting.RequestOverruns(p.body) && Accounting.ReplyOverruns(p.body)
    case _ => false
  }

  /** detectBadSecret tries the formats one by one and counts the mismatches. */
  method DetectBadSecret(p: Packet) returns (flagged: bool)
    ensures flagged == Flagged(p)
  {
    if p.header.Unencrypted() {
      return false;
    }
    var errCnt := 0;
    match p.header.typ {
      case 1 =>
        Authenticate.StartBadSecret(p.body);
        Authenticate.ContinueBadSecret(p.body);
        Authenticate.ReplyBadSecret(p.body);
        var as_ := Authenticate.UnmarshalStart(p.body);
        if as_.BadSecret? {
          errCnt := errCnt + 1;
        }
        var ac := Authenticate.UnmarshalContinue(p.body);
        if ac.BadSecret? {
          errCnt := errCnt + 1;
        }
        var ar := Authenticate.UnmarshalReply(p.body);
        if ar.BadSecret? {
          errCnt := errCnt + 1;
        }
        return errCnt == 3;
      case 2 =>
        Authorize.RequestBadSecret(p.body);
        Authorize.ReplyBadSecret(p.body);
        var ar := Authorize.UnmarshalRequest(p.body);
        if ar.BadSecret? {
          errCnt := errCnt + 1;
        }
        var arr := Authorize.UnmarshalReply(p.body);
        if arr.BadSecret? {
          errCnt := errCnt + 1;
        }
        return errCnt == 2;
      case 3 =>
        Accounting.RequestBadSecret(p.body);
        Accounting.ReplyBadSecret(p.body);
        var ar := Accounting.UnmarshalRequest(p.body);
        if ar.BadSecret? {
          errCnt := errCnt + 1;
        }
        var arr := Accounting.UnmarshalReply(p.body);
        if arr.BadSecret? {
          errCnt := errCnt + 1;
        }
        return errCnt == 2;
      case _ =>
        return false;
    }
  }

  /** The body decodes under some format of the packet's type. */
  predicate ValidlyEncoded(p: Packet) {
    match p.header.typ
    case 1 =>
      || Authenticate.DecodeStart(p.body).Ok?
      || Authenticate.DecodeContinue(p.body).Ok?
      || Authenticate.DecodeReply(p.body).Ok?
    case 2 => Authorize.DecodeRequest(p.body).Ok? || Authorize.DecodeReply(p.body).Ok?
    case 3 => Accounting.DecodeRequest(p.body).Ok? || Accounting.DecodeReply(p.body).Ok?
    case _ => false
  }

  lemma ValidlyEncodedNotFlagged(p: Packet)
    requires ValidlyEncoded(p)
    ensures !Flagged(p)
  {
    match p.header.typ {
      case 1 =>
        Authenticate.StartBadSecret(p.body);
        Authenticate.ContinueBadSecret(p.body);
        Authenticate.ReplyBadSecret(p.body);
      case 2 =>
        Authorize.RequestBadSecret(p.body);
        Authorize.ReplyBadSecret(p.body);
      case 3 =>
        Accounting.RequestBadSecret(p.body);
        Accounting.ReplyBadSecret(p.body);
    }
  }

  const BAD_SECRET: Text := Ascii("bad secret")

  /** badSecretReply: an error of the packet's own type, numbered 1. */
  function BadSecretBody(typ: byte): Text
    requires 1 <= typ <= 3
  {
    if typ == AUTHENTICATE then Authenticate.AuthenReply(AUTHEN_ERROR, 0, BAD_SECRET, []).Encode()
    else if typ == AUTHORIZE then Authorize.AuthorReply(AUTHOR_ERROR, [], BAD_SECRET, []).Encode()
    else Accounting.AcctReply(ACCT_ERROR, BAD_SECRET, []).Encode()
  }

  function BadSecretReply(h: Header): (p: Packet)
    requires 1 <= h.typ <= 3
  {
    Packet(h.(seqNo := 1), BadSecretBody(h.typ))
  }

  // ---- writing ----

  /** write refuses a header its encoder rejects and a body over the maximum. */
  predicate Sendable(p: Packet) { p.header.(length := 0).Valid() && |p.body| <= MAX_BODY_LENGTH }

  function Sized(p: Packet): Header
    requires Sendable(p)
  {
    p.header.(length := |p.body|)
  }

  function Written(key: Key, p: Packet): Text
    requires Sendable(p)
  {
    Sized(p).Encode() + Crypted(key, Sized(p), p.body)
  }

  ghost predicate AllSendable(ps: seq<Packet>) { forall i :: 0 <= i < |ps| ==> Sendable(ps[i]) }

  ghost function WrittenAll(key: Key, ps: seq<Packet>): Text
    requires AllSendable(ps)
  {
    if ps == [] then [] else Written(key, ps[0]) + WrittenAll(key, ps[1..])
  }

  lemma {:induction false} WrittenAllCons(key: Key, p: Packet, ps: seq<Packet>)
    requires Sendable(p) && AllSendable(ps)
    ensures AllSendable([p] + ps) && WrittenAll(key, [p] + ps) == Written(key, p) + WrittenAll(key, ps)
  {
    assert ([p] + ps)[1..] == ps;
  }

  lemma {:induction false} WrittenAllAppend(key: Key, a: seq<Packet>, b: seq<Packet>)
    requires AllSendable(a) && AllSendable(b)
    ensures AllSendable(a + b) && WrittenAll(key, a + b) == WrittenAll(key, a) + WrittenAll(key, b)
  {
    if a == [] {
      assert a + b == b;
    } else {
      WrittenAllAppend(key, a[1..], b);
      HeadAppend(a, b);
      WrittenAllCons(key, a[0], a[1..] + b);
      Associates(Written(key, a[0]), WrittenAll(key, a[1..]), WrittenAll(key, b));
    }
  }

  lemma HeadAppend<T>(a: seq<T>, b: seq<T>)
    requires a != []
    ensures [a[0]] + (a[1..] + b) == a + b
  {
  }

  lemma Associates(x: Text, y: Text, z: Text)
    ensures x + (y + z) == (x + y) + z
  {
  }

  // ---- reading ----

  /** One call of read: a packet and the bytes behind it, or the end of the connection, with
      whatever notice was written before giving up. */
  datatype Incoming = Received(packet: Packet, rest: Text) | Closed(notice: Text)

  function Receive(key: Key, input: Text): Incoming {
    if |input| < HEADER_LENGTH then Closed([]) else
    var size := FromBE32(input[8..12]);
    if size > MAX_BODY_LENGTH || |input| < HEADER_LENGTH + size then Closed([]) else
    match DecodeHeader(input[..12])
    case None => Closed([])
    case Some(h) =>
      var p := Packet(h, Crypted(key, h, input[12..12 + size]));
      if Flagged(p) then Closed(Notice(key, h)) else Received(p, input[12 + size..])
  }

  function Notice(key: Key, h: Header): Text
    requires h.Valid()
  {
    BadSecretIsSendable(h);
    Written(key, BadSecretReply(h))
  }

  lemma BadSecretIsSendable(h: Header)
    requires h.Valid()
    ensures Sendable(BadSecretReply(h))
  {
    FlattenOf2([BAD_SECRET, []]);
    FlattenPast2(BAD_SECRET, [], []);
  }

  /** All packets read until the connection ends, and the bytes not consumed by them. */
  ghost function ReceiveAll(key: Key, input: Text): (seq<Packet>, Text)
    decreases |input|
  {
    match Receive(key, input)
    case Closed(_) => ([], input)
    case Received(p, rest) => var (ps, left) := ReceiveAll(key, rest); ([p] + ps, left)
  }

  /** How a packet looks after the trip: its length filled in, SingleConnect set on number 2. */
  function Delivered(p: Packet): Packet
    requires Sendable(p)
  {
    Packet(Sized(p).AsRead(), p.body)
  }

  ghost function DeliveredAll(ps: seq<Packet>): (r: seq<Packet>)
    requires AllSendable(ps)
    ensures |r| == |ps|
  {
    seq(|ps|, i requires 0 <= i < |ps| => Delivered(ps[i]))
  }

  /** The reader finds the header, the clear body and the bytes behind them. */
  lemma WrittenParts(key: Key, p: Packet, tail: Text)
    requires Sendable(p)
    ensures var input, h, n := Written(key, p) + tail, Sized(p), |p.body|;
            && |input| == 12 + n + |tail| && FromBE32(input[8..12]) == n && input[12 + n..] == tail
            && DecodeHeader(input[..12]) == Some(h.AsRead()) && Crypted(key, h.AsRead(), input[12..12 + n]) == p.body
  {
    var h := Sized(p);
    var input, n := Written(key, p) + tail, |p.body|;
    var cipher := Crypted(key, h, p.body);
    HeaderRoundTrip(h, []);
    assert input[..12] == h.Encode() + [] == h.Encode();
    assert input[8..12] == BE32(h.length) by { assert h.Encode()[8..12] == BE32(h.length); }
    BE32RoundTrip(h.length);
    assert input[12..12 + n] == cipher && input[12 + n..] == tail;
    SingleConnectKeepsUnencrypted(h);
    SameSeedSameCrypt(key, h.AsRead(), h, cipher);
    CryptTwice(key, h, p.body);
  }

  /** A written packet is delivered unless its clear body trips the bad-secret guess. */
  lemma WrittenIsReceived(key: Key, p: Packet, tail: Text)
    requires Sendable(p) && !Flagged(p)
    ensures Receive(key, Written(key, p) + tail) == Received(Delivered(p), tail)
  {
    WrittenParts(key, p, tail);
    SingleConnectKeepsUnencrypted(Sized(p));
  }

  /** If it does, the reader sends the notice and gives up. */
  lemma FlaggedIsClosed(key: Key, p: Packet, tail: Text)
    requires Sendable(p) && Flagged(p)
    ensures Receive(key, Written(key, p) + tail) == Closed(Notice(key, Sized(p).AsRead()))
  {
    WrittenParts(key, p, tail);
    SingleConnectKeepsUnencrypted(Sized(p));
  }

  lemma {:induction false} ReceiveAllNext(key: Key, input: Text, p: Packet, rest: Text)
    requires Receive(key, input) == Received(p, rest)
    ensures ReceiveAll(key, input) == ([p] + ReceiveAll(key, rest).0, ReceiveAll(key, rest).1)
  {
  }

  ghost predicate NoneFlagged(ps: seq<Packet>) { forall i :: 0 <= i < |ps| ==> !Flagged(ps[i]) }

  lemma {:induction false} DeliveredNext(ps: seq<Packet>)
    requires AllSendable(ps) && ps != []
    ensures AllSendable(ps[1..]) && DeliveredAll(ps) == [Delivered(ps[0])] + DeliveredAll(ps[1..])
  {
  }

  /** How many packets of a list come before the first one that trips the bad-secret guess. */
  ghost function Unflagged(ps: seq<Packet>): (n: nat)
    ensures n <= |ps|
  {
    if ps == [] || Flagged(ps[0]) then 0 else 1 + Unflagged(ps[1..])
  }

  lemma {:induction false} UnflaggedMeans(ps: seq<Packet>, i: nat)
    requires i < |ps|
    ensures (i < Unflagged(ps) ==> !Flagged(ps[i])) && (i == Unflagged(ps) ==> Flagged(ps[i]))
  {
    if i == 0 {
    } else {
      UnflaggedMeans(ps[1..], i - 1);
    }
  }

  lemma {:induction false} AllUnflagged(ps: seq<Packet>)
    ensures Unflagged(ps) == |ps| <==> NoneFlagged(ps)
  {
    var n := Unflagged(ps);
    if n < |ps| {
      UnflaggedMeans(ps, n);
    } else {
      forall i | 0 <= i < |ps|
        ensures !Flagged(ps[i])
      {
        UnflaggedMeans(ps, i);
      }
    }
  }

  /** Packets written back to back and read with the same key come back in order up to the first flagged one, and
      what is left over is the bytes from there on. */
  lemma {:induction false} StreamReadUpTo(key: Key, ps: seq<Packet>)
    requires AllSendable(ps)
    ensures var n := Unflagged(ps);
            ReceiveAll(key, WrittenAll(key, ps)) == (DeliveredAll(ps[..n]), WrittenAll(key, ps[n..]))
    decreases |ps|
  {
    if ps == [] {
      assert ReceiveAll(key, []) == ([], []);
    } else if Flagged(ps[0]) {
      FlaggedIsClosed(key, ps[0], WrittenAll(key, ps[1..]));
      ReceiveAllEnds(key, WrittenAll(key, ps));
      assert ps[..0] == [] && ps[0..] == ps;
    } else {
      StreamReadUpTo(key, ps[1..]);
      WrittenIsReceived(key, ps[0], WrittenAll(key, ps[1..]));
      ReceiveAllNext(key, WrittenAll(key, ps), Delivered(ps[0]), WrittenAll(key, ps[1..]));
      DeliveredUpTo(ps, Unflagged(ps[1..]));
    }
  }

  lemma {:induction false} ReceiveAllEnds(key: Key, input: Text)
    requires Receive(key, input).Closed?
    ensures ReceiveAll(key, input) == ([], input)
  {
  }

  lemma {:induction false} DeliveredUpTo(ps: seq<Packet>, n: nat)
    requires AllSendable(ps) && ps != [] && n < |ps|
    ensures DeliveredAll(ps[..n + 1]) == [Delivered(ps[0])] + DeliveredAll(ps[1..][..n])
    ensures ps[n + 1..] == ps[1..][n..]
  {
    DeliveredNext(ps[..n + 1]);
    assert ps[..n + 1][1..] == ps[1..][..n];
  }

  /** They come back as exactly that list, with no bytes left over, exactly when none is flagged. */
  lemma {:induction false} StreamRoundTrip(key: Key, ps: seq<Packet>)
    requires AllSendable(ps)
    ensures ReceiveAll(key, WrittenAll(key, ps)) == (DeliveredAll(ps), []) <==> NoneFlagged(ps)
  {
    var n := Unflagged(ps);
    StreamReadUpTo(key, ps);
    AllUnflagged(ps);
    if n == |ps| {
      assert ps[..n] == ps && ps[n..] == [];
    } else {
      assert |DeliveredAll(ps[..n])| != |DeliveredAll(ps)|;
    }
  }

  /** The same list for the condition a sender can check: each body decodes under its type. */
  lemma EncodedStreamRoundTrip(key: Key, ps: seq<Packet>)
    requires AllSendable(ps)
    requires forall i :: 0 <= i < |ps| ==> ps[i].header.Unencrypted() || ValidlyEncoded(ps[i])
    ensures ReceiveAll(key, WrittenAll(key, ps)) == (DeliveredAll(ps), [])
  {
    forall i | 0 <= i < |ps|
      ensures !Flagged(ps[i])
    {
      if ValidlyEncoded(ps[i]) {
        ValidlyEncodedNotFlagged(ps[i]);
      }
    }
    StreamRoundTrip(key, ps);
  }

  /** The notice is itself a packet the client can read, numbered 1, of the same type and session. */
  lemma NoticeIsReceived(key: Key, h: Header)
    requires h.Valid()
    ensures Receive(key, Notice(key, h)) ==
            Received(Packet(h.(seqNo := 1, length := |BadSecretBody(h.typ)|), BadSecretBody(h.typ)), [])
  {
    var p := BadSecretReply(h);
    BadSecretIsSendable(h);
    if h.typ == AUTHENTICATE {
      Authenticate.ReplyRoundTrip(Authenticate.AuthenReply(AUTHEN_ERROR, 0, BAD_SECRET, []), p.body);
    } else if h.typ == AUTHORIZE {
      Authorize.ReplyRoundTrip(Authorize.AuthorReply(AUTHOR_ERROR, [], BAD_SECRET, []), p.body);
    } else {
      Accounting.ReplyRoundTrip(Accounting.AcctReply(ACCT_ERROR, BAD_SECRET, []), p.body);
    }
    ValidlyEncodedNotFlagged(p);
    WrittenIsReceived(key, p, []);
    assert Written(key, p) + [] == Written(key, p);
  }

  // ---- the connection ----

  /** The connection: the bytes still to arrive from the peer and the bytes sent to it. */
  class Crypter {
    const key: Key
    var input: Text
    var output: Text

    constructor (key: Key, input: Text)
      ensures this.key == key && this.input == input && output == []
    {
      this.key := key;
      this.input := input;
      output := [];
    }

    /** A body of 4 GiB or more, for which Go would index past the pad, is refused here as too long. */
    method Write(p: Packet) returns (ok: bool)
      modifies this`output
      ensures ok == Sendable(p)
      ensures output == if ok then old(output) + Written(key, p) else old(output)
    {
      if |p.body| >= 0x1_0000_0000 {
        return false;
      }
      var h := p.header.(length := |p.body|);
      var body := new byte[|p.body|](i requires 0 <= i < |p.body| => p.body[i]);
      assert body[..] == p.body;
      var crypted := Apply(key, h, body);
      if !crypted || !h.Valid() {
        return false;
      }
      output := output + (h.Encode() + body[..]);
      return true;
    }

    method Read() returns (r: Option<Packet>)
      modifies this
      ensures var step := Receive(key, old(input));
              if step.Received? then r == Some(step.packet) && input == step.rest && output == old(output)
              else r == None && output == old(output) + step.notice
      ensures r.Some? ==> |input| < |old(input)| && r.value.header.Valid() && |r.value.body| <= MAX_BODY_LENGTH
    {
      if |input| < HEADER_LENGTH {
        return None;
      }
      var head := input[..12];
      var size := FromBE32(head[8..]);
      assert head[8..] == input[8..12];
      if size > MAX_BODY_LENGTH || |input| < HEADER_LENGTH + size {
        return None;
      }
      var raw := input[12..12 + size];
      input := input[12 + size..];
      var decoded := DecodeHeader(head);
      if decoded.None? {
        return None;
      }
      var h := decoded.value;
      var body := new byte[size](i requires 0 <= i < size => raw[i]);
      assert body[..] == raw;
      var ok := Apply(key, h, body);
      var p := Packet(h, body[..]);
      var flagged := DetectBadSecret(p);
      if flagged {
        BadSecretIsSendable(h);
        var sent := Write(BadSecretReply(h));
        return None;
      }
      return Some(p);
    }
  }
}
