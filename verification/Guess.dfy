/** What the reader makes of the bytes that arrive: exactly when it gives up, when it takes a packet for a bad secret,
    and what it delivers otherwise. */
module Guess {
  import opened Bytes
  import opened Crypt
  import opened Fields
  import opened Headers
  import opened Layout
  import opened ReadBuffers
  import opened Transport
  import Acct = Accounting
  import Authen = Authenticate
  import Author = Authorize

  // ---- framing ----

  /** Twelve bytes of a good header are there, and as many more as they announce, up to 65536. */
  predicate Framed(input: Text) {
    |input| >= 12 &&
    input[0] / 16 == 12 && input[0] % 16 <= 1 && 1 <= input[1] <= 3 && input[2] >= 1 &&
    Announced(input) <= 65536 && 12 + Announced(input) <= |input|
  }

  function Announced(input: Text): nat
    requires |input| >= 12
  {
    Value32(input[8], input[9], input[10], input[11])
  }

  lemma AnnouncedIs(input: Text)
    requires |input| >= 12
    ensures FromBE32(input[8..12]) == Announced(input)
  {
    var s := input[8..12];
    assert s[0] == input[8] && s[1] == input[9] && s[2] == input[10] && s[3] == input[11];
  }

  lemma HeaderReadIff(input: Text)
    requires |input| >= 12 && Announced(input) <= 65536
    ensures DecodeHeader(input[..12]).Some? <==>
            input[0] / 16 == 12 && input[0] % 16 <= 1 && 1 <= input[1] <= 3 && input[2] >= 1
    ensures DecodeHeader(input[..12]).Some? ==>
              var h := DecodeHeader(input[..12]).value;
              h.typ == input[1] && h.seqNo == input[2] && h.length == Announced(input)
  {
    var head := input[..12];
    assert head[8..12] == input[8..12] && head[4..8] == input[4..8];
    AnnouncedIs(input);
  }

  /** Bytes that are not framed end the connection without a word; framed ones give a packet with the announced
      number of bytes and leave the rest, or the bad-secret notice. */
  lemma ReadIff(key: Key, input: Text)
    ensures !Framed(input) ==> Receive(key, input) == Closed([])
    ensures Framed(input) ==>
              var r, n := Receive(key, input), Announced(input);
              if r.Received? then
                && r.packet.header.typ == input[1] && r.packet.header.seqNo == input[2]
                && |r.packet.body| == n && r.rest == input[12 + n..]
              else r.notice != []
  {
    if |input| >= 12 {
      AnnouncedIs(input);
      if Announced(input) <= 65536 {
        HeaderReadIff(input);
        if Framed(input) {
          NoticeIsLong(key, DecodeHeader(input[..12]).value);
        }
      }
    }
  }

  lemma NoticeIsLong(key: Key, h: Header)
    requires h.Valid()
    ensures Notice(key, h) != []
  {
    NoticeIsReceived(key, h);
  }

  // ---- the guess, type by type ----

  lemma AuthenticationFlagged(p: Packet)
    requires p.header.typ == 1
    ensures Flagged(p) <==>
            && p.header.flags % 2 == 0 && Authen.DecodeStart(p.body).BadSecret?
            && Authen.DecodeContinue(p.body).BadSecret? && Authen.DecodeReply(p.body).BadSecret?
  {
    Authen.StartBadSecret(p.body);
    Authen.ContinueBadSecret(p.body);
    Authen.ReplyBadSecret(p.body);
  }

  lemma AuthorizationFlagged(p: Packet)
    requires p.header.typ == 2
    ensures Flagged(p) <==>
            && p.header.flags % 2 == 0
            && Author.DecodeRequest(p.body).BadSecret? && Author.DecodeReply(p.body).BadSecret?
  {
    Author.RequestBadSecret(p.body);
    Author.ReplyBadSecret(p.body);
  }

  lemma AccountingFlagged(p: Packet)
    requires p.header.typ == 3
    ensures Flagged(p) <==>
            && p.header.flags % 2 == 0
            && Acct.DecodeRequest(p.body).BadSecret? && Acct.DecodeReply(p.body).BadSecret?
  {
    Acct.RequestBadSecret(p.body);
    Acct.ReplyBadSecret(p.body);
  }

  /** The body is obfuscated and every decoder of the packet's type reports a mismatch of lengths. */
  predicate AllMismatch(p: Packet) {
    && p.header.flags % 2 == 0
    && match p.header.typ
       case 1 =>
         && Authen.DecodeStart(p.body).BadSecret?
         && Authen.DecodeContinue(p.body).BadSecret?
         && Authen.DecodeReply(p.body).BadSecret?
       case 2 => Author.DecodeRequest(p.body).BadSecret? && Author.DecodeReply(p.body).BadSecret?
       case 3 => Acct.DecodeRequest(p.body).BadSecret? && Acct.DecodeReply(p.body).BadSecret?
       case _ => false
  }

  /** A packet sent to a reader with the same key ends the connection with the notice exactly when its clear body
      mismatches under every format of its type, and is delivered otherwise. */
  lemma GuessIff(key: Key, p: Packet, tail: Text)
    requires Sendable(p)
    ensures AllMismatch(p) ==> Receive(key, Written(key, p) + tail) == Closed(Notice(key, Sized(p).AsRead()))
    ensures !AllMismatch(p) ==> Receive(key, Written(key, p) + tail) == Received(Delivered(p), tail)
  {
    MismatchIff(p);
    if Flagged(p) {
      FlaggedIsClosed(key, p, tail);
    } else {
      WrittenIsReceived(key, p, tail);
    }
  }

  lemma MismatchIff(p: Packet)
    requires 1 <= p.header.typ <= 3
    ensures AllMismatch(p) <==> Flagged(p)
  {
    if p.header.typ == 1 {
      AuthenticationFlagged(p);
    } else if p.header.typ == 2 {
      AuthorizationFlagged(p);
    } else {
      AccountingFlagged(p);
    }
  }

  /** Nine bytes of ones: every format of every type announces more than that. */
  lemma OnesMismatch(p: Packet)
    requires 1 <= p.header.typ <= 3 && p.header.flags % 2 == 0 && p.body == seq(9, i => 255)
    ensures AllMismatch(p)
  {
    var d := p.body;
    assert d[0] == 255 && d[1] == 255 && d[2] == 255 && d[3] == 255 && d[4] == 255 && d[5] == 255 && d[6] == 255;
    assert d[7] == 255 && d[8] == 255;
    if p.header.typ == 1 {
      SumOf4([d[4], d[5], d[6], d[7]]);
      SumOf2([FromBE16(d[0], d[1]), FromBE16(d[2], d[3])]);
      SumOf2([Uint16At(d[2..]), Uint16At(d[4..])]);
      AuthenticationFlagged(p);
    } else if p.header.typ == 2 {
      SumAtLeast([d[4], d[5], d[6]], LensAt(d[8..], d[7]));
      SumAtLeast([FromBE16(d[2], d[3]), FromBE16(d[4], d[5])], LensAt(d[6..], d[1]));
      AuthorizationFlagged(p);
    } else {
      SumAtLeast([d[5], d[6], d[7]], LensAt(d[9..], d[8]));
      SumOf2([FromBE16(d[0], d[1]), FromBE16(d[2], d[3])]);
      AccountingFlagged(p);
    }
  }

  lemma SumAtLeast(a: seq<nat>, b: seq<nat>)
    requires |a| > 0
    ensures Sum(a + b) >= a[0]
  {
    SumAppend(a, b);
  }
}
