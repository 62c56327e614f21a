/** The bytes themselves: what every format, the header, the pad and the notice look like on the wire, in the
    numbers of RFC 8907. */
module Layout {
  import opened Bytes
  import opened Crypt
  import opened Fields
  import opened Headers
  import opened ReadBuffers
  import opened Transport
  import Acct = Accounting
  import Arguments
  import Authen = Authenticate
  import Author = Authorize

  // ---- numbers ----

  lemma LowByte(n: nat)
    ensures Low8(n) == n % 256
  {
  }

  lemma HighByte(n: nat)
    ensures Hi8(n) == n / 256 % 256
  {
    LowByte(n / 256);
  }

  /** Four bytes, the most significant first. */
  function Value32(a: nat, b: nat, c: nat, d: nat): nat { 0x100_0000 * a + 0x1_0000 * b + 0x100 * c + d }

  lemma BE32Value(n: uint32)
    ensures |BE32(n)| == 4
    ensures n == Value32(BE32(n)[0], BE32(n)[1], BE32(n)[2], BE32(n)[3])
  {
    BE32RoundTrip(n);
  }

  // ---- the header (section 4.1) ----

  lemma HeaderLayout(h: Header)
    requires h.Valid()
    ensures var e := h.Encode();
            && |e| == 12 && e[0] as nat == 0xc0 + h.version.minor as nat
            && e[1] == h.typ && e[2] == h.seqNo && e[3] == h.flags
            && h.session == Value32(e[4], e[5], e[6], e[7])
            && h.length == Value32(e[8], e[9], e[10], e[11])
    ensures 1 <= h.typ <= 3 && h.version.minor <= 1 && 1 <= h.seqNo <= 255 && h.length <= 65536
  {
    BE32Value(h.session);
    BE32Value(h.length);
  }

  /** A packet can be written exactly when its header is good and its body has at most 65536 bytes. */
  lemma SendableIff(p: Packet)
    ensures Sendable(p) <==>
            && p.header.version.major == 12 && p.header.version.minor <= 1 && 1 <= p.header.typ <= 3
            && 1 <= p.header.seqNo <= 255 && |p.body| <= 65536
  {
  }

  /** The reader sets bit 2 of the flags on number 2 and changes nothing else. */
  lemma AsReadMeans(h: Header)
    ensures h.AsRead() == h.(flags := if h.seqNo == 2 && h.flags / 4 % 2 == 0 then h.flags + 4 else h.flags)
  {
  }

  // ---- what the validators accept ----

  lemma StartValidIff(v: Authen.AuthenStart)
    ensures v.Valid() <==>
            && (v.action == 1 || v.action == 2 || v.action == 4)
            && v.privLvl <= 15 && 1 <= v.atype <= 6 && v.service <= 9
            && (forall i :: 0 <= i < |v.user| ==> v.user[i] < 128)
            && (forall i :: 0 <= i < |v.port| ==> v.port[i] < 128)
            && (forall i :: 0 <= i < |v.remAddr| ==> v.remAddr[i] < 128)
            && (v.atype == 1 ==> forall i :: 0 <= i < |v.data| ==> v.data[i] < 128)
  {
  }

  lemma RequestValidIff(v: Author.AuthorRequest)
    ensures v.Valid() <==>
            && (v.method_ <= 6 || v.method_ == 8 || v.method_ == 16)
            && v.privLvl <= 15 && v.atype <= 6 && v.service <= 9
            && AllAscii(v.user) && AllAscii(v.port) && AllAscii(v.remAddr)
            && (forall i :: 0 <= i < |v.args| ==> AllAscii(v.args[i]) && 2 <= |v.args[i]| <= 255)
  {
  }

  lemma AcctRequestValidIff(v: Acct.AcctRequest)
    ensures v.Valid() <==>
            && !(v.flags / 4 % 2 == 1 && v.flags / 8 % 2 == 1)
            && (v.method_ <= 6 || v.method_ == 8 || v.method_ == 16)
            && v.privLvl <= 15 && v.atype <= 6 && v.service <= 9
            && AllAscii(v.user) && AllAscii(v.port) && AllAscii(v.remAddr)
            && (forall i :: 0 <= i < |v.args| ==> AllAscii(v.args[i]) && 2 <= |v.args[i]| <= 255)
  {
  }

  lemma RepliesValidIff(c: Authen.AuthenContinue, a: Authen.AuthenReply, b: Author.AuthorReply, d: Acct.AcctReply)
    ensures c.Valid() <==> AllAscii(c.userMessage)
    ensures a.Valid() <==> 1 <= a.status <= 7
    ensures b.Valid() <==>
            && (b.status == 1 || b.status == 2 || b.status == 0x10 || b.status == 0x11)
            && AllAscii(b.serverMsg) && AllAscii(b.data)
            && (forall i :: 0 <= i < |b.args| ==> AllAscii(b.args[i]) && 2 <= |b.args[i]| <= 255)
    ensures d.Valid() <==> (d.status == 1 || d.status == 2) && AllAscii(d.serverMsg) && AllAscii(d.data)
  {
  }

  // ---- authentication bodies (section 5) ----

  lemma StartLayout(v: Authen.AuthenStart)
    ensures v.Encode() ==
            [v.action, v.privLvl, v.atype, v.service,
             |v.user| % 256, |v.port| % 256, |v.remAddr| % 256, |v.data| % 256] +
            (v.user + v.port + v.remAddr + v.data)
  {
    LowByte(|v.user|);
    LowByte(|v.port|);
    LowByte(|v.remAddr|);
    LowByte(|v.data|);
    FlattenOf4([v.user, v.port, v.remAddr, v.data]);
  }

  lemma ContinueLayout(v: Authen.AuthenContinue)
    ensures v.Encode() ==
            [|v.userMessage| / 256 % 256, |v.userMessage| % 256, |v.data| / 256 % 256, |v.data| % 256, v.flags] +
            (v.userMessage + v.data)
  {
    LengthBytes(v.userMessage);
    LengthBytes(v.data);
    FlattenOf2([v.userMessage, v.data]);
  }

  lemma LengthBytes(t: Text)
    ensures Hi8(|t|) == |t| / 256 % 256 && Low8(|t|) == |t| % 256
  {
    HighByte(|t|);
    LowByte(|t|);
  }

  lemma AuthenReplyLayout(v: Authen.AuthenReply)
    ensures v.Encode() ==
            [v.status, v.flags, |v.serverMsg| / 256 % 256, |v.serverMsg| % 256, |v.data| / 256 % 256, |v.data| % 256] +
            (v.serverMsg + v.data)
  {
    LengthBytes(v.serverMsg);
    LengthBytes(v.data);
    FlattenOf2([v.serverMsg, v.data]);
  }

  // ---- authorization and accounting bodies (sections 6 and 7) ----

  /** One byte for each argument's length. */
  function Lengths(args: seq<Text>): Text { seq(|args|, i requires 0 <= i < |args| => |args[i]| % 256) }

  lemma LengthsAre(args: seq<Text>)
    ensures ArgLens(args) == Lengths(args)
  {
    forall i | 0 <= i < |args|
      ensures ArgLens(args)[i] == Lengths(args)[i]
    {
      LowByte(|args[i]|);
    }
  }

  /** Arguments stand one behind the other. */
  lemma {:induction false} FlattenSnoc(args: seq<Text>, x: Text)
    ensures Flatten(args + [x]) == Flatten(args) + x && Flatten([]) == []
  {
    if args == [] {
      assert [] + [x] == [x] && [x][1..] == [];
    } else {
      FlattenSnoc(args[1..], x);
      assert (args + [x])[1..] == args[1..] + [x];
    }
  }

  lemma AuthorRequestLayout(v: Author.AuthorRequest)
    ensures v.Encode() ==
            [v.method_, v.privLvl, v.atype, v.service,
             |v.user| % 256, |v.port| % 256, |v.remAddr| % 256, |v.args| % 256] +
            Lengths(v.args) + (v.user + v.port + v.remAddr + Flatten(v.args))
  {
    LowByte(|v.user|);
    LowByte(|v.port|);
    LowByte(|v.remAddr|);
    LowByte(|v.args|);
    LengthsAre(v.args);
    Arguments.FlattenPast3(v.user, v.port, v.remAddr, v.args);
  }

  lemma AuthorReplyLayout(v: Author.AuthorReply)
    ensures v.Encode() ==
            [v.status, |v.args| % 256,
             |v.serverMsg| / 256 % 256, |v.serverMsg| % 256, |v.data| / 256 % 256, |v.data| % 256] +
            Lengths(v.args) + (v.serverMsg + v.data + Flatten(v.args))
  {
    LengthBytes(v.serverMsg);
    LengthBytes(v.data);
    LowByte(|v.args|);
    LengthsAre(v.args);
    Arguments.FlattenPast2(v.serverMsg, v.data, v.args);
  }

  lemma AcctRequestLayout(v: Acct.AcctRequest)
    ensures v.Encode() ==
            [v.flags, v.method_, v.privLvl, v.atype, v.service,
             |v.user| % 256, |v.port| % 256, |v.remAddr| % 256, |v.args| % 256] +
            Lengths(v.args) + (v.user + v.port + v.remAddr + Flatten(v.args))
  {
    LowByte(|v.user|);
    LowByte(|v.port|);
    LowByte(|v.remAddr|);
    LowByte(|v.args|);
    LengthsAre(v.args);
    Arguments.FlattenPast3(v.user, v.port, v.remAddr, v.args);
  }

  lemma AcctReplyLayout(v: Acct.AcctReply)
    ensures v.Encode() ==
            [|v.serverMsg| / 256 % 256, |v.serverMsg| % 256, |v.data| / 256 % 256, |v.data| % 256, v.status] +
            (v.serverMsg + v.data)
  {
    LengthBytes(v.serverMsg);
    LengthBytes(v.data);
    FlattenOf2([v.serverMsg, v.data]);
  }

  // ---- obfuscation (section 4.5) ----

  /** What is hashed for the first block: session, secret, version and number, in this order. */
  lemma SeedLayout(key: Key, h: Header)
    requires h.version.Valid()
    ensures var s, n := Seed(key, h), |key.secret|;
            && |s| == n + 6
            && h.session == Value32(s[0], s[1], s[2], s[3])
            && s[4..4 + n] == key.secret
            && s[4 + n] as nat == 0xc0 + h.version.minor as nat && s[5 + n] == h.seqNo % 256
  {
    BE32Value(h.session);
    LowByte(h.seqNo);
  }

  /** Sixteen bytes of the pad. */
  function PadBlock(key: Key, h: Header, k: nat): Text
    requires h.version.Valid()
  {
    seq<byte>(16, j requires 0 <= j < 16 => PadByte(key, h, 16 * k + j))
  }

  /** The pad is a chain: its first block hashes the seed, every other one the seed and the block before. */
  lemma PadChain(key: Key, h: Header, k: nat)
    requires h.version.Valid()
    ensures PadBlock(key, h, 0) == key.md5(Seed(key, h))
    ensures PadBlock(key, h, k + 1) == key.md5(Seed(key, h) + PadBlock(key, h, k))
  {
    PadBlockIs(key, h, 0);
    PadBlockIs(key, h, k);
    PadBlockIs(key, h, k + 1);
  }

  lemma PadByteAt(key: Key, h: Header, k: nat, j: nat)
    requires h.version.Valid() && j < 16
    ensures PadByte(key, h, 16 * k + j) == Block(key, h, k)[j]
  {
    Sixteens(k, j);
  }

  lemma Sixteens(k: nat, j: nat)
    requires j < 16
    ensures (16 * k + j) / 16 == k && (16 * k + j) % 16 == j
  {
  }

  lemma PadBlockIs(key: Key, h: Header, k: nat)
    requires h.version.Valid()
    ensures PadBlock(key, h, k) == Block(key, h, k)
  {
    forall j | 0 <= j < 16
      ensures PadBlock(key, h, k)[j] == Block(key, h, k)[j]
    {
      PadByteAt(key, h, k, j);
      assert PadBlock(key, h, k)[j] == PadByte(key, h, 16 * k + j);
    }
  }

  /** Bit k of an obfuscated byte is that bit of the clear byte, inverted exactly where the pad has a one. */
  lemma CryptedBits(key: Key, h: Header, body: Text, i: nat, k: nat)
    requires h.version.Valid() && i < |body| && k < 8
    ensures var c := Crypted(key, h, body)[i];
            if h.flags % 2 == 1 then c == body[i] else Bit(c, k) <==> Bit(body[i], k) != Bit(PadByte(key, h, i), k)
  {
    XorMeans(body[i], PadByte(key, h, i), k);
  }

  // ---- the bad-secret notice ----

  /** What a client reads when its packet was taken for a bad secret: an error of the packet's own type. */
  lemma NoticeSays(key: Key, h: Header)
    requires h.Valid()
    ensures var r := Receive(key, Notice(key, h));
            && r.Received? && r.rest == []
            && r.packet.header.session == h.session && r.packet.header.typ == h.typ && r.packet.header.seqNo == 1
            && var b, text := r.packet.body, Ascii("bad secret");
               && (h.typ == 1 ==> Authen.DecodeReply(b) == Ok(Authen.AuthenReply(7, 0, text, [])))
               && (h.typ == 2 ==> Author.DecodeReply(b) == Ok(Author.AuthorReply(0x11, [], text, [])))
               && (h.typ == 3 ==> Acct.DecodeReply(b) == Ok(Acct.AcctReply(2, text, [])))
  {
    NoticeIsReceived(key, h);
    NoticeBody(h.typ);
  }

  lemma NoticeBody(typ: byte)
    requires 1 <= typ <= 3
    ensures var b := BadSecretBody(typ);
            && (typ == 1 ==> Authen.DecodeReply(b) == Ok(Authen.AuthenReply(7, 0, Ascii("bad secret"), [])))
            && (typ == 2 ==> Author.DecodeReply(b) == Ok(Author.AuthorReply(0x11, [], Ascii("bad secret"), [])))
            && (typ == 3 ==> Acct.DecodeReply(b) == Ok(Acct.AcctReply(2, Ascii("bad secret"), [])))
  {
    if typ == 1 {
      Authen.ReplyRoundTrip(Authen.AuthenReply(7, 0, Ascii("bad secret"), []), BadSecretBody(typ));
    } else if typ == 2 {
      Author.ReplyRoundTrip(Author.AuthorReply(0x11, [], Ascii("bad secret"), []), BadSecretBody(typ));
    } else {
      Acct.ReplyRoundTrip(Acct.AcctReply(2, Ascii("bad secret"), []), BadSecretBody(typ));
    }
  }
}
