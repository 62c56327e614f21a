/** header.go and header_fields.go: the 12-byte header of section 4.1 of RFC 8907. */
module Headers {
  import opened Bytes

  const MAX_BODY_LENGTH: nat := 65536
  const HEADER_LENGTH: nat := 12
  const UNENCRYPTED: byte := 1
  const SINGLE_CONNECT: byte := 4

  datatype Version = Version(major: byte, minor: byte) {
    predicate Valid() { major == 0xc && minor <= 1 }

    /** Both nibbles in one byte; MarshalBinary refuses any other version. */
    function Pack(): byte
      requires Valid()
    {
      major * 16 + minor
    }
  }

  function UnpackVersion(b: byte): Version { Version(b / 16, b % 16) }

  function SetSingleConnect(flags: byte): byte {
    if HasBit(flags, SINGLE_CONNECT) then flags else flags + SINGLE_CONNECT
  }

  /** SeqNo is 16 bits wide in memory and 8 bits on the wire. */
  datatype Header = Header(version: Version, typ: byte, seqNo: uint16, session: uint32, flags: byte, length: uint32) {
    predicate Valid() {
      version.Valid() && 1 <= typ <= 3 && 1 <= seqNo <= 255 && length <= MAX_BODY_LENGTH
    }

    predicate Unencrypted() { HasBit(flags, UNENCRYPTED) }

    function Encode(): Text
      requires Valid()
    {
      [version.Pack(), typ, seqNo, flags] + BE32(session) + BE32(length)
    }

    /** What a reader makes of this header: SingleConnect is always set on sequence number 2. */
    function AsRead(): Header {
      if seqNo == 2 then this.(flags := SetSingleConnect(flags)) else this
    }
  }

  function DecodeHeader(data: Text): Option<Header> {
    if |data| < HEADER_LENGTH then None else
    var session, length := FromBE32(data[4..8]), FromBE32(data[8..12]);
    var h := Header(UnpackVersion(data[0]), data[1], data[2], session, data[3], length).AsRead();
    if h.Valid() then Some(h) else None
  }

  /** A valid header is read back, up to the SingleConnect rule. */
  lemma HeaderRoundTrip(h: Header, tail: Text)
    requires h.Valid()
    ensures |h.Encode()| == HEADER_LENGTH
    ensures DecodeHeader(h.Encode() + tail) == Some(h.AsRead())
  {
    var data := h.Encode() + tail;
    assert data[4..8] == BE32(h.session) && data[8..12] == BE32(h.length);
    BE32RoundTrip(h.session);
    BE32RoundTrip(h.length);
    VersionRoundTrip(h.version);
  }

  lemma VersionRoundTrip(v: Version)
    requires v.Valid()
    ensures UnpackVersion(v.Pack()) == v
  {
  }

  /** Setting SingleConnect never turns obfuscation on or off. */
  lemma SingleConnectKeepsUnencrypted(h: Header)
    ensures h.AsRead().Unencrypted() == h.Unencrypted()
  {
  }

  // ---- the checks on client sequence numbers ----

  /** ClientSequenceNumber.Validate, on uint8(SeqNo). */
  predicate ClientSeqOk(seqNo: nat) { Low8(seqNo) % 2 != 0 }

  /** LastSequence.Validate: both numbers are cut to 8 bits before they are compared. */
  predicate LastSeqOk(stored: nat, current: nat) { Low8(stored) < Low8(current) }

  /** After a request numbered n the server stores n + 1, and a later request numbered m is then
      accepted exactly when it is odd and at least two above n, or n was 255, where 256 compares as 0. */
  lemma NextAccepted(n: nat, m: nat)
    requires 1 <= n <= 255 && 1 <= m <= 255 && n % 2 == 1
    ensures ClientSeqOk(m) && LastSeqOk(n + 1, m) <==> m % 2 == 1 && (n == 255 || m >= n + 2)
  {
    assert Low8(m) == m;
    if n == 255 {
      assert Low8(n + 1) == 0;
    }
  }
}
