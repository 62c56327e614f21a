/** crypt.go: the MD5-chained pad of section 4.5 of RFC 8907, XORed onto the body in place. */
module Crypt {
  import opened Bytes
  import opened Headers

  type Digest = s: Text | |s| == 16 witness seq(16, i => 0)

  /** The shared secret, with MD5 left as any function to 16 bytes. */
  datatype Key = Key(secret: Text, md5: Text -> Digest)

  function Seed(key: Key, h: Header): Text
    requires h.version.Valid()
  {
    BE32(h.session) + key.secret + [h.version.Pack()] + [Low8(h.seqNo)]
  }

  /** MD5_(k+1) of the chain. */
  function Block(key: Key, h: Header, k: nat): Digest
    requires h.version.Valid()
  {
    if k == 0 then key.md5(Seed(key, h)) else key.md5(Seed(key, h) + Block(key, h, k - 1))
  }

  /** Byte i of the pseudo pad. */
  function PadByte(key: Key, h: Header, i: nat): byte
    requires h.version.Valid()
  {
    Block(key, h, i / 16)[i % 16]
  }

  /** The obfuscated, or deobfuscated, body. */
  function Crypted(key: Key, h: Header, body: Text): (r: Text)
    requires h.version.Valid()
    ensures |r| == |body|
  {
    if h.Unencrypted() then body
    else seq(|body|, i requires 0 <= i < |body| => Xor(body[i], PadByte(key, h, i)))
  }

  /** Obfuscating twice restores the body. */
  lemma CryptTwice(key: Key, h: Header, body: Text)
    requires h.version.Valid()
    ensures Crypted(key, h, Crypted(key, h, body)) == body
  {
    var once := Crypted(key, h, body);
    forall i | 0 <= i < |body|
      ensures Crypted(key, h, once)[i] == body[i]
    {
      XorInvolution(body[i], PadByte(key, h, i));
    }
  }

  /** The pad depends on the session, version and sequence number only. */
  lemma {:induction false} SameSeedSameBlock(key: Key, h: Header, g: Header, k: nat)
    requires h.version.Valid() && h.session == g.session && h.version == g.version && Low8(h.seqNo) == Low8(g.seqNo)
    ensures Block(key, h, k) == Block(key, g, k)
  {
    if k == 0 {
    } else {
      SameSeedSameBlock(key, h, g, k - 1);
    }
  }

  lemma SameSeedSameCrypt(key: Key, h: Header, g: Header, body: Text)
    requires h.version.Valid() && h.session == g.session && h.version == g.version && Low8(h.seqNo) == Low8(g.seqNo)
    requires h.Unencrypted() == g.Unencrypted()
    ensures Crypted(key, h, body) == Crypted(key, g, body)
  {
    if !h.Unencrypted() {
      forall i | 0 <= i < |body|
        ensures Crypted(key, h, body)[i] == Crypted(key, g, body)[i]
      {
        SameSeedSameBlock(key, h, g, i / 16);
      }
    }
  }

  ghost predicate IsPad(key: Key, h: Header, pad: Text)
    requires h.version.Valid()
  {
    forall i :: 0 <= i < |pad| ==> pad[i] == PadByte(key, h, i)
  }

  lemma PadGrows(key: Key, h: Header, pad: Text, k: nat)
    requires h.version.Valid() && IsPad(key, h, pad) && |pad| == 16 * k
    ensures IsPad(key, h, pad + Block(key, h, k))
  {
    var next := pad + Block(key, h, k);
    forall i | 0 <= i < |next|
      ensures next[i] == PadByte(key, h, i)
    {
      if i >= |pad| {
        assert i == 16 * k + (i - 16 * k);
        assert i / 16 == k && i % 16 == i - 16 * k;
      }
    }
  }

  /** The hash chain grows the pad 16 bytes at a time and cuts it at the announced length. */
  method MakePad(key: Key, h: Header) returns (pad: Text)
    requires h.version.Valid()
    ensures |pad| == h.length && IsPad(key, h, pad)
  {
    var lastHash: Text := [];
    pad := [];
    ghost var k := 0;
    while |pad| < h.length
      invariant |pad| <= h.length && IsPad(key, h, pad)
      invariant |pad| < h.length ==> |pad| == 16 * k
      invariant lastHash == if k == 0 then [] else Block(key, h, k - 1)
      decreases h.length - |pad|
    {
      PadGrows(key, h, pad, k);
      assert Seed(key, h) + [] == Seed(key, h);
      lastHash := key.md5(Seed(key, h) + lastHash);
      pad := pad + lastHash;
      if |pad| > h.length {
        pad := pad[..h.length];
      }
      k := k + 1;
    }
  }

  /** crypt: leaves the body alone under the unencrypted flag, refuses an unknown version, and
      otherwise XORs in place. A body longer than the pad would be an index out of range. */
  method Apply(key: Key, h: Header, body: array<byte>) returns (ok: bool)
    requires !h.Unencrypted() && h.version.Valid() ==> body.Length <= h.length
    modifies body
    ensures ok == (h.Unencrypted() || h.version.Valid())
    ensures body[..] == if h.version.Valid() then Crypted(key, h, old(body[..])) else old(body[..])
  {
    if h.Unencrypted() {
      return true;
    }
    if !h.version.Valid() {
      return false;
    }
    var pad := MakePad(key, h);
    for i := 0 to body.Length
      invariant forall j :: 0 <= j < i ==> body[j] == Crypted(key, h, old(body[..]))[j]
      invariant forall j :: i <= j < body.Length ==> body[j] == old(body[j])
    {
      body[i] := Xor(body[i], pad[i]);
    }
    return true;
  }
}
