/** Bytes, byte strings, bit operations and big-endian integers.
    A Go string or []byte is a `Text`: a sequence of bytes. */
module Bytes {
  type byte = n: nat | n < 0x100
  type uint16 = n: nat | n < 0x1_0000
  type uint32 = n: nat | n < 0x1_0000_0000
  type Text = seq<byte>

  datatype Option<+T> = None | Some(value: T)

  /** uint8(n) of an int */
  function Low8(n: nat): byte { if n < 0x100 then n else n % 0x100 }

  /** Writes the ASCII characters of a literal as bytes. */
  function Ascii(s: string): Text {
    seq(|s|, i requires 0 <= i < |s| => if s[i] < 128 as char then s[i] as int else 63)
  }

  predicate AllAscii(s: Text) { forall i :: 0 <= i < |s| ==> s[i] <= 127 }

  /** Bit `1 << k` of b, for the flag tests `*b & f != 0`. */
  predicate HasBit(b: byte, weight: nat)
    requires weight > 0
  {
    b / weight % 2 == 1
  }

  // ---- exclusive or, bit by bit ----

  function Pow2(k: nat): nat { if k == 0 then 1 else 2 * Pow2(k - 1) }

  function XorBits(a: nat, b: nat, k: nat): (r: nat)
    ensures r < Pow2(k)
  {
    if k == 0 then 0 else XorBit(a, b) + 2 * XorBits(a / 2, b / 2, k - 1)
  }

  function Xor(a: byte, b: byte): byte {
    assert Pow2(8) == 256 by { assert Pow2(4) == 16; }
    XorBits(a, b, 8)
  }

  function XorBit(a: nat, b: nat): nat { (a % 2 + b % 2) % 2 }

  lemma XorBitInvolution(a: nat, b: nat, c: nat)
    requires c % 2 == XorBit(a, b)
    ensures XorBit(c, b) == a % 2
  {
  }

  lemma SplitBit(bit: nat, high: nat)
    requires bit < 2
    ensures (bit + 2 * high) % 2 == bit && (bit + 2 * high) / 2 == high
  {
  }

  lemma {:induction false} XorBitsInvolution(a: nat, b: nat, k: nat)
    requires a < Pow2(k)
    ensures XorBits(XorBits(a, b, k), b, k) == a
  {
    if k == 0 {
    } else {
      XorBitsInvolution(a / 2, b / 2, k - 1);
      var bit, high := XorBit(a, b), XorBits(a / 2, b / 2, k - 1);
      var r := bit + 2 * high;
      SplitBit(bit, high);
      XorBitInvolution(a, b, r);
      assert XorBits(a, b, k) == r;
      assert XorBits(r, b, k) == XorBit(r, b) + 2 * XorBits(r / 2, b / 2, k - 1) == a % 2 + 2 * (a / 2);
    }
  }

  lemma XorInvolution(a: byte, b: byte)
    ensures Xor(Xor(a, b), b) == a
  {
    assert Pow2(8) == 256 by { assert Pow2(4) == 16; }
    XorBitsInvolution(a, b, 8);
  }

  /** Bit k of n. */
  predicate Bit(n: nat, k: nat) { if k == 0 then n % 2 == 1 else Bit(n / 2, k - 1) }

  lemma {:induction false} XorBitsMeans(a: nat, b: nat, k: nat, j: nat)
    requires j < k
    ensures Bit(XorBits(a, b, k), j) <==> Bit(a, j) != Bit(b, j)
  {
    var bit, high := XorBit(a, b), XorBits(a / 2, b / 2, k - 1);
    assert XorBits(a, b, k) == bit + 2 * high;
    SplitBit(bit, high);
    if j == 0 {
      XorBitMeans(a, b);
    } else {
      XorBitsMeans(a / 2, b / 2, k - 1, j - 1);
    }
  }

  lemma XorBitMeans(a: nat, b: nat)
    ensures XorBit(a, b) == 1 <==> (a % 2 == 1) != (b % 2 == 1)
    ensures XorBit(a, b) < 2
  {
  }

  /** Bit k of the exclusive or is set exactly when the two bits differ. */
  lemma XorMeans(a: byte, b: byte, k: nat)
    requires k < 8
    ensures Bit(Xor(a, b), k) <==> Bit(a, k) != Bit(b, k)
  {
    XorBitsMeans(a, b, 8, k);
  }

  lemma {:induction false} XorBitsZero(a: nat, k: nat)
    requires a < Pow2(k)
    ensures XorBits(a, 0, k) == a
  {
    if k == 0 {
    } else {
      XorBitsZero(a / 2, k - 1);
    }
  }

  lemma XorZero(a: byte)
    ensures Xor(a, 0) == a
  {
    assert Pow2(8) == 256 by { assert Pow2(4) == 16; }
    XorBitsZero(a, 8);
  }

  // ---- big-endian integers ----

  /** The two bytes appendUint16 writes are Hi8(n) and Low8(n). */
  function Hi8(n: nat): byte { Low8(n / 0x100) }

  function BE16(n: nat): Text { [Hi8(n), Low8(n)] }

  function BE32(n: uint32): Text {
    [n / 0x100 / 0x100 / 0x100, n / 0x100 / 0x100 % 0x100, n / 0x100 % 0x100, n % 0x100]
  }

  function FromBE16(hi: byte, lo: byte): (n: uint16) {
    var h: nat := hi;
    h * 0x100 + lo
  }

  function FromBE32(s: Text): uint32
    requires |s| == 4
  {
    var a: nat := s[0];
    ((a * 0x100 + s[1]) * 0x100 + s[2]) * 0x100 + s[3]
  }

  /** Two bytes are the big-endian form of a number that fits exactly when they read back as it. */
  lemma BE16Iff(hi: byte, lo: byte, n: nat)
    ensures n <= 65535 && hi == Hi8(n) && lo == Low8(n) <==> FromBE16(hi, lo) == n
  {
    var q := n / 0x100;
    assert n == 0x100 * q + n % 0x100;
    if n <= 65535 {
      assert q < 0x100 && Hi8(n) == q;
    }
  }

  lemma BE32RoundTrip(n: uint32)
    ensures FromBE32(BE32(n)) == n
  {
  }

  // ---- prefixes ----

  /** The first n bytes, or all of s when it is shorter. */
  function Take(s: Text, n: nat): Text { if n <= |s| then s[..n] else s }

  /** What is left of s after Take(s, n). */
  function Drop(s: Text, n: nat): Text { if n <= |s| then s[n..] else [] }

  lemma PrefixSplit(a: Text, b: Text, data: Text)
    ensures a + b <= data <==> a <= data && b <= data[|a|..]
  {
    if a <= data && b <= data[|a|..] {
      assert forall i :: 0 <= i < |b| ==> data[|a| + i] == data[|a|..][i];
    }
    if a + b <= data {
      assert a == (a + b)[..|a|];
      assert forall i :: 0 <= i < |b| ==> (a + b)[|a| + i] == b[i];
    }
  }
}
