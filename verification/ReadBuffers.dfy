/** packet.go's readBuffer, which truncates silently, and the length-prefixed fields read from it. */
module ReadBuffers {
  import opened Bytes

  /** What `uint16` reads: two bytes, or the one that is left, or zero. */
  function Uint16At(s: Text): uint16 {
    if |s| == 0 then 0 else if |s| == 1 then s[0] else FromBE16(s[0], s[1])
  }

  function ByteAt(s: Text): byte { if |s| == 0 then 0 else s[0] }

  class ReadBuffer {
    var rest: Text

    constructor (data: Text)
      ensures rest == data
    {
      rest := data;
    }

    method Byte() returns (b: byte)
      modifies this
      ensures b == ByteAt(old(rest)) && rest == Drop(old(rest), 1)
    {
      if |rest| < 1 {
        return 0;
      }
      b := rest[0];
      rest := rest[1..];
    }

    method Uint16() returns (n: uint16)
      modifies this
      ensures n == Uint16At(old(rest)) && rest == Drop(old(rest), 2)
    {
      if |rest| == 1 {
        n := Byte();
      } else if |rest| >= 2 {
        n := FromBE16(rest[0], rest[1]);
        rest := rest[2..];
      } else {
        n := 0;
      }
    }

    method String(n: nat) returns (str: Text)
      modifies this
      ensures str == Take(old(rest), n) && rest == Drop(old(rest), n)
    {
      if |rest| < 1 {
        return [];
      }
      var k := if |rest| < n then |rest| else n;
      str := rest[..k];
      rest := rest[k..];
    }
  }

  // ---- a table of lengths followed by the fields it announces ----

  function Sum(lens: seq<nat>): nat {
    if lens == [] then 0 else lens[0] + Sum(lens[1..])
  }

  function Flatten(fields: seq<Text>): Text {
    if fields == [] then [] else fields[0] + Flatten(fields[1..])
  }

  function LensOf(fields: seq<Text>): seq<nat> {
    seq(|fields|, i requires 0 <= i < |fields| => |fields[i]|)
  }

  /** The fields the buffer hands out for a list of announced lengths. */
  function Chop(s: Text, lens: seq<nat>): (fields: seq<Text>)
    ensures |fields| == |lens|
    decreases lens
  {
    if lens == [] then [] else [Take(s, lens[0])] + Chop(Drop(s, lens[0]), lens[1..])
  }

  /** n one-byte lengths; missing ones read as zero. */
  function LensAt(s: Text, n: nat): seq<nat> {
    seq(n, i requires 0 <= i < n => if i < |s| then s[i] else 0)
  }

  /** One byte for the length of each argument. */
  function ArgLens(args: seq<Text>): Text {
    seq(|args|, i requires 0 <= i < |args| => Low8(|args[i]|))
  }

  lemma {:induction false} SumFlatten(fields: seq<Text>)
    ensures Sum(LensOf(fields)) == |Flatten(fields)|
  {
    if fields == [] {
    } else {
      SumFlatten(fields[1..]);
      assert LensOf(fields)[1..] == LensOf(fields[1..]);
    }
  }

  lemma TakeSplit(s: Text, m: nat, n: nat)
    ensures Take(s, m) + Take(Drop(s, m), n) == Take(s, m + n)
  {
  }

  /** However long the announced fields are, the buffer hands out the first
      min(announced total, remaining) bytes, in order. */
  lemma {:induction false} ChopTakes(s: Text, lens: seq<nat>)
    ensures Flatten(Chop(s, lens)) == Take(s, Sum(lens))
    decreases lens
  {
    if lens == [] {
    } else {
      ChopTakes(Drop(s, lens[0]), lens[1..]);
      TakeSplit(s, lens[0], Sum(lens[1..]));
    }
  }

  lemma {:induction false} ChopLens(s: Text, lens: seq<nat>)
    requires Sum(lens) <= |s|
    ensures LensOf(Chop(s, lens)) == lens
    decreases lens
  {
    if lens == [] {
    } else {
      ChopLens(Drop(s, lens[0]), lens[1..]);
      var fields := Chop(s, lens);
      assert LensOf(fields) == [|fields[0]|] + LensOf(fields[1..]);
    }
  }

  lemma {:induction false} ChopFlatten(fields: seq<Text>, s: Text)
    requires Flatten(fields) <= s
    ensures Chop(s, LensOf(fields)) == fields
  {
    if fields == [] {
    } else {
      var head, tail := fields[0], fields[1..];
      PrefixSplit(head, Flatten(tail), s);
      ChopFlatten(tail, s[|head|..]);
      assert LensOf(fields)[1..] == LensOf(tail);
      assert Take(s, |head|) == head;
    }
  }

  /** The mismatch test on total lengths succeeds exactly when the announced bytes are there. */
  lemma ChopTotal(s: Text, lens: seq<nat>)
    ensures Sum(LensOf(Chop(s, lens))) == Sum(lens) <==> Sum(lens) <= |s|
  {
    ChopTakes(s, lens);
    SumFlatten(Chop(s, lens));
  }

  /** Fields are read back, with the length test passing, exactly when they stand at the front of s
      and the table holds their true lengths. */
  lemma ChopIff(s: Text, lens: seq<nat>, fields: seq<Text>)
    ensures Chop(s, lens) == fields && Sum(LensOf(fields)) == Sum(lens)
       <==> LensOf(fields) == lens && Flatten(fields) <= s
  {
    if Chop(s, lens) == fields && Sum(LensOf(fields)) == Sum(lens) {
      ChopTotal(s, lens);
      ChopTakes(s, lens);
      ChopLens(s, lens);
    }
    if LensOf(fields) == lens && Flatten(fields) <= s {
      ChopFlatten(fields, s);
    }
  }

  lemma {:induction false} SumAppend(a: seq<nat>, b: seq<nat>)
    ensures Sum(a + b) == Sum(a) + Sum(b)
  {
    if a == [] {
      assert a + b == b;
    } else {
      SumAppend(a[1..], b);
      assert (a + b)[1..] == a[1..] + b;
    }
  }

  // ---- unfolding the generic functions on two and four fields ----

  lemma SumOf2(l: seq<nat>)
    requires |l| == 2
    ensures Sum(l) == l[0] + l[1]
  {
    assert Sum(l[1..]) == l[1];
  }

  lemma SumOf4(l: seq<nat>)
    requires |l| == 4
    ensures Sum(l) == l[0] + l[1] + l[2] + l[3]
  {
    SumOf2(l[2..]);
    assert l[1..][1..] == l[2..];
  }

  lemma FlattenOf2(f: seq<Text>)
    requires |f| == 2
    ensures Flatten(f) == f[0] + f[1]
  {
    assert Flatten(f[1..]) == f[1] + [];
  }

  lemma FlattenOf4(f: seq<Text>)
    requires |f| == 4
    ensures Flatten(f) == f[0] + f[1] + f[2] + f[3]
  {
    FlattenOf2(f[2..]);
    assert f[1..][1..] == f[2..];
    assert Flatten(f) == f[0] + (f[1] + (f[2] + f[3]));
  }

  /** Four fields that are all there cover the front of s. */
  lemma Pieces4(s: Text, l: seq<nat>)
    requires |l| == 4 && Sum(l) <= |s|
    ensures var f := Chop(s, l);
            && |f[0]| == l[0] && |f[1]| == l[1] && |f[2]| == l[2] && |f[3]| == l[3]
            && f[0] + f[1] + f[2] + f[3] == Take(s, l[0] + l[1] + l[2] + l[3])
  {
    var f := Chop(s, l);
    SumOf4(l);
    ChopTakes(s, l);
    ChopLens(s, l);
    FlattenOf4(f);
    assert |f[0]| == LensOf(f)[0] && |f[1]| == LensOf(f)[1] && |f[2]| == LensOf(f)[2] && |f[3]| == LensOf(f)[3];
  }

  lemma Chop2(s: Text, l: seq<nat>)
    requires |l| == 2
    ensures Chop(s, l) == [Take(s, l[0]), Take(Drop(s, l[0]), l[1])]
  {
    assert Chop(Drop(s, l[0]), l[1..])[0] == Take(Drop(s, l[0]), l[1]);
  }

  lemma Chop4(s: Text, l: seq<nat>)
    requires |l| == 4
    ensures Chop(s, l) == var s1 := Drop(s, l[0]); var s2 := Drop(s1, l[1]); var s3 := Drop(s2, l[2]);
                          [Take(s, l[0]), Take(s1, l[1]), Take(s2, l[2]), Take(s3, l[3])]
  {
    Chop2(Drop(Drop(s, l[0]), l[1]), l[2..]);
    assert l[1..][1..] == l[2..];
  }
}
