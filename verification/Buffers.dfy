/** A fixed-size byte buffer with an index and a stop, and the encoding of integers in it. */
module Buffers {
  import opened Bits
  import opened Options

  type Byte = b: nat | b < 256

  datatype Endian = Little | Big

  const TWO_64: nat := 0x1_0000_0000_0000_0000

  type uint64 = n: nat | n < TWO_64

  // ---- Integers as bytes -------------------------------------------------------------------

  function Pow256(n: nat): (r: nat)
    ensures r > 0
  {
    if n == 0 then 1 else 256 * Pow256(n - 1)
  }

  function LowBytes(v: nat, n: nat): (s: seq<Byte>)
    ensures |s| == n
  {
    if n == 0 then [] else [v % 256] + LowBytes(v / 256, n - 1)
  }

  function FromLow(s: seq<Byte>): nat {
    if s == [] then 0 else s[0] + 256 * FromLow(s[1..])
  }

  lemma {:induction false} FromLowBytes(v: nat, n: nat)
    requires v < Pow256(n)
    ensures FromLow(LowBytes(v, n)) == v
  {
    if n > 0 {
      FromLowBytes(v / 256, n - 1);
      assert LowBytes(v, n)[1..] == LowBytes(v / 256, n - 1);
    }
  }

  lemma {:induction false} FromLowBound(s: seq<Byte>)
    ensures FromLow(s) < Pow256(|s|)
  {
    if s != [] {
      FromLowBound(s[1..]);
    }
  }

  function Reversed(s: seq<Byte>): (r: seq<Byte>)
    requires |s| == 8
    ensures |r| == 8
  {
    [s[7], s[6], s[5], s[4], s[3], s[2], s[1], s[0]]
  }

  /** An integer in memory on a host. */
  function Native(host: Endian, v: uint64): (s: seq<Byte>)
    ensures |s| == 8
  {
    if host == Little then LowBytes(v, 8) else Reversed(LowBytes(v, 8))
  }

  function FromNative(host: Endian, s: seq<Byte>): (v: uint64)
    requires |s| == 8
  {
    EightBytes();
    FromLowBound(s);
    FromLowBound(Reversed(s));
    if host == Little then FromLow(s) else FromLow(Reversed(s))
  }

  lemma EightBytes()
    ensures Pow256(8) == TWO_64
  {
    assert Pow256(1) == 256 && Pow256(2) == 0x1_0000 && Pow256(4) == 0x1_0000_0000 by {
      assert Pow256(3) == 0x100_0000;
    }
    assert Pow256(5) == 0x100_0000_0000 && Pow256(6) == 0x1_0000_0000_0000;
    assert Pow256(7) == 0x100_0000_0000_0000;
  }

  lemma NativeRoundTrip(host: Endian, v: uint64)
    ensures FromNative(host, Native(host, v)) == v
  {
    EightBytes();
    FromLowBytes(v, 8);
    assert Reversed(Reversed(LowBytes(v, 8))) == LowBytes(v, 8);
  }

  /** The bytes of an integer in a buffer of order `order`: swapped when the host's order differs. */
  function Encoded(host: Endian, order: Endian, v: uint64): (s: seq<Byte>)
    ensures |s| == 8
  {
    if host != order then Reversed(Native(host, v)) else Native(host, v)
  }

  function Decoded(host: Endian, order: Endian, s: seq<Byte>): uint64
    requires |s| == 8
  {
    FromNative(host, if host != order then Reversed(s) else s)
  }

  /** What one host writes another reads: the bytes depend on the order of the buffer only. */
  lemma EncodedAnyHost(writer: Endian, reader: Endian, order: Endian, v: uint64)
    ensures Encoded(writer, order, v) == Encoded(reader, order, v)
    ensures Decoded(reader, order, Encoded(writer, order, v)) == v
  {
    NativeRoundTrip(reader, v);
    var s := LowBytes(v, 8);
    assert Reversed(Reversed(s)) == s;
    assert Reversed(Reversed(Reversed(s))) == Reversed(s);
  }

  lemma {:induction false} LowByteAt(v: nat, n: nat, i: nat)
    requires i < n
    ensures LowBytes(v, n)[i] == (v / Pow256(i)) % 256
  {
    if i > 0 {
      LowByteAt(v / 256, n - 1, i - 1);
      assert LowBytes(v, n)[i] == LowBytes(v / 256, n - 1)[i - 1];
      Pow256More(i);
      hide Pow256, LowBytes;
      DivTwice(v, Pow256(i - 1));
    }
  }

  lemma DivTwice(v: nat, p: nat)
    requires p > 0
    ensures (v / 256) / p == v / (256 * p)
  {
    var q := v / (256 * p);
    var r := v - q * (256 * p);
    assert v == 256 * (q * p) + r && 0 <= r < 256 * p;
    assert v / 256 == q * p + r / 256;
    DivModUnique(q * p + r / 256, p, q, r / 256);
  }

  lemma Pow256More(i: nat)
    requires i > 0
    ensures Pow256(i) == 256 * Pow256(i - 1)
  {
  }

  /** What the bytes of an encoded integer are: on any host, the lowest byte first in a little-endian buffer
      and the highest byte first in a big-endian one. */
  lemma EncodedByte(host: Endian, order: Endian, v: uint64, i: nat)
    requires i < 8
    ensures Encoded(host, order, v)[i] == (v / Pow256(if order == Little then i else 7 - i)) % 256
  {
    hide LowBytes, Pow256;
    LowByteAt(v, 8, i);
    LowByteAt(v, 8, 7 - i);
  }

  /** Two's complement. */
  function ToUnsigned(v: int): uint64
    requires -(TWO_64 / 2) <= v < TWO_64 / 2
  {
    if v < 0 then v + TWO_64 else v
  }

  function ToSigned(v: uint64): int {
    if v >= TWO_64 / 2 then v - TWO_64 else v
  }

  /** It is the value modulo 2^64, and reads back. */
  lemma SignedIs(v: int)
    requires -(TWO_64 / 2) <= v < TWO_64 / 2
    ensures ToUnsigned(v) == v % TWO_64 && ToSigned(ToUnsigned(v)) == v
  {
  }

  // ---- The bounds check --------------------------------------------------------------------

  /** `index_ > stop_ - count` in 64-bit arithmetic. */
  predicate Rejects(index: uint64, stop: uint64, count: uint64) {
    index > (stop - count) % TWO_64
  }

  /** The check is right exactly when the access is no longer than the stop: beyond that the difference
      wraps around and every access is let through. */
  lemma RejectsIsRight(index: uint64, stop: uint64, count: uint64)
    requires index <= stop
    ensures (Rejects(index, stop, count) <==> index + count > stop) <==> count <= stop
  {
  }

  class Buffer {
    const host: Endian
    const order: Endian
    const bytes: array<Byte>
    var index: nat
    var stop: nat

    ghost predicate Valid()
      reads this
    {
      index <= stop <= bytes.Length < TWO_64
    }

    /** What has been written, and what is left to read. */
    ghost function Written(): seq<Byte>
      requires Valid()
      reads this, bytes
    {
      bytes[..index]
    }

    ghost function Left(): seq<Byte>
      requires Valid()
      reads this, bytes
    {
      bytes[index..stop]
    }

    constructor (host: Endian, order: Endian, capacity: uint64)
      ensures Valid() && this.host == host && this.order == order && fresh(bytes)
      ensures index == 0 && stop == bytes.Length == capacity
    {
      this.host, this.order := host, order;
      bytes := new Byte[capacity](_ => 0);
      index, stop := 0, capacity;
    }

    /** `put_bytes`. */
    method PutBytes(data: seq<Byte>) returns (ok: bool)
      requires Valid() && |data| <= stop
      modifies this`index, bytes
      ensures Valid() && (ok <==> old(index) + |data| <= stop)
      ensures ok ==> index == old(index) + |data| && Written() == old(Written()) + data
      ensures !ok ==> index == old(index) && bytes[..] == old(bytes[..])
      ensures bytes[index..] == old(bytes[..])[index..]
    {
      RejectsIsRight(index, stop, |data|);
      if index > (stop - |data|) % TWO_64 {
        return false;
      }
      ghost var before := bytes[..];
      forall i | 0 <= i < |data| {
        bytes[index + i] := data[i];
      }
      ghost var after := bytes[..];
      assert after[..index] == before[..index] && after[index..index + |data|] == data;
      assert after[index + |data|..] == before[index + |data|..];
      assert after[..index + |data|] == after[..index] + after[index..index + |data|];
      index := index + |data|;
      return true;
    }

    /** `get_bytes`. */
    method GetBytes(count: uint64) returns (data: Option<seq<Byte>>)
      requires Valid() && count <= stop
      modifies this`index
      ensures Valid() && (data.Some? <==> count <= |old(Left())|)
      ensures data.Some? ==> data.value == old(Left())[..count] && Left() == old(Left())[count..]
      ensures data.None? ==> index == old(index)
    {
      RejectsIsRight(index, stop, count);
      if index > (stop - count) % TWO_64 {
        return None;
      }
      ghost var left := Left();
      assert left[..count] == bytes[index..index + count] && left[count..] == bytes[index + count..stop];
      data := Some(bytes[index..index + count]);
      index := index + count;
    }

    method PutUint64(v: uint64) returns (ok: bool)
      requires Valid() && 8 <= stop
      modifies this`index, bytes
      ensures Valid() && (ok <==> old(index) + 8 <= stop)
      ensures ok ==> Written() == old(Written()) + Encoded(host, order, v)
    {
      ok := PutBytes(Encoded(host, order, v));
    }

    method GetUint64() returns (v: Option<uint64>)
      requires Valid() && 8 <= stop
      modifies this`index
      ensures Valid() && (v.Some? <==> |old(Left())| >= 8)
      ensures v.Some? ==> v.value == Decoded(host, order, old(Left())[..8]) && Left() == old(Left())[8..]
    {
      var data := GetBytes(8);
      v := match data case Some(s) => Some(Decoded(host, order, s)) case None => None;
    }

    /** `switch_mode`: from writing to reading what was written. */
    method SwitchMode()
      requires Valid()
      modifies this`index, this`stop
      ensures Valid() && index == 0 && Left() == old(Written())
    {
      stop := index;
      index := 0;
    }
  }
}
