/** A dynamic array of bits, packed into bytes: the occupancy map of the overflow file. */
module Bitarrays {

  function ByteCount(size: nat): nat {
    size / 8 + 1
  }

  /** There is always room for one bit more. */
  lemma ByteCountIs(size: nat)
    ensures 8 * (ByteCount(size) - 1) <= size < 8 * ByteCount(size)
  {
  }

  function Mask(bit: nat): bv8
    requires bit < 8
  {
    1 << bit
  }

  predicate BitOf(byte: bv8, bit: nat)
    requires bit < 8
  {
    byte & Mask(bit) != 0
  }

  lemma Masks()
    ensures Mask(0) == 1 && Mask(1) == 2 && Mask(2) == 4 && Mask(3) == 8
    ensures Mask(4) == 16 && Mask(5) == 32 && Mask(6) == 64 && Mask(7) == 128
  {
  }

  lemma MasksApart(bit: nat, b: nat)
    requires bit < 8 && b < 8
    ensures Mask(bit) & Mask(b) == if b == bit then Mask(bit) else 0
    ensures Mask(bit) != 0
  {
    hide Mask;
    Masks();
    assert bit == 0 || bit == 1 || bit == 2 || bit == 3 || bit == 4 || bit == 5 || bit == 6 || bit == 7;
    assert b == 0 || b == 1 || b == 2 || b == 3 || b == 4 || b == 5 || b == 6 || b == 7;
  }

  lemma Masked(x: bv8, m: bv8, n: bv8)
    ensures (x & !m) & m == 0 && (x | m) & m == m
    ensures m & n == 0 ==> (x & !m) & n == x & n && (x | m) & n == x & n
  {
  }

  lemma RaisedBits(byte: bv8, bit: nat)
    requires bit < 8
    ensures forall b | 0 <= b < 8 :: BitOf(byte | Mask(bit), b) == (b == bit || BitOf(byte, b))
  {
    hide Mask;
    forall b | 0 <= b < 8
      ensures BitOf(byte | Mask(bit), b) == (b == bit || BitOf(byte, b))
    {
      MasksApart(bit, b);
      Masked(byte, Mask(bit), Mask(b));
    }
  }

  lemma LoweredBits(byte: bv8, bit: nat)
    requires bit < 8
    ensures forall b | 0 <= b < 8 :: BitOf(byte & !Mask(bit), b) == (b != bit && BitOf(byte, b))
  {
    hide Mask;
    forall b | 0 <= b < 8
      ensures BitOf(byte & !Mask(bit), b) == (b != bit && BitOf(byte, b))
    {
      MasksApart(bit, b);
      Masked(byte, Mask(bit), Mask(b));
    }
  }

  function Raise(byte: bv8, bit: nat): (r: bv8)
    requires bit < 8
    ensures forall b | 0 <= b < 8 :: BitOf(r, b) == (b == bit || BitOf(byte, b))
  {
    hide BitOf, Mask;
    RaisedBits(byte, bit);
    byte | Mask(bit)
  }

  function Lower(byte: bv8, bit: nat): (r: bv8)
    requires bit < 8
    ensures forall b | 0 <= b < 8 :: BitOf(r, b) == (b != bit && BitOf(byte, b))
  {
    hide BitOf, Mask;
    LoweredBits(byte, bit);
    byte & !Mask(bit)
  }

  lemma ZeroByte(b: nat)
    requires b < 8
    ensures !BitOf(0, b)
  {
  }

  lemma FullByte(byte: bv8, b: nat)
    requires b < 8 && byte == 0xff
    ensures BitOf(byte, b)
  {
  }

  /** Bit `i` of a byte string; bits past the end read as unset. */
  predicate BitAt(bytes: seq<bv8>, i: nat) {
    i / 8 < |bytes| && BitOf(bytes[i / 8], i % 8)
  }

  function BitsOf(bytes: seq<bv8>, size: nat): (r: seq<bool>)
    ensures |r| == size && forall i | 0 <= i < size :: r[i] == BitAt(bytes, i)
  {
    seq(size, i requires 0 <= i < size => BitAt(bytes, i))
  }

  class Bitarray {
    var bytes: seq<bv8>
    var size: nat

    predicate Valid()
      reads this
    {
      size == 0 || |bytes| == ByteCount(size)
    }

    /** No bit is set past the end; the table relies on it when the array grows again. */
    ghost predicate Clean()
      reads this
    {
      forall i: nat :: i >= size ==> !BitAt(bytes, i)
    }

    ghost function View(): seq<bool>
      reads this
    {
      BitsOf(bytes, size)
    }

    constructor ()
      ensures Valid() && Clean() && View() == []
    {
      bytes, size := [], 0;
    }

    constructor SetBytes(bytes: seq<bv8>, size: nat)
      requires |bytes| == ByteCount(size)
      ensures Valid() && View() == BitsOf(bytes, size) && this.bytes == bytes
    {
      this.bytes, this.size := bytes, size;
    }

    method IsSet(index: nat) returns (r: bool)
      requires Valid() && index < size
      ensures r == View()[index]
    {
      r := BitOf(bytes[index / 8], index % 8);
    }

    method Set(index: nat)
      requires Valid() && index < size
      modifies this
      ensures Valid() && View() == old(View())[index := true]
      ensures old(Clean()) ==> Clean()
    {
      var byte := index / 8;
      bytes := bytes[byte := Raise(bytes[byte], index % 8)];
      SameSlot(index);
      forall i: nat
        ensures BitAt(bytes, i) == if i == index then true else BitAt(old(bytes), i)
      {
      }
    }

    method Unset(index: nat)
      requires Valid() && index < size
      modifies this
      ensures Valid() && View() == old(View())[index := false]
      ensures old(Clean()) ==> Clean()
    {
      var byte := index / 8;
      bytes := bytes[byte := Lower(bytes[byte], index % 8)];
      SameSlot(index);
      forall i: nat
        ensures BitAt(bytes, i) == if i == index then false else BitAt(old(bytes), i)
      {
      }
    }

    /** The new bits are unset exactly when the bits past the old end were. */
    method Resize(newSize: nat)
      requires Valid()
      modifies this
      ensures Valid() && size == newSize && |bytes| == ByteCount(size)
      ensures forall i: nat :: BitAt(bytes, i) == (i / 8 < ByteCount(newSize) && BitAt(old(bytes), i))
      ensures View() == Resized(old(View()), newSize)
         <==> forall i | old(size) <= i < newSize :: !BitAt(old(bytes), i)
      ensures old(Clean()) && (forall i | newSize <= i < old(size) :: !old(View())[i]) ==> Clean()
    {
      hide BitAt, BitsOf, Resized;
      var n := ByteCount(newSize);
      if n <= |bytes| {
        bytes := bytes[..n];
      } else {
        bytes := bytes + seq(n - |bytes|, _ => 0);
      }
      size := newSize;
      assert bytes == ResizedBytes(old(bytes), n);
      ResizedBits(old(bytes), n);
      ResizedView(old(bytes), bytes, old(size), newSize);
    }

    /** The first unset bit, found by skipping full bytes; `size` if all bits are set. */
    method FirstUnset() returns (i: nat)
      requires Valid() && Clean()
      ensures i <= size && (i < size ==> !View()[i])
      ensures forall k | 0 <= k < i :: View()[k]
    {
      i := 0;
      var j := 0;
      while j < |bytes| && bytes[j] == 0xff
        invariant 0 <= j <= |bytes| && i == 8 * j
        invariant forall k | 0 <= k < i :: BitAt(bytes, k)
      {
        forall k | i <= k < i + 8
          ensures BitAt(bytes, k)
        {
          assert k / 8 == j;
          FullByte(bytes[j], k % 8);
        }
        i := i + 8;
        j := j + 1;
      }
      assert i > size ==> BitAt(bytes, size);
      while i < size
        invariant i <= size
        invariant forall k | 0 <= k < i :: BitAt(bytes, k)
      {
        if !BitOf(bytes[i / 8], i % 8) {
          return;
        }
        i := i + 1;
      }
    }
  }

  /** Cutting or zero-extending a byte string. */
  function ResizedBytes(bytes: seq<bv8>, n: nat): seq<bv8> {
    if n <= |bytes| then bytes[..n] else bytes + seq(n - |bytes|, _ => 0)
  }

  lemma ResizedBits(bytes: seq<bv8>, n: nat)
    ensures forall i: nat :: BitAt(ResizedBytes(bytes, n), i) == (i / 8 < n && BitAt(bytes, i))
  {
    forall i: nat
      ensures BitAt(ResizedBytes(bytes, n), i) == (i / 8 < n && BitAt(bytes, i))
    {
      ZeroByte(i % 8);
    }
  }

  /** The resized array shows the old bits, and unset ones behind them, exactly when the bytes do. */
  lemma ResizedView(a: seq<bv8>, b: seq<bv8>, size: nat, newSize: nat)
    requires forall i: nat :: BitAt(b, i) == (i / 8 < ByteCount(newSize) && BitAt(a, i))
    ensures BitsOf(b, newSize) == Resized(BitsOf(a, size), newSize) <==> forall i | size <= i < newSize :: !BitAt(a, i)
  {
    hide BitAt;
    var view, want := BitsOf(b, newSize), Resized(BitsOf(a, size), newSize);
    forall i | 0 <= i < newSize
      ensures view[i] == BitAt(a, i) && want[i] == (i < size && BitAt(a, i))
    {
    }
    if view == want {
      forall i | size <= i < newSize
        ensures !BitAt(a, i)
      {
        assert view[i] == want[i];
      }
    }
  }

  lemma SameSlot(i: nat)
    ensures forall k: nat :: k / 8 == i / 8 && k % 8 == i % 8 ==> k == i
  {
  }

  function Resized(s: seq<bool>, n: nat): seq<bool> {
    if n <= |s| then s[..n] else s + seq(n - |s|, _ => false)
  }

  /** Shrinking over a set bit and growing again shows it again: with bit 3 of 4 set, cutting the
      array to 2 bits and growing it to 4 leaves it set, since both sizes take one byte. */
  method ResizeResurrects() returns (b: Bitarray)
    ensures fresh(b) && b.size == 4 && b.View()[3]
  {
    b := new Bitarray();
    b.Resize(4);
    b.Set(3);
    assert b.View()[3];
    b.Resize(2);
    assert BitAt(b.bytes, 3);
    b.Resize(4);
  }
}
