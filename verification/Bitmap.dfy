/**
 The packed page bitmap of lib/uefi/bitmap.c. Bits are stored most significant
 first. The source's bounds tests use `>`, so the byte just past the last counted
 one (here the guard byte, buffer[size]) is read and written too; the model keeps
 that byte instead of assuming it is never reached.
 */
module Bitmap {

  /** 0x80 shifted right `k` times: bit `k` counted from the most significant. */
  function Mask(k: nat): bv8
    requires k < 8
  {
    match k
    case 0 => 0x80 case 1 => 0x40 case 2 => 0x20 case 3 => 0x10
    case 4 => 0x08 case 5 => 0x04 case 6 => 0x02 case _ => 0x01
  }

  predicate Has(b: bv8, m: bv8) {
    b & m != 0
  }

  predicate Bit(b: bv8, k: nat)
    requires k < 8
  {
    Has(b, Mask(k))
  }

  /** Clear the bits under `m`, then set them if `value` says so. */
  function Written(b: bv8, m: bv8, value: bool): bv8 {
    if value then (b & !m) | m else b & !m
  }

  /** The bits of a byte string, in page order. */
  function Unpack(bytes: seq<bv8>): (bits: seq<bool>)
    ensures |bits| == 8 * |bytes|
    ensures forall i :: 0 <= i < 8 * |bytes| ==> bits[i] == Bit(bytes[i / 8], i % 8)
  {
    seq(8 * |bytes|, i requires 0 <= i < 8 * |bytes| => Bit(bytes[i / 8], i % 8))
  }

  lemma {:induction false} MasksAreDistinctBits(k: nat, j: nat)
    requires k < 8 && j < 8
    ensures Mask(k) != 0
    ensures j != k ==> Mask(k) & Mask(j) == 0
  {
    assert Mask(0) == 0x80 && Mask(1) == 0x40 && Mask(2) == 0x20 && Mask(3) == 0x10;
    assert Mask(4) == 0x08 && Mask(5) == 0x04 && Mask(6) == 0x02 && Mask(7) == 0x01;
  }

  lemma {:induction false} MaskedAreShifted(b: bv8)
    ensures (b & 0x80 != 0 <==> (b >> 7) & 1 == 1) && (b & 0x40 != 0 <==> (b >> 6) & 1 == 1)
    ensures (b & 0x20 != 0 <==> (b >> 5) & 1 == 1) && (b & 0x10 != 0 <==> (b >> 4) & 1 == 1)
    ensures (b & 0x08 != 0 <==> (b >> 3) & 1 == 1) && (b & 0x04 != 0 <==> (b >> 2) & 1 == 1)
    ensures (b & 0x02 != 0 <==> (b >> 1) & 1 == 1) && (b & 0x01 != 0 <==> b & 1 == 1)
  {
  }

  /** The byte shifted right until its bit k, counted from the top, is the lowest. */
  function FromTop(b: bv8, k: nat): bv8
    requires k < 8
  {
    match k
    case 0 => b >> 7 case 1 => b >> 6 case 2 => b >> 5 case 3 => b >> 4
    case 4 => b >> 3 case 5 => b >> 2 case 6 => b >> 1 case _ => b
  }

  lemma {:induction false} BitCountsFromTop(b: bv8, k: nat)
    requires k < 8
    ensures Bit(b, k) <==> FromTop(b, k) & 1 == 1
  {
    MaskedAreShifted(b);
  }

  /** Writing under one mask shows there, and under no disjoint one. */
  lemma {:induction false} WriteMasked(b: bv8, m: bv8, n: bv8, value: bool)
    requires m != 0 && (m == n || m & n == 0)
    ensures Has(Written(b, m, value), n) == if m == n then value else Has(b, n)
  {
  }

  /** Writing one bit leaves the other seven alone. */
  lemma {:induction false} WriteBit(b: bv8, k: nat, j: nat, value: bool)
    requires k < 8 && j < 8
    ensures Bit(Written(b, Mask(k), value), j) == if j == k then value else Bit(b, j)
  {
    hide Mask, Written, Has;
    MasksAreDistinctBits(k, j);
    MasksAreDistinctBits(j, k);
    WriteMasked(b, Mask(k), Mask(j), value);
  }

  function WriteByte(b: bv8, k: nat, value: bool): (r: bv8)
    requires k < 8
    ensures forall j :: 0 <= j < 8 ==> Bit(r, j) == if j == k then value else Bit(b, j)
  {
    assert forall j :: 0 <= j < 8 ==> Bit(Written(b, Mask(k), value), j) == if j == k then value else Bit(b, j) by {
      hide Mask, Written, Has;
      forall j | 0 <= j < 8
        ensures Bit(Written(b, Mask(k), value), j) == if j == k then value else Bit(b, j)
      {
        WriteBit(b, k, j, value);
      }
    }
    Written(b, Mask(k), value)
  }

  class BitMap {
    var size: nat
    var buffer: array<bv8>

    /** The guard byte at buffer[size] exists. */
    ghost predicate Valid()
      reads this
    {
      size < buffer.Length
    }

    /** Every bit the accessors can reach: 8 * size counted ones, then 8 guard bits. */
    ghost function Bits(): (bits: seq<bool>)
      reads this, buffer
      requires Valid()
      ensures |bits| == 8 * (size + 1)
    {
      Unpack(buffer[..size + 1])
    }

    constructor (size: nat, buffer: array<bv8>)
      requires size < buffer.Length
      ensures Valid() && this.size == size && this.buffer == buffer
    {
      this.size, this.buffer := size, buffer;
    }

    function GetVal(index: nat): (value: bool)
      reads this, buffer
      requires Valid()
      ensures value == (index < |Bits()| && Bits()[index])
      ensures value == (index / 8 <= size && FromTop(buffer[index / 8], index % 8) & 1 == 1)
    {
      if index / 8 > size then false
      else
        BitCountsFromTop(buffer[index / 8], index % 8);
        Bit(buffer[index / 8], index % 8)
    }

    method SetVal(index: nat, value: bool) returns (ok: bool)
      requires Valid()
      modifies buffer
      ensures Valid() && ok == (index < |old(Bits())|)
      ensures Bits() == if ok then old(Bits())[index := value] else old(Bits())
      ensures forall i :: size < i < buffer.Length ==> buffer[i] == old(buffer[i])
    {
      var byteIndex := index / 8;
      if byteIndex > size {
        return false;
      }
      buffer[byteIndex] := WriteByte(buffer[byteIndex], index % 8, value);
      return true;
    }
  }
}
