/** Single bits of bytes and byte strings, for the bitmaps of the reassembly helper and of the DHCP option store. */
module ByteBits {

  function Mask(k: nat): bv8
    requires k < 8
  {
    if k == 0 then 0x01 else if k == 1 then 0x02 else if k == 2 then 0x04 else if k == 3 then 0x08
    else if k == 4 then 0x10 else if k == 5 then 0x20 else if k == 6 then 0x40 else 0x80
  }

  predicate ByteBit(b: bv8, k: nat)
    requires k < 8
  {
    b & Mask(k) != 0
  }

  function WithBit(b: bv8, k: nat): bv8
    requires k < 8
  {
    b | Mask(k)
  }

  function WithoutBit(b: bv8, k: nat): bv8
    requires k < 8
  {
    b & !Mask(k)
  }

  lemma WithBitSets(b: bv8, k: nat, j: nat)
    requires k < 8 && j < 8
    ensures ByteBit(WithBit(b, k), j) <==> j == k || ByteBit(b, j)
  {}

  lemma WithoutBitClears(b: bv8, k: nat, j: nat)
    requires k < 8 && j < 8
    ensures ByteBit(WithoutBit(b, k), j) <==> j != k && ByteBit(b, j)
  {}

  lemma AndBits(a: bv8, b: bv8, k: nat)
    requires k < 8
    ensures ByteBit(a & b, k) <==> ByteBit(a, k) && ByteBit(b, k)
  {}

  lemma NoBitSet(k: nat)
    requires k < 8
    ensures !ByteBit(0, k)
  {}

  // ----- byte strings -----

  predicate Got(bits: seq<bv8>, i: nat)
    requires i / 8 < |bits|
  {
    ByteBit(bits[i / 8], i % 8)
  }

  function Marked(bits: seq<bv8>, i: nat): (r: seq<bv8>)
    requires i / 8 < |bits|
    ensures |r| == |bits|
  {
    bits[i / 8 := WithBit(bits[i / 8], i % 8)]
  }

  function Unmarked(bits: seq<bv8>, i: nat): (r: seq<bv8>)
    requires i / 8 < |bits|
    ensures |r| == |bits|
  {
    bits[i / 8 := WithoutBit(bits[i / 8], i % 8)]
  }

  lemma MarkedGot(bits: seq<bv8>, i: nat, j: nat)
    requires i / 8 < |bits| && j / 8 < |bits|
    ensures Got(Marked(bits, i), j) <==> j == i || Got(bits, j)
    ensures Got(Unmarked(bits, i), j) <==> j != i && Got(bits, j)
  {
    hide ByteBit, WithBit, WithoutBit;
    WithBitSets(bits[i / 8], i % 8, j % 8);
    WithoutBitClears(bits[i / 8], i % 8, j % 8);
  }
}
