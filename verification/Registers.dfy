/** 32-bit registers: the bit operations of include/math/crc32.h and the few laws the CRC proofs need. */
module Registers {

  function Xor(a: bv32, b: bv32): bv32 { a ^ b }

  function Not(a: bv32): bv32 { !a }

  function Shl1(a: bv32): bv32 { a << 1 }

  function Shl4(a: bv32): bv32 { a << 4 }

  function Shl8(a: bv32): bv32 { a << 8 }

  function Shl24(a: bv32): bv32 { a << 24 }

  function Shl28(a: bv32): bv32 { a << 28 }

  function Shr1(a: bv32): bv32 { a >> 1 }

  function Shr4(a: bv32): bv32 { a >> 4 }

  function Shr8(a: bv32): bv32 { a >> 8 }

  function Shr24(a: bv32): bv32 { a >> 24 }

  function Shr28(a: bv32): bv32 { a >> 28 }

  function Low4(a: bv32): bv32 { a & 0x0000_000f }

  function Low8(a: bv32): bv32 { a & 0x0000_00ff }

  predicate HighBit(a: bv32) { a >> 31 == 1 }

  predicate LowBit(a: bv32) { a & 1 == 1 }

  lemma XorAssoc(a: bv32, b: bv32, c: bv32)
    ensures Xor(Xor(a, b), c) == Xor(a, Xor(b, c))
  {}

  lemma XorComm(a: bv32, b: bv32)
    ensures Xor(a, b) == Xor(b, a)
  {}

  lemma XorSelf(a: bv32)
    ensures Xor(a, a) == 0
  {}

  lemma XorZero(a: bv32)
    ensures Xor(a, 0) == a
  {}

  lemma Shl1Xor(a: bv32, b: bv32)
    ensures Shl1(Xor(a, b)) == Xor(Shl1(a), Shl1(b))
  {}

  lemma Shr1Xor(a: bv32, b: bv32)
    ensures Shr1(Xor(a, b)) == Xor(Shr1(a), Shr1(b))
  {}

  lemma HighBitXor(a: bv32, b: bv32)
    ensures HighBit(Xor(a, b)) == (HighBit(a) != HighBit(b))
  {}

  lemma LowBitXor(a: bv32, b: bv32)
    ensures LowBit(Xor(a, b)) == (LowBit(a) != LowBit(b))
  {}

  lemma FourUp(a: bv32)
    ensures Shl1(Shl1(Shl1(Shl1(a)))) == Shl4(a)
  {}

  lemma FourDown(a: bv32)
    ensures Shr1(Shr1(Shr1(Shr1(a)))) == Shr4(a)
  {}

  lemma EightUp(a: bv32)
    ensures Shl4(Shl4(a)) == Shl8(a)
  {}

  lemma EightDown(a: bv32)
    ensures Shr4(Shr4(a)) == Shr8(a)
  {}

  /** No bit of the high nibble is set. */
  lemma HighNibbleClear(a: bv32)
    requires Shr28(a) == 0
    ensures !HighBit(a) && !HighBit(Shl1(a)) && !HighBit(Shl1(Shl1(a))) && !HighBit(Shl1(Shl1(Shl1(a))))
  {}

  lemma LowNibbleClear(a: bv32)
    requires Low4(a) == 0
    ensures !LowBit(a) && !LowBit(Shr1(a)) && !LowBit(Shr1(Shr1(a))) && !LowBit(Shr1(Shr1(Shr1(a))))
  {}

  // A register is its first nibble or byte and the rest.

  function RestHigh4(a: bv32): bv32 { a & 0x0fff_ffff }

  function RestLow4(a: bv32): bv32 { a & 0xffff_fff0 }

  function RestHigh8(a: bv32): bv32 { a & 0x00ff_ffff }

  function RestLow8(a: bv32): bv32 { a & 0xffff_ff00 }

  lemma SplitHigh4(a: bv32)
    ensures a == Xor(RestHigh4(a), Shl28(Shr28(a)))
  {}

  lemma SplitLow4(a: bv32)
    ensures a == Xor(RestLow4(a), Low4(a))
  {}

  lemma SplitHigh8(a: bv32)
    ensures a == Xor(RestHigh8(a), Shl24(Shr24(a)))
  {}

  lemma SplitLow8(a: bv32)
    ensures a == Xor(RestLow8(a), Low8(a))
  {}

  lemma RestOfHigh4(a: bv32)
    ensures Shr28(RestHigh4(a)) == 0 && Shl4(RestHigh4(a)) == Shl4(a)
  {}

  lemma RestOfLow4(a: bv32)
    ensures Low4(RestLow4(a)) == 0 && Shr4(RestLow4(a)) == Shr4(a)
  {}

  lemma RestOfHigh8(a: bv32)
    ensures Shr28(RestHigh8(a)) == 0 && Shr28(Shl4(RestHigh8(a))) == 0 && Shl8(RestHigh8(a)) == Shl8(a)
  {}

  lemma RestOfLow8(a: bv32)
    ensures Low4(RestLow8(a)) == 0 && Low4(Shr4(RestLow8(a))) == 0 && Shr8(RestLow8(a)) == Shr8(a)
  {}

  // Table indices.

  lemma NibbleRange(a: bv32)
    ensures Shr28(a) < 16 && Low4(a) < 16
  {}

  lemma HighByteIndex(c: bv32, b: bv32)
    requires b < 256
    ensures Xor(Shr24(c), b) < 256 && Shr24(Xor(c, Shl24(b))) == Xor(Shr24(c), b)
  {}

  lemma HighByteRest(c: bv32, b: bv32)
    ensures Shl8(Xor(c, Shl24(b))) == Shl8(c)
  {}

  lemma LowByteIndex(c: bv32, b: bv32)
    ensures Low8(Xor(b, c)) < 256 && Low8(Xor(c, b)) == Low8(Xor(b, c))
  {}

  lemma LowByteRest(c: bv32, b: bv32)
    requires b < 256
    ensures Shr8(Xor(c, b)) == Shr8(c)
  {}

  lemma ByteLeaves(b: bv32)
    requires b < 256
    ensures Shl8(Shl24(b)) == 0 && Shr8(b) == 0
  {}

  lemma NibbleUp(i: bv32)
    requires i < 16
    ensures Shr28(Shl24(i)) == 0 && Shl4(Shl24(i)) == Shl28(i)
  {}

  lemma NibbleDown(i: bv32)
    requires i < 16
    ensures Shl4(i) < 256 && Low4(Shl4(i)) == 0 && Shr4(Shl4(i)) == i
  {}
}
