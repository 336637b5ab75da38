/** The table-driven CRCs of include/math/crc32.h against the bit-by-bit CRC, for any polynomial. The flag
    `refl` selects the reflected (lowest bit first) form. */
module Crc {
  import opened Registers

  // ----- one bit -----

  /** The bit that leaves the register first. */
  predicate First(refl: bool, c: bv32) { if refl then LowBit(c) else HighBit(c) }

  function Shift(refl: bool, c: bv32): bv32 { if refl then Shr1(c) else Shl1(c) }

  function Shift4(refl: bool, c: bv32): bv32 { if refl then Shr4(c) else Shl4(c) }

  function Shift8(refl: bool, c: bv32): bv32 { if refl then Shr8(c) else Shl8(c) }

  function Step(refl: bool, poly: bv32, c: bv32): bv32
  {
    if First(refl, c) then Xor(Shift(refl, c), poly) else Shift(refl, c)
  }

  /** n steps of the register. */
  function Steps(refl: bool, poly: bv32, n: nat, c: bv32): bv32
  {
    if n == 0 then c else Steps(refl, poly, n - 1, Step(refl, poly, c))
  }

  /** The definition of the CRC: the register takes in one message bit. */
  function BitStep(refl: bool, poly: bv32, c: bv32, bit: bool): bv32
  {
    if First(refl, c) != bit then Xor(Shift(refl, c), poly) else Shift(refl, c)
  }

  /** The first n bits of x are taken in, one after the other. */
  function BitSteps(refl: bool, poly: bv32, n: nat, c: bv32, x: bv32): bv32
  {
    if n == 0 then c
    else BitSteps(refl, poly, n - 1, BitStep(refl, poly, c, First(refl, x)), Shift(refl, x))
  }

  /** A byte or a table index in the place from which its bits leave first. */
  function Place(refl: bool, b: bv32): bv32 { if refl then b else Shl24(b) }

  /** The bit-by-bit CRC of a message. */
  function BitCrc(refl: bool, poly: bv32, c: bv32, msg: seq<bv8>): bv32
    decreases |msg|
  {
    if msg == [] then c
    else BitCrc(refl, poly, BitSteps(refl, poly, 8, c, Place(refl, msg[0] as bv32)), msg[1..])
  }

  // ----- the steps are linear -----

  lemma ShiftXor(refl: bool, a: bv32, b: bv32)
    ensures Shift(refl, Xor(a, b)) == Xor(Shift(refl, a), Shift(refl, b))
    ensures First(refl, Xor(a, b)) == (First(refl, a) != First(refl, b))
  {
    hide Xor, Shr1, Shl1, LowBit, HighBit;
    if refl {
      Shr1Xor(a, b);
      LowBitXor(a, b);
    } else {
      Shl1Xor(a, b);
      HighBitXor(a, b);
    }
  }

  lemma XorLaws(a: bv32, b: bv32, p: bv32)
    ensures Xor(Xor(a, p), Xor(b, p)) == Xor(a, b)
    ensures Xor(Xor(a, p), b) == Xor(Xor(a, b), p) && Xor(a, Xor(b, p)) == Xor(Xor(a, b), p)
  {
    hide Xor;
    XorAssoc(a, b, p);
    XorAssoc(a, p, b);
    XorComm(b, p);
    XorAssoc(Xor(a, p), b, p);
    XorAssoc(Xor(a, b), p, p);
    XorSelf(p);
    XorZero(Xor(a, b));
  }

  lemma StepXor(refl: bool, poly: bv32, a: bv32, b: bv32)
    ensures Step(refl, poly, Xor(a, b)) == Xor(Step(refl, poly, a), Step(refl, poly, b))
  {
    hide Xor, First, Shift;
    ShiftXor(refl, a, b);
    XorLaws(Shift(refl, a), Shift(refl, b), poly);
  }

  lemma {:induction false} StepsXor(refl: bool, poly: bv32, n: nat, a: bv32, b: bv32)
    ensures Steps(refl, poly, n, Xor(a, b)) == Xor(Steps(refl, poly, n, a), Steps(refl, poly, n, b))
  {
    hide Xor, Step;
    if n > 0 {
      StepXor(refl, poly, a, b);
      StepsXor(refl, poly, n - 1, Step(refl, poly, a), Step(refl, poly, b));
    }
  }

  lemma {:induction false} StepsAdd(refl: bool, poly: bv32, m: nat, n: nat, c: bv32)
    ensures Steps(refl, poly, m + n, c) == Steps(refl, poly, n, Steps(refl, poly, m, c))
  {
    hide Step;
    if m > 0 { StepsAdd(refl, poly, m - 1, n, Step(refl, poly, c)); }
  }

  function Shifts(refl: bool, n: nat, c: bv32): bv32
  {
    if n == 0 then c else Shifts(refl, n - 1, Shift(refl, c))
  }

  /** Taking message bits in one by one is putting them into the register at once. */
  lemma {:induction false} BitsAtOnce(refl: bool, poly: bv32, n: nat, c: bv32, x: bv32)
    ensures Steps(refl, poly, n, Xor(c, x)) == Xor(BitSteps(refl, poly, n, c, x), Shifts(refl, n, x))
  {
    hide Xor, First, Shift;
    if n > 0 {
      ShiftXor(refl, c, x);
      XorLaws(Shift(refl, c), Shift(refl, x), poly);
      BitsAtOnce(refl, poly, n - 1, BitStep(refl, poly, c, First(refl, x)), Shift(refl, x));
    }
  }

  lemma {:induction false} ShiftsAdd(refl: bool, m: nat, n: nat, c: bv32)
    ensures Shifts(refl, m + n, c) == Shifts(refl, n, Shifts(refl, m, c))
  {
    hide Shift;
    if m > 0 { ShiftsAdd(refl, m - 1, n, Shift(refl, c)); }
  }

  lemma ShiftsOne(refl: bool, c: bv32)
    ensures Shifts(refl, 1, c) == Shift(refl, c)
  {
    hide Shift;
    assert Shifts(refl, 0, Shift(refl, c)) == Shift(refl, c);
  }

  lemma ManyShifts(refl: bool, x: bv32)
    ensures Shifts(refl, 4, x) == Shift4(refl, x) && Shifts(refl, 8, x) == Shift8(refl, x)
  {
    hide Shifts, Shift4;
    FourShifts(refl, x);
    FourShifts(refl, Shift4(refl, x));
    ShiftsAdd(refl, 4, 4, x);
    TwiceFour(refl, x);
  }

  lemma FourShifts(refl: bool, x: bv32)
    ensures Shifts(refl, 4, x) == Shift4(refl, x)
  {
    hide Shifts, Shl1, Shr1, Shl4, Shr4;
    ShiftsAdd(refl, 1, 3, x);
    ShiftsOne(refl, x);
    var y := Shift(refl, x);
    ShiftsAdd(refl, 1, 2, y);
    ShiftsOne(refl, y);
    var z := Shift(refl, y);
    ShiftsAdd(refl, 1, 1, z);
    ShiftsOne(refl, z);
    ShiftsOne(refl, Shift(refl, z));
    if refl { FourDown(x); } else { FourUp(x); }
  }

  lemma TwiceFour(refl: bool, x: bv32)
    ensures Shift4(refl, Shift4(refl, x)) == Shift8(refl, x)
  {
    hide Shl4, Shr4, Shl8, Shr8;
    if refl { EightDown(x); } else { EightUp(x); }
  }

  /** A whole byte. */
  lemma ByteAtOnce(refl: bool, poly: bv32, c: bv32, b: bv32)
    requires b < 256
    ensures BitSteps(refl, poly, 8, c, Place(refl, b)) == Steps(refl, poly, 8, Xor(c, Place(refl, b)))
  {
    hide Xor, Steps, BitSteps, Shifts, Shl8, Shr8, Shl24;
    BitsAtOnce(refl, poly, 8, c, Place(refl, b));
    ManyShifts(refl, Place(refl, b));
    ByteLeaves(b);
    XorZero(BitSteps(refl, poly, 8, c, Place(refl, b)));
  }

  // ----- look-up tables -----

  /** The 256-entry table: eight steps of every index. */
  ghost predicate Table256(refl: bool, poly: bv32, t: seq<bv32>)
  {
    |t| == 256 && forall i: bv32 :: i < 256 ==> t[i as int] == Steps(refl, poly, 8, Place(refl, i))
  }

  /** The 16-entry table of the reflected form: four steps of every index. */
  ghost predicate Table16(poly: bv32, t: seq<bv32>)
  {
    |t| == 16 && forall i: bv32 :: i < 16 ==> t[i as int] == Steps(true, poly, 4, i)
  }

  /** The first nibble of the register is zero. */
  predicate NibbleClear(refl: bool, x: bv32) { if refl then Low4(x) == 0 else Shr28(x) == 0 }

  /** Four steps of such a register only shift it. */
  lemma QuietNibble(refl: bool, poly: bv32, x: bv32)
    requires NibbleClear(refl, x)
    ensures Steps(refl, poly, 4, x) == Shift4(refl, x)
  {
    hide Steps, Shift4, Shl1, Shr1, HighBit, LowBit, Low4, Shr28, Shifts;
    if refl { LowNibbleClear(x); } else { HighNibbleClear(x); }
    var y := Shift(refl, x);
    var z := Shift(refl, y);
    QuietStep(refl, poly, x, 3);
    QuietStep(refl, poly, y, 2);
    QuietStep(refl, poly, z, 1);
    QuietStep(refl, poly, Shift(refl, z), 0);
    FourShifts(refl, x);
  }

  lemma QuietStep(refl: bool, poly: bv32, x: bv32, n: nat)
    requires !First(refl, x)
    ensures Steps(refl, poly, n + 1, x) == Steps(refl, poly, n, Shift(refl, x)) && Steps(refl, poly, 0, x) == x
    ensures Steps(refl, poly, 0, Shift(refl, x)) == Shift(refl, x)
    ensures Shifts(refl, n + 1, x) == Shifts(refl, n, Shift(refl, x)) && Shifts(refl, 0, Shift(refl, x)) == Shift(refl, x)
  {
    hide First, Shift, Xor;
  }

  /** The nibble that leaves first, in its place. */
  function FirstNibble(refl: bool, c: bv32): bv32 { if refl then Low4(c) else Shl28(Shr28(c)) }

  /** Four steps: the nibble that leaves decides what is added to the shifted rest. */
  lemma FourSteps(refl: bool, poly: bv32, c: bv32)
    ensures Steps(refl, poly, 4, c) == Xor(Shift4(refl, c), Steps(refl, poly, 4, FirstNibble(refl, c)))
  {
    hide Xor, Steps, Shl4, Shr4, Shl28, Shr28, Low4, RestLow4, RestHigh4;
    var y := if refl then RestLow4(c) else RestHigh4(c);
    if refl {
      SplitLow4(c);
      RestOfLow4(c);
    } else {
      SplitHigh4(c);
      RestOfHigh4(c);
    }
    QuietNibble(refl, poly, y);
    StepsXor(refl, poly, 4, y, FirstNibble(refl, c));
  }

  /** The byte that leaves first, as an index. */
  function FirstByte(refl: bool, c: bv32): bv32 { if refl then Low8(c) else Shr24(c) }

  /** Eight steps: the byte that leaves decides. */
  lemma EightSteps(refl: bool, poly: bv32, c: bv32)
    ensures Steps(refl, poly, 8, c) == Xor(Shift8(refl, c), Steps(refl, poly, 8, Place(refl, FirstByte(refl, c))))
  {
    hide Xor, Steps, Shl4, Shr4, Shl8, Shr8, Shl24, Shr24, Shr28, Low4, Low8, RestLow8, RestHigh8;
    var y := if refl then RestLow8(c) else RestHigh8(c);
    if refl {
      SplitLow8(c);
      RestOfLow8(c);
    } else {
      SplitHigh8(c);
      RestOfHigh8(c);
    }
    QuietNibble(refl, poly, y);
    QuietNibble(refl, poly, Shift4(refl, y));
    StepsAdd(refl, poly, 4, 4, y);
    TwiceFour(refl, y);
    StepsXor(refl, poly, 8, y, Place(refl, FirstByte(refl, c)));
  }

  /** The first 16 entries of the normal table are its nibble table. */
  lemma NibbleEntries(poly: bv32, t: seq<bv32>, i: bv32)
    requires Table256(false, poly, t) && i < 16
    ensures t[i as int] == Steps(false, poly, 4, Shl28(i))
  {
    hide Steps, Shl4, Shl24, Shl28, Shr28;
    NibbleUp(i);
    StepsAdd(false, poly, 4, 4, Shl24(i));
    QuietNibble(false, poly, Shl24(i));
    assert i < 256 && t[i as int] == Steps(false, poly, 8, Place(false, i));
  }

  /** Every 16th entry of the reflected table is its nibble table. */
  lemma EverySixteenth(poly: bv32, t: seq<bv32>, t16: seq<bv32>, i: bv32)
    requires Table256(true, poly, t) && Table16(poly, t16) && i < 16
    ensures Shl4(i) < 256 && t16[i as int] == t[Shl4(i) as int]
  {
    hide Steps, Shl4, Shr4, Low4;
    NibbleDown(i);
    StepsAdd(true, poly, 4, 4, Shl4(i));
    QuietNibble(true, poly, Shl4(i));
    assert t[Shl4(i) as int] == Steps(true, poly, 8, Place(true, Shl4(i)));
  }

  // ----- the loops -----

  lemma {:induction false} BitCrcAppend(refl: bool, poly: bv32, c: bv32, x: seq<bv8>, y: seq<bv8>)
    ensures BitCrc(refl, poly, c, x + y) == BitCrc(refl, poly, BitCrc(refl, poly, c, x), y)
    decreases |x|
  {
    hide BitSteps, Place;
    if x == [] {
      assert x + y == y;
    } else {
      BitCrcAppend(refl, poly, BitSteps(refl, poly, 8, c, Place(refl, x[0] as bv32)), x[1..], y);
      assert (x + y)[1..] == x[1..] + y;
    }
  }

  lemma ByteIsSmall(b: bv8)
    ensures b as bv32 < 256
  {}

  lemma BitCrcNext(refl: bool, poly: bv32, c: bv32, buf: seq<bv8>, i: nat)
    requires i < |buf|
    ensures buf[i] as bv32 < 256
    ensures BitCrc(refl, poly, c, buf[..i + 1])
      == Steps(refl, poly, 8, Xor(BitCrc(refl, poly, c, buf[..i]), Place(refl, buf[i] as bv32)))
  {
    hide BitSteps, Steps, Xor, Place;
    var b, d := buf[i], BitCrc(refl, poly, c, buf[..i]);
    ByteIsSmall(b);
    assert buf[..i + 1] == buf[..i] + [b];
    BitCrcAppend(refl, poly, c, buf[..i], [b]);
    assert BitCrc(refl, poly, d, [b]) == BitSteps(refl, poly, 8, d, Place(refl, b as bv32));
    ByteAtOnce(refl, poly, d, b as bv32);
  }

  /** crc32_normal4. */
  method Normal4(table256: seq<bv32>, init: bv32, buf: seq<bv8>, ghost poly: bv32) returns (crc: bv32)
    requires Table256(false, poly, table256)
    ensures crc == BitCrc(false, poly, init, buf)
  {
    hide Steps, BitSteps, Xor, Shl24, Shl4, Shr28, Shl28, Table256;
    crc := init;
    assert buf[..0] == [];
    for i := 0 to |buf|
      invariant crc == BitCrc(false, poly, init, buf[..i])
    {
      BitCrcNext(false, poly, init, buf, i);
      crc := Xor(crc, Shl24(buf[i] as bv32));
      ghost var c := crc;
      crc := NormalNibble(table256, crc, poly);
      crc := NormalNibble(table256, crc, poly);
      StepsAdd(false, poly, 4, 4, c);
    }
    assert buf[..|buf|] == buf;
  }

  /** One table step of crc32_normal4. */
  method NormalNibble(table256: seq<bv32>, c: bv32, ghost poly: bv32) returns (crc: bv32)
    requires Table256(false, poly, table256)
    ensures crc == Steps(false, poly, 4, c)
  {
    hide Steps, Xor, Shl4, Shr28, Shl28, Shl24;
    NibbleRange(c);
    FourSteps(false, poly, c);
    NibbleEntries(poly, table256, Shr28(c));
    crc := Xor(Shl4(c), table256[Shr28(c) as int]);
  }

  /** crc32_normal8. */
  method Normal8(table256: seq<bv32>, init: bv32, buf: seq<bv8>, ghost poly: bv32) returns (crc: bv32)
    requires Table256(false, poly, table256)
    ensures crc == BitCrc(false, poly, init, buf)
  {
    hide Steps, BitSteps, Xor, Shl8, Shl24, Shr24;
    crc := init;
    assert buf[..0] == [];
    for i := 0 to |buf|
      invariant crc == BitCrc(false, poly, init, buf[..i])
    {
      BitCrcNext(false, poly, init, buf, i);
      var b := buf[i] as bv32;
      HighByteIndex(crc, b);
      HighByteRest(crc, b);
      EightSteps(false, poly, Xor(crc, Shl24(b)));
      crc := Xor(Shl8(crc), table256[Xor(Shr24(crc), b) as int]);
    }
    assert buf[..|buf|] == buf;
  }

  /** CRC32_SMALL_TBL_LIMIT. */
  const SMALL_TBL_LIMIT: nat := 64

  /** crc32_normal: the choice of the loop does not show in the result. */
  method Normal(table256: seq<bv32>, init: bv32, buf: seq<bv8>, ghost poly: bv32) returns (crc: bv32)
    requires Table256(false, poly, table256)
    ensures crc == BitCrc(false, poly, init, buf)
  {
    hide Steps, BitSteps, Table256;
    if SMALL_TBL_LIMIT > |buf| {
      crc := Normal4(table256, init, buf, poly);
    } else {
      crc := Normal8(table256, init, buf, poly);
    }
  }

  /** crc32_reflect4. */
  method Reflect4(table16: seq<bv32>, init: bv32, buf: seq<bv8>, ghost poly: bv32) returns (crc: bv32)
    requires Table16(poly, table16)
    ensures crc == BitCrc(true, poly, init, buf)
  {
    hide Steps, BitSteps, Xor, Table16, Low4, Shr4;
    crc := init;
    assert buf[..0] == [];
    for i := 0 to |buf|
      invariant crc == BitCrc(true, poly, init, buf[..i])
    {
      BitCrcNext(true, poly, init, buf, i);
      crc := Xor(crc, buf[i] as bv32);
      ghost var c := crc;
      crc := ReflectNibble(table16, crc, poly);
      crc := ReflectNibble(table16, crc, poly);
      StepsAdd(true, poly, 4, 4, c);
    }
    assert buf[..|buf|] == buf;
  }

  /** One table step of crc32_reflect4. */
  method ReflectNibble(table16: seq<bv32>, c: bv32, ghost poly: bv32) returns (crc: bv32)
    requires Table16(poly, table16)
    ensures crc == Steps(true, poly, 4, c)
  {
    hide Steps, Xor, Shr4, Low4;
    NibbleRange(c);
    FourSteps(true, poly, c);
    crc := Xor(Shr4(c), table16[Low4(c) as int]);
  }

  /** crc32_reflect8. */
  method Reflect8(table256: seq<bv32>, init: bv32, buf: seq<bv8>, ghost poly: bv32) returns (crc: bv32)
    requires Table256(true, poly, table256)
    ensures crc == BitCrc(true, poly, init, buf)
  {
    hide Steps, BitSteps, Xor, Shr8, Low8;
    crc := init;
    assert buf[..0] == [];
    for i := 0 to |buf|
      invariant crc == BitCrc(true, poly, init, buf[..i])
    {
      BitCrcNext(true, poly, init, buf, i);
      var b := buf[i] as bv32;
      LowByteIndex(crc, b);
      LowByteRest(crc, b);
      EightSteps(true, poly, Xor(crc, b));
      crc := Xor(Shr8(crc), table256[Low8(Xor(b, crc)) as int]);
    }
    assert buf[..|buf|] == buf;
  }

  datatype Table = NoTable | Table(entries: seq<bv32>)

  /** crc32_reflect; the small table may be missing. */
  method Reflect(table256: seq<bv32>, table16: Table, init: bv32, buf: seq<bv8>, ghost poly: bv32) returns (crc: bv32)
    requires Table256(true, poly, table256) && (table16.Table? ==> Table16(poly, table16.entries))
    ensures crc == BitCrc(true, poly, init, buf)
  {
    hide Steps, BitSteps, Table256, Table16;
    if table16.Table? && SMALL_TBL_LIMIT > |buf| {
      crc := Reflect4(table16.entries, init, buf, poly);
    } else {
      crc := Reflect8(table256, init, buf, poly);
    }
  }

  // ----- the update macros -----

  /** crc32a_update, crc32cksum_update, crc32mpeg2_update, crc32q_update. */
  method NormalUpdate(table256: seq<bv32>, complement: bool, crc: bv32, data: seq<bv8>, ghost poly: bv32)
    returns (r: bv32)
    requires Table256(false, poly, table256)
    ensures complement ==> !r == BitCrc(false, poly, !crc, data)
    ensures !complement ==> r == BitCrc(false, poly, crc, data)
  {
    hide BitCrc, Table256;
    if complement {
      r := Normal(table256, Not(crc), data, poly);
      r := Not(r);
    } else {
      r := Normal(table256, crc, data, poly);
    }
  }

  /** crc32b_update, crc32jamcrc_update, crc32c_update, crc32d_update. */
  method ReflectUpdate(table256: seq<bv32>, table16: Table, complement: bool, crc: bv32, data: seq<bv8>,
                       ghost poly: bv32)
    returns (r: bv32)
    requires Table256(true, poly, table256) && (table16.Table? ==> Table16(poly, table16.entries))
    ensures complement ==> !r == BitCrc(true, poly, !crc, data)
    ensures !complement ==> r == BitCrc(true, poly, crc, data)
  {
    hide BitCrc, Table256, Table16;
    if complement {
      r := Reflect(table256, table16, Not(crc), data, poly);
      r := Not(r);
    } else {
      r := Reflect(table256, table16, crc, data, poly);
    }
  }

  /** Feeding a message in two parts, to either method, is feeding it at once. */
  lemma UpdateTwice(refl: bool, complement: bool, poly: bv32, crc: bv32, x: seq<bv8>, y: seq<bv8>, r1: bv32, r2: bv32)
    requires complement ==> !r1 == BitCrc(refl, poly, !crc, x) && !r2 == BitCrc(refl, poly, !r1, y)
    requires !complement ==> r1 == BitCrc(refl, poly, crc, x) && r2 == BitCrc(refl, poly, r1, y)
    ensures complement ==> !r2 == BitCrc(refl, poly, !crc, x + y)
    ensures !complement ==> r2 == BitCrc(refl, poly, crc, x + y)
  {
    hide BitCrc;
    BitCrcAppend(refl, poly, if complement then !crc else crc, x, y);
  }

  /** The checksums crc32a and crc32b of the one byte "1". */
  lemma OneByte()
    ensures !BitCrc(false, 0x04c11db7, 0xffff_ffff, [0x31]) == 0x6104306c
    ensures !BitCrc(true, 0xedb88320, 0xffff_ffff, [0x31]) == 0x83dcefb7
  {
    assert BitSteps(false, 0x04c11db7, 8, 0xffff_ffff, 0x3100_0000) == 0x9efbcf93;
    assert BitSteps(true, 0xedb88320, 8, 0xffff_ffff, 0x31) == 0x7c231048;
  }
}
