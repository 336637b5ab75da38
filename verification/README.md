# Proofs about liblcb

This project models the arithmetic, checksum and protocol cores of liblcb and proves what they are for. The
models keep the form of the C code: a structure that functions update is a class, an in-place algorithm works on
an array, a loop is a loop. Every method states its whole result or its whole new state, and what that means is
proved as lemmas beside it.

- **Big numbers** (`Numbers`, `Digits`, `Shifts`, `Bits`, `BigNum`). A number is an array of 64-bit digits in
  2048-bit storage, of which `digits` are significant and `count` may be used; what lies above `digits` is garbage
  until the delayed initialization clears it. No contract lets a result depend on that garbage. On top of them:
  exact multiplication (`Multiply`), division by estimated digits (`Divide`), modular arithmetic and
  exponentiation (`Modular`), binary inversion (`ModInverse`), Stein's gcd (`GcdBin`), the abacus square root
  (`SquareRoot`), and the signed recodings (`Naf`, `Jsf`). Results are conditional on status 0; where the
  source can run out of room the contract also says what room guarantees status 0.
- **Scalar multiplication** (`Groups`, `Comb`, `FixedBase`, `TwinMult`). Points are the elements of any abelian
  group passed as a value. Binary, fixed-window, one-table and two-table comb multiplication all return d P; the
  joint sparse form and the interleaved NAF return ad a + bd b.
- **Point addition** (`Field`, `Jacobian`, `CurveLaws`, `FieldOps`, `PointOps`). Over any prime field with p > 3,
  Jacobian addition, doubling and normalization agree with affine chord-and-tangent addition in all cases. The
  methods work on big number objects: with the room of EC_CURVE_CALC_BITS_DBL every modular operation inside
  succeeds and is the field operation. Chord and tangent keep points on the curve, commute, and give the point at
  infinity exactly for opposite points.
- **CRC-32** (`Registers`, `Crc`). For every polynomial, both bit orders, every message: the nibble loop and the
  byte loop equal the bit-by-bit checksum, and so do the update macros with and without complement.
- **Fragment reassembly** (`ByteBits`, `Reass`, `Reassembly`). The helper's step function with the exact condition of
  every answer and every field of the state it leaves, and its whole runs over
  every arrival order of the pieces of a message with duplicates.
- **DNS names in DHCPv6** (`DnsName`, section 3.1 of RFC 1035). Encoder and decoder against one grammar, and
  their round trip.
- **DHCPv4 options** (`Dhcp4Wire`, `Dhcp4`, `Dhcp4Packet`, `Dhcp4Overload`, sections 5 to 7 of RFC 3396). The option
  store with its inline and heap data, sizes, splitting, joining, the round trip, and the overload of the `file` and
  `sname` fields from the bytes of a packet.
- **RADIUS** (`RadiusPassword`, `RadiusWire`, `RadiusPackets`, `RadiusProofs`, `RadiusChecks`, `Radius`, RFC 2865 and
  section 5.14 of RFC 2869). Password hiding, building, signing and verifying with any hash; a packet is a list of
  attributes, and the in-place steps on its bytes are shown to be steps on that list. `RadiusChecks` says in terms of
  bytes and the two hashes what is accepted and what is written.

## What the proofs found

The model follows the code. Where a promise does not hold of it, the exact condition is proved.

- `bn_mod_add` (`Modular.ModAdd`): it compares the truncated sum with m, so the result is (x + y) mod m if and only
  if x + y fits the storage (`Modular.ModAddAt` is an input). `bn_mod_sub` does not have this weakness.
- `bn_sqrt3` (`SquareRoot.Sqrt3`): for a number whose top storage bit is set it returns EOVERFLOW, because its
  first bit position is one past the storage; it succeeds for all others (`SquareRoot.TopBitAt`).
- `bn_calc_naf` (`Naf.CalcNaf`, `Naf.WrapIff`): when the number is odd and rounding its first window up reaches
  B^count, the carry is lost and the digits sum to the number less B^count. That is the only failure
  (`Naf.LargestWraps`), and `TwinMult.InterTwinMult` inherits it. Windows of more than 8 bits give the form of width 8.
- `bn_calc_jsf` (`Jsf`): with exactly one zero operand it reads the lowest word of a local number that was never
  written. For the caller the condition is therefore that none or both operands are zero: exactly then the loop
  ends inside the array with the joint sparse form, whatever that word holds (`Jsf.FormIff`). For a given word both
  sums are right exactly if it is even (`Jsf.SumsIff`), and the form is sparse for every other operand exactly if it
  is a multiple of four (`Jsf.WordIff`). An odd word gives a wrong sum (`Jsf.WrongSumAt`) or, for 3 modulo 4, a
  carry that never goes away and a loop that runs over its part of the array (`Jsf.NeverEnds`, `Jsf.OverrunAt`).
  Both operands are treated alike (`Jsf.RunSwapped`), and `TwinMult.JointTwinMult` inherits the failures.
- `bn_mod_inv_bin` (`ModInverse`): it ends exactly when no odd number above one divides both operands (`ModInverse.EndsIff`),
  and inverts every coprime operand exactly when the modulus is odd or two (`ModInverse.ModulusIff`). It does not
  refuse even moduli: modulo 4 it answers 1 for 3 (`ModInverse.ThreeModuloFour`).
- `bn_gcd_bin` with the second operand as the result object overwrites it with the first one before it is copied;
  what is left is the gcd exactly when the first operand is zero or divides the second (`GcdBin.OverwrittenIff`).
- `bn_is_bit_set` looks at the lowest word of a zero number, which may be stale: the answer is right exactly when
  there are digits, or the bit is 64 or higher, or that bit of the word is clear (`BigNum.Bn.IsBitSet`).
- `bn_sub` of two zeros looks at the word before the digit arrays before it returns; the answer does not depend
  on it.
- RADIUS: an Accounting-Response that carries a Message-Authenticator is signed over the request's authenticator
  and checked over zeros. It is refused for some hash, unless the request's authenticator is zero or the request
  was a Status-Server; `RadiusProofs.AcceptedByAll` is the equivalence.
- RADIUS: `radius_pkt_attr_add` asks the password encoder for a size with a buffer of no bytes, is answered
  EOVERFLOW, and returns that. No User-Password can be added with it (`Radius.AttrAdd`); the raw form can add one.
- Reassembly: `reass_hlp_seq_calc_diff` is one short when sequence numbers wrap (`Reass.SeqDiffExact`), and the
  bitmap check compares a block index with a number of bytes. A first piece that is short for the bitmap is refused
  but leaves its block size behind. A run up to its last missing piece succeeds exactly when the message fits
  the buffer, its numbers do not wrap, the bitmap has a byte, not a bit, for every piece (without a bitmap, no piece
  comes twice), and the bitmap has a bit for every block of the buffer or the first piece comes again
  (`Reassembly.RightIff`, with inputs for each failure). A sequence number far off before any first fragment makes
  the overflow test divide by zero (`Reass.DivisionByZeroIff`), and a fragment whose end wraps around passes the range
  check (`Reass.OutOfBufferIff`).
- DHCPv4: an option without data, such as Rapid Commit, is counted as nothing, but its header of two bytes is
  written and reported. The reported size is the sum of `dhcp4_ao_buf_calc_size` for every buffer exactly when no
  option is without data (`Dhcp4Wire.CountedIff`), and for one buffer exactly when no such header begins in it or at its end
  (`Dhcp4Wire.GrownIff`). The range test lets the header pass where it does not fit: all writes stay in the buffer
  exactly when no such header begins in it or at its end and ends beyond (`Dhcp4Packet.Serialize`, `Dhcp4Wire.RapidCommit`).
- DHCPv4: the length of an option has 16 bits; joined pieces are kept whole exactly as long as it does not wrap
  (`Dhcp4Wire.PutIff`).
- DHCPv4: `dhcp4_ao_buf_aggregate` reads the length byte before it knows that it lies in the buffer. The result
  does not depend on that byte (`Dhcp4Packet.Aggregate`).
- The comment at include/math/elliptic_curve.h:472 explains the curve flag as a = 3; the code, and the curves that
  set it, mean a = -3, and so does `Jacobian.Curve`.

## Model

| member | source | states |
|---|---|---|
| `Digits.CalcDigits` | include/math/big_num.h:939-949 | the significant length: the top digit is nonzero, everything above it is zero, the value is kept |
| `Digits.DigitsCmp` | include/math/big_num.h:955-973 | the answer is the sign of the difference of the two values |
| `Digits.CmpAt` | include/math/big_num.h:955-973 | the highest differing digit alone decides the order of two digit strings |
| `Digits.AddDigit` | include/math/big_num.h:1396-1425 | the value grows by the digit; what does not fit is the returned carry, and nothing outside the range changes |
| `Digits.SubDigit` | include/math/big_num.h:1469-1488 | the value falls by the digit; what is missing is the returned borrow |
| `Digits.AddStep` | include/math/big_num.h:1428-1465 | one digit of a sum and its carry, by wrap-around comparisons, make up exactly the sum; the carry is at most one |
| `Digits.SubStep` | include/math/big_num.h:1491-1521 | one digit of a difference and its borrow make up exactly the difference |
| `Digits.DigitsAdd` | include/math/big_num.h:1428-1465 | array value plus returned carry times B^count is the exact sum, also when a number is added to itself |
| `Digits.DigitsSub` | include/math/big_num.h:1491-1521 | array value less returned borrow times B^count is the exact difference |
| `Digits.AddMultStep` | include/math/big_num.h:1582-1625 | the running carry of a digit product plus a digit plus a carry always fits one digit |
| `Digits.SubMultStep` | include/math/big_num.h:1629-1675 | the running borrow of a digit product always fits one digit |
| `Digits.AddDigitMult` | include/math/big_num.h:1582-1625 | the array grows by exactly d times the other number, which may be the same digits, up to the carry dropped beyond the range |
| `Digits.SubDigitMult` | include/math/big_num.h:1629-1675 | the array falls by exactly d times the other number, which may be the same digits, up to the returned borrow |
| `Shifts.MoveUp` | include/math/big_num.h:1346-1354 | the byte move of the left shift multiplies by 2^(8 bytes) modulo the storage |
| `Shifts.MoveDown` | include/math/big_num.h:1377-1385 | the byte move of the right shift divides by 2^(8 bytes), rounding down |
| `Shifts.ShlLoop` | include/math/big_num.h:1332-1361 | the bit loop of the left shift multiplies by 2^bits modulo the storage |
| `Shifts.ShrLoop` | include/math/big_num.h:1364-1392 | the bit loop of the right shift divides by 2^bits, rounding down |
| `Shifts.MovedUpVal` | include/math/big_num.h:1346-1354 | moving little-endian bytes across digit borders and clearing below is a multiplication modulo the storage |
| `Shifts.MovedDownVal` | include/math/big_num.h:1377-1385 | moving bytes down and clearing above is a division |
| `BigNum.DigitCtz` | include/math/big_num.h:305-358 | the number of low zero bits of a digit, 64 for zero |
| `BigNum.DigitClz` | include/math/big_num.h:370-454 | shifting by the number of leading zeros brings the top bit to the top; 64 for zero |
| `BigNum.Bn.Init` | include/math/big_num.h:1683-1693 | a zero number of the rounded-up number of digits, or EINVAL |
| `BigNum.Bn.InitDigits` | include/math/big_num.h:1724-1736 | delayed initialization: the garbage digits below the offset become zero, the value stays |
| `BigNum.Bn.UpdateDigits` | include/math/big_num.h:1739-1756 | the significant length is found again and the value is that of the digits taken into account, whatever the garbage above |
| `BigNum.Bn.CalcBits` | include/math/big_num.h:1706-1713 | the bit length of the value |
| `BigNum.Bn.Ctz` | include/math/big_num.h:1760-1773 | the exponent of the largest power of two that divides the number |
| `BigNum.Bn.Clz` | include/math/big_num.h:1776-1782 | the number of unused bits of the storage; for zero as many more as an unknown word has leading zeros |
| `BigNum.Bn.Cmp` | include/math/big_num.h:1814-1830 | the sign of the difference of the two values |
| `BigNum.Bn.IsBitSet` | include/math/big_num.h:1840-1851 | whether that bit of the value is one, right if and only if there are digits, or the bit is above the lowest word, or the bit of the stale lowest word is clear |
| `BigNum.Bn.BitSet` | include/math/big_num.h:1853-1868 | exactly one bit of the value is set or cleared, or EOVERFLOW and nothing changed |
| `BigNum.Bn.IsEven` | include/math/big_num.h:1871-1874 | true for nonzero even values only: never for zero |
| `BigNum.Bn.IsOdd` | include/math/big_num.h:1877-1880 | true exactly for odd values |
| `BigNum.Bn.Assign` | include/math/big_num.h:1975-1986 | the value of the source, or EOVERFLOW exactly when its digits do not fit |
| `BigNum.Bn.AssignInit` | include/math/big_num.h:1989-1999 | value and capacity of the source; the words of a zero source are not copied |
| `BigNum.Bn.AssignDigit` | include/math/big_num.h:2022-2030 | the value is the digit and the length is one even for zero |
| `BigNum.Bn.LShift` | include/math/big_num.h:2035-2050 | the value times 2^bits modulo the storage |
| `BigNum.Bn.RShift` | include/math/big_num.h:2053-2065 | the value divided by 2^bits |
| `BigNum.Bn.AddDigitTo` | include/math/big_num.h:2130-2139 | the exact sum up to the carry lost beyond the storage |
| `BigNum.Bn.Add` | include/math/big_num.h:2141-2152 | value plus lost carry is the exact sum, also for a number added to itself; EOVERFLOW leaves the number alone |
| `BigNum.Bn.SubDigitFrom` | include/math/big_num.h:2156-2168 | the exact difference up to the borrow |
| `BigNum.Bn.Sub` | include/math/big_num.h:2171-2192 | value less lost borrow is the exact difference, whatever garbage the digits above both numbers hold, also for a number and itself |
| `Multiply.RowStep` | include/math/big_num.h:2196-2248 | the carry out of a row of the schoolbook product is always zero |
| `Multiply.MultRows` | include/math/big_num.h:2196-2248 | the row loop fills exactly the product of the two digit strings |
| `Multiply.Mult` | include/math/big_num.h:2196-2248 | the exact product, also for bn == n, for zero and one-digit operands; EOVERFLOW exactly when the digit counts together exceed the storage, and then nothing changes |
| `Divide.Estimate` | include/math/big_num.h:2338-2452 | for a normalized divisor the estimated digit never exceeds the true one and is at most two too small, and it fits a digit |
| `Divide.QuotientDigit` | include/math/big_num.h:2338-2452 | one turn: estimate times divisor plus what is left is the old partial remainder, what is left is below the divisor, at most two corrections |
| `Divide.StillLarge` | include/math/big_num.h:2338-2452 | the two-part loop test is true exactly while the partial remainder is not below the divisor |
| `Divide.DivLoop` | include/math/big_num.h:2338-2452 | quotient times divisor plus remainder is the dividend, and the remainder is below the divisor |
| `Divide.Normalize` | include/math/big_num.h:2338-2452 | both operands are scaled by the same power of two, so that the divisor's top bit is set |
| `Divide.ScaledBack` | include/math/big_num.h:2338-2452 | quotient and remainder of the scaled numbers give quotient and remainder of the original ones |
| `Divide.Div` | include/math/big_num.h:2338-2452 | n / d and n mod d, the remainder object being the dividend, the divisor, another one or absent; EINVAL for a zero divisor; room that guarantees success |
| `Modular.Mod` | include/math/big_num.h:2974-3031 | the residue (default reduction by division) |
| `Modular.ModAdd` | include/math/big_num.h:3061-3072 | the result is (x + y) mod m if and only if x + y fits the storage |
| `Modular.ModAddAt` | include/math/big_num.h:3061-3072 | in a storage of any size, the largest modulus and the residue below it added to itself: the answer is wrong |
| `Modular.ModSub` | include/math/big_num.h:3076-3087 | (x - y) mod m even when x + m overflows the storage |
| `Modular.LostCarryIsTheBorrow` | include/math/big_num.h:3076-3087 | the carry lost by the addition and the borrow lost by the subtraction cancel |
| `Modular.ModMult` | include/math/big_num.h:3091-3096 | the product modulo m, also for bn == n |
| `Modular.PowerStep` | include/math/big_num.h:3165-3214 | one bit of square-and-multiply keeps accumulator times base to the remaining exponent modulo m |
| `Modular.PowerKept` | include/math/big_num.h:3165-3214 | the same as an invariant of the loop: it still stands for b to the e |
| `Modular.ModExp` | include/math/big_num.h:3165-3214 | b^e mod m for every exponent, including the special cases 0, 1 and 2; room that guarantees success |
| `ModInverse.CongHalf` | include/math/big_num.h:3342-3389 | halving u and its multiplier together keeps u = x b modulo the odd m |
| `ModInverse.CongNonZero` | include/math/big_num.h:3342-3389 | a multiplier is never zero where the loop asks whether it is even |
| `ModInverse.CongSub` | include/math/big_num.h:3342-3389 | subtracting the pairs keeps the congruence |
| `ModInverse.InvertTurn` | include/math/big_num.h:3342-3389 | one turn of the objects is one turn of the pair of numbers and multipliers |
| `ModInverse.TurnLive` | include/math/big_num.h:3342-3389 | one turn keeps the numbers free of common odd divisors, and u + v falls |
| `ModInverse.TurnMade` | include/math/big_num.h:3342-3389 | modulo an odd number one turn keeps both congruences |
| `ModInverse.EndsIff` | include/math/big_num.h:3342-3389 | the loop ends if and only if no odd number above one divides both operands |
| `ModInverse.OddModulus` | include/math/big_num.h:3342-3389 | modulo an odd number the result of every run that ends is the inverse, and not zero |
| `ModInverse.OddCoprime` | include/math/big_num.h:3342-3389 | modulo an odd number the loop ends exactly for coprime operands |
| `ModInverse.OddPartFails` | include/math/big_num.h:3342-3389 | an even modulus with an odd part above one: the odd part plus two or plus four is inverted wrongly |
| `ModInverse.ModulusIff` | include/math/big_num.h:3342-3389 | for a modulus above one: every coprime operand is inverted if and only if the modulus is odd or two |
| `ModInverse.ThreeModuloFour` | include/math/big_num.h:3342-3389 | modulo four, three is answered one |
| `ModInverse.InverseNeedsCoprime` | include/math/big_num.h:3342-3389 | an inverse exists only for coprime numbers, so the condition on the operands is necessary |
| `ModInverse.ModInvBin` | include/math/big_num.h:3342-3389 | for operands on which the loop ends: EINVAL exactly outside 0 < b < m or when four digits more than m has exceed the storage, EOVERFLOW exactly when the result does not fit; otherwise the number the run leaves, which is the inverse when m is odd |
| `GcdBin.GcdIsGreatest` | include/math/big_num.h:2458-2542 | the reference gcd divides both numbers and every common divisor divides it |
| `GcdBin.GcdOdd` | include/math/big_num.h:2497-2542 | only the smaller of the two powers of two is shared |
| `GcdBin.GcdUnique` | include/math/big_num.h:2497-2542 | a common divisor that every common divisor divides is the gcd |
| `GcdBin.SteinLoop` | include/math/big_num.h:2497-2542 | the loop ends, with the gcd of the two numbers in one of the two objects |
| `GcdBin.Gcd2` | include/math/big_num.h:2497-2542 | the gcd of any two numbers, zeros included, the result object being a or another one; the final shift always fits; when the result object is b, what is left in it |
| `GcdBin.OverwrittenIff` | include/math/big_num.h:2497-2542 | with b as the result object the gcd is left if and only if a is zero or divides b |
| `GcdBin.OverwrittenAt` | include/math/big_num.h:2497-2542 | six and four with four as the result object: six is left |
| `SquareRoot.FloorRootUnique` | include/math/big_num.h:2672-2674 | the floor square root is determined by res^2 <= x < (res + 1)^2 |
| `SquareRoot.AbacusStep` | include/math/big_num.h:2710-2734 | one bit: the original stays root^2 plus the remainder, and the test accepts the bit exactly when it belongs to the root |
| `SquareRoot.BitClear` | include/math/big_num.h:2710-2734 | the bit that is set is clear before, so setting it is adding it |
| `SquareRoot.FirstBit` | include/math/big_num.h:2710-2734 | the first bit position starts the abacus for any number, also for zero, whose leading zeros are counted in an unknown word, and lies in the storage exactly when the top bit is clear |
| `SquareRoot.Sqrt3` | include/math/big_num.h:2710-2734 | the floor square root of every number whose top storage bit is clear, zero included; EOVERFLOW exactly when it is set |
| `SquareRoot.TopBitAt` | include/math/big_num.h:2710-2734 | a number with only the top bit of its storage set is refused |
| `Naf.WindowDigitIs` | include/math/big_num.h:2876-2939 | the 8-bit window arithmetic, wrap-around included, yields the residue modulo 2^w of least absolute value, w being at most 8 |
| `Naf.WrapIff` | include/math/big_num.h:2876-2939 | exactly when the first odd digit rounds the number up past its storage |
| `Naf.DigitStep` | include/math/big_num.h:2876-2939 | a nonzero digit is odd, below 2^(w-1) in absolute value, and followed by w - 1 zero bits |
| `Naf.OddStep` | include/math/big_num.h:2876-2939 | one nonzero digit keeps sum, sparsity and the bound on what is left |
| `Naf.CalcNaf` | include/math/big_num.h:2876-2939 | windows 2 to 31, of which more than 8 act like 8: at most bit length + 1 digits, all digits legal, one nonzero digit in any w; they sum to the number, less the storage size exactly in the wrap case |
| `Naf.LargestWraps` | include/math/big_num.h:2876-2939 | the largest number of every storage wraps in every window |
| `Jsf.ColumnSettles` | include/math/big_num.h:2816-2871 | after a nonzero column the choice of signs makes a zero column follow within two columns |
| `Jsf.SparseStep` | include/math/big_num.h:2816-2871 | one column keeps the zero-column-in-any-three law |
| `Jsf.EvenWords` | include/math/big_num.h:2816-2871 | with even stale words the loop ends within max bit length + 1 columns with both sums right, and with multiples of four with a zero column in any three |
| `Jsf.OddWords` | include/math/big_num.h:2816-2871 | with an odd stale word beside one zero operand no run that ends has both sums right |
| `Jsf.SumsIff` | include/math/big_num.h:2816-2871 | for given stale words: the loop ends inside the array with both sums right if and only if none or both operands are zero or the words are even |
| `Jsf.FormIff` | include/math/big_num.h:2816-2871 | for the caller: the loop ends inside the array with the joint sparse form of both numbers, whatever the stale words hold, if and only if none or both operands are zero |
| `Jsf.WordIff` | include/math/big_num.h:2816-2871 | for the word: beside a zero first operand every other one gets its joint sparse form if and only if the word is a multiple of four |
| `Jsf.WordIffSwapped` | include/math/big_num.h:2816-2871 | the same beside a zero second operand |
| `Jsf.NeverEnds` | include/math/big_num.h:2816-2871 | beside a zero first operand with a word of 3 modulo 4 the loop never ends, for any other operand |
| `Jsf.NeverEndsSwapped` | include/math/big_num.h:2816-2871 | the same beside a zero second operand |
| `Jsf.RunSwapped` | include/math/big_num.h:2816-2871 | exchanging the operands and their words exchanges the digit strings of the run |
| `Jsf.OverrunAt` | include/math/big_num.h:2816-2871 | zero and one with the stale word 7: the loop leaves its part of the array |
| `Jsf.WrongSumAt` | include/math/big_num.h:2816-2871 | zero and one with the stale word 1: the loop ends and the digits of the zero sum to one |
| `Jsf.ElevenAt` | include/math/big_num.h:2816-2871 | zero and eleven with a word of 2 modulo 4: the run ends with the right sums and no zero column |
| `Jsf.CalcJsf` | include/math/big_num.h:2816-2871 | for any operands and any scratch words: the digits of the run, whether it ended inside the array, and both sums right exactly when the words cannot disturb them; EOVERFLOW exactly when the array is too short; a sparse form when none or both operands are zero |
| `Comb.SpreadTop` | include/math/elliptic_curve.h:2128-2165 | the highest index bit contributes its own place, the bits below it theirs |
| `Comb.RowsStep` | include/math/elliptic_curve.h:2168-2201 | w rows without their first column, doubled, plus that column |
| `Comb.RowsWhole` | include/math/elliptic_curve.h:2168-2201 | all columns together are the scalar, when w rows can hold it |
| `Comb.ComboColumnGet` | include/math/big_num.h:2796-2812 | the bits off, off + count, ... of the number, as one index below 2^w |
| `Groups.InverseUnique` | include/math/elliptic_curve.h:1960-1973 | only the negated point completes a point to the neutral one |
| `Groups.ScaleAdd` | include/math/elliptic_curve.h:1989-2014 | multiples of a point add up, for scalars of either sign |
| `Groups.LinAdd` | include/math/elliptic_curve.h:2337-2388 | sums i p + j q add up component by component |
| `FixedBase.DblN` | include/math/elliptic_curve.h:1977-1984 | n doublings of k p are 2^n k p |
| `FixedBase.BinMult` | include/math/elliptic_curve.h:1989-2014 | the binary method returns d P |
| `FixedBase.PowerOfTwoDivides` | include/math/elliptic_curve.h:2066-2090 | the bit trick on the window size makes whole windows of a digit |
| `FixedBase.WindowPrecompute` | include/math/elliptic_curve.h:2066-2090 | the table holds 1P, 2P, ..., (2^w - 1)P; EINVAL exactly for a window size that is zero or not a power of two |
| `FixedBase.WindowStep` | include/math/elliptic_curve.h:2093-2122 | one window moves from the scalar into the multiplier of the point |
| `FixedBase.WindowMult` | include/math/elliptic_curve.h:2093-2122 | the fixed-window method returns d P |
| `FixedBase.FillCombTable` | include/math/elliptic_curve.h:2128-2165 | entry k - 1 is the sum of 2^(b wnd_count) P over the set bits b of k |
| `FixedBase.CombPrecompute` | include/math/elliptic_curve.h:2128-2165 | the one-table comb data of P is ready; EINVAL exactly for an empty window |
| `FixedBase.Comb1Mult` | include/math/elliptic_curve.h:2168-2201 | the one-table comb returns d P for every scalar, including those it hands to the binary method |
| `FixedBase.DoubleTable` | include/math/elliptic_curve.h:2207-2230 | the second table is 2^e_count times the first |
| `FixedBase.Comb2Precompute` | include/math/elliptic_curve.h:2207-2230 | both comb tables of P are ready |
| `FixedBase.HalfRowsStep` | include/math/elliptic_curve.h:2233-2276 | one turn of the two-table loop takes one column of each half, also when the halves differ in length |
| `FixedBase.HalfRowsWhole` | include/math/elliptic_curve.h:2233-2276 | after all columns both halves make up the scalar |
| `FixedBase.Comb2Mult` | include/math/elliptic_curve.h:2233-2276 | the two-table comb returns d P |
| `TwinMult.FillJoint` | include/math/elliptic_curve.h:2337-2388 | the four table entries are b, a, a + b, a - b |
| `TwinMult.JointStep` | include/math/elliptic_curve.h:2337-2388 | one column: doubled, plus u a + v b for the digits u and v, the index and its sign picking the right entry |
| `TwinMult.JointTwinMult` | include/math/elliptic_curve.h:2337-2388 | the joint method returns ad a + bd b when none or both scalars are zero, and otherwise whenever the stale words are even; EOVERFLOW exactly when the digit array is too short; else what the digits of the run stand for |
| `TwinMult.WrongPointAt` | include/math/elliptic_curve.h:2337-2388 | zero times a plus one times b beside the stale word 1 is answered a + b |
| `TwinMult.OddPrecompute` | include/math/elliptic_curve.h:1744-1801 | the table holds 1P, 3P, 5P, ... |
| `TwinMult.InterSum` | include/math/elliptic_curve.h:1804-1874 | adding the digits of both numbers one after the other adds u a + v b |
| `TwinMult.InterTwinMult` | include/math/elliptic_curve.h:1804-1874 | the interleaved method returns ad a + bd b unless a recoding wraps, and then what the wrapped recodings stand for; EOVERFLOW exactly when the digit arrays are too short |
| `Field.PrimeGcd` | include/math/elliptic_curve.h:594-626 | nonzero residues of a prime are coprime to it |
| `Field.InverseExists` | include/math/elliptic_curve.h:594-626 | they have inverses |
| `Field.Cancel` | include/math/elliptic_curve.h:645-803 | a nonzero factor can be cancelled |
| `Field.FHalf` | include/math/elliptic_curve.h:645-803 | halving after adding the odd modulus to odd numbers undoes doubling |
| `Jacobian.AffineRep` | include/math/elliptic_curve.h:594-626 | the normalized pair is (X / Z^2, Y / Z^3) |
| `Jacobian.RepAffine` | include/math/elliptic_curve.h:594-626 | and the only reduced pair that is |
| `Jacobian.SameScaled` | include/math/elliptic_curve.h:645-803 | the cross-multiplied coordinates are equal exactly when the affine ones are |
| `Jacobian.LineRep` | include/math/elliptic_curve.h:645-803 | a line's third point in scaled coordinates is its third point in affine ones |
| `Jacobian.SumIsChord` | include/math/elliptic_curve.h:645-803 | the general Jacobian addition is the chord, and its tests see equal and opposite points |
| `Jacobian.ShortcutSlope` | include/math/elliptic_curve.h:754-770 | 3(X - Z^2)(X + Z^2) is 3X^2 + aZ^4 when a = -3 |
| `Jacobian.HalfOfFourth` | include/math/elliptic_curve.h:645-803 | halving (2Y)^4 gives the term the doubling formula needs |
| `Jacobian.DoubleIsTangent` | include/math/elliptic_curve.h:645-803 | the Jacobian doubling is the tangent |
| `Jacobian.MinusThree` | include/math/elliptic_curve.h:1884-1957 | subtracting three is adding a, when the flag is set |
| `FieldOps.RoomOf` | include/math/elliptic_curve.h:55 | twice the bits of the field and one digit can hold every product of two residues and its division |
| `FieldOps.MulIn` | include/math/big_num.h:3091-3111 | with that room the modular product, or square, of residues in objects succeeds and is the field product |
| `FieldOps.AddIn` | include/math/big_num.h:3061-3072 | with that room the modular sum succeeds and is the field sum |
| `FieldOps.SubIn` | include/math/big_num.h:3076-3087 | the modular difference succeeds and is the field difference |
| `FieldOps.DigitIn` | include/math/big_num.h:3099-3104 | multiplying a residue by two or three succeeds and is the field product |
| `FieldOps.HalveIn` | include/math/elliptic_curve.h:784-789 | adding the odd modulus to an odd residue and shifting is halving in the field |
| `FieldOps.ExpIn` | include/math/big_num.h:3116-3162 | powers of four and more succeed and are the power modulo p |
| `FieldOps.InverseIsInv` | include/math/big_num.h:3342-3389 | what the binary inversion leaves is the inverse in the field of any prime above three |
| `FieldOps.InvIn` | include/math/big_num.h:3342-3389 | inversion of a nonzero residue in an object succeeds and is the field inverse |
| `PointOps.AffineAdd` | include/math/elliptic_curve.h:1884-1957 | affine addition on big number objects, also of an object to itself: it succeeds and is the chord-and-tangent sum, in all cases |
| `PointOps.ProjNorm` | include/math/elliptic_curve.h:594-626 | normalization on big number objects succeeds, keeps the affine point and makes Z one; the point at infinity stays |
| `PointOps.ProjDouble` | include/math/elliptic_curve.h:645-803 | doubling with and without the a = -3 flag succeeds and is affine doubling, ordinate zero included |
| `PointOps.ProjAdd` | include/math/elliptic_curve.h:645-803 | Jacobian addition on big number objects, also of an object to itself, succeeds and is the chord-and-tangent sum of the affine points |
| `PointOps.AddThenNormalize` | include/math/elliptic_curve.h:594-803 | Jacobian addition followed by normalization gives the coordinates affine addition gives, and neither fails |
| `CurveLaws.ChordGap` | include/math/elliptic_curve.h:1884-1957 | the third meeting of a chord with the cubic |
| `CurveLaws.AddOnCurve` | include/math/elliptic_curve.h:1884-1957 | the sum of two points of the curve lies on the curve |
| `CurveLaws.AddCommutes` | include/math/elliptic_curve.h:1884-1957 | the order of the operands does not matter |
| `CurveLaws.OnlyOpposite` | include/math/elliptic_curve.h:1884-1957 | the sum is the point at infinity exactly for opposite points, and the opposite of a curve point is one |
| `Crc.StepsXor` | include/math/crc32.h:54-130 | register steps are linear, for any polynomial and both bit orders |
| `Crc.BitsAtOnce` | include/math/crc32.h:54-130 | taking message bits in one by one is putting them into the register at once |
| `Crc.FourSteps` | include/math/crc32.h:54-106 | four steps: the nibble that leaves decides what is added to the shifted rest |
| `Crc.EightSteps` | include/math/crc32.h:70-120 | eight steps: the byte that leaves decides |
| `Crc.NibbleEntries` | include/math/crc32.h:54-66 | the first 16 entries of the normal byte table are its nibble table |
| `Crc.EverySixteenth` | include/math/crc32.h:94-130 | every 16th entry of the reflected byte table is the nibble table |
| `Crc.Normal4` | include/math/crc32.h:54-66 | the nibble loop is the bit-by-bit CRC |
| `Crc.Normal8` | include/math/crc32.h:70-80 | the byte loop is the bit-by-bit CRC |
| `Crc.Normal` | include/math/crc32.h:83-89 | so the choice by length cannot be seen in the result |
| `Crc.Reflect4` | include/math/crc32.h:94-106 | the reflected nibble loop is the bit-by-bit CRC |
| `Crc.Reflect8` | include/math/crc32.h:110-120 | the reflected byte loop is the bit-by-bit CRC |
| `Crc.Reflect` | include/math/crc32.h:123-130 | the choice by length, and a missing small table, cannot be seen in the result |
| `Crc.NormalUpdate` | include/math/crc32.h:512-533 | with complement, the complement of the result is the bit-by-bit CRC started from the complement of crc; without it, the result is the bit-by-bit CRC started from crc |
| `Crc.ReflectUpdate` | include/math/crc32.h:539-572 | the same for the reflected macros, with or without a small table |
| `Crc.UpdateTwice` | include/math/crc32.h:512-581 | updating with x and then with y is updating with x followed by y |
| `Crc.OneByte` | include/math/crc32.h:507-543 | the checksums crc32a and crc32b of the one byte "1" |
| `Reass.SeqDiffExact` | include/utils/reass_helper.h:140-151 | the difference is the distance modulo the number range exactly when the numbers do not wrap; it is one short otherwise |
| `Reass.OverflowsIff` | include/utils/reass_helper.h:154-218 | the overflow test by half ranges and division back is true exactly when the product leaves size_t |
| `Reass.Helper.Clear` | include/utils/reass_helper.h:73-89 | reset clears counters, sizes and bitmap and keeps the last sequence number |
| `Reass.DivisionByZeroIff` | include/utils/reass_helper.h:154-218 | the overflow test divides by zero if and only if no first fragment has set a block size and an unflagged fragment that is last or empty is 2^32 numbers or more away |
| `Reass.FarSequence` | include/utils/reass_helper.h:154-218 | after a reset, an empty last fragment with number 2^32 divides by zero |
| `Reass.OutOfBufferIff` | include/utils/reass_helper.h:154-218 | bytes are written outside the buffer if and only if the end of an accepted fragment wraps around into it and neither the bitmap nor an earlier check stops the block |
| `Reass.EndWraps` | include/utils/reass_helper.h:154-218 | without a bitmap block 2^60 - 1 of 16 bytes is such a fragment |
| `Reass.OnlyItsPlace` | include/utils/reass_helper.h:154-218 | whatever is answered, only the bytes in the place of the fragment change, and to its data |
| `Reass.Helper.HandleFrag` | include/utils/reass_helper.h:154-218 | answer and whole new state of the helper for any fragment and any state; an unflagged middle fragment of another size than the block size is answered EINVAL and changes nothing |
| `Reass.EinvalIff` | include/utils/reass_helper.h:154-218 | exactly when EINVAL is answered: a flagged fragment that is empty or larger than the buffer, a middle one of another size than the block size, or a place outside size_t or the buffer |
| `Reass.FirstIs` | include/utils/reass_helper.h:154-218 | a flagged fragment: ENOBUFS exactly when the bitmap has fewer bits than the buffer has blocks, the other three answers, and every field of the state left behind |
| `Reass.LaterRefused` | include/utils/reass_helper.h:154-218 | an unflagged fragment: exactly when it is answered EINVAL or ERANGE or counted as a duplicate, and that nothing else of the state changes but the reorder counter |
| `Reass.LaterStored` | include/utils/reass_helper.h:154-218 | a new unflagged fragment: every field of the state left behind, and exactly when the answer is EAGAIN, EBADMSG or success |
| `Reassembly.Complete` | include/utils/reass_helper.h:154-218 | counting blocks is enough: n different pieces below n are all pieces |
| `Reassembly.FirstArrives` | include/utils/reass_helper.h:154-218 | the flagged first piece leaves exactly that piece received, whatever the helper held |
| `Reassembly.PieceArrives` | include/utils/reass_helper.h:154-218 | any piece after it is added once; a duplicate changes the duplicate counter only; the answer is success exactly at the last missing piece |
| `Reassembly.CompleteIsMessage` | include/utils/reass_helper.h:154-218 | when all pieces have arrived the buffer is the message, blk_cnt their number, recv_cnt its length |
| `Reassembly.FirstRefused` | include/utils/reass_helper.h:154-218 | the first piece is answered ENOBUFS if and only if the bitmap has fewer bits than the buffer has blocks |
| `Reassembly.Delivered` | include/utils/reass_helper.h:154-218 | with room, every arrival order with any duplicates (none without a bitmap): success exactly at the last missing piece, and then the buffer is the message |
| `Reassembly.EndNeverSeen` | include/utils/reass_helper.h:154-218 | with a message beyond the buffer, wrapping numbers or a bitmap of fewer bytes than pieces, no arrival order makes the helper see the end of the message |
| `Reassembly.DeliveredLate` | include/utils/reass_helper.h:154-218 | with room but a bitmap too small for the first piece, the refused first piece is as if it had not come: success exactly when all pieces have arrived after it |
| `Reassembly.RefusedIff` | include/utils/reass_helper.h:154-218 | such a run up to its last missing piece succeeds if and only if the first piece comes again |
| `Reassembly.RightIff` | include/utils/reass_helper.h:154-218 | a run up to its last missing piece succeeds if and only if the message fits the buffer, the sequence numbers do not wrap, the bitmap has a byte for every piece or, without a bitmap, no piece came twice, and the bitmap has a bit for every block of the buffer or the first piece comes again |
| `Reassembly.SmallBitmap` | include/utils/reass_helper.h:154-218 | two pieces and a bitmap of one byte: the run fails |
| `Reassembly.ShortFirstPiece` | include/utils/reass_helper.h:154-218 | a buffer of 100 bytes, a bitmap of two and two pieces of one byte: the run fails, and succeeds when the first piece comes again |
| `Reassembly.WrappedPair` | include/utils/reass_helper.h:154-218 | two pieces numbered 2^64 - 1 and 0: the run fails |
| `Reassembly.Duplicated` | include/utils/reass_helper.h:154-218 | two pieces, the first of them twice, and no bitmap: the run fails |
| `Reassembly.DeliverAll` | include/utils/reass_helper.h:154-218 | the run of calls is the run of the function Deliver, which the theorems are about |
| `DnsName.JoinSplit` | include/proto/dhcpv6.h:1525-1561 | splitting a name at its dots loses nothing |
| `DnsName.WireAppend` | include/proto/dhcpv6.h:1525-1561 | a further label is its length and its bytes at the end of the wire form |
| `DnsName.ScanLabel` | include/proto/dhcpv6.h:1525-1561 | a dot found in the shifted copy ends the next label of the name, even when length bytes before it equal the dot |
| `DnsName.Encode` | include/proto/dhcpv6.h:1525-1561 | the wire form of exactly the names whose labels have 1 to 63 bytes; ENOBUFS and EINVAL exactly otherwise |
| `DnsName.ParseStops` | include/proto/dhcpv6.h:1474-1522 | labels on the wire are read back up to what ends them: a zero or the end of the buffer, or a byte above 63 or beyond the end, which is an error |
| `DnsName.ParseWire` | include/proto/dhcpv6.h:1474-1522 | labels on the wire are read back, wherever they stand and whatever follows |
| `DnsName.OnTheWire` | include/proto/dhcpv6.h:1525-1561 | the eight bytes of the name www.ru |
| `DnsName.RoundTrip` | include/proto/dhcpv6.h:1474-1561 | decoding the wire form of an accepted name gives back the name |
| `DnsName.DecodeCalcSize` | include/proto/dhcpv6.h:1430-1471 | length and next offset of the name that reading finds, on any input |
| `DnsName.Decode` | include/proto/dhcpv6.h:1474-1522 | the name that reading finds, with the same length and offset, given one byte more than the length; ENOBUFS exactly otherwise |
| `Dhcp4.Opt.Extended` | include/proto/dhcpv4.h:2113-2136 | writing behind the data appends to it, inline or on the heap, up to the 16-bit length |
| `Dhcp4.AoBuf.Clean` | include/proto/dhcpv4.h:2088-2098 | no options are left |
| `Dhcp4.AoBuf.OptClean` | include/proto/dhcpv4.h:2076-2085 | exactly one option is gone |
| `Dhcp4.AoBuf.DataGet` | include/proto/dhcpv4.h:2101-2110 | the data of a code exactly when the code is in the bitmap |
| `Dhcp4.AoBuf.DataGetFreeSpace` | include/proto/dhcpv4.h:2113-2136 | room for the new bytes, the old data kept when it moves from inline to heap storage |
| `Dhcp4.AoBuf.Store` | include/proto/dhcpv4.h:2229-2304 | the data of one chunk is appended to its option, the length cut to 16 bits, and no other option changes |
| `Dhcp4.StorePut` | include/proto/dhcpv4.h:2229-2304 | one more piece of data and one more bitmap bit is one more piece in the map of options |
| `Dhcp4Wire.OptWireSize` | include/proto/dhcpv4.h:2140-2224 | the size rule is the number of bytes written if and only if the option has data; without data two bytes are written and none is counted |
| `Dhcp4Wire.WireFromSize` | include/proto/dhcpv4.h:2171-2224 | the bytes of the options below and from a code make up all bytes |
| `Dhcp4Wire.SkipCodes` | include/proto/dhcpv4.h:2140-2224 | eight codes whose bitmap byte is zero contribute nothing to size or bytes |
| `Dhcp4Wire.LenOkIff` | include/proto/dhcpv4.h:2266-2294 | which lengths pass the check for each of the option types and flags |
| `Dhcp4Wire.PutIff` | include/proto/dhcpv4.h:2229-2304 | appending data loses nothing if and only if the length stays below 2^16 |
| `Dhcp4Wire.JoinedPieces` | include/proto/dhcpv4.h:2229-2304 | the pieces of an option, one empty piece if it has no data, joined in order, are its data |
| `Dhcp4Wire.JoinedAll` | include/proto/dhcpv4.h:2229-2304 | joining the pieces of all options gives back the options |
| `Dhcp4Wire.ReadFrom` | include/proto/dhcpv4.h:2229-2304 | reading written options finds exactly their pieces, when each passes its length rule |
| `Dhcp4Wire.RoundTrip` | include/proto/dhcpv4.h:2171-2304 | reading and joining what was written gives back the options, also those without data |
| `Dhcp4Wire.GrownIff` | include/proto/dhcpv4.h:2171-2224 | for a given buffer the reported size is the sum of the size rule if and only if no header of an option without data begins within the buffer or at its end |
| `Dhcp4Wire.CountedIff` | include/proto/dhcpv4.h:2140-2224 | the reported size is the sum of the size rule for every buffer if and only if no option is without data |
| `Dhcp4Wire.FitsIff` | include/proto/dhcpv4.h:2171-2224 | the serializer succeeds if and only if all bytes fit the buffer, and then none is written beyond it |
| `Dhcp4Wire.RapidCommit` | include/proto/dhcpv4.h:1415-1418 | option 80 is read without data, counted as nothing, reported as two bytes for every buffer, and written beyond a buffer if and only if that has less than two |
| `Dhcp4Packet.CalcSize` | include/proto/dhcpv4.h:2140-2168 | the size of exactly the options that the filter lets through |
| `Dhcp4Packet.Serialize` | include/proto/dhcpv4.h:2171-2224 | the bytes of exactly the selected options if and only if they fit; the exact size reported otherwise; whether all writes stay in the buffer: exactly when no header of an option without data begins in it or at its end and ends beyond |
| `Dhcp4Packet.Aggregate` | include/proto/dhcpv4.h:2229-2304 | all chunks up to the first bad one are joined into the store, lengths cut to 16 bits; EBADMSG exactly when there is a bad one |
| `Dhcp4Packet.SerializeAggregate` | include/proto/dhcpv4.h:2171-2304 | serializing and aggregating reproduces all options and the bitmap, across inline and heap storage and with options without data, whenever all bytes fit the buffer |
| `Dhcp4Packet.ChkOptsAggregate` | include/proto/dhcpv4.h:2315-2371 | EINVAL and EBADMSG exactly for a short or wrong header and for options that cannot be read, with the store left alone or empty; otherwise the options of the packet, without option 52 |
| `Dhcp4Overload.OverloadRead` | include/proto/dhcpv4.h:2315-2371 | from the bytes: option area, `file` if bit 0 of option 52 is set and `sname` if bit 1 is set are joined code by code in that order, option 52 left out |
| `Dhcp4Overload.FourOverloads` | include/proto/dhcpv4.h:2315-2371 | option 52 of 0, 1, 2 and 3: the options m, m with those of `file`, m with those of `sname`, m with `file` and then `sname` |
| `Dhcp4Overload.RefusedIff` | include/proto/dhcpv4.h:2315-2371 | a packet with a right header is refused if and only if the option area or a field that is asked for cannot be read to its end |
| `RadiusPassword.XorIs` | include/proto/radius.h:745-842 | the mask is the exclusive or of the bits of two bytes |
| `RadiusPassword.XorTwice` | include/proto/radius.h:745-842 | masking a byte twice with the same byte gives it back |
| `RadiusPassword.PasswordEncode` | include/proto/radius.h:745-792 | byte i of each block is the byte of the zero-padded password xor byte i of md5(key + authenticator) for the first block and of md5(key + hidden block before) for the others, in place, for any hash, and the exact error cases |
| `RadiusPassword.PasswordDecode` | include/proto/radius.h:795-842 | the same with the encoded block before, into a buffer that may hold the encoded password; the terminating zero if there is room, the length of the string, and the exact error cases |
| `RadiusPassword.RevealHidden` | include/proto/radius.h:745-842 | revealing undoes hiding with the same authenticator and key, for any number of blocks and any hash |
| `RadiusPackets.FindStops` | include/proto/radius.h:696-735 | the first attribute of the type is found whatever follows it; otherwise what is no attribute breaks the search and the end of the packet ends it |
| `RadiusPackets.FindAttrs` | include/proto/radius.h:696-735 | the search on the wire finds the first attribute of the type |
| `RadiusPackets.WithDataValid` | include/proto/radius.h:745-980 | overwriting attribute data in place replaces it in the list of attributes |
| `RadiusPackets.WithAttr` | include/proto/radius.h:984-1032 | an appended attribute and the new length field are the packet of one attribute more |
| `Radius.PktInit` | include/proto/radius.h:1425-1474 | a packet without attributes whose authenticator is given, zero or copied as its code demands; the exact error cases |
| `RadiusChecks.InitAuthIs` | include/proto/radius.h:1425-1474 | for each code: a given authenticator is kept, zeros are used, or the packet is refused |
| `Radius.ReplyInit` | include/proto/radius.h:1476-1484 | a reply takes identifier and authenticator from its request; the exact error cases |
| `Radius.AttrFind` | include/proto/radius.h:662-741 | the offset of the first attribute of a type from a given attribute on, ENOATTR, EBADMSG for a malformed list, or EINVAL for a bad offset |
| `Radius.AttrAddRaw` | include/proto/radius.h:984-1032 | the packet with the attribute appended, or EOVERFLOW |
| `Radius.AttrAdd` | include/proto/radius.h:1034-1105 | length and duplicate rules, then the packet with the attribute appended; a User-Password is never accepted |
| `RadiusChecks.AttrAddedIff` | include/proto/radius.h:1034-1105 | exactly which attributes can be added, and the bytes of the packet with the attribute; otherwise it is unchanged |
| `RadiusChecks.LenOkIff` | include/proto/radius.h:594-657 | which lengths an attribute of each data type may have |
| `Radius.SizeOfPassword` | include/proto/radius.h:1034-1105 | the size query of the password branch always ends in EOVERFLOW |
| `Radius.MsgAuthCalc` | include/proto/radius.h:850-919 | the keyed hash over the packet with the digest zeroed and the authenticator its code demands, without changing the packet |
| `Radius.AuthenticatorCalc` | include/proto/radius.h:1315-1377 | the hash over header, authenticator part, attributes and key |
| `Radius.Sign` | include/proto/radius.h:1487-1532 | password, Message-Authenticator and authenticator, in this order, in place |
| `Radius.Verify` | include/proto/radius.h:1535-1568 | both checks, then the password is revealed in place |
| `RadiusChecks.MsgAuthIff` | include/proto/radius.h:850-946 | the Message-Authenticator is accepted if and only if it has 18 bytes and is hmac(key, packet with zeros in its place and its own, the request's or a zero authenticator, as the code demands); exactly when it is EINVAL instead of EBADMSG |
| `RadiusChecks.AuthIff` | include/proto/radius.h:1315-1398 | the authenticator is accepted if and only if it is random by code, or md5(header + zeros or the request's authenticator + attributes + key); exactly when it is EINVAL instead of EBADMSG |
| `RadiusChecks.VerifyIff` | include/proto/radius.h:1535-1568 | exactly when a packet is accepted, in terms of its bytes and the two hashes: both conditions above, and a User-Password of 16, 32, ... 128 bytes if there is one |
| `RadiusChecks.VerifyLeaves` | include/proto/radius.h:1535-1568 | the packet is unchanged but for the bytes of an accepted User-Password, each xored with the hash over the key and the authenticator or the encoded block before |
| `RadiusProofs.SignedIs` | include/proto/radius.h:1487-1532 | what signing makes of a packet, and exactly when it succeeds |
| `RadiusChecks.SignedBytes` | include/proto/radius.h:1487-1532 | the bytes of the signed packet: Message-Authenticator and authenticator as hmac and md5 of the rest, every other attribute but the User-Password as before |
| `RadiusChecks.SignedPassword` | include/proto/radius.h:1487-1532 | the hidden User-Password of the signed packet, byte by byte |
| `RadiusProofs.MacInputSame` | include/proto/radius.h:850-919 | the digest does not depend on what stands in its own place or in the authenticator's |
| `RadiusProofs.VerifyAccepts` | include/proto/radius.h:1535-1568 | a signed packet is accepted with the matching request and key, for any hash, but for an Accounting-Response with a Message-Authenticator |
| `RadiusProofs.PasswordRestored` | include/proto/radius.h:1535-1568 | verification restores the padded User-Password in place and changes no other attribute |
| `RadiusProofs.ResponseRefused` | include/proto/radius.h:850-919 | with a hash that shows the difference, an Accounting-Response with a Message-Authenticator is refused |
| `RadiusProofs.AcceptedByAll` | include/proto/radius.h:1487-1568 | verification succeeds for every hash if and only if the packet is no Accounting-Response with a Message-Authenticator (unless it answers a Status-Server) |
| `Radius.BuiltReady` | include/proto/radius.h:1034-1474 | what init and attr_add accept holds the added attributes in their order, and can be signed |
| `Radius.BuiltAccepted` | include/proto/radius.h:1034-1568 | every packet built by init and attr_add and then signed is accepted, but for an Accounting-Response with a Message-Authenticator |

## Left out

- Jsf.CalcJsf: where the loop of the source leaves the array the model stops and says so; which words of 5 modulo 8 keep the loop from ending depends on the other operand and is not characterized.
- ModInverse.ModInvBin: takes operands on which the loop of the source ends; which coprime operands an even modulus inverts wrongly is shown by examples for every such modulus and not characterized one by one.
- BigNum.Bn.LShift: takes shifts within the storage, as `BigNum.Bn.RShift` takes shifts within the digits; beyond that the source moves a negative number of bytes.
- BigNum.Bn.Sub: the word before the digit array is an unknown one.
- Naf.CalcNaf: takes windows of less than 32 bits; a wider one shifts a C integer by more than its width.
- Reass.Helper.HandleFrag: stops where the source divides by zero or writes outside the buffer, and says so.
- Dhcp4Packet.Serialize: the bytes that the source writes beyond its buffer are left out.
- FixedBase.Comb2Mult: points are group elements, so that table entries are not normalized or converted and the group laws are a hypothesis; the same holds for all members of `FixedBase` and `TwinMult`. `CurveLaws` proves closure, commutativity and inverses of the group operation; associativity is not proved.
- FieldOps.MultDigit: takes the digits two and three, the ones the point formulas use.
- Radius.Sign: takes buffers of less than 2^16 bytes, the range of the packet's length field (RADIUS_PKT_MAX_SIZE is 4096); so do `Radius.AttrAdd` and `Radius.AttrAddRaw`.
- Dhcp4Packet.CalcSize: the bitmap words are seen as their bytes, and the skip of eight codes is that of a little-endian machine.
- Other digit widths than 64 bits, the build with a hardware double-width product, and the alternative `bn_div` of 3843-4018.
- Barrett reduction (not the default), `bn_egcd` and `bn_digit_egcd`, the modular inversions other than the binary one, `bn_sqrt1`, `bn_sqrt2`, `bn_sqrt4`, `bn_sqrt5`, modular square root and Legendre symbol.
- `bn_and`, `bn_or`, `bn_xor`, `bn_exp_digit` and `bn_mult_digit` by other digits; import and export of numbers: shorter members of the same kind as those here.
- The double-width product and quotient of two digits (`bn_digit_mult__int`, `bn_digit_div__int`) are exact by definition here.
- The pre-doubled tables, the projective forms of the comb and window methods, mixed addition and repeated Jacobian doubling.
- Curve and key validation, ECDSA and GOST signatures.
- The constants of the CRC polynomials and their tables: tables are whatever the bitwise step makes of their index.
- MD5 and HMAC-MD5: any functions with 16-byte results. Hash contexts are the bytes fed to them.
- `radius_pkt_chk`, the attribute getters and the address and port helpers; the comparison of digests is plain equality.
- DHCPv4 header construction and display tables, bitmap set operations other than the filter; the rest of DHCPv6.
- NULL checks (an absent request, filter, bitmap, remainder or small table is modelled), allocation failure, prefetches, and the width of `size_t` counters.
- Base64, MPEG-TS, RTP, I/O buffers, hash buckets, sockets, threads, HTTP, resolver and configuration parsing.
