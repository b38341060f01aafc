# Arithmetic of the wallet's pods, verified

The app ships two arithmetic libraries in source form: the BigInt pod (Swift, integers of any
length) and libsecp256k1 (C, fixed-width limbs for ECDSA on secp256k1). This project models both
and proves what their code promises.

**BigInt.** A number is an object of class `BigUInt` with the source's three kinds of storage; its
meaning is a sequence of base-2^64 digits and the natural number they denote (`Digits`, `BigUInt`).
Every operation is a method over these digits that states the number it computes: carries and
borrows (`Addition`, `Subtraction`), multiplication with the recursive splitting (`Multiplication`),
Knuth's algorithm D (`WordDivision`, `Division`), shifts, powers, the binary gcd and the modular
inverse, the primality test, Newton's square root, and the conversions to text and to bytes.

**libsecp256k1.** Scalars are four 64-bit limbs, field elements five 52-bit limbs, and every
assignment to a machine word is checked not to overflow. Inversion by division steps is proved
against the single-step definition (`DivSteps`, `ModInvBatch`, `ModInvTheory`, `Limbs62`,
`ModInv64`, `Inversion`). Points are elements of any commutative group of the curve's order with its
endomorphism (`Groups`, `Ecmult`); on it stand the three recodings (`Wnaf`), the scratch allocator and
its capacity estimates (`Scratch`), the multi-scalar algorithms (`Pippenger`, `MultiScalar`), the
blinded generator table (`EcmultGen`), ECDSA (`Ecdsa`), DER (`Der`) and SHA-256 with HMAC (`Sha256`).

Where C code repeats a line for each limb, the model has a loop, or a function for one limb.
`dafny verify dfyconfig.toml` checks everything.

## Findings

Properties that the code does not have on all inputs, each with the exact condition:

- A printed text denotes the number by position if and only if the radix is neither 8 nor 32 or the
  number is below 2^64 (`TextConversion.PrintedMeans`): in these radices a word's worth of numerals
  holds 66 or 65 bits, while the parts are words. The comment at
  `ios/Pods/BigInt/Sources/String Conversion.swift:20-21` promises that the numerals of a word have at
  most 2^64 values.
- For the same reason a text of numerals is read as the number it denotes if and only if the radix is
  neither 8 nor 32 or that number is below 2^64 (`TextConversion.ParseMeans`, and the contract of
  `TextConversion.Parse`); other texts are read as less, or refused, as 22 sevens in radix 8 are
  (`TextConversion.OctalRefused`). Reading what was printed gives the number back in every radix
  (`TextConversion.RoundTrip`).
- `shiftRight(byWords:)` keeps the representation invariant if and only if it does not shift a slice by
  its whole length or more (`BigUInts.BigUInt.ShiftRightWords`); the state where it fails can be
  reached (`BigUInts.ShiftWholeSlice`). The one caller in the library returns before that.
- `normalize_62` reads the sign of a number off its top limb, and its comment asks only for limbs inside
  (-2^62, 2^62), where the top limb need not show it. The residue is right for all such limbs; the
  result is inside [0, M) if and only if `ModInv64.Settles` holds, that is, when the top limb has the
  sign of the number or the number needs no second addition anyway (`ModInv64.Normalize62`). With
  modulus 3 the limbs [-5, 0, 0, 0, 0] are in the range asked for and end outside
  (`ModInv64.HiddenSign`). The limbs that the two inversions pass show their sign.
- `secp256k1_fe_normalize` and its variants give the residue modulo p if and only if
  n0 + (n4 >> 48) * 0x1000003D1 is below 2^64; otherwise the first addition wraps and they give the
  residue of the number less 2^64 (`Field52.Normalize`, `Field52.NormalizeWeak`,
  `Field52.NormalizeVar`). The two tests for zero are then right if and only if the residue is
  neither 0 nor 2^64 (`Field52.NormalizesToZero`, `Field52.NormalizesToZeroVar`). The sum
  stays below 2^64 up to magnitude 2047 (`Field52.RoomBelow`), and leaves it for
  n0 = 4096 * (2^52 - 1), n4 = 4096 * (2^48 - 1), which magnitude 2048, the largest that
  `secp256k1_fe_verify` allows, admits (`Field52.NoRoomAtMost`).

## Model

| member | source | states |
|---|---|---|
| `DivSteps.StepsTrack` | ios/Pods/secp256k1Wrapper/src/modinv64_impl.h:139-158 | for every number of division steps from (f, g): t*(f, g) = 2^n*(f', g'), det t = 2^n, each row of t has absolute sum at most 2^n, f stays odd |
| `DivSteps.StepIsDivStep` | ios/Pods/secp256k1Wrapper/src/modinv64_impl.h:139-158 | one step is the division step of its definition, with twice delta in place of the counter: swap when delta is positive and g odd, then half of g or of the even one of g + f and g - f |
| `DivSteps.StepsLowBits` | ios/Pods/secp256k1Wrapper/src/modinv64_impl.h:226-295 | the counter and the matrix of k steps depend only on the low k bits of f and g |
| `DivSteps.CancelBits` | ios/Pods/secp256k1Wrapper/src/modinv64_impl.h:226-295 | adding the multiple of f that clears k low bits of g at once equals k single steps, as long as the counter allows them |
| `DivSteps.CancelBitsSwapped` | ios/Pods/secp256k1Wrapper/src/modinv64_impl.h:226-295 | the same when the counter is negative and the pair is swapped first |
| `DivSteps.SixBitFormula` | ios/Pods/secp256k1Wrapper/src/modinv64_impl.h:262-270 | f*g*(f*f-2) is a multiplier that clears up to six low bits of g |
| `DivSteps.FourBitFormula` | ios/Pods/secp256k1Wrapper/src/modinv64_impl.h:272-282 | the cheaper formula clears up to four |
| `ModInvBatch.DivSteps62Var` | ios/Pods/secp256k1Wrapper/src/modinv64_impl.h:226-295 | the word-level loop that cancels several bits at a time returns exactly the counter and the matrix of 62 single steps |
| `ModInvBatch.DivSteps59` | ios/Pods/secp256k1Wrapper/src/modinv64_impl.h:159-214 | the constant-time loop returns the counter and 8 times the matrix of 59 single steps |
| `ModInvTheory.DivisorsKept` | ios/Pods/secp256k1Wrapper/src/modinv64_impl.h:514-591 | no common divisor of the starting pair is lost by any number of steps |
| `ModInvTheory.ExtendedStep` | ios/Pods/secp256k1Wrapper/src/modinv64_impl.h:304-381 | a batch with the matching update of d and e keeps d*x = f, e*x = g (mod M) and the ranges |
| `ModInvTheory.ExtendedEnd` | ios/Pods/secp256k1Wrapper/src/modinv64_impl.h:581-591 | when g is 0 the signed d is the inverse of x modulo M, or 0 for x = 0 |
| `ModInv64.UpdateDe62` | ios/Pods/secp256k1Wrapper/src/modinv64_impl.h:304-381 | (d, e) becomes t*(d, e)/2^62 modulo M, both again inside (-2M, M), no 128-bit overflow, lower limbs reduced; for moduli in signed limbs |
| `Limbs62.UpdateFg62Var` | ios/Pods/secp256k1Wrapper/src/modinv64_impl.h:387-458 | (f, g) becomes t*(f, g)/2^62 exactly, over any number of limbs; the limbs above are untouched |
| `ModInv64.Normalize62` | ios/Pods/secp256k1Wrapper/src/modinv64_impl.h:69-137 | for all limbs the comment allows, the residue modulo M of the number, or of its negation when sign is negative; inside [0, M) with reduced limbs exactly when the two conditional additions settle it (`Settles`) |
| `ModInv64.NormalizedValue` | ios/Pods/secp256k1Wrapper/src/modinv64_impl.h:83-122 | the condition: two additions of M, each taken on the sign the top limb shows, end in [0, M) exactly when that is the true sign or in the listed cases where it does not matter |
| `ModInv64.HiddenSign` | ios/Pods/secp256k1Wrapper/src/modinv64_impl.h:66-70 | the limbs [-5, 0, 0, 0, 0] with modulus 3 are in the range asked for and do not settle |
| `ModInv64.ShrinkKeepsVal` | ios/Pods/secp256k1Wrapper/src/modinv64_impl.h:560-575 | dropping a top limb that is only a sign keeps the number |
| `ModInv64.RoundVar` | ios/Pods/secp256k1Wrapper/src/modinv64_impl.h:535-550 | one round keeps the invariant and leaves eta, f and g as after 62 reference steps |
| `ModInv64.ModInv64Var` | ios/Pods/secp256k1Wrapper/src/modinv64_impl.h:514-591 | ends within the given rounds exactly when that many reference steps make g zero, and then returns the inverse modulo M in reduced limbs; otherwise x is unchanged |
| `ModInv64.ModInv64` | ios/Pods/secp256k1Wrapper/src/modinv64_impl.h:461-511 | ten batches make g zero exactly when 590 reference steps do, and then x is the inverse modulo M |
| `Inversion.ScalarToSigned62Val` | ios/Pods/secp256k1Wrapper/src/scalar_4x64_impl.h:816-829 | recutting 64-bit limbs into 62-bit limbs keeps the number and reduces every limb |
| `Inversion.ScalarFromSigned62Val` | ios/Pods/secp256k1Wrapper/src/scalar_4x64_impl.h:794-814 | and back |
| `Inversion.ScalarInfo` | ios/Pods/secp256k1Wrapper/src/scalar_4x64_impl.h:831-834 | the shipped constants denote the group order and its inverse modulo 2^62 |
| `Inversion.ScalarInverse` | ios/Pods/secp256k1Wrapper/src/scalar_4x64_impl.h:836-848 | the inverse of a scalar modulo the order (0 for 0), whenever 590 steps suffice |
| `Inversion.ScalarInverseVar` | ios/Pods/secp256k1Wrapper/src/scalar_4x64_impl.h:850-862 | the same for the variable-time loop, whenever the rounds suffice |
| `Inversion.FeToSigned62Val` | ios/Pods/secp256k1Wrapper/src/field_5x52_impl.h:620-633 | recutting 52-bit limbs into 62-bit limbs keeps the number |
| `Inversion.FeFromSigned62Val` | ios/Pods/secp256k1Wrapper/src/field_5x52_impl.h:594-618 | and back, to a normalized element |
| `Inversion.FeInfo` | ios/Pods/secp256k1Wrapper/src/field_5x52_impl.h:635-638 | the shipped constants, with a negative limb, denote p and its inverse modulo 2^62 |
| `Inversion.FeInv` | ios/Pods/secp256k1Wrapper/src/field_5x52_impl.h:640-653 | the inverse of a field element of any allowed magnitude, normalized |
| `Inversion.FeInvVar` | ios/Pods/secp256k1Wrapper/src/field_5x52_impl.h:655-668 | the same for the variable-time loop |
| `BigUInts.BigUInt.FromWords` | ios/Pods/BigInt/Sources/BigUInt.swift:50-54 | the digits of the new number are the words without leading zeros |
| `BigUInts.BigUInt.FromSlice` | ios/Pods/BigInt/Sources/BigUInt.swift:56-60 | the digits of the slice without leading zeros, whatever kind that takes |
| `BigUInts.BigUInt.Normalize` | ios/Pods/BigInt/Sources/BigUInt.swift:133-163 | restores the representation invariant from every kind and keeps the digits |
| `BigUInts.BigUInt.EnsureArray` | ios/Pods/BigInt/Sources/BigUInt.swift:89-102 | turns any kind into an array of the same digits |
| `BigUInts.BigUInt.ReserveCapacity` | ios/Pods/BigInt/Sources/BigUInt.swift:109-130 | the same digits, as an array |
| `BigUInts.BigUInt.Load` | ios/Pods/BigInt/Sources/BigUInt.swift:171-179 | takes over digits and value of another number |
| `BigUInts.BigUInt.Count` | ios/Pods/BigInt/Sources/BigUInt.swift:186-197 | the number of digits: the value lies between the two neighbouring powers of the base |
| `BigUInts.BigUInt.Get` | ios/Pods/BigInt/Sources/BigUInt.swift:209-224 | every index reads the digit of the value, zero beyond the stored ones, for every kind |
| `BigUInts.BigUInt.Set` | ios/Pods/BigInt/Sources/BigUInt.swift:225-238 | every index: exactly that digit of the value changes, invariant kept, for every kind |
| `BigUInts.BigUInt.Replace` | ios/Pods/BigInt/Sources/BigUInt.swift:240-247 | writing inside the digits changes that digit only |
| `BigUInts.BigUInt.Extend` | ios/Pods/BigInt/Sources/BigUInt.swift:249-255 | writing beyond the digits fills with zeros |
| `BigUInts.BigUInt.Extract` | ios/Pods/BigInt/Sources/BigUInt.swift:258-282 | for every range, the digits of the range: value / B^lo mod B^(hi-lo) |
| `BigUInts.BigUInt.Split` | ios/Pods/BigInt/Sources/BigUInt.swift:357-361 | low and high half with high * B^mid + low the number again, and their digit counts |
| `BigUInts.BigUInt.ShiftRightWords` | ios/Pods/BigInt/Sources/BigUInt.swift:290-315 | division by B^amount; the invariant survives exactly when a slice is not shifted by its whole length |
| `BigUInts.ShiftWholeSlice` | ios/Pods/BigInt/Sources/BigUInt.swift:299-302 | a reachable slice whose invariant breaks |
| `BigUInts.BigUInt.ShiftLeftWords` | ios/Pods/BigInt/Sources/BigUInt.swift:317-343 | multiplication by B^amount, for every kind |
| `Comparison.Compare` | ios/Pods/BigInt/Sources/Comparable.swift:17-25 | the order of the two values |
| `Addition.AddWord` | ios/Pods/BigInt/Sources/Addition.swift:16-26 | adds word * B^shift, carries through any number of digits |
| `Addition.Add` | ios/Pods/BigInt/Sources/Addition.swift:42-61 | adds b * B^shift for operands of any length |
| `Subtraction.SubtractReportingOverflow` | ios/Pods/BigInt/Sources/Subtraction.swift:68-89 | the flag is set exactly when the difference is negative; the result is the difference, or its complement over the digits visited |
| `Subtraction.Subtract` | ios/Pods/BigInt/Sources/Subtraction.swift:115-118 | the exact difference when it is not negative |
| `WordOps.CarriedNext` | ios/Pods/BigInt/Sources/Multiplication.swift:22-27 | one digit of any carry loop (sum, difference, product, fused) keeps the value equation |
| `Multiplication.MultiplyByWord` | ios/Pods/BigInt/Sources/Multiplication.swift:16-28 | value times word, in place |
| `Multiplication.MultiplyAndAdd` | ios/Pods/BigInt/Sources/Multiplication.swift:45-71 | self + x * y * B^shift with two independent carries, no word overflow |
| `Multiplication.Multiply` | ios/Pods/BigInt/Sources/Multiplication.swift:91-149 | the product, for all operands and every limit at which the recursion starts; terminates on the sum of the counts |
| `Multiplication.Karatsuba` | ios/Pods/BigInt/Sources/Multiplication.swift:118-148 | three half-size products give the product, and the final subtraction never underflows |
| `WordDivision.HalfQuotient` | ios/Pods/BigInt/Sources/Division.swift:62-75 | the half-word quotient is exact after at most two corrections |
| `WordDivision.FastDividingFullWidth` | ios/Pods/BigInt/Sources/Division.swift:41-106 | exact quotient and remainder of a double word by a word, without overflow |
| `WordDivision.ApproximateQuotient` | ios/Pods/BigInt/Sources/Division.swift:112-138 | min(floor of three words by two, largest word) |
| `Division.EstimateOvershoot` | ios/Pods/BigInt/Sources/Division.swift:210-236 | the estimate is never below the true quotient digit and at most one above, for any number of ignored digits |
| `Division.DivideByWord` | ios/Pods/BigInt/Sources/Division.swift:148-158 | quotient in place and remainder, for numbers of any length |
| `Division.LongDivide` | ios/Pods/BigInt/Sources/Division.swift:204-248 | normalized long division: quotient returned, remainder left in x |
| `Division.Divide` | ios/Pods/BigInt/Sources/Division.swift:173-252 | for all x and all nonzero y: x becomes x / y and y becomes x mod y |
| `Division.FormRemainder` | ios/Pods/BigInt/Sources/Division.swift:255-286 | x mod the unshifted divisor, the same remainder without the quotient |
| `Division.Quotient` | ios/Pods/BigInt/Sources/Division.swift:294-306 | x / y for all nonzero y |
| `Division.Remainder` | ios/Pods/BigInt/Sources/Division.swift:311-316 | x mod y for all nonzero y |
| `Shifts.ShiftLeft` | ios/Pods/BigInt/Sources/Shifts.swift:39-59 | in place, times 2^amount for any amount |
| `Shifts.ShiftedLeft` | ios/Pods/BigInt/Sources/Shifts.swift:13-37 | the copying form |
| `Shifts.ShiftRight` | ios/Pods/BigInt/Sources/Shifts.swift:86-107 | in place, floor of value / 2^amount |
| `Shifts.ShiftedRight` | ios/Pods/BigInt/Sources/Shifts.swift:61-84 | the copying form |
| `Shifts.BitWidth` | ios/Pods/BigInt/Sources/Words and Bits.swift:48-51 | the bit length of the value |
| `BitCounts.TrailingZeroBitCount` | ios/Pods/BigInt/Sources/Words and Bits.swift:70-74 | the exponent of the largest power of two that divides the value |
| `BitCounts.LargestPower` | ios/Pods/BigInt/Sources/Words and Bits.swift:70-74 | that this exponent is the largest is the same as an odd quotient |
| `SignedInts.SignedSum` | ios/Pods/BigInt/Sources/Addition.swift:98-119 | integer addition, zero never negative |
| `SignedInts.SignedQuotientAndRemainder` | ios/Pods/BigInt/Sources/Division.swift:341-347 | truncating division with the sign of the dividend on the remainder |
| `SignedInts.Modulus` | ios/Pods/BigInt/Sources/Division.swift:360-366 | the residue in [0, abs(m)) |
| `Exponentiation.Power` | ios/Pods/BigInt/Sources/Exponentiation.swift:24-43 | base^exponent for all exponents; 1 or 0 for negative ones |
| `Exponentiation.PowerMod` | ios/Pods/BigInt/Sources/Exponentiation.swift:52-72 | base^exponent mod modulus for all operands, modulus not 0 |
| `NumberTheory.Fermat` | ios/Pods/BigInt/Sources/Prime Test.swift:40-64 | the theorem that the test rests on, for all primes |
| `NumberTheory.RootsOfOne` | ios/Pods/BigInt/Sources/Prime Test.swift:53-63 | modulo a prime only 1 and -1 square to 1 |
| `PrimeTest.IsStrongProbablePrime` | ios/Pods/BigInt/Sources/Prime Test.swift:40-64 | the result is exactly the definition over the odd part of n - 1 |
| `PrimeTest.StrongProbablePrimeIs` | ios/Pods/BigInt/Sources/Prime Test.swift:43-63 | the definition for any way to write n - 1 as an odd number times a power of two: base^d is 1, or one of its squares is -1, modulo n |
| `PrimeTest.TablePrimes` | ios/Pods/BigInt/Sources/Prime Test.swift:11-24 | the table holds exactly the primes up to 41 |
| `PrimeTest.PrimePasses` | ios/Pods/BigInt/Sources/Prime Test.swift:40-64 | every prime passes for every base it does not divide |
| `PrimeTest.IsPrime` | ios/Pods/BigInt/Sources/Prime Test.swift:79-121 | accepted exactly when a table prime, or above 41 with no table prime as a divisor and a strong probable prime to the base 2 and to every table prime whose predecessor's bound does not exceed the number; from the last bound on, to all drawn bases instead. A prime is never rejected, whatever is drawn |
| `PrimeTest.PrimeAccepted` | ios/Pods/BigInt/Sources/Prime Test.swift:79-121 | every prime satisfies that case analysis |
| `GreatestCommonDivisor.SteinGcd` | ios/Pods/BigInt/Sources/GCD.swift:15-33 | the greatest common divisor of any two numbers, 0 included |
| `GreatestCommonDivisor.InverseLoopNext` | ios/Pods/BigInt/Sources/GCD.swift:47-52 | one Euclid step keeps the congruences, the balance and the bound on the coefficients |
| `GreatestCommonDivisor.Inverse` | ios/Pods/BigInt/Sources/GCD.swift:43-57 | found exactly for coprime numbers; then below the modulus with product 1 |
| `NumberTheory.InverseIffCoprime` | ios/Pods/BigInt/Sources/GCD.swift:43-57 | an inverse exists exactly for coprime numbers |
| `SquareRoot.Root` | ios/Pods/BigInt/Sources/Square Root.swift:15-29 | the Newton loop ends at the floor of the square root |
| `SquareRoot.NewtonStops` | ios/Pods/BigInt/Sources/Square Root.swift:22-27 | an iterate that does not fall is the root |
| `TextConversion.CharsPerWord` | ios/Pods/BigInt/Sources/String Conversion.swift:17-30 | the numerals handled together and their weight, which is 0 when it is 2^64 or more |
| `TextConversion.UnitCases` | ios/Pods/BigInt/Sources/String Conversion.swift:17-30 | the weight of a word of numerals is the base of the parts exactly outside radix 8 and 32 |
| `TextConversion.Print` | ios/Pods/BigInt/Sources/String Conversion.swift:117-149 | the text is the digits to that base, padded in the middle |
| `TextConversion.PrintedMeans` | ios/Pods/BigInt/Sources/String Conversion.swift:117-149 | the text denotes the number if and only if the radix is not 8 or 32 or the number is below 2^64 |
| `TextConversion.PrintedForm` | ios/Pods/BigInt/Sources/String Conversion.swift:117-149 | letters only of the asked case, and a leading zero only for 0 |
| `TextConversion.SplitText` | ios/Pods/BigInt/Sources/String Conversion.swift:43-61 | the backward scan yields the words of the text, or nothing when a chunk is not a word |
| `TextConversion.WordOfTextMeans` | ios/Pods/BigInt/Sources/String Conversion.swift:47-60 | which chunks are words: numerals below 2^64 after an optional sign, a minus only before zero |
| `TextConversion.BadCharacter` | ios/Pods/BigInt/Sources/String Conversion.swift:37-61 | a text with a character that is neither a numeral of the radix nor a sign is refused |
| `TextConversion.Parse` | ios/Pods/BigInt/Sources/String Conversion.swift:39-72 | fails exactly when a chunk is not a word, else the number of the chunks; a text of numerals is read as the number it denotes if and only if the radix is not 8 or 32 or that number is below 2^64 |
| `TextConversion.ParseMeans` | ios/Pods/BigInt/Sources/String Conversion.swift:39-72 | the same about the words of a text |
| `TextConversion.OctalRefused` | ios/Pods/BigInt/Sources/String Conversion.swift:39-72 | 22 sevens are refused in radix 8 |
| `TextConversion.RoundTrip` | ios/Pods/BigInt/Sources/String Conversion.swift:39-149 | for every number, every radix 2..36 and both cases, parsing the printed text gives the number |
| `DataConversion.FromData` | ios/Pods/BigInt/Sources/Data Conversion.swift:49-81 | the number the bytes denote, for every length |
| `DataConversion.Serialize` | ios/Pods/BigInt/Sources/Data Conversion.swift:84-109 | the big-endian bytes of the number, as many as its bit length takes |
| `DataConversion.SerializedMeans` | ios/Pods/BigInt/Sources/Data Conversion.swift:84-109 | they denote the number and have no leading zero |
| `DataConversion.SerializedUnique` | ios/Pods/BigInt/Sources/Data Conversion.swift:49-109 | bytes without leading zero are what their number serializes to |
| `Scalars.CheckOverflow` | ios/Pods/secp256k1Wrapper/src/scalar_4x64_impl.h:59-69 | whether the limbs denote the order or more |
| `Scalars.IsHigh` | ios/Pods/secp256k1Wrapper/src/scalar_4x64_impl.h:158-168 | whether the number is above half the order |
| `Scalars.Add` | ios/Pods/secp256k1Wrapper/src/scalar_4x64_impl.h:85-99 | the sum modulo the order, and whether it was reduced |
| `Scalars.Negate` | ios/Pods/secp256k1Wrapper/src/scalar_4x64_impl.h:142-152 | the negation modulo the order |
| `Scalars.CondNegate` | ios/Pods/secp256k1Wrapper/src/scalar_4x64_impl.h:170-184 | the masked negation, or the number itself |
| `ScalarMul.Mul512` | ios/Pods/secp256k1Wrapper/src/scalar_4x64_impl.h:559-724 | the exact 512-bit product with no accumulator overflow |
| `ScalarMul.Fold385` | ios/Pods/secp256k1Wrapper/src/scalar_4x64_impl.h:250-520 | the first folding keeps the residue and its value equation, below 2^385 |
| `ScalarMul.Fold258` | ios/Pods/secp256k1Wrapper/src/scalar_4x64_impl.h:520-534 | the second folding, below 2^258 |
| `ScalarMul.Fold256` | ios/Pods/secp256k1Wrapper/src/scalar_4x64_impl.h:534-557 | the last folding and the final reduction |
| `ScalarMul.Reduce512` | ios/Pods/secp256k1Wrapper/src/scalar_4x64_impl.h:250-557 | any 512-bit number modulo the order, fully reduced |
| `ScalarMul.Mul` | ios/Pods/secp256k1Wrapper/src/scalar_4x64_impl.h:733-737 | a * b modulo the order |
| `ScalarBits.GetBits` | ios/Pods/secp256k1Wrapper/src/scalar_4x64_impl.h:43-46 | the bits at an offset, inside one limb |
| `ScalarBits.GetBitsVar` | ios/Pods/secp256k1Wrapper/src/scalar_4x64_impl.h:48-57 | the bits at any offset, across limbs |
| `ScalarBits.ShrInt` | ios/Pods/secp256k1Wrapper/src/scalar_4x64_impl.h:739-749 | quotient and remainder by 2^n |
| `ScalarBits.CaddBit` | ios/Pods/secp256k1Wrapper/src/scalar_4x64_impl.h:101-117 | adds 2^bit when flagged |
| `ScalarBits.Split128` | ios/Pods/secp256k1Wrapper/src/scalar_4x64_impl.h:751-760 | the halves below and above 2^128 |
| `ScalarBits.MulShiftVar` | ios/Pods/secp256k1Wrapper/src/scalar_4x64_impl.h:766-781 | a * b / 2^shift rounded to nearest, for shifts 256..512 |
| `ScalarBytes.SetB32` | ios/Pods/secp256k1Wrapper/src/scalar_4x64_impl.h:119-129 | the 32-byte number modulo the order, and whether it was reduced |
| `ScalarBytes.GetB32` | ios/Pods/secp256k1Wrapper/src/scalar_4x64_impl.h:131-136 | the 32 bytes that denote the scalar |
| `SplitLambda.LatticeBasis` | ios/Pods/secp256k1Wrapper/src/scalar_impl.h:66-97 | the shipped constants form a basis of the lattice of multiples of the order, and the bounds of the written proof are half the sums of its entries, rounded up |
| `SplitLambda.ShortParts` | ios/Pods/secp256k1Wrapper/src/scalar_impl.h:158-262 | both parts are bounded for every k, through the rounding errors |
| `SplitLambda.Split` | ios/Pods/secp256k1Wrapper/src/scalar_impl.h:123-156 | r1 + lambda * r2 = k modulo the order; r1 and r2, or their negations, are below the bounds of the written proof (both under 2^128) |
| `Wnaf.EcmultWnaf` | ios/Pods/secp256k1Wrapper/src/ecmult_impl.h:159-209 | digits zero or odd, below 2^(w-1), nonzero ones w apart; their weighted sum is the signed scalar when it fits (so the last carry is 0), else its low bits less the carry; the count returned is at most one more than the bit length of the magnitude |
| `Wnaf.WnafFixed` | ios/Pods/secp256k1Wrapper/src/ecmult_impl.h:410-470 | odd digits below 2^w (or zero) whose weighted sum less the skew is the low 128 bits |
| `Wnaf.WnafConst` | ios/Pods/secp256k1Wrapper/src/ecmult_const_impl.h:69-131 | odd, hence nonzero, digits below 2^w whose weighted sum less the skew is the centred scalar |
| `Ecmult.OddMultiplesTable` | ios/Pods/secp256k1Wrapper/src/ecmult_impl.h:73-115 | entry i is (2i+1) times the point |
| `Ecmult.TableGet` | ios/Pods/secp256k1Wrapper/src/ecmult_impl.h:122-150 | the multiple that an odd digit stands for |
| `Ecmult.PointStreams` | ios/Pods/secp256k1Wrapper/src/ecmult_impl.h:256-283 | the two recoded halves of a scalar add up to its multiple of the point |
| `Ecmult.Interleave` | ios/Pods/secp256k1Wrapper/src/ecmult_impl.h:312-335 | shared doublings over all streams give the sum of all recoded multiples |
| `Ecmult.StraussWnaf` | ios/Pods/secp256k1Wrapper/src/ecmult_impl.h:225-336 | ng*G + sum of na[i]*a[i] for any number of points |
| `Ecmult.SingleMultiple` | ios/Pods/secp256k1Wrapper/src/ecmult_impl.h:338-348 | na*a + ng*G |
| `EcmultConst.ConstTableGet` | ios/Pods/secp256k1Wrapper/src/ecmult_const_impl.h:33-58 | the pass over the whole table ends at the multiple that the digit stands for |
| `EcmultConst.SumDigits` | ios/Pods/secp256k1Wrapper/src/ecmult_const_impl.h:177-208 | the weighted sums of both digit strings, times their points |
| `EcmultConst.EcmultConst` | ios/Pods/secp256k1Wrapper/src/ecmult_const_impl.h:133-229 | scalar times point, split or short |
| `Pippenger.SumBuckets` | ios/Pods/secp256k1Wrapper/src/ecmult_impl.h:537-554 | the running sums give 2r plus the sum of (2k+1)*bucket[k] |
| `Pippenger.FillBuckets` | ios/Pods/secp256k1Wrapper/src/ecmult_impl.h:513-536 | every nonzero digit and skew is added to exactly one bucket with its sign |
| `Pippenger.SumWindows` | ios/Pods/secp256k1Wrapper/src/ecmult_impl.h:505-561 | all windows together give the sum of recoded multiples |
| `Pippenger.EndoSplit` | ios/Pods/secp256k1Wrapper/src/ecmult_impl.h:618-631 | two scalars below 2^128 and points with the same combined multiple |
| `Pippenger.PippengerWnaf` | ios/Pods/secp256k1Wrapper/src/ecmult_impl.h:489-564 | the sum of sc[i]*pt[i], for every bucket window |
| `Scratch.ScratchSpace.Alloc` | ios/Pods/secp256k1Wrapper/src/scratch_impl.h:73-97 | granted exactly when the rounded size fits; the used size never exceeds the maximum |
| `Scratch.ScratchSpace.ApplyCheckpoint` | ios/Pods/secp256k1Wrapper/src/scratch_impl.h:46-56 | back to an earlier size |
| `Scratch.ScratchSpace.MaxAllocation` | ios/Pods/secp256k1Wrapper/src/scratch_impl.h:58-71 | what is left after worst-case rounding of that many objects, and 0 exactly when that leaves nothing |
| `Scratch.RoundingCost` | ios/Pods/secp256k1Wrapper/src/scratch_impl.h:58-71 | rounding any list of sizes costs at most 15 bytes each |
| `Scratch.BucketWindowTable` | ios/Pods/secp256k1Wrapper/src/ecmult_impl.h:570-596 | the numbers of points at which the best window changes |
| `Scratch.FitsMeans` | ios/Pods/secp256k1Wrapper/src/ecmult_impl.h:739-746 | the size accounting of a window: the buckets, the state, and two entries for each point and for the generator |
| `Scratch.PippengerFitsMeans` | ios/Pods/secp256k1Wrapper/src/ecmult_impl.h:662-687 | the six allocations with their sizes, each rounded up |
| `Scratch.StraussFitsMeans` | ios/Pods/secp256k1Wrapper/src/ecmult_impl.h:370-378 | the five allocations with their sizes, each rounded up |
| `Scratch.BucketWindowInverse` | ios/Pods/secp256k1Wrapper/src/ecmult_impl.h:570-615 | the two window tables are inverse to each other for every number of points |
| `Scratch.PippengerMaxPoints` | ios/Pods/secp256k1Wrapper/src/ecmult_impl.h:729-761 | for every number of points up to the result all six allocations succeed, although smaller numbers take other windows; and the result is exactly the last number that the size accounting admits in the bytes not allocated less 90 |
| `Scratch.StraussMaxPoints` | ios/Pods/secp256k1Wrapper/src/ecmult_impl.h:399-401 | the same for the five allocations of the other algorithm: exactly the points that fit in the bytes not allocated less 75 |
| `MultiScalar.BatchSizeHelper` | ios/Pods/secp256k1Wrapper/src/ecmult_impl.h:792-808 | the fewest batches, and the fewest points in each, that hold all points |
| `MultiScalar.MultiSimple` | ios/Pods/secp256k1Wrapper/src/ecmult_impl.h:765-788 | generator multiple plus sum, one point at a time |
| `MultiScalar.StraussBatch` | ios/Pods/secp256k1Wrapper/src/ecmult_impl.h:355-392 | succeeds exactly when the memory fits and the callback gives every input; then the sum over the range |
| `MultiScalar.PippengerBatch` | ios/Pods/secp256k1Wrapper/src/ecmult_impl.h:643-717 | the same for the bucket method; the scratch space is left as found |
| `MultiScalar.ChooseMethod` | ios/Pods/secp256k1Wrapper/src/ecmult_impl.h:828-845 | Pippenger exactly when its capacity allows batches of 88 points, Strauss exactly when it does not but both allow one point; the batches cover all points and every one fits the memory |
| `MultiScalar.MultiBatches` | ios/Pods/secp256k1Wrapper/src/ecmult_impl.h:846-857 | the batches use every input exactly once |
| `MultiScalar.MultiVar` | ios/Pods/secp256k1Wrapper/src/ecmult_impl.h:811-857 | for every number of points and any memory: fails only if the callback does, else g*G plus the sum of all inputs |
| `Field52.Normalize` | ios/Pods/secp256k1Wrapper/src/field_5x52_impl.h:76-117 | the residue modulo p in its one representation, exactly when the first addition to the lowest limb stays in its word; else the residue of 2^64 less |
| `Field52.RoomBelow` | ios/Pods/secp256k1Wrapper/src/field_5x52_impl.h:76-85 | it always does below the largest magnitude |
| `Field52.NoRoomAtMost` | ios/Pods/secp256k1Wrapper/src/field_5x52_impl.h:76-85 | at the largest magnitude it need not |
| `Field52.NormalizeWeak` | ios/Pods/secp256k1Wrapper/src/field_5x52_impl.h:119-141 | magnitude 1 with the same residue, exactly when the first addition stays in its word |
| `Field52.NormalizeVar` | ios/Pods/secp256k1Wrapper/src/field_5x52_impl.h:143-185 | the same as the constant-time form |
| `Field52.CanonicalForm` | ios/Pods/secp256k1Wrapper/src/field_5x52_impl.h:76-117 | normalized elements with the same residue are equal |
| `Field52.NormalizesToZero` | ios/Pods/secp256k1Wrapper/src/field_5x52_impl.h:187-208 | true exactly when what the first pass keeps is a multiple of p, and right about the number itself exactly when the first addition stays in its word or the residue is neither 0 nor 2^64 |
| `Field52.NormalizesToZeroVar` | ios/Pods/secp256k1Wrapper/src/field_5x52_impl.h:210-249 | the same with the early exit |
| `Field52.Mul` | ios/Pods/secp256k1Wrapper/src/field_5x52_int128_impl.h:18-154 | a * b modulo p at magnitude 1 for magnitudes up to 8, no 128-bit overflow |
| `Field52.Sqr` | ios/Pods/secp256k1Wrapper/src/field_5x52_int128_impl.h:156-276 | a * a modulo p likewise |
| `Field52.Fold` | ios/Pods/secp256k1Wrapper/src/field_5x52_int128_impl.h:36-154 | nine columns within the bounds fold to magnitude 1 with the same residue |
| `Field52.Negate` | ios/Pods/secp256k1Wrapper/src/field_5x52_impl.h:398-416 | the negation as 2(m+1)p - a, limb by limb without underflow |
| `Field52.Add` | ios/Pods/secp256k1Wrapper/src/field_5x52_impl.h:431-445 | the sum, magnitudes added |
| `Field52.Half` | ios/Pods/secp256k1Wrapper/src/field_5x52_impl.h:495-558 | twice the result is a, or a + p when a is odd; magnitude m/2 + 1 |
| `Field52.CmpVar` | ios/Pods/secp256k1Wrapper/src/field_5x52_impl.h:290-307 | the order of the numbers |
| `Field52.EqualVar` | ios/Pods/secp256k1Wrapper/src/field_impl.h:31-36 | equality modulo p |
| `FieldBytes.SetB32` | ios/Pods/secp256k1Wrapper/src/field_5x52_impl.h:309-356 | the limbs denote the 32-byte number; the flag tells whether it is below p |
| `FieldBytes.GetB32Val` | ios/Pods/secp256k1Wrapper/src/field_5x52_impl.h:359-396 | the bytes written denote the element |
| `BatchInversion.SetAllGejVar` | ios/Pods/secp256k1Wrapper/src/group_impl.h:122-162 | for any number of points, infinite ones included, every point becomes affine with one inversion; it ends exactly when the inversion of the product of all z does |
| `BatchInversion.SetGejZinv` | ios/Pods/secp256k1Wrapper/src/group_impl.h:67-76 | x and y are X / Z^2 and Y / Z^3 given an inverse of Z |
| `BatchInversion.BackwardStep` | ios/Pods/secp256k1Wrapper/src/group_impl.h:143-151 | splitting one z off the running inverse |
| `EcmultGen.ComputeTable` | ios/Pods/secp256k1Wrapper/src/ecmult_gen_compute_table_impl.h:16-79 | entry (j, i) is i * 2^(bits*j) * G plus the offset of row j, for any offset point |
| `EcmultGen.TableMeans` | ios/Pods/secp256k1Wrapper/src/ecmult_gen_compute_table_impl.h:27-69 | such a table in full: the rows hold 1, 2, 4, ... times the offset point, the last row 1 - 2^(n-1) times |
| `EcmultGen.OffsetsCancel` | ios/Pods/secp256k1Wrapper/src/ecmult_gen_compute_table_impl.h:49-69 | the offsets of all rows sum to zero |
| `EcmultGen.GenContext.Gen` | ios/Pods/secp256k1Wrapper/src/ecmult_gen_impl.h:45-81 | gn * G, whatever the blinding |
| `EcmultGen.GenContext.Blind` | ios/Pods/secp256k1Wrapper/src/ecmult_gen_impl.h:84-130 | every blinding keeps initial = -blind * G; the new blinding is the negated draw |
| `Der.ReadLen` | ios/Pods/secp256k1Wrapper/src/ecdsa_impl.h:49-100 | succeeds exactly on shortest definite length octets (sections 8.1.3 and 10.1 of X.690), of a length that fits when it is in long form |
| `Der.ParseInteger` | ios/Pods/secp256k1Wrapper/src/ecdsa_impl.h:102-151 | succeeds exactly when an INTEGER in shortest form stands there; a number in [0, n) is read as itself, any other as 0 |
| `Der.SigParse` | ios/Pods/secp256k1Wrapper/src/ecdsa_impl.h:153-181 | accepts exactly the encodings of pairs of integers and gives back the pair, with 0 for a number outside [0, n); a parsed pair of nonzero scalars has no other encoding |
| `Der.SigSerialize` | ios/Pods/secp256k1Wrapper/src/ecdsa_impl.h:183-205 | writes the encoding of the pair when it fits, else nothing, and tells its size |
| `Der.PairInjective` | ios/Pods/secp256k1Wrapper/src/ecdsa_impl.h:153-205 | distinct pairs have distinct encodings |
| `Der.ContentUnique` | ios/Pods/secp256k1Wrapper/src/ecdsa_impl.h:115-124 | shortest two's complement octets are determined by their number |
| `Der.ContentShortest` | ios/Pods/secp256k1Wrapper/src/ecdsa_impl.h:115-124 | no other octets for a number are shorter |
| `Der.PairMeans` | ios/Pods/secp256k1Wrapper/src/ecdsa_impl.h:183-205 | the encoding in full: a SEQUENCE (0x30) of two INTEGERs (0x02), each with length octets |
| `Ecdsa.EqXVar` | ios/Pods/secp256k1Wrapper/src/group_impl.h:239-245 | compares an x coordinate with a Jacobian point modulo p |
| `Ecdsa.XMatches` | ios/Pods/secp256k1Wrapper/src/ecdsa_impl.h:231-238 | the two-case test accepts exactly when X(R) mod n = r |
| `Ecdsa.SigVerify` | ios/Pods/secp256k1Wrapper/src/ecdsa_impl.h:207-239 | accepts exactly when r and s are nonzero and the recomputed point is finite with x = r modulo n |
| `Ecdsa.RecomputedUnique` | ios/Pods/secp256k1Wrapper/src/ecdsa_impl.h:217-222 | the recomputed point does not depend on the inverse of s used |
| `Ecdsa.ShowsIff` | ios/Pods/secp256k1Wrapper/src/ecdsa_impl.h:207-239 | the condition in full: with w*s = 1, the point w*r*Q + w*m*G is finite and its x modulo n is r |
| `Ecdsa.SigSign` | ios/Pods/secp256k1Wrapper/src/ecdsa_impl.h:277-313 | r = X(kG) mod n; s in the lower half with s*k = r*d + m up to sign; 1 is returned exactly when both are nonzero; then the pair is a signature for the signer's key, and recid has bit 0 for odd y and bit 1 for x from the order on of the point that verification recomputes |
| `Ecdsa.Complete` | ios/Pods/secp256k1Wrapper/src/ecdsa_impl.h:277-313 | the algebra behind that, for all keys, messages and nonzero nonces |
| `Ecdsa.SignThenVerify` | ios/Pods/secp256k1Wrapper/src/ecdsa_impl.h:207-313 | what signing returns with 1 is accepted by verification; both end exactly when the inversion of the nonce does and, for such a pair, that of s |
| `Sha256.Hash.Write` | ios/Pods/secp256k1Wrapper/src/hash_impl.h:126-143 | appends to the message, for any split into writes |
| `Sha256.Hash.Finalize` | ios/Pods/secp256k1Wrapper/src/hash_impl.h:145-159 | the eight words of the block transform folded over the padded message, big-endian and in order; the state is cleared |
| `Sha256.PaddingCompletes` | ios/Pods/secp256k1Wrapper/src/hash_impl.h:145-152 | the padding completes a block and is as short as possible |
| `Sha256.PaddingMeans` | ios/Pods/secp256k1Wrapper/src/hash_impl.h:145-152 | 0x80, zeros, and the length in bits in the last eight bytes, as in section 5.1.1 of FIPS 180-4 |
| `Sha256.InitialWords` | ios/Pods/secp256k1Wrapper/src/hash_impl.h:31-41 | the initial words are the leading fraction bits of the square roots of the first eight primes (section 5.3.3 of FIPS 180-4) |
| `Sha256.SizeWords` | ios/Pods/secp256k1Wrapper/src/hash_impl.h:151-154 | the two shifted words are the 64-bit length in bits |
| `Sha256.FoldAppend` | ios/Pods/secp256k1Wrapper/src/hash_impl.h:126-143 | whole blocks can be folded in any grouping |
| `Sha256.BlockKeyMeans` | ios/Pods/secp256k1Wrapper/src/hash_impl.h:175-187 | a key of up to 64 bytes comes first and zeros follow; a longer one is hashed first |
| `Sha256.Hmac.Finalize` | ios/Pods/secp256k1Wrapper/src/hash_impl.h:206-212 | the code of section 2 of RFC 2104 for any key length and any split of the text |

## Left out

- Inversion.ScalarInverse: that 590 constant-time or 744 variable-time steps always reach 0 is a result about division steps and not about this code; the contracts of the inversions say that they end exactly when the reference steps do. The same holds for every member that calls them.
- Inversion.ScalarInverseVar: the number of rounds the caller is prepared to run is a parameter, in place of an unbounded loop.
- Ecdsa.SigSign: the primality of the group order is a hypothesis (`ValidPoints`), as are that opposite points share x and differ in the parity of y, and that a finite point has some Jacobian form with an invertible z of magnitude at most 8. A coordinate function stands for the group law's formulas.
- Ecdsa.SigVerify: likewise.
- EcmultGen.GenContext.Gen: the addition formula used there needs table points that are not the point at infinity; in the model the group operation is total.
- EcmultGen.GenContext.Blind: random numbers are parameters; rescaling the projective coordinates has no counterpart on group elements.
- Ecmult.StraussWnaf: coordinates, z ratios and the effective-affine trick are not modelled; a point's state is a pair of digit streams with a table.
- Ecmult.OddMultiplesTable: the z ratios written beside the table are not modelled, because points are group elements here.
- Ecmult.TableGet: the two precomputed generator tables are assumed to hold the odd multiples.
- Wnaf.EcmultWnaf: for w = 31 the source shifts a carry into the sign bit of an int; the model computes with integers.
- Field52.NormalizesToZero: the two accumulators that track the raw values 0 and p bit by bit are modelled as the tests they encode.
- Field52.Mul: column sums are formed before the folding that the source interleaves with them; the bounds checked are those of the accumulators.
- Scratch.PippengerMaxPoints: sizes of C structures are parameters, bounded so that their sums stay in size_t.
- Multiplication.Multiply: the limit for direct multiplication is a parameter; powers use its shipped value.
- BigUInts.BigUInt.ReserveCapacity: capacities of arrays are not modelled.
- Addition.Add: operands of in-place operations are distinct objects; Swift's value semantics gives the source a copy.
- PrimeTest.IsPrime: random bases are parameters; that the fixed bases decide primality below their table's limits is a computed fact and not claimed.
- Sha256.Hash.Finalize: the block transform is any function; its rounds are not modelled.
- Der.SigParse: inputs are shorter than 2^64 bytes.
- TextConversion.Parse: Swift's own conversion of a chunk to a word is modelled from its documentation: an optional sign, then numerals, whose number must fit. The signed wrappers are left out; `BigInt("-0")` keeps a minus sign in the source.
- The RFC 6979 generator, tagged hashes, signed data conversion, floating point, bitwise operators, random numbers, hashing and coding of big integers.
- The 10x26 and 8x32 limb layouts, for platforms without 128-bit products; `ge_table_set_globalz`.
- The 30-bit inversion, whose variable-time steps cancel with a table of inverses (`ios/Pods/secp256k1Wrapper/src/modinv32_impl.h:245-318`) in place of the two polynomial formulas.
- Constant-time behaviour, clearing of memory, argument checks and callbacks, inline assembly.
- The app's own Swift code: views, network and blockchain calls.
