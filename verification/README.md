# Verified models of the vendored QR-plugin libraries

The repository vendors two C++/C libraries for its QR plugin: `zxing-core` and `stb`. This project models five of their
components in Dafny and proves that they do what they are for. Every module names the source lines that it follows.
Unsigned words wrap here as they do there, narrowing casts that can lose bits of a supported input are written out, and
errors the source throws or returns are outcomes; what is assumed about signed sums is listed under "Left out".

1. **Reed-Solomon over GF(2^m)** (`BitOps`, `GenericGF`, `FieldOrder`, `ConcreteFields`, `PolyAlgebra`, `PolyRoots`,
   `GenericGFPoly`, `ReedSolomonEncoder`, `KeyEquation`, `ErrorPattern`, `ReedSolomonDecoder`, `ErrorExplanation`,
   `CorrectedWord`, `ErrorCorrection`, `FalseSuccess`). The log and antilog tables are a field whenever the powers of
   alpha are distinct, and a small certificate, computed on machine words, shows that they are for each of the eight
   fields the library instantiates. In-place polynomial arithmetic refines polynomial algebra. The encoder yields code
   words; the Euclidean solver, Chien search and Forney's formula compose into `ErrorCorrection.ReedSolomonDecode`,
   which undoes every pattern of up to half as many symbol errors as there are check symbols; for any other word it is
   said exactly when it succeeds and what it leaves.
2. **Multi-precision integers** (`BlockAlgebra`, `BlockShift`, `BigMagnitude`, `BigProduct`, `BigQuotient`,
   `BigInteger`, `BigDecimal`). Vectors of 64-bit blocks written in place, with outputs that may be inputs, against the
   mathematical integer; shift-and-add product, shift-and-subtract quotient, signed floor division, decimal input and
   output and their round trip.
3. **Aztec text encoding** (`BitArrays`, `AztecDecoder`, `AztecCodes`, `AztecTokens`, `AztecStates`, `AztecEncoder`,
   `AztecFlags`, `AztecStuffing`, `AztecMessage`, `AztecLayers`, `AztecRoundTrip`, `AztecLosses`; ISO/IEC 24778:2008).
   Every state that the encoder's search keeps decodes to the text read so far; pruning keeps a state at least as good
   as each one it drops. `AztecRoundTrip.Deliver` takes a text through encoding, the choice of a symbol, bit stuffing,
   check words, flipped bits, correction, unstuffing and decoding, and says exactly when the text comes out;
   `AztecLosses` has two texts that are lost.
4. **DEFLATE, PNG filters and TGA packets** (`BitStream`, `BitOutput`, `CanonicalCode`, `BitReversal`, `HuffmanTables`,
   `DeflateFormat`, `InflateSpec`, `InflateStreamSpec`, `InflateInput`, `InflateExact`, `InflateAgrees`,
   `DynamicHeader`, `DynamicBlock`, `InflateBits`, `Inflate`, `InflateZlib`, `Adler`, `ZlibCompress`, `ZlibRoundTrip`,
   `PngFilter`, `PngImage`, `PngRoundTrip`, `TgaRle`; RFC 1950, RFC 1951 and section 9 of the W3C PNG specification).
   There are two specifications: `InflateSpec` and `InflateStreamSpec` say what a stream means in the format,
   `InflateInput` and `InflateExact` what this inflater makes of any bytes at all, with the zeros it makes up past their
   end and with the bound of its output buffer. The loops compute the second one exactly, and wherever the first is
   settled the two agree (`InflateAgrees`). Blocks written in any two dynamic codes are read back. The fast table and
   the slow search decode the unique canonical code; whatever the compressor's hash chains and lazy matching choose,
   inflating its output gives the data back. On top of that, PNG image data survive filtering, compression, inflation
   and unfiltering.
5. **UTF-8** (`Utf8`; section 3 of RFC 3629). The decoding automaton accepts exactly UTF-8, decodes exactly the longest
   valid prefix of any bytes, and undoes the encoder, for two-byte and four-byte wide characters.

`Options` holds the one shared datatype, `Sequences` the regrouping of joined sequences. Classes stand for the source's
mutable objects, and methods with loops for its loops; each is proved against functions on values, and the laws about
those functions are lemmas. `dafny verify dfyconfig.toml` checks the whole project.

Where the code does not keep what its documentation says, or what one would expect, the model follows the code and says
exactly when:

- `BigInteger.Divide` is documented as floor division. The early return for a shorter dividend gives a zero quotient
  whatever the signs, which is the floor quotient if and only if the dividend is zero or the signs agree. A quotient
  object that is the dividend loses the remainder of an early return, and one that is a negative divisor flips the sign
  of the remainder.
- The parser makes `[0]` of a zero, not the empty magnitude. Sums, differences and printing accept it; a product with it
  can keep leading zero blocks (`BigInteger.TidyProduct` says exactly when, `BigInteger.UntidyProduct` is one).
- Entry 26 of the Aztec encoder's MIXED table is 0x7d, the decoder's is 0x7e. All other codes agree, so a text comes
  back if and only if that code is not among the tokens of the state that the search chooses. For the text 0x7d it is.
- `BitArrayView::peakBits` checks against the size of the whole array. With words of twelve bits, ten or eleven padding
  ones after a message that ends in UPPER, LOWER or MIXED make the decoder read past the end; no other padding does. Ten
  letters A in a symbol of 23 or more layers are such a message.
- `ReedSolomonDecode` is documented to return true if and only if the errors could be fixed. It does so for every word
  with errors that solve the key equation, and leaves a code word if and only if the evaluator of that solution has at
  most as many terms as there are errors; with four or more check symbols it can have more (`FalseSuccess`). It throws
  if and only if there is one check symbol and its syndrome is not zero.
- `stbi_zlib_compress` writes a stream for its input if and only if the input is not empty: for no data the stored
  fallback writes header and checksum alone, and the inflater rejects that.

## Model

| member | source | states |
|---|---|---|
| GenericGF.MakeGF | xinlake-qrcode/cpp/zxing-core/src/GenericGF.cpp:79-107 | for any polynomial the loops leave the powers of alpha, repeated with their period, in one table and for each power an exponent that yields it in the other; if the powers are distinct the tables make a field |
| GenericGF.EveryElementIsAPower | xinlake-qrcode/cpp/zxing-core/src/GenericGF.cpp:88-105 | distinct powers of alpha run through every nonzero element, by counting |
| GenericGF.PowerPeriod | xinlake-qrcode/cpp/zxing-core/src/GenericGF.cpp:97-100 | the powers repeat after size - 1 steps, which is why the upper half of the table is a copy |
| GenericGF.TableRange | xinlake-qrcode/cpp/zxing-core/src/GenericGF.h:65-103 | in a field every table entry and every index a lookup forms stays in range |
| GenericGF.MultiplyIsSteps | xinlake-qrcode/cpp/zxing-core/src/GenericGF.h:89-103 | the table product is repeated doubling with reduction, the product of polynomials modulo the primitive one |
| GenericGF.MultiplyAssoc | xinlake-qrcode/cpp/zxing-core/src/GenericGF.h:89-103 | multiplication by table is associative |
| GenericGF.MultiplyDistributes | xinlake-qrcode/cpp/zxing-core/src/GenericGF.h:89-103 | multiplication by table distributes over exclusive or |
| GenericGF.MultiplyNonzero | xinlake-qrcode/cpp/zxing-core/src/GenericGF.h:89-103 | there are no zero divisors |
| GenericGF.InverseIsInverse | xinlake-qrcode/cpp/zxing-core/src/GenericGF.h:82-84 | inverse is a true inverse |
| ErrorPattern.ExpLog | xinlake-qrcode/cpp/zxing-core/src/GenericGF.h:65-77 | exp undoes log on every nonzero element |
| ErrorPattern.LogExp | xinlake-qrcode/cpp/zxing-core/src/GenericGF.h:65-77 | log undoes exp below size - 1 |
| FieldOrder.CommonUnit | xinlake-qrcode/cpp/zxing-core/src/GenericGF.cpp:79-107 | if alpha^a and alpha^b are one, so is alpha^g for some common divisor g of a and b |
| FieldOrder.CertifiedIsPrimitive | xinlake-qrcode/cpp/zxing-core/src/GenericGF.cpp:79-107 | alpha^n = 1 for n = size - 1, and alpha^(n/q) not 1 for the prime factors q of n, make all powers below n distinct |
| ConcreteFields.StepWordIsStep | xinlake-qrcode/cpp/zxing-core/src/GenericGF.cpp:91-96 | the doubling step on machine words is the doubling step on numbers |
| ConcreteFields.MulWordIsPower | xinlake-qrcode/cpp/zxing-core/src/GenericGF.cpp:88-96 | the word product of alpha^a and alpha^b is alpha^(a+b) |
| ConcreteFields.AztecData12 | xinlake-qrcode/cpp/zxing-core/src/GenericGF.cpp:11-16 | the instance is a field: x^12+x^6+x^5+x^3+1 is primitive |
| ConcreteFields.AztecData10 | xinlake-qrcode/cpp/zxing-core/src/GenericGF.cpp:18-23 | the instance is a field: x^10+x^3+1 is primitive |
| ConcreteFields.AztecData6 | xinlake-qrcode/cpp/zxing-core/src/GenericGF.cpp:25-30 | the instance is a field: x^6+x+1 is primitive |
| ConcreteFields.AztecParam | xinlake-qrcode/cpp/zxing-core/src/GenericGF.cpp:32-37 | the instance is a field: x^4+x+1 is primitive |
| ConcreteFields.QRCodeField256 | xinlake-qrcode/cpp/zxing-core/src/GenericGF.cpp:39-44 | the instance is a field: x^8+x^4+x^3+x^2+1 is primitive |
| ConcreteFields.DataMatrixField256 | xinlake-qrcode/cpp/zxing-core/src/GenericGF.cpp:46-51 | the instance is a field: x^8+x^5+x^3+x^2+1 is primitive |
| ConcreteFields.AztecData8 | xinlake-qrcode/cpp/zxing-core/src/GenericGF.cpp:53-58 | the instance is a field: the polynomial of DataMatrixField256 is primitive |
| ConcreteFields.MaxiCodeField64 | xinlake-qrcode/cpp/zxing-core/src/GenericGF.cpp:60-65 | the instance is a field: the polynomial of AztecData6 is primitive |
| ConcreteFields.GetGFFromWordSize | xinlake-qrcode/cpp/zxing-core/src/aztec/AZEncoder.cpp:45-55 | for every word size of the standard the chosen instance is a field of exactly that many bits with roots from alpha on |
| GenericGFPoly.GFPoly.EvaluateAt | xinlake-qrcode/cpp/zxing-core/src/GenericGFPoly.cpp:19-34 | Horner evaluation with both shortcuts is the value of the polynomial |
| GenericGFPoly.GFPoly.AddOrSubtract | xinlake-qrcode/cpp/zxing-core/src/GenericGFPoly.cpp:36-61 | the object becomes the normalised sum, whichever buffers are exchanged; the other object is left with one of the two inputs |
| GenericGFPoly.GFPoly.MultiplyBy | xinlake-qrcode/cpp/zxing-core/src/GenericGFPoly.cpp:63-86 | the object becomes the normalised product, also when it is multiplied by itself |
| GenericGFPoly.GFPoly.MultiplyByMonomial | xinlake-qrcode/cpp/zxing-core/src/GenericGFPoly.cpp:88-103 | the object becomes its product with the monomial |
| GenericGFPoly.GFPoly.Divide | xinlake-qrcode/cpp/zxing-core/src/GenericGFPoly.cpp:105-151 | the object becomes the remainder and the other output the quotient: dividend = quotient * divisor + remainder with the remainder zero or of smaller degree, both normalised; it throws exactly for a zero divisor and then changes nothing |
| GenericGFPoly.GFPoly.Normalize | xinlake-qrcode/cpp/zxing-core/src/GenericGFPoly.cpp:153-165 | leading zeros go, and the zero polynomial keeps one |
| GenericGFPoly.GFPoly.SetMonomial | xinlake-qrcode/cpp/zxing-core/src/GenericGFPoly.h:119-128 | the object becomes the monomial |
| GenericGFPoly.RemainderStep | xinlake-qrcode/cpp/zxing-core/src/GenericGFPoly.cpp:127-137 | one quotient coefficient takes exactly that multiple of the divisor off the buffer |
| PolyAlgebra.TimesAssoc | xinlake-qrcode/cpp/zxing-core/src/GenericGFPoly.cpp:63-86 | polynomial multiplication is associative |
| PolyAlgebra.TimesPlus | xinlake-qrcode/cpp/zxing-core/src/GenericGFPoly.cpp:36-86 | polynomial multiplication distributes over addition |
| PolyAlgebra.TimesLength | xinlake-qrcode/cpp/zxing-core/src/GenericGFPoly.cpp:76-84 | degrees add and leading coefficients multiply |
| PolyRoots.EvalTimes | xinlake-qrcode/cpp/zxing-core/src/GenericGFPoly.cpp:19-34 | evaluation is multiplicative |
| PolyRoots.EvalPlus | xinlake-qrcode/cpp/zxing-core/src/GenericGFPoly.cpp:19-34 | evaluation is additive |
| PolyRoots.LocatorDivides | xinlake-qrcode/cpp/zxing-core/src/ReedSolomonDecoder.cpp:71-87 | a polynomial that vanishes at all roots of a locator is a multiple of it |
| ReedSolomonDecoder.RootBound | xinlake-qrcode/cpp/zxing-core/src/ReedSolomonDecoder.cpp:79-86 | a nonzero polynomial has at most as many roots as its degree |
| ReedSolomonEncoder.GeneratorRoots | xinlake-qrcode/cpp/zxing-core/src/ReedSolomonEncoder.cpp:24-36 | the generator of degree d vanishes at alpha^b up to alpha^(b+d-1) |
| ReedSolomonEncoder.Encoder.BuildGenerator | xinlake-qrcode/cpp/zxing-core/src/ReedSolomonEncoder.cpp:24-36 | the cache is extended by further generators and never changed, and the generator of the degree is returned |
| ReedSolomonEncoder.SystematicCodeword | xinlake-qrcode/cpp/zxing-core/src/ReedSolomonEncoder.cpp:44-51 | data followed by the remainder of the shifted data has only zero syndromes |
| ReedSolomonEncoder.Encoder.Encode | xinlake-qrcode/cpp/zxing-core/src/ReedSolomonEncoder.cpp:38-52 | it throws exactly for no check symbols or no data; otherwise the data stay and the message becomes a code word |
| ErrorPattern.SyndromesArePowerSums | xinlake-qrcode/cpp/zxing-core/src/ReedSolomonDecoder.cpp:113-115 | syndromes of a received word are the power sums of its errors |
| KeyEquation.LocatorTimesSyndromes | xinlake-qrcode/cpp/zxing-core/src/ReedSolomonDecoder.cpp:58-68 | locator times syndromes is the evaluator modulo x^R |
| KeyEquation.EvaluatorAtRoot | xinlake-qrcode/cpp/zxing-core/src/ReedSolomonDecoder.cpp:89-106 | at the root of one error only its own term of the evaluator survives: Forney |
| KeyEquation.EuclidStep | xinlake-qrcode/cpp/zxing-core/src/ReedSolomonDecoder.cpp:40-56 | one pass keeps t * S = r modulo x^R, deg t + deg rLast = R and the cross product |
| KeyEquation.EuclidMinimal | xinlake-qrcode/cpp/zxing-core/src/ReedSolomonDecoder.cpp:40-56 | no solution of the key equation with a short evaluator has a locator shorter than t |
| KeyEquation.EuclidSolves | xinlake-qrcode/cpp/zxing-core/src/ReedSolomonDecoder.cpp:40-68 | where the loop stops, t and r are a common nonzero multiple of any locator and short evaluator without a common root that solve the key equation |
| KeyEquation.EuclidCoprime | xinlake-qrcode/cpp/zxing-core/src/ReedSolomonDecoder.cpp:40-56 | and r vanishes at no root of t but zero, so what the search finds is such a solution |
| ReedSolomonDecoder.EuclidIteration | xinlake-qrcode/cpp/zxing-core/src/ReedSolomonDecoder.cpp:40-56 | with two or more check symbols a pass keeps the invariant, lowers the degree of r and takes neither exit; with one it takes one of the two |
| ReedSolomonDecoder.RunEuclideanAlgorithm | xinlake-qrcode/cpp/zxing-core/src/ReedSolomonDecoder.cpp:19-69 | it throws exactly for one nonzero syndrome, fails exactly when t vanishes at zero, and otherwise returns t and r scaled so that the locator has constant term one |
| ReedSolomonDecoder.FindErrorLocations | xinlake-qrcode/cpp/zxing-core/src/ReedSolomonDecoder.cpp:71-87 | the inverses of all roots if there are as many as the degree says, else nothing |
| ReedSolomonDecoder.FindErrorMagnitudes | xinlake-qrcode/cpp/zxing-core/src/ReedSolomonDecoder.cpp:89-106 | Forney's quotient for every location |
| ErrorCorrection.SearchFindsErrors | xinlake-qrcode/cpp/zxing-core/src/ReedSolomonDecoder.cpp:71-87 | on the locator the search finds exactly the error locators |
| ErrorCorrection.MagnitudeIsError | xinlake-qrcode/cpp/zxing-core/src/ReedSolomonDecoder.cpp:89-106 | each magnitude is the difference between the sent and the received symbol, for generator bases 0 and 1 |
| ErrorCorrection.CorrectionsRestore | xinlake-qrcode/cpp/zxing-core/src/ReedSolomonDecoder.cpp:132-139 | applying the corrections gives the code word |
| ErrorCorrection.ReedSolomonDecode | xinlake-qrcode/cpp/zxing-core/src/ReedSolomonDecoder.cpp:108-141 | it succeeds if and only if the word is a code word or errors at positions of the word, at most R - R/2 of them, explain its syndromes; then it leaves the corrections of such a solution, a code word exactly if the evaluator has at most as many terms as there are errors; without a solution nothing changes; any word within half as many symbol errors as check symbols becomes its code word; it throws exactly for one check symbol with a nonzero syndrome |
| ErrorExplanation.SolutionFound | xinlake-qrcode/cpp/zxing-core/src/ReedSolomonDecoder.cpp:40-68 | the algorithm hands over locator and evaluator of whatever solution there is |
| ErrorExplanation.FoundIsSolution | xinlake-qrcode/cpp/zxing-core/src/ReedSolomonDecoder.cpp:71-87 | as many roots as the degree says, and any at all, are a solution of the key equation |
| ErrorCorrection.NoSolution | xinlake-qrcode/cpp/zxing-core/src/ReedSolomonDecoder.cpp:58-60 | a locator that vanishes at zero or has too few roots means that there is none |
| CorrectedWord.EvaluatorsAgree | xinlake-qrcode/cpp/zxing-core/src/ReedSolomonDecoder.cpp:89-106 | the evaluator of the corrections made and that of the solution agree at every root |
| CorrectedWord.CodewordIff | xinlake-qrcode/cpp/zxing-core/src/ReedSolomonDecoder.h:38-45 | the word that is left is a code word if and only if the evaluator has at most as many terms as there are errors |
| FalseSuccess.ReceivedExplained | xinlake-qrcode/cpp/zxing-core/src/ReedSolomonDecoder.h:38-45 | in every field of at least eight elements a word of four symbols with an error in the last and a wrong first syndrome has a solution with a longer evaluator |
| FalseSuccess.ClaimsToCorrect | xinlake-qrcode/cpp/zxing-core/src/ReedSolomonDecoder.cpp:108-141 | the decoder says that it has fixed that word and leaves one that is no code word |
| BlockAlgebra.SumValue | xinlake-qrcode/cpp/zxing-core/src/ZXBigInteger.cpp:24-64 | the ripple-carry sum of block vectors is the sum of their values |
| BlockAlgebra.DiffValue | xinlake-qrcode/cpp/zxing-core/src/ZXBigInteger.cpp:66-104 | the ripple-borrow difference is the difference, up to the borrow left over |
| BlockAlgebra.NormalUnique | xinlake-qrcode/cpp/zxing-core/src/ZXBigInteger.cpp:345-362 | a magnitude without leading zeros is determined by its value |
| BlockAlgebra.CompareMagCorrect | xinlake-qrcode/cpp/zxing-core/src/ZXBigInteger.cpp:345-362 | the comparison of normalised magnitudes orders them by value |
| BigMagnitude.AddMag | xinlake-qrcode/cpp/zxing-core/src/ZXBigInteger.cpp:24-64 | c = a + b, normalised for normalised inputs, also when c is a or b |
| BigMagnitude.SubMag | xinlake-qrcode/cpp/zxing-core/src/ZXBigInteger.cpp:66-104 | c = a - b for a >= b, normalised, also when c is a or b |
| BigMagnitude.ZapLeadingZeros | xinlake-qrcode/cpp/zxing-core/src/ZXBigInteger.cpp:97-103 | leading zero blocks go and the value stays |
| BlockShift.ShiftedBlockIs | xinlake-qrcode/cpp/zxing-core/src/ZXBigInteger.cpp:106-111 | GetShiftedBlock reads the blocks of the shifted number |
| BigProduct.AddShifted | xinlake-qrcode/cpp/zxing-core/src/ZXBigInteger.cpp:154-175 | one shift-and-add round adds exactly b shifted by i blocks and i2 bits |
| BigProduct.CarryAbsorbed | xinlake-qrcode/cpp/zxing-core/src/ZXBigInteger.cpp:171-175 | the carry never runs off the result |
| BigProduct.MulMag | xinlake-qrcode/cpp/zxing-core/src/ZXBigInteger.cpp:113-185 | c = a * b, normalised for normalised inputs, with the exact length otherwise, also when c is a or b |
| BigQuotient.TrySubtract | xinlake-qrcode/cpp/zxing-core/src/ZXBigInteger.cpp:292-327 | subtracts the shifted divisor exactly when it fits and says so, else leaves the remainder alone |
| BigQuotient.DivideBlock | xinlake-qrcode/cpp/zxing-core/src/ZXBigInteger.cpp:281-328 | bit by bit the remainder stays below the divisor shifted to the current bit |
| BigQuotient.DivideWithRemainder | xinlake-qrcode/cpp/zxing-core/src/ZXBigInteger.cpp:198-343 | a = q * b + r with r < b, both normalised, also when the quotient is the dividend or divisor object or the remainder is the divisor object; the two early exits exactly |
| BigInteger.Add | xinlake-qrcode/cpp/zxing-core/src/ZXBigInteger.cpp:405-440 | the number of c becomes the sum, for all signs and also when c is a or b |
| BigInteger.Subtract | xinlake-qrcode/cpp/zxing-core/src/ZXBigInteger.cpp:442-475 | the number of c becomes the difference, for all signs and also when c is a or b |
| BigInteger.Multiply | xinlake-qrcode/cpp/zxing-core/src/ZXBigInteger.cpp:477-510 | the number of c becomes the product, for all signs and also when c is a or b; tidy blocks if and only if none is [0] against a longer one |
| BigInteger.UntidyProduct | xinlake-qrcode/cpp/zxing-core/src/ZXBigInteger.cpp:477-510 | zero as one zero block times 2^64 keeps a leading zero block |
| BigInteger.FloorDivUnique | xinlake-qrcode/cpp/zxing-core/src/ZXBigInteger.cpp:522-560 | a remainder that is zero or has the sign of the divisor and is smaller makes the quotient the floor quotient |
| BigInteger.Divide | xinlake-qrcode/cpp/zxing-core/src/ZXBigInteger.cpp:512-571 | floor quotient and remainder with the sign of the divisor, or the early return, exactly; with every aliasing under which the code does not destroy an operand it still reads, and exactly what it leaves where an output that is an operand spoils the remainder |
| BigInteger.EarlyReturnIsNotFloor | xinlake-qrcode/cpp/zxing-core/src/ZXBigInteger.cpp:515-520 | a dividend and divisor for which the early return is not floor division |
| BigDecimal.DecimalRoundTrip | xinlake-qrcode/cpp/zxing-core/src/ZXBigInteger.cpp:577-612 | the decimal digits of a number have its value |
| BigDecimal.TryParse | xinlake-qrcode/cpp/zxing-core/src/ZXBigInteger.cpp:364-403 | leading spaces, an optional sign and digits are read, the rest is ignored; it fails exactly for no digits; the result has the sign and value of what was read |
| BigDecimal.ScanReads | xinlake-qrcode/cpp/zxing-core/src/ZXBigInteger.cpp:364-389 | white space, a minus, a plus or no sign, the digits of a number and anything but a digit: sign and number are read |
| BigDecimal.CharactersAre | xinlake-qrcode/cpp/zxing-core/src/ZXBigInteger.cpp:368-389 | the six characters of white space and the ten digits |
| BigDecimal.TakeDigits | xinlake-qrcode/cpp/zxing-core/src/ZXBigInteger.cpp:593-606 | repeated division of the magnitude by ten in place yields its decimal digits and ends |
| BigDecimal.ToString | xinlake-qrcode/cpp/zxing-core/src/ZXBigInteger.cpp:577-612 | a minus sign for a negative number and the decimal digits without leading zeros |
| BigDecimal.PrintAndParse | xinlake-qrcode/cpp/zxing-core/src/ZXBigInteger.cpp:364-403 | parsing what is printed gives back the number, the sign, and for a normalised nonzero magnitude the blocks |
| BitArrays.BitArray.AppendBits | xinlake-qrcode/cpp/zxing-core/src/BitArray.h:76-87 | the lowest bits of the value are appended, most significant first |
| BitArrays.ToInt | xinlake-qrcode/cpp/zxing-core/src/BitArray.h:123-136 | the number in `count` bits from `pos` on |
| AztecMessage.ToInts | xinlake-qrcode/cpp/zxing-core/src/BitArray.h:138-149 | the words of the bits after the offset, then zeros |
| AztecDecoder.BitArrayView.ReadBits | xinlake-qrcode/cpp/zxing-core/src/BitArray.h:167-185 | the next bits as a number; the range check is against the whole array, so there are three outcomes |
| AztecDecoder.DecodeContent | xinlake-qrcode/cpp/zxing-core/src/aztec/AZDecoder.cpp:251-298 | the loop of latches, shifts, binary runs, FLG(n) and ECI computes the decoding function of the bits, with every overrun |
| AztecDecoder.LetterTexts | xinlake-qrcode/cpp/zxing-core/src/aztec/AZDecoder.cpp:37-45 | the letters of the tables, written out |
| AztecDecoder.SymbolTexts | xinlake-qrcode/cpp/zxing-core/src/aztec/AZDecoder.cpp:47-60 | and their digits, punctuation and other printable characters |
| AztecFlags.EciYields | xinlake-qrcode/cpp/zxing-core/src/aztec/AZDecoder.cpp:208-217 | for one to six digits and every number they can hold, FLG(n) and the digits, each in four bits as the digit plus two, take the decoder from any table to itself and produce exactly the switch to that number, in front of any further bits |
| AztecFlags.Fnc1Yields | xinlake-qrcode/cpp/zxing-core/src/aztec/AZDecoder.cpp:280-283 | FLG(0) produces byte 29 |
| AztecFlags.InvalidYields | xinlake-qrcode/cpp/zxing-core/src/aztec/AZDecoder.cpp:286-290 | FLG(7) produces nothing |
| AztecDecoder.ReadBinary | xinlake-qrcode/cpp/zxing-core/src/aztec/AZDecoder.cpp:260-266 | the two forms of the count of a binary run and its bytes |
| AztecDecoder.ReadCode | xinlake-qrcode/cpp/zxing-core/src/aztec/AZDecoder.cpp:268-295 | one code: a character, a latch, a shift or FLG(n) |
| AztecTokens.AppendTo | xinlake-qrcode/cpp/zxing-core/src/aztec/AZToken.cpp:15-42 | a token emits its bits, or the bytes of its run under the headers for its length |
| AztecTokens.RunMoves | xinlake-qrcode/cpp/zxing-core/src/aztec/AZToken.cpp:15-42 | a run of any length decodes to its bytes and returns to the table it was called from |
| AztecStates.CharDecodes | xinlake-qrcode/cpp/zxing-core/src/aztec/AZHighLevelEncoder.cpp:67-102 | every code of the encoder is a character of the decoder, and the same one if and only if it is not 0x7d in MIXED |
| AztecStates.LatchEncodes | xinlake-qrcode/cpp/zxing-core/src/aztec/AZHighLevelEncoder.cpp:34-64 | every entry of the latch table takes the decoder to its mode, in front of any further bits |
| AztecStates.ShiftEncodes | xinlake-qrcode/cpp/zxing-core/src/aztec/AZHighLevelEncoder.cpp:104-121 | every shift entry takes the decoder to its mode for one code and back |
| AztecStates.LatchAndAppendGood | xinlake-qrcode/cpp/zxing-core/src/aztec/AZHighLevelEncoder.cpp:125-138 | latching and appending keeps that the state decodes to the text read, in its mode, exactly unless a token is code 26 of MIXED, and counts its bits |
| AztecStates.ShiftAndAppendGood | xinlake-qrcode/cpp/zxing-core/src/aztec/AZHighLevelEncoder.cpp:142-151 | so does shifting and appending |
| AztecStates.EndBinaryShiftGood | xinlake-qrcode/cpp/zxing-core/src/aztec/AZHighLevelEncoder.cpp:155-164 | so does ending a run of binary bytes |
| AztecStates.AddBinaryShiftCharGood | xinlake-qrcode/cpp/zxing-core/src/aztec/AZHighLevelEncoder.cpp:168-187 | so does taking one more byte into a run, for every byte and run length |
| AztecStates.RunLength | xinlake-qrcode/cpp/zxing-core/src/aztec/AZHighLevelEncoder.cpp:168-187 | the bits counted for a run byte by byte are the bits its token emits |
| AztecStates.ShiftCostIs | xinlake-qrcode/cpp/zxing-core/src/aztec/AZHighLevelEncoder.cpp:191-203 | the cost of a pending run in the comparison of states is what its token emits beyond its bytes |
| AztecStates.BetterTransitive | xinlake-qrcode/cpp/zxing-core/src/aztec/AZHighLevelEncoder.cpp:205-217 | the comparison used for pruning is transitive |
| AztecEncoder.PairStatesGood | xinlake-qrcode/cpp/zxing-core/src/aztec/AZHighLevelEncoder.cpp:231-251 | every way of going on with a pair stands for the text with the pair: latched or shifted to PUNCT, as two digits, or as two more bytes of a pending run |
| AztecEncoder.UpdateStateForChar | xinlake-qrcode/cpp/zxing-core/src/aztec/AZHighLevelEncoder.cpp:293-329 | a character is continued in exactly the listed ways |
| AztecEncoder.CharStatesGood | xinlake-qrcode/cpp/zxing-core/src/aztec/AZHighLevelEncoder.cpp:293-329 | each of them stands for the text with the character, and there is at least one |
| AztecEncoder.SimplifyStates | xinlake-qrcode/cpp/zxing-core/src/aztec/AZHighLevelEncoder.cpp:254-277 | what is kept is some of the list, in the order of the source, pairwise incomparable, and covers every state of the list; never nothing of something |
| AztecEncoder.ShortestKept | xinlake-qrcode/cpp/zxing-core/src/aztec/AZHighLevelEncoder.cpp:254-277 | pruning keeps a state as short as the shortest |
| AztecEncoder.UpdateStateListForPair | xinlake-qrcode/cpp/zxing-core/src/aztec/AZHighLevelEncoder.cpp:279-286 | every kept state stands for the text with the pair, and every continuation of every state is covered |
| AztecEncoder.UpdateStateListForChar | xinlake-qrcode/cpp/zxing-core/src/aztec/AZHighLevelEncoder.cpp:334-341 | every kept state stands for the text with the character, and every continuation of every state is covered |
| AztecEncoder.ToBitArray | xinlake-qrcode/cpp/zxing-core/src/aztec/AZHighLevelEncoder.cpp:219-229 | the emitted bits encode the text, as many as the state counted |
| AztecEncoder.MinState | xinlake-qrcode/cpp/zxing-core/src/aztec/AZHighLevelEncoder.cpp:372 | the first of the states with the fewest bits |
| AztecEncoder.FirstShortestIs | xinlake-qrcode/cpp/zxing-core/src/aztec/AZHighLevelEncoder.cpp:372 | that one is there, none is shorter, and those before it are longer |
| AztecEncoder.Encode | xinlake-qrcode/cpp/zxing-core/src/aztec/AZHighLevelEncoder.cpp:346-375 | for every text up to 32768 bytes the bits are those of the first of the shortest states that the search finds; they decode to the text, but that some 0x7d may come back as 0x7e, and to exactly the text if and only if no token that is written is code 26 of MIXED |
| AztecEncoder.RoundTrip | xinlake-qrcode/cpp/zxing-core/src/aztec/AZHighLevelEncoder.cpp:346-375 | without byte 0x7d decoding gives exactly the text |
| AztecStates.LatchStep | xinlake-qrcode/cpp/zxing-core/src/aztec/AZHighLevelEncoder.cpp:125-138 | in the walk of the tokens over the modes, which finds code 26 of MIXED, a latch token is recognised as the latch it is |
| AztecStates.CodeStep | xinlake-qrcode/cpp/zxing-core/src/aztec/AZHighLevelEncoder.cpp:67-102 | and the code of a character as no latch and no shift |
| AztecLosses.BraceSwaps | xinlake-qrcode/cpp/zxing-core/src/aztec/AZHighLevelEncoder.cpp:86-93 | for the single byte 0x7d the search finds three states, the latch to MIXED is the first of the two shortest, and its tokens have that code |
| AztecLosses.BraceIsLost | xinlake-qrcode/cpp/zxing-core/src/aztec/AZHighLevelEncoder.cpp:346-375 | encoding 0x7d and decoding the bits gives 0x7e |
| AztecStuffing.WordForStands | xinlake-qrcode/cpp/zxing-core/src/aztec/AZEncoder.cpp:130-148 | a stuffed word is neither all zeros nor all ones and stands for the bits it takes in |
| AztecStuffing.Unstuffs | xinlake-qrcode/cpp/zxing-core/src/aztec/AZEncoder.cpp:125-149 | unstuffing the stuffed words gives the bits and the padding ones |
| AztecStuffing.PaddingShort | xinlake-qrcode/cpp/zxing-core/src/aztec/AZEncoder.cpp:130-136 | the padding is shorter than a word |
| AztecMessage.StuffBits | xinlake-qrcode/cpp/zxing-core/src/aztec/AZEncoder.cpp:125-149 | the output is the stuffed words |
| AztecLayers.WordSizes | xinlake-qrcode/cpp/zxing-core/src/aztec/AZEncoder.cpp:24-25 | encoder and decoder agree on the word size of every symbol, and its words are fewer than the elements of their field |
| AztecLayers.LayerArea | xinlake-qrcode/cpp/zxing-core/src/aztec/AZEncoder.cpp:151-154 | the bits of a symbol are the modules of its layers, as squares around a centre of 11 or 14 modules |
| AztecLayers.FirstFitIs | xinlake-qrcode/cpp/zxing-core/src/aztec/AZEncoder.cpp:199-229 | the search over layers takes the first of the 33 symbols in its order that fits, and fails only if none does |
| AztecLayers.TooSmall | xinlake-qrcode/cpp/zxing-core/src/aztec/AZEncoder.cpp:210-212 | no symbol that is passed over without stuffing would have fitted |
| AztecLayers.ChooseSymbol | xinlake-qrcode/cpp/zxing-core/src/aztec/AZEncoder.cpp:172-229 | the symbol that was asked for if it is possible and fits, or the first that fits, with bits stuffed for its word size although they are stuffed again only when the size changes |
| AztecMessage.Unstuff | xinlake-qrcode/cpp/zxing-core/src/aztec/AZDecoder.cpp:155-169 | the unstuffed bits of allowed words, and nothing for an all-zero or all-one word |
| AztecMessage.GenerateCheckWords | xinlake-qrcode/cpp/zxing-core/src/aztec/AZEncoder.cpp:57-67 | leading zeros, the data words and check words that make them a code word; it throws exactly when there is no room for a check word or no data |
| AztecMessage.CorrectBits | xinlake-qrcode/cpp/zxing-core/src/aztec/AZDecoder.cpp:121-170 | for every number of layers: a format error exactly for too few words, a throw exactly for one check word with a nonzero syndrome, and data exactly for a code word and for words with errors that explain their syndromes: those of a code word within reach, else of words that differ from the received ones in at most half as many places as check words, rounded up |
| AztecRoundTrip.PaddingDecodes | xinlake-qrcode/cpp/zxing-core/src/BitArray.h:167-176 | fewer than twelve padding ones decode to nothing, except that the decoder overruns if and only if there are ten or eleven after UPPER, LOWER or MIXED |
| AztecRoundTrip.Deliver | xinlake-qrcode/cpp/zxing-core/src/aztec/AZEncoder.cpp:166-229 | for every text, error correction percentage and request for layers: encode, choose a symbol, stuff, add check words, flip any bits, correct, unstuff and decode. It fails exactly for no text or no symbol; with errors in up to half as many words as check words the outcome is the text if and only if no token is code 26 of MIXED and the padding does not overrun, else the swapped text or the overrun |
| AztecRoundTrip.Send | xinlake-qrcode/cpp/zxing-core/src/aztec/AZEncoder.cpp:166-229 | the sender alone: fails exactly for an empty text or when no symbol fits; otherwise a code word of the symbol that begins with the stuffed words |
| AztecRoundTrip.Receive | xinlake-qrcode/cpp/zxing-core/src/aztec/AZDecoder.cpp:347-355 | the receiver alone: for bits in up to half as many wrong words as check words, what the message decodes to, or the overrun of its padding |
| AztecLosses.TenLettersOverrun | xinlake-qrcode/cpp/zxing-core/src/BitArray.h:167-176 | ten letters A are encoded as fifty bits that decode to them, in words of twelve bits they get ten padding ones, and with those the decoder overruns |
| AztecLosses.TenLettersAreLost | xinlake-qrcode/cpp/zxing-core/src/aztec/AZEncoder.cpp:166-229 | so in every symbol of 23 to 32 layers ten letters are sent and never read, without a single wrong bit |
| BitOutput.ZlibBitrev | xinlake-qrcode/cpp/stb/stb_image_write.h:849-857 | reversed codes are written in the order of Huffman codes |
| BitOutput.BitWriter.Flush | xinlake-qrcode/cpp/stb/stb_image_write.h:839-847 | whole bytes leave the buffer, and the bits emitted so far stay the same |
| BitOutput.BitWriter.Add | xinlake-qrcode/cpp/stb/stb_image_write.h:880-881 | the bits emitted grow by the lowest bits of the code |
| BitReversal.ReversedBit | xinlake-qrcode/cpp/stb/stb_image.h:4105-4112 | four masked swaps reverse sixteen bits |
| BitReversal.ReverseBits | xinlake-qrcode/cpp/stb/stb_image.h:4114-4120 | reversal turns the order of the stream into the order of codes and back |
| CanonicalCode.MatchInterval | xinlake-qrcode/cpp/stb/stb_image.h:4137-4147 | the sixteen-bit windows that begin with a code of length s lie from maxcode[s-1] up to maxcode[s] |
| CanonicalCode.MatchExists | xinlake-qrcode/cpp/stb/stb_image.h:4137-4147 | and every window in that interval begins with exactly the code that its rank gives |
| CanonicalCode.NoMatch | xinlake-qrcode/cpp/stb/stb_image.h:4221-4238 | a window past all intervals begins with no code |
| CanonicalCode.PrefixFree | xinlake-qrcode/cpp/stb/stb_image.h:4122-4167 | no code of an accepted list of lengths is a prefix of another |
| CanonicalCode.SymbolIs | xinlake-qrcode/cpp/stb/stb_image.h:4240-4257 | the symbol whose code begins the stream is unique |
| HuffmanTables.ZHuffman.Build | xinlake-qrcode/cpp/stb/stb_image.h:4122-4167 | accepts exactly the lists of lengths whose codes do not run out, and leaves the first codes, upper bounds, symbols and fast entries of the canonical code |
| HuffmanTables.ZHuffman.FillFast | xinlake-qrcode/cpp/stb/stb_image.h:4156-4162 | exactly the nine-bit patterns that start with the reversed code get the entry |
| InflateBits.ZBuf.FillBits | xinlake-qrcode/cpp/stb/stb_image.h:4199-4209 | the bits held and the bytes ahead become those of the reading specification, with zeros made up at the end; the check that treats the buffer as ended never fires |
| InflateInput.FillKeeps | xinlake-qrcode/cpp/stb/stb_image.h:4199-4209 | while 32 bits are left, filling changes nothing about what is still to be read |
| InflateInput.ReceiveKeeps | xinlake-qrcode/cpp/stb/stb_image.h:4211-4219 | and reading a number is reading it off the stream |
| InflateInput.SymbolKeeps | xinlake-qrcode/cpp/stb/stb_image.h:4240-4257 | and reading a symbol finds the unique code that comes next |
| InflateBits.ZBuf.Zreceive | xinlake-qrcode/cpp/stb/stb_image.h:4211-4219 | the next n bits as a number, for every input: zeros past the end, and exactly what is then left |
| InflateBits.ZBuf.DecodeSlowpath | xinlake-qrcode/cpp/stb/stb_image.h:4221-4238 | the search over upper bounds decodes the symbol whose code comes next, or fails if there is none |
| InflateBits.ZBuf.Decode | xinlake-qrcode/cpp/stb/stb_image.h:4240-4257 | fast table and slow search together decode the unique symbol whose code comes next, for every input; they fail exactly if there is none or if fewer than sixteen bits are held with no byte ahead |
| InflateBits.ZBuf.Zexpand | xinlake-qrcode/cpp/stb/stb_image.h:4259-4279 | it succeeds if and only if the buffer may grow and doubling reaches the size within unsigned int; then there is room, otherwise the buffer is as before |
| InflateSpec.BlockThen | xinlake-qrcode/cpp/stb/stb_image.h:4295-4336 | a block of encoded tokens followed by anything inflates to the expanded tokens |
| Inflate.NextItem | xinlake-qrcode/cpp/stb/stb_image.h:4298-4321 | one literal, match or end of block for every input, with made-up zeros and every error, leaving exactly the rest |
| Inflate.CopyOut | xinlake-qrcode/cpp/stb/stb_image.h:4327-4333 | both copy loops produce the match, also when it overlaps itself |
| Inflate.ParseHuffmanBlock | xinlake-qrcode/cpp/stb/stb_image.h:4295-4336 | for every input and output buffer: the exact output and rest, or a failure exactly for a bad code, a match before the start, data that have ended or output beyond the buffer |
| InflateZlib.ParseUncompressedBlock | xinlake-qrcode/cpp/stb/stb_image.h:4388-4415 | for every input: zeros made up for a short header, then a failure exactly for a wrong complement, missing bytes or output beyond the buffer |
| InflateZlib.ComputeHuffmanCodes | xinlake-qrcode/cpp/stb/stb_image.h:4338-4386 | for every input the run-length coded lengths give the two tables, or it fails exactly as specified; DynamicHeader says what is written so |
| DynamicHeader.OrderIs | xinlake-qrcode/cpp/stb/stb_image.h:4340 | the sizes come in the order 16, 17, 18, 0 and then from 8 outwards |
| DynamicHeader.SizesThen | xinlake-qrcode/cpp/stb/stb_image.h:4351-4355 | sizes laid out in that order, three bits each, are read back |
| DynamicHeader.RunsThen | xinlake-qrcode/cpp/stb/stb_image.h:4358-4381 | single lengths, repetitions and runs of zeros under symbols 16, 17 and 18 with their extra bits are read back as the lengths they stand for |
| DynamicHeader.HeaderThen | xinlake-qrcode/cpp/stb/stb_image.h:4346-4385 | a whole header, with the counts less 257, 1 and 4 in front, is read back as its two lists of code lengths, in front of any further bits |
| DynamicHeader.HeaderInflates | xinlake-qrcode/cpp/stb/stb_image.h:4338-4386 | and so by the inflater |
| DynamicBlock.CodedBlockThen | xinlake-qrcode/cpp/stb/stb_image.h:4295-4336 | a block in any two accepted codes inflates to the bytes and matches that it was written for |
| DynamicBlock.DynamicThen | xinlake-qrcode/cpp/stb/stb_image.h:4467-4485 | a final block of type 2 with its header is a stream that stands for them |
| DynamicBlock.DynamicInflates | xinlake-qrcode/cpp/stb/stb_image.h:4460-4486 | and the inflater computes exactly that, or fails exactly for want of room |
| InflateZlib.ParseZlibHeader | xinlake-qrcode/cpp/stb/stb_image.h:4417-4429 | accepts exactly the headers with the right checksum, method and no dictionary |
| InflateZlib.GoodHeaderIs | xinlake-qrcode/cpp/stb/stb_image.h:4417-4429 | method 8, no dictionary, and a multiple of 31 |
| InflateZlib.ParseZlib | xinlake-qrcode/cpp/stb/stb_image.h:4460-4486 | for every input, header flag and output buffer, fixed or growing: the exact output and rest, or failure; a fixed buffer is never overrun and one that is too small fails |
| InflateExact.OneLess | xinlake-qrcode/cpp/stb/stb_image.h:4467-4485 | every block that is accepted uses up a byte or bits that are not all zero, so the made-up zeros never make an endless stream |
| InflateAgrees.BlockAgrees | xinlake-qrcode/cpp/stb/stb_image.h:4295-4336 | where the format settles a block, the inflater computes that meaning as far as the output has room |
| InflateAgrees.StreamAgrees | xinlake-qrcode/cpp/stb/stb_image.h:4460-4486 | and so for whole streams of stored, fixed and dynamic blocks |
| InflateZlib.ZlibAgrees | xinlake-qrcode/cpp/stb/stb_image.h:4460-4486 | and with the zlib header: data that stand for some bytes in the format inflate to them, corrupt data are refused, and only streams that end within forty bits of the end of the data are not settled |
| DeflateFormat.CopyMatchIs | xinlake-qrcode/cpp/stb/stb_image_write.h:956-967 | a match found in the data reproduces the data |
| DeflateFormat.LengthTable | xinlake-qrcode/cpp/stb/stb_image.h:4281-4286 | bases and extra bits of the length symbols by rule: four symbols for each number of bits, 258 on its own |
| DeflateFormat.DistanceTable | xinlake-qrcode/cpp/stb/stb_image.h:4288-4292 | bases and extra bits of the distance symbols by rule: two symbols for each number of bits |
| DeflateFormat.FixedCode | xinlake-qrcode/cpp/stb/stb_image_write.h:884-888 | the codes the compressor writes out are the canonical codes of the fixed lengths |
| ZlibCompress.ZlibCountm | xinlake-qrcode/cpp/stb/stb_image_write.h:859-865 | how many bytes agree, up to the limit and 258 |
| ZlibCompress.FindMatch | xinlake-qrcode/cpp/stb/stb_image_write.h:924-933 | a longest match of the chain inside the window, the latest of them |
| ZlibCompress.LongerMatchNext | xinlake-qrcode/cpp/stb/stb_image_write.h:943-954 | there is a longer match at the next byte |
| ZlibCompress.Remember | xinlake-qrcode/cpp/stb/stb_image_write.h:935-939 | the chain keeps positions before the next byte, at most twice the quality |
| ZlibCompress.Huff | xinlake-qrcode/cpp/stb/stb_image_write.h:884-889 | a symbol is written as its fixed code |
| ZlibCompress.LengthSymbol | xinlake-qrcode/cpp/stb/stb_image_write.h:960 | the search finds the length symbol of the format |
| ZlibCompress.DistanceSymbol | xinlake-qrcode/cpp/stb/stb_image_write.h:963 | the search finds the distance symbol of the format |
| ZlibCompress.WriteMatch | xinlake-qrcode/cpp/stb/stb_image_write.h:957-967 | a match is written as its token |
| ZlibCompress.WriteBlock | xinlake-qrcode/cpp/stb/stb_image_write.h:921-976 | whatever chains and lazy matching pick, the block is valid tokens that expand to the data |
| Adler.NoWrap | xinlake-qrcode/cpp/stb/stb_image_write.h:1005-1009 | no 32-bit sum of a chunk wraps around |
| Adler.ComputeAdler | xinlake-qrcode/cpp/stb/stb_image_write.h:1001-1016 | the four bytes are the Adler-32 checksum of the data in closed form, most significant first |
| Adler.AdlerClosed | xinlake-qrcode/cpp/stb/stb_image_write.h:1005-1009 | the sums are one plus the sum of the bytes, and the number of bytes plus the sum of the bytes weighted by their distance from the end, modulo 65521 |
| Adler.TrailerIs | xinlake-qrcode/cpp/stb/stb_image_write.h:1012-1015 | the trailer is the second sum times 65536 plus the first |
| ZlibRoundTrip.StoredThen | xinlake-qrcode/cpp/stb/stb_image_write.h:985-998 | stored blocks inflate to the data, whatever follows |
| ZlibRoundTrip.WriteStored | xinlake-qrcode/cpp/stb/stb_image_write.h:985-998 | the fallback writes the stored blocks of the data and never past the end of the buffer, which it does not grow |
| ZlibRoundTrip.StoredSize | xinlake-qrcode/cpp/stb/stb_image_write.h:985-986 | the size that the comparison computes is the size of the stored blocks, so the fallback always has room |
| ZlibRoundTrip.StbiZlibCompress | xinlake-qrcode/cpp/stb/stb_image_write.h:895-1022 | header, a stream that stands for the data, checksum, for every nonempty input; for no data header and checksum alone |
| ZlibRoundTrip.EmptyRejected | xinlake-qrcode/cpp/stb/stb_image.h:4399-4410 | the inflater rejects that output for every output buffer: past the end it makes up a length of 0 with complement 1 |
| ZlibRoundTrip.RoundTrip | xinlake-qrcode/cpp/stb/stb_image_write.h:895-1022 | compressing and inflating into an output buffer of any size, fixed or growing, succeeds if and only if there are data and the buffer can take them, and then gives the data back, for every quality |
| PngFilter.UnfilterFilter | xinlake-qrcode/cpp/stb/stb_image.h:4729-4745 | every filter is undone through byte arithmetic, with or without a row above |
| PngFilter.PaethNearest | xinlake-qrcode/cpp/stb/stb_image.h:4636-4646 | of left, above and above left the nearest to their Paeth estimate, the first of them where two are as near |
| PngFilter.FilterNumbers | xinlake-qrcode/cpp/stb/stb_image.h:4715-4745 | filters 0 to 4 are none, left, above, their average rounded down, and that choice, with zeros outside the image |
| PngFilter.FilteredByte | xinlake-qrcode/cpp/stb/stb_image_write.h:1092-1126 | a filtered byte is the byte less its prediction modulo 256 |
| PngFilter.LineTypes | xinlake-qrcode/cpp/stb/stb_image_write.h:1092-1126 | the seven writer types are the five filters, given nothing above the first row |
| PngFilter.ReaderTypes | xinlake-qrcode/cpp/stb/stb_image.h:4627-4634 | the seven reader types undo the five filters, given nothing above the first row |
| PngImage.EncodePngLine | xinlake-qrcode/cpp/stb/stb_image_write.h:1092-1126 | a row is filtered against the row written before it, in either order of the rows |
| PngImage.ChooseFilter | xinlake-qrcode/cpp/stb/stb_image_write.h:1151-1170 | the first filter of the smallest estimate |
| PngImage.FilterImage | xinlake-qrcode/cpp/stb/stb_image_write.h:1144-1174 | the forced filter for every row, or else the one that looks best, and the filtered rows behind it |
| PngImage.CreatePngImageRaw | xinlake-qrcode/cpp/stb/stb_image.h:4650-4745 | fails exactly for too few data or a filter above four; otherwise the unfiltered rows |
| PngImage.UnfilterImage | xinlake-qrcode/cpp/stb/stb_image.h:4676-4745 | any filtered rows, with anything behind them, unfilter to the rows |
| PngRoundTrip.RoundTrip | xinlake-qrcode/cpp/stb/stb_image_write.h:1128-1178 | filtered, compressed, inflated and unfiltered image data are the rows that were written, for every component count, filter choice, compression level and row order |
| TgaRle.PacketLength | xinlake-qrcode/cpp/stb/stb_image_write.h:564-591 | packets of 1 to 128 pixels that end where the heuristic says: runs at the first other pixel, raw packets before a pixel that equals the last but one |
| TgaRle.PacketHeader | xinlake-qrcode/cpp/stb/stb_image_write.h:593-601 | bit 7 of a header says run, the others one less than the number of pixels |
| TgaRle.FileOrderIs | xinlake-qrcode/cpp/stb/stb_image.h:6049-6060 | a pixel in the file is blue, green, red and alpha |
| TgaRle.WriteRow | xinlake-qrcode/cpp/stb/stb_image_write.h:560-604 | the packets of a row stand for the row |
| TgaRle.WriteRows | xinlake-qrcode/cpp/stb/stb_image_write.h:550-605 | no packet crosses a row; rows go out bottom first unless flipped |
| TgaRle.PacketLoads | xinlake-qrcode/cpp/stb/stb_image.h:5972-6023 | the reader loads a packet as what it stands for |
| TgaRle.LoadPixels | xinlake-qrcode/cpp/stb/stb_image.h:5968-6024 | the count-and-repeat loop computes the loading function of the bytes |
| TgaRle.RoundTrip | xinlake-qrcode/cpp/stb/stb_image_write.h:559-605 | every pixel of every row comes back, whatever packets the writer chose |
| Utf8.OneScalar | xinlake-qrcode/cpp/zxing-core/src/Utf.cpp:29-70 | decoding the bytes of a scalar value yields it and returns to the accepting state |
| Utf8.LongestPrefix | xinlake-qrcode/cpp/zxing-core/src/Utf.cpp:29-116 | any bytes decode to the scalar values of their longest UTF-8 prefix and nothing more |
| Utf8.AcceptsExactlyUtf8 | xinlake-qrcode/cpp/zxing-core/src/Utf.cpp:36-63 | the automaton accepts exactly the encodings of sequences of scalar values |
| Utf8.WrittenBack | xinlake-qrcode/cpp/zxing-core/src/Utf.cpp:98-202 | decoding bytes and encoding the result gives the bytes back if and only if they are UTF-8 |
| Utf8.AppendFromUtf8 | xinlake-qrcode/cpp/zxing-core/src/Utf.cpp:98-116 | the loop over the automaton appends the decoded wide characters, in either width |
| Utf8.EncodesScalar | xinlake-qrcode/cpp/zxing-core/src/Utf.cpp:159-182 | the bytes written for a scalar value are those of section 3 of RFC 3629 |
| Utf8.SurrogatesCarry | xinlake-qrcode/cpp/zxing-core/src/Utf.cpp:67-75 | a surrogate pair is recognised and carries its scalar value |
| Utf8.AppendToUtf8 | xinlake-qrcode/cpp/zxing-core/src/Utf.cpp:184-202 | the loop over wide characters and pairs appends the encoded bytes |
| Utf8.Utf8CountBytes | xinlake-qrcode/cpp/zxing-core/src/Utf.cpp:134-156 | the count is the exact length of the output |
| Utf8.RoundTrip | xinlake-qrcode/cpp/zxing-core/src/Utf.cpp:98-202 | every sequence of scalar values survives writing and reading, in both widths of wide characters |

## Left out

- Flutter and Windows runners, plugin registration, file dialogs and process control: calls into the system.
- Symbol detection, binarizers, sampling, symbol layout, the mode message and the selection of sizes of symbols other than Aztec: geometry and tables.
- JPEG, HDR, GIF, PSD, BMP and SIMD code, text decoders, GTIN and GS1 tables.
- Memory exhaustion; vectors and stretchy buffers grow without limit. The inflater's own limit of unsigned int on its output is modelled.
- GenericGF.Log: `log` and `inverse` of 0 throw in the source; here the argument is nonzero by precondition, as every caller ensures. `exp` beyond the table is a precondition as well.
- Sums of signed integers are unbounded: `data_len + 32766` in `stbi_zlib_compress` overflows for data within 32766 bytes of the largest int, `bits.size() * minECCPercent` in the Aztec encoder for enormous percentages, both undefined in the source.
- GenericGF.MakeGF: table entries are unbounded, while the source keeps them as shorts, which fit for every size up to 32768 and so for all eight instances; models the table of 2 * size entries that ZXConfig.h selects, not the alternative with a reduced index.
- GenericGFPoly.GFPoly.Divide: the divisor, dividend and quotient are three objects, as at both call sites.
- ErrorCorrection.ReedSolomonDecode: what is left after success, and the restoring of code words, are stated for messages shorter than the field and generator bases 0 and 1, the only ones in use; after a failure at a position before the message some corrections have been made, of which only the number is bounded.
- BigInteger.Divide: operands are normalised. Excluded are three aliasings past the early return that break the helpers it calls: an output that is the divisor when the signs differ, whose value is needed for the remainder, and a remainder that is the dividend when they agree, which DivideWithRemainder does not allow.
- BigQuotient.DivideWithRemainder: the remainder is not the dividend object, because the extra block pushed on it would change the length that is read later.
- BigInteger.Subtract: zero minus zero leaves the negative flag set on an empty magnitude; the contract speaks of the number, which is zero.
- `BigInteger::toInt`, which returns the top block only, and `operator` wrappers.
- AztecEncoder.Encode: the text has at most 32768 bytes, since tokens keep positions as shorts; that pruning never loses the shortest code of all is not claimed.
- AztecDecoder.DecodeContent: results are characters, ECI switches and FLG errors; what the caller then makes of ECI, GS1 and structured append is not modelled.
- AztecMessage.ToInts: the bits fill whole words, as `ToInt` asserts of every word it reads (BitArray.h:127) and as both call sites ensure.
- AztecLayers.ChooseSymbol: the percentage for error correction is not negative.
- AztecRoundTrip.Deliver: the bits of a symbol and its parameters reach the reader directly instead of through the picture and the mode message.
- InflateZlib.ZlibAgrees: the meaning in the format is left open where fewer than 32 bits follow what is read (40 in front of a block header); what the inflater does there is `InflateExact`, and a zlib trailer keeps a compressor's output away from there.
- InflateZlib.ParseZlib: the inflater does not check the trailing checksum, so neither does the specification.
- ZlibCompress.FindMatch: the value of the hash only selects the chain, and matches are compared byte by byte.
- PngImage.CreatePngImageRaw: eight bits a sample and as many channels out as in; other depths, the added alpha channel, interlacing, chunks and checksums of chunks are not modelled.
- PngImage.EncodePngLine: the two loops over the first pixel and the rest are one loop with a case split; the estimate of a filter is an unbounded sum.
- TgaRle.LoadPixels: unpaletted pixels of whole bytes; the header, palettes, sixteen-bit colour and the reader's reversal of rows are not modelled.
- Utf8.AppendToUtf8: wide characters are nonnegative; `EscapeNonGraphical` and the capacity estimate `Utf8CountCodePoints` are not modelled.
- Utf8.Utf8CountBytes: wide characters of two bytes are below 0x10000, which is what their type says.
