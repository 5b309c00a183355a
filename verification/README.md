# Verified models of MicroQuickJS internals

This project models five parts of the MicroQuickJS engine in Dafny and proves what they are for.

**Numbers as text** (`dtoa.c`). Limb arrays are arrays changed in place, with `Limbs.Val` giving the number they
stand for; `Bignum.Mpb` is the big number with its length. On top of them are division by a precomputed inverse
(`InverseDivision`), scaling by powers of the radix with a sticky bit (`RadixPower`, `Scaling`), the search for the
shortest digits (`Shortest`, `FreeFormat`), the text and its grammar (`DecimalDigits`, `DecimalText`, `Dtoa`,
`DtoaFormats`, and `NumberToString` against ECMA-262), the literals of ECMA-262 (`DecimalLiterals`) and the reader
(`Reader`). Doubles are bit patterns; `Binary64.Mag` is a pattern's value in units of 2^-1074, and
`Binary64.RoundedTo` says what IEEE 754-2008 section 4.3 asks of a rounded one. `Dtoa.PrintThenRead` closes the circle:
every double printed is read back as the same bits, through the code of both routines.

**Soft floating point** (`softfp_template.h` with 64-bit words): `SoftFloat`, `SoftAdd`, `SoftMul`, `SoftDiv`,
`SoftSqrt`, `SoftFmod`, in all five rounding modes. `Tracking.Tracks` says that an integer stands for a real number as
far as comparisons at some grain go; it is what sticky shifting preserves.

**Regular expressions** (`ae/lre_exec.ae`, `ae/regexp_exec.ae` and the compiler in `ae/re/module.ae`,
`ae/parse_re_alternative.ae`, `ae/parse_re_disjunction.ae`, `ae/js_parse_regexp.ae`). `RegexpSource` has patterns as
written and gives them the matches section 15.10.2 of ECMA-262 asks for, and the compiler's plan for them: where it checks
for progress, where it resets captures, which loops count. `RegexpScan` is the scan of bytecode these decisions rest on,
`RegexpEmit` emits the plan's code by appending, inserting and patching bytes, and `RegexpRegisters` is the pass that
numbers registers. `RegexpCode` is a machine whose frames hold snapshots of all captures; `RegexpVM.Machine` is the
machine of the engine, with one captures array, one stack of mixed three-word frames and undo pairs, and
`RegexpVM.Machine.Exec` keeps the two in step. `RegexpPattern` has the matches and the code of plans, and
`RegexpMeaning.Correct` shows that the code finds those matches in order. `RegexpAgreement` proves that the plan means
what the pattern does, `RegexpAnswer` says exactly what differs in the end, and `RegexpEngine.CompileAndFind` is the
whole way from a written pattern to its captures; it says how many steps and how much stack are enough for an answer.
Its subjects are bytes; `RegexpText` and `RegexpCharacters` say the same of the characters they encode.
`RegexpFolding` says when folding the case of ASCII only makes no difference, and `RegexpRounds` has a loop that runs
out of rounds. `Ranges` has the interval tables of character classes.

**Property tables** (`ae/create_property.ae`, `ae/delete_property.ae`, `ae/find_own_prop_inlined.ae`,
`ae/props/module.ae`): one array per object with bucket heads, chained records and the start of the free records hidden
in the last one (`PropertyLayout`), and the operations on it (`PropertyTable`), which act as on a list of distinct keys
in order of insertion.

**Compiler passes and explicit stacks**: the stack-depth verifier (`StackVerifier`), the rewrite of outer variable
references (`ExtVars`; `ExtVarsMeaning` has what it keeps), and the JSON parser and printer with their work stacks (`Json`, `JsonParser`, `JsonPrinter`).
`JsonNumbers` and `JsonStrings` are how numbers and strings are printed and read, `StringLiterals` which literals of
strings there are, and `JsonMerge` what becomes of equal keys. `RfcTokens` and `JsonGrammar` have the
grammar of RFC 8259, its numbers and strings included, and say exactly which texts the parser reads as it does;
`JsonDocument` proves that what JSON.stringify prints is a document, and `JsonTokens.EngineReadsItself` says what
`JSON.parse(JSON.stringify(v))` is, for every value.

## Where the code does not do what its comments or a standard say

- The comment in `sqrtrem_u` that the start value is not below the root is true only for a zero low word
  (`SoftSqrt.StartTooLow`); the one caller passes zero.
- The free format can miss a shorter decimal for a power of two whose lower neighbour is nearer than the upper one
  (`FreeFormat.ShorterMissed`, 2^-24); `FreeFormat.FreeDigits` says exactly when.
- `js_atod` gives up where an exponent indicator without digits follows a literal: `1e` is read as nothing, so
  `parseFloat` gives NaN (`ae/builtins_number.ae:69-81`) where section 15.1.2.3 of ECMA-262 asks for 1
  (`DecimalLiterals.DanglingExample`); everywhere else it reads the longest
  literal there is (`DecimalLiterals.LongestLiteral`).
- The double nearest to 10^-6 is less than 10^-6, and is printed as `0.000001`: what decides is its decimal
  (`NumberToString.MicroPlain`, `NumberToString.ExponentExact`).
- The exponent sum of `js_atod` is a 32-bit signed addition that can overflow. The model wraps it, as two's complement
  machines do; then the result is wrong exactly when the leading exponent does not fit (`Reader.WrappedExponent`,
  `Reader.Finish`).
- The JSON parser looks only at the first letter of `true`, `false` and `null` (`Json.LooseLiteral`,
  `Json.LiteralExact`), and takes vertical tabs and form feeds for white space (`ae/jshelpers.ae:34-47`), which section 2
  of RFC 8259 does not. Its numbers and strings are those of JavaScript: it takes `01`, `1.` and `-Infinity`
  (`JsonGrammar.LooseNumbers`) where section 6 of RFC 8259 does not, and escapes JSON does not know, raw control
  characters and a backslash before a line end (`JsonGrammar.LooseStrings`) where section 7 does not.
  `JsonGrammar.DocumentExact` says exactly which texts it reads as RFC 8259 does, tokens included. As literals of
  ECMA-262, its strings may hold U+2028 and U+2029 as they are, go on after a backslash only with a line feed, and take
  a backslash before the digits 1 to 9 for nothing (`StringLiterals.LiteralsExact`).
- `mp_div1norm` reads `taba` after `mp_shl` wrote `tabr`, so it is right only in place when the shift is not zero;
  every call is in place, and so is the model.
- The deletion of a property decides about compaction with the count from before the deletion.
- `save_reset` writes 0 into the captures it resets, while a match array starts with -1 and only -1 is taken for undefined
  (`ae/lre_exec.ae:405-417`, `ae/regexp_exec.ae:77`, `ae/regexp_exec.ae:156`). A capture that took no part can so come out
  as the empty string: `/(z)?b/.exec("b")` (`RegexpAnswer.ResetShows`). Captures are right exactly when the match found
  leaves none reset (`RegexpAnswer.CapturesRight`), as when the code resets nothing (`RegexpAnswer.NothingReset`).
- A quantifier without a maximum that is compiled to a counted loop stops after 2^30 - 1 rounds
  (`RegexpRounds.RoundsRunOut`). `RegexpAgreement.Bounded` leaves out only patterns with such a loop, on subjects with
  nearly as many bytes; other loops are not limited.
- With the flag `i`, back references compare ASCII letters without their case (`ae/jsutil2.ae:116-123`) where section
  15.10.2.8 of ECMA-262 takes letters of all scripts: `/(.)\1/i` misses U+00C9 U+00E9 (`RegexpFolding.AccentMissed`,
  `RegexpFolding.PairMissed`). The model of what a pattern means does as the code; `RegexpFolding.FoldingExact` says for
  which subjects that is the same.
- The characters of patterns and subjects are code points, not the 16-bit units of section 15.10.2.
- The `save_reset` instruction of regular expressions first checks for half of the stack words it may push; each
  capture it saves is checked again.

## Model

| member | source | states |
|---|---|---|
| SoftFloat.RoundPackCorrect | softfp_template.h:117-190 | a sticky mantissa with nine guard bits and its exponent become the correctly rounded double in each of the five modes, subnormal results, the carry into the exponent and overflow included |
| SoftFloat.NormalizeCorrect | softfp_template.h:193-202 | the same for a mantissa of any position, as long as bits were lost only below it |
| SoftFloat.NormalizeZero | softfp_template.h:193-202 | a zero mantissa gives zero whatever clz of zero returns |
| SoftFloat.RshiftRndTracks | softfp_template.h:94-106 | shifting right and keeping a sticky low bit stands for the exact shifted value at every coarser grain |
| Rounding.TrackedRoundsAlike | softfp_template.h:94-106 | a jammed mantissa rounds as the exact value does when at least two bits are dropped: why sticky shifting is sound |
| Tracking.JamTracks | softfp_template.h:94-106 | a quotient jammed with its remainder tracks the exact quotient |
| SoftAdd.AddCorrect | softfp_template.h:235-294 | addition of finite doubles is correctly rounded in all five modes, and an exact zero sum has the sign IEEE 754 section 6.3 asks for |
| SoftAdd.SubCorrect | softfp_template.h:296-299 | subtraction likewise |
| SoftAdd.AddSpecial | softfp_template.h:235-294 | NaN and infinite operands: quiet NaN for NaN and for opposite infinities, the infinity otherwise |
| SoftMul.MulUExact | softfp_template.h:315-338 | four half-word products and their carries give the exact double-word product |
| SoftMul.MulCorrect | softfp_template.h:344-397 | multiplication of finite doubles is correctly rounded in all five modes |
| SoftMul.MulSpecial | softfp_template.h:344-397 | NaN, infinities and infinity times zero |
| SoftDiv.ShiftSubtractExact | softfp_template.h:412-430 | one step of the shift-subtract division keeps its invariant though the shifted-out bit overflows the word |
| SoftDiv.DivRemU | softfp_template.h:412-430 | the loop returns quotient and remainder of a double word by a word |
| SoftDiv.DivSf | softfp_template.h:434-507 | division is correctly rounded in all five modes for finite operands, with the special results for zero, infinity and NaN |
| SoftSqrt.SqrtRemU | softfp_template.h:543-570 | Newton iteration ends at the integer square root, and says whether it is exact, exactly when the start value covers the root; the low word being zero guarantees that; zero has root zero |
| SoftSqrt.StartTooLow | softfp_template.h:543-570 | an argument with a nonzero low word whose start value is too low, so that the loop stops at once with a wrong root |
| SoftSqrt.StartHighForZeroLow | softfp_template.h:543-570 | with a zero low word the start value is never too low |
| SoftSqrt.SqrtSf | softfp_template.h:574-624 | square root is correctly rounded in all five modes, shown by squares: all numbers between two bounds whose squares enclose the operand round to the result; negative operands give NaN and zeros keep their sign |
| SoftSqrt.RoundedRootIs | softfp_template.h:574-624 | a result with such bounds is the rounding of the real root, whatever real number squares to the operand |
| SoftFmod.FmodExact | softfp_template.h:882-933 | the remainder of the aligned mantissas is representable, so nothing is rounded |
| SoftFmod.FmodSf | softfp_template.h:882-933 | the result is exactly a - b * trunc(a / b) with the sign of a |
| Binary64.SignificandRounds | softfp_template.h:117-190 | rounding the significand to an integer rounds the number to a bit pattern, also across a binade |
| Binary64.ClampRounded | softfp_template.h:117-190 | rounding without a bound on the exponent, then clamping, is rounding with overflow |
| Binary64.RoundedUnique | softfp_template.h:117-190 | at most one pattern is correctly rounded: the specification determines the result |
| Binary64.NearestIsClosest | softfp_template.h:117-190 | no finite double is nearer than a finite result of either nearest mode |
| Binary64.ExactRounds | softfp_template.h:117-190 | a representable value rounds to itself |
| Limbs.MulOne | dtoa.c:90-102 | in place, value * b + l, with the carry out |
| Limbs.AddUi | dtoa.c:73-87 | in place, value + b, with the carry out |
| Limbs.DivOne | dtoa.c:135-147 | in place, quotient by one limb, with the remainder |
| Limbs.ShiftLeft | dtoa.c:168-182 | in place, value shifted left with bits shifted in and out |
| Limbs.ShiftRight | dtoa.c:150-166 | in place, value shifted right with bits shifted in and out |
| InverseDivision.UDiv1NormExact | dtoa.c:104-133 | for d with its top bit set and a1 < d, the trial quotient by the precomputed inverse, corrected at most twice in wrapping arithmetic, is the exact quotient, and the remainder too |
| InverseDivision.DivOneNorm | dtoa.c:184-197 | in place, value + r * B^n = quotient * divisor + remainder, for a divisor shifted up by any amount including zero |
| Bignum.Mpb.Renorm | dtoa.c:212-216 | drops leading zero limbs, keeping the value |
| Bignum.Mpb.SetU64 | dtoa.c:417-430 | a 64-bit value in one or two limbs |
| Bignum.Mpb.GetU64 | dtoa.c:432-443 | the value modulo 2^64 |
| Bignum.Mpb.FloorLog2 | dtoa.c:445-454 | the position of the leading bit, or -1 for zero |
| Bignum.Mpb.Cmp | dtoa.c:398-415 | compares the values |
| Bignum.Mpb.GetBit | dtoa.c:298-308 | bit k of the value, zero beyond its end |
| Bignum.Mpb.ShrRound | dtoa.c:311-396 | value * 2^-shift rounded to nearest even, nearest away or toward zero; exact when shifting left, which leaves leading zero limbs only to a zero |
| LimbBits.RoundUpCorrect | dtoa.c:311-396 | the rounding bit computed from the bits below the cut is what the mode asks for |
| RadixPower.Pow5Table | dtoa.c:228-238 | the table entries are the powers of five |
| RadixPower.Pow5InverseTable | dtoa.c:228-238 | the table of inverses holds what udiv1norm_init would compute for each shifted power of five |
| RadixPower.PowUi | dtoa.c:240-266 | the power, from the table or by squaring |
| RadixPower.PowUiInv | dtoa.c:269-295 | the shifted power and its inverse |
| RadixPower.DigitsFit | dtoa.c:679-685 | for every odd radix, the digits handled per pass make a power that fits a limb |
| RadixPower.MulPow | dtoa.c:870-933 | a * radix^f: exact when multiplying, a quotient with every lost remainder in its lowest bit when dividing, and the limbs that takes |
| Scaling.ScaledTracks | dtoa.c:870-933 | the sticky quotient of chained divisions by the inverse stands for the exact value at every even grain |
| Scaling.MulPowRound | dtoa.c:936-944 | the exact integer rounding of m * 2^e * radix^f for every m, e, f, odd part and power of two of the radix, and rounding mode |
| Scaling.RoundToD | dtoa.c:947-980 | rounds to 53 bits, fewer for subnormal results, giving the correctly rounded pattern of the exact value |
| Scaling.MulPowRoundToD | dtoa.c:983-990 | a * radix^f correctly rounded to a double, whatever its size |
| Log10.MulLog2Radix10Exact | dtoa.c:472-486 | the 24-bit multiplication gives floor(a * log10(2)) for every -2048 <= a <= 2047 |
| FreeFormat.FloatOfPattern | dtoa.c:1100-1142 | every finite nonzero pattern has one normalized significand and exponent, and they pack back to it |
| FreeFormat.AttemptBracket | dtoa.c:1157-1159 | the guessed decimal exponent puts the significand in [10^(P-1), 2 * 10^P) |
| FreeFormat.TooLong | dtoa.c:1177-1184 | the exponent is raised at most once |
| FreeFormat.Attempt | dtoa.c:1173-1184 | x to P digits, ties to even: exactly P digits, at the first exponent that leaves no more |
| FreeFormat.StripZeros | dtoa.c:1185-1189 | removing final zeros keeps the value, leaves a nonzero last digit, and is what rounding to each of the shorter lengths gives |
| FreeFormat.CandidateNearest | dtoa.c:1173-1184 | no decimal with at most P digits and any exponent is nearer to x than the attempt |
| FreeFormat.MaxPrecisionReads | dtoa.c:1162-1192 | seventeen digits always read back: why the first pass may be accepted untested |
| FreeFormat.ReadBackDecides | dtoa.c:1193-1199 | comparing the significand and exponent read back decides whether the decimal reads as x |
| FreeFormat.FailureDecides | dtoa.c:1193-1210 | after the nearest P-digit decimal failed, nothing with at most P digits reads as x if and only if x is not a power of two at the foot of its binade or the next decimal above fails too |
| FreeFormat.FreeDigits | dtoa.c:1161-1218 | the digits found read back to x, are x rounded to their length and have no final zero; rounding to any length from theirs to 17 reads back and to one digit less does not; no decimal with fewer digits reads back if and only if the gaps around x are equal or the decimal one above x rounded to one digit less does not read back either |
| FreeFormat.SomeFound | dtoa.c:1161-1218 | every double has digits the search may end with: the last to read back from seventeen down, without final zeros |
| FreeFormat.FoundOnce | dtoa.c:1161-1218 | digits, their number and the exponent are settled by the double: there is one result the search may end with |
| FreeFormat.ShorterMissed | dtoa.c:1161-1218 | 2^-24: to sixteen digits it is a tie that goes down to even, out of the reading interval, so the search ends at seventeen digits though a sixteen-digit decimal reads back |
| FreeFormat.FixedDigits | dtoa.c:1237-1253 | fixed format: exactly n digits, halves away from zero |
| FreeFormat.TenToThe | dtoa.c:1241-1246 | 10^n in eighteen limbs for n up to 101 |
| FreeFormat.FractionDigits | dtoa.c:1219-1225 | fraction format: x * 10^n rounded to an integer, halves away from zero |
| FreeFormat.FixedRoom | dtoa.c:62 | free and fixed format need at most 52 limbs for every double and up to 101 digits |
| FreeFormat.FractionRoom | dtoa.c:62 | so does fraction format |
| FreeFormat.ReadingRoom | dtoa.c:62 | so does converting back, and reading |
| Shortest.EqualGapRounds | dtoa.c:1193-1199 | with equal gaps, reading as x is being within half a gap, the ends included when the pattern is even |
| Shortest.NearerReads | dtoa.c:1193-1199 | what is at least as near to x as a decimal that reads as x, reads as x |
| Shortest.FootReads | dtoa.c:1193-1199 | at the foot of a binade the reading interval is half as wide below |
| Shortest.CloseReads | dtoa.c:1190-1192 | whatever is within 2^-54 of x, relatively, reads as x |
| DecimalDigits.U32ToALen | dtoa.c:530-538 | exactly len digits of the number |
| DecimalDigits.U32ToA | ae/dtoa.ae:18-34 | the digits of the number without leading zeros |
| DecimalDigits.U64ToA | dtoa.c:593-622 | the same for 64 bits, by groups of nine |
| DecimalDigits.OutputDigits | dtoa.c:822-866 | the n digits of a big number, with a point moved in after dotPos of them |
| Dtoa.PrintDouble | dtoa.c:1085-1295 | the text of any double in free format, in at most 25 characters: NaN and the infinities, zero with or without its sign, a small integer as it is, and otherwise the digits of the search, which are the last to read back from seventeen down |
| Dtoa.SmallSize | dtoa.c:1145-1155 | the short cut for small integers prints the exact value |
| Dtoa.FreeTextLayout | dtoa.c:1255-1289 | each layout, read by the grammar, denotes the digits times their power of ten |
| Dtoa.WriteNumber | dtoa.c:1255-1289 | the three layouts of digits and exponent, in no more characters than js_dtoa_max_len allows |
| Dtoa.ShapeParses | dtoa.c:1331-1545 | a text of this shape, whatever it is followed by that stops it, is read to its end as its digits, point and exponent |
| Dtoa.LaidOutReads | dtoa.c:1331-1597 | a text that lays out a decimal denotes the double that decimal reads as, also when more text follows |
| Dtoa.TextLaysOut | dtoa.c:1085-1295 | the text of every finite nonzero double denotes a decimal that reads as that double |
| Dtoa.TextOnce | dtoa.c:1085-1295 | the text of a double is settled by it and the mode of the exponent |
| Dtoa.PrintThenRead | dtoa.c:1085-1597 | printing any double and reading the text gives the same bits, but for a minus sign of zero that was not asked for |
| NumberToString.FreeLayout | dtoa.c:1255-1289 | the layout of digits in free format is that of section 9.8.1 of ECMA-262 |
| NumberToString.ToStringExact | dtoa.c:1085-1295 | the text of a number is that of section 9.8.1 for digits that read as it and neither begin nor end with a zero, small integers included |
| NumberToString.ExponentExact | dtoa.c:1255-1261 | the text of a number has an exponent if and only if its decimal is below 10^-6 or at least 10^21, which is if and only if the double is below the one nearest to 10^-6 or at least 10^21 |
| NumberToString.AtPower | dtoa.c:1161-1218 | for the double nearest to a power of ten the search ends with one digit, and not below the power |
| NumberToString.MicroPlain | dtoa.c:1255-1261 | the double nearest to 10^-6 lies below it and is printed without an exponent |
| NumberToString.PrecisionLayout | dtoa.c:1255-1289 | with a number of digits the layouts are those of sections 15.7.4.7 and 15.7.4.6 |
| NumberToString.FixedExponentExact | dtoa.c:1255-1261 | a number to n digits has an exponent if and only if it is below 10^-6 less half a unit of the last digit, or at least 10^n - 1/2 |
| DtoaFormats.PrintFixed | dtoa.c:1085-1295 | fixed format, for toPrecision and toExponential: the text of the n digits nearest to x, the larger of two as near, in at most n + 8 characters; NaN and the infinities by name |
| DtoaFormats.FixedTextDenotes | dtoa.c:1255-1289 | that text denotes exactly those digits times their power of ten |
| DtoaFormats.PrintFraction | dtoa.c:1085-1295 | fraction format, for toFixed: the text of x * 10^n rounded to an integer, halves away from zero, n digits behind the point; NaN and the infinities by name |
| DtoaFormats.FractionFits | dtoa.c:1228-1231 | one digit more than the exponent guess promises always suffices, and at most one zero comes first |
| DtoaFormats.ExtraDigit | dtoa.c:1231-1236 | removing that zero, when no point follows it, leaves the text with as many digits as the number has |
| DtoaFormats.FractionTextDenotes | dtoa.c:1219-1236 | that text denotes the rounded integer in units of 10^-n, has n digits behind the point, and starts with a zero only when it is the one digit before it |
| Reader.SkipZeros | dtoa.c:1419-1436 | skips zeros and one point |
| Reader.Mul1Base | dtoa.c:1309-1328 | r * radix_base + a, a base of 0 meaning 2^32 |
| Reader.ScanDigits | dtoa.c:1416-1483 | the digits and the point of the longest literal, the first 38 significant digits gathered by nines, and the counters |
| Reader.ScanExponent | dtoa.c:1490-1531 | the written exponent, or that it is too large to matter, or that there is none |
| Reader.Finish | dtoa.c:1548-1585 | range checks, conversion and packing: the correctly rounded double if and only if the leading exponent fits 32 bits |
| Reader.TooLarge | dtoa.c:1562-1563 | beyond the upper threshold infinity is the correct result |
| Reader.TooSmall | dtoa.c:1564-1565 | beyond the lower threshold zero is the correct result |
| Reader.PackIsPattern | dtoa.c:1568-1584 | the packed fields are the pattern of the significand and exponent, or infinity |
| Reader.HugeExponent | dtoa.c:1532-1540 | an exponent noted as overflowing decides the result correctly whatever the digits |
| Reader.Atod | dtoa.c:1331-1597 | every text: the literal at its start, refused when there is none, and the nearest double to its kept digits exactly when the exponent arithmetic does not wrap |
| Reader.DenotesOnce | dtoa.c:1331-1597 | a literal denotes one double and ends in one place |
| Reader.WrappedExponent | dtoa.c:1560-1565 | 123456789e2147483639, whose 32-bit exponent sum wraps, reads as zero instead of infinity |
| DecimalText.KeptAll | dtoa.c:1455-1470 | with at most 38 significant digits none is dropped |
| DecimalText.KeptTruncates | dtoa.c:1438-1470 | beyond 38 significant digits the kept ones are the leading ones of the number |
| DecimalText.KeptSize | dtoa.c:1438-1470 | the kept digits begin with a nonzero digit, unless the number is zero |
| DecimalLiterals.LongestLiteral | dtoa.c:1331-1530 | js_atod reads the longest decimal literal of section 9.3.1 of ECMA-262 that begins the text; it reads none if and only if there is none or an exponent indicator without digits follows one |
| DecimalLiterals.ParsedIsLiteral | dtoa.c:1331-1530 | what it reads is such a literal, with the digits, the point and the exponent written |
| DecimalLiterals.DanglingExample | dtoa.c:1494-1512 | `1e` begins with the literal `1`, and nothing is read |
| DecimalLiterals.LongestInteger | dtoa.c:1331-1530 | asked for an integer only, it reads the longest sign and digits that begin the text, and nothing exactly when there are none |
| RegexpStack.UndoAppend | ae/lre_exec.ae:224-228 | undoing two runs of pairs one after the other is undoing their concatenation |
| RegexpStack.UndoSaved | ae/lre_exec.ae:156-179 | a register saved once since the last frame may change again without another pair |
| RegexpStack.StackedPush | ae/lre_exec.ae:131-141 | pushing a frame onto the mixed stack is pushing a snapshot |
| RegexpStack.StackedSave | ae/lre_exec.ae:143-154 | pushing an undo pair lets its register change |
| RegexpVM.Machine.PushFrame | ae/lre_exec.ae:131-141 | a three-word frame: a snapshot of all captures in the machine it stands for; it fails exactly when fewer than three words are left |
| RegexpVM.Machine.SaveCapture | ae/lre_exec.ae:143-154 | sets a capture, undoably; it fails exactly when fewer than two words are left |
| RegexpVM.Machine.SaveCaptureCheck | ae/lre_exec.ae:156-179 | sets a register, undoably, with at most one pair per frame; it fails exactly when it needs one and fewer than two words are left |
| RegexpVM.Machine.PopFrame | ae/lre_exec.ae:220-234 | undoing the pairs above a frame restores exactly the captures of its snapshot |
| RegexpVM.Machine.NoMatch | ae/lre_exec.ae:213-244 | backtracks to the latest frame that is not a lookahead |
| RegexpVM.Machine.MoveWords | ae/lre_exec.ae:621-625 | copies a run of words upward, last first |
| RegexpVM.Machine.GatherPairs | ae/lre_exec.ae:613-628 | the undo pairs of all frames walked over, latest first, end up against the frame below |
| RegexpVM.Machine.LookaheadMatch | ae/lre_exec.ae:590-629 | a positive lookahead keeps its captures, and they stay undoable from the enclosing frame |
| RegexpVM.Machine.NegLookaheadMatch | ae/lre_exec.ae:633-655 | a negative lookahead that matched undoes everything it did |
| RegexpVM.Machine.SaveReset | ae/lre_exec.ae:405-417 | resets a range of captures, undoably; it fails exactly when fewer than four words for each are left |
| RegexpVM.Machine.BinarySearch | ae/lre_exec.ae:525-550 | the search of a range table |
| RegexpVM.Machine.SmallSearch | ae/lre_exec.ae:503-524 | the search of an eight-bit range table, whose last interval is open if it ends at 255 |
| RegexpVM.Machine.PeekPrev | ae/lre_exec.ae:583-588 | the character before the current place |
| RegexpVM.Machine.MatchAgain | ae/lre_exec.ae:552-577 | compares the text of a capture with what follows, character by character; a capture that took no part is found anywhere |
| RegexpVM.Machine.DispatchSymbol | ae/lre_exec.ae:354-397 | dots, spaces, anchors of lines and of the subject, and word boundaries |
| RegexpVM.Machine.Dispatch | ae/lre_exec.ae:283-582 | one instruction of any opcode, as the machine of snapshots does it; it lowers the stack by at most 1024 words, and fails only where fewer are left |
| RegexpVM.Machine.Exec | ae/lre_exec.ae:182-270 | any number of instructions: the machine is where the machine of snapshots is, and a match leaves its captures; the stack overflows only at an instruction the machine of snapshots gets to as well, and only if it has fewer than 1024 words for each instruction up to there |
| RegexpPattern.MatchesSound | ae/re/module.ae:385-519 | matches do not go back, stay within the subject, and change only the captures their pattern writes |
| RegexpPattern.AdvancesMoves | ae/re/module.ae:472-496 | a loop body compiled without a check never matches without moving on; `RegexpScan.ConsumesAdvances` has what the scan decides from |
| RegexpMeaning.Correct | ae/re/module.ae:385-519 | the code of every pattern makes the machine yield its matches one after another in order of preference, leaving the frames below untouched |
| RegexpPattern.PlusIsRepeat | ae/re/module.ae:497-498 | `+` compiled as a loop that tests at its end means the body once and then repeated |
| RegexpMeaning.EitherCorrect | ae/parse_re_disjunction.ae:68-83 | the inserted split and the patched jump: left alternative first, then the right, both ending after the last |
| RegexpMeaning.RepeatCorrect | ae/re/module.ae:466-477 | greedy and lazy loops |
| RegexpMeaning.PlusCorrect | ae/re/module.ae:497-498 | a split back to the start of the atom yields the matches of `+` |
| RegexpMeaning.CountedCorrect | ae/re/module.ae:478-517 | counted loops, with their counter and position registers, yield the rounds RepeatMatcher asks for, in its order |
| RegexpMeaning.GuardedCorrect | ae/re/module.ae:472-476 | the position register and its check reject exactly the iterations that match nothing |
| RegexpMeaning.LookCorrect | ae/parse_re_alternative.ae:264-283 | lookaheads of both signs |
| RegexpMeaning.GroupCorrect | ae/parse_re_alternative.ae:236-262 | capture groups |
| RegexpProgram.BodyRuns | ae/js_parse_regexp.ae:51-56 | a program body ends in its first match, or resumes what lies below |
| RegexpProgram.StickyFinds | ae/js_parse_regexp.ae:42-59 | without the search prefix the match is at the start or nowhere |
| RegexpProgram.SearchFinds | ae/js_parse_regexp.ae:46-59 | with the search prefix the first match found is the leftmost one |
| RegexpProgram.LeftmostStarts | ae/js_parse_regexp.ae:46-51 | capture 0 of that match starts at the first character boundary that has a match |
| RegexpProgram.StopsFirst | ae/lre_exec.ae:182-270 | a machine that halts has a first instruction after which it has stopped, so the number it executes is settled |
| RegexpProgram.Find | ae/lre_exec.ae:182-270 | lre_exec on such a program: success with the captures of the match there should be, failure only without one; it halts after a number n of instructions that depends only on the program and its start, and with n steps and a stack of 1024 * n words the result is one of the two |
| RegexpEmit.Emitter.EmitInsert | ae/emit/module.ae:171-180 | opens a gap and moves the code behind it |
| RegexpEmit.Emitter.OpenAlternative | ae/parse_re_disjunction.ae:68-79 | split in front of all code of the disjunction, unpatched jump behind it, the code itself unchanged |
| RegexpEmit.Emitter.PatchToEnd | ae/parse_re_disjunction.ae:59-65 | the jump is patched to land after the alternative |
| RegexpEmit.Emitter.Quantifier | ae/re/module.ae:466-477 | the bytes inserted before and appended after an atom with `*` or `?` |
| RegexpEmit.Emitter.CountedQuantifier | ae/re/module.ae:478-517 | the bytes inserted before and appended after an atom with a counted quantifier |
| RegexpEmit.Emitter.EmitLoop | ae/re/module.ae:463-518 | every quantifier, from `{0}`, which drops the atom, to open and closed ranges, gets the code of the loop in the plan |
| RegexpEmit.Emitter.ParseQuantifier | ae/re/module.ae:439-519 | the scan of the atom decides on the check and on where captures are reset; the bytes are the code of the planned quantifier |
| RegexpEmit.Emitter.Emit | ae/parse_re_alternative.ae:66-112 | the bytes emitted for a pattern are the code of its plan with all registers 0; it fails exactly when there are too many captures |
| RegexpEmit.Emitter.NextAlternative | ae/parse_re_disjunction.ae:56-83 | one turn of the loop over `|`: what was compiled before becomes the first of two alternatives, unchanged |
| RegexpEmit.Emitter.EmitDisjunction | ae/parse_re_disjunction.ae:45-83 | for any number of alternatives, the bytes emitted are the code of the nested disjunction |
| RegexpEmit.Emitter.ComputeRegisterCount | ae/re/module.ae:678-716 | the pass over the code numbers registers in place, or fails when there are too many or a back reference is beyond the captures |
| RegexpEmit.PassNumbersProgram | ae/js_parse_regexp.ae:66-68 | on a program with all registers 0 that pass gives the program with registers numbered by nesting, and fails exactly when more than 255 are in use at a time or a back reference is beyond the captures |
| RegexpEmit.Emitter.EmitProgram | ae/js_parse_regexp.ae:28-75 | header with the counts of captures and registers, search prefix unless sticky, body and match; it fails exactly when there are too many captures or registers or a back reference is beyond the captures |
| RegexpScan.NeedCheckAndInit | ae/re/module.ae:225-276 | the loop computes the scan of the code |
| RegexpScan.ScanFinds | ae/re/module.ae:225-276 | on the code of any pattern the scan tells whether a character is read before the code branches, and whether it branches |
| RegexpScan.ConsumesAdvances | ae/re/module.ae:244-252 | a term the scan takes for consuming never matches without moving on, so its loop needs no check |
| RegexpRegisters.PassNumbers | ae/re/module.ae:678-716 | wherever the code of a pattern stands, the pass gives its registers their numbers and leaves all else, or fails exactly when they are too many or a back reference is beyond the captures |
| RegexpPlan.PlanScans | ae/re/module.ae:439-443 | what the scan finds in the code of a plan can be read off the written pattern |
| RegexpPlan.PlanRefers | ae/re/module.ae:706-711 | the back references in the code of a plan are those of the written pattern outside atoms dropped by `{0}` |
| RegexpPlan.PlanCompiles | ae/re/module.ae:385-519 | the plan of every pattern can be compiled: its loops without a check advance, and no loop writes the registers of another around it |
| RegexpSoundness.MeansSound | ae/re/module.ae:385-519 | matches of a written pattern do not go back, stay within the subject, and change only the captures of its groups |
| RegexpSoundness.MeansMoves | ae/re/module.ae:244-252 | a term that surely reads a character has no match that stays where it began |
| RegexpAgreement.BodyMeans | ae/re/module.ae:445-462 | a loop body that branches, or has a back reference, is reset at every round; one that does not sets all its captures, so that leaving its reset out changes no match |
| RegexpAgreement.LoopMeans | ae/re/module.ae:463-518 | whichever code a quantifier gets, its matches are those of RepeatMatcher (section 15.10.2.5 of ECMA-262), in its order |
| RegexpAgreement.PlanMeans | ae/re/module.ae:385-519 | the plan has the matches of the written pattern, in the same order and with the captures that section 15.10.2 of ECMA-262 gives them, but that a reset capture may show |
| RegexpMarks.MarkedMatches | ae/lre_exec.ae:405-417 | with resets that write a mark a pattern finds the same matches, back references included, and the marks stand exactly where it leaves the 0 of a reset |
| RegexpMarks.PairedMatches | ae/lre_exec.ae:405-417 | a capture whose start was reset has its end reset or unset too, in every match: a back reference to it is found anywhere |
| RegexpAnswer.SourceLeftmostStarts | ae/js_parse_regexp.ae:46-51 | the match asked for starts at the first character boundary that has one |
| RegexpAnswer.CapturesExact | ae/lre_exec.ae:405-417 | the engine finds the match ECMA-262 asks for, where there is one, with its captures; the words that differ are those left reset, which read 0 and should be undefined |
| RegexpAnswer.CapturesRight | ae/regexp_exec.ae:153-156 | the captures reported are right if and only if the match found leaves no capture reset |
| RegexpAnswer.NothingReset | ae/re/module.ae:445-462 | so they are on every subject when no quantified group is reset by the code |
| RegexpAnswer.ResetShows | ae/lre_exec.ae:405-417 | `/(z)?b/` on `b`: capture 1 should be undefined, and the engine makes it empty at 0 |
| RegexpEngine.NewCaptures | ae/regexp_exec.ae:70-77 | captures start undefined, registers as memory was |
| RegexpEngine.CompilePattern | ae/js_parse_regexp.ae:28-75 | compiling gives the program of the plan, or fails exactly when there are too many captures or registers or a back reference is beyond the captures |
| RegexpEngine.CompileAndFind | ae/lre_exec.ae:182-270 | compiling a written pattern and running its code finds the preferred match at the leftmost place that has one, or for a sticky pattern at the start, as ECMA-262 gives pattern and match their meaning; captures as in `RegexpAnswer.CapturesExact`; with the n steps the program executes and a stack of 1024 * n words it succeeds or fails |
| RegexpFolding.FoldingExact | ae/lre_exec.ae:552-577 | for any way of folding case, back references with the flag i that fold ASCII only find the same text from everywhere in a subject if and only if no two of its characters are told apart differently |
| RegexpFolding.CanonicalExact | ae/jsutil2.ae:116-123 | a letter of ASCII is taken for the same letter in the other case, every other character for itself only |
| RegexpFolding.AsciiFolds | ae/lre_exec.ae:552-577 | so in a subject of ASCII, for every folding that is right for ASCII |
| RegexpFolding.AccentMissed | ae/lre_exec.ae:552-577 | U+00C9 found again at U+00E9: a folding that takes the two for one letter finds it, the engine does not |
| RegexpFolding.PairMissed | ae/lre_exec.ae:552-577 | so `/(.)\1/i` has no match at the start of those two characters |
| RegexpRounds.RoundsRunOut | ae/re/module.ae:478-517 | `/a{2,}/` on 2^30 - 1 letters a or more: the match of the engine ends after so many, where the match asked for goes to the end of the subject |
| RegexpText.CharAtReads | ae/cutils.ae:157-176 | where the UTF-8 encoding of a code point stands (RFC 3629), the engine reads that code point and its length |
| RegexpText.BoundaryReads | ae/cutils.ae:157-176 | in an encoded text the places reached from a character are where later characters start, and the end |
| RegexpText.PreviousReads | ae/lre_exec.ae:583-588 | looking back from a character finds the one before it |
| RegexpText.SymbolReads | ae/lre_exec.ae:354-397 | dots, spaces, anchors and word boundaries are what sections 7.2, 7.3, 15.10.2.6 and 15.10.2.12 of ECMA-262 say of the characters |
| RegexpText.CharReads | ae/lre_exec.ae:289-313 | an encoded character in a pattern matches that character and no other |
| RegexpText.ClassReads | ae/lre_exec.ae:503-550 | a class matches a character that it holds |
| RegexpText.SameTextReads | ae/lre_exec.ae:552-577 | a back reference finds the captured characters exactly where they stand again |
| RegexpCharacters.LeafReads | ae/lre_exec.ae:283-582 | so every leaf of a pattern matches in the bytes what it means of the characters |
| RegexpCharacters.MeaningReads | ae/lre_exec.ae:182-270 | the matches of a pattern in the bytes of an encoded text are those section 15.10.2 of ECMA-262 gives it in the characters, in the same order with the same captures |
| RegexpCharacters.AnswerReads | ae/lre_exec.ae:182-270 | so the match that should be found in the bytes is the one that should be found in the characters |
| Ranges.RangeCompress | ae/jshelpers.ae:210-245 | in place: the same code points, in intervals that are in order, not empty and do not touch |
| Ranges.SearchExact | ae/lre_exec.ae:525-550 | binary search over such a table finds a code point exactly when an interval holds it |
| Ranges.RangeMatchesExact | ae/lre_exec.ae:525-550 | a range instruction decides membership exactly |
| Ranges.ShortFits | ae/re/module.ae:633-640 | the number of intervals and the last two ends decide whether all of a compressed table fits eight bits |
| Ranges.ClassExact | ae/re/module.ae:630-657 | in either form, the code of a class decides membership for every code point |
| Ranges.GapsComplement | ae/re/module.ae:616-624 | adding the two ends inverts the set, in order for the second compression |
| PropertyTable.Object.FindOwnProperty | ae/find_own_prop_inlined.ae:14-42 | finds the record of a key if and only if the object has it |
| PropertyTable.Object.Keys | ae/builtins_object.ae:132-204 | the keys in order of creation |
| PropertyTable.Object.AllocProps | ae/alloc/module.ae:61-93 | empty buckets and n free records; for n > 0 an empty table |
| PropertyTable.Object.Resize | ae/vstore/module.ae:67-105 | the array itself if it is large enough, or a copy of the least larger size that suits: half as large again, and by whole records from propBase on; it fails exactly when no such size may be allocated |
| PropertyTable.Object.Append | ae/create_property.ae:113-148 | appends one entry, keeping every chain in its bucket and the free-tail index right |
| PropertyTable.Object.Grow | ae/create_property.ae:76-112 | more room, and more buckets when chains get long, with the same entries; it fails exactly when no size for them may be allocated |
| PropertyTable.GrowsBelowHalf | ae/vstore/module.ae:67-105 | an array can grow up to half the greatest size |
| PropertyTable.Object.SpreadBuckets | ae/create_property.ae:97-108 | moves the records up for more buckets and relinks them |
| PropertyTable.Object.CreateProperty | ae/create_property.ae:42-148 | creating an absent key appends its entry; it fails, changing nothing, exactly when no record is free and the array cannot grow |
| PropertyTable.Object.Rehash | ae/props/module.ae:59-94 | rebuilds every chain, keeping the entries and whatever follows them |
| PropertyTable.Object.GetFirstFree | ae/mblock.ae:15-31 | where free records start |
| PropertyTable.Object.DeleteProperty | ae/delete_property.ae:51-147 | deleting removes the entry of the key and keeps the others in order; an absent key changes nothing; after a present one the array has at most about twice the words its buckets and entries need, or is the shared empty one |
| PropertyTable.Object.Unlink | ae/delete_property.ae:97-107 | takes one record out of its chain |
| PropertyTable.Object.FreeRecord | ae/delete_property.ae:108-139 | frees the record and moves the free-tail index back over free records |
| PropertyTable.Object.Rewind | ae/delete_property.ae:117-130 | stops at the latest live record |
| PropertyTable.Object.Compact | ae/props/module.ae:114-155 | the same entries with no free records; the shared empty array exactly when there are none |
| PropertyTable.Object.Squeeze | ae/props/module.ae:136-150 | moves live records together over the space of free ones and dropped buckets |
| PropertyTable.RebuildDone | ae/props/module.ae:75-93 | counting live records up to the stored count reaches the last of them |
| PropertyTable.LinkRecord | ae/props/module.ae:79-91 | prepending a record to its chain keeps all chains |
| PropertyTable.UnlinkedChains | ae/delete_property.ae:97-107 | unlinking keeps every other record in its chain |
| PropertyTable.FreedTable | ae/delete_property.ae:108-139 | count, chains, entries and tail after a record was freed |
| PropertyLayout.ChainHead | ae/find_own_prop_inlined.ae:33-40 | a chain link leads to the latest earlier record of its bucket, so chains end |
| StackVerifier.PathCongruent | ae/compute_stack_size.ae:40-148 | along every path of edges the pass follows through accepted code, the depth is the recorded one modulo 255 |
| StackVerifier.PathExact | ae/compute_stack_size.ae:40-148 | when the final stack size is at most 253 depths are exact, never underflow, and never exceed that size plus one |
| StackVerifier.SizeLeast | ae/compute_stack_size.ae:108-113 | a size up to 253 that checked code was accepted with holds every way through it, and no smaller one from the initial size up does |
| StackVerifier.Verifier.Push | ae/compute_stack_size.ae:40-53 | records a depth or compares it modulo 255 |
| StackVerifier.Verifier.Effect | ae/compute_stack_size.ae:96-115 | checks one instruction and raises the stack size |
| StackVerifier.Verifier.Successors | ae/compute_stack_size.ae:117-141 | follows every edge out of the instruction |
| StackVerifier.Verifier.Compute | ae/compute_stack_size.ae:56-148 | the worklist ends; accepted code has all its depths checked, the size is the initial one or the depth after some instruction on a way through the code, and up to 253 it is the least one, from the initial one up, that holds every way through the code; refused code is faulty on some way; code is accepted with a size of at most 253 if and only if it has an exact assignment of depths |
| ExtVars.FunctionBody.RewriteChunk | ae/convert_ext_vars.ae:42-71 | one walk rewrites exactly the references its sixteen entries cover |
| ExtVars.FunctionBody.ResolveChunk | ae/convert_ext_vars.ae:90-107 | targets of one chunk, the remaining names moved up |
| ExtVars.FunctionBody.Convert | ae/convert_ext_vars.ae:74-115 | all chunks together are one simultaneous substitution, and the remaining variables are the outer ones in their order |
| ExtVars.RewriteTwice | ae/convert_ext_vars.ae:85-111 | no operand is rewritten twice across chunks |
| ExtVars.RewriteWellFormed | ae/convert_ext_vars.ae:42-71 | instruction boundaries do not move |
| ExtVars.TargetsKeepNames | ae/convert_ext_vars.ae:90-107 | every reference still names its variable, as a local exactly where the function has one of that name that is no argument, or at its compacted place |
| ExtVars.AllRemain | ae/convert_ext_vars.ae:108-110 | skipping a walk while nothing was local changes nothing |
| ExtVarsMeaning.SameAccesses | ae/convert_ext_vars.ae:42-115 | the rewritten code reads and writes the same variables by name, instruction by instruction in the same order |
| ExtVarsMeaning.RewriteEffects | ae/convert_ext_vars.ae:42-71 | every instruction keeps its size, its pops and pushes, its jump target and whether the code goes on behind it |
| ExtVarsMeaning.PathAlike | ae/convert_ext_vars.ae:42-71 | where jumps lead to instructions, the ways through the rewritten code are those through the old, with the same depths |
| ExtVarsMeaning.DepthsKept | ae/convert_ext_vars.ae:42-71 | so the stack sizes that hold the code are the same before and after, as are those attained, whether the code is faulty, and whether it has an exact assignment of depths |
| JsonParser.Parser.Start | ae/parse_json.ae:91-161 | a value at the current position: finished as the grammar says, or a call for its first part with the rest of the parse unchanged |
| JsonParser.Parser.ObjectLoop | ae/parse_json.ae:195-213 | a key, its colon, and a call for the value |
| JsonParser.Parser.ArrayAfterElem | ae/parse_json.ae:170-192 | after an element |
| JsonParser.Parser.ObjectAfterProp | ae/parse_json.ae:215-230 | after a member |
| JsonParser.Parser.JsonValue | ae/parse_json.ae:74-161 | each entry and resumption takes one step of the recursive grammar |
| JsonParser.Parser.ParseCall | ae/parse_call.ae:42-66 | driving the resumable function gives what the recursive grammar gives, and leaves the value stack as high as it was |
| JsonParser.Parser.ParseJson | ae/parse_json_driver.ae:17-29 | the whole text: one value and only spaces after it |
| Json.ParsesBack | ae/parse_json.ae:74-237 | where a printed value stands it parses back, and the parser stops behind it |
| Json.TextRoundTrip | ae/builtins_stringify.ae:69-204 | parsing the printed text of a value gives the value |
| Json.LiteralExact | ae/parse_json.ae:116-127 | only the first letter of true, false and null is looked at, so the parser agrees with RFC 8259 exactly where the whole name is there |
| Json.LooseLiteral | ae/parse_json.ae:116-119 | txyz parses as true |
| JsonGrammar.DerivesParses | ae/parse_json.ae:74-237 | what the grammar of RFC 8259 derives at a place, with its numbers and strings, the parser reads there, as the value in which of equal keys the last one wins, and stops where the derivation ends |
| JsonGrammar.ParsedDerives | ae/parse_json.ae:74-237 | what the parser reads where every token is spelled as RFC 8259 has it and only blanks stand between tokens, the grammar derives |
| JsonGrammar.DocumentExact | ae/parse_json_driver.ae:17-29 | with the numbers and strings the engine reads, a text is a document of RFC 8259 with a given value if and only if the parser reads it as that value and, token by token, literal names are spelled in full, numbers are as in section 6 and strings as in section 7, and only blanks stand between tokens |
| JsonGrammar.LooseNumbers | ae/parse_json.ae:99-112 | `01`, `1.` and `-Infinity` are parsed and are no documents |
| JsonGrammar.LooseStrings | ae/parse_string.ae:23-76 | a string with an escape JSON does not know, one with a raw tab and one with a backslash before a line end are parsed and are no documents |
| JsonGrammar.BlanksExact | ae/jshelpers.ae:34-47 | between tokens the blanks of RFC 8259, vertical tabs and form feeds are skipped, and nothing else |
| JsonMerge.LastValueWins | ae/parse_json.ae:215-231 | a parsed object has its keys in the order in which they come first, each with the value that came last |
| RfcTokens.NumberParses | dtoa.c:1331-1545 | every number of section 6 of RFC 8259 is a literal to js_atod, with the digits, the point and the exponent written, and ends where the number does |
| RfcTokens.ParsePrefix | dtoa.c:1331-1545 | a literal is read alike without what follows it |
| RfcTokens.NumberTokenMeans | dtoa.c:1331-1597 | every number of RFC 8259 that js_atod takes means one double, and no other |
| RfcTokens.NumberReads | ae/parse_json.ae:99-112 | where a number of RFC 8259 stands and something follows that ends it, the parser reads the double it means |
| RfcTokens.NumberRead | ae/parse_json.ae:99-112 | where the parser reads a number whose text is one of RFC 8259, it is the double that means |
| RfcTokens.StringReads | ae/parse_string.ae:23-76 | where a string of section 7 of RFC 8259 stands, the scanner reads the string it means, escapes and pairs of surrogates included, and ends where it does |
| RfcTokens.StringRead | ae/parse_string.ae:23-76 | where the scanner reads a string whose text is one of RFC 8259, it is the string that means |
| StringLiterals.LiteralsExact | ae/parse_string.ae:23-76 | the scanner reads exactly the string literals of section 7.8.4 of ECMA-262, but for the line ends and control characters noted in its grammar, each as the string its pieces stand for |
| JsonPrinter.Printer.ArrayTurn | ae/builtins_stringify.ae:99-123 | one turn for an array keeps printed and remaining text together |
| JsonPrinter.Printer.ObjectTurn | ae/builtins_stringify.ae:124-180 | one turn for an object, members with undefined values skipped |
| JsonPrinter.Printer.Stringify | ae/builtins_stringify.ae:69-204 | the work stack prints the recursive text of the value, null for numbers that are not finite |
| JsonImage.TextGivesImage | ae/builtins_stringify.ae:69-204 | the text of any value with distinct keys parses as its image: no undefined, null for what is not finite, zeros without a sign |
| JsonImage.ImagePlain | ae/builtins_stringify.ae:124-182 | the image is the value itself exactly when JSON can express the value |
| JsonImage.PrintAndParse | ae/builtins_stringify.ae:69-204 | stringify then parse gives the image of every value with distinct keys |
| JsonNumbers.NumberText | ae/builtins_stringify.ae:170-179 | the text of a finite number, by js_dtoa in free format: the one text `JsonNumbers.TextFor` names |
| JsonNumbers.TextForIs | ae/builtins_stringify.ae:170-179 | no number has two texts |
| JsonNumbers.TextExists | ae/builtins_stringify.ae:170-179 | every finite number has one |
| JsonNumbers.ReadNumber | ae/parse_json.ae:99-112 | js_atod from a place in a text on: the double the literal there denotes, and where it ends |
| JsonNumbers.NumberReadsBack | ae/parse_json.ae:99-112 | where the text of a finite double stands in a document it reads back as the same double, and js_atod stops behind it; minus zero as zero |
| JsonStrings.QuotedString | ae/coerce/module.ae:486-535 | a string between quotes, with letters or hexadecimal digits for what must be escaped, surrogates that stand alone included |
| JsonStrings.Concat | ae/sbconcat/module.ae:51-144 | joining two strings leaves no halves of a surrogate pair side by side, and changes nothing where none meet |
| JsonStrings.ConcatOne | ae/sbconcat/module.ae:51-144 | a character joined to what stands before it or to what comes after it first makes the same string |
| JsonDocument.ConcatUnits | ae/sbconcat/module.ae:51-144 | joining strings joins their 16-bit units |
| JsonDocument.UnitsOnce | ae/sbconcat/module.ae:51-144 | no two strings have the same units, so that settles the joined string |
| JsonDocument.QuotedMeans | ae/coerce/module.ae:486-535 | the text of a string is a string of section 7 of RFC 8259 that means it |
| JsonDocument.QuotedShortest | ae/coerce/module.ae:486-535 | no string of RFC 8259 that means the same is shorter |
| JsonDocument.PrintedMeans | ae/builtins_stringify.ae:170-179 | the text of a finite number is a number of section 6 of RFC 8259 that means it, minus zero meaning zero |
| JsonStrings.ParseEscape | ae/parse_escape.ae:28-85 | what an escape stands for and how long it is |
| JsonStrings.ParseString | ae/parse_string.ae:23-76 | the characters of a string literal up to its quote, pairs of escaped surrogates joined, or that it is malformed |
| JsonStrings.UnquoteQuoted | ae/coerce/module.ae:486-535 | every string is read back from where it was printed |
| JsonTokens.EngineReadsItself | ae/builtins_stringify.ae:69-204 | with the number and string conversions of the engine, JSON.parse of JSON.stringify gives the image of every value with distinct keys, and the value itself if and only if its numbers are finite and not minus zero and nothing is undefined |
| JsonDocument.StringifyIsDocument | ae/builtins_stringify.ae:69-204 | what JSON.stringify prints for a value with distinct keys is a document of RFC 8259 for its image |
| JsonDocument.OnlyOwnBlanks | ae/builtins_stringify.ae:69-204 | it has no blanks but the spaces in strings and keys |

## Left out

- SqrtRemU: leaves out the argument 1 and those with a high word of 1, where clz of zero is asked for, the argument 2^126 - 1, for which the sum of estimate and quotient wraps, and the high words from 2^62 on, for which the estimate itself can wrap; the square root passes none of them.
- MulLog2Radix10Exact: radix 10 only, the radix the other parts are for.
- Atod: radix 10 only, without digit separators and prefixes, for texts of at most 2^30 - 1 characters, so that positions do not wrap.
- PrintDouble: radix 10 only, without the mode that never uses an exponent, which only other radices ask for.
- OutputDigits: radix 10 only.
- Exec: interrupts; a subject with a character cut off by its end is read as if zeros followed, and looking back for the start of a character stops at the start of the subject.
- Emit: patterns are given as trees; reading the source text, suspending between its parts and joining adjacent characters into one instruction are not modelled.
- EmitLeaf: the table of a class is given; collecting it from ranges and escapes is not modelled, but see `Ranges` for how it is compressed, inverted and shortened. That the flags `i`, `m` and `s` choose among leaves is left to the tree.
- CompileAndFind: subjects of at most 2^31 - 2 bytes, and too short for a counted loop without a maximum to reach the greatest count. Garbage collection can raise the bottom of the stack; its depth is a parameter here.
- CreateProperty: allocation fails only when the array would be too large.
- Compact: the array that shrinks in place is replaced by a shorter copy of it.
- DeleteProperty: property arrays in read-only memory, which are copied before the first change.
- Keys: the keys themselves, not their strings, and not the indices of array elements.
- Compute: edges to exception handlers and from `ret`, which the pass does not follow.
- Convert: whether the new operand indices are in range when there are more than 65536 variables.
- ParseCall: stack overflow and running out of memory; positions past the end of the text read as zeros.
- Stringify: getters, functions and circular references.
- TextRoundTrip: how numbers and strings are written is a parameter, which `JsonTokens` fills in.
- ParseString: texts are sequences of characters, not of UTF-8 bytes, so a text itself holds no surrogates; strings may, and their escapes are modelled.
- The soft floating point functions do not keep exception flags, which are not compiled in; `clz` of zero is a parameter.
- Fused multiply-add, comparisons and conversions of soft floating point.
- Garbage collection, moving buffers, the interpreter loop, the tokenizer, closures, arrays, strings and the host programs.
- Transcendental functions, which have no exact specification here.
