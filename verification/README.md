# Verified algorithms of the TTCHAIN support libraries

Dafny models of six self-contained pieces of the `fc` library and of the Boost 1.55 headers it
builds on, with proofs of what they promise:

- **CRC** (`boost/crc.hpp`): the bit-serial `crc_basic`, the table-driven `crc_optimal` and
  `augmented_crc`, for every width, polynomial, initial value, final XOR and orientation.
- **Rationals** (`boost/rational.hpp`, `boost/math/common_factor_rt.hpp`): in-place arithmetic on
  fractions in lowest terms, the continued-fraction comparison, both gcd algorithms, and
  exactly when all this stays within a built-in type.
- **Integer and literal conversion** (`boost/lexical_cast.hpp`): printing with digit grouping,
  parsing with wrapping overflow tests, and the mantissa scan of decimal literals.
- **Tokenizers** (`boost/token_functions.hpp`, `boost/token_iterator.hpp`): `char_separator` and
  `escaped_list_separator` under their iterator.
- **Bloom filter** (`fc/bloom_filter.hpp`) and **checked integers** (`fc/safe.hpp`).

`dafny verify dfyconfig.toml` checks everything.

## How things are modelled

- A machine word is a `seq<bool>`, most significant bit first (`BitStrings`). A CRC register
  lives in a container word that may be wider than its `n` significant bits. Neither computer
  clears the bits above `n` between steps, so the contracts speak of the low `n` bits.
- Bounded integer arithmetic is written with `MachineInt.IntType`, whose operations are defined
  only where the exact result is representable. Code written with them verifies only if it never
  overflows; this is how the range claims for `operator<` and for the guards of `safe<T>` are
  made. Wrap-around in `lexical_cast` and in `RationalRange` is an explicit `Wrap`.
- C++ `/` and `%` are `TruncDiv` and `TruncMod`. A throw or a `false` return is a result value.
- Objects that the source updates in place are classes. Each method's contract ties the new state
  to a specification function, and the lemmas are about those functions.

## Findings

- `rational::assign(n, 0)` throws after it has written both fields and leaves the object with
  denominator zero. An object driven through a run passes `test_invariant()` after every call
  exactly if the run never does this (`RationalRuns.CheckedRun`); 1/2 after `assign(3, 0)` holds 3/0
  (`RationalRuns.AssignZeroBreaksInvariant`).
- `math::gcd` and `normalize` negate in the signed type. They stay in range exactly if no operand is
  the minimum (for `normalize`: or the numerator is zero, or it throws). In wrapping arithmetic the
  result is still right unless the denominator is negative, the fraction is already in lowest terms
  and one field is the minimum; `INT_MIN/-3` then becomes `INT_MIN/3`, which even passes
  `test_invariant()` (`RationalRange.WrappingNormalize`, `RationalRange.MinimumFails`).
- The comments on the rational operators promise to avoid overflow. `*=` keeps that promise: away from
  the minimum it stays in range exactly if its result is representable
  (`RationalOverflow.CheckedProduct`). `/=` misses one more case, a quotient equal to the minimum with a
  negative divisor (`RationalOverflow.CheckedQuotient`, `RationalOverflow.QuotientFails`). `+=` and `-=`
  need the numerators over the least common denominator, and their sum, to fit as well:
  INT_MAX/2 + INT_MAX/2 overflows although the sum is INT_MAX/1 (`RationalOverflow.CheckedSum`,
  `RationalOverflow.SumFails`).
- `char_separator::reset()` does not clear `m_output_done`. Tokenizers and token iterators copy the
  separator (token_iterator.hpp:76-77, tokenizer.hpp:86-87), so one object passed to several of them
  always splits correctly (`CharSeparators.ShareSeparator`). The state survives only in a separator
  taken back with `it.tokenizer_function()`, or called directly. Such a separator, after a non-empty
  first input run to its end, splits a second input wrongly exactly if empty tokens are kept and that
  input begins with a delimiter: its empty first field is lost (`CharSeparators.ReuseSeparator`). After
  "a", the input ",b" gives one token instead of two (`CharSeparators.LostField`).
- `token_iterator::equal` compares the position behind the current token only. With `char_separator` a
  kept delimiter and an empty field right behind it compare equal, and no other two tokens do
  (`CharSeparators.ComparePositions`). With `escaped_list_separator` this happens exactly for a field
  ended by a separator at the end of the input and the empty field after it
  (`EscapedList.Tokenize`, `EscapedList.SharedPosition`).
- The mantissa scan of a literal accepts, besides the well-formed literals, a decimal point without any
  digit directly before an exponent; ".e5" is read as mantissa zero (`LexicalMantissa.ScanMantissa`,
  `LexicalMantissa.DigitlessLiteral`).
- The grouped parser checks separators from the right only as long as it finds them: it accepts a
  numeral with separators at its first m group boundaries and none further left, for any m
  (`LexicalInteger.ParseLanguage`). With groups of three, "1234,567" is 1234567
  (`LexicalInteger.MissingSeparator`).
- A character that is both a kept and a dropped delimiter is kept in one mode and dropped in the
  other, so the two modes agree up to empty tokens exactly on inputs without such a character
  (`SplitTheory.DropIsFilteredKeep`); with "," in both roles the input "," shows it
  (`SplitTheory.CommaInBothRoles`).
- A list of one empty field, written without quotes, is read back as an empty list; every other
  list survives (`EscapedList.Writer.RoundTrip`).
- A CRC detects every burst of at most `n` bits exactly if its polynomial's low bit is set
  (`CrcTheory.BurstDetection`).
- `safe<T>::operator%` throws for `min % -1` although the exact remainder, zero, is representable
  (`SafeInt.Remainder`).

## Model

| member | source | states |
|---|---|---|
| `CrcTheory.RunIsRemainder` | include/boost/crc.hpp:730-751 | message·x^n + init·x^len equals quotient·(x^n + poly) + register: the shift register performs GF(2) polynomial division |
| `CrcTheory.RemainderUnique` | include/boost/crc.hpp:730-751 | no other quotient leaves another n-bit remainder, so the division result is the only one |
| `CrcTheory.TableStep` | include/boost/crc.hpp:948-966 | k bit-serial steps equal one shift by k and one lookup of message XOR top bits, for every width, also below a byte |
| `CrcTheory.BurstDetection` | include/boost/crc.hpp:730-751 | every burst of at most n bits in every long enough stream changes the register, if and only if the polynomial's low bit is set |
| `CrcTheory.AugmentedEqualsPlain` | include/boost/crc.hpp:1045-1076 | augmented division of a message followed by n zero bits is plain division, for any start value |
| `CrcTheory.AugmentedResidue` | include/boost/crc.hpp:1045-1076 | a message followed by y leaves y XOR the message's own remainder |
| `Crc.Reflect` | include/boost/crc.hpp:307-326 | the loop returns the low n bits reversed, with clean higher bits |
| `BitStrings.ReverseInvolution` | include/boost/crc.hpp:307-326 | reflecting twice gives the bits back |
| `Crc.CrcBasic.constructor` | include/boost/crc.hpp:632-645 | stores the parameters and starts from the initial remainder |
| `Crc.CrcBasic.ProcessBit` | include/boost/crc.hpp:730-751 | one division step of the low n bits, whatever the container holds above them |
| `Crc.CrcBasic.ProcessBits` | include/boost/crc.hpp:755-771 | processes exactly the low bit_count bits, higher ones first |
| `Crc.CrcBasic.ProcessByte` | include/boost/crc.hpp:775-782 | processes eight bits, reflected if asked for |
| `Crc.CrcBasic.ProcessBytes` | include/boost/crc.hpp:786-813 | the register after a block is the division of its processed bits |
| `Crc.MessageBitAt` | include/boost/crc.hpp:775-813 | the message is divided byte after byte, each byte from its high bit, or from its low bit if input is reflected |
| `Crc.CrcBasic.GetInterimRemainder` | include/boost/crc.hpp:699-705 | the register with the bits above n masked away |
| `Crc.CrcBasic.ResetTo` | include/boost/crc.hpp:709-716 | replaces the register |
| `Crc.CrcBasic.Checksum` | include/boost/crc.hpp:817-826 | bit by bit: the register, from its low end if the remainder is reflected, XOR the final value, with clear bits above |
| `Crc.CrcTable.InitTable` | include/boost/crc.hpp:491-536 | afterwards every one of the 256 entries holds the remainder of its byte, reflected on both sides if asked for |
| `Crc.CrcTable.Divide` | include/boost/crc.hpp:508-528 | the inner loop computes a byte's remainder in the low n bits |
| `Crc.AlignMsb` | include/boost/crc.hpp:540-562 | the result is the register's top eight bits, zero-filled for registers below a byte |
| `Crc.ByteStep` | include/boost/crc.hpp:564-624 | index, shift and lookup of crc_helper are eight bit-serial steps in either orientation |
| `Crc.CrcOptimal.constructor` | include/boost/crc.hpp:836-843 | holds the initial remainder, reflected if input is, over a filled table |
| `Crc.CrcOptimal.ProcessBytes` | include/boost/crc.hpp:948-982 | the register after a block is the same division that the bit-serial computer performs |
| `Crc.CrcOptimal.GetInterimRemainder` | include/boost/crc.hpp:910-916 | the unreflected register |
| `Crc.CrcOptimal.Reset` | include/boost/crc.hpp:923-929 | replaces the register |
| `Crc.CrcOptimal.Checksum` | include/boost/crc.hpp:989-995 | the same bits, although the register is stored reflected and is reflected only where the two flags differ |
| `CrcResults.CrcOneShot` | include/boost/crc.hpp:1030-1039 | construct, feed and read out give the checksum of the message |
| `CrcResults.ChecksumsAgree` | include/boost/crc.hpp:786-995 | crc_basic and crc_optimal give the same checksum on every message, for every width, polynomial, initial value, final XOR, both flags and any two container widths |
| `CrcResults.ChecksumIsRemainder` | include/boost/crc.hpp:989-995 | however the message bits are divided, bit i of the checksum is bit i of the remainder, or bit n-1-i if reflected, XOR bit i of the final value |
| `CrcResults.EmptyMessage` | include/boost/crc.hpp:989-995 | of an empty message the initial remainder is read out, reversed if reflected |
| `CrcResults.SplitAndResume` | include/boost/crc.hpp:910-966 | saving the interim remainder and resuming through reset in a used computer equals one pass, for both computers |
| `CrcResults.BurstChangesChecksum` | include/boost/crc.hpp:948-995 | two byte messages that differ by one burst of at most n processed bits have different checksums when the polynomial's low bit is set |
| `CrcResults.AugmentedCrc` | include/boost/crc.hpp:1045-1076 | the table loop performs augmented division of its input |
| `CrcResults.AugmentedCheck` | include/boost/crc.hpp:1045-1092 | for whole-byte widths: on message plus n/8 zero bytes it is the plain checksum, and on message plus trailer it is zero exactly if the trailer is that checksum |
| `NumberTheory.GcdUnique` | include/boost/math/common_factor_rt.hpp:80-110 | a non-negative common divisor that is an integer combination of both numbers is the gcd |
| `CommonFactor.GcdInteger` | include/boost/math/common_factor_rt.hpp:80-125 | Euclid with truncating remainders on signed numbers returns the non-negative gcd |
| `CommonFactor.GcdBinary` | include/boost/math/common_factor_rt.hpp:127-188 | halving and subtracting returns the gcd, zero operands included |
| `CommonFactor.MathGcd` | include/boost/math/common_factor_rt.hpp:326-331 | the binary gcd of the magnitudes is the non-negative gcd, and zero only for two zeros |
| `RationalRange.CheckedGcd` | include/boost/math/common_factor_rt.hpp:326-331 | on a signed type, the gcd with every operation in range exactly if no operand is the minimum |
| `RationalRange.WrappingGcd` | include/boost/math/common_factor_rt.hpp:326-331 | in wrapping arithmetic the result is the wrapped gcd, which is wrong exactly if both operands are zero or the minimum and not both are zero |
| `RationalTheory.SumGcd` | include/boost/rational.hpp:238-256 | the combined numerator shares with the whole denominator only what it shares with the gcd of the denominators |
| `RationalTheory.ReducedUnique` | include/boost/rational.hpp:200-203 | a value has only one form with gcd 1 and positive denominator |
| `RationalTheory.EqualityDecides` | include/boost/rational.hpp:491-494 | fieldwise == holds exactly if the values are equal |
| `Rationals.Rational.Normalize` | include/boost/rational.hpp:512-538 | throws exactly on a zero denominator, otherwise leaves the reduced form of num/den |
| `RationalRange.CheckedNormalize` | include/boost/rational.hpp:512-538 | on a signed type, throws exactly on a zero denominator, leaves the range exactly if both fields are non-zero and one is the minimum, and otherwise gives the representable reduced form |
| `RationalRange.WrappingNormalize` | include/boost/rational.hpp:512-538 | in wrapping arithmetic the result is the wrapped reduced form; it is the reduced form itself, and the closing test_invariant holds, exactly under the stated conditions on the operands |
| `RationalRange.WrappingTestInvariant` | include/boost/rational.hpp:504-508 | with the wrapping gcd it calls, test_invariant still holds exactly for reduced fractions |
| `RationalRange.MinimumFails` | include/boost/rational.hpp:383-388 | with int, normalising INT_MIN/-3 gives INT_MIN/3 with test_invariant true, and 1/INT_MIN gives -1/INT_MIN with test_invariant false |
| `Rationals.Rational.Assign` | include/boost/rational.hpp:210-216 | as normalize; a throw leaves the written fields behind |
| `Rationals.Rational.AddAssign` | include/boost/rational.hpp:233-265 | the reduced exact sum without a final normalise, also when the operand is the target |
| `Rationals.Rational.SubAssign` | include/boost/rational.hpp:268-284 | the reduced exact difference, also when the operand is the target |
| `Rationals.Rational.MulAssign` | include/boost/rational.hpp:287-299 | the reduced exact product by cross cancellation alone |
| `Rationals.Rational.DivAssign` | include/boost/rational.hpp:302-328 | throws exactly on a zero divisor and then changes nothing, otherwise the reduced exact quotient with positive denominator |
| `RationalOverflow.CheckedProduct` | include/boost/rational.hpp:287-299 | on a signed type *= stays in range exactly if no numerator is the minimum and the reduced product is representable |
| `RationalOverflow.CheckedQuotient` | include/boost/rational.hpp:302-328 | /= stays in range exactly if the dividend is zero, or no numerator is the minimum, the reduced quotient is representable, and it is not the minimum over a negative divisor |
| `RationalOverflow.CheckedSum` | include/boost/rational.hpp:233-265 | += stays in range exactly if both numerators over the least common denominator and their sum are representable, that sum is not the minimum, and the reduced denominator is representable |
| `RationalOverflow.CheckedDifference` | include/boost/rational.hpp:268-284 | the same for -= and the difference of the two numerators |
| `RationalOverflow.OverCommonMeans` | include/boost/rational.hpp:257-264 | these numerators are the two fractions over one denominator whose cofactors are coprime |
| `RationalOverflow.SumFails` | include/boost/rational.hpp:233-265 | with int, INT_MAX/2 + INT_MAX/2 is INT_MAX/1 and += overflows |
| `RationalOverflow.QuotientFails` | include/boost/rational.hpp:302-328 | with int, (2^30/1) / (-1/2) is INT_MIN/1 and /= overflows |
| `Rationals.Rational.Increment` | include/boost/rational.hpp:361-366 | adds one and stays reduced |
| `Rationals.Rational.Decrement` | include/boost/rational.hpp:369-374 | subtracts one and stays reduced |
| `Rationals.ReducedSum` | include/boost/rational.hpp:257-264 | the body of +=: dividing by gcd(num, g) alone gives coprime num and den with the exact value |
| `Rationals.Rational.Less` | include/boost/rational.hpp:378-459 | terminates, equals the cross-multiplication test, and every intermediate value stays in the range of the integer type |
| `Rationals.Rational.LessInt` | include/boost/rational.hpp:462-477 | comparison with an integer by the floor alone, within range |
| `Rationals.Rational.GreaterInt` | include/boost/rational.hpp:480-488 | the exact test num > i·den for reduced fractions |
| `Rationals.Rational.Equal` | include/boost/rational.hpp:491-494 | true exactly if the two objects have the same value |
| `Rationals.Rational.TestInvariant` | include/boost/rational.hpp:504-508 | true exactly if den > 0 and the gcd is 1, in any state of the object |
| `RationalRuns.StepKeepsInvariant` | include/boost/rational.hpp:210-374 | one call keeps the invariant exactly if it does not assign a zero denominator, and then is exact on the real value |
| `RationalRuns.Execute` | include/boost/rational.hpp:210-374 | every call on the object, also one that throws, leaves the state Step gives, and the invariant holds afterwards exactly if the call did not assign a zero denominator |
| `RationalRuns.RunKeepsInvariant` | include/boost/rational.hpp:200-374 | the invariant holds at every point of a run exactly if no call assigns a zero denominator |
| `RationalRuns.CheckedRun` | include/boost/rational.hpp:210-508 | an object driven through a run passes test_invariant after every call exactly if no call assigns a zero denominator |
| `RationalRuns.AssignZeroBreaksInvariant` | include/boost/rational.hpp:210-216 | an object holding 1/2 passes test_invariant; assign(3, 0) throws, leaves 3/0, and test_invariant fails |
| `RationalRuns.RunOps` | include/boost/rational.hpp:210-374 | the object after a run is reduced and holds the exact value of the run |
| `LexicalInteger.RetUnsigned` | include/boost/lexical_cast.hpp:873-987 | the two parsing loops, with the fall-through between them, return what Parse gives |
| `LexicalInteger.TakeDigitExact` | include/boost/lexical_cast.hpp:966-984 | the wrapped multiplier, product and sum tests accept a digit exactly if the longer numeral fits |
| `LexicalInteger.ParseExact` | include/boost/lexical_cast.hpp:887-987 | without grouping, accepts exactly the non-empty all-digit strings whose value fits and returns the value |
| `LexicalInteger.ParseGroupedExact` | include/boost/lexical_cast.hpp:898-987 | in every locale acceptance and value depend only on the digits left once separators found at group boundaries are dropped |
| `LexicalInteger.ParseLanguage` | include/boost/lexical_cast.hpp:898-987 | with grouping and a non-digit separator, a string is accepted with value v exactly if it is a fitting numeral of v with separators at its first m group boundaries from the right, for some m, and none further left |
| `LexicalGrouping.GroupedLanguage` | include/boost/lexical_cast.hpp:898-987 | the same in terms of the grouping string alone: the k-th separator stands after the first k groups of digits, whose sizes are its entries, the last one repeated |
| `Decimal.AllTenDigits` | include/boost/lexical_cast.hpp:966-984 | the ten digit characters have the values nine to zero |
| `LexicalInteger.MissingSeparator` | include/boost/lexical_cast.hpp:936-951 | with groups of three, "1234,567" is accepted as 1234567 |
| `LexicalRoundTrip.PutUnsigned` | include/boost/lexical_cast.hpp:793-867 | writes the printed form backwards from finish, touches nothing else, and needs at most 2·digits10 + 1 characters |
| `LexicalRoundTrip.PutGroupedChunks` | include/boost/lexical_cast.hpp:821-851 | the digit-by-digit loop puts separators exactly at the group boundaries of the plain numeral |
| `LexicalGrouping.PrintedForm` | include/boost/lexical_cast.hpp:793-867 | in terms of the grouping string alone: separators stand at all group boundaries inside the numeral, and there are none without a positive first group |
| `LexicalRoundTrip.PrintFits` | include/boost/lexical_cast.hpp:565-591 | no grouping makes the text longer than 2·digits10 + 1 |
| `LexicalRoundTrip.ParsePrint` | include/boost/lexical_cast.hpp:793-987 | parsing the printed form with the same grouping returns the value, for every value, every grouping with positive first group and every non-digit separator |
| `LexicalRoundTrip.ToUnsigned` | include/boost/lexical_cast.hpp:780-788 | the magnitude, the minimum included |
| `LexicalRoundTrip.ShlSigned` | include/boost/lexical_cast.hpp:1638-1649 | writes a minus sign for negative numbers and the printed magnitude, within lcast_src_length_integral characters |
| `LexicalRoundTrip.ShrSigned` | include/boost/lexical_cast.hpp:1948-1980 | sign handling and range tests return what ParseSigned gives |
| `LexicalRoundTrip.SignedLanguage` | include/boost/lexical_cast.hpp:1948-1980 | in every locale, accepts exactly the accepted unsigned texts alone, after one plus or after one minus, whose signed value is representable |
| `LexicalRoundTrip.ParseSignedExact` | include/boost/lexical_cast.hpp:1948-1980 | without grouping, accepts exactly d and +d up to the maximum and -d up to the minimum, for digit strings d, and returns the value |
| `LexicalRoundTrip.SignedRoundTrip` | include/boost/lexical_cast.hpp:1638-1980 | shr_signed after shl_signed returns n for every signed n in every locale with a non-digit separator |
| `LexicalRoundTrip.CastRoundTrip` | include/boost/lexical_cast.hpp:2353-2379 | the conversion through the fixed buffer succeeds and is the identity |
| `LexicalMantissa.ScanMantissa` | include/boost/lexical_cast.hpp:1244-1366 | succeeds exactly on well-formed literals and on a bare decimal point before an exponent; the mantissa is the longest digit prefix that fits, and the literal's value lies in [mantissa, mantissa + 1) times 10^pow_of_10, at the lower end unless the mantissa is full |
| `LexicalMantissa.LiteralLanguage` | include/boost/lexical_cast.hpp:1251-1324 | the accepted strings are those of the ordinary grammar (digits with at most one point and at least one digit, then the end, an e or an E) and those that begin with a point directly before e or E |
| `LexicalMantissa.LiteralReads` | include/boost/lexical_cast.hpp:1251-1324 | from whole digits, point and fraction digits the scan reads all the digits, the length of the fraction and the end; any character but e and E behind them is an error |
| `LexicalMantissa.DigitlessLiteral` | include/boost/lexical_cast.hpp:1254-1259 | ".e5" is outside the grammar and is accepted with mantissa zero |
| `LexicalMantissa.MantissaTakesExact` | include/boost/lexical_cast.hpp:1251-1284 | the wrapped tests accept a digit exactly if mantissa·10 + digit fits |
| `LexicalMantissa.MantissaBrackets` | include/boost/lexical_cast.hpp:1244-1295 | the digits read as one number lie in [mantissa, mantissa + 1) times ten to the number of dropped digits, and are the mantissa unless it is full |
| `LexicalMantissa.LiteralBrackets` | include/boost/lexical_cast.hpp:1244-1295 | the same for the real value of the literal and the power of ten the scan keeps |
| `CharSeparators.CharSeparator.Call` | include/boost/token_functions.hpp:472-541 | delivers the first pending token in both modes, the same with assigned and with appended tokens; says exactly when the position stays and when m_output_done is set afterwards |
| `CharSeparators.CharSeparator.CallDropping` | include/boost/token_functions.hpp:483-503 | skips dropped delimiters, then takes one kept delimiter or one field |
| `CharSeparators.CharSeparator.CallKeeping` | include/boost/token_functions.hpp:505-538 | one field or one kept delimiter, empty fields included, also at the end of the input |
| `CharSeparators.TokenIterator.constructor` | include/boost/token_iterator.hpp:67-77 | positions a copy of the separator on the first token; an empty input has none |
| `CharSeparators.TokenIterator.CopyOf` | include/boost/token_iterator.hpp:82-87 | the copy has the same tokens ahead and a separator of its own |
| `CharSeparators.TokenIterator.Increment` | include/boost/token_iterator.hpp:50-53 | drops the current token from what remains, and says exactly when the position stays |
| `CharSeparators.TokenIterator.TokenizerFunction` | include/boost/token_iterator.hpp:93-93 | a copy of the separator in its present state |
| `CharSeparators.TokenIterator.Equal` | include/boost/token_iterator.hpp:59-65 | two iterators are equal exactly if both are at the end, or both are valid and their begin_ and end_ are the same addresses |
| `CharSeparators.Tokenize` | include/boost/token_iterator.hpp:50-72 | iterating terminates and yields exactly the split specification of the mode |
| `CharSeparators.Drain` | include/boost/token_iterator.hpp:50-72 | iterating from any state delivers exactly the remaining tokens |
| `CharSeparators.ShareSeparator` | include/boost/tokenizer.hpp:86-87 | one separator object used for two inputs splits both correctly |
| `CharSeparators.ReuseSeparator` | include/boost/token_functions.hpp:469-538 | a separator taken from a finished iterator splits the next input correctly exactly if empty tokens are dropped, either input is empty, or the next one does not begin with a delimiter; otherwise only the empty first field is lost |
| `CharSeparators.LostField` | include/boost/token_functions.hpp:469-538 | for ",b" a fresh separator gives "" and "b", one that has finished "a" gives "b" alone |
| `CharSeparators.ComparePositions` | include/boost/token_iterator.hpp:59-65 | iterators at two different tokens compare equal exactly if the first is a kept delimiter and the second the empty field right behind it |
| `SplitTheory.KeepSplitEmits` | include/boost/token_functions.hpp:505-541 | a string of alternating fields and delimiters yields all fields and the kept delimiters, in order |
| `SplitTheory.EveryStringAlternates` | include/boost/token_functions.hpp:505-541 | every string is such an alternation |
| `SplitTheory.DropIsFilteredKeep` | include/boost/token_functions.hpp:472-541 | drop_empty_tokens output is the keep_empty_tokens output without empty tokens, exactly if no character of the input is both kept and dropped |
| `SplitTheory.CommaInBothRoles` | include/boost/token_functions.hpp:472-541 | with "," both kept and dropped, "," has no token in drop mode and one non-empty token in keep mode |
| `SeparatorLaws.SplitAtGiven` | include/boost/token_functions.hpp:447-568 | with delimiters given as strings: all fields between these characters and the kept ones, or without empty fields and without those also dropped; the character classes play no part, and an empty input has no token |
| `SeparatorLaws.SplitByClass` | include/boost/token_functions.hpp:463-568 | by default: the runs without punctuation and space, and each punctuation character that is no space |
| `SeparatorLaws.AlternationExists` | include/boost/token_functions.hpp:472-541 | for all characters taken as delimiters, every input alternates fields and delimiters |
| `EscapedList.EscapedListSeparator.DoEscape` | include/boost/token_functions.hpp:125-147 | the character an escape sequence stands for, or the error |
| `EscapedList.EscapedListSeparator.Call` | include/boost/token_functions.hpp:160-197 | one field per call with the position and last_ after it, also after an error, and an empty field after a final separator |
| `EscapedList.Tokenize` | include/boost/token_iterator.hpp:50-72 | iterating terminates and lists all fields up to the first error; two fields have the same position exactly if they are neighbours and the first ends at the end of the input, and then the second is the last and empty |
| `EscapedLaws.FieldsLaw` | include/boost/token_functions.hpp:125-197 | for every input: the fields between separators outside quotes, with quotes removed and escape sequences replaced; an escape character at the end, or before a character that is neither n nor special, is the matching error and loses its field |
| `EscapedLaws.PiecesExist` | include/boost/token_functions.hpp:125-197 | every input is made of single characters and valid escape sequences up to its end or the first such error |
| `EscapedLaws.ErrorAt` | include/boost/token_functions.hpp:125-147 | an error is thrown only right behind such an escape character |
| `EscapedList.SharedPosition` | include/boost/token_iterator.hpp:59-65 | in "a," the field "a" and the empty field after it have the same position |
| `EscapedList.Writer.RoundTrip` | include/boost/token_functions.hpp:125-197 | reading a list written with any mix of escaping and quoting returns the list, exactly unless it is one empty unquoted field |
| `Bloom.BloomFilter.constructor` | include/fc/bloom_filter.hpp:176-194 | an empty filter whose salts solve the mixing equations |
| `Bloom.MixSaltsFrom` | include/fc/bloom_filter.hpp:499-508 | each salt is the predefined one times its third successor plus the seed, modulo 2^32, where successors already replaced count with their new value |
| `Bloom.BloomFilter.Clear` | include/fc/bloom_filter.hpp:252-256 | no bit set and no key remembered |
| `Bloom.BloomFilter.Insert` | include/fc/bloom_filter.hpp:258-268 | bit x mod 8 of byte x/8 is set for each hash value x modulo the table size, and no other bit changes |
| `Bloom.BloomFilter.Contains` | include/fc/bloom_filter.hpp:297-310 | true exactly if all these bits are set, so never false for an inserted key |
| `Bloom.BloomFilter.CopyFrom` | include/fc/bloom_filter.hpp:225-241 | the copy has the same table and keys |
| `Bloom.BloomFilter.UnionWith` | include/fc/bloom_filter.hpp:397-412 | the union of the bits of compatible filters, nothing for others, also with itself |
| `Bloom.BloomFilter.IntersectWith` | include/fc/bloom_filter.hpp:380-395 | the intersection of the bits of compatible filters, nothing for others |
| `Bloom.MergeEqualsInsertAll` | include/fc/bloom_filter.hpp:397-412 | the merged table is bit for bit that of inserting both key sets, in any order and multiplicity |
| `Bloom.IntersectionContains` | include/fc/bloom_filter.hpp:380-395 | after &= a key is contained exactly if both filters contained it |
| `Bloom.RunFilter` | include/fc/bloom_filter.hpp:225-412 | after any run of insert, merge, copy and clear no live key is missed and the table depends only on the set of live keys |
| `SafeInt.Plus` | include/fc/safe.hpp:39-44 | the exact sum, or overflow or underflow exactly if it is out of range; no guard overflows |
| `SafeInt.Minus` | include/fc/safe.hpp:45-50 | the exact difference, or the matching exception exactly if it is out of range |
| `SafeInt.Product` | include/fc/safe.hpp:52-78 | the exact product, or the matching exception exactly if it is out of range, from four truncating-division guards |
| `SafeInt.Quotient` | include/fc/safe.hpp:80-85 | throws exactly on a zero divisor or an unrepresentable quotient |
| `SafeInt.Remainder` | include/fc/safe.hpp:86-91 | the exact remainder, except divide_by_zero for a zero divisor and overflow for (min, -1), where the exact remainder is representable |
| `SafeInt.Safe.Apply` | include/fc/safe.hpp:99-147 | for each operator written out: the exact result is assigned if it is representable; otherwise overflow above, underflow below or divide_by_zero is thrown and the value stays; min %= -1 throws overflow |
| `SafeInt.RunOps` | include/fc/safe.hpp:99-147 | every run tracks exact integer arithmetic with the throwing steps left out |

## Left out

- Chain, consensus, contract and network code of the repository: only the library algorithms above are modelled.
- `crc_optimal::process_byte` and the function-call operators: they forward to `process_bytes` and `checksum`.
- The concrete 128 predefined salts of the Bloom filter: the results hold for any table of 128 salts, so it is a parameter.
- `hash_ap`: any deterministic function of key and salt; the branch of `generate_unique_salt` for more than 128 salts uses `rand`.
- `compute_optimal_parameters`, `effective_fpp` and `^=` of the Bloom filter: floating point, and an operation that keeps no key.
- Rationals: mixed-mode overloads, unary minus, `abs`, streams and `rational_cast` only wrap what is modelled; `RationalRange` and `RationalOverflow` are about `int` and wider types; narrower ones are promoted before the arithmetic.
- `lexical_cast`: exponents, NaN and infinity, `std::pow`, digit grouping inside floating-point literals, `shr_unsigned` and wide characters; `pow_of_10` is an unbounded integer.
- A plain `char` is signed, as on the usual platforms; on a platform with unsigned `char` the parser's countdown would not pass through negative values.
- `offset_separator` and the deprecated `char_delimiters_separator`: simpler than the two tokenizers chosen.
- `safe<T>` for unsigned types: its guards compare with -1 and negate, and are written for signed types.
