# Verification of the vendored algorithms

The library sits on three headers whose algorithms are complete in themselves: the CRC
engines of `external/boost/crc.hpp`, the integer and mantissa conversions of
`external/boost/lexical_cast.hpp`, and the tokenizer functions of
`external/boost/token_functions.hpp` with the iterator of `external/boost/token_iterator.hpp`.
This project models them in Dafny and proves what they are for. `dafny verify dfyconfig.toml`
checks everything.

## The CRC engines

A machine word is a sequence of bits, least significant first, whose length is the width of
the C++ type; that width may exceed `Bits`, and the bits above `Bits` hold whatever the shifts
left there. `CrcSpec` defines the CRC on the low `Bits` bits only, one division step per
bit, and `Gf2` defines polynomials over the field of two elements. The bit-by-bit engine
(`CrcBasic`), the table (`CrcTable`), the table-driven engine (`CrcOptimal`) and
`AugmentedCrc` are classes and methods that update their state as the source does. Each
is proved against the specification, and the specification is proved to be polynomial
division. The table step is justified by uniqueness of the remainder: eight single steps and
one table lookup leave the same residue of the same dividend.

`WordValues` ties words to numbers: bit i of a word is the bit of weight 2^i, shifts halve and
double, exclusive or is that of the numbers. So the first bit of a byte to be processed is
the one of weight 128, or of weight 1 on reflected input, and slot k of the CRC-32 table is
the number that the loop of section 8 of RFC 1952 makes of the number k. The checksum is
stated bit by bit on every method that returns one: the register, turned round if asked,
and then the final xor.

Three statements about errors hold in both directions. A step can be undone exactly when the
polynomial is odd; windows of at most `Bits` bits are told apart exactly when it is odd; and
errors in an odd number of bits, however spread, are all detected exactly when the divisor
has an even number of terms (`CrcParity`).

## Numbers and text

The printer fills a buffer from the right and counts group sizes down; the parser reads from
the right in wrapping arithmetic. `ParseUnsigned` says what the parser accepts without any
wrapping: a non-empty run of digits, once ungrouped, whose value fits. The method that does
wrap is proved to accept exactly that. `LexicalGroups` gives the printed text a second
description: the digits cut into groups from the right. With one digit a group the largest
value fills the advertised buffer completely, so its length cannot be less.

`LexicalGrouping` says which texts those are in a grouping locale whose separator is no
digit: a digit string with its rightmost k separators in place, for any k. The comment at
`external/boost/lexical_cast.hpp:738-748` calls the positions of separators checked, and
excepts only text without any; the code stops checking at the first separator that is
missing, so that "1234,567" is accepted in groups of three. The model follows the code.

Printing and parsing is *not* always the identity, and the project says when. A group size
written as zero is endless for the printer but empty for the parser, which then looks for
one more separator; if the separator of the locale is itself a digit, a digit of the number
can be taken for it. `Swallowed` is that condition, computed from the value, the grouping and
the separator, and the round trip succeeds if and only if it is false. It is false whenever
the separator is not a digit, or no group size is zero. The number 2305 with grouping
"\1\0" and separator '0' is printed as 23005 and read back as 235.

`shr_unsigned` accepts a minus sign and returns the negated value modulo 2^w, and the model
does the same. Both readers are stated on arbitrary text, with the sign and the digits
spelled out. The spans that the mantissa loop accepts are given by `SpanExact`: digits, or
digits around a decimal point, up to the end or an exponent mark.

## Tokens

`TokenSpec.Call` is what one call does to the rest of the input and to the flag between
calls, and `Run` is a whole run; it terminates by the pair (characters left, flag). The
separators and the iterator are classes proved against them. For `escaped_list_separator`
`EscapedListRoles` classifies the characters of any text by position, without calls and
flags, and proves from that when a run throws and which tokens it yields. An escape is at
fault between quotes as well as outside. After an exception the iterator stays as valid as
it was and stands behind the point of failure, as in the source. For `char_separator` the
whole run is compared with `Fields`, a splitting that has no flags and no calls, and
`CharSeparatorLists` states the same of the characters in the lists and classes themselves:
an empty list falls back on the character class if that is in use, and then on nothing. A character
in both delimiter lists counts as kept when empty tokens are kept and as dropped when they
are dropped: that is the order in which the code asks.

`char_separator::reset` leaves the flag `m_output_done` alone, so a separator that already
has it set loses the empty field before a leading delimiter; `StaleFlag` states this exactly.

## Model

| member | source | states |
|---|---|---|
| Words.Reflect | external/boost/crc.hpp:306-326 | the loop returns the low bits in opposite order and clears everything above them |
| WordValues.ByteBitsValue | external/boost/crc.hpp:754-768 | bit i of a byte is the bit of weight 2^i of its number, and the bits make the number up again |
| WordValues.ShlValue | external/boost/crc.hpp:744 | a left shift doubles the number modulo 2^width |
| WordValues.ShrValue | external/boost/crc.hpp:314-326 | a right shift halves it |
| WordValues.XorValue | external/boost/crc.hpp:734-750 | exclusive or of words is exclusive or of the numbers, digit by binary digit |
| Words.MaybeReflect | external/boost/crc.hpp:563-611 | the helper that reflects the low bits or returns the word as it is |
| CrcTables.PositionInvolutive | external/boost/crc.hpp:530 | reflecting a byte is its own inverse, so the reflected table index is a permutation of the 256 slots |
| CrcTables.CrcTable.Divide | external/boost/crc.hpp:507-528 | the loop over the bits of a dividend leaves its remainder on the low bits of the word |
| CrcTables.CrcTable.FillSlot | external/boost/crc.hpp:507-532 | one more dividend is served and the slots filled before stay right |
| CrcTables.CrcTable.InitTable | external/boost/crc.hpp:488-536 | every slot holds its (possibly mirrored) entry afterwards; a second call changes nothing; the wrapping byte loop ends |
| CrcByteStep.TableStep | external/boost/crc.hpp:944-966 | eight single-bit steps equal one shift plus one entry, for every width, also below eight bits |
| CrcByteStep.ReflectedTable | external/boost/crc.hpp:530-531 | the mirrored entry is what eight right shifts with the mirrored polynomial make of the index |
| CrcByteStep.ReflectedTableFilled | external/boost/crc.hpp:488-536 | every slot of a filled reflected table is that value |
| CrcByteStep.ReflectedTableNumbers | external/boost/crc.hpp:488-536 | slot k of any filled reflected table, as a number, is what eight such turns with the mirrored polynomial make of the number k |
| CrcByteStep.Crc32Mirrored | external/boost/crc.hpp:97-98 | the CRC-32 polynomial mirrored is the constant 0xEDB88320 of section 8 of RFC 1952 |
| CrcByteStep.Crc32Table | external/boost/crc.hpp:97-98 | the table of the CRC-32 parameters is the table of section 8 of RFC 1952, in words of any width of at least 32 bits: slot k is the number that eight turns of "if odd then 0xEDB88320 xor c/2 else c/2" make of k |
| CrcSpec.MachineStep | external/boost/crc.hpp:726-751 | a division step on the wide word acts on the low bits as on the register alone, whatever lies above |
| CrcSpec.Division | external/boost/crc.hpp:726-770 | after n bits M from register r, r x^n + M x^Bits is quotient times divisor plus the register |
| CrcSpec.RegisterUnique | external/boost/crc.hpp:696-704 | any remainder of that dividend of degree below Bits is the register |
| CrcSpec.ByteOrderBits | external/boost/crc.hpp:753-782 | the bits of a byte in processing order: weight 128 first, or weight 1 first on reflected input |
| CrcSpec.ChunksAgree | external/boost/crc.hpp:784-812 | processing a message in two parts, or resuming from the register in between, gives the checksum of the whole |
| CrcSpec.ChecksumAffine | external/boost/crc.hpp:814-823 | the checksum of the xor of three equally long messages is the xor of their checksums |
| CrcSpec.StepInjectiveIff | external/boost/crc.hpp:726-751 | a step is injective on registers if and only if the polynomial is odd |
| CrcSpec.WindowDetectedIff | external/boost/crc.hpp:726-751 | different windows of at most Bits bits always lead to different registers if and only if the polynomial is odd |
| CrcSpec.BurstRegister | external/boost/crc.hpp:726-770 | with an odd polynomial, bit strings that differ only inside such a window leave different registers |
| CrcSpec.BurstDetected | external/boost/crc.hpp:726-823 | with an odd polynomial, messages whose processed bits differ only inside a window of at most Bits bits have different checksums |
| CrcParity.StepBitsParity | external/boost/crc.hpp:726-770 | when the divisor has an even number of terms, the parity of the register is that of the message and the register before |
| CrcParity.DivisorVanishes | external/boost/crc.hpp:726-751 | the bits of the divisor, sent as a message, leave a clear register clear |
| CrcParity.OddWeightDetectedIff | external/boost/crc.hpp:726-770 | messages that differ in an odd number of bits always leave different registers if and only if the divisor has an even number of terms |
| CrcParity.OddWeightDetected | external/boost/crc.hpp:726-823 | such messages of bytes then have different checksums, whatever the other parameters |
| CrcBasics.CrcBasic.constructor | external/boost/crc.hpp:630-644 | the parameters and the initial register |
| CrcBasics.CrcBasic.GetInterimRemainder | external/boost/crc.hpp:696-704 | the register, without the bits above it |
| CrcBasics.CrcBasic.Reset | external/boost/crc.hpp:706-715 | the register becomes the low bits of the argument |
| CrcBasics.CrcBasic.ResetToInitial | external/boost/crc.hpp:717-725 | the register becomes the initial remainder |
| CrcBasics.CrcBasic.ProcessBit | external/boost/crc.hpp:727-751 | one division step on the register |
| CrcBasics.CrcBasic.ProcessBits | external/boost/crc.hpp:753-770 | the low bits of a byte are processed, the highest of them first |
| CrcBasics.CrcBasic.ProcessByte | external/boost/crc.hpp:772-782 | the eight bits of a byte, that of weight 128 first, or that of weight 1 when input is reflected |
| CrcBasics.CrcBasic.ProcessBlock | external/boost/crc.hpp:784-797 | the register after all the bits of the bytes in order |
| CrcBasics.CrcBasic.ProcessBytes | external/boost/crc.hpp:799-812 | the same for a buffer and a count |
| CrcBasics.CrcBasic.Checksum | external/boost/crc.hpp:814-823 | bit i is bit i of the register, or bit Bits - 1 - i when output is reflected, xored with bit i of the final value; nothing above Bits |
| CrcOptimals.IndexMeaning | external/boost/crc.hpp:538-622 | the table index is the byte meeting the top of the register, in all of the index formulas |
| CrcOptimals.TableStepRefines | external/boost/crc.hpp:954-965 | a table step keeps the relation between machine word and register: equal modulo 2^Bits, mirrored when input is reflected |
| CrcOptimals.CrcOptimal.constructor | external/boost/crc.hpp:836-843 | the register is the given remainder and the table is ready |
| CrcOptimals.CrcOptimal.GetInterimRemainder | external/boost/crc.hpp:909-916 | the un-reflected register |
| CrcOptimals.CrcOptimal.Reset | external/boost/crc.hpp:922-929 | the register becomes the low bits of the argument |
| CrcOptimals.CrcOptimal.ProcessByte | external/boost/crc.hpp:935-942 | the register takes the eight steps of the byte, its bit of weight 128 first, or that of weight 1 when input is reflected |
| CrcOptimals.CrcOptimal.ProcessBlock | external/boost/crc.hpp:947-966 | the register after all the bits of the bytes, the same as bit by bit |
| CrcOptimals.CrcOptimal.ProcessBytes | external/boost/crc.hpp:972-982 | the same for a buffer and a count |
| CrcOptimals.CrcOptimal.TableLookup | external/boost/crc.hpp:958-964 | index, shift and table entry together do the eight steps of one byte |
| CrcOptimals.CrcOptimal.Checksum | external/boost/crc.hpp:988-995 | the same checksum bit by bit, by one reflection less |
| CrcOptimals.ComputeCrc | external/boost/crc.hpp:1025-1040 | the checksum of the message under the template parameters, bit by bit |
| CrcEngines.ChecksumsAgree | external/boost/crc.hpp:726-995 | both engines return the same checksum for all parameters, widths and messages: the register, reflected if asked, then the final xor |
| CrcEngines.ResumeInOptimal | external/boost/crc.hpp:905-929 | a computation begun bit by bit continues in the fast engine from the interim remainder |
| CrcEngines.ResumeInBasic | external/boost/crc.hpp:696-715 | a computation begun in the fast engine continues bit by bit from the interim remainder |
| AugmentedCrcs.AugmentedCrc | external/boost/crc.hpp:1045-1076 | the loop computes the augmented division of the buffer from the initial remainder |
| AugmentedCrcs.AugmentIsRemainder | external/boost/crc.hpp:1064-1073 | the result is the remainder of r x^(8n) + M |
| AugmentedCrcs.AugmentedIsPlain | external/boost/crc.hpp:1045-1094 | with Bits/8 zero bytes appended it is the plain CRC of the message |
| AugmentedCrcs.AugmentedOverCrcIsZero | external/boost/crc.hpp:1045-1094 | with the plain CRC appended in big-endian bytes it is zero |
| LexicalPrint.LcastPutUnsigned | external/boost/lexical_cast.hpp:600-674 | exactly the text of the number is written in front of `finish`, and nothing else in the buffer changes |
| LexicalPrint.BeginGroup | external/boost/lexical_cast.hpp:638-650 | the next group takes the size its entry gives, CHAR_MAX (127) for an entry of zero or less, and its separator is written |
| LexicalGroups.PrintedInGroups | external/boost/lexical_cast.hpp:600-674 | the printed text is the digits cut into groups from the right, the last size repeating and one of zero or less allowing 127 digits; without grouping just the digits |
| LexicalPrint.WriteDigit | external/boost/lexical_cast.hpp:652-657 | the last digit is written, and the text still to come is that of the remaining number and counters |
| LexicalPrint.PutLength | external/boost/lexical_cast.hpp:636-658 | under any grouping the text has at most one separator between neighbouring digits |
| Decimals.Digits10 | external/boost/lexical_cast.hpp:440-444 | the digits10 of an unsigned type: 10^k fits and 10^(k+1) does not |
| LexicalStreams.LcastToUnsigned | external/boost/lexical_cast.hpp:583-590 | the wrapping conversion yields the magnitude, the minimum included |
| LexicalStreams.UnsignedFits | external/boost/lexical_cast.hpp:436-444 | the text of an unsigned value fits in lcast_src_length characters |
| LexicalStreams.SignedFits | external/boost/lexical_cast.hpp:436-444 | so does that of a signed value, sign included |
| LexicalStreams.UnsignedLengthTight | external/boost/lexical_cast.hpp:436-444 | some unsigned value in some locale fills that length |
| LexicalStreams.SignedLengthTight | external/boost/lexical_cast.hpp:436-444 | and some signed value fills the signed one |
| LexicalParse.TestsExact | external/boost/lexical_cast.hpp:766-778 | the wrapping overflow conditions reject a digit exactly when the sum exceeds the type |
| LexicalParse.AddDigit | external/boost/lexical_cast.hpp:766-781 | a turn of the loop goes on exactly when the longer digit string still fits, and keeps value, weight and sticky flag right |
| LexicalParse.GroupedLoop | external/boost/lexical_cast.hpp:708-760 | the loop finds the digits that ungrouping defines, fails, or hands the rest to the plain loop |
| LexicalParse.PlainLoop | external/boost/lexical_cast.hpp:763-784 | accepts exactly when all that is left is digits and the whole value fits |
| LexicalParse.LcastRetUnsigned | external/boost/lexical_cast.hpp:679-786 | returns true exactly when the span, ungrouped, is a non-empty digit run that fits, and then stores its value; without grouping exactly for a non-empty digit run, with any leading zeros, of value at most max |
| LexicalParse.NoSeparators | external/boost/lexical_cast.hpp:738-748 | text without separators is read or refused in every locale as in the classic one |
| LexicalParse.ClassicTextReads | external/boost/lexical_cast.hpp:738-748 | what the classic locale prints is read back under any grouping whose separator is no digit |
| LexicalGrouping.StripSpaced | external/boost/lexical_cast.hpp:715-757 | whatever the grouped loop accepts is a digit string with its rightmost k separators, whatever the separator is |
| LexicalGrouping.SpacedStrips | external/boost/lexical_cast.hpp:715-757 | conversely, from every state of the counters, unless a digit looks like a separator |
| LexicalGrouping.GroupedTextExact | external/boost/lexical_cast.hpp:679-786 | with a separator that is no digit, a text is the number v if and only if it is a digit string of that value with its rightmost k separators, for some k |
| LexicalRoundTrip.PrintedComesBack | external/boost/lexical_cast.hpp:636-757 | printer and parser counters stay in step from any reachable state |
| LexicalRoundTrip.UngroupPrinted | external/boost/lexical_cast.hpp:616-760 | ungrouping printed text gives the digits, or too few of them exactly when one is swallowed |
| LexicalRoundTrip.UnsignedRoundTrip | external/boost/lexical_cast.hpp:600-786 | parsing what was printed returns the value if and only if no digit is taken for a separator |
| LexicalRoundTrip.NotSwallowed | external/boost/lexical_cast.hpp:735-755 | a separator that is no digit, or a grouping without zero entries, swallows nothing |
| LexicalRoundTrip.DigitSeparatorBreaks | external/boost/lexical_cast.hpp:735-755 | a concrete value, grouping and separator that read back as another number |
| LexicalStreams.LexicalStream.ShlUnsigned | external/boost/lexical_cast.hpp:1532-1534 | the text stands in [start, finish) |
| LexicalStreams.LexicalStream.ShlSigned | external/boost/lexical_cast.hpp:1338-1349 | the text with its sign stands in [start, finish) |
| LexicalStreams.LexicalStream.ShrUnsigned | external/boost/lexical_cast.hpp:1609-1642 | accepts an optional '-' or '+' and an unsigned number, in the classic locale a non-empty digit run whose value fits; a minus sign gives (2^w - value) modulo 2^w |
| LexicalStreams.LexicalStream.ShrSigned | external/boost/lexical_cast.hpp:1644-1687 | accepts an optional '-' or '+' and digits exactly when the value is at most 2^(w-1) behind a minus sign and less than that otherwise; returns the value or its negative |
| LexicalStreams.ReadSignedPrinted | external/boost/lexical_cast.hpp:1338-1687 | a signed value, the minimum included, reads back if and only if no digit is swallowed |
| LexicalStreams.ReadUnsignedPrinted | external/boost/lexical_cast.hpp:1532-1642 | the same for unsigned values |
| LexicalStreams.CastUnsigned | external/boost/lexical_cast.hpp:2132-2143 | a whole cast through a buffer of the advertised length |
| LexicalStreams.CastSigned | external/boost/lexical_cast.hpp:2132-2143 | a whole signed cast through a buffer of the advertised length |
| LexicalMantissa.TakeFraction | external/boost/lexical_cast.hpp:1045-1061 | a digit behind the point is packed or left out, and the power follows |
| LexicalMantissa.TakeWhole | external/boost/lexical_cast.hpp:1064-1084 | a digit before the point is packed or left out, and the power follows |
| LexicalMantissa.SpanExact | external/boost/lexical_cast.hpp:1040-1153 | the spans that count as read: digits, or digits around a decimal point that does not stand alone, up to the end or an 'e' or 'E'; nothing else |
| LexicalMantissa.MantissaLoop | external/boost/lexical_cast.hpp:1032-1153 | accepts the digit spans it should, stops where it should, and holds the longest digit prefix that fits |
| LexicalMantissa.MantissaBounds | external/boost/lexical_cast.hpp:1032-1153 | mantissa and power bracket the exact value from below and above; equality when never full |
| LexicalMantissa.ReadMantissa | external/boost/lexical_cast.hpp:1032-1153 | both together for the loop's results |
| TokenSpec.Call | external/boost/token_functions.hpp:471-541 | every call consumes input or clears the pending flag |
| Separators.EscapedListSeparator.Chars | external/boost/token_functions.hpp:151-153 | one character for each role, flag clear |
| Separators.EscapedListSeparator.Strings | external/boost/token_functions.hpp:155-156 | a set of characters for each role, flag clear |
| Separators.EscapedListSeparator.Reset | external/boost/token_functions.hpp:158 | clears the flag |
| Separators.EscapedListSeparator.DoEscape | external/boost/token_functions.hpp:125-147 | behind an escape 'n' gives a line feed, a special character itself; any other character is an unknown escape and the end of input an open one, with the token as it was and the iterator on the offending character |
| Separators.EscapedListSeparator.Call | external/boost/token_functions.hpp:160-197 | token, position, flag and exception of one call; position, token and flag also when it throws |
| Separators.EscapedListSeparator.ReadField | external/boost/token_functions.hpp:174-196 | the loop over the characters of one field |
| Separators.CharSeparator.constructor | external/boost/token_functions.hpp:447-467 | the delimiters and policy, flag clear |
| Separators.CharSeparator.Reset | external/boost/token_functions.hpp:469 | does nothing: the flag survives |
| Separators.CharSeparator.Call | external/boost/token_functions.hpp:471-541 | token, position and flag of one call, the same for both iterator categories |
| Separators.CharSeparator.CallDropping | external/boost/token_functions.hpp:482-503 | the branches that drop empty tokens |
| Separators.CharSeparator.CallKeeping | external/boost/token_functions.hpp:504-540 | the branches that keep empty tokens |
| Separators.CharSeparator.SkipPast | external/boost/token_functions.hpp:482-485 | moves past exactly the dropped delimiters in front |
| Separators.CharSeparator.TakeWord | external/boost/token_functions.hpp:500-502 | takes exactly the longest run of characters that do not delimit |
| Separators.CharSeparator.TakeField | external/boost/token_functions.hpp:531-536 | moves past one dropped delimiter, if it stands there, and takes the word behind it |
| Separators.Assigned | external/boost/token_functions.hpp:277-321 | collecting by character and assigning at the end give the same token |
| TokenIterators.TokenIterator.constructor | external/boost/token_iterator.hpp:76-77 | the members before the first call: a copy of the function object, the whole input, not valid |
| TokenIterators.TokenIterator.Initialize | external/boost/token_iterator.hpp:67-72 | resets and makes the first call unless the input is empty |
| TokenIterators.TokenIterator.Increment | external/boost/token_iterator.hpp:50-53 | drops the current token from those ahead, and progresses; after an exception the iterator is still valid and stands behind the point of failure |
| TokenIterators.TokenIterator.CallFunction | external/boost/token_iterator.hpp:50-72 | one call of the function object: what remains is the run from the old state; an exception leaves valid as it was |
| TokenIterators.TokenIterator.AtEnd | external/boost/token_iterator.hpp:97 | true exactly when no token remains of the run; otherwise the first of those that remain is the current one |
| TokenIterators.Begin | external/boost/token_iterator.hpp:76-77 | a new iterator stands before the tokens of the whole input; there is none when the first call throws |
| TokenIterators.Collect | external/boost/token_iterator.hpp:50-97 | a loop over all tokens ends and yields the run |
| TokenIterators.BothPaths | external/boost/token_functions.hpp:277-321 | both iterator categories yield the same tokens on every input |
| TokenIterators.ReadBack | external/boost/token_functions.hpp:125-197 | quoted fields written with three distinct characters are read back through the iterator |
| EscapedListTheorems.QuotedRoundTrip | external/boost/token_functions.hpp:125-197 | every list of quoted fields is read back if and only if 'n' is no escape or quote character |
| EscapedListTheorems.BareRoundTrip | external/boost/token_functions.hpp:125-197 | every list of unquoted escaped fields is read back except that of one empty field |
| EscapedListTheorems.BareNeedsN | external/boost/token_functions.hpp:129-146 | which needs 'n' not to be a special character |
| EscapedListRoles.TokenizeMeaning | external/boost/token_functions.hpp:125-197 | the tokens of any text: the fields between the separators outside quotes and escapes, or those completed before the first fault and its error |
| EscapedListRoles.ThrowsIff | external/boost/token_functions.hpp:126-146 | a run throws if and only if some escape ends the text or stands before a character that is not 'n', an escape, a quote or a separator, quoted or not |
| EscapedListRoles.TokenCount | external/boost/token_functions.hpp:174-196 | a run that ends well over some input yields one token more than separators outside quotes and escapes |
| CharSeparatorLists.KeepEmptyLists | external/boost/token_functions.hpp:504-568 | keeping empty tokens, for the characters of the lists or classes themselves: the input split at each of them, with the number of tokens and the characters lost |
| CharSeparatorLists.DropEmptyLists | external/boost/token_functions.hpp:482-568 | dropping empty tokens: the same splitting without its empty fields; no token holds a dropped character, and they spell the input without those |
| CharSeparatorTheorems.KeepEmptyIsFields | external/boost/token_functions.hpp:504-540 | a run that keeps empty tokens yields exactly the fields and the kept delimiters between them |
| CharSeparatorTheorems.KeepEmptyCount | external/boost/token_functions.hpp:504-540 | the number of tokens is dropped + 2 * kept + 1 |
| CharSeparatorTheorems.KeepEmptyRebuilds | external/boost/token_functions.hpp:504-540 | the tokens with the dropped delimiters put back in place are the input |
| CharSeparatorTheorems.StaleFlag | external/boost/token_functions.hpp:469-540 | a flag left set costs the empty field before a leading delimiter and nothing else |
| CharSeparatorTheorems.DropEmptyIsFields | external/boost/token_functions.hpp:482-503 | a run that drops empty tokens yields the non-empty fields of the same splitting |
| CharSeparatorTheorems.DropEmptyTokens | external/boost/token_functions.hpp:482-503 | non-empty tokens, each a kept delimiter or a word, that spell the input without its dropped delimiters |

## Left out

- `external/boost/crc.hpp`: the choice of `least` and `fast` integer types is a parameter (any width of at least `Bits` and eight); `augmented_crc` needs `Bits >= 8` and `process_bits` at most eight bits, since the C++ shifts are undefined otherwise.
- `external/boost/crc.hpp`: the accessors that only return a constant, and the call operators, which forward to `process_byte` and `checksum`.
- LexicalRoundTrip.UnsignedRoundTrip: for values of at most CHAR_MAX digits, which is what the static assertion at `external/boost/lexical_cast.hpp:627-630` demands of a type.
- `external/boost/lexical_cast.hpp`: locale lookup, wide characters and stream-based conversions; one character type is modelled, with grouping and separator as parameters, and a `char` that wraps at 127.
- LexicalGrouping.GroupedTextExact: for a separator that is no digit; with a digit as separator one text can be spaced in two ways, and only that what is accepted is spaced text is stated (StripSpaced).
- `external/boost/lexical_cast.hpp`: floating point itself, exponents, signs, NaN and infinity; the mantissa loop is modelled for the classic locale, and its `int` power is unbounded.
- `external/boost/lexical_cast.hpp`: the overflow of `-(min)()` in `shr_signed` is taken as two's complement.
- `external/boost/token_functions.hpp`: `offset_separator` and the deprecated `char_delimiters_separator`; `ispunct` and `isspace` are given as sets of characters.
- `external/boost/token_iterator.hpp`: comparison and conversion between iterators; a range is a string and a position in it, and reading a tokenizer is a loop until `at_end`.
- `src/`: sockets, shared memory, `io_service` plumbing and node bookkeeping, which rest on code that is not part of this model.
