# Car Locator, verified in Dafny

A Dafny model of the logic at the core of the Car Locator firmware, with proofs of what that logic
promises. `dafny verify dfyconfig.toml` checks all of it.

- **cJSON** (`packages/cJSON-v1.0.2/cJSON.c`): the parser, both printers, the minifier, and the heap of items
  they work on.
  - `CText`, `Bits`: C strings as bytes, decimal digits, C's bitwise operators.
  - `StringCodec`, `StringRoutines`: string literals, first as functions on bytes, then as the loops of
    `parse_string` and `print_string_ptr` over buffers.
  - `Json`, `JsonRoundTrip`: parsing and printing as functions on bytes, and that the one undoes the other.
  - `JsonGrammar`, `JsonLayout`: what the parser accepts and what the printers put out, written down apart from both:
    texts as trees with blanks between all tokens, and printed text as tokens with the blanks between them.
  - `JsonTree`: items on the heap (`next`, `prev`, `child`, flags, strings) and the trees they form. A tree is a
    value that names its items; `Realised` says that the heap holds it.
  - `JsonPrinter`, `JsonBuffer`, `JsonBuffered`: the two-pass printer, and the one with a growing buffer.
  - `Minify`, `MinifyRoutine`, `MinifyPieces`, `MinifyMeaning`, `MinifyAccepted`: `cJSON_Minify` as a function, in place,
    on texts cut into pieces, and what it preserves on which texts.
  - `JsonBroken`: on which texts `parse_string`, and with it the parser, leaves the text or the block it fills, and where
    an exponent overflows.
  - `JsonHeap`, `JsonEdit`, `JsonBlocks`, `JsonDuplicate`, `JsonReader`, `JsonWhole`: who owns which block; deleting,
    editing, duplicating and parsing trees; the whole way round.
- **The kernel's formatted printer and memory routines** (`rt-thread/src/kservice.c`): `KNumber` (`print_number`),
  `KFormat`, `KFormatLaws` (`rt_vsnprintf`, and what each conversion puts out), `KMemory` (`rt_memset`, `rt_memcpy`,
  `rt_memmove`).
- **The NMEA 0183 reader** (`applications/minmea.c`): `MinmeaCheck` (checksums), `MinmeaFloat` (decimals in 32 bits),
  `MinmeaScan` (directives and fields), `MinmeaLaws` (what each directive stores), `MinmeaOverflow` and `MinmeaDecimals`
  (where the scale of a decimal overflows, and which other fields are taken).
- **Drivers and SMP**: `EthCopy` (descriptor rings of `drv_eth.c`), `UartDma` (circular DMA of `drv_usart.c`),
  `ExtiLines` (interrupt lines of `drv_gpio.c`), `CpusLock` (the lock of all CPUs of `cpu.c`).

How the model is set up:

- A byte is a number below 256, and a C string is the bytes before its terminator. The specifications find the
  terminator at the end of the text and behind it (`At`); the methods read with `Read`, which asks for a position that is
  not behind the terminator, so that no loop is proved that reads past it.
- Loops and updates in place are methods over arrays and objects; each is proved against a function of its inputs or
  of the old state, and the lemmas are about those functions.
- A JSON number is an exact decimal, mantissa times a power of ten. The printers are modelled on 32-bit integers.
- The allocator keeps a ghost set of live blocks. Freeing asks for a live block, so nothing is freed twice.
- A `long` has 32 bits, and its bytes are stored lowest first.
- The format language of `rt_vsnprintf` is that of the configuration in the source: precision supported, no
  `long long`, and `#` recognised without effect.

Where the code departs from what one would expect, the model follows the code:

- `%o` prints hexadecimal digits (`OctalIsHexadecimal`), an explicit precision of 0 drops the digits of a number
  (`FieldWidth`, `PrecisionZero`), and `%.0s` prints the whole string (`PrecisionCuts`, `PrecisionZeroString`).
- `parse_string` drops `\u0000`, escapes with a character that is no hexadecimal digit, and unpaired surrogates, with
  any escape behind an unpaired high one (`EscapeDropped`, `EscapeTakenAlong`). It accepts a literal without its closing
  quotation mark. It takes whatever stands behind a `\u` for the four digits, a closing quotation mark included, and so
  can leave the text or its block (`LiteralBroken`, `CutEscape`, `CutOverflows`) or go on unharmed (`CutAccepted`). Its
  first loop steps over a terminator behind a backslash (`FirstLoopLeaves`).
- The formatted printer indents the closing brace of an empty object by one tab less than that of other objects
  (`PrintedLayout`).
- `parse_number` takes a zero before other digits, a minus without digits and an exponent mark without digits
  (`NumberRead`). It adds exponents up in an `int`, which overflows (`NumberRead`, `LargeExponent`).
- `cJSON_Minify` runs past the end of some texts that the parser accepts (`MinifyStaysInside`, `OpenLiteralOverruns`,
  `CutLiteralOverruns`). Where literals end for the parser at other places than their quotation marks do, no exact condition
  is given: such a text can overrun, and it can also be kept (`StrayKept`).
- `cJSON_Duplicate` keeps the constant-name flag on a name it has copied, so the copy's name is never freed
  (`DuplicateThenDelete`, `ConstNameStays`).
- The buffered object printer returns a pointer that is off by its own reuse of a variable when the object is nested
  and formatted; nobody uses that pointer, and at the top level it is right (`PrintValueInto`).
- The `f` directive multiplies its scale without a bound (`OverflowExactly`, `TenDigitsOverflow`), and takes a sign behind
  a leading point (`LateSignOverflows`).
- `rt_memcpy` differs from `rt_memmove` on overlapping ranges exactly as a byte loop would (`CopyIsMove`, `CopySmears`).

## Model

| member | source | states |
|---|---|---|
| `StringCodec.DecodeUnits` | software/Car_Locator/packages/cJSON-v1.0.2/cJSON.c:198-255 | a literal made of plain bytes, two-character escapes, \u escapes and surrogate pairs (section 7 of RFC 8259) is decoded to the concatenation of what its units denote: plain bytes as they are, code points as the UTF-8 of section 3 of RFC 3629; for every sequence of units and every legal spelling of each |
| `StringCodec.ParseLiteral` | software/Car_Locator/packages/cJSON-v1.0.2/cJSON.c:198-255 | a whole literal of such units, quotation marks included, is accepted with that meaning and left right behind its end |
| `StringCodec.DecodeOpen` | software/Car_Locator/packages/cJSON-v1.0.2/cJSON.c:206-255 | a literal of such units that the end of the text cuts off is read like a closed one |
| `StringCodec.AnyEscape` | software/Car_Locator/packages/cJSON-v1.0.2/cJSON.c:215-245 | a backslash and any byte but u: b, f, n, r and t stand for the control characters 8, 12, 10, 13 and 9, every other byte for itself |
| `StringCodec.CountUnits` | software/Car_Locator/packages/cJSON-v1.0.2/cJSON.c:203 | the first loop of parse_string counts one byte for a byte or a short escape, 5 for an escaped code unit and 10 for a surrogate pair |
| `StringCodec.DecodeUnit` | software/Car_Locator/packages/cJSON-v1.0.2/cJSON.c:209-249 | one unit of a literal contributes exactly what it denotes, whatever follows it |
| `StringCodec.TranscodeIsUtf8` | software/Car_Locator/packages/cJSON-v1.0.2/cJSON.c:235-243 | the masks, shifts and first-byte marks of the switch give exactly the UTF-8 encoding, written here independently from section 3 of RFC 3629, for every code point |
| `StringCodec.TranscodeRoundTrip` | software/Car_Locator/packages/cJSON-v1.0.2/cJSON.c:223-243 | the bytes stored for a \u escape decode, with a decoder written from RFC 3629, to the code point again |
| `StringCodec.CombineIsInverse` | software/Car_Locator/packages/cJSON-v1.0.2/cJSON.c:232 | the arithmetic on a surrogate pair inverts section 2.1 of RFC 2781, and every code point above U+FFFF has such a pair |
| `StringCodec.DecodeFits` | software/Car_Locator/packages/cJSON-v1.0.2/cJSON.c:203-205 | on a literal in which no escape is cut short by its end or by another escape, parse_string stays inside the text and the measuring loop never asks for too little |
| `StringCodec.MeasuredIsExact` | software/Car_Locator/packages/cJSON-v1.0.2/cJSON.c:284-287 | the measuring loop of the string printer predicts the escaped length exactly, for every byte string |
| `StringCodec.EscapeTable` | software/Car_Locator/packages/cJSON-v1.0.2/cJSON.c:294-309 | what each byte is printed as: five control characters, quotation mark and backslash with their letters, every other control character by its code in lower-case hexadecimal, all else as it is |
| `StringCodec.ParseQuoted` | software/Car_Locator/packages/cJSON-v1.0.2/cJSON.c:198-255 | parsing the literal printed for any NUL-free byte string gives back that string and ends right behind the literal |
| `StringCodec.DecodeEscape` | software/Car_Locator/packages/cJSON-v1.0.2/cJSON.c:290-311 | the printed escapes denote the string they were printed from |
| `StringCodec.EscapeDropped` | software/Car_Locator/packages/cJSON-v1.0.2/cJSON.c:222-233 | a \u escape with four characters behind it adds nothing to the string if and only if its value is zero - as it is where one of the four is no hexadecimal digit - or it is an unpaired surrogate; otherwise it adds the UTF-8 of its code point; reading goes on 6 bytes further, or 12 where any escape stands behind a high surrogate |
| `StringCodec.EscapeTakenAlong` | software/Car_Locator/packages/cJSON-v1.0.2/cJSON.c:228-231 | a letter spelled as an escape behind an unpaired high surrogate is dropped with it |
| `JsonBroken.LiteralBroken` | software/Car_Locator/packages/cJSON-v1.0.2/cJSON.c:198-255 | parse_string leaves its text or its block if and only if the first loop steps over the terminator behind a backslash, or the second loop meets the terminator within an escape, or the second loop writes more bytes than the first has counted; any of these can be only where an escape is cut short |
| `JsonBroken.DecodeWritten` | software/Car_Locator/packages/cJSON-v1.0.2/cJSON.c:206-250 | how many bytes the second loop writes, told from the escapes alone |
| `JsonBroken.DecodeLeaves` | software/Car_Locator/packages/cJSON-v1.0.2/cJSON.c:206-250 | the second loop reads behind the end of the text if and only if that end stands behind a backslash or among the four characters behind a \u, read in steps that do not depend on what the escapes mean |
| `JsonBroken.TextWhole` | software/Car_Locator/packages/cJSON-v1.0.2/cJSON.c:329-343 | the parser is defined on every text, accepted or not, in which no quotation mark starts a literal that cuts an escape short and no exponent is larger than an int |
| `JsonBroken.CutEscape` | software/Car_Locator/packages/cJSON-v1.0.2/cJSON.c:223 | a literal that is read behind the end of the text |
| `JsonBroken.FirstLoopLeaves` | software/Car_Locator/packages/cJSON-v1.0.2/cJSON.c:203 | a literal on which only the first loop leaves the text |
| `JsonBroken.CutOverflows` | software/Car_Locator/packages/cJSON-v1.0.2/cJSON.c:203-223 | a literal whose closing quotation mark is taken for a digit and that writes behind its block |
| `JsonBroken.CutAccepted` | software/Car_Locator/packages/cJSON-v1.0.2/cJSON.c:203-223 | a literal of that kind that stays inside and is accepted |
| `StringCodec.EscapeByteSpells` | software/Car_Locator/packages/cJSON-v1.0.2/cJSON.c:294-309 | each printed byte is a legal spelling of itself in the grammar of RFC 8259 |
| `StringRoutines.ParseStringAt` | software/Car_Locator/packages/cJSON-v1.0.2/cJSON.c:198-255 | the two loops of parse_string, on every text on which they stay inside (LiteralBroken): neither reads behind the terminator; success exactly where the specification succeeds, the decoded text with its terminator in a block of exactly the counted size, no byte written outside of it |
| `CText.HexTable` | software/Car_Locator/packages/cJSON-v1.0.2/cJSON.c:183-194 | the hexadecimal digits are 0 to 9, A to F and a to f, with the values 0 to 15, and no other byte is one |
| `StringRoutines.ParseHex4` | software/Car_Locator/packages/cJSON-v1.0.2/cJSON.c:183-194 | parse_hex4 gives the value of four digits and 0 where one is none, and reads nothing behind that one |
| `StringRoutines.ParseUnicodeEscape` | software/Car_Locator/packages/cJSON-v1.0.2/cJSON.c:222-244 | the \u case with its surrogate handling, on an escape that does not leave the text and for whose result there is room, writes what the escape denotes |
| `StringRoutines.StoreEncoded` | software/Car_Locator/packages/cJSON-v1.0.2/cJSON.c:235-243 | the fall-through switch stores the encoding from its last byte back to its first and touches only those bytes |
| `StringRoutines.MeasureString` | software/Car_Locator/packages/cJSON-v1.0.2/cJSON.c:262-287 | the flag loop and the measuring loop give the exact escaped length, and a string without special characters is its own escaped form |
| `StringRoutines.FillString` | software/Car_Locator/packages/cJSON-v1.0.2/cJSON.c:269-311 | the literal and its terminator fill exactly len + 3 bytes and nothing else changes |
| `JsonRoundTrip.PrintThenParse` | software/Car_Locator/packages/cJSON-v1.0.2/cJSON.c:329-349 | for every value of null, true, false, 32-bit integers, NUL-free strings, arrays and objects, both formats, with and without the check for the terminator: parsing the printed text consumes all of it and gives an equal value, with the same order and keys |
| `JsonRoundTrip.ValueTrip` | software/Car_Locator/packages/cJSON-v1.0.2/cJSON.c:363-409 | the same for a value anywhere inside a longer text, as long as nothing behind it prolongs a number |
| `JsonRoundTrip.NumberTrip` | software/Car_Locator/packages/cJSON-v1.0.2/cJSON.c:102-121 | the printed decimal of any integer is read back as that integer |
| `JsonRoundTrip.NumberRead` | software/Car_Locator/packages/cJSON-v1.0.2/cJSON.c:102-121 | every number that parse_number takes - minus, integer digits with at most one zero before others, fraction, exponent; no digits need follow a minus or an exponent mark - is read to its end, as plus or minus its digits taken as one integer, times ten to the exponent less the number of fraction digits, if and only if the exponent fits an int |
| `JsonRoundTrip.NumberStands` | software/Car_Locator/packages/cJSON-v1.0.2/cJSON.c:102-121 | whatever starts with a minus or a digit is such a number, up to where parse_number stops |
| `JsonRoundTrip.StrictStops` | software/Car_Locator/packages/cJSON-v1.0.2/cJSON.c:102-121 | a number of section 6 of RFC 8259 is one of these, and only a digit, a point or an exponent mark prolongs it |
| `JsonRoundTrip.NumberMeaning` | software/Car_Locator/packages/cJSON-v1.0.2/cJSON.c:102-121 | the same for the digits alone, which are kept exact |
| `JsonRoundTrip.LargeExponent` | software/Car_Locator/packages/cJSON-v1.0.2/cJSON.c:111 | 1e2147483648 is a number text on which the int overflows |
| `JsonRoundTrip.ItemsTrip` | software/Car_Locator/packages/cJSON-v1.0.2/cJSON.c:412-437 | a printed list of items up to its closing bracket is read back item by item |
| `JsonRoundTrip.MembersTrip` | software/Car_Locator/packages/cJSON-v1.0.2/cJSON.c:520-553 | a printed list of members up to its closing brace is read back name by name and value by value |
| `JsonGrammar.ParsesExactly` | software/Car_Locator/packages/cJSON-v1.0.2/cJSON.c:363-437 | at any place of any text: parse_value accepts with a value and an end if and only if a tree of the grammar is written there - words, numbers, literals, arrays and objects, with blanks (bytes 1 to 32) between all tokens, inside empty brackets and braces and before the colon - that means this value and ends there; the grammar is written as trees and their texts, without the parser |
| `JsonGrammar.DocumentRead` | software/Car_Locator/packages/cJSON-v1.0.2/cJSON.c:329-345 | a text of blanks, such a tree, blanks and anything else: without the check for the terminator it is accepted up to the end of the value, as cJSON_Parse does; with the check it is accepted if the text ends there, and otherwise fails at the first byte that is no blank |
| `JsonGrammar.LegalRead` | software/Car_Locator/packages/cJSON-v1.0.2/cJSON.c:329-345 | the same for every text of RFC 8259 whose exponents fit an int: legality speaks of spellings only, not of the parser |
| `JsonGrammar.PrintedRead` | software/Car_Locator/packages/cJSON-v1.0.2/cJSON.c:329-349 | the same for the printed text of any value, in both formats and both modes, with blanks around it and anything behind that does not prolong a number |
| `JsonGrammar.ValueFails` | software/Car_Locator/packages/cJSON-v1.0.2/cJSON.c:363-375 | a byte that starts no value fails where it stands; an array or an object fails where its items or members do |
| `JsonGrammar.ItemsFail` | software/Car_Locator/packages/cJSON-v1.0.2/cJSON.c:412-437 | whatever goes wrong behind any number of items of an array, the error position is where it goes wrong: at a value that fails, or at a byte behind a value that is neither comma nor bracket |
| `JsonGrammar.EntriesFail` | software/Car_Locator/packages/cJSON-v1.0.2/cJSON.c:520-553 | the same for an object: at a byte that starts no name, at a byte behind a name that is no colon, at a value that fails, or at a byte behind a value that is neither comma nor brace |
| `JsonGrammar.TextFails` | software/Car_Locator/packages/cJSON-v1.0.2/cJSON.c:329-343 | where the first value behind leading blanks fails, the text does, in both modes |
| `JsonLayout.PrintedLayout` | software/Car_Locator/packages/cJSON-v1.0.2/cJSON.c:378-664 | what printed text is: the tokens of the value in order, and, when formatted, a line with one tab for every open bracket or brace before each member and, less its own, before a closing brace (for an empty object one tab fewer), one blank behind a comma in an array, one tab behind a colon, and nothing else; unformatted, the tokens alone |
| `JsonPrinter.PrintText` | software/Car_Locator/packages/cJSON-v1.0.2/cJSON.c:348-349 | cJSON_Print and cJSON_PrintUnformatted on any tree of 32-bit integers, strings, arrays and objects return a C string that is the text of the tree's value, laid out as PrintedLayout says; its block is the one block more that is live |
| `JsonPrinter.PrintString` | software/Car_Locator/packages/cJSON-v1.0.2/cJSON.c:258-313 | print_string_ptr without a buffer allocates exactly len + 3 bytes and fills them with the literal |
| `JsonPrinter.PrintNumber` | software/Car_Locator/packages/cJSON-v1.0.2/cJSON.c:153-180 | print_number without a buffer on 32-bit integers fits the block it allocates |
| `JsonPrinter.PrintArray` | software/Car_Locator/packages/cJSON-v1.0.2/cJSON.c:440-517 | print_array in two passes writes the text of the array (PrintedLayout) into the block it has measured, and frees the texts of the entries and their table |
| `JsonPrinter.PrintEntries` | software/Car_Locator/packages/cJSON-v1.0.2/cJSON.c:476-489 | the first pass prints every entry into a block of its own and measures no less than all of them with their separators and brackets need |
| `JsonPrinter.FillItems` | software/Car_Locator/packages/cJSON-v1.0.2/cJSON.c:504-512 | the second pass lays the entries and their separators out in order - a comma, and a blank behind it when formatted - and frees each entry once |
| `JsonPrinter.PrintObject` | software/Car_Locator/packages/cJSON-v1.0.2/cJSON.c:556-664 | print_object in two passes writes the text of the object, indentation included, into the block it has measured, and frees all names, values and tables |
| `JsonPrinter.PrintMemberTexts` | software/Car_Locator/packages/cJSON-v1.0.2/cJSON.c:616-632 | the first pass prints every name and value and measures no less than the second pass will write |
| `JsonPrinter.FillMembers` | software/Car_Locator/packages/cJSON-v1.0.2/cJSON.c:646-657 | the second pass lays names, colons, values, commas, tabs and line ends out in order and frees each name and each value once |
| `JsonBuffer.Pow2gt` | software/Car_Locator/packages/cJSON-v1.0.2/cJSON.c:123 | the smears give the least power of two that is not below the argument |
| `JsonBuffer.Ensure` | software/Car_Locator/packages/cJSON-v1.0.2/cJSON.c:127-142 | the returned place has the room asked for, growing keeps everything the buffer held, and a buffer that is replaced is freed |
| `JsonBuffer.Advance` | software/Car_Locator/packages/cJSON-v1.0.2/cJSON.c:144-150 | update lands on the true end of the text |
| `JsonBuffer.Put` | software/Car_Locator/packages/cJSON-v1.0.2/cJSON.c:386-388 | ensure followed by strcpy appends the text and its terminator inside the buffer |
| `JsonBuffered.PrintValueInto` | software/Car_Locator/packages/cJSON-v1.0.2/cJSON.c:378-409 | printing into the growing buffer appends exactly the text of the value, and every write lies inside the buffer after any growth; the returned pointer is the place it started at, except for a formatted object with members, where it is the depth |
| `JsonBuffered.PrintArrayInto` | software/Car_Locator/packages/cJSON-v1.0.2/cJSON.c:451-474 | the buffered array printer appends the text of the array (PrintedLayout) |
| `JsonBuffered.PrintObjectInto` | software/Car_Locator/packages/cJSON-v1.0.2/cJSON.c:566-613 | the buffered object printer appends the text of the object, indentation included |
| `JsonBuffered.PrintBuffered` | software/Car_Locator/packages/cJSON-v1.0.2/cJSON.c:351-359 | cJSON_PrintBuffered returns exactly the text of the unbuffered printer (PrintedLayout), for every tree, both formats and every starting size, as the start of the one block more that is live |
| `Minify.MinifyPrint` | software/Car_Locator/packages/cJSON-v1.0.2/cJSON.c:741-756 | minifying the formatted text of any printable value gives its unformatted text |
| `Minify.MinPrint` | software/Car_Locator/packages/cJSON-v1.0.2/cJSON.c:741-756 | the same at any depth and anywhere inside a longer text |
| `Minify.MinQuoted` | software/Car_Locator/packages/cJSON-v1.0.2/cJSON.c:752 | string literals, with their escapes, are kept byte by byte |
| `MinifyPieces.MinifiesPieces` | software/Car_Locator/packages/cJSON-v1.0.2/cJSON.c:741-756 | on any text cut into pieces - literals, blanks, line comments that run to the first newline, block comments that run to the first star-slash, other bytes - the minifier keeps the literals and the other bytes, in order, and drops the rest; it runs past the end if a literal or a block comment is left open |
| `MinifyPieces.PiecesOf` | software/Car_Locator/packages/cJSON-v1.0.2/cJSON.c:741-756 | every text consists of such pieces, up to its end or up to a literal or block comment that is left open |
| `MinifyPieces.CommentsRemoved` | software/Car_Locator/packages/cJSON-v1.0.2/cJSON.c:741-756 | the tokens of any printable value with any blanks and comments before, between and behind them are minified to its unformatted text |
| `MinifyRoutine.MinifyInPlace` | software/Car_Locator/packages/cJSON-v1.0.2/cJSON.c:741-756 | on every text whose literals and block comments are closed: the in-place loop leaves the minified text - the pieces that stay, as MinifiesPieces says - and a terminator at the front of the buffer; its write cursor never passes its read cursor and nothing behind the written part changes |
| `MinifyRoutine.CopyLiteral` | software/Car_Locator/packages/cJSON-v1.0.2/cJSON.c:752 | the branch for literals copies everything up to the closing quotation mark, escapes included |
| `MinifyAccepted.MinifyKeepsValue` | software/Car_Locator/packages/cJSON-v1.0.2/cJSON.c:741-756 | every text that the parser accepts to its end, however laid out, all whose literals end for the parser where a scan for the closing quotation mark ends, but for a literal without that mark, is minified to a text that is accepted to its end with the same value |
| `MinifyAccepted.MinifyStaysInside` | software/Car_Locator/packages/cJSON-v1.0.2/cJSON.c:752 | on a text that the parser accepts to its end and all whose literals end for it where their quotation marks do, the minifier stays inside if and only if the text is not a single literal without its closing quotation mark |
| `MinifyAccepted.UncutStraight` | software/Car_Locator/packages/cJSON-v1.0.2/cJSON.c:198-255 | every text in which no literal cuts an escape short is of that kind |
| `MinifyAccepted.StrayKept` | software/Car_Locator/packages/cJSON-v1.0.2/cJSON.c:741-756 | the condition on the literals is one-way: a text that is not of that kind, is accepted, and is minified to itself |
| `MinifyAccepted.OpenLiteralOverruns` | software/Car_Locator/packages/cJSON-v1.0.2/cJSON.c:752 | a quotation mark and a letter: the parser accepts this text and the minifier runs past its end |
| `MinifyAccepted.CutLiteralOverruns` | software/Car_Locator/packages/cJSON-v1.0.2/cJSON.c:752 | a text with a cut escape that the parser accepts, and on which the minifier runs past the end |
| `MinifyAccepted.MinifyAcceptedText` | software/Car_Locator/packages/cJSON-v1.0.2/cJSON.c:741-756 | in place, on such a text, with no condition on the minifier's own result: the buffer then holds an accepted text of the same value |
| `MinifyMeaning.ValueKept` | software/Car_Locator/packages/cJSON-v1.0.2/cJSON.c:363-375 | inside such a text, every value parses to the same value on both sides |
| `MinifyMeaning.NumberLocal` | software/Car_Locator/packages/cJSON-v1.0.2/cJSON.c:102-121 | a number reads the same wherever it stands if nothing behind it prolongs it |
| `MinifyMeaning.DecodeLocal` | software/Car_Locator/packages/cJSON-v1.0.2/cJSON.c:206-250 | what the second loop makes of the bytes it takes does not depend on where they stand |
| `JsonHeap.Delete` | software/Car_Locator/packages/cJSON-v1.0.2/cJSON.c:87-99 | cJSON_Delete of a chain frees every block reachable by next and by the children of non-reference items exactly once (a block must be live to be freed) and nothing that is reachable only through a reference or is a constant name |
| `JsonHeap.DeleteItem` | software/Car_Locator/packages/cJSON-v1.0.2/cJSON.c:90-98 | the body of that loop frees what one item owns, and nothing else |
| `JsonHeap.Heap.NewItem` | software/Car_Locator/packages/cJSON-v1.0.2/cJSON.c:79-84 | a new item is a fresh zeroed block |
| `JsonEdit.AddItemToArray` | software/Car_Locator/packages/cJSON-v1.0.2/cJSON.c:677 | appending refines appending to the sequence of siblings; next and prev stay mutually inverse with a null prev at the head; a null item changes nothing |
| `JsonEdit.InsertItemInArray` | software/Car_Locator/packages/cJSON-v1.0.2/cJSON.c:690-691 | inserting refines insertion into the sequence, for every index, negative and too large ones included |
| `JsonEdit.DetachItemFromArray` | software/Car_Locator/packages/cJSON-v1.0.2/cJSON.c:683-684 | detaching refines removal from the sequence, returns the item without siblings, and changes nothing where there is no such item |
| `JsonEdit.ReplaceItemInArray` | software/Car_Locator/packages/cJSON-v1.0.2/cJSON.c:692-694 | replacing refines update of the sequence and frees exactly what the replaced item owned |
| `JsonEdit.CreateReference` | software/Car_Locator/packages/cJSON-v1.0.2/cJSON.c:674 | a reference item shows the value and the children of the original and owns nothing but itself |
| `JsonDuplicate.Duplicate` | software/Car_Locator/packages/cJSON-v1.0.2/cJSON.c:714-739 | cJSON_Duplicate returns a copy on wholly fresh blocks, with the same shape and item contents and no references; without recursion, just the item |
| `JsonDuplicate.CopyValue` | software/Car_Locator/packages/cJSON-v1.0.2/cJSON.c:714-739 | such a copy has the value of the original |
| `JsonDuplicate.DuplicateThenDelete` | software/Car_Locator/packages/cJSON-v1.0.2/cJSON.c:719-738 | a copy that is deleted again leaves nothing behind if and only if no named item of the original carries the constant-name flag |
| `JsonDuplicate.ConstNameStays` | software/Car_Locator/packages/cJSON-v1.0.2/cJSON.c:723-727 | an item is made, given a constant name, duplicated, and deleted together with its copy: a block stays behind |
| `JsonDuplicate.NameConstant` | software/Car_Locator/packages/cJSON-v1.0.2/cJSON.c:679 | cJSON_AddItemToObjectCS, before it adds the item, frees a name the item owns and flags the new one as constant |
| `JsonBlocks.BlocksNotOwned` | software/Car_Locator/packages/cJSON-v1.0.2/cJSON.c:87-99 | the blocks of a tree that deleting it does not free are exactly its names flagged as constant |
| `JsonReader.ParseWithOpts` | software/Car_Locator/packages/cJSON-v1.0.2/cJSON.c:329-343 | the heap parser, with and without the check for the terminator, agrees with the text grammar (ParsesExactly, DocumentRead) on every text on which the C function is defined (LiteralBroken, NumberRead, TextWhole): on success a proper tree with the value of the text, on fresh blocks that are all owned by it; on failure the error position, and every block it had allocated is freed again |
| `JsonReader.ParseThenDelete` | software/Car_Locator/packages/cJSON-v1.0.2/cJSON.c:329-343 | parsing and then deleting returns the set of live blocks to where it started, on every text, accepted or not, on which the C function is defined (LiteralBroken, NumberRead, TextWhole) |
| `JsonReader.ParseValueInto` | software/Car_Locator/packages/cJSON-v1.0.2/cJSON.c:363-375 | parse_value fills an item; also where it fails half way, what it has built is a proper tree on fresh blocks |
| `JsonReader.ParseArrayInto` | software/Car_Locator/packages/cJSON-v1.0.2/cJSON.c:412-437 | parse_array builds the chain of children in order, linked both ways |
| `JsonReader.ParseMoreItems` | software/Car_Locator/packages/cJSON-v1.0.2/cJSON.c:426-436 | the loop of parse_array: the items read so far and those still to come make up the array |
| `JsonReader.ParseObjectInto` | software/Car_Locator/packages/cJSON-v1.0.2/cJSON.c:520-553 | parse_object builds the chain of named children in order |
| `JsonReader.ParseMemberInto` | software/Car_Locator/packages/cJSON-v1.0.2/cJSON.c:529-534 | the string read for a name moves over to the name field before the value is read; no block is lost when the colon is missing |
| `JsonReader.ParseStringInto` | software/Car_Locator/packages/cJSON-v1.0.2/cJSON.c:198-255 | parse_string stores the decoded text in one new block, or leaves item and heap as they were |
| `JsonReader.ParseNumberInto` | software/Car_Locator/packages/cJSON-v1.0.2/cJSON.c:102-121 | the digit loops stop where the specification does and leave its exact mantissa and exponent, whose meaning NumberRead states; the int subscale never overflows where the exponent fits it |
| `JsonReader.Regrow` | software/Car_Locator/packages/cJSON-v1.0.2/cJSON.c:428-433 | while the value of the last child is read, the chain and the finished children stay as they are |
| `JsonWhole.PrintAndParse` | software/Car_Locator/packages/cJSON-v1.0.2/cJSON.c:329-349 | on the heap, with and without the check for the terminator: a tree that is printed and parsed again comes back as an equal tree on blocks of its own, the whole text is used up, and with the text freed nothing else is left |
| `KNumber.PrintNumber` | software/Car_Locator/rt-thread/src/kservice.c:606-775 | print_number writes the laid-out number through guarded writes |
| `KNumber.FillDigits` | software/Car_Locator/rt-thread/src/kservice.c:676-683 | the digit loop leaves the digits of the 32-bit word in reverse order in tmp, never past its 16 bytes |
| `KNumber.Divide` | software/Car_Locator/rt-thread/src/kservice.c:568-585 | divide treats its argument as unsigned and divides by 16 in every base but 10 |
| `KNumber.NumberReadsBack` | software/Car_Locator/rt-thread/src/kservice.c:606-775 | in bases 10 and 16 with a precision other than 0, the printed field reads back, with an independent reader, as the number - the most negative one included - for every width, precision and combination of flags |
| `KNumber.FieldWidth` | software/Car_Locator/rt-thread/src/kservice.c:685-772 | the output is as long as the larger of the width and sign plus the larger of digits and precision, if and only if the precision is not 0 |
| `KNumber.PrecisionZero` | software/Car_Locator/rt-thread/src/kservice.c:760 | with precision 0 the digits are left out: 5 prints as the empty text |
| `KNumber.OctalIsHexadecimal` | software/Car_Locator/rt-thread/src/kservice.c:579-582 | %o shows the octal digits of its argument if and only if the argument is below 8, since divide uses 16 for base 8 |
| `KNumber.NumeralReads` | software/Car_Locator/rt-thread/src/kservice.c:676-683 | the digits of any number evaluate back to it in any base up to 16 |
| `KNumber.TenDigits` | software/Car_Locator/rt-thread/src/kservice.c:634 | no 32-bit word has more than ten digits in base 10 or 16 |
| `KFormat.Vsnprintf` | software/Car_Locator/rt-thread/src/kservice.c:777-1040 | for every format, arguments, buffer and size: the result is the length of the one ideal output (WholeFormat, NumberDirective, TextDirective), and memory holds its first bytes, a terminator, and everything else unchanged; a buffer that would pass the end of memory ends there |
| `KFormat.StoredBytes` | software/Car_Locator/rt-thread/src/kservice.c:1027-1035 | byte for byte: the first min(n, size - 1) bytes of the ideal output, then the terminator, then what was there before |
| `KFormat.ScanDirective` | software/Car_Locator/rt-thread/src/kservice.c:820-885 | the loops over flags, width, precision and qualifier read the directive the specification reads |
| `KFormat.DirectiveReads` | software/Car_Locator/rt-thread/src/kservice.c:820-886 | however a directive is spelled - any flags in any order, width and precision left out, in digits or from the arguments, with or without qualifier - it is read as what it means |
| `KFormat.Convert` | software/Car_Locator/rt-thread/src/kservice.c:888-1025 | the switch writes the text of its conversion, which the lemmas of KFormatLaws say in plain terms, through guarded writes |
| `KFormat.PutField` | software/Car_Locator/rt-thread/src/kservice.c:890-942 | characters and strings are padded on the side the flag asks for |
| `KFormat.PlainText` | software/Car_Locator/rt-thread/src/kservice.c:810-818 | a format without directives is copied as it is |
| `KFormat.PlainPrefix` | software/Car_Locator/rt-thread/src/kservice.c:810-818 | plain text before a directive appears before the output of the rest |
| `KFormat.PlainDecimal` | software/Car_Locator/rt-thread/src/kservice.c:978-1024 | %d and %i show the decimal text of their argument, for every 32-bit argument |
| `KFormat.PlainString` | software/Car_Locator/rt-thread/src/kservice.c:913-943 | %s shows its whole argument |
| `KFormat.PrecisionCuts` | software/Car_Locator/rt-thread/src/kservice.c:913-943 | however %s is spelled, without width a precision cuts the string to that many bytes if and only if it is not 0 or the string is empty |
| `KFormat.PrecisionZeroString` | software/Car_Locator/rt-thread/src/kservice.c:919 | %.0s shows its whole argument |
| `KFormat.StringDirective` | software/Car_Locator/rt-thread/src/kservice.c:820-943 | the output of any spelling of %s is what its precision shows, in its field |
| `KFormatLaws.NumberDirective` | software/Car_Locator/rt-thread/src/kservice.c:886-1025 | the output of any spelling of a directive with d, i, u, x, X, o or p: the argument - signed for d and i, its low 16 bits behind h - written in base 10 for d, i and u and in base 16 for the others, capital letters for X only, its sign, zeros and blanks placed by flags, width and precision; p without width takes 8 and zeros |
| `KFormatLaws.TextDirective` | software/Car_Locator/rt-thread/src/kservice.c:913-943 | any spelling of %s puts out its string, or (NULL), cut to a precision that is not 0, blanks in front or behind up to the width |
| `KFormatLaws.ByteDirective` | software/Car_Locator/rt-thread/src/kservice.c:890-911 | any spelling of %c puts out the low byte of its argument in its field |
| `KFormatLaws.PercentDirective` | software/Car_Locator/rt-thread/src/kservice.c:962-1001 | a percent sign behind a directive is put out alone, whatever stands between; any unknown character is put out behind a percent sign |
| `KFormatLaws.OpenDirective` | software/Car_Locator/rt-thread/src/kservice.c:988-1001 | a directive that the end of the format cuts off puts out its percent sign |
| `KFormatLaws.WholeFormat` | software/Car_Locator/rt-thread/src/kservice.c:810-1025 | the output of any format of plain texts and directives is the output of each of them by itself, in order, each directive with the arguments that those before it have left |
| `KFormatLaws.RoomIs` | software/Car_Locator/rt-thread/src/kservice.c:800-808 | a buffer that would run past the end of memory has the room up to its last byte but one |
| `KMemory.Memset` | software/Car_Locator/rt-thread/src/kservice.c:126-197 | rt_memset with its word and four-word loops has the effect of its byte loop for every address, byte and count |
| `KMemory.SetBytesIs` | software/Car_Locator/rt-thread/src/kservice.c:186-189 | that effect is: the range holds the byte, everything else is as it was |
| `KMemory.Spread` | software/Car_Locator/rt-thread/src/kservice.c:155-159 | the word built by shifts and ors has the byte in each of its four places |
| `KMemory.Memcpy` | software/Car_Locator/rt-thread/src/kservice.c:210-280 | rt_memcpy with its word and four-word loops has the effect of its byte loop for every pair of addresses and every count, overlapping ranges included |
| `KMemory.CopyWord` | software/Car_Locator/rt-thread/src/kservice.c:249-264 | copying an aligned word equals copying four bytes in turn, also where source and destination overlap |
| `KMemory.CopyIsMove` | software/Car_Locator/rt-thread/src/kservice.c:271-272 | the copying loop delivers the old source bytes whenever the destination does not start inside the source range behind its first byte |
| `KMemory.CopySmears` | software/Car_Locator/rt-thread/src/kservice.c:271-272 | where it does start there, some memory is spoiled |
| `KMemory.Memmove` | software/Car_Locator/rt-thread/src/kservice.c:293-312 | rt_memmove delivers the old source bytes for every overlap of the two ranges and changes nothing else |
| `MinmeaCheck.Checksum` | software/Car_Locator/applications/minmea.c:30-43 | the loop computes the exclusive or of the bytes up to '*' or the end, with or without the dollar sign |
| `MinmeaCheck.Check` | software/Car_Locator/applications/minmea.c:45-86 | the loop accepts exactly the sentences the format allows: length limit, dollar sign, printing bytes, checksum, newline |
| `MinmeaCheck.AppendChecksum` | software/Car_Locator/applications/minmea.c:30-86 | appending '*' and the two digits of the checksum of a printable star-free body within the length limit passes the strict check, also with a newline behind |
| `MinmeaCheck.Appended` | software/Car_Locator/applications/minmea.c:62-78 | a checksum is accepted behind such a body if and only if it is that of the body |
| `MinmeaCheck.AcceptedExactly` | software/Car_Locator/applications/minmea.c:45-86 | minmea_check accepts a text if and only if it is at most 83 bytes long and is a dollar sign, a body of printing bytes without a star, a star with the two hexadecimal digits of the checksum of the body - which may be missing when not strict - and perhaps a line end |
| `MinmeaCheck.ChecksumParity` | software/Car_Locator/applications/minmea.c:30-43 | a bit of the checksum is set if and only if an odd number of the bytes have it set |
| `MinmeaCheck.CorruptionFails` | software/Car_Locator/applications/minmea.c:45-86 | changing any one body byte of any strictly accepted sentence to any other byte, '*', NUL and non-printing ones included, makes the strict check fail |
| `MinmeaCheck.XorChanged` | software/Car_Locator/applications/minmea.c:58-59 | changing one byte changes the exclusive or |
| `MinmeaFloat.ScanFloat` | software/Car_Locator/applications/minmea.c:159-216 | the loop of the 'f' directive, with value and scale within 32 bits throughout, on every field on which the scale is not multiplied beyond them (OverflowExactly) |
| `MinmeaFloat.FloatField` | software/Car_Locator/applications/minmea.c:159-216 | a decimal field is stored at the largest precision that fits; it fails exactly when its integer part does not fit, and the scale overflows exactly when ten digits behind the point would be used |
| `MinmeaFloat.PrecisionIsLargest` | software/Car_Locator/applications/minmea.c:176-184 | a number of fractional digits is used if and only if the value with that many digits fits in 32 bits |
| `MinmeaFloat.ScaledTruncates` | software/Car_Locator/applications/minmea.c:176-184 | what is stored is the decimal truncated toward zero |
| `MinmeaFloat.NineDigitsAreSafe` | software/Car_Locator/applications/minmea.c:185-186 | the scale overflows if and only if there are ten or more fractional digits and the value with ten of them fits; up to nine it never does |
| `MinmeaFloat.TenDigitsOverflow` | software/Car_Locator/applications/minmea.c:185-186 | 0.0000000001 is a field on which the scale overflows |
| `MinmeaDecimals.StoredExactly` | software/Car_Locator/applications/minmea.c:159-216 | at any place of any text, well formed or not: a value and a scale are stored if and only if the field is blank and both are 0, or it starts with a decimal of at most nine digits behind the point that fits in 32 bits and is that value at that scale, and behind it the field ends or, behind a point, the next digit would not fit |
| `MinmeaOverflow.OverflowExactly` | software/Car_Locator/applications/minmea.c:164-187 | at any place of any text, well formed or not, the scale overflows if and only if the field starts with blanks, sign, digits, a point and ten digits that fit in 32 bits with all of them |
| `MinmeaOverflow.LateSignOverflows` | software/Car_Locator/applications/minmea.c:170-187 | the sign may stand behind a leading point: .+0000000000 is such a field |
| `MinmeaOverflow.FewDecimalsAreSafe` | software/Car_Locator/applications/minmea.c:164-187 | a field with at most nine bytes behind any point of it never overflows the scale |
| `MinmeaOverflow.RunUndefined` | software/Car_Locator/applications/minmea.c:114-336 | the run of a scan is undefined if and only if some directive overflows its scale and all before it are applied |
| `MinmeaOverflow.NeverUndefined` | software/Car_Locator/applications/minmea.c:114-336 | no scan of a sentence whose 'f' fields have at most nine bytes behind a point is undefined, whatever else the sentence holds |
| `MinmeaScan.FieldsOfSentence` | software/Car_Locator/applications/minmea.c:88-112 | the k-th field of a sentence is the k-th of the texts between its commas, and there is none beyond the last |
| `MinmeaScan.FieldPosMeaning` | software/Car_Locator/applications/minmea.c:99-112 | on any text: the k-th field starts behind the k-th comma of the leading list of fields, and there is none where the list has fewer commas |
| `MinmeaScan.Scan` | software/Car_Locator/applications/minmea.c:92-336 | minmea_scan agrees with applying the directives one by one to the fields, missing and optional fields included - the lemmas of MinmeaLaws say what each directive stores - wherever that is not undefined (NeverUndefined, RunUndefined) |
| `MinmeaScan.RunMeaning` | software/Car_Locator/applications/minmea.c:114-336 | a scan succeeds if and only if its k-th directive other than ';' can be applied to the k-th field for every k, and then the k-th result is that conversion; what was stored before a failure is a prefix of those results |
| `MinmeaScan.ConvertField` | software/Car_Locator/applications/minmea.c:128-327 | the switch and the loops of all nine directives store what is specified for their field (MinmeaLaws), or for a field that is missing (MissingField) |
| `MinmeaLaws.CharField` | software/Car_Locator/applications/minmea.c:128-135 | c stores the first byte of the field, 0 where it is empty |
| `MinmeaLaws.DirectionField` | software/Car_Locator/applications/minmea.c:137-157 | d stores 1 for N and E, -1 for S and W, 0 for an empty field, and fails for anything else |
| `MinmeaLaws.DecimalField` | software/Car_Locator/applications/minmea.c:159-216 | f stores what FloatField and StoredExactly say |
| `MinmeaLaws.IntegerField` | software/Car_Locator/applications/minmea.c:218-229 | i stores the value of blanks, sign and digits, or the end of the 32-bit range it is beyond, and fails if a byte of the field stands behind them; without digits it stores 0 for an empty field and fails otherwise |
| `MinmeaLaws.TextField` | software/Car_Locator/applications/minmea.c:231-240 | s stores the whole field |
| `MinmeaLaws.TalkerField` | software/Car_Locator/applications/minmea.c:242-257 | t stores the five bytes behind the dollar sign and fails exactly where there is no dollar sign or one of them is no byte of the field |
| `MinmeaLaws.DateField` | software/Car_Locator/applications/minmea.c:258-280 | D stores day, month and year from the first, second and third pair of six digits, -1 each for an empty field, and fails for any other |
| `MinmeaLaws.TimeField` | software/Car_Locator/applications/minmea.c:282-319 | T stores hours, minutes and seconds in the same way, with -1 for the microseconds of an empty field |
| `MinmeaLaws.FractionField` | software/Car_Locator/applications/minmea.c:302-312 | the microseconds that T stores are the digits behind a point, cut off behind six, with missing ones as zeros, and 0 without a point |
| `MinmeaLaws.OtherField` | software/Car_Locator/applications/minmea.c:321-327 | an underscore takes any field, a letter that is no directive fails |
| `MinmeaLaws.MissingField` | software/Car_Locator/applications/minmea.c:123-327 | what each directive stores for a field that is not there: nothing before a semicolon, behind it what it stores for an empty field; t and unknown letters fail |
| `MinmeaLaws.DirectivesAre` | software/Car_Locator/applications/minmea.c:114-121 | the directives of a format are its letters in order, optional exactly behind a semicolon |
| `MinmeaScan.ScanTime` | software/Car_Locator/applications/minmea.c:282-319 | the loop over the fraction of a second and the digit checks of 'T' store what TimeField and FractionField say |
| `MinmeaScan.Microseconds` | software/Car_Locator/applications/minmea.c:302-312 | the microseconds are the fraction cut off behind six digits, with missing digits as zeros, and stay below a million |
| `EthCopy.Transmit` | software/Car_Locator/libraries/HAL_Drivers/drv_eth.c:195-239 | the bytes of all pbufs, in order and without gap or overlap, come to lie at the start of the descriptor buffers, the rest of the buffers is unchanged and framelength is the total; the frame is refused if and only if a descriptor it takes is owned by the DMA controller, and a buffer that is just full is left only for another byte |
| `EthCopy.TransmitOne` | software/Car_Locator/libraries/HAL_Drivers/drv_eth.c:205-238 | one pbuf, over as many descriptors as it takes |
| `EthCopy.Receive` | software/Car_Locator/libraries/HAL_Drivers/drv_eth.c:314-352 | the chain of pbufs takes exactly the first bytes of the descriptor buffers, in order, and exactly the descriptors of the frame's segments are handed back |
| `EthCopy.ReceiveOne` | software/Car_Locator/libraries/HAL_Drivers/drv_eth.c:320-341 | one pbuf takes the next bytes, over as many descriptors as it needs |
| `EthCopy.Loopback` | software/Car_Locator/libraries/HAL_Drivers/drv_eth.c:195-341 | what one chain sends into the ring, any other chain of the same total takes out again, however the bytes are cut into pbufs |
| `CpusLock.Safety` | software/Car_Locator/rt-thread/src/cpu.c:35-94 | over every interleaving of several CPUs: a CPU waiting for the spinlock does not hold it, a CPU about to release it does, and outside the steps in between a CPU holds it if and only if its current thread's counter is positive |
| `CpusLock.Mutex` | software/Car_Locator/rt-thread/src/cpu.c:35-94 | two CPUs are never inside at once, and a thread inside has counted exactly one level of its scheduler lock for it |
| `CpusLock.InvStep` | software/Car_Locator/rt-thread/src/cpu.c:35-94 | every step of every function keeps the invariant |
| `CpusLock.InvRun` | software/Car_Locator/rt-thread/src/cpu.c:35-94 | so does every sequence of steps |
| `CpusLock.LockKeepsInv` | software/Car_Locator/rt-thread/src/cpu.c:43-53 | taking the lock once more keeps the invariant if and only if the 16-bit counter does not overflow |
| `CpusLock.CounterIsBalance` | software/Car_Locator/rt-thread/src/cpu.c:35-94 | along any run, the counter of a thread is its locks less its unlocks, so a lock taken twice is released by the second unlock |
| `UartDma.NoneLost` | software/Car_Locator/libraries/HAL_Drivers/drv_usart.c:254-268 | over every run in which a completion is served before the next IDLE reading and before a second wrap: the reported bytes and those between last_index and the DMA position, counting a pending wrap, are all the bytes received; with completions served before their bytes are overwritten, what was delivered is what was received, in order |
| `UartDma.FromTheStart` | software/Car_Locator/libraries/HAL_Drivers/drv_usart.c:591-612 | the same from an empty receiver on, in numbers; what was received are the bytes that arrived, in order |
| `UartDma.InvStep` | software/Car_Locator/libraries/HAL_Drivers/drv_usart.c:254-268 | each arrival, IDLE reading and completion keeps the invariant |
| `UartDma.IdleConserves` | software/Car_Locator/libraries/HAL_Drivers/drv_usart.c:259-261 | an IDLE reading conserves the count if and only if the DMA position is not behind last_index |
| `UartDma.ArriveConserves` | software/Car_Locator/libraries/HAL_Drivers/drv_usart.c:559-563 | a byte is lost to the count if and only if the DMA controller wraps while a wrap is still pending |
| `UartDma.Uart.IdleIsr` | software/Car_Locator/libraries/HAL_Drivers/drv_usart.c:258-266 | the IDLE branch reports exactly what is unreported |
| `UartDma.Uart.RxCplt` | software/Car_Locator/libraries/HAL_Drivers/drv_usart.c:602-611 | the completion callback reports exactly what lies before the wrap |
| `ExtiLines.RunCalls` | software/Car_Locator/libraries/HAL_Drivers/drv_gpio.c:403-603 | after any sequence of attach, detach, enable and disable calls, each occupied handler slot holds a pin on the line of that slot, and each vector is enabled if and only if one of its lines is set in the mask |
| `ExtiLines.Lines.Attach` | software/Car_Locator/libraries/HAL_Drivers/drv_gpio.c:403-442 | attaching occupies the slot of the pin's line, succeeds again for the same handler, and is refused as busy for another |
| `ExtiLines.Lines.Detach` | software/Car_Locator/libraries/HAL_Drivers/drv_gpio.c:444-474 | detaching frees the slot of the pin's line and no other |
| `ExtiLines.Lines.IrqEnable` | software/Car_Locator/libraries/HAL_Drivers/drv_gpio.c:476-603 | enabling needs an occupied slot and sets exactly one bit; disabling clears exactly one bit; the vectors follow the mask |
| `ExtiLines.StillWanted` | software/Car_Locator/libraries/HAL_Drivers/drv_gpio.c:576-599 | the two mask tests find out whether the vector of a line that was just cleared is still needed |
| `ExtiLines.WantedTable` | software/Car_Locator/libraries/HAL_Drivers/drv_gpio.c:239-257 | which lines raise which vector: one vector for each of the lines 0 to 4, one for 5 to 9, one for 10 to 15 |
| `ExtiLines.NoneSet` | software/Car_Locator/libraries/HAL_Drivers/drv_gpio.c:578-585 | a masked group of lines is zero if and only if none of its lines is set |
| `ExtiLines.BitToBitNo` | software/Car_Locator/libraries/HAL_Drivers/drv_gpio.c:380-391 | bit2bitno gives the position of the one set bit, and -1 for anything else |
| `ExtiLines.Lines.LineOf` | software/Car_Locator/libraries/HAL_Drivers/drv_gpio.c:280-296 | a pin number, taken as a byte, has a line exactly where the table has a pin with that bit |

## Left out

- JsonPrinter.PrintText: needs trees of 32-bit integers and of strings and names that are there. `%f`, `%e` and the other floating
  point branches of `print_number` are not modelled, and `print_string_ptr` dereferences its string before it tests it.
- JsonBuffered.PrintBuffered: the same, and the text plus 21 bytes must not exceed the starting size or 2^30, the largest size
  `pow2gt` can give in an `int`.
- JsonReader.ParseWithOpts: asks that on no literal that the parser meets `parse_string` leaves the text or the block it fills, and
  that no exponent overflows its `int`; there the C function is undefined. LiteralBroken and NumberRead say exactly
  where that is, TextWhole gives a condition on the text that is enough. The same holds for ParseStringAt,
  ParseStringInto, ParseValueInto, ParseArrayInto, ParseObjectInto, ParseMemberInto and ParseThenDelete.
- The `int` counters of lengths in `parse_string` and the printers are unbounded: literals and texts of 2 GB and more are not
  modelled.
- JsonReader.ParseNumberInto: keeps the exact decimal; the conversion to `double` with `pow` and the truncation to `valueint` are
  not modelled.
- MinifyRoutine.MinifyInPlace: asks that no literal and no block comment runs past the end of the text, where the C loop would
  leave its buffer.
- MinifyAccepted.MinifyKeepsValue: asks that the literals of the text end for the parser where their quotation marks do, which is
  enough and not necessary (StrayKept); MinifyStaysInside, MinifyAcceptedText and ValueKept ask the same. It holds of
  every text in which no literal cuts an escape short (UncutStraight).
- KFormat.Vsnprintf: widths, precisions and the length of the output are unbounded integers, so overflow of the C `int`s and
  wrap-around of the write cursor at the end of memory are not modelled. Arguments are given as a function from
  position to value.
- MinmeaScan.Scan: asks that no `f` field that is reached multiplies its scale beyond 32 bits, as ScanFloat does; OverflowExactly says
  for which fields that is, RunUndefined for which scans, and NeverUndefined gives a bound on the fields that is enough.
  `strtol` is library code, modelled by what it returns.
- EthCopy.Transmit: asks that the frame fits into the descriptors of the ring, which the driver does not check.
- CpusLock.Safety: is stated on runs in which no 16-bit nesting counter overflows (LockKeepsInv: one that does breaks the
  invariant), with an atomic spinlock, and with thread switches only on CPUs that hold the lock or are booting. The
  protocol is modelled on values, as steps of a state machine, because it is about interleavings; the interrupt level
  that the functions save and restore is not modelled.
- UartDma.NoneLost: assumes what the interrupt priorities intend. The report shifts the length by eight bits into an `int` event, so the
  model is of buffers below 8 MB.
- ExtiLines.RunCalls: models the STM32F4 table of vectors; pin modes, priorities and the HAL calls are left out.
- Allocation never fails in the model, and the allocation hooks are left out.
- A string block of an item is an immutable object with its text. The texts, tables and buffers of the printers are arrays in the set
  of live blocks.
- Lookup, editing and creation of object members by name, `cJSON_Create*` and the array constructors would only add
  easy members.
- The remaining minmea functions (`minmea_rescale`, the sentence parsers, `minmea_tofloat`, `minmea_tocoord`,
  `minmea_gettime`) are left out: easy compositions, or floating point.
- PHY monitoring, device registration, register clears, logging and DMA set-up in the drivers are left out.
- The scheduler, timers, `rt_malloc`, IPC, the AT modem code and the other drivers are left out.
