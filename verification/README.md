# Verified model of luarunner's native code

This project models, in Dafny 4.11, the code luarunner puts between Go, LuaJIT and C, and proves
what that code is for. All modules stand beside each other in this directory;
`dafny verify dfyconfig.toml` verifies them.

| area | modules |
|---|---|
| byte strings, decimals, UTF-8 | `Bytes`, `Decimals`, `DecimalMeaning`, `DecimalRounding`, `Utf8` |
| the string buffer of cjson | `StrBufs` |
| the locale shim and `strtod` | `Fpconv`, `StrtodMeaning` |
| JSON: grammar, decoder | `JsonSyntax`, `JsonMeaning`, `JsonLexer`, `JsonParser`, `JsonGrammar`, `JsonReader`, `JsonDecoder`, `JsonKnown` |
| JSON: the decoder against RFC 8259 | `JsonRegroup`, `JsonTidy`, `JsonUnicode` |
| JSON: Lua tables, encoder, round trip | `LuaHeap`, `JsonEncoder`, `JsonNesting`, `JsonRoundTrip`, `JsonWritten`, `JsonLenient`, `JsonReencode`, `JsonSerializer` |
| CRC-32 | `Crc32Table`, `Crc32`, `Crc32Poly`, `Divisors`, `Crc32Powers`, `Crc32Order` |
| MurmurHash3 | `Words`, `Chains`, `KeyBlocks`, `MurmurFactors`, `MurmurMix`, `Murmur32`, `Murmur128`, `Murmur64`, `MurmurKnown` |
| the PostgreSQL hash functions | `Jenkins`, `JenkinsHash`, `JenkinsKnown` |
| the Go bridge | `GoBridge`, `GoNames` |

How it is built. Code that works by changing things step by step is imperative here as well:
`StrBufs.StrBuf`, `JsonDecoder.Parser` (cursor, depth counter, scratch buffer with unchecked
appends), `JsonSerializer.Encoder`, the hash loops and `GoBridge.LuaRunner` are methods with loops.
Each is proved equal to a function of its inputs, and the properties are proved about the
functions.

* JSON. `JsonSyntax` has concrete syntax trees that keep every byte of a text, the text of a tree,
  its nesting depth, the Lua value it means, and four grammars: `Rfc` is that of sections 2 to 7 of
  RFC 8259, byte by byte; `Relaxed` is what the decoder accepts; `Strict` keeps to both, and `Loose`
  to neither. `JsonParser` follows the recursive descent of the decoder and returns trees;
  `JsonEncoder` follows the encoder and returns trees. Numbers are exact decimals, so that `%.14g`
  and `strtod` are functions on numerals.
* `decode_invalid_numbers` is on by default (lua_cjson.c:74). `JsonParser` and `JsonGrammar` are about
  the setting off, where every accepted text has a tree. `JsonReader` follows the decoder from texts
  to values for both settings, for any behaviour of `strtod` on the texts that are no JSON numbers,
  and the imperative decoder is proved against it. The two settings agree on every text in which no
  such number is ahead (`JsonReader.OddAhead`, a condition on the tokens of the text).
* What is shared by the code and its specification is tied down from outside: what a numeral denotes
  by its digits in the real numbers (`DecimalMeaning`), rounding by the distance to all other numbers
  (`DecimalRounding`), `strtod` by the longest number there is (`StrtodMeaning`), tables of characters
  by the characters (`JsonKnown`), key names by their decimal form (`GoNames`), and the hashes by known
  digests (`JenkinsKnown`, `MurmurKnown`).
* Lua tables are maps, a heap is a map from table identities to tables, and the order in which
  `lua_next` visits a table is a parameter: any sequence of its keys without repetition.
* Hashes. Each word operation is a function with an inverse; from these come inverses of every
  step, and `Chains` turns steps that can be undone into statements about whole messages.

Where the code does more or less than its surroundings suggest, the code is followed:

* The decoder accepts more than RFC 8259: raw control bytes in strings, bytes that are not UTF-8, a
  '.' with no digit behind it ("1.") and, after a minus sign, with none before it ("-.5"); and a
  counted text is read only up to its first NUL. It also accepts less: a surrogate escaped by itself
  ("\ud800") is in the grammar of section 7, but is rejected. `JsonTidy.RfcIffTidy` and
  `JsonTidy.RfcDecodedIffPaired` say from the text alone exactly where the two differ.
* The encoder copies bytes that are not UTF-8, so that what it writes is JSON exactly if all strings
  and keys it was given are UTF-8 (`JsonUnicode.EncodedIsRfcIffUtf8`).
* With a decimal point other than '.', `fpconv_strtod` parses as with '.' unless white space stands
  in front of a number, or the decimal point is itself white space and a leading '.' is followed by
  digits that are not all zeros (".5", but not ".0") or by a sign and a digit (".+5").
  `Fpconv.LocaleAgreement` is the exact condition. The decoder only calls it at a digit or a minus
  sign, where it agrees.
* With a positive increment, `calculate_new_size` rounds the present size up to a multiple of the
  increment and does not look at the size requested, so that a buffer grows once at most
  (`StrBufs.LinearGrowsOnce`). cjson always uses the exponential growth that is the default.
* `Get` of the bridge reads a table on top of the stack whichever index it is given, and an error
  inside a table leaves slots behind on the stack (`GoBridge.LuaRunner.Get`). Keys that give one name,
  such as 1 and "1", or 1 and 1.5, lose entries (`GoBridge.LostIffNamesClash`).

## Main results

* Growth of the string buffer: `StrBufs.RunAmortized`, and for contents and sizes together
  `StrBufs.Assemble`.
* Numbers as text: `StrtodMeaning.StrtodMeans`, `DecimalRounding.PrintedIsNearest`,
  `DecimalRounding.PrintedLayout`.
* The locale shim: `Fpconv.LocaleAgreement`, `Fpconv.FpconvGFmt`.
* UTF-8: `Utf8.Utf8RoundTrip`, `Utf8.Utf8Onto`, `JsonLexer.OnlyScalarEscapes`.
* The decoder accepts exactly a grammar, unambiguously: `JsonGrammar.DecodeIffGrammar`,
  `JsonGrammar.Unambiguous`, and with the default setting `JsonLenient.SettingsAgree`.
* The decoder and RFC 8259: `JsonTidy.RfcDecodedIffPaired`, `JsonTidy.RfcIffTidy`,
  `JsonUnicode.DecodedUtf8`.
* The imperative decoder, with its unchecked appends, computes that parse with either setting:
  `JsonDecoder.DecodeText`, `JsonDecoder.Parser.NextStringToken`.
* Which tables can be encoded, on any heap: `JsonNesting.EncodedIffChainsFit`,
  `JsonNesting.CycleRejected`.
* The imperative encoder computes the encoding: `JsonSerializer.Encode`.
* Encoding and decoding: `JsonRoundTrip.RoundTrip`, `JsonLenient.DefaultRoundTrip`,
  `JsonReencode.DecodedIsEncoded`, `JsonUnicode.EncodedIsRfcIffUtf8`; and for every value that is
  encoded at all, `JsonWritten.EncodedIsShown`.
* CRC-32: `Crc32Poly.CrcIsTheRemainder`, `Crc32Poly.BurstDetected`, `Crc32Order.Order`,
  `Crc32Order.TwoBitsDetected`.
* MurmurHash3: `Murmur32.OneBlockNeverCollides`, `Murmur64.OneBlockNeverCollides`,
  `Murmur128.OneBlockNeverCollides`, and `Murmur128.SeedsNeverCollide`.
* The PostgreSQL hashes: `JenkinsHash.AbsorbBytes`, `JenkinsHash.SeedIsChunk`,
  `JenkinsHash.OneChunkMatters`, `JenkinsHash.LengthMatters`.
* The Go bridge: `GoBridge.LuaRunner.PushAndPop`, `GoBridge.LuaRunner.Get`, `GoBridge.OneReading`,
  `GoBridge.NestedIffAcyclic`, `GoNames.LostIffSameName`.

## Model

| member | source | states |
|---|---|---|
| StrBufs.GrowSize | strbuf.c:134-159 | Growth reaches what is needed; if the buffer was too small the new size is at least k times the old one and below k times what was needed. |
| StrBufs.GrowthStep | strbuf.c:134-180 | One checked append keeps the amortization invariant: size at least k^reallocs times the first size, and (k - 1) times the bytes moved so far, plus the first size, at most the size. |
| StrBufs.RunAmortized | strbuf.c:134-198 | For every run of checked appends to an empty buffer: the length is the sum of the appended lengths, growth is geometric in the number of reallocations, the size stays below k times what is stored once grown, and all reallocations together moved at most size / (k - 1) bytes. |
| StrBufs.AppendEachFits | strbuf.c:182-198 | Bytes appended one at a time into existing room never reallocate. |
| StrBufs.StrBuf.constructor | strbuf.c:44-66 | A new buffer is empty, ends in NUL, and can hold the requested length and a NUL. |
| StrBufs.StrBuf.CalculateNewSize | strbuf.c:134-159 | Shrinks to fit a smaller request; otherwise the loop, or the rounding for a positive increment, computes the size the lemmas are about. |
| StrBufs.LinearGrowsOnce | strbuf.c:145-157 | With a positive increment a buffer that has grown once never grows again: there is room for a later request if and only if it fits the first rounding. |
| StrBufs.LinearStuck | strbuf.c:145-157 | A concrete size, increment and request for which no room is made. |
| StrBufs.StrBuf.Resize | strbuf.c:164-180 | For every request: the new size, as many of the first bytes as fit, and one reallocation; the buffer is valid with the same contents if it grew. |
| StrBufs.StrBuf.EnsureEmptyLength | strbuf.h:95-99 | For every increment: the contents are unchanged, the memory is the same if there was room before, and the requested room is there afterwards if and only if growth is exponential, it was there, or the one rounding makes it. |
| StrBufs.StrBuf.AppendChar | strbuf.h:116-120 | The contents grow by the byte, the sizes as in the growth model of either kind, provided there is or comes room. |
| StrBufs.StrBuf.AppendCharUnsafe | strbuf.h:122-125 | With room for the byte and a NUL, the unchecked append adds the byte in place. |
| StrBufs.StrBuf.AppendMem | strbuf.h:127-132 | The contents grow by the bytes, the sizes as in the growth model of either kind, provided there is or comes room. |
| StrBufs.StrBuf.AppendMemUnsafe | strbuf.h:134-138 | With room for the bytes and a NUL, the unchecked append adds them in place. |
| StrBufs.StrBuf.AppendString | strbuf.c:182-198 | The C string is appended up to its NUL, with the sizes of appending byte by byte, and in place if there was room for it; provided there is or comes room. |
| StrBufs.StrBuf.AppendPieces | strbuf.c:182-198 | For every sequence of checked appends of bytes, byte strings and C strings to one buffer: the contents are what was there followed by all inputs in order, and the sizes are those of the whole run. |
| StrBufs.Assemble | strbuf.c:44-198 | A new buffer and any such sequence: the contents are the concatenation, and the sizes keep the bounds of geometric growth. |
| StrBufs.StrBuf.ExtendLength | strbuf.h:106-109 | Bytes written behind the contents become part of them. |
| Decimals.DivideHalfEven | fpconv.c:174-197 | Rounding is to nearest, ties to even: the error is at most half a unit. |
| Decimals.RoundToFits | fpconv.c:174-197 | Rounding to p significant digits gives at most p digits, and is the identity on numbers that have no more. |
| Decimals.PrintExactIsRfc | fpconv.c:174-197 | What "%.pg" prints for a finite number is a number of section 6 of RFC 8259. |
| Decimals.PrintExactValue | fpconv.c:174-197 | What is printed for a number of at most p digits has exactly that number as its value. |
| Decimals.FormatGLength | fpconv.h:3-7 | "%.14g" of a finite double is at most 21 characters long, as the comment on the buffer size claims. |
| Decimals.ScanSound | fpconv.c:106-150 | A number that is scanned stands in the text as the numeral returned. |
| Decimals.ScanComplete | fpconv.c:106-150 | Every numeral that stands in a text before something that cannot continue it is scanned, whole. |
| DecimalMeaning.NumeralMeans | fpconv.c:106-150 | The decimal found for a numeral is the number it denotes in the real numbers: its digits, each by its place, and the exponent as a power of ten. |
| DecimalMeaning.RealOfInjective | fpconv.c:106-150 | Different decimals in normal form are different real numbers, so that the number denoted settles the decimal found. |
| DecimalMeaning.ExponentMovesPoint | fpconv.c:106-150 | For all digits: an exponent with '+' or without a sign moves the point by its value to the right, one with '-' to the left. |
| DecimalRounding.NearestOnGrid | fpconv.c:174-197 | Rounding a number of more than p digits gives the nearest multiple of the unit of the p-th digit, at most half of it away, and of two that are equally near the even one. |
| DecimalRounding.NearestOfAll | fpconv.c:174-197 | No number of at most p digits, whatever its exponent, is nearer than the rounded one. |
| DecimalRounding.LeadingExponentMeans | fpconv.c:174-197 | The exponent by which the layout is chosen is that of the power of ten at or below the size of the number. |
| DecimalRounding.DoublesInRange | fpconv.c:174-197 | The numbers the printing is about are all of at least 10^-324 and less than 10^309 in size, hence all finite doubles, and zero. |
| DecimalRounding.PrintedMeans | fpconv.c:174-197 | The text printed denotes the rounded number. |
| DecimalRounding.PrintedIsNearest | fpconv.c:174-197 | The text printed denotes a number than which none of at most p digits is nearer to the number given. |
| DecimalRounding.PrintedLayout | fpconv.c:174-197 | An exponent is written if and only if the rounded number is below 10^-4 or not below 10^p; then as one digit in front, 'e', a sign and at least two digits that denote the leading exponent; no zeros end a fraction or begin an integer part. |
| Fpconv.StrtodBufferSize | fpconv.c:94-102 | The longest run of number characters. |
| Fpconv.ReplaceFirstDot | fpconv.c:137-140 | Only the first '.' of the buffer is replaced by the decimal point of the locale. |
| Fpconv.FpconvStrtod | fpconv.c:106-150 | Counting, copying, translating in place and parsing computes the shim about which the rest is proved. |
| Fpconv.LocalizedStrtod | fpconv.c:134-146 | Otherwise parsing the translated copy in the foreign locale finds the same value and length as parsing the original with '.'. |
| Fpconv.LocaleAgreement | fpconv.c:106-150 | For every text and every decimal point that is no number character, the shim returns the value and end position of the '.' parser if and only if a condition on the bytes holds: no white space stands in front of a digit, or of a '.' before a digit, their sign apart; and, with white space for a point, a leading '.' is not followed by digits other than zeros only, nor by a sign and a digit. |
| Fpconv.SpacePoint | fpconv.c:137-143 | The second exception, exactly: with white space for a point, a leading '.' of the copy is skipped. |
| Fpconv.ScannedIfStarts | fpconv.c:106-150 | A number is scanned exactly where, behind an optional sign, a digit or a '.' before a digit stands. |
| Fpconv.Disagreements | fpconv.c:106-150 | Three concrete texts on which the two differ: " 1", and with a space for a point ".5" and ".+5". |
| Fpconv.TranslateBack | fpconv.c:187-194 | Translating the foreign point back restores exactly what the '.' locale prints. |
| Fpconv.PrintedInLocale | fpconv.c:174-197 | In a locale the same text is printed but for the point. |
| StrtodMeaning.ScanLongest | fpconv.c:106-150 | Of all decimal numbers that stand at a place in a text, the longest is scanned. |
| StrtodMeaning.OneOfEachLength | fpconv.c:106-150 | Only one number of a given length stands at one place. |
| StrtodMeaning.StrtodMeans | fpconv.c:106-150 | Behind white space the longest number there is is taken: the value is what it denotes and the end lies right behind it; where there is none, the value is 0 and the position is not moved. |
| StrtodMeaning.PrintedIsReadBack | fpconv.c:174-197 | What is printed is read back, to its end, as the rounded number. |
| StrtodMeaning.UnsignedExponent | fpconv.c:106-150 | The text "1e5" is a hundred thousand. |
| StrtodMeaning.SpacesOfC | fpconv.c:106-150 | The white space that is skipped is that of isspace. |
| StrtodMeaning.NumberCharactersOfC | fpconv.c:75-90 | On bytes, the test after forcing lower case with 0x20, characters being signed, accepts exactly the number characters of the model. |
| Fpconv.FpconvGFmt | fpconv.c:174-197 | The number, printed with '.', a NUL behind it, and nothing else in the buffer changed; it always fits the 32 bytes reserved. |
| Utf8.ShiftsAreDivisions | lua_cjson.c:787-820 | The shifts and masks of codepoint_to_utf8 are the divisions and remainders the model uses. |
| Utf8.Utf8RoundTrip | lua_cjson.c:787-820 | The encoding of every Unicode scalar value is decoded, by an independent decoder after section 4 of RFC 3629, to that value and length, whatever follows. |
| Utf8.Utf8Onto | lua_cjson.c:787-820 | Everything that decoder accepts is produced by the encoder. |
| Utf8.Utf8Injective | lua_cjson.c:787-820 | Different scalar values have different encodings. |
| Utf8.MasksAreRanges | lua_cjson.c:842-876 | The surrogate masks of json_append_unicode_escape are the ranges the model uses. |
| Utf8.LowerIsOr | lua_cjson.c:756-757 | Forcing lower case is the bitwise or with 0x20. |
| Utf8.HexDigitMeans | lua_cjson.c:751-762 | A byte has the value d exactly if it writes the digit d, in either case. |
| Utf8.DecodeHex4Means | lua_cjson.c:764-783 | Four bytes have the value v exactly if they are the four digits of v, each in either case. |
| JsonLexer.ScalarEscape | lua_cjson.c:831-887 | A \u escape, or a surrogate pair of them, that writes a scalar value appends its UTF-8 encoding and advances 6 or 12 bytes. |
| JsonLexer.OnlyScalarEscapes | lua_cjson.c:831-887 | An escape is accepted if and only if it writes some scalar value; lone and misordered surrogates are errors. |
| JsonLexer.LexStringSound | lua_cjson.c:897-955 | A string that is tokenized is well formed and stands in the text, up to its closing quote. |
| JsonLexer.LexStringComplete | lua_cjson.c:897-955 | Every well formed string that stands in the text is tokenized to its own items. |
| JsonLexer.LexNumberSound | lua_cjson.c:972-1020 | A number token is a numeral of the relaxed grammar that stands in the text. |
| JsonLexer.LexNumberComplete | lua_cjson.c:972-1020 | Every numeral of the relaxed grammar before a delimiter is tokenized, whole. |
| JsonLexer.NextTokenSound | lua_cjson.c:1026-1103 | The token reported really stands behind white space only, and reading goes on right behind it. |
| JsonLexer.NextTokenComplete | lua_cjson.c:1026-1103 | Whatever token stands behind white space is the one reported. |
| JsonParser.ParseValue | lua_cjson.c:1236-1263 | A parse only moves forward and never passes the end of the text; it terminates because depth and position are bounded. |
| JsonGrammar.ValueSound | lua_cjson.c:1236-1263 | What is parsed is the text of a well formed tree, nested within the limit. |
| JsonGrammar.ValueComplete | lua_cjson.c:1236-1263 | Every well formed value within the depth limit that stands in a text is parsed back to its own tree. |
| JsonGrammar.DecodeIffGrammar | lua_cjson.c:1265-1303 | For every text, limit and tree: decoding succeeds with that tree if and only if the text passes the check of its first two bytes, is the tree written out up to its first NUL, and the tree is well formed and nested no deeper than the limit. |
| JsonGrammar.Unambiguous | lua_cjson.c:1265-1303 | No text can be read in two ways. |
| JsonGrammar.TooDeepRejected | lua_cjson.c:1133-1145 | A text of the grammar that is nested deeper than the limit is rejected. |
| JsonGrammar.TrailingTokenRejected | lua_cjson.c:1291-1299 | For every text: a value followed by white space and anything else is rejected. |
| JsonMeaning.ElementsAre | lua_cjson.c:1217-1232 | A decoded array has its values under 1, 2 and so on, in the order of the text, and no other keys. |
| JsonMeaning.MembersAre | lua_cjson.c:1165-1194 | A decoded object has exactly the names in the text, and a name given several times has its last value. |
| JsonKnown.EscapesWritten | lua_cjson.c:157-194 | The escapes of the table, byte by byte; all other bytes have none. |
| JsonKnown.TokenTable | lua_cjson.c:404-434 | The token table, by the characters. |
| JsonKnown.EscapesRead | lua_cjson.c:436-447 | The escape table, by the characters; all other bytes are no escapes. |
| JsonKnown.InvalidNumbers | lua_cjson.c:972-1006 | Exactly these are found: a plus sign, and behind an optional minus sign a leading zero, "0x", "inf" or "nan" in any case. |
| JsonKnown.BadScalars | lua_cjson.c:1066-1103 | The messages and positions for five words, numbers and strings that are not finished or not allowed. |
| JsonKnown.NoValue | lua_cjson.c:1198-1233 | The message and position for a missing value, and likewise in the next five rows. |
| JsonKnown.NoComma | lua_cjson.c:1198-1233 | For a missing comma in an array. |
| JsonKnown.NoKey | lua_cjson.c:1165-1176 | For a key that is no string. |
| JsonKnown.NoColon | lua_cjson.c:1165-1176 | For a missing colon. |
| JsonKnown.NoMemberComma | lua_cjson.c:1165-1194 | For a missing comma in an object. |
| JsonKnown.NoEnd | lua_cjson.c:1291-1299 | For something behind the value. |
| JsonKnown.OneTooDeep | lua_cjson.c:1133-1145 | The error and position where the nesting exceeds the limit. |
| JsonTidy.TrailingCommaRejected | lua_cjson.c:1147-1233 | Every text in which, outside strings, a comma stands before a closing bracket or brace is rejected. |
| JsonTidy.RfcDecodedIffPaired | lua_cjson.c:831-1303 | A text of RFC 8259 (sections 2 to 7, any four digits behind \u, and UTF-8) within the depth limit is decoded if and only if all escaped surrogates in it stand in pairs. |
| JsonTidy.RfcIffTidy | lua_cjson.c:831-1303 | For every text: it is decoded, is UTF-8 without NUL, has no raw control byte in a string and a digit on both sides of every '.' outside strings, if and only if it is a text of RFC 8259 within the depth limit with its escaped surrogates paired. |
| JsonTidy.DocumentScan | lua_cjson.c:897-1103 | One scan of the bytes of a text, which only knows whether it is in a string, finds exactly what is wrong with its tree: raw control bytes and bare dots, unpaired surrogates, or trailing commas. |
| JsonTidy.LoneSurrogateIsRejected | lua_cjson.c:850-868 | A concrete text of RFC 8259, the string "\ud800", that is rejected. |
| JsonTidy.EmptyFractionIsAccepted | lua_cjson.c:972-1020 | A concrete text, "1.", that is decoded but is not JSON. |
| JsonTidy.RawByteIsAccepted | lua_cjson.c:28-31 | A string of one byte 0x80 is decoded, though it is not UTF-8. |
| JsonTidy.ControlByteIsAccepted | lua_cjson.c:905-948 | A string of one raw control byte is decoded. |
| JsonReader.TokensAgree | lua_cjson.c:1066-1103 | The setting makes a difference to a token only where a number stands that json_is_invalid_number detects, and there is no token there with the setting off. |
| JsonReader.OffIsDecode | lua_cjson.c:1198-1303 | With the setting off, the reader returns the meaning of the tree the parser returns, or the same error. |
| JsonReader.OutcomesAgree | lua_cjson.c:1066-1303 | For every text and setting: with no odd number ahead the outcome is that with the setting off, errors included; with one ahead the setting off rejects. |
| JsonUnicode.StringUtf8 | lua_cjson.c:787-955 | The text of a string, escapes and all, is UTF-8 if and only if the bytes it means are. |
| JsonUnicode.DecodedUtf8 | lua_cjson.c:28-31 | A decoded text, up to its first NUL, is UTF-8 if and only if all strings and keys in it are. |
| JsonDecoder.JsonConfig.FillTokens | lua_cjson.c:404-434 | Filling in place gives the token table the specification uses, for all 256 bytes. |
| JsonDecoder.JsonConfig.FillEscapes | lua_cjson.c:436-447 | Filling in place gives the escape table the specification uses, for all 256 bytes. |
| JsonDecoder.WriteUtf8 | lua_cjson.c:787-820 | The buffer holds the UTF-8 encoding, in at most four bytes. |
| JsonDecoder.ItemShrinks | lua_cjson.c:1283-1289 | No character of a string decodes to more bytes than it is written with. |
| JsonDecoder.StringStep | lua_cjson.c:914-948 | One turn of the string loop keeps: what is decoded so far and what is still to be read make up the whole string. |
| JsonDecoder.ElementsStep | lua_cjson.c:1217-1232 | One turn of the array loop keeps: the entries stored and those still to be read make up the whole array, or the error. |
| JsonDecoder.MembersStep | lua_cjson.c:1165-1194 | One turn of the object loop keeps: the entries stored and those still to be read make up the whole object, or the error; the last of several members with one key wins. |
| JsonDecoder.Parser.constructor | lua_cjson.c:1268-1289 | The scratch buffer can hold as many bytes as the text has, and a NUL. |
| JsonDecoder.Parser.DecodeHexAt | lua_cjson.c:764-783 | Four digits or -1, never reading beyond the NUL. |
| JsonDecoder.Parser.FetchCodepoint | lua_cjson.c:831-880 | The code point and length of an escape, with the look-ahead for a second surrogate never passing the NUL. |
| JsonDecoder.Parser.AppendUnicodeEscape | lua_cjson.c:831-887 | The encoding is appended without a check and the cursor advances by the length of the escape, or nothing changes. |
| JsonDecoder.Parser.AppendStringItem | lua_cjson.c:914-948 | One character is appended without a check, and at most as many bytes as the cursor advances. |
| JsonDecoder.Parser.NextStringToken | lua_cjson.c:897-955 | The loop never holds more bytes than it has read of the token, so that all unchecked appends and the final NUL fit; the token is the one of the specification. |
| JsonDecoder.Parser.ReadNumber | lua_cjson.c:1008-1020 | The number at the cursor in every locale; a number JSON does not allow is read as far as strtod reads it. |
| JsonDecoder.Parser.NextNumberToken | lua_cjson.c:1008-1020 | The token and the cursor are those of the specification for both settings, in every locale. |
| JsonDecoder.Parser.NextUnknownToken | lua_cjson.c:1066-1103 | Strings, numbers and the three words, and with decode_invalid_numbers on the other numbers: token and cursor are those of the specification. |
| JsonDecoder.Parser.NextToken | lua_cjson.c:1026-1103 | With both settings the token and the cursor are those of the specification, and the cursor never passes the NUL. |
| JsonDecoder.Parser.ProcessValue | lua_cjson.c:1236-1263 | The run yields what the specification reads: its value, its error, its end, and the depth counter back where it was. |
| JsonDecoder.Parser.ParseArrayContext | lua_cjson.c:1198-1233 | The run over an array yields the elements the specification parses, numbered from 1, or its error. |
| JsonDecoder.Parser.ParseKey | lua_cjson.c:1165-1176 | A key and a colon, or the error of whichever is missing. |
| JsonDecoder.Parser.ParseObjectContext | lua_cjson.c:1147-1195 | The run over an object yields the members the specification parses, or its error. |
| JsonDecoder.Parser.ParseMemberLoop | lua_cjson.c:1165-1194 | The loop yields the members the specification parses from the first key on, or its error. |
| JsonDecoder.DecodeText | lua_cjson.c:1265-1303 | For both settings the whole run, with its mutable state, returns the value the specification reads, or its error. |
| JsonDecoder.DecodeStrictly | lua_cjson.c:1265-1303 | With the setting off it returns the meaning of the tree that the text is in the grammar, or the error of the parser. |
| LuaHeap.ScanKeysMeaning | lua_cjson.c:497-522 | The loop over the keys finishes exactly when all keys are integers of at least 1; it has then counted them and found the largest. |
| LuaHeap.ArrayLengthOrderFree | lua_cjson.c:497-538 | The decision between array and object does not depend on the order of lua_next. |
| LuaHeap.DenseIffCounted | lua_cjson.c:497-538 | Pigeonhole: there are never more items than the largest index, and equally many exactly when the keys are 1 to n. |
| LuaHeap.AcceptedArrays | lua_cjson.c:524-537 | An accepted array has the largest key as its length, at most max(safe, ratio * items), and with ratio 1 is dense if longer than the safe limit. |
| LuaHeap.IndexMeans | lua_cjson.c:503-512 | A number is an index exactly if it is one of the integers from 1 on. |
| LuaHeap.ArrayDecision | lua_cjson.c:497-538 | The whole decision in terms of the keys: an object if some key is no index; if the largest is too far from the number of keys and above the safe limit, an object where sparse arrays are converted and an error where not; otherwise an array as long as the largest key. |
| JsonEncoder.EscapeItemGood | lua_cjson.c:157-194 | The escape the table holds for a byte is valid JSON and means that byte. |
| JsonEncoder.Char2Escape | lua_cjson.c:157-194 | An escape has at most six bytes and no NUL. |
| JsonEncoder.EscapeItemsMeaning | lua_cjson.c:467-491 | The string written for any byte string is well formed and means it. |
| JsonEncoder.EscapedLength | lua_cjson.c:474-480 | At most six bytes a byte, and two quotes. |
| JsonEncoder.EncodedIsStrict | lua_cjson.c:672-713 | Whatever is encoded is a tree of the strict grammar, nested no deeper than the limit. |
| JsonWritten.ElementsWritten | lua_cjson.c:570-590 | An array is written with one element for each index, each as its value is written, a hole as null. |
| JsonWritten.MembersWritten | lua_cjson.c:630-669 | An object is written with one member for each key, in the order in which they are visited, each as its key and value are written. |
| JsonWritten.RefusedAtOnce | lua_cjson.c:540-713 | The errors for values of other types, for a table at the depth limit, for a sparse array that is not converted, and for an object whose first key is neither a string nor a number. |
| JsonWritten.WrittenCompact | lua_cjson.c:540-713 | No white space is written between tokens. |
| JsonWritten.WrittenShows | lua_cjson.c:540-713 | For every value that is encoded, the tree written means the value as JSON can show it: numbers rounded, nil and holes null, tables of indices arrays, other tables objects of the names of their keys. |
| JsonNesting.TableEncodedIff | lua_cjson.c:540-713 | A table is encoded if and only if the depth allows it, it is writable by itself, and all its values are encoded one level deeper. |
| JsonNesting.EncodedChain | lua_cjson.c:540-561 | Along every chain of tables from an encoded one, each stands within the depth limit, is writable and is encoded at its depth: success bounds the nesting. |
| JsonNesting.EncodedIffChainsFit | lua_cjson.c:540-713 | On any heap, cyclic or not, a table is encoded if and only if no chain of tables from it is longer than the depth limit and all tables on such chains are writable. |
| JsonNesting.SuccessOrderFree | lua_cjson.c:540-713 | Whether encoding succeeds does not depend on the order of lua_next. |
| JsonNesting.CycleRejected | lua_cjson.c:540-561 | If a chain of tables returns to a table, encoding its start ends in an error. |
| JsonRoundTrip.DenseTableIsArray | lua_cjson.c:497-538 | A table with the keys 1 to n, n at least 1, is an array of n under every sparse setting and order. |
| JsonRoundTrip.StringTableIsObject | lua_cjson.c:497-538 | A table with string keys only, also the empty one, is an object. |
| JsonRoundTrip.EncodedIsDecoded | lua_cjson.c:467-744 | Every encoded text is free of NUL bytes and in the strict grammar, and is decoded to the very tree it was written from if the decoder allows its depth. |
| JsonRoundTrip.RoundTrip | lua_cjson.c:467-1303 | For booleans, null, numbers that fit the precision, arbitrary byte strings, dense tables and string-keyed tables, nested within both limits, decoding the encoded text gives the value back, for every order of lua_next. |
| JsonRoundTrip.StringRoundTrip | lua_cjson.c:467-491 | Wherever a byte string has been written, and whatever follows, tokenizing yields it and stops right behind the closing quote. |
| JsonWritten.EncodedIsShown | lua_cjson.c:467-1303 | For every value that is encoded, not only those that come back unchanged: its text is decoded, to what shows the value in that sense. |
| JsonUnicode.EncodedIsRfcIffUtf8 | lua_cjson.c:467-744 | What is encoded is a text of RFC 8259 if and only if all strings and keys written are UTF-8. |
| JsonUnicode.RawByteIsWritten | lua_cjson.c:28-31 | A string of one byte 0x80 is encoded to a text that is not JSON. |
| JsonLenient.SettingsAgree | lua_cjson.c:1066-1303 | For every text, and whatever strtod makes of numbers that JSON does not allow: it is decoded with decode_invalid_numbers off if and only if it is decoded with it on and no such number is ahead in the text, that is, met among its tokens before any error; and then to the same value. |
| JsonLenient.DefaultIffGrammar | lua_cjson.c:1265-1303 | With the default setting, the texts that are decoded and have no such number ahead are exactly those of the grammar, with the value they mean. |
| JsonLenient.DefaultRoundTrip | lua_cjson.c:467-1303 | The round trip with either setting. |
| JsonLenient.EncodedIsDecodedByDefault | lua_cjson.c:467-1303 | Every encoded text within the decoder's depth limit is decoded with either setting, to the value its tree means. |
| JsonLenient.LeadingZero | lua_cjson.c:990-998 | A concrete text, "01", that has such a number ahead and on which the settings differ. |
| JsonReencode.MeaningEncodable | lua_cjson.c:1147-1233 | Whatever a text of the grammar means can be encoded, its numbers fitting the precision: arrays come back with the keys 1 to n, objects with string keys, and the nesting is no deeper. |
| JsonReencode.DecodedIsEncoded | lua_cjson.c:467-1303 | For every decoded text whose numbers fit the precision and whose nesting fits the encoder: each Lua value that represents what was decoded is encoded, in any order of traversal, and decoding that text gives the same value again. |
| JsonSerializer.ElementsTurn | lua_cjson.c:570-590 | One turn of the array loop keeps: what is written and what is still to be written make up the text of the whole, or the error. |
| JsonSerializer.MembersTurn | lua_cjson.c:630-669 | One turn of the object loop keeps: what is written and what is still to be written make up the text of the whole, or the error. |
| JsonSerializer.Encoder.AppendStringValue | lua_cjson.c:467-491 | The text of the string is appended, and nothing is reallocated after the one reservation at the start. |
| JsonSerializer.Encoder.AppendEscaped | lua_cjson.c:483-489 | One byte, escaped if the table says so, in place. |
| JsonSerializer.Encoder.AppendAllEscaped | lua_cjson.c:483-489 | With six bytes of room a byte, the loop stays in the memory it found. |
| JsonSerializer.Encoder.AppendNumber | lua_cjson.c:592-628 | The printed number is appended; 32 bytes of room are always enough for it. |
| JsonSerializer.Encoder.ArrayLengthOf | lua_cjson.c:497-538 | The loop, given up at the first key that is no index, decides as the specification. |
| JsonSerializer.Encoder.AppendData | lua_cjson.c:672-713 | Terminates on every heap; the buffer grows by exactly the text of the tree of the value, or the error is that of the specification. |
| JsonSerializer.Encoder.AppendTable | lua_cjson.c:689-697 | After the depth test, a table grows the buffer by the text of an array or object as the specification decides. |
| JsonSerializer.Encoder.AppendKey | lua_cjson.c:646-660 | A key and its colon as the specification writes them; other keys are errors. |
| JsonSerializer.Encoder.AppendArray | lua_cjson.c:570-590 | The index loop appends the text of the array, or gives the error of the specification. |
| JsonSerializer.Encoder.AppendObject | lua_cjson.c:630-669 | The traversal appends the text of the object, or gives the error of the specification. |
| JsonSerializer.Encode | lua_cjson.c:715-744 | The result is the text of the specification, whether the buffer is new or kept, and whatever it held before. |
| Crc32Table.TableIsEightSteps | crc32.c:41-130 | Each of the 256 table entries is eight steps of the bitwise generator from the index in the top byte. |
| Crc32.GenerateTable | crc32.c:41-46 | The generator program produces the table. |
| Crc32.Xcrc32 | crc32.c:163-173 | The loop computes the fold over the bytes about which the rest is proved. |
| Crc32.Compose | crc32.c:134-161 | Data may be split over several buffers, each result being the start of the next call. |
| Crc32.ByteIsEightSteps | crc32.c:163-173 | One table look-up is eight steps of bitwise division with the byte added to the top of the state. |
| Crc32.CrcIsBitwise | crc32.c:163-173 | The loop over bytes and look-ups is the loop over bits and steps. |
| Crc32.CrcLinear | crc32.c:163-173 | The check of a sum of messages is the sum of their checks. |
| Crc32.CheckValue | crc32.c:163-173 | The check of the digits from 1 to 9, started from all ones, is 0x0376e6e7. |
| Crc32Poly.DivisorTerms | crc32.c:154-161 | The divisor is x^32+x^26+x^23+x^22+x^16+x^12+x^11+x^10+x^8+x^7+x^5+x^4+x^2+x+1. |
| Crc32Poly.CrcBitsIsRemainder | crc32.c:163-173 | The steps on words are the steps of polynomial division on coefficients. |
| Crc32Poly.DivisionUnique | crc32.c:163-173 | Quotient and remainder of a division by the polynomial are unique. |
| Crc32Poly.CrcIsTheRemainder | crc32.c:163-173 | xcrc32 returns the one remainder of init * x^(8n) + M(x) * x^32 divided by the polynomial over GF(2). |
| Crc32Poly.BurstDetected | crc32.c:163-173 | Two different messages of one length whose bits differ only inside a window of 32 have different checks, for every start. |
| Crc32Poly.FourBytesDetected | crc32.c:163-173 | So do two messages that differ only in up to four neighbouring bytes, in any context. |
| Crc32Poly.StartMatters | crc32.c:163-173 | For one message, different starts give different checks. |
| Crc32Powers.PowerRaised | crc32.c:154-161 | The remainder of x^(16n) is the sixteenth power, a linear map of words, of that of x^n. |
| Crc32Powers.Powers | crc32.c:154-161 | x^(2^32-1) is 1 modulo the polynomial, and none of its powers for the five largest proper divisors of 2^32-1 is. |
| Divisors.SomePrime | crc32.c:154-161 | Every factor of 2^32-1 other than 1 is divided by one of its primes 3, 5, 17, 257 and 65537. |
| Crc32Order.Order | crc32.c:154-161 | The polynomial is primitive: x^d is 1 modulo it if and only if 2^32-1 divides d. |
| Crc32Order.TwoBitsDetected | crc32.c:163-173 | Messages of one length that differ in exactly two bits have the same check, for every start, if and only if the distance of the bits is a multiple of 2^32-1. |
| MurmurMix.Fmix32Undone | murmur3.c:45-54 | fmix32 is a permutation, with an explicit inverse. |
| MurmurMix.Fmix64Undone | murmur3.c:58-67 | fmix64 is a permutation, with an explicit inverse. |
| Murmur32.StepUndone | murmur3.c:88-99 | A turn of the block loop can be undone given the block, and the block is determined by the states before and after. |
| Murmur32.MurmurHash3 | murmur3.c:71-124 | The loop, the switch that falls through and the finalizer compute the function about which the rest is proved. |
| Murmur32.AddTail | murmur3.c:102-115 | The switch absorbs the last bytes as one little-endian word, and nothing if there are none. |
| Murmur32.SeedsPermuted | murmur3.c:71-124 | For every key the hash is a permutation of the seeds, with an explicit inverse. |
| Murmur32.FourByteKeysPermuted | murmur3.c:71-124 | For every seed it is a permutation of the 4-byte keys, with an explicit inverse. |
| Murmur32.OneBlockNeverCollides | murmur3.c:71-124 | Keys of one length that differ in one 4-byte block only, or in the tail only, never collide. |
| Murmur32.LengthMatters | murmur3.c:71-124 | Keys of different lengths that are the same blocks and reach the same state never collide. |
| MurmurKnown.EmptyKey | murmur3.c:71-124 | The digest of the empty key with the seed 1. |
| MurmurKnown.SevenLetters | murmur3.c:71-124 | The digest of a key of a block and a full tail, with a seed. |
| Murmur128.StepUndone | murmur3.c:150-172 | The four-lane turn can be undone given the block, and the block is determined by the states. |
| Murmur128.FinishUndone | murmur3.c:211-229 | The finalization is a permutation of the four words for each length. |
| Murmur128.AbsorbTellsTails | murmur3.c:175-208 | Different tails of one length lead to different states. |
| Murmur128.MurmurHash3 | murmur3.c:128-230 | The code computes the function about which the rest is proved, and writes nothing but the four words. |
| Murmur128.MixBlock | murmur3.c:152-171 | The statements of the loop compute the step that can be undone. |
| Murmur128.AddTail | murmur3.c:175-208 | The switch, falling through from the fourth lane to the first, absorbs the bytes of each lane as one word. |
| Murmur128.Finalize | murmur3.c:211-224 | The statements of the finalization compute the permutation. |
| Murmur128.SixteenByteKeysPermuted | murmur3.c:128-230 | For every seed the hash is a permutation of the 16-byte keys, with an explicit inverse. |
| Murmur128.SeedsNeverCollide | murmur3.c:128-230 | For every key, different seeds give different digests. |
| Murmur128.OneBlockNeverCollides | murmur3.c:128-230 | Keys of one length that differ in one 16-byte block only, or in the tail only, never collide. |
| Murmur128.LengthMatters | murmur3.c:128-230 | Keys of different lengths that are the same blocks and reach the same state never collide. |
| MurmurKnown.QuadDigest | murmur3.c:128-230 | The digest of a key of a block and a full tail, with a seed. |
| Murmur64.StepUndone | murmur3.c:252-265 | The two-lane turn can be undone given the block, and the block is determined by the states. |
| Murmur64.FinishUndone | murmur3.c:297-311 | The finalization is a permutation of the two words for each length. |
| Murmur64.AbsorbTellsTails | murmur3.c:267-295 | Different tails of one length lead to different states. |
| Murmur64.MurmurHash3 | murmur3.c:234-312 | The code computes the function about which the rest is proved, and writes nothing but the two words. |
| Murmur64.MixBlock | murmur3.c:254-264 | The statements of the loop compute the step that can be undone. |
| Murmur64.AddTail | murmur3.c:267-295 | The switch, falling through from the second lane to the first, absorbs the bytes of each lane as one word. |
| Murmur64.Finalize | murmur3.c:297-308 | The statements of the finalization compute the permutation. |
| Murmur64.SixteenByteKeysPermuted | murmur3.c:234-312 | For every seed the hash is a permutation of the 16-byte keys, with an explicit inverse. |
| Murmur64.SeedsNeverCollide | murmur3.c:234-312 | For every key, different seeds give different digests. |
| Murmur64.OneBlockNeverCollides | murmur3.c:234-312 | Keys of one length that differ in one 16-byte block only, or in the tail only, never collide. |
| Murmur64.LengthMatters | murmur3.c:234-312 | Keys of different lengths that are the same blocks and reach the same state never collide. |
| MurmurKnown.PairDigest | murmur3.c:234-312 | The digest of a key of a block and a full tail, with a seed. |
| Jenkins.MixReversible | hashfn.c:54-94 | mix is a permutation of the word triples, with an explicit inverse: nothing in (a, b, c) is lost. |
| Jenkins.MixWords | hashfn.c:86-94 | The eighteen assignments of mix compute that permutation. |
| Jenkins.FinalReversible | hashfn.c:96-129 | final is a permutation of the word triples, with an explicit inverse. |
| Jenkins.FinalWords | hashfn.c:120-129 | The assignments of final compute that permutation. |
| JenkinsHash.AddedIsWord | hashfn.c:178-358 | Adding the last bytes one by one, in either byte order, adds the word they make. |
| JenkinsHash.GatherWord | hashfn.c:265-279 | The bytes of an unaligned word, shifted and added, make the word an aligned machine reads. |
| JenkinsHash.AddTailAligned | hashfn.c:178-258 | The aligned switches, with whole words where there are any, add the three words of the last bytes. |
| JenkinsHash.AddTailBytes | hashfn.c:281-358 | The unaligned switches, byte by byte, add the same three words. |
| JenkinsHash.AbsorbBytes | hashfn.c:161-359 | The aligned and the unaligned path, on machines of either byte order, reach the same three words. |
| JenkinsHash.HashBytes | hashfn.c:149-365 | One digest for aligned and unaligned keys. |
| JenkinsHash.HashBytesExtended | hashfn.c:375-604 | One 64-bit digest with a seed for aligned and unaligned keys. |
| JenkinsHash.ExtendedExtends | hashfn.c:375-604 | With seed 0 the low word of the extended hash is the plain hash. |
| JenkinsHash.SeedIsChunk | hashfn.c:387-398 | A seed other than 0 counts as one more chunk of data, padded with four zero bytes, as the comment says. |
| JenkinsHash.HashBytesUint32 | hashfn.c:606-627 | The hash of the four bytes of the word, in whichever order they stand in memory. |
| JenkinsHash.HashBytesUint32Extended | hashfn.c:629-656 | The extended hash of the four bytes of the word, for every seed. |
| JenkinsHash.TagHash | hashfn.c:680-684 | The plain hash for any key size. |
| JenkinsHash.Uint32Hash | hashfn.c:686-696 | For four bytes, the result of tag_hash. |
| JenkinsHash.OneChunkMatters | hashfn.c:149-604 | Keys of one length that differ in one 12-byte chunk only, or in the last bytes only, end in different (a, b, c), for every seed and byte order. |
| JenkinsHash.LengthMatters | hashfn.c:149-604 | Keys of different lengths that are the same words end in different (a, b, c), for every seed and byte order. |
| JenkinsHash.ZerosMatter | hashfn.c:149-604 | So do a key and the key with zero bytes added to its last bytes. |
| JenkinsKnown.OneDigest | hashfn.c:606-627 | The digest of the number 1 as four bytes, on machines of either byte order. |
| JenkinsKnown.LittleDigest | hashfn.c:149-365 | The digest of a key of a chunk and eleven more bytes on a little-endian machine. |
| JenkinsKnown.BigDigest | hashfn.c:149-365 | The digest of the same key on a big-endian machine. |
| JenkinsKnown.SeededDigest | hashfn.c:375-604 | The 64-bit digest of the number 1 with a seed. |
| Chains.OneBlockMatters | murmur3.c:88-99 | For any step that keeps states and blocks apart, messages that differ in one block only end in different states. |
| Chains.BackUndoesRun | murmur3.c:88-99 | For fixed blocks, a chain of steps that can be undone is a permutation of the states. |
| GoBridge.SliceKeys | luarunner.go:175-181 | A slice comes back under exactly the keys "0" to "n-1", each with its own element. |
| GoBridge.NativeReturned | luarunner.go:215-264 | Values of nil, strings, float64, bool, non-null addresses and map[string]any come back unchanged; no key is lost even if its value is nil. |
| GoBridge.ReturnedIsNative | luarunner.go:215-264 | What comes back is made of such values only, so that pushing and popping again changes nothing more. |
| GoBridge.TableValueNotNil | luarunner.go:120-129 | A value pushed as a table value is never nil, so that setting it does not drop its key. |
| GoBridge.RepresentsKept | luarunner.go:153-159 | What has been pushed is not disturbed by tables made earlier being filled. |
| GoBridge.LuaRunner.Push | luarunner.go:116-118 | Exactly one slot is added, lower slots and existing tables are unchanged, and the slot represents the value. |
| GoBridge.LuaRunner.PushValue | luarunner.go:120-200 | One slot is added that represents the value; inside a table, nil becomes a null light userdata. |
| GoNames.NilPushed | luarunner.go:120-129 | What represents nil, a nil pointer or an unsupported value is nil by itself and a null address in a table. |
| GoBridge.LuaRunner.PushMap | luarunner.go:153-159 | A table with every key and value of the map, set in any order. |
| GoBridge.LuaRunner.PushSlice | luarunner.go:175-181 | A table numbered from 0 with every element. |
| GoBridge.LuaRunner.Next | luarunner.go:242-242 | lua_next replaces the key on top by the next key and its value, or drops it at the end. |
| GoBridge.LuaRunner.SetTable | luarunner.go:158-158 | lua_settable stores the value on top under the key below it, removes the key for nil, and pops both. |
| GoBridge.LuaRunner.ChooseOrder | luarunner.go:241-242 | A traversal may visit the keys in any order, each once. |
| GoBridge.LuaRunner.Get | luarunner.go:221-264 | For a value in which tables nest at most n deep: it succeeds if and only if only strings and numbers are keys and only values with a Go form can be reached; then the stack is left as it was and the result is a reading of the value, for a table the one on top. On an error the slots below are kept, and more slots are left if and only if the value was a table. |
| GoBridge.NestedIffAcyclic | luarunner.go:239-250 | In a closed heap such a bound exists, namely the number of tables, if and only if no chain of tables from the value returns to one of its tables. |
| GoBridge.LuaRunner.GetAcyclic | luarunner.go:221-264 | Get with that bound, for a value without cycles: success exactly if it is readable, with the stack as it was. |
| GoBridge.LuaRunner.GetTable | luarunner.go:239-260 | For a table, in every order of lua_next: a reading of it, or an error with slots left on the stack. |
| GoNames.SlotsCounted | luarunner.go:221-264 | Slots are counted from 1 upwards and from -1 downwards, and both ways meet. |
| GoBridge.SourceIsSlot | luarunner.go:221-242 | What is read is the slot asked for if and only if that is no table, or on top, or the same table. |
| GoBridge.LuaRunner.GetUnderTop | luarunner.go:221-264 | A run that reads another table: with b pushed on top of a, asking for the slot of a gives b, for all maps a and b. |
| GoBridge.LuaRunner.Pop | luarunner.go:214-218 | On success exactly one slot is removed and a reading of it is returned; after an error the slots below are kept, and after one inside a table something is left on top of them. |
| GoBridge.OneReading | luarunner.go:239-260 | Where no two keys of a table share a name, a value has one reading only, whatever the order of traversal. |
| GoBridge.LostIffNamesClash | luarunner.go:251-258 | The map has as many entries as the table if and only if no two of its keys share a name; otherwise it has fewer. |
| GoBridge.AnyMayWin | luarunner.go:251-258 | Where keys share a name, the value of each of them is in some reading. |
| GoBridge.OneIsLost | luarunner.go:251-258 | A concrete table, with the keys 1 and "1", that has two readings of one entry. |
| GoNames.ItoaIsDecimalForm | luarunner.go:255-255 | For every int exactly one text is written: a minus sign if it is negative, then the digits of its size without leading zeros. |
| GoNames.TruncatedMeans | luarunner.go:255-255 | The conversion to int gives the integer less than 1 away, towards 0. |
| GoNames.NumbersShareName | luarunner.go:251-258 | Two number keys have one name if and only if they are one integer when cut. |
| GoNames.StringSharesName | luarunner.go:251-258 | A string key has the name of a number key if and only if, up to its first NUL, it is the decimal form of the number cut to an integer. |
| GoNames.StringsAreCutOff | luarunner.go:226-227 | A string is read up to its first NUL, as a value and as a key. |
| GoNames.LostIffSameName | luarunner.go:251-258 | Entries are lost exactly where two keys are one integer when cut, one string up to the first NUL, or one of each. |
| GoBridge.PushedIsReadBack | luarunner.go:116-264 | What was pushed for any value without NUL bytes can be read, in one way, and its reading is the value that comes back. |
| GoBridge.LuaRunner.PushAndPop | luarunner.go:116-264 | Pushing and popping leaves the stack as it was and returns the value. |

## Left out

- JsonSerializer.Encoder.AppendNumber: for finite numbers; NaN and Infinity, which `encode_invalid_numbers` refuses, writes out or writes as null, are left out.
- What `strtod` makes of hexadecimal numbers, infinities and NaN: a parameter says how far it reads, and the decoded value keeps the text.
- JsonGrammar.DecodeIffGrammar: with `decode_invalid_numbers` off; for the default see `JsonLenient.DefaultIffGrammar`.
- Fpconv.FpconvStrtod: for decimal text; hexadecimal numbers, infinities and NaN, which `strtod` also reads, are outside the scanner.
- Fpconv.LocaleAgreement: for decimal text, as `Fpconv.FpconvStrtod`.
- StrtodMeaning.StrtodMeans: for decimal text, as `Fpconv.FpconvStrtod`, and for the exact value, which `strtod` rounds to a double.
- IEEE 754: numbers are exact decimals, so that overflow, subnormals, negative zero and the rounding of `strtod` to doubles are not modelled; the round trip is for numbers that fit the printed precision.
- `set_number_format`, locale detection and wide-character locales: the format is "%.pg" and the point is a parameter.
- Allocation failure, `die`, the `vsnprintf` appends of strbuf, `strbuf_set_increment` and debug output.
- StrBufs.StrBuf.AppendPieces: for exponential growth, an increment of at most -2, as cjson always has it.
- C `int` is a mathematical integer with sizes bounded where the code's arithmetic needs it; table keys beyond the int range are not truncated.
- Lua stack space (`lua_checkstack`), the texts of `luaL_error`, and the exact bytes of error messages; errors are values that carry the same data.
- Aliasing of decoded strings: the token string is a copy of the scratch buffer, not a pointer into it.
- JsonRoundTrip.RoundTrip: not for tables with keys that are neither dense indices nor strings, arrays with holes (which come back with null) and a top-level nil (which comes back as null); what comes back for all of these is in `JsonWritten.EncodedIsShown`.
- Configuration setters and getters, module registration, `cjson.safe`, `lua_ext.c`, and `lua_yyjson.c`, nearly all of whose meaning is in the yyjson library.
- MurmurHash3 on big-endian machines, where the code reads other words.
- JenkinsHash.HashBytes: a negative `keylen` is outside the model; `string_hash`, which only cuts the key off first, is left out as easy.
- JenkinsHash.OneChunkMatters: about (a, b, c) at the end, of which `hash_bytes` returns c only, so that digests of 32 bits may still collide.
- The duplicated code of `hash_bytes` and `hash_bytes_extended` is one method here, JenkinsHash.AbsorbBytes.
- Go: the loss of precision of integers beyond 2^53, conversion to int of keys outside its range, and `Call`, `Load`, `CheckFunction` and package paths. Strings with NUL bytes, which `C.GoString` cuts off, do not come back whole.
- JsonWritten.EncodedIsShown: where the names of two keys are one, as of the keys 1 and "1" of an object, it says that some key of that name is shown; `JsonWritten.MembersWritten` and `JsonMeaning.MembersAre` say that it is the one visited last.
- GoBridge.LuaRunner.Get: for values without cycles, on which it would not end; where a table is a key, only with a table for its value, as `lua_next` is undefined on anything else; the texts of errors are left out.
- GoBridge.LuaRunner.PushValue: structs, `time.Time`, maps with other key types and the other integer and float types of the switch are left out.
