# OpenThread command line: a Dafny model

This project models the parts of OpenThread that turn text into actions and actions into text,
together with the two wire-level contracts that the command line relies on, and proves what they
promise.

- **Build files** (`TextFiles`, `BuildFiles`, `BuildFileLaws`, `BuildTextLaws`, `BuildScript`,
  `BuildCalls`): the scanner of `script/update-makefiles.py` that replaces the lines between two markers.
  A file is its text, which every call reads and writes again line by line; the laws are about repeated
  updates, runs of many updates, and the calls that the script itself makes.
- **Reading a line** (`CommandLine`, `Numbers`, `Ip6Text`, `Ip6Grammar`, `LookupTable`): the in-place
  tokenizer, the number and address parsers and the binary search over the command table. Strings are C
  strings, so they hold no NUL; the tokenizer works on an explicit buffer with its terminator.
- **Argument grammars** (`PrefixArguments`, `MlrArguments`, `BackboneConfig`, `LinkMetricsArguments`,
  `PingInterval`): each loop over the arguments is proved equal to a declarative grammar, and the letters
  and keys of the grammar to their documented meaning.
- **Printing** (`HexText`, `HexDump`, `Ip6Laws`, `Netstat`, `NetworkData`, `TxtPrinting`,
  `PingStatistics`): each printer is paired with a reader, and the reader recovers what was printed. For
  prefixes and the backbone router configuration the reader is the command that takes such arguments.
- **The interpreter** (`Handlers`, `HandlerMethods`, `Interpreter`, `InterpreterRuns`, `TypedCalls`):
  dispatch, stack calls, deferred results and the SNTP flag as a state machine. `Handlers` says which stack
  call a command denotes and which error its handler returns, `HandlerMethods` proves the handlers against
  both, `Interpreter` is the class whose methods refine the steps, `InterpreterRuns` proves what holds of
  every line in every state of every run of lines and callbacks, and `TypedCalls` that every stack call can
  be typed.
- **DNS TXT records** (`TxtRecords`, `TxtEncoding`) and **CoAP retransmission** (`CoapTransmission`):
  the encoder, the iterator and the checker of TXT data against each other; the validation of the
  transmission parameters against the exchanges they lead to.

Integers of fixed width wrap explicitly (`Wrap32`, `Wrap64`, `% 0x100`). Calls into the stack, the
options of the build and the mode of the device are parameters (`stackError`, `Environment`,
`backbone`, `referenceDevice`).

## Where the code and its promises part

For each of these the model follows the code, and the lemmas named give inputs that fail and the exact
condition under which the promise holds.

- CoAP validation accepts parameters whose exchange lifetime does not fit in 32 bits, although the
  documentation demands it (`include/openthread/coap.h:866-870`): `LifetimeOverflowAccepted`,
  `LifetimeFitsIff`. In the other direction it rejects parameters that meet every documented condition:
  `DocumentedRejected`, `DocumentedAcceptedIff`.
- The maximum transmit wait divides before it multiplies and can be shorter than the wait itself:
  `MaxTransmitWaitTooShort`, `MaxTransmitWaitBoundsIff`.
- A retransmission timeout of valid parameters can be longer than a timer takes:
  `TimerDelayExceeded`, `TimerDelaysFitIff`.
- A TXT entry whose key has more than 255 characters and no value is lost, and a key with an early
  `=` is split: `LongBooleanLost`, `KeyWithEquals`, `EarlyEqualsSplits`, `EntryReadsBackIff`. An entry
  returned whole because of its long key cannot be encoded again as it is: `ReencodeIff`.
- A build file is read again before every update. An item without a line end swallows the end marker, so
  that repeating the update raises; an item that hides an end marker, on its first line or a later one,
  leaves a copy behind with every repetition: `PartialItemSwallowsEnd`, `HiddenEndMarkerAccumulates`,
  `TwoLineItemAccumulates`. Repeating an update is harmless exactly for contained items, and writes
  nothing exactly for complete lines without an end marker: `UpdateIdempotent`, `TextContainedIff`,
  `LinesContainedIff`, `RepeatWritesNothingIff`. When a later update leaves no trace of an earlier one:
  `LastWriterWins`, `EmptyLineSwallowed`.
- The text of TXT entries is ambiguous for keys that hold its punctuation: `CommaInKeyIsAmbiguous`,
  `TextReadsBackIff`.
- The line for a prefix shows four words of its address, and a flag letter that builds without backbone
  router do not accept: `SamePrefixIff` says when `prefix add` takes the line back. `bbr config` shows a
  timeout of 2^31 or more as a negative number, which is no argument: `OutputConfig`.
- `linkmetrics mgmt` reports success without sending anything for some arguments:
  `ForwardWithoutFlagsDropped`; `ProcessLinkMetricsMgmt` says exactly for which.
- The average round-trip time wraps for long totals, and the loss leaves 0..1000 when replies are
  duplicated: `AverageWraps`, `AverageExactIff`, `DuplicateReplyLoss`, `LossInRangeIff`.
- The address parser accepts more than section 2.2 of RFC 4291, such as a colon after a full address:
  `TrailingColonAccepted`, `ExtraColonsAccepted`; `ParseAddressIff` gives its exact language.
- The title of a frame dump is as wide as the rows only for lengths up to 999: `TitleWidth`.

## Model

| member | source | states |
|---|---|---|
| `TextFiles.ReadWriteIff` | script/update-makefiles.py:51-61 | Written lines are read back unchanged if and only if every one ends in its only line end, except that the last may have none. |
| `TextFiles.WriteRead` | script/update-makefiles.py:51-61 | Lines that are read can be written back to the same text, with line ends in one form. |
| `TextFiles.ReadBetween` | script/update-makefiles.py:51-61 | Text written between complete lines and an end line is read as the lines that it makes together with the end line. |
| `TextFiles.LineEndsAlike` | script/update-makefiles.py:51-55 | The line ends "\n", "\r\n" and "\r" are read alike. |
| `BuildFiles.BuildFile.constructor` | script/update-makefiles.py:51-55 | A file starts with its text and no writes. |
| `BuildFiles.BuildFile.Update` | script/update-makefiles.py:64-100 | The update succeeds exactly when the lines of the file split at a first start marker (after the search line, if one is given) and a first later end marker; then the lines written are the declarative split with the new items inside, otherwise the file is untouched; it is written exactly when its lines change. |
| `BuildFiles.RegionUnique` | script/update-makefiles.py:65-68 | At most one region fits an update. |
| `BuildFiles.ScanInvariant` | script/update-makefiles.py:79-94 | After any number of lines the phase and the output of the four-state scanner describe the part of the region seen so far. |
| `BuildFiles.ScanDecides` | script/update-makefiles.py:79-100 | The scan ends in its last state if and only if a region exists, and its output is then the declarative split. |
| `BuildFileLaws.UpdatedAgain` | script/update-makefiles.py:79-94 | Whatever lines follow the start marker, an update with the same markers replaces those up to the first that begins with the end marker, and raises if there is none. |
| `BuildTextLaws.LastWriterWins` | script/update-makefiles.py:75-100 | A second update with the same markers leaves what it would have left without the first if and only if the items of the first are contained, or, with an empty end marker, are one empty line that a carriage return at the end of the second list swallows. |
| `BuildTextLaws.EmptyLineSwallowed` | script/update-makefiles.py:51-100 | An input of that second kind. |
| `BuildTextLaws.UpdateIdempotent` | script/update-makefiles.py:75-100 | Repeating an update leaves the file as it is if and only if its items, read together with the end line, leave the end line alone and hide no end marker. |
| `BuildTextLaws.LinesContainedIff` | script/update-makefiles.py:79-92 | For items that are complete lines this means that none begins with the end marker. |
| `BuildTextLaws.TextContainedIff` | script/update-makefiles.py:79-92 | For any items without carriage returns it means that their text ends in a line end and no line of it begins with the end marker. |
| `BuildTextLaws.RepeatWritesNothingIff` | script/update-makefiles.py:99-100 | Repeating an update writes nothing if and only if its items are complete lines without an end marker. |
| `BuildTextLaws.PartialItemSwallowsEnd` | script/update-makefiles.py:79-97 | The item "x" is joined to the end line, and the next update raises. |
| `BuildTextLaws.HiddenEndMarkerAccumulates` | script/update-makefiles.py:79-92 | A file that grows with every repetition because an item is an end line. |
| `BuildTextLaws.TwoLineItemAccumulates` | script/update-makefiles.py:79-92 | A file that grows because the second line of an item is an end line. |
| `BuildFileLaws.RegionMoves` | script/update-makefiles.py:79-94 | Replacing one region shifts every region that it leaves unaffected and changes nothing else about it. |
| `BuildScript.SeparateUpdatesCommute` | script/update-makefiles.py:136-139 | Two updates of separate regions leave the same file in both orders: each region holds its own items and every other line is kept; equal end markers are allowed. |
| `BuildScript.RunIsOutcome` | script/update-makefiles.py:51-100 | A run of updates that insert complete lines, with the file read and written again each time, leaves the updated lines, or the file itself if every list was in place. |
| `BuildScript.SeparateKept` | script/update-makefiles.py:126-189 | A third update that is separate from two others leaves them separate. |
| `BuildScript.RunOrderIrrelevant` | script/update-makefiles.py:126-189 | A run of pairwise separate updates that insert complete lines succeeds and leaves the same file in every order. |
| `BuildScript.RunFixesEach` | script/update-makefiles.py:126-189 | The file that a separate run leaves is a fixed point of each of its updates, which then writes nothing. |
| `BuildScript.RunIdempotent` | script/update-makefiles.py:99-189 | Making all updates again leaves the file as it is and writes nothing. |
| `BuildCalls.CMakeIdempotent` | script/update-makefiles.py:123-126 | For any file names the list of CMakeLists.txt settles: a second run writes nothing. |
| `BuildCalls.IncludeGnIdempotent` | script/update-makefiles.py:143-146 | So does the public list of include/openthread/BUILD.gn. |
| `BuildCalls.AndroidIdempotent` | script/update-makefiles.py:153-158 | So does the list of Android.mk, whose end marker is a file name but not of a core file. |
| `BuildCalls.CoreGnSettled` | script/update-makefiles.py:133-139 | The two lists of src/core/BUILD.gn may be updated in either order, and a second run writes nothing. |
| `BuildCalls.CoreMakefileSettled` | script/update-makefiles.py:165-175 | So may the two lists of src/core/Makefile.am, which share their end marker. |
| `BuildCalls.IncludeMakefileSettled` | script/update-makefiles.py:179-189 | So may the two lists of include/Makefile.am. |
| `BuildCalls.ItemsShowNames` | script/update-makefiles.py:125-187 | Every formatted item shows its file name in full, in a column of the given width. |
| `CommandLine.ParseCmd` | src/core/utils/parse_cmdline.cpp:87-115 | Splitting in place leaves at each returned offset the C string of the corresponding argument of the line, in order and complete; it fails if and only if there are more arguments than allowed. |
| `CommandLine.DecodeCell` | src/core/utils/parse_cmdline.cpp:96-104 | One step turns an escape into its character or a separator into a terminator and leaves the rest of the raw line behind it. |
| `CommandLine.WordTest` | src/core/utils/parse_cmdline.cpp:106 | The test on the current and the previous character holds exactly where an argument starts. |
| `CommandLine.WordsAtStarts` | src/core/utils/parse_cmdline.cpp:94-111 | The arguments of a line are the words that begin at the starts. |
| `CommandLine.ArgumentsOfSpelling` | src/core/utils/parse_cmdline.cpp:46-115 | Every list of non-empty words, escaped and separated by any non-empty gaps, is read back unchanged. |
| `CommandLine.WordsNonEmpty` | src/core/utils/parse_cmdline.cpp:106-110 | No argument is empty. |
| `CommandLine.SeparatorsSplit` | src/core/utils/parse_cmdline.cpp:46-49 | A character between two plain words separates them if and only if it is a space, a tab, a carriage return or a newline. |
| `CommandLine.BackslashProtects` | src/core/utils/parse_cmdline.cpp:51-54 | A backslash keeps a separator or a backslash inside a word, and stands for itself before any other character. |
| `Numbers.ParseAsUint64` | src/core/utils/parse_cmdline.cpp:146-183 | Computing modulo 2^64, it accepts exactly the numbers below 2^64 and returns their value. Every such number is accepted in decimal digits and in hexadecimal digits after `0x` or `0X`, every larger one is rejected, and so is a prefix without digits. |
| `Numbers.Overflows` | src/core/utils/parse_cmdline.cpp:170-174 | A digit that fails one of the three tests means that the whole text is no number in range. |
| `Numbers.ScanNumber` | src/core/net/ip6_address.cpp:542-570 | The digit loop reads exactly the longest run of digits, and fails if it is empty or denotes more than the limit. |
| `Numbers.ValueOfText` | src/cli/cli.cpp:176-182 | Printed numbers read back, in both radices. |
| `Numbers.PrefixedNumberOfText` | src/core/utils/parse_cmdline.cpp:158-162 | Printed hexadecimal digits after `0x` or `0X` denote the number printed. |
| `Numbers.DigitIs` | src/core/utils/parse_cmdline.cpp:56-84 | The value of each decimal digit and of each hexadecimal digit in both cases, and of no other character. |
| `Ip6Text.FromStringIp4` | src/core/net/ip4_address.cpp:42-87 | Accepts exactly four dotted decimal bytes up to the end of the text. |
| `Ip6Text.FromString` | src/core/net/ip6_address.cpp:505-624 | The in-place parser equals the recursive reading of groups, one optional `::` and an optional dotted tail. |
| `Ip6Grammar.ParseAddressIff` | src/core/net/ip6_address.cpp:505-624 | The exact language: a text denotes an address if and only if it is an optional leading `::`, groups with any number of digits each followed by `:` or `::` and the last also by nothing, and perhaps four dotted bytes, with at most one `::` and no more groups than words; the form determines the address. |
| `Ip6Grammar.FormIsRead` | src/core/net/ip6_address.cpp:535-598 | Every form of the grammar is read as the address it denotes, or rejected if its words are too few. |
| `Ip6Grammar.ReadIsForm` | src/core/net/ip6_address.cpp:535-598 | Every accepted text is a form of the grammar. |
| `Ip6Text.Complete` | src/core/net/ip6_address.cpp:600-620 | The end of the parser fills the gap and appends the dotted bytes. |
| `Ip6Text.FillGap` | src/core/net/ip6_address.cpp:606-609 | Moving the words and clearing their old place inserts zeros exactly where `::` stood. |
| `Ip6Laws.ParsePrinted` | src/cli/cli.cpp:176-182 | The parser reads every printed address back. |
| `Ip6Laws.PrintedBytesReadBack` | src/cli/cli.cpp:176-182 | Sixteen bytes survive printing and reading. |
| `Ip6Laws.ParseFullForm` | src/core/net/ip6_address.cpp:505-624 | The full form and the form with a dotted tail (section 2.2 of RFC 4291) denote the address they spell. |
| `Ip6Laws.ParseCompressedForm` | src/core/net/ip6_address.cpp:525-610 | Any run of zero words may be written `::`, with or without a dotted tail. |
| `Ip6Laws.ExtraColonsAccepted` | src/core/net/ip6_address.cpp:587-604 | A full address is also accepted with a colon or `::` after it, or `::` before it. |
| `Ip6Laws.TrailingColonAccepted` | src/core/net/ip6_address.cpp:587-597 | "1:2:3:4:5:6:7:8:" is accepted. |
| `Ip6Laws.NoColonNoAddress` | src/core/net/ip6_address.cpp:582-604 | A text without a colon is no address. |
| `Netstat.OutputSocketAddress` | src/cli/cli.cpp:2896-2919 | The returned length is that of the printed text. What follows its last colon is `*` if and only if the port is 0, and otherwise decimal digits with the value of the port. |
| `Netstat.SocketTextReadsBack` | src/cli/cli.cpp:2896-2919 | The text determines address and port, by a reader that takes `*` and no number for port 0. |
| `Netstat.SocketTextFits` | src/cli/cli.cpp:2859-2919 | No socket text is longer than the 45 columns of a cell. |
| `Netstat.ColumnIsTight` | src/cli/cli.cpp:2859-2919 | One socket text is exactly that long. |
| `Netstat.OutputCell` | src/cli/cli.cpp:2871-2887 | A padded cell is 45 wide and its text is the socket address, with the port or `*` after the last colon. |
| `Netstat.ProcessNetstat` | src/cli/cli.cpp:2859-2894 | There is one line for each socket, every line is as wide as the header, and its two cells show the two addresses and ports, `*` exactly for port 0. |
| `NetworkData.OutputPrefix` | src/cli/cli_network_data.cpp:56-120 | The arguments of the printed line, without the last, describe to `prefix add` the flags, the preference, the length and the first four words of the prefix, and are rejected exactly if the domain prefix flag is set in a build that does not know it; the last argument shows the node in four digits. |
| `NetworkData.OutputFlags` | src/cli/cli_network_data.cpp:63-106 | Prints the documented letters of exactly the flags that are set. |
| `NetworkData.LettersNameFlags` | src/cli/cli.cpp:3386-3430 | These letters name the same flags to `prefix add`, unless the build does not know `D` and it is among them. |
| `NetworkData.PrefixReadsBack` | src/cli/cli_network_data.cpp:58-61 | The printed prefix is read as an argument with the same length and first four words. |
| `NetworkData.SamePrefixIff` | src/cli/cli.cpp:3357-3438 | The configuration comes back unchanged if and only if the last four words are zero and the build knows all its flags. |
| `PingInterval.ParsePingInterval` | src/cli/cli.cpp:202-246 | Accepts exactly digits with at most one dot; the result is the number of milliseconds rounded down, modulo 2^32. |
| `PingInterval.MillisecondsSplit` | src/cli/cli.cpp:212-235 | Rounding down the decimal number equals adding whole seconds and the first three weighted decimals. |
| `PingInterval.ExtraDecimalsIgnored` | src/cli/cli.cpp:212-235 | Decimals past the third never matter. |
| `PingInterval.SpellingReadsBack` | src/cli/cli.cpp:202-246 | Every number of milliseconds has a spelling with three decimals that denotes it. |
| `HexText.OutputBytes` | src/cli/cli.cpp:163-169 | Prints two digits for each byte, in order. |
| `HexText.HexOfConcat` | src/cli/cli.cpp:163-169 | Printing in pieces prints the whole. |
| `HexText.ParseAsHexString` | src/core/utils/parse_cmdline.cpp:276-337 | Succeeds if and only if the text decodes to exactly the wanted number of bytes, an odd first digit standing alone; then the buffer holds them, and nothing past them is written. |
| `HexText.HexReadsBack` | src/core/utils/parse_cmdline.cpp:288-337 | Printed bytes decode to the same bytes. |
| `HexText.OddDigitAlone` | src/core/utils/parse_cmdline.cpp:288-337 | A single digit in front of printed bytes is read as a byte of its own. |
| `HexText.OutputPayload` | src/cli/cli.cpp:4826-4837 | Printing through a 16-byte buffer prints the hexadecimal text of the whole payload, for every length and offset. |
| `HexDump.OutputRow` | src/cli/cli.cpp:3310-3345 | A row has its bars, sixteen hexadecimal cells and sixteen glyphs where the layout puts them. |
| `HexDump.HexColumn` | src/cli/cli.cpp:3312-3322 | Each cell is the byte in two upper-case digits, or two dots past the end. |
| `HexDump.GlyphColumn` | src/cli/cli.cpp:3326-3343 | Each glyph is the printable character, `?`, or a dot past the end. |
| `HexDump.PaddingIsSuffix` | src/cli/cli.cpp:3312-3322 | A cell is padding if and only if it lies past the end of the frame. |
| `HexDump.GlyphsShowBytes` | src/cli/cli.cpp:3326-3343 | In every row a byte from 32 to 126 is shown as the character with that code, any other byte as `?`, and a dot stands past the end of the frame. |
| `HexDump.RowsReadBack` | src/cli/cli.cpp:3308-3346 | Reading the cells of the rows in order gives the frame. |
| `HexDump.TitleWidth` | src/cli/cli.cpp:3294-3306 | The title is 83 wide if and only if the length has at most three digits. |
| `HexDump.TitleShowsLength` | src/cli/cli.cpp:3294-3306 | The title shows the length of the frame in decimal, right-aligned before the bracket. |
| `HexDump.HandleLinkPcapReceive` | src/cli/cli.cpp:3288-3354 | The dump has a title, ceil(length / 16) rows of width 83 that read back to the frame, and a rule of the same width. |
| `TxtRecords.TxtEntryIterator.constructor` | src/core/net/dns_types.cpp:801-806 | The iterator starts at the first byte. |
| `TxtRecords.TxtEntryIterator.GetNextEntry` | src/core/net/dns_types.cpp:808-877 | Successive calls return the entries of the data in order and then, for ever, whether the data ended or was cut short; every returned entry moves the position forward. |
| `TxtRecords.SplitString` | src/core/net/dns_types.cpp:838-870 | The key loop separates "key", "key=value" and strings with a key over nine bytes. |
| `TxtRecords.KeysUpToNine` | src/core/net/dns_types.cpp:838-870 | With and without value, a key of up to nine bytes is returned apart, and a longer one with the whole string. |
| `TxtRecords.ReadAllEnd` | src/core/net/dns_types.cpp:822-873 | Reading ends normally if and only if the data consists of whole strings. |
| `TxtRecords.VerifyTxtData` | src/core/net/dns_types.cpp:1015-1039 | The byte counter accepts exactly the non-empty data that the iterator reads to its end. |
| `TxtEncoding.AppendEntries` | src/core/net/dns_types.cpp:916-933 | Appends the encodings of all entries, or one empty string if there is nothing to append; fails if and only if an entry has no encoding. |
| `TxtEncoding.EntriesReadBack` | include/openthread/dns.h:74-141 | Iterating over an encoded list returns the list: "key", "key=" and "key=value" stay distinct, an entry with a long key comes back whole with a null key, and already encoded data comes back as its entries. |
| `TxtEncoding.ReadConcat` | src/core/net/dns_types.cpp:808-877 | Well-formed data followed by other data is read as the entries of both. |
| `TxtEncoding.EntryReadsBackIff` | src/core/net/dns_types.cpp:879-914 | One encoded entry reads back if and only if its key has no `=` among the bytes scanned for one and, without a value, fits the length byte. |
| `TxtEncoding.LongBooleanLost` | src/core/net/dns_types.cpp:895-900 | A longer key without value gets length byte 0. |
| `TxtEncoding.EarlyEqualsSplits` | src/core/net/dns_types.cpp:840-846 | A key with an early `=` does not read back. |
| `TxtEncoding.KeyWithEquals` | src/core/net/dns_types.cpp:840-846 | The entry "a=b" without value is read as key "a" with value "b". |
| `TxtEncoding.ReencodeIff` | include/openthread/dns.h:87-131 | Encoding a returned entry restores its string if and only if it was returned with a key. |
| `TxtEncoding.EmptyRecord` | src/core/net/dns_types.cpp:926-929 | The empty string that stands for no content holds no entry. |
| `TxtPrinting.OutputDnsTxtData` | src/cli/cli.cpp:1327-1370 | Prints exactly the entries that can be read, in order, with ", " between two of them and nowhere else. A reader that splits at commas, takes what precedes the first `=` as key and decodes the rest recovers the entries from the text if and only if they are plain. |
| `TxtPrinting.TextReadsBackIff` | src/cli/cli.cpp:1327-1370 | For any list of entries the text determines the list if and only if no key holds `=` or a comma or starts with a bracket, no entry lacks both key and value, and the list is not a single empty key. |
| `TxtPrinting.ItemReadsBackIff` | src/cli/cli.cpp:1344-1364 | The same of one item: null key, "key", "key=" and "key=value" stay distinct. |
| `TxtPrinting.CommaInKeyIsAmbiguous` | src/cli/cli.cpp:1338-1364 | The keys "a" and "b" print like the one key "a, b". |
| `CoapTransmission.MultiplyExact` | src/core/coap/coap.cpp:1590-1602 | Dividing back detects every overflow of a product. |
| `CoapTransmission.IsValidIff` | src/core/coap/coap.cpp:1604-1621 | Which parameters pass validation, in unbounded arithmetic: those that fit, and those whose sum wraps all the way round. |
| `CoapTransmission.SpanExact` | src/core/coap/coap.cpp:1640-1644 | Spans of parameters that fit are computed without wrapping, and stay within the longest wait. |
| `CoapTransmission.LifetimeFitsIff` | include/openthread/coap.h:866-870 | For valid parameters the exchange lifetime fits in 32 bits, and is computed exactly, if and only if the acknowledgement timeout leaves room for the latency. |
| `CoapTransmission.LifetimeOverflowAccepted` | src/core/coap/coap.cpp:1617-1632 | Valid parameters whose exchange lifetime overflows. |
| `CoapTransmission.DocumentedAcceptedIff` | include/openthread/coap.h:866-870 | Parameters that meet the documented conditions are accepted if and only if the timeout is not below its minimum and the product before the division and the sum fit in 32 bits. |
| `CoapTransmission.DocumentedRejected` | src/core/coap/coap.cpp:1612-1617 | Parameters that meet every documented condition and are rejected. |
| `CoapTransmission.InitialBound` | src/core/coap/coap.cpp:1623-1627 | The largest initial timeout is computed exactly, and all its doublings together stay within the longest wait. |
| `CoapTransmission.RunOfExchange` | src/core/coap/coap.cpp:439-449 | For all parameters that meet the documented constraint and every initial timeout up to the acknowledgement timeout times the random factor: after any number of retransmissions the 32-bit timeout is the exact power-of-two multiple, and the waits add up exactly. |
| `CoapTransmission.TotalWait` | include/openthread/coap.h:450-452 | Every such exchange ends within 32 bits of milliseconds, and within the documented product. |
| `CoapTransmission.ValidExchange` | src/core/coap/coap.cpp:290-307 | So do all exchanges of validated parameters with the initial timeouts that the code draws. |
| `CoapTransmission.MaxTransmitWaitBoundsIff` | src/core/coap/coap.cpp:1635-1644 | The computed maximum bounds the wait of every exchange if and only if the remainders of the two divisions compare the right way. |
| `CoapTransmission.MaxTransmitWaitTooShort` | src/core/coap/coap.cpp:1635-1644 | Valid parameters whose maximum is shorter than a wait. |
| `CoapTransmission.TimerDelaysFitIff` | src/core/common/timer.hpp:80 | All timeouts of all exchanges are delays that a timer takes if and only if the largest initial timeout, doubled to the end, is. |
| `CoapTransmission.TimerDelayExceeded` | src/core/coap/coap.cpp:1623-1627 | Valid parameters with a timeout that is too long for a timer. |
| `PrefixArguments.ProcessPrefixAdd` | src/cli/cli.cpp:3357-3438 | The prefix is added if and only if every option is a keyword or made of flag letters, with the union of all flags and the last keyword; otherwise nothing is added. Which letter sets which flag, and which keyword which preference, is fixed by the rows of `NetworkData`. |
| `PrefixArguments.ApplyOption` | src/cli/cli.cpp:3372-3431 | One argument is accepted exactly when it is a keyword or made of flag letters; a keyword sets only the preference, letters add only flags. |
| `PrefixArguments.ParseFlagLetters` | src/cli/cli.cpp:3386-3430 | The letter loop accepts exactly flag letters and adds all the flags that they name (`NetworkData.LettersNameFlags`). |
| `PrefixArguments.KeywordsAreNotFlags` | src/cli/cli.cpp:3370-3431 | No keyword can be spelled with flag letters. |
| `PrefixArguments.OnlyLettersAndKeywordsMatter` | src/cli/cli.cpp:3370-3431 | Acceptance and configuration depend only on which letters occur and on the sequence of keywords. |
| `PrefixArguments.SplitFlags` | src/cli/cli.cpp:3384-3431 | Splitting or merging flag arguments changes neither acceptance nor configuration. |
| `PrefixArguments.MoveFlags` | src/cli/cli.cpp:3370-3431 | Nor does moving a flag argument past any other arguments. |
| `MlrArguments.ProcessMlrReg` | src/cli/cli.cpp:2564-2598 | The stack is called exactly for the argument lists that split into 1 to 15 addresses and an optional timeout, with those addresses in order; the address array is never written past its end. |
| `MlrArguments.NumberIsNoAddress` | src/cli/cli.cpp:2573-2588 | No argument is both a number and an address. |
| `MlrArguments.DenotationUnique` | src/cli/cli.cpp:2564-2592 | The split is unique. |
| `BackboneConfig.ProcessConfig` | src/cli/cli.cpp:486-519 | The configuration is set if and only if the arguments are complete valid pairs, and then every key has its last value and every other field is kept. |
| `BackboneConfig.AppliedUnique` | src/cli/cli.cpp:497-519 | The pairs determine the configuration. |
| `BackboneConfig.DifferentKeysCommute` | src/cli/cli.cpp:497-517 | Neighbouring pairs with different keys may be exchanged. |
| `BackboneConfig.OutputConfig` | src/cli/cli.cpp:488-493 | The keys and values of the printed lines, given back as arguments, set the same configuration, and are rejected if and only if the timeout is 2^31 or more. |
| `BackboneConfig.PairsReadBack` | src/cli/cli.cpp:490-517 | The pairs for the three keys, whatever was set before, set the three fields. |
| `LinkMetricsArguments.ParseLinkMetricsFlags` | src/cli/cli.cpp:2325-2358 | Accepts exactly texts of the letters `pqmr` and returns the metrics that these letters stand for in the documentation. |
| `LinkMetricsArguments.ParseSeriesFlags` | src/cli/cli.cpp:2383-2412 | Accepts texts of the letters `ldra`, or `X` when it is the whole text and the last argument, and returns the frame types that these letters stand for in the documentation. |
| `LinkMetricsArguments.MetricsAsDocumented` | src/cli/README.md:1268-1272 | Each metric is named if and only if its letter occurs, and no other letter is accepted. |
| `LinkMetricsArguments.SeriesFlagsAsDocumented` | src/cli/README.md:1262-1266 | The same for the frames to be accounted. |
| `LinkMetricsArguments.ProcessForward` | src/cli/cli.cpp:2373-2423 | The forward branch of the next row. |
| `LinkMetricsArguments.ProcessEnhancedAck` | src/cli/cli.cpp:2424-2457 | The enhanced-ack branch of the next row. |
| `LinkMetricsArguments.ProcessLinkMetricsMgmt` | src/cli/cli.cpp:2360-2461 | A request is sent if and only if the arguments denote one, and it is that one; without a request the result is no error exactly for the listed argument shapes. |
| `LinkMetricsArguments.RequestUnique` | src/cli/cli.cpp:2360-2461 | Arguments denote at most one request. |
| `LinkMetricsArguments.RequestsCanBeTyped` | src/cli/README.md:1220-1272 | Every request of the three forms is denoted by its arguments in the documented order. |
| `LinkMetricsArguments.ForwardWithoutFlagsDropped` | src/cli/cli.cpp:2378 | An address followed by `forward` alone is dropped without an error. |
| `LinkMetricsArguments.NullMetricsIffNoFlags` | include/openthread/link_metrics.h:178-180 | In a forward request with a non-empty flags argument, null metrics, no series flags, and the text `X` with four arguments mean the same. |
| `LinkMetricsArguments.NullMetricsOnCommandLine` | include/openthread/link_metrics.h:178-180 | For every request that comes from a command line the metrics are null exactly when no flag is set. |
| `PingStatistics.Statistics.constructor` | src/core/utils/ping_sender.hpp:73-86 | Cleared statistics summarise no reply. |
| `PingStatistics.Statistics.HandleReply` | src/core/utils/ping_sender.cpp:216-219 | After every reply the fields hold count, total, minimum and maximum of all times so far. |
| `PingStatistics.SumBound` | src/core/utils/ping_sender.cpp:216-217 | The total does not wrap before the count does. |
| `PingStatistics.AverageExactIff` | src/cli/cli.cpp:3163-3179 | The average is exact if and only if 1000 times the total fits in 32 bits. |
| `PingStatistics.AverageWraps` | src/cli/cli.cpp:3174 | A total for which the average comes out as 0. |
| `PingStatistics.AverageBetween` | src/cli/cli.cpp:3163-3179 | It then lies between 1000 times the minimum and 1000 times the maximum. |
| `PingStatistics.SummaryIsConsistent` | src/cli/cli.cpp:3172-3176 | For statistics that summarise any series of fewer than 2^16 replies, the average is then exact and lies between their own minimum and maximum. |
| `PingStatistics.LossInRangeIff` | src/cli/cli.cpp:3163-3179 | The loss lies in 0..1000 if and only if replies exceed requests by less than a thousandth. |
| `PingStatistics.DuplicateReplyLoss` | src/cli/cli.cpp:3168-3169 | The loss for one request that is answered twice. |
| `PingStatistics.LossMonotone` | src/cli/cli.cpp:3163-3179 | Without duplicates the loss never rises with more replies, and is total only without any. |
| `PingStatistics.LossExact` | src/cli/cli.cpp:3168-3169 | Without duplicates the loss is the ratio of lost requests, rounded down to a tenth of a percent. |
| `LookupTable.StrcmpIsOrder` | src/core/utils/lookup_table.hpp:135-140 | The compile-time order of names and the run-time comparison agree. |
| `LookupTable.SortedPairs` | src/core/utils/lookup_table.hpp:129-133 | Order of neighbours is order of all pairs. |
| `LookupTable.SortedDistinct` | src/cli/cli.hpp:800 | A sorted table names every command once. |
| `LookupTable.BuildMembers` | src/cli/cli.hpp:628-798 | A build knows exactly the names of its enabled entries. |
| `LookupTable.BuildSorted` | src/cli/cli.hpp:628-800 | Every build of a sorted table is sorted. |
| `LookupTable.Find` | src/core/utils/lookup_table.cpp:43-89 | Binary search finds the name if and only if a linear scan would, at the same entry. |
| `HandlerMethods.ProcessScan` | src/cli/cli.cpp:3866-3916 | Makes exactly the scan that the arguments denote, and returns the error of the first bad argument, or that of the stack, or the pending result. |
| `HandlerMethods.ProcessDiscover` | src/cli/cli.cpp:1302-1325 | The same for a discovery. |
| `HandlerMethods.GetDnsConfig` | src/cli/cli.cpp:1374-1407 | Reads exactly the configuration that the server arguments denote; missing ones leave zeros. |
| `HandlerMethods.ProcessDns` | src/cli/cli.cpp:1409-1467 | Sets the configuration or makes the query that the arguments denote. |
| `HandlerMethods.ProcessSntp` | src/cli/cli.cpp:3986-4031 | Makes the query that the arguments denote, and none while another is in progress. |
| `HandlerMethods.ProcessMlr` | src/cli/cli.cpp:2545-2598 | Makes the registration that the arguments denote. |
| `HandlerMethods.ProcessNetworkDiagnostic` | src/cli/cli.cpp:4761-4798 | Sends the request that the arguments denote, with at most 19 types. |
| `HandlerMethods.ScanPendingIff` | src/cli/cli.cpp:3866-3916 | A scan returns the pending result if and only if its arguments denote one and the stack accepts it, and the error of the stack if they denote one and it refuses. |
| `HandlerMethods.DiscoverPendingIff` | src/cli/cli.cpp:1302-1325 | The same for a discovery. |
| `HandlerMethods.DnsPendingIff` | src/cli/cli.cpp:1409-1467 | The same for `resolve`, `browse` and `service`; `config` is never pending. |
| `HandlerMethods.SntpPendingIff` | src/cli/cli.cpp:3986-4031 | The same for a query when none is in progress. |
| `HandlerMethods.MlrPendingIff` | src/cli/cli.cpp:2545-2598 | The same for a registration. |
| `HandlerMethods.DiagnosticPendingIff` | src/cli/cli.cpp:4761-4798 | The same for `get`; `reset` is never pending. |
| `HandlerMethods.DnsDoneIff` | src/cli/cli.cpp:1409-1467 | `dns` returns no error if and only if it lists the configuration or sets the one that its arguments denote. |
| `HandlerMethods.DiagnosticDoneIff` | src/cli/cli.cpp:4761-4798 | `networkdiagnostic` returns no error if and only if its arguments denote a reset. |
| `Interpreter.Interpreter.constructor` | src/cli/cli.hpp:802-810 | The interpreter starts idle, without user commands. |
| `Interpreter.Interpreter.SetUserCommands` | src/cli/cli.cpp:4998-5003 | Replaces the user commands and changes nothing else. |
| `Interpreter.Interpreter.OutputResult` | src/cli/cli.cpp:147-161 | Prints one result, or nothing for a pending one. |
| `Interpreter.Interpreter.AppendResult` | src/cli/cli.cpp:5108-5111 | The application prints a result of its own, which answers no line. |
| `Interpreter.Interpreter.ProcessHelp` | src/cli/cli.cpp:250-266 | Prints the built-in names, then those of the user. |
| `Interpreter.Interpreter.ProcessSntp` | src/cli/cli.cpp:3986-4031 | The flag is set exactly when the stack has accepted a query. |
| `Interpreter.Interpreter.RunHandler` | src/cli/cli.cpp:4738-4742 | Whatever the command: the call made is the one that the command denotes, the result is pending if and only if the stack has accepted a call on which it will report, and it is the error of the stack if such a call is refused. |
| `Interpreter.PendingIffAccepted` | src/cli/cli.cpp:4738-4742 | The same of the specification: of every command, the pending result and an accepted call with a callback come together, and a refused one returns the error of the stack. |
| `Interpreter.DoneAtOnceIff` | src/cli/cli.cpp:4738-4742 | A command that calls the stack prints "Done" at once if and only if it made a call without callback, or is `dns config` alone. |
| `Interpreter.CallsUnique` | src/cli/cli.cpp:4738-4742 | A command denotes at most one stack call. |
| `Interpreter.Interpreter.ProcessLine` | src/cli/cli.cpp:4719-4758 | A line in a buffer has the effect that the model gives its text: nothing for long or empty lines, a notice for too many arguments or diagnostics mode, else dispatch of its arguments. |
| `Interpreter.Interpreter.RunBuiltin` | src/cli/cli.cpp:4738-4742 | Runs the handler and prints its result unless pending; the operation becomes outstanding exactly when its call was made and the stack accepted it. |
| `Interpreter.Interpreter.DispatchArguments` | src/cli/cli.cpp:4736-4754 | Binary search and the loop over user commands implement dispatch by linear scans. |
| `Interpreter.Interpreter.HandleScanEnd` | src/cli/cli.cpp:3923-3966 | Completes a scan or a discovery: prints "Done" as the one result of its line. |
| `Interpreter.Interpreter.HandleDnsResponse` | src/cli/cli.cpp:1474-1589 | Completes a DNS query of any kind: prints the error of the callback as the one result of its line. |
| `Interpreter.Interpreter.HandleSntpResponse` | src/cli/cli.cpp:4038-4055 | Completes an SNTP query with "Done" and clears the flag. |
| `Interpreter.Interpreter.HandleMlrRegResult` | src/cli/cli.cpp:2609-2626 | Completes a registration: prints the error of the callback as the one result of its line. |
| `Interpreter.Interpreter.HandleDiagnosticGetResponse` | src/cli/cli.cpp:4809-4923 | Prints one result for each response: the error of the callback, or the first error among the TLVs, where their end counts as none. |
| `InterpreterRuns.HandledKeepsInvariant` | src/cli/cli.cpp:4738-4742 | A built-in command keeps the account of every line: it is answered now or has an operation outstanding, because pending results and accepted calls come together. |
| `InterpreterRuns.LineKeepsInvariant` | src/cli/cli.cpp:4719-4758 | So does every line. |
| `InterpreterRuns.StepKeepsInvariant` | src/cli/cli.cpp:4719-4758 | So does every step, callbacks and results appended by the application included. |
| `InterpreterRuns.RunsKeepInvariant` | src/cli/cli.cpp:4719-4758 | In every state of every run the account of every line is right, the results printed are the answers recorded, answers and outstanding operations add up to the lines handled or rejected (counting diagnostic requests, responses and results that the application appends), and the SNTP flag is set exactly while one query is outstanding. |
| `InterpreterRuns.OneResultPerLine` | src/cli/cli.cpp:147-161 | A handled or rejected line that sent no diagnostic request has either one outstanding operation and no result, or none and exactly one result. |
| `InterpreterRuns.OneResultPerResponse` | src/cli/cli.cpp:4809-4923 | A diagnostic request has exactly one result for each response. |
| `InterpreterRuns.AnsweredForGood` | src/cli/cli.cpp:147-161 | Results stay, and an answered line is never answered again. |
| `InterpreterRuns.CompletionResult` | src/cli/cli.cpp:1474-1589 | In every run the end of an operation adds one answer, for its line, and prints it: the error of the callback for a DNS query or a registration, no error for a scan, a discovery or an SNTP query; in every later state it is the only result of that line. |
| `InterpreterRuns.ResponseResult` | src/cli/cli.cpp:4809-4923 | In every run a response adds one answer: its own error, else none if the TLVs before the first failure are all there are or the failure is their end, else that failure. |
| `InterpreterRuns.CallIsRecorded` | src/cli/cli.cpp:4738-4742 | In every run a line that denotes a call with a callback waits for exactly that call if the stack accepts it, and is answered with the error of the stack otherwise. |
| `InterpreterRuns.OutstandingIsDenoted` | src/cli/cli.cpp:4738-4742 | In every state of every run, what a line waits for is the call that the text of this line denoted when it was given, and the stack accepted it. |
| `InterpreterRuns.SecondQueryIsBusy` | src/cli/cli.cpp:3986-4031 | In every run an SNTP query given while one is outstanding is answered with the busy error and not sent. |
| `InterpreterRuns.QuietMeansAnswered` | src/cli/cli.cpp:147-161 | With nothing outstanding, each line but the diagnostic requests has had exactly one result, and the flag is clear. |
| `InterpreterRuns.KnownWordsAreHelped` | src/cli/cli.cpp:250-266 | The first words that are not rejected are exactly the names that `help` prints. |
| `InterpreterRuns.DispatchOrder` | src/cli/cli.cpp:4736-4754 | Built-in commands shadow user commands, and the first user command of a name wins. |
| `InterpreterRuns.DiagModeBlocks` | src/cli/cli.cpp:4731-4734 | In diagnostics mode a line that does not start with `diag` prints a notice at most: it is not dispatched, answered or counted. |
| `InterpreterRuns.DiagModeRun` | src/cli/cli.cpp:4731-4734 | So any number of such lines in a run change nothing but the notices printed. |
| `InterpreterRuns.SpelledLineIsDispatched` | src/cli/cli.cpp:4719-4742 | A line that spells a list of words, however spaced, is dispatched as exactly those words. |
| `TypedCalls.EveryCallCanBeTyped` | src/cli/cli.cpp:4738-4742 | For every stack call with numbers in range there are words, in the documented order, that denote exactly this call. |
| `TypedCalls.DenotedCanBeTyped` | src/cli/cli.cpp:4738-4742 | Only such calls are denoted, so no other is ever made. |
| `TypedCalls.ShortForms` | src/cli/cli.cpp:1374-1407 | Arguments that are left out are zero or left to the stack. |
| `TypedCalls.TypedCallIsMade` | src/cli/cli.cpp:4719-4758 | In every run a line with these words leaves exactly the call outstanding, under the number of the line. |

## Left out

- The Thread stack itself (MLE, MAC, SRP, commissioning, border routing): its calls appear only as the error they return.
- Commands that read or set a single value: one branch each; the state machine sees them as handlers with an arbitrary result.
- The concrete list of command names: the source asserts its order at compile time, so the class requires a sorted table.
- `char` signedness: names are compared as unsigned characters, which agrees with the compile-time order for the ASCII names in use.
- Null pointers: a null line is ignored by the source and is not a value of the model; null TXT data is modelled.
- Failures of the output callback, exhaustion of message buffers, and `printf` itself: output is the sequence of texts printed.
- Detail lines of scan, DNS, SNTP and registration output, and the table headers: only result lines and the help text are recorded.
- A handler's operation never completes before the handler returns, and neither a stack call nor a callback reports `OT_ERROR_PENDING`: assumed by the run theorems (`InterpreterRuns.Allowed`).
- The number of responses to one diagnostic request: none or several may come, so the theorems count them.
- The key of a returned TXT entry points into the iterator and changes with the next call; the model returns a copy.
- Truncating mode of the hexadecimal reader: not used by the operations modelled.
- Clocks: a retransmission timer fires exactly when due.
- The decimal text of the average round-trip time: its fraction is not padded, so only the quotient is modelled.
- Walking the source tree in the build script: its calls are modelled for any lists of names without line breaks.
- Files that cannot be opened or decoded, and platforms that write other line ends than "\n".
- Which line a callback answers: it is given with the callback, as the stack knows it; nothing printed shows it.
