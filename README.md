# RegFile: the `.reg` codec, modelled in Dafny

RegFile reads and writes Windows registry export files in the
"Windows Registry Editor Version 5.00" format. A file holds:

- the signature line;
- a blank line;
- blocks separated by blank lines. Each block starts with a
  `[HIVE\sub\key]` header (`[-…]` removes the key). Zero or more value
  lines follow: `"name"=…` or `@=…` for the default value.

A value is written in one of these forms:

- `-` for a removal;
- a quoted string with doubled backslashes;
- `dword:` followed by eight hex digits;
- `hex…:` followed by comma-separated byte pairs, broken over lines with
  `\`, newline and two spaces before every 32nd group.

The core is modelled component by component:

- `RegFileExtensions` (regfileextensions.dfy) is the shared value table:
  - hive names and key splitting;
  - string escaping;
  - the type tokens;
  - the hex text layout, written by `StringBuilder` loops;
  - the encoders (`GetRegFileValue`) and decoders (`GetNativeValue`,
    `ToByte`, `Split`).

  Each method is proved against a function that specifies it.
- `RegistryCommands` (commands.dfy) has the two command classes:
  - their setters;
  - their `WriteTo` methods, which write to a `TextWriter` whose text is a
    field. Each `WriteTo` is specified by an `Emission`: the text written
    and whether an exception ended the write.
- `RegFileWriting` (writer.dfy) is `RegFileWriter.Write`.
- `CommandProcessing` (processor.dfy) is `AbstractRegCommandProcessor`. Its
  three abstract callbacks append events to a trace.
- `RegFileReading` (reader.dfy) models `RegFileReader.Read` in two layers:
  - a fold of `Step` over the input lines, the specification;
  - the imperative reader. It builds real command objects, and its result
    is proved to agree with the fold.
- `ValueCodec`, `RoundTrip` and `ReadingBack` prove the round trips:
  - value by value;
  - text to lines;
  - whole file: what the writer emits, the reader reads back unchanged.
- `ReaderFacts` states what the reader does with particular lines.
- `RegTypes`, `Strings`, `Numbers` and `Utf16` hold the .NET pieces the
  code relies on:
  - `SourceLocation`;
  - exceptions, as a `Result` datatype;
  - trimming, splitting and line reading;
  - `X2`/`X8` formatting, hex `TryParse` and `BitConverter`;
  - `Encoding.Unicode`.

The written description of the format and the code differ in a few
places. The model follows the code:

- A `dword:` payload goes through `int.TryParse` with `HexNumber`, not a
  check for exactly eight digits. That accepts one or more hex digits whose
  value fits in 32 bits, with leading zeros allowed (so `000000001` is
  read as 1) and white space around them. .NET also accepts trailing NUL
  characters there, which the model does not (see "## Left out").
- `hex(5)` is a second token for the same value as `hex(4)`: a dword
  written as four little-endian bytes.
- Decoding a multi-string checks only that the last two bytes are zero,
  not that there are four zero bytes.
- A `hex(b)` array is reversed before and after `BitConverter`, so its text
  is most significant byte first.
- After a value name, the reader needs an `=` anywhere in the rest of the
  line. It then skips exactly one UTF-16 code unit, whatever it is, and
  left-trims the rest. A character at or above U+10000 is two code
  units, so the skip leaves its low surrogate in front of the value. That
  surrogate cannot start any type token, so the line fails.
- A value whose last line still ends in `\` at end of input is dropped
  without an error.
- An error that is not already an `IOException` is wrapped in one that
  names the current line.

## Model

| member | source | states |
|---|---|---|
| RegTypes.SourceLocation.IncrementLineNumber | RegFile/SourceLocation.cs:13-16 | same source, line number one higher |
| Numbers.X2 | RegFile/RegFileExtensions.cs:184 | two hex digits whose value is the byte |
| Numbers.X8 | RegFile/RegFileExtensions.cs:219 | eight uppercase hex digits |
| Numbers.X8RoundTrip | RegFile/RegFileExtensions.cs:325-332 | hex `TryParse` of `X8(i)` gives back every 32-bit `i` |
| Numbers.Int32BytesRoundTrip | RegFile/RegFileExtensions.cs:376-384 | `ToInt32` of the four little-endian bytes of `i` is `i` |
| Numbers.Int64BytesRoundTrip | RegFile/RegFileExtensions.cs:386-394 | `ToInt64` of the eight little-endian bytes of `i` is `i` |
| Numbers.LittleEndianRoundTrip | RegFile/RegFileExtensions.cs:236-240 | little-endian bytes of `u` read back as `u` when `u` fits |
| Utf16.GetStringGetBytes | RegFile/RegFileExtensions.cs:360-366 | UTF-16LE decoding of the encoding of `s` is `s` |
| Utf16.GetBytesNulUnit | RegFile/RegFileExtensions.cs:147 | the encoding holds an aligned zero unit iff the text holds U+0000 |
| Utf16.GetBytesAppend | RegFile/RegFileExtensions.cs:147 | encoding a concatenation concatenates the encodings |
| Strings.ReadLinesJoinLines | RegFile/RegFileReader.cs:62 | reading back newline-terminated single-line strings gives those lines |
| Strings.TextReader.ReadLine | RegFile/RegFileReader.cs:62 | the next line, or null at the end; the reader advances by one line |
| RegFileExtensions.HiveToString | RegFile/RegFileExtensions.cs:58-77 | one of the six names for a named hive; ArgumentOutOfRange iff the hive is not one of them |
| RegFileExtensions.StringToHive | RegFile/RegFileExtensions.cs:37-56 | a hive iff the text is one of the six names, matched case-sensitively; then `HiveToString` gives that text back |
| RegFileExtensions.HiveNameRoundTrip | RegFile/RegFileExtensions.cs:37-77 | `StringToHive(HiveToString(h)) == h` for every named hive |
| RegFileExtensions.SplitIntoHiveAndSubKey | RegFile/RegFileExtensions.cs:14-35 | the error is located at the line; no backslash gives InvalidKeySpecification; success means the span is hive name + `\` + a non-blank subkey |
| RegFileExtensions.SplitIntoHiveAndSubKeyRoundTrip | RegFile/RegFileExtensions.cs:14-35 | a hive name, `\` and any non-blank subkey split back to that pair, later backslashes kept |
| RegFileExtensions.SplitIntoHiveAndSubKeyInvalidHive | RegFile/RegFileExtensions.cs:20-26 | an unknown prefix before the first `\` fails with InvalidHive |
| RegFileExtensions.SplitIntoHiveAndSubKeyInvalidSubKey | RegFile/RegFileExtensions.cs:28-32 | a known hive with a blank remainder fails with InvalidSubKey |
| RegFileExtensions.EscapeAppend | RegFile/RegFileExtensions.cs:89-92 | escaping works character by character over concatenation |
| RegFileExtensions.Escape | RegFile/RegFileExtensions.cs:89-92 | text without a backslash is unchanged; a lone `\` becomes `\\` and any other single character stays |
| RegFileExtensions.EscapeChars | RegFile/RegFileExtensions.cs:89-92 | escaping appends one character at a time: `\` as `\\`, anything else as itself; the result is longer by the number of backslashes |
| RegFileExtensions.UnescapeEscape | RegFile/RegFileExtensions.cs:84-92 | `Unescape(Escape(s)) == s` for every `s` |
| RegFileExtensions.UnescapeKeepsSingleBackslash | RegFile/RegFileExtensions.cs:84-87 | `\` followed by anything but `\` (such as `\"` or `\t`) is left untouched |
| RegFileExtensions.GetValueInfo | RegFile/RegFileExtensions.cs:94-137 | Unknown/Unknown iff the token is not one of the ten known tokens; each known token comes back from `GetRegFileToken`, `hex(3)` as `hex` |
| RegFileExtensions.GetRegFileToken | RegFile/RegFileExtensions.cs:267-312 | no token iff the format is String; every failure is ArgumentOutOfRange |
| RegFileExtensions.TokenRoundTrip | RegFile/RegFileExtensions.cs:111-136 | a descriptor that has a token is recovered by `GetValueInfo` of that token |
| RegFileExtensions.AddHexString | RegFile/RegFileExtensions.cs:166-193 | appends the byte groups (with the NUL unit for a string), comma and line break layout at running index `total`, and advances the index |
| RegFileExtensions.AddNullTermination | RegFile/RegFileExtensions.cs:195-212 | appends two `00` groups at the running index and advances it by two |
| RegFileExtensions.GetHexString | RegFile/RegFileExtensions.cs:155-164 | the text is the layout of the value's bytes from index 0 |
| RegFileExtensions.GetHexMultiString | RegFile/RegFileExtensions.cs:139-153 | the text is the layout of every element's bytes and terminators, the index carried across elements |
| RegFileExtensions.MultiStringBytesEmpty | RegFile/RegFileExtensions.cs:139-153 | an empty multi-string encodes to one NUL unit |
| RegFileExtensions.MultiStringBytesOneEmpty | RegFile/RegFileExtensions.cs:139-153 | a multi-string of one empty element encodes to four zero bytes |
| RegFileExtensions.HexGroupsParts | RegFile/RegFileExtensions.cs:166-193 | the layout is the line pieces joined by `\`, newline and two spaces |
| RegFileExtensions.HexPartsFlat | RegFile/RegFileReader.cs:129-148 | the line pieces concatenated, as the reader joins them, are the unbroken comma-separated text |
| RegFileExtensions.HexBytesHexFlat | RegFile/RegFileExtensions.cs:335 | splitting the comma text, trimming and `ToByte` give the bytes back |
| RegFileExtensions.ToByte | RegFile/RegFileExtensions.cs:400-405 | two hex digits of either case give their value; any failure is IndexOutOfRange |
| RegFileExtensions.ToByteX2 | RegFile/RegFileExtensions.cs:400-405 | `ToByte(X2(b)) == b` |
| RegFileExtensions.AsInt32 | RegFile/RegFileExtensions.cs:219 | the cast succeeds iff the value is a dword |
| RegFileExtensions.AsInt64 | RegFile/RegFileExtensions.cs:236 | the cast succeeds iff the value is a qword |
| RegFileExtensions.AsBytes | RegFile/RegFileExtensions.cs:226 | the cast succeeds iff the value is bytes or null |
| RegFileExtensions.AsString | RegFile/RegFileExtensions.cs:252 | the cast succeeds iff the value is text |
| RegFileExtensions.AsStrings | RegFile/RegFileExtensions.cs:256 | the cast succeeds iff the value is a text array |
| RegFileExtensions.ObjectToString | RegFile/RegFileExtensions.cs:221 | `ToString` succeeds iff the value is not null |
| RegFileExtensions.Reverse | RegFile/RegFileExtensions.cs:237 | the array afterwards is the old contents reversed |
| RegFileExtensions.ReversedReversed | RegFile/RegFileExtensions.cs:236-238 | reversing twice restores the bytes |
| RegFileExtensions.RegFileValue | RegFile/RegFileExtensions.cs:214-265 | an encoded value starts with its token and `:`, or is a quoted string |
| RegFileExtensions.GetRegFileValue | RegFile/RegFileExtensions.cs:214-265 | agrees with the `RegFileValue` specification on every descriptor and value |
| RegFileExtensions.Split | RegFile/RegFileExtensions.cs:407-433 | an even-length array splits at aligned NUL units, keeping empty runs; an odd length raises IndexOutOfRange |
| RegFileExtensions.NativeValue | RegFile/RegFileExtensions.cs:319-398 | IOException failures are located; any other failure is IndexOutOfRange from `ToByte` |
| RegFileExtensions.GetNativeValue | RegFile/RegFileExtensions.cs:319-398 | agrees with the `NativeValue` specification |
| RegFileExtensions.GetUtf16Value | RegFile/RegFileExtensions.cs:333-367 | agrees with the `Utf16Value` specification |
| RegFileExtensions.GetBinaryValue | RegFile/RegFileExtensions.cs:368-394 | agrees with the `BinaryValue` specification |
| RegFileExtensions.Utf16ValueRejects | RegFile/RegFileExtensions.cs:336-366 | a multi-string fails iff its last two bytes are not both zero, then iff its count is odd; a single string fails iff it is empty or its last byte is not zero |
| RegFileExtensions.BinaryValueRejects | RegFile/RegFileExtensions.cs:368-394 | a dword fails iff it has fewer than 4 bytes, a qword iff fewer than 8; binary takes any bytes |
| ValueCodec.SingleStringRoundTrip | RegFile/RegFileExtensions.cs:360-366 | the UTF-16 bytes of `s` plus one NUL unit decode to `s` when `s` does not end in U+0000 |
| ValueCodec.MultiStringRoundTrip | RegFile/RegFileExtensions.cs:336-358 | the encoding of an element list without U+0000 decodes to the same list, empty elements included |
| ValueCodec.HexValueRoundTrip | RegFile/RegFileExtensions.cs:368-394 | every hex-format value decodes from its own bytes |
| ValueCodec.Utf16ValueRoundTrip | RegFile/RegFileExtensions.cs:333-367 | expand-string, string and multi-string values decode from their bytes |
| ValueCodec.BinaryValueRoundTrip | RegFile/RegFileExtensions.cs:368-394 | binary, dword (`hex(4)`, `hex(5)`) and qword (`hex(b)`) values decode from their bytes |
| ValueCodec.ValueRoundTrip | RegFile/RegFileExtensions.cs:214-265 | `GetNativeValue` of the payload `GetRegFileValue` writes is the original value, for every encodable value |
| RegistryCommands.RegistryValueCommand.constructor | RegFile/RegistryValueCommand.cs:9-16 | a new command: empty name, not default, not removed, no value |
| RegistryCommands.RegistryValueCommand.SetDefault | RegFile/RegistryValueCommand.cs:18-24 | becomes the default value with name `""`; nothing else changes |
| RegistryCommands.RegistryValueCommand.SetName | RegFile/RegistryValueCommand.cs:26-39 | null gives ArgumentNullException and `""` gives ArgumentException, with nothing changed; otherwise not default and the name is stored; after success IsDefault iff the name is `""` |
| RegistryCommands.RegistryValueCommand.SetValue | RegFile/RegistryValueCommand.cs:41-45 | stores value and descriptor; kind and format read the descriptor |
| RegistryCommands.RegistryValueCommand.WriteTo | RegFile/RegistryValueCommand.cs:47-68 | the writer gains exactly the value line of the command's state, and an encoding failure is raised |
| RegistryCommands.ValueEmission | RegFile/RegistryValueCommand.cs:47-68 | the line completes iff the command is a removal or its value encodes |
| RegistryCommands.ValueEmissionRemove | RegFile/RegistryValueCommand.cs:59-62 | a removal writes prefix, `-` and a newline, whatever its value |
| RegistryCommands.ValueEmissionLine | RegFile/RegistryValueCommand.cs:49-67 | the line is `@=` or the quoted name and `=`, then the encoded value, then exactly one newline |
| RegistryCommands.ValueEmissionFailed | RegFile/RegistryValueCommand.cs:63-66 | an encoding failure leaves only the prefix written |
| RegistryCommands.RegistrySubKeyCommand.WriteTo | RegFile/RegistrySubKeyCommand.cs:15-31 | the writer gains exactly the header line and every value line in order |
| RegistryCommands.RegistrySubKeyCommand.constructor | RegFile/RegistrySubKeyCommand.cs:10-13 | a new command holds hive code 0, which names no hive, so writing it fails with ArgumentOutOfRange; no subkey, not removed, no values |
| RegistryCommands.SubKeyEmission | RegFile/RegistrySubKeyCommand.cs:22 | an unnamed hive raises ArgumentOutOfRange |
| RegistryCommands.SubKeyEmissionParts | RegFile/RegistrySubKeyCommand.cs:17-30 | the text is `[`, `-` iff removal, hive name, `\`, subkey, `]`, newline, then the value lines, also for a removal |
| RegistryCommands.WriteCommands | RegFile/RegistrySubKeyCommand.cs:27-30 | the loop writes the value lines of the list in order, stopping at the first failure |
| RegistryCommands.ValuesFailed | RegFile/RegistrySubKeyCommand.cs:27-30 | after a failing value nothing more is written |
| RegFileWriting.RegFileWriter.Write | RegFile/RegFileWriter.cs:26-41 | null gives ArgumentNullException and writes nothing; otherwise the writer gains signature, blank line and every block followed by a blank line |
| RegFileWriting.WriteBlocks | RegFile/RegFileWriter.cs:36-40 | the loop writes each block and its blank line in order |
| RegFileWriting.FileEmissionStart | RegFile/RegFileWriter.cs:33-34 | the output starts with the signature line and an empty line |
| RegFileWriting.FileEmissionEmpty | RegFile/RegFileWriter.cs:33-40 | no commands give exactly the signature and two newlines |
| RegFileWriting.FileEmissionSnoc | RegFile/RegFileWriter.cs:36-40 | one more command appends its block and blank line |
| RegFileWriting.BlocksFailed | RegFile/RegFileWriter.cs:36-40 | after a failing block nothing more is written |
| CommandProcessing.AbstractRegCommandProcessor.Process | RegFile/AbstractRegCommandProcessor.cs:9-20 | null gives ArgumentNullException and no callback; otherwise the trace gains the events of every subkey in order |
| CommandProcessing.AbstractRegCommandProcessor.ProcessSubKey | RegFile/AbstractRegCommandProcessor.cs:22-43 | the trace gains the events of one subkey command |
| CommandProcessing.AbstractRegCommandProcessor.ProcessSubKeyRemove | RegFile/AbstractRegCommandProcessor.cs:45 | appends one subkey removal event |
| CommandProcessing.AbstractRegCommandProcessor.ProcessValueRemove | RegFile/AbstractRegCommandProcessor.cs:46 | appends one value removal event |
| CommandProcessing.AbstractRegCommandProcessor.ProcessValueUpdate | RegFile/AbstractRegCommandProcessor.cs:47 | appends one value update event |
| CommandProcessing.SubKeyRemoveIgnoresValues | RegFile/AbstractRegCommandProcessor.cs:24-27 | a removal gives exactly one subkey removal event, whatever its values |
| CommandProcessing.SubKeyKeptEvents | RegFile/AbstractRegCommandProcessor.cs:28-42 | otherwise one event per value command in list order: a removal or an update with name, value and kind |
| CommandProcessing.AllEventsAppend | RegFile/AbstractRegCommandProcessor.cs:16-19 | the events of a concatenation are the events of each part in order |
| RegFileReading.RegFileReader.Read | RegFile/RegFileReader.cs:49-229 | the result or the error is that of the line fold over the remaining input; on success every line is consumed and the commands are new objects |
| RegFileReading.ParseHeader | RegFile/RegFileReader.cs:98-128 | a header gives an empty subkey command of a named hive and non-blank subkey; errors are located |
| RegFileReading.ParseValueName | RegFile/RegFileReader.cs:231-259 | a name gives a fresh command, default iff the line starts with `@`, name `""` iff default |
| RegFileReading.ParseValue | RegFile/RegFileReader.cs:149-212 | every IOException names the current line; with ReaderFacts.ValueSkipsOneCharacter, the one-unit skip after `=` |
| RegFileReading.ParseContinuation | RegFile/RegFileReader.cs:129-148 | a trailing `\` holds the value with the text before it appended |
| RegFileReading.Apply | RegFile/RegFileReader.cs:166-178 | holding keeps the state valid; adding a command with no open subkey is a null reference |
| RegFileReading.Located | RegFile/RegFileReader.cs:219-226 | an IOException passes through, any other failure becomes an IOException at the current line |
| RegFileReading.Step | RegFile/RegFileReader.cs:62-216 | a line moves the location one line on; every failure is an IOException at that line |
| ReaderFacts.ParseNoLines | RegFile/RegFileReader.cs:51-62 | empty input gives no commands and no error |
| ReaderFacts.ParsePreambleOnly | RegFile/RegFileReader.cs:66-82 | the signature and a blank line give no commands |
| ReaderFacts.ParseWrongSignature | RegFile/RegFileReader.cs:66-73 | any other first line fails at line 1 |
| ReaderFacts.ParseWrongSecondLine | RegFile/RegFileReader.cs:75-82 | a non-blank second line fails at line 2 |
| ReaderFacts.ParseErrorLine | RegFile/RegFileReader.cs:58-64 | every failure is an IOException naming the source and a line between 1 and the number of lines |
| ReaderFacts.StepBlankLine | RegFile/RegFileReader.cs:86-90 | a blank line closes the current subkey and keeps a held value |
| ReaderFacts.StepComment | RegFile/RegFileReader.cs:92-96 | a comment changes nothing but the line number, even inside a continued value |
| ReaderFacts.StepOutsideSubKey | RegFile/RegFileReader.cs:213-216 | a value line with no open subkey fails with "Expected '\"'" |
| ReaderFacts.StepHeaderAppends | RegFile/RegFileReader.cs:109-122 | a header appends a fresh empty entry and opens it, even when the key repeats |
| ReaderFacts.ValueNameCases | RegFile/RegFileReader.cs:231-259 | `@` gives the default command; a missing closing quote, an empty name and any other first character fail |
| ReaderFacts.ValueSkipsOneCharacter | RegFile/RegFileReader.cs:152-158 | once `=` occurs after the name, one UTF-16 unit is dropped: a character below U+10000 goes whole and the rest is left-trimmed; a supplementary character leaves its low surrogate, and the line fails with a missing colon, or with an unknown type when a `:` follows |
| ReaderFacts.ParseRemovalKeepsValues | RegFile/RegFileReader.cs:111-122 | value lines attach to a removed subkey too |
| ReaderFacts.ParsePendingDropped | RegFile/RegFileReader.cs:198-203 | a value still continued at end of input is dropped without error |
| ReadingBack.ParseHeaderLine | RegFile/RegistrySubKeyCommand.cs:17-25 | the written header re-parses to the same hive, subkey and removal flag |
| ReadingBack.ValueSteps | RegFile/RegistryValueCommand.cs:47-68 | the lines written for a value read back as that one command added to the open subkey |
| ReadingBack.BlockSteps | RegFile/RegistrySubKeyCommand.cs:15-31 | a written block reads back as that subkey command |
| ReadingBack.ParseFileLines | RegFile/RegFileWriter.cs:26-41 | the lines of a written file read back as the commands |
| ReadingBack.ReadWritten | RegFile/RegFileWriter.cs:26-41 | writing readable commands succeeds and reading the text gives the same commands |
| ReadingBack.WriteRead | RegFile.Tests/RegFileReaderTests.cs:38-56 | any text in the writer's layout reads and is written back to exactly the same text, continuation breaks included |

## Left out

- Stream lifecycle is not modelled: the reader and writer constructors, `Dispose` and the close flags. The reader's input is the list of its lines, and the writer's output is a string field.
- `Environment.NewLine` is fixed to `"\n"`.
- Exception messages are not modelled: each diagnostic is a `Reason` value carried with the source and line.
- `RegFile/RegCommandProcessor.cs` and `RegFile/RegCommandExtractor.cs` are not part of this model. They call the live Windows registry.
- `RegImport/Program.cs` is not part of this model. It handles the command line and console output.
- `RegFile/RegistryProcessingException.cs` and `RegFile/IRegFileFormatter.cs` hold no logic.
- `BitConverter` is modelled for a little-endian host only.
- Numbers.TryParseHexInt32 covers `NumberStyles.HexNumber` white space and leading zeros. It does not accept the trailing NUL characters that .NET's parser also allows.
- Utf16.GetBytes never needs replacement characters: a Dafny string cannot hold a lone surrogate. Decoding does model U+FFFD for an unpaired surrogate and for an odd trailing byte.
- RegistryCommands.RegistryValueCommand.constructor starts with Name `""` rather than null. Both write the same text, `""=`.
- RegistryCommands.RegistrySubKeyCommand.constructor starts with SubKey `""` and Commands empty, rather than null. Writing a fresh command already fails at its hive, before either is used. The reader sets all of them before the command is used.
- `Debug.Assert` in `ToByte` is not modelled. The lookup table is modelled as written, and a character outside it raises IndexOutOfRange.
- ReadingBack.WriteRead proves the round trip for every text in the writer's layout. The test's fixture is such a text, but it is not evaluated as a concrete instance.
- A value line with a space before `=` (`"a" =dword:1`) is rejected, because of the one skipped character. It is modelled as written, and ReaderFacts.ValueSkipsOneCharacter states it.
