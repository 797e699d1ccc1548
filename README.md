# Serial terminal core, modelled in Dafny

This project models the core of a Windows serial-port terminal (the
`Serial`, `Serial.Core` and `Serial.WPF` programs). It covers:

- **Hex codec** (`HexStr`, `hex_str.dfy`). Bytes are shown as two uppercase
  hex digits, sixteen to a line, and typed hex text is read back into bytes.
  The .NET formatting and parsing primitives the codec relies on are modelled
  in `NetText` (`net_text.dfy`): `ToString("X2")`,
  `byte.Parse(..., NumberStyles.HexNumber)`, `int.TryParse` and
  `Environment.NewLine`.
- **Logged records** (`SerialData`), in two forms:
  - the character-set-aware record of `Serial.Core` (`CoreRecord`);
  - the earlier UTF-8-only record of `Serial` (`AppRecord`).

  Each is a class with its lazily filled text and hex caches, its
  display mode and the property-change notifications it raises.
- **Session** (`SerialConnection`, `Connection`). It covers receiving,
  sending text and files, clearing, opening and closing, and the history
  bound of 5000 records (`History`).
- **View models** (`MainViewModel` of the WPF program, `WpfViewModel`, and
  `ViewModel` of the earlier program, `AppViewModel`). They add and remove
  sessions, pick the next selection after a removal (`ConnectionList`), and
  keep the remove command's enabled state.
- **Input validation rules** (`Rules`, `WpfRules`) and the display name of a
  port found on the machine (`PortInfo`).

Records, sessions and view models change state in place in the source, so
they are Dafny classes whose methods state their whole new state. The codec,
the parsing primitives, the validators and the list rules are pure
functions, with lemmas relating them. The three loops of the source (two
of them the same formatting loop) are methods proved against a
specification function:

- `HexStr.Format`, and the inline copy in `AppRecord.SerialData.AsHex`,
  against `HexStr.Formatted`;
- `HexStr.Parse` against `HexStr.Parsed`.

The central results are:

- `HexStr.FormatParseRoundTrip`: parsing the formatted text gives back the
  bytes, for every byte sequence, the empty one included.
- `History.AppendedAllIsWindow`: however many records arrive, the history
  holds exactly the newest 5000.
- `ConnectionList.ReselectedNeighbour`: after a session is removed, the
  selection moves to its right-hand neighbour, else its left-hand one, and
  never to the removed session.
- `NetText.TryParseInt32Decimal` and `Rules.BraudRateOfNumerals`: how
  numerals in and out of the 32-bit range are validated.

Behaviour of the code that a reader might not expect, all of it modelled as
written:

- `HexStr.Parse` splits only on space, tab, CR and LF. A token may be one
  hex digit or more, in either case. Leading zeros are allowed, as is the
  white space .NET skips around a number. NUL characters after the digits
  are ignored.
- The round trip also holds for the empty sequence: it formats to the empty
  string, which parses to no bytes.
- `ClearData` empties the history but leaves `SelectedData` as it was, so
  a record that was selected stays selected though it is no longer listed.
- Eviction from a full history never drops the selected record, because the
  selection is always the record just added.
- When removing a session empties the list, the selection is not
  reassigned.
- `Serial/SerialConnection.cs` builds its received records with the
  two-argument constructor `new SerialData(data, encoding)`. Only the
  `Serial.Core` record has that constructor, so the session logs
  `CoreRecord.SerialData` records.

## Model

| member | source | states |
|---|---|---|
| HexStr.Gap | Serial.Core/HexStr.cs:13-19 | nothing before the first byte, a line break before every sixteenth byte, and one space before every other byte |
| HexStr.Format | Serial.Core/HexStr.cs:8-23 | the loop builds exactly `Formatted(data)`: each byte as two uppercase hex digits after its separator |
| HexStr.FormattedStep | Serial.Core/HexStr.cs:11-21 | one more loop iteration appends exactly the next byte's gap and two digits |
| HexStr.FormattedPrefix | Serial.Core/HexStr.cs:11-21 | the text for the first k bytes is a prefix of the text for all of them: the builder only appends |
| HexStr.FormattedLength | Serial.Core/HexStr.cs:8-23 | n bytes take 3n - 1 characters plus one extra per line break ((n - 1) / 16 of them); nothing for no bytes |
| HexStr.OffsetStep | Serial.Core/HexStr.cs:13-20 | byte n starts right after byte n - 1's two digits and byte n's gap |
| HexStr.LastLayout | Serial.Core/HexStr.cs:11-21 | the text ends with the last byte's two digits, right after its gap |
| HexStr.FormattedLayout | Serial.Core/HexStr.cs:11-21 | the digits of byte i are `X2(data[i])` at offset 3i + i/16, immediately preceded by that byte's separator |
| HexStr.Split | Serial.Core/HexStr.cs:28 | `String.Split` always yields at least one piece |
| HexStr.Parse | Serial.Core/HexStr.cs:25-34 | the loop returns `Parsed(hexStr)`: the bytes of the non-empty pieces in order, or the error of the first piece that does not parse |
| HexStr.NonEmpty | Serial.Core/HexStr.cs:30 | the empty pieces are dropped: never more tokens than pieces |
| HexStr.NonEmptyMembers | Serial.Core/HexStr.cs:30 | a string is a token iff it is a piece and is not empty |
| HexStr.ParseWords | Serial.Core/HexStr.cs:28-32 | a successful parse gives exactly one byte per token |
| HexStr.ParseWordsLast | Serial.Core/HexStr.cs:28-32 | when the earlier tokens and the last token parse, the result is the earlier bytes followed by the last token's byte |
| HexStr.NonEmptyAppend | Serial.Core/HexStr.cs:30 | dropping empty pieces commutes with concatenation |
| HexStr.ParseErrorPersists | Serial.Core/HexStr.cs:28-32 | once a token throws, the pieces after it do not change the outcome: the first error is the one thrown |
| HexStr.SplitAtSeparator | Serial.Core/HexStr.cs:28 | splitting at a separator character splits the text on either side independently |
| HexStr.SplitPlain | Serial.Core/HexStr.cs:28 | text without separators is one piece |
| HexStr.WordsAtSeparator | Serial.Core/HexStr.cs:28-30 | the tokens around a separator are the tokens of each side |
| HexStr.WordsAfterGap | Serial.Core/HexStr.cs:13-20 | a byte's two digits after its gap add exactly one token |
| HexStr.WordsOfFormatted | Serial.Core/HexStr.cs:8-23 | the tokens of formatted text are exactly the `X2` forms of the bytes, one per byte |
| HexStr.ParseWordsAllOk | Serial.Core/HexStr.cs:28-32 | when every token parses, the result holds one byte per token, in order |
| HexStr.ParseWordsSomeErr | Serial.Core/HexStr.cs:28-32 | a single token that does not parse makes the whole parse throw |
| HexStr.ParseWordsOk | Serial.Core/HexStr.cs:28-32 | parsing succeeds iff every token parses; then it gives one byte per token, in token order |
| HexStr.FormatParseRoundTrip | Serial.Core/HexStr.cs:8-34 | `Parse(Format(data))` gives back `data` for every byte sequence, the empty one included |
| HexStr.ParseEmpty | Serial.Core/HexStr.cs:25-34 | empty text parses to no bytes |
| HexStr.ParseIgnoresOuterSeparators | Serial.Core/HexStr.cs:28-30 | a separator added at either end of the text changes nothing |
| NetText.HexDigit | Serial.Core/HexStr.cs:20 | the digit written for a value below 16 is an uppercase hex digit that reads back as that value |
| NetText.X2 | Serial.Core/HexStr.cs:20 | `ToString("X2")` gives exactly two uppercase hex digits, neither of them white space |
| NetText.X2Value | Serial.Core/HexStr.cs:20 | the two digits denote the byte, high nibble first |
| NetText.TrimStart | Serial.Core/HexStr.cs:31 | drops exactly the leading .NET white space |
| NetText.TrimEnd | Serial.Core/HexStr.cs:31 | drops exactly the trailing .NET white space |
| NetText.TrimShape | Serial.Core/HexStr.cs:31 | `Trim` keeps one contiguous run of the text and drops only white space before and after it |
| NetText.TrimEnds | Serial.Core/HexStr.cs:31 | the text `Trim` keeps neither starts nor ends with white space |
| NetText.DropTrailingNul | Serial.Core/HexStr.cs:31 | drops exactly the NUL characters at the end of the text, which .NET number parsing accepts after a number |
| NetText.TrimUnpadded | Serial.Core/HexStr.cs:31 | text that neither starts nor ends with white space, and does not end with NUL, is read by the parsers as it stands |
| NetText.ParseByteHex | Serial.Core/HexStr.cs:31 | `byte.Parse` with `HexNumber` succeeds iff the token, without its trailing NULs and surrounding white space, is non-empty, all hex digits of either case, and below 256; the value is then that hexadecimal number; otherwise it throws |
| NetText.ParseByteHexOverflow | Serial.Core/HexStr.cs:31 | the overflow exception is thrown exactly for a well-formed numeral above 255; every other failure is a format error |
| NetText.ParseTrailingNul | Serial.Core/HexStr.cs:31 | NUL characters after a token do not change its result: "A\0" parses like "A" |
| NetText.HexValueLeadingZero | Serial.Core/HexStr.cs:31 | a leading zero does not change a hex numeral's value |
| NetText.ParseX2 | Serial.Core/HexStr.cs:20-31 | parsing the two digits written for a byte gives that byte |
| NetText.ParseSingleDigit | Serial.Core/HexStr.cs:31 | one hex digit alone is a valid token with its own value |
| NetText.ParseLeadingZero | Serial.Core/HexStr.cs:31 | a token with an extra leading zero parses as the token without it, success or error |
| NetText.Decimal | Serial/ValidationRules/BraudRateRule.cs:11 | the decimal numeral of a natural number: non-empty digits, no sign, no surrounding white space |
| NetText.DecimalValueOfDecimal | Serial/ValidationRules/BraudRateRule.cs:11 | a decimal numeral reads back as its number |
| NetText.TryParseInt32 | Serial/ValidationRules/BraudRateRule.cs:11 | `int.TryParse` fails on null and yields only values in the 32-bit range; trailing NULs and surrounding white space are skipped first |
| NetText.ParseTrimmedInt32 | Serial/ValidationRules/BraudRateRule.cs:11 | after white space is skipped, only values in the 32-bit range parse |
| NetText.ParseUnsignedDecimal | Serial/ValidationRules/BraudRateRule.cs:11 | a decimal numeral parses to its value when that fits in 32 bits, and fails otherwise |
| NetText.ParseMinusDigits | Serial/ValidationRules/BraudRateRule.cs:11 | a minus sign before digits gives the negated value, or failure below -2147483648 |
| NetText.ParseNegativeDecimal | Serial/ValidationRules/BraudRateRule.cs:11 | a minus sign before a numeral negates it, down to -2147483648, and fails below |
| NetText.TryParseInt32Decimal | Serial/ValidationRules/BraudRateRule.cs:11 | numerals up to 2147483647 and negated numerals down to -2147483648 parse to their value; numerals above the range fail |
| CoreRecord.SerialData.constructor | Serial.Core/SerialData.cs:55-59 | a received record in text mode with empty caches, showing its payload decoded in its character set |
| CoreRecord.SerialData.CreateSentData | Serial.Core/SerialData.cs:61-64 | a sent record without payload or character set, showing its description |
| CoreRecord.SerialData.Bytes | Serial.Core/SerialData.cs:18 | null exactly for a sent record, else the payload it was made with |
| CoreRecord.SerialData.SetHex | Serial.Core/SerialData.cs:21-32 | a received record takes the mode and announces `Hex` then `Data`; a sent record and its display are unaffected; caches stay |
| CoreRecord.SerialData.AsStr | Serial.Core/SerialData.cs:66-71 | returns the payload decoded in the current character set, fills the text cache, and keeps a cache already filled |
| CoreRecord.SerialData.AsHex | Serial.Core/SerialData.cs:73-78 | returns the hex layout of the payload, fills the hex cache, and keeps a cache already filled |
| CoreRecord.SerialData.Data | Serial.Core/SerialData.cs:34-47 | returns what the record shows (description, hex, or decoded text by mode), fills only the cache it reads, and the display is unchanged |
| CoreRecord.SerialData.ChangeEncoding | Serial.Core/SerialData.cs:80-88 | a received record takes the new character set, drops only its text cache, announces `Data` only in text mode, and then shows the payload in the new character set; a sent record is untouched |
| AppRecord.SerialData.constructor | Serial/SerialData.cs:51-54 | a received record in text mode with empty caches, showing its payload decoded as UTF-8 |
| AppRecord.SerialData.CreateSentData | Serial/SerialData.cs:56-59 | a sent record without payload, showing its description |
| AppRecord.SerialData.Bytes | Serial/SerialData.cs:15 | null exactly for a sent record, else the payload it was made with |
| AppRecord.SerialData.SetHex | Serial/SerialData.cs:18-29 | a received record takes the mode and announces `Hex` then `Data`; a sent record is unaffected; caches stay |
| AppRecord.SerialData.AsStr | Serial/SerialData.cs:61-66 | returns the payload decoded as UTF-8, filling and then keeping the text cache |
| AppRecord.SerialData.AsHex | Serial/SerialData.cs:68-87 | the inline loop builds exactly the `HexStr.Format` layout of the payload, filling and then keeping the hex cache |
| AppRecord.SerialData.Data | Serial/SerialData.cs:31-44 | returns what the record shows (description, hex, or UTF-8 text by mode), filling only the cache it reads |
| History.Appended | Serial/SerialConnection.cs:64-70 | after an append the new record is always last |
| History.Window | Serial/SerialConnection.cs:68-69 | the newest entries, never more than 5000 |
| History.AppendedShape | Serial/SerialConnection.cs:64-70 | from a list within the bound the list stays within it; below the bound nothing is dropped; at the bound only the oldest record is dropped |
| History.WindowOfSuffix | Serial/SerialConnection.cs:68-69 | dropping from the front only records the window drops anyway leaves the window unchanged |
| History.AppendedAllIsWindow | Serial/SerialConnection.cs:64-70 | after any run of appends the history is exactly the newest 5000 of everything appended, in order (first in, first out) |
| Connection.SerialConnection.constructor | Serial/SerialConnection.cs:14-33 | an empty history, no selection, count zero, empty inputs, closed port, close command enabled |
| Connection.SerialConnection.AddSerialDataToList | Serial/SerialConnection.cs:64-70 | the history becomes `Appended(old, record)`, within the bound, and the record is selected |
| Connection.SerialConnection.DataReceived | Serial/SerialConnection.cs:35-62 | changes only the port, history, selection, count and errors; paused: input discarded, nothing else changes; closed during the settle delay: nothing logged; read failure: error shown, nothing logged; else a fresh received record of all buffered bytes in the current character set and default mode is appended and selected, and the count rises by one modulo 2^64 |
| Connection.SerialConnection.SendString | Serial/SerialConnection.cs:264-278 | changes only the history, selection, written payloads and errors; empty text does nothing; a failed write shows an error and logs nothing; a successful write sends the encoded text and logs a sent record showing it |
| Connection.SerialConnection.ClearData | Serial/SerialConnection.cs:284-287 | the history is empty; nothing else changes |
| Connection.SerialConnection.SendFile | Serial/SerialConnection.cs:306-320 | changes only the history, selection, written payloads and errors; an empty path does nothing; an unreadable file or a failed write shows an error and logs nothing; else the file's bytes are written and a sent record `[文件] <path>` is logged |
| Connection.SerialConnection.Open | Serial/SerialConnection.cs:216-249 | a closed port the driver accepts opens; opening an open port or a refused one shows an error and changes nothing |
| Connection.SerialConnection.Close | Serial/SerialConnection.cs:216-258 | the port ends closed, its unread input gone; a closed port is untouched |
| ConnectionList.IndexOf | Serial.WPF/MainViewModel.cs:84 | -1 exactly when the session is absent; otherwise the position of its first occurrence |
| ConnectionList.Removed | Serial.WPF/MainViewModel.cs:85 | `Collection.Remove`: a list without the session is unchanged; otherwise exactly one entry goes |
| ConnectionList.Reselected | Serial.WPF/MainViewModel.cs:87-90 | the rule picks a session exactly when the list is not empty, and it picks one that is in the list |
| ConnectionList.RemovedShape | Serial.WPF/MainViewModel.cs:85 | `Remove` leaves a list without the session unchanged; otherwise it deletes exactly that entry, keeps the others in order, and removes one copy from the multiset |
| ConnectionList.RemovedMultiset | Serial.WPF/MainViewModel.cs:85 | deleting one position removes one copy of its element from the multiset |
| ConnectionList.RemovedGone | Serial.WPF/MainViewModel.cs:85 | in a list without duplicates the removed session is gone |
| ConnectionList.ReselectedNeighbour | Serial.WPF/MainViewModel.cs:84-90 | the new selection is the removed session's right-hand neighbour, else its left-hand one, else none; it is in the list and is never the removed session |
| WpfViewModel.MainViewModel.constructor | Serial.WPF/MainViewModel.cs:130-151 | one fresh session, selected, with the remove command enabled; the session is on the given character set, closed, with an empty history, no selection, zero count and empty inputs |
| WpfViewModel.MainViewModel.CollectionChanged | Serial.WPF/MainViewModel.cs:44-47 | the remove command is enabled iff there is a session and one is selected |
| WpfViewModel.MainViewModel.AddSerialConnection | Serial.WPF/MainViewModel.cs:49-58 | a fresh session is appended and selected, the list is otherwise unchanged and stays free of duplicates, and the remove command is enabled; the new session is on the given character set, closed, with an empty history, no selection, zero count and empty inputs |
| WpfViewModel.MainViewModel.ConfirmRemoval | Serial.WPF/MainViewModel.cs:70-80 | the removal goes ahead unless an open session's user declines; an accepted open session is closed, its unread input gone, when its close command can run; otherwise the session is untouched; nothing but its port ever changes |
| WpfViewModel.MainViewModel.RemoveAndReselect | Serial.WPF/MainViewModel.cs:82-91 | the list loses the session; the remove command is re-evaluated with the selection as it was before; the selection moves by the neighbour rule, or stays when the list empties; an absent session makes the source throw |
| WpfViewModel.MainViewModel.RemoveSerialConnection | Serial.WPF/MainViewModel.cs:65-92 | null and a declined open session change nothing; otherwise confirmation, removal and reselection as above; the session's history, inputs and settings never change, only its port |
| AppViewModel.ViewModel.constructor | Serial/ViewModel.cs:96-114 | one fresh session, selected, with the remove command enabled; the session is on the given character set, closed, with an empty history, no selection, zero count and empty inputs |
| AppViewModel.ViewModel.CollectionChanged | Serial/ViewModel.cs:41-44 | the remove command is enabled iff there is a session and one is selected |
| AppViewModel.ViewModel.AddSerialConnection | Serial/ViewModel.cs:46-51 | a fresh session is appended and selected, the list is otherwise unchanged and stays free of duplicates, and the remove command is enabled; the new session is on the given character set, closed, with an empty history, no selection, zero count and empty inputs |
| AppViewModel.ViewModel.ConfirmRemoval | Serial/ViewModel.cs:58-68 | the removal goes ahead unless an open session's user declines; an accepted open session is closed, its unread input gone; otherwise the session is untouched; nothing but its port ever changes |
| AppViewModel.ViewModel.RemoveAndReselect | Serial/ViewModel.cs:70-79 | the list loses the session; the remove command is re-evaluated with the selection as it was before; the selection moves by the neighbour rule, or stays when the list empties; an absent session makes the source throw |
| AppViewModel.ViewModel.RemoveSerialConnection | Serial/ViewModel.cs:53-80 | null and a declined open session change nothing; otherwise confirmation, closing, removal and reselection as above; the session's history, inputs and settings never change, only its port |
| PortInfo.ToString | Serial/SerialPortInfo.cs:15-19 | the port name alone iff there is no description; otherwise it starts with the name and the description can be read back from between " (" and ")" |
| Rules.BraudRateValidate | Serial/ValidationRules/BraudRateRule.cs:8-23 | valid iff the text parses as a 32-bit integer above zero; unparsable text gets "必须是整数", zero or negative "波特率必须大于零" |
| Rules.PortNameValidate | Serial/ValidationRules/PortNameRule.cs:8-18 | valid iff the name is non-null and non-empty (white space alone passes); else "串口名不能为空" |
| Rules.RuleBaseValidate | Serial/ValidationRules/RuleBase.cs:8-18 | a value of the rule's type gets the typed rule's answer for the same culture; null and other types get "数据类型错误" |
| Rules.CultureIgnored | Serial/ValidationRules/BraudRateRule.cs:8-23 | neither rule's answer depends on the culture |
| Rules.BraudRateOfNumerals | Serial/ValidationRules/BraudRateRule.cs:10-22 | 1 to 2147483647 are valid; zero and negative numerals get the positivity message; numerals past the 32-bit range get the integer message |
| Rules.ObjectEntryPoint | Serial/ValidationRules/RuleBase.cs:10-17 | through the object entry point null is a type error, so the typed rules' null branches are unreachable from there; a string gets the typed rule's answer |
| WpfRules.RuleBaseValidate | Serial.WPF/ValidationRules/RuleBase.cs:8-18 | a value of the rule's type gets the typed rule's answer; null and other types get "数据类型错误" |
| WpfRules.SameAsEarlierRuleBase | Serial.WPF/ValidationRules/RuleBase.cs:8-18 | the WPF copy of the base rule answers exactly as the earlier program's does |

## Left out

- The hardware port driver is reduced to an open flag, an input buffer and a list of written payloads. Settings that only reach the driver are not modelled: port name, baud rate, parity, data bits, stop bits and timeouts.
- Threading, the settle delay and the dispatcher: a receive runs as one atomic step. When `App.Current` is null the source drops the record silently; the model does not have that case.
- Character-set codecs (`Encoding.GetString`/`GetBytes`, UTF-8 among them) are foreign code and are uninterpreted function values. The earlier record is handed its UTF-8 decoder when it is made.
- File dialogs, `File.ReadAllBytes`, `SelectFile`, `ExportSerialData`, `SelectFileToSend` and the error message boxes. A file read is an input, and an error box is an entry in `errors`.
- Port enumeration (`GetSerialPortInfoList`, `UpdateAvaliablePorts`), the encoding, baud-rate, data-bit, parity and stop-bit lists, and the command objects. Property-change notifications are modelled only on the records (`raised`).
- Record timestamps (`DateTime.Now`).
- `byte[]` payloads are sequences, so aliasing of the array between caller and record is not modelled.
- NetText.TryParseInt32: culture-specific sign symbols are not modelled; only '+' and '-' are signs.
- A null `StrToSend` or `FileToSend` is modelled as the empty string, which the source treats the same way.
- The view models' `AddSerialConnection` and constructors make the new session on the default UTF-8 character set; since character-set codecs are foreign code, that character set is the parameter `charset`.
- `HexStr.Format` and `HexStr.Parse` throw `NullReferenceException` for a null argument; the model's sequences cannot be null, and no caller passes null.
- WpfViewModel.MainViewModel.AddSerialConnection: the `SelectedSerialPortInfo` assignment and the error-event wiring are not modelled. The WPF program's own `SerialConnection` class is not part of this model, so the WPF view model manages `Connection.SerialConnection` sessions.
- Connection.SerialConnection.DataReceived: discarding the input buffer while paused is modelled only for an open port, the one case in which the driver raises the event.
- The typed validators that the WPF program derives from its rule base are not part of this model; only the base class is.
