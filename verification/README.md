# NMEA 0183 sentence framer, in Dafny

This project models the parsing core of `nmea-tools`, a reader for NMEA 0183
sentences of the form `$ADDR,f0,f1,...*HH`, and proves properties of that
model. The core consists of:

- the sentence framer `get_message_body` and the checksum reader
  `hex_chars_to_u8` (`src/lib.rs`);
- the address parser `AddrField::new`, the message registry `MessagesMap`, the
  slot writer `set_field` and the non-float slot setters (`src/messages.rs`);
- the field handler `FieldParseHandler::handle` (`src/nmea_parser.rs`);
- the talker-id table `ALL_TALKER_IDS` and `is_talker_id`
  (`src/generated/mod.rs`).

Bytes are `bv8`. A Rust panic becomes a `Failure(Error)` result, so the error
paths are modelled and, with two exceptions, not excluded by preconditions.
These panics are:

- a failed `assert!`;
- an `unwrap` of `None`;
- an index past the end of a slice;
- a u8 overflow or underflow, with overflow checks on as in a debug build.

The two exceptions are panics that no caller can reach. They are preconditions
rather than failures:

- `IsTalkerId` requires exactly two bytes, in place of the length assertion of
  `is_talker_id` (src/generated/mod.rs:31). Its only caller, `AddrField::new`,
  passes the first two bytes of a token longer than three
  (src/messages.rs:34).
- `HexCharsToU8` requires at least two bytes, in place of the index panics of
  `hex_chars_to_u8` (src/lib.rs:90 and 95). Its only caller passes the two
  bytes after the '*', and only when exactly two follow it (src/lib.rs:72-73).

The modules follow the source:

| module | file | models |
|---|---|---|
| `Common` | `common.dfy` | byte constants, `Option`, `Result` and the panic causes |
| `Talkers` | `talkers.dfy` | `src/generated/mod.rs` |
| `Messages` | `messages.dfy` | `src/messages.rs` |
| `NmeaParser` | `nmea_parser.dfy` | `handle`, on the `FieldParseHandler` class |
| `Checksum` | `checksum.dfy` | the XOR checksum and `hex_chars_to_u8` |
| `Fields` | `fields.dfy` | comma splitting and joining, the reference for the field scan |
| `Framing` | `lib.dfy` | `get_message_body` |
| `Properties` | `properties.dfy` | the effect of one sentence's run of handler calls |
| `Sentences` | `sentences.dfy` | what a parse says about the buffer, and a sentence writer that the framer reads back |
| `Vectors` | `vectors.dfy` | the sentences of the source's unit tests |

The Rust code updates state in place, so the Dafny model does too:

- `Message` is a class whose `slots` the method `SetField` reassigns.
- `MessagesMap` holds a `map` from sentence id to `Message` objects.
- `FieldParseHandler` is a class whose `Handle` method writes into the message it finds. In place of the callback, it appends a `Notification` to its `notified` field.
- `GetMessageBody` is a method with the two loops of `get_message_body`. They are split into `ScanAddress` (the `while` loop) and `ScanFields` (the `loop`). `DeliverField` is the body of the loop for the field just closed: the handler call and the index increment.

Each method is proved against a function on values:

| method | specification |
|---|---|
| `Handle` | `HandleSpec` |
| `DeliverField` | `Dispatch` |
| `ScanFields` | `Scan` |
| `GetMessageBody` | `Parse` |

`FieldParseHandler.State()` is the handler as a value: the slots of each registered message, and the callback calls made so far. The lemmas are then stated about `Parse`, in three steps:

1. `Parse` is the framing plus `Dispatch`, the run of `HandleSpec` over the split field region.
2. `Dispatch` is described in one step by `DispatchEffect`.
3. `Sentence` writes a sentence, and `WrittenSentenceParses` closes the round trip.

Three facts of the code as written are proved, not corrected:

- The checksum is compared only when exactly two bytes follow the `*`. A sentence that carries its two digits and its CR LF terminator is not checked (`UncheckedTail`, `CrLfSkipsChecksum`). A sentence with no digits but with CR LF has exactly two bytes after the `*`, so CR LF is decoded as digits and the subtraction of '0' underflows (`CrLfWithoutDigitsOverflows`).
- `consume_amt` is always 0 and `crc_ok` is always true (`Parse`).
- A lower-case second hex digit is not rejected: after a first digit from '0' to 'D' it is misread, and after 'E' or 'F' the u8 sum overflows (`LowerCaseSecondDigitMisread`).

## Model

| member | source | states |
|---|---|---|
| Talkers.Code | src/generated/mod.rs:3-26 | The letters of each enumerated talker id: two letters for each id except P, which has one. |
| Talkers.IsTalkerId | src/generated/mod.rs:28-34 | A two-byte prefix is a talker id exactly when it is "GP" or "GL". The two-byte length is the source's assertion, taken as a precondition. |
| Talkers.OnlyGpAndGlRecognised | src/generated/mod.rs:3-33 | Of the two-letter ids in the enumeration, only GP and GL are recognised. GN, BD, AI and the rest are not. |
| Talkers.ByteOrderMatters | src/generated/mod.rs:32-33 | Both bytes are compared in order: "GP" and "GL" are ids, "PG" and "LG" are not. |
| Messages.NewAddrField | src/messages.rs:32-45 | The talker id followed by the key is the original token. A talker id is stripped exactly when the token is longer than three bytes and starts with a recognised id. A stripped id is one of the table's ids. |
| Messages.KeyIgnoresTalkerId | src/messages.rs:32-60 | Tokens that differ only in their recognised talker id give the same key. A short bare id, or one without a talker prefix, is its own key. |
| Messages.Text | src/messages.rs:96-99 | The stored text has one character per byte, with the same code. |
| Messages.SetFromSlice | src/messages.rs:96-152 | A text slot takes any input, the empty one included. A u8 slot accepts exactly one byte and stores it. An `Option<u8>` slot accepts at least one byte and stores `Some` of the first. A rejected input is the `FieldDecode` panic; for an `Option<u8>` slot this is the index past the end of empty input. A stored value keeps the slot's kind. |
| Messages.SetFromSliceForgets | src/messages.rs:96-152 | A store overwrites: the previous value of the slot does not affect the result. |
| Messages.StoreThenDisplay | src/messages.rs:96-158 | Displaying a stored slot gives back the text for a text slot, and for a byte slot the canonical decimal text of the stored byte: non-empty, no leading zero, with the byte as its value. |
| Messages.AsString | src/messages.rs:101-158 | `as_string`: an absent text displays as "-" and a present text as itself. An absent byte displays as "". A present byte displays as its canonical decimal text: non-empty, with no leading zero, and with the byte as its value. |
| Messages.AbsentDisplay | src/messages.rs:101-158 | An absent text displays as "-", an absent byte as "", and an empty text as "". |
| Messages.DecimalText | src/messages.rs:141-157 | `to_string` of a byte is a non-empty string of decimal digits, without a leading zero, of at most three digits. |
| Messages.DecimalRoundTrip | src/messages.rs:141-157 | Reading back the decimal text of a number gives the number. |
| Messages.WriteSlot | src/messages.rs:12-16 | Writing slot `idx` succeeds exactly when the slot exists and takes the value. It then changes that slot and no other. A missing slot is `NoSuchField`. |
| Messages.Message.SetField | src/messages.rs:12-14 | The message's new slots are those `WriteSlot` gives. On failure the slots are unchanged and the error is reported. |
| Messages.MessagesMap.constructor | src/messages.rs:81-85 | A new registry is empty. |
| Messages.MessagesMap.Get | src/messages.rs:69-79 | The lookup finds a message exactly when the address's sentence id is a key, and returns that entry. |
| Messages.GetIgnoresTalkerId | src/messages.rs:48-79 | Addresses that differ only in a recognised talker id resolve to the same registry entry. |
| NmeaParser.HandleSpec | src/nmea_parser.rs:62-76 | An unknown sentence id fails. Otherwise the call succeeds exactly when the slot write succeeds, and changes only the addressed message, only by that write. It records one callback, holding the updated slots, exactly when `fieldIdx` is the last slot. A failed write's error (`NoSuchField` or `FieldDecode`) is the call's error. |
| NmeaParser.FieldParseHandler.constructor | src/nmea_parser.rs:53-59 | A new handler refers to the given registry and has made no callback. |
| NmeaParser.FieldParseHandler.Handle | src/nmea_parser.rs:62-76 | The handler's new state is `HandleSpec` of its old state, and its failure is `HandleSpec`'s error. The registry's map of entries is untouched. |
| Checksum.Xor | src/lib.rs:36-53 | The running checksum starts from 0, and one byte alone is its own checksum. The fold properties are those of XorSnoc and XorAppend. |
| Checksum.XorSnoc | src/lib.rs:50-53 | Folding one more byte into the running checksum XORs it in. |
| Checksum.XorAppend | src/lib.rs:36-53 | The checksum of two pieces is the XOR of their checksums. |
| Checksum.DigitValue | src/lib.rs:90-99 | A digit's value fails exactly on the u8 underflow of a byte below '0'. |
| Checksum.HexCharsToU8 | src/lib.rs:87-101 | A byte below '0' in either place fails. So does a lower-case first digit, whose value times 16 overflows. |
| Checksum.HexEncode | src/lib.rs:87-101 | The writer's checksum digits are two upper-case hexadecimal digits. |
| Checksum.HexRoundTrip | src/lib.rs:87-101 | Reading the two digits written for a byte gives that byte. |
| Checksum.HexDigitsRoundTrip | src/lib.rs:87-101 | Any two upper-case hexadecimal digits are read without overflow, and they are the digits written for the byte read. |
| Checksum.HexExamples | src/lib.rs:155-171 | "72", "FA" and "6C" read as 0x72, 0xFA and 0x6C. |
| Checksum.LowerCaseSecondDigitMisread | src/lib.rs:95-99 | A lower-case second digit is not rejected: "0a" reads as 42 and "Da" as 250, while "Ea" and "Fa" overflow the u8 sum. |
| Fields.Split | src/lib.rs:55-62 | Cutting the field region at commas always gives at least one part. |
| Fields.SplitCount | src/lib.rs:55-62 | There is one more field than there are commas. |
| Fields.JoinSplit | src/lib.rs:55-62 | Joining the fields with commas gives back the region. |
| Fields.SplitPart | src/lib.rs:55-62 | No field holds a comma, and each byte of a field is a byte of the region. |
| Fields.SplitJoin | src/lib.rs:55-62 | Splitting comma-free fields joined with commas gives back the fields. |
| Fields.SplitParts | src/lib.rs:55-62 | No field holds a comma, nor a byte absent from the region, such as '*'. |
| Fields.JoinAvoids | src/lib.rs:55-62 | A byte that is not a comma and occurs in no field does not occur in the joined text. |
| Fields.SplitSnoc | src/lib.rs:50-68 | Reading one more byte: a comma opens a new empty field, and any other byte extends the open field. |
| Fields.SplitPrefix | src/lib.rs:50-68 | Fields closed by a comma stay the same whatever bytes follow. |
| Framing.AddrEnd | src/lib.rs:35-42 | `addr_end` is the first comma after the '$', or the end of the buffer. The address before it holds no comma. |
| Framing.AsteriskPos | src/lib.rs:46-69 | The scan stops at the first '*' after the address comma, or at the end of the buffer. No '*' lies between the two. |
| Framing.FieldRegion | src/lib.rs:46-69 | The bytes between the address comma and the '*' hold no '*'. |
| Framing.Dispatch | src/lib.rs:48-63 | The handler runs over the fields in order, field `i` with index `i`. A run that succeeds has fewer than 256 fields, because incrementing the u8 index after index 255 panics. |
| Framing.DispatchSnoc | src/lib.rs:56-62 | One more field is handed to the handler with the next index. The u8 increment after index 255 fails. |
| Framing.DispatchFailureSticks | src/lib.rs:56-62 | A handler panic ends the run: the fields that follow do not change its error. |
| Framing.Handled | src/lib.rs:46-69 | The fields handed to the handler: one per comma between the address comma and the '*', plus one for the '*' itself. Without a '*', the fields closed by a comma are all there are. No field holds a comma or a '*'. With a '*', they join with commas to the field region. |
| Framing.Scan | src/lib.rs:46-69 | The scan succeeds exactly when a '*' follows the address comma and the handler takes every field that `Handled` gives. |
| Framing.ScanFailsAtDelimiter | src/lib.rs:56-62 | A handler failure at any delimiter is the scan's failure, whatever follows: the run over every handled field fails as the run up to that delimiter does. |
| Framing.ScanRunsOff | src/lib.rs:50-53 | Without a '*' after the address comma, the scan reads past the end once the comma-closed fields have been handled. |
| Framing.CheckCrc | src/lib.rs:71-75 | The checksum is compared only when exactly two bytes follow the '*'. It then passes exactly when they read as the computed XOR. Digits that overflow are a panic. |
| Framing.Parse | src/lib.rs:22-85 | A buffer of at most 10 bytes is `TooShort`; otherwise a first byte other than '$' is `BadPrefix`; both are checked before anything else. A success has `consume_amt` 0 and `crc_ok` true. |
| Framing.ScanAddress | src/lib.rs:35-42 | The `while` loop stops at `AddrEnd` with the XOR of the address bytes. |
| Framing.DeliverField | src/lib.rs:57-62 | Handing the field just closed to the handler, then the u8 increment of the index, extends the run of handler calls by that field. The call fails exactly when the extended run fails, with its error; on success the handler holds the extended run's state and the index stays below 255. |
| Framing.ScanFields | src/lib.rs:44-69 | The field `loop` leaves the handler in the state `Scan` gives, or fails with `Scan`'s error. On success it stops at the first '*' with the XOR of every byte between '$' and '*'. Whenever the run of handler calls over `Handled` succeeds, the handler is left in that run's state, even if the scan then fails for want of a '*'. |
| Framing.GetMessageBody | src/lib.rs:22-85 | The framer returns what `Parse` returns and leaves the handler in the state `Parse` gives. A buffer that is too short, lacks the '$' or ends at the address comma leaves the handler untouched. Whenever every handler call succeeds, the handler is left in the state of that run, including its callback, even when the parse then fails on the checksum or for want of a '*'. |
| Properties.DispatchEffect | src/nmea_parser.rs:62-76 | A run of handler calls succeeds exactly when the message is registered, has a slot for every field, every slot takes its field, and there are fewer than 256 fields. It then writes the first fields into the first slots, changes nothing else, and calls back once exactly when the last slot was written. |
| Properties.CompleteRunNotifiesOnce | src/nmea_parser.rs:66-75 | A sentence with exactly as many fields as its message has slots makes the callback fire exactly once, with every field stored. |
| Properties.ShortRunIsSilent | src/nmea_parser.rs:63-76 | A sentence with fewer fields than slots makes no callback. It leaves other messages and the unwritten slots unchanged; nothing clears them. |
| Sentences.ParseSuccessFacts | src/lib.rs:22-85 | A success means all of the following. The buffer is framed. The address is the comma-free text before the first comma. The handler saw the comma-separated fields of the region, in order. When two bytes follow the '*', they read as the XOR of the bytes between '$' and '*'. |
| Sentences.RegionIsJoinedFields | src/lib.rs:46-69 | The fields handed to the handler, joined with commas, are the field region. There is one field per comma plus one, and no field holds a comma or a '*'. |
| Sentences.AsWrittenFieldsSlice | src/lib.rs:77-84 | The returned `fields` slice is the field region shifted one byte left: the address comma, then the region without its last byte. |
| Sentences.SentenceFraming | src/lib.rs:35-69 | In a written sentence the framer finds exactly what was written: the address, the field region, the fields and the tail. |
| Sentences.WrittenSentenceParses | src/lib.rs:22-85 | A written sentence with its own checksum parses exactly when the handler accepts its fields. The result then carries the written address and the state of those calls, and a refusal is the handler's error. |
| Sentences.WrongChecksumRejected | src/lib.rs:71-75 | Two valid digits that name another checksum are rejected with `ChecksumMismatch`. |
| Sentences.UncheckedTail | src/lib.rs:71-75 | When the tail after '*' is not exactly two bytes, no checksum is compared. |
| Vectors.GllCrc | src/lib.rs:143-148 | The checksum of "$GPGLL,3751.65,S,14507.36,E*77" is 0x77, written "77". |
| Vectors.GllIsWritten | src/lib.rs:143-153 | That sentence, with and without its digits, is the writer's output for address "GPGLL" and the four GLL fields. |
| Vectors.GllAddress | src/messages.rs:32-45 | "GPGLL" and "GPRMC" are the ids "GLL" and "RMC" behind the talker id "GP". |
| Vectors.SimpleValidNmea | src/lib.rs:143-148 | The GLL sentence parses exactly when the handler takes its four fields. It then has address "GPGLL" and `crc_ok`. |
| Vectors.GllFillsItsMessage | src/nmea_parser.rs:62-76 | With GLL registered as four text slots, the GLL sentence parses, stores the four texts and calls back once. |
| Vectors.EmptyValidNmea | src/lib.rs:136-141 | "$GPRMC,,*4B" parses exactly when the handler takes two empty fields. It then has address "GPRMC" and `crc_ok`. |
| Vectors.ValidNmeaWithoutCrc | src/lib.rs:150-153 | The GLL sentence without checksum digits parses exactly when the handler takes its fields. |
| Vectors.CrLfSkipsChecksum | src/lib.rs:71-75 | The GLL sentence with the wrong digits "00" followed by CR LF is accepted: no checksum is compared. |
| Vectors.WrongGllChecksum | src/lib.rs:71-75 | The GLL sentence with "78" in place of "77" is rejected with `ChecksumMismatch`. |
| Vectors.CrLfWithoutDigitsOverflows | src/lib.rs:71-75 | The GLL sentence with no digits but with CR LF after the '*' fails with `ArithmeticOverflow`: CR LF is decoded as digits and CR minus '0' underflows. |
| Vectors.WrongGllChecksumAfterCallback | src/lib.rs:50-75 | With four text slots registered for GLL, the sentence with checksum "78" fails with `ChecksumMismatch`, yet the run over its handled fields succeeds and makes the callback once. |
| Vectors.IncorrectPrefix | src/lib.rs:130-134 | "ups***KJHASDKJHASDLkjkljasd" is rejected with `BadPrefix`. |
| Vectors.GllFieldsSliceShifted | src/lib.rs:77-84 | For the GLL sentence, the returned `fields` is ",3751.65,S,14507.36,". The region that the handler's fields join to is "3751.65,S,14507.36,E". |

## Left out

- `NmeaParser::parse` (src/nmea_parser.rs:29-50) is left out. Its `fill_buf`/`consume` loop is I/O, and with `consume_amt` always 0 it never advances.
- `src/main.rs` is not part of this model. It holds the command line, the choice between file and standard input, and the downcasting callback.
- The f64 and `Option<f64>` slot setters (src/messages.rs:109-133) are left out: they parse and format floating point. Slots are text, u8 and `Option<u8>` only.
- `println!` diagnostics, and the test stub handler of src/lib.rs, are left out.
- The callback is recorded as a `Notification` of the message's key and slots, in place of the `dyn Any` value it receives.
- `as_any`, `message_type`, `clear`, `get_addr` and the generated message types with `add_all_messages` are not part of this model. A message is a sequence of slots.
- `get_field_mut` is generated code that is not shown. It is modelled as slot `idx` of the message, failing with `NoSuchField` when there is no such slot. The field count is the number of slots, so a message with no slot never reaches the u8 subtraction `field_count() - 1`.
- The `HandleField` trait is not modelled: `GetMessageBody` calls `FieldParseHandler.Handle` directly.
- `HashMap` hashing and Rust lifetimes are left out. The registry is a Dafny `map` keyed on the sentence id, and slices are subsequences.
- Messages.SetFromSlice: UTF-8 validation inside `String::from_utf8(...).unwrap()` is not modelled. A text slot takes any bytes, one character per byte, so the panic on invalid UTF-8 is missing.
- Messages.SetFromSlice: for an `Option<u8>` slot with empty input, the model returns the panic. It does not show the `None` written just before that panic.
- Framing.GetMessageBody: after a panic the program aborts. When a handler call itself fails, the model states the error returned and keeps the registry's map and `Valid()`. It does not state the slots written, or the callbacks made, by the calls before the failing one.
- Framing.Parse: u8 arithmetic is checked as in a debug build. The wrapping of a release build is not modelled, either in `hex_chars_to_u8` or in the field index.

## Findings

| source | as written | input that shows it | evidently intended | confidence | as-written member | corrected member |
|---|---|---|---|---|---|---|
| src/lib.rs:81 | The returned `fields` slice starts at the address comma and ends one byte before the '*'. | `$GPGLL,3751.65,S,14507.36,E*77` gives `,3751.65,S,14507.36,` | The field region between the address comma and the '*', `3751.65,S,14507.36,E`: the bytes whose comma-separated parts the handler receives. | medium, not executed | Vectors.GllFieldsSliceShifted | Sentences.RegionIsJoinedFields |

`NmeaMessage.fields` in `Parse` and `GetMessageBody` keeps the slice as written (`Sentences.AsWrittenFieldsSlice`). The corrected region is `Framing.FieldRegion`. The field scan, `Handled` and every sentence lemma are stated on it, and `Sentences.RegionIsJoinedFields` proves that it is the comma-join of the handled fields.
