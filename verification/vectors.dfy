/** The sentences of the program's unit tests, and a few neighbours of them,
    stated as facts about `Parse`. Bytes are written as their ASCII codes. */
module Vectors {
  import opened Common
  import opened Checksum
  import opened Fields
  import opened Messages
  import opened NmeaParser
  import opened Framing
  import opened Properties
  import opened Sentences

  const GP: seq<byte> := [0x47, 0x50]                      // "GP"
  const GPGLL: seq<byte> := [0x47, 0x50, 0x47, 0x4C, 0x4C]  // "GPGLL"
  const GLL: seq<byte> := [0x47, 0x4C, 0x4C]                // "GLL"
  const GPRMC: seq<byte> := [0x47, 0x50, 0x52, 0x4D, 0x43]  // "GPRMC"
  const RMC: seq<byte> := [0x52, 0x4D, 0x43]                // "RMC"

  /** "3751.65", "S", "14507.36", "E" */
  const GLL_FIELDS: seq<seq<byte>> :=
    [[0x33, 0x37, 0x35, 0x31, 0x2E, 0x36, 0x35], [0x53],
     [0x31, 0x34, 0x35, 0x30, 0x37, 0x2E, 0x33, 0x36], [0x45]]

  /** "3751.65,S,14507.36,E" */
  const GLL_REGION: seq<byte> :=
    [0x33, 0x37, 0x35, 0x31, 0x2E, 0x36, 0x35, 0x2C, 0x53, 0x2C,
     0x31, 0x34, 0x35, 0x30, 0x37, 0x2E, 0x33, 0x36, 0x2C, 0x45]

  /** "$GPGLL,3751.65,S,14507.36,E*77" */
  const GLL_SENTENCE: seq<byte> := [DOLLAR] + GPGLL + [COMMA] + GLL_REGION + [ASTERISK] + [0x37, 0x37]

  /** "$GPGLL,3751.65,S,14507.36,E*" */
  const GLL_NO_CRC: seq<byte> := [DOLLAR] + GPGLL + [COMMA] + GLL_REGION + [ASTERISK]

  /** "$GPRMC,,*4B" */
  const RMC_SENTENCE: seq<byte> := [0x24, 0x47, 0x50, 0x52, 0x4D, 0x43, 0x2C, 0x2C, 0x2A, 0x34, 0x42]

  /** "ups***KJHASDKJHASDLkjkljasd" */
  const UPS: seq<byte> :=
    [0x75, 0x70, 0x73, 0x2A, 0x2A, 0x2A, 0x4B, 0x4A, 0x48, 0x41, 0x53, 0x44, 0x4B, 0x4A,
     0x48, 0x41, 0x53, 0x44, 0x4C, 0x6B, 0x6A, 0x6B, 0x6C, 0x6A, 0x61, 0x73, 0x64]

  /** The GLL fields joined with commas: "3751.65,S,14507.36,E". */
  lemma GllJoin()
    ensures Join(GLL_FIELDS) == GLL_REGION
  {
  }

  /** The checksum of the GLL sentence is 0x77, written "77". */
  lemma GllCrc()
    ensures SentenceCrc(GPGLL, GLL_FIELDS) == 0x77
    ensures HexEncode(0x77) == [0x37, 0x37]
  {
    GllJoin();
    var c1: seq<byte> := [0x47, 0x50, 0x47, 0x4C];
    var c2: seq<byte> := [0x4C, 0x2C, 0x33, 0x37];
    var c3: seq<byte> := [0x35, 0x31, 0x2E, 0x36];
    var c4: seq<byte> := [0x35, 0x2C, 0x53, 0x2C];
    var c5: seq<byte> := [0x31, 0x34, 0x35, 0x30];
    var c6: seq<byte> := [0x37, 0x2E, 0x33, 0x36];
    var c7: seq<byte> := [0x2C, 0x45, 0x00, 0x00];
    var tail := c6 + c7;
    var m := GPGLL + [COMMA] + Join(GLL_FIELDS);
    assert m + [0x00] + [0x00] == c1 + (c2 + (c3 + (c4 + (c5 + tail))));
    XorAppend(c6, c7);
    XorAppend(c5, tail);
    XorAppend(c4, c5 + tail);
    XorAppend(c3, c4 + (c5 + tail));
    XorAppend(c2, c3 + (c4 + (c5 + tail)));
    XorAppend(c1, c2 + (c3 + (c4 + (c5 + tail))));
    XorSnoc(m, 0x00);
    XorSnoc(m + [0x00], 0x00);
  }

  /** The GLL sentence is the written sentence of its address and fields. */
  lemma GllIsWritten()
    ensures Writable(GPGLL, GLL_FIELDS)
    ensures SentenceCrc(GPGLL, GLL_FIELDS) == 0x77
    ensures GLL_SENTENCE == Sentence(GPGLL, GLL_FIELDS, HexEncode(0x77))
    ensures GLL_NO_CRC == Sentence(GPGLL, GLL_FIELDS, [])
  {
    GllCrc();
    GllJoin();
    forall i | 0 <= i < |GLL_FIELDS|
      ensures COMMA !in GLL_FIELDS[i] && ASTERISK !in GLL_FIELDS[i]
    {
    }
  }

  /** The address "GPGLL" is the sentence id "GLL" behind the talker id "GP". */
  lemma GllAddress()
    ensures NewAddrField(GPGLL) == AddrField(GLL, GP)
    ensures NewAddrField(GPRMC) == AddrField(RMC, GP)
  {
    KeyIgnoresTalkerId(GP, GP, GLL);
    KeyIgnoresTalkerId(GP, GP, RMC);
    assert GPGLL == GP + GLL && GPRMC == GP + RMC;
  }

  /** "simple_valid_nmea": the GLL sentence parses exactly when the handler
      takes its four fields, with address "GPGLL". */
  lemma SimpleValidNmea(s: HandlerState)
    ensures var run := Dispatch(s, AddrField(GLL, GP), GLL_FIELDS);
      (Parse(GLL_SENTENCE, s).Success? <==> run.Success?) &&
      (run.Success? ==>
        Parse(GLL_SENTENCE, s).value.body.message.addrField == GPGLL &&
        Parse(GLL_SENTENCE, s).value.body.message.crcOk &&
        Parse(GLL_SENTENCE, s).value.state == run.value)
  {
    GllIsWritten();
    GllAddress();
    WrittenSentenceParses(GPGLL, GLL_FIELDS, s);
  }

  /** With "GLL" registered as four text slots, the GLL sentence parses, fills
      the four slots with the four texts, and calls the callback once. */
  lemma GllFillsItsMessage(s: HandlerState)
    requires GLL in s.msgs && |s.msgs[GLL]| == 4
    requires forall i :: 0 <= i < 4 ==> s.msgs[GLL][i].OptText?
    ensures Parse(GLL_SENTENCE, s).Success?
    ensures var r := Parse(GLL_SENTENCE, s).value.state;
      GLL in r.msgs && |r.msgs[GLL]| == 4 &&
      (forall i :: 0 <= i < 4 ==> r.msgs[GLL][i] == OptText(Some(Text(GLL_FIELDS[i])))) &&
      r.notified == s.notified + [Notification(GLL, r.msgs[GLL])]
  {
    SimpleValidNmea(s);
    CompleteRunNotifiesOnce(s, AddrField(GLL, GP), GLL_FIELDS);
    DispatchEffect(s, AddrField(GLL, GP), GLL_FIELDS);
  }

  /** "empty_valid_nmea": "$GPRMC,,*4B" has two empty fields and checksum
      0x4B; it parses exactly when the handler takes them. */
  lemma EmptyValidNmea(s: HandlerState)
    ensures var run := Dispatch(s, AddrField(RMC, GP), [[], []]);
      (Parse(RMC_SENTENCE, s).Success? <==> run.Success?) &&
      (run.Success? ==>
        Parse(RMC_SENTENCE, s).value.body.message.addrField == GPRMC &&
        Parse(RMC_SENTENCE, s).value.body.message.crcOk)
  {
    var fields: seq<seq<byte>> := [[], []];
    assert Join(fields) == [COMMA];
    var m := GPRMC + [COMMA] + Join(fields);
    assert m + [0x00] == [0x47, 0x50, 0x52, 0x4D] + [0x43, 0x2C, 0x2C, 0x00];
    XorSnoc(m, 0x00);
    XorAppend([0x47, 0x50, 0x52, 0x4D], [0x43, 0x2C, 0x2C, 0x00]);
    assert SentenceCrc(GPRMC, fields) == 0x4B;
    assert HexEncode(0x4B) == [0x34, 0x42];
    assert RMC_SENTENCE == Sentence(GPRMC, fields, HexEncode(0x4B));
    GllAddress();
    WrittenSentenceParses(GPRMC, fields, s);
  }

  /** "simple_valid_nmea_without_crc": with nothing after the '*' no checksum
      is compared. */
  lemma ValidNmeaWithoutCrc(s: HandlerState)
    ensures Parse(GLL_NO_CRC, s).Success? <==> Dispatch(s, AddrField(GLL, GP), GLL_FIELDS).Success?
  {
    GllIsWritten();
    GllAddress();
    UncheckedTail(GPGLL, GLL_FIELDS, [], s);
  }

  /** The GLL sentence with its CR LF terminator still attached and a wrong
      checksum "00" is accepted: four bytes follow the '*', so nothing is
      compared. */
  lemma CrLfSkipsChecksum(s: HandlerState)
    ensures var buf := Sentence(GPGLL, GLL_FIELDS, [0x30, 0x30, 0x0D, 0x0A]);
      Parse(buf, s).Success? <==> Dispatch(s, AddrField(GLL, GP), GLL_FIELDS).Success?
  {
    GllIsWritten();
    GllAddress();
    UncheckedTail(GPGLL, GLL_FIELDS, [0x30, 0x30, 0x0D, 0x0A], s);
  }

  /** The GLL sentence with checksum "78" instead of "77" is rejected. */
  lemma WrongGllChecksum(s: HandlerState)
    requires Dispatch(s, AddrField(GLL, GP), GLL_FIELDS).Success?
    ensures Parse(Sentence(GPGLL, GLL_FIELDS, [0x37, 0x38]), s) == Failure(ChecksumMismatch)
  {
    GllIsWritten();
    GllAddress();
    WrongChecksumRejected(GPGLL, GLL_FIELDS, [0x37, 0x38], s);
  }

  /** The GLL sentence with its digits missing but its CR LF terminator still
      attached: exactly two bytes follow the '*', so CR LF is decoded as digits
      and the subtraction of '0' from CR underflows. */
  lemma CrLfWithoutDigitsOverflows(s: HandlerState)
    requires Dispatch(s, AddrField(GLL, GP), GLL_FIELDS).Success?
    ensures Parse(Sentence(GPGLL, GLL_FIELDS, [0x0D, 0x0A]), s) == Failure(ArithmeticOverflow)
  {
    var tail: seq<byte> := [0x0D, 0x0A];
    var buf := Sentence(GPGLL, GLL_FIELDS, tail);
    var star := |GPGLL| + 2 + |Join(GLL_FIELDS)|;
    GllIsWritten();
    GllAddress();
    SentenceFraming(GPGLL, GLL_FIELDS, tail);
    assert Scan(buf, s) == Dispatch(s, AddrField(GLL, GP), GLL_FIELDS);
    assert HexCharsToU8(tail) == None;
    ParseAfterScan(buf, s, star, Xor(buf[1..star]));
  }

  /** The GLL sentence with checksum "78" is rejected only after the scan: by
      then the handler has taken all four fields and made its callback. This
      is the handler state that `GetMessageBody` leaves behind. */
  lemma WrongGllChecksumAfterCallback(s: HandlerState)
    requires GLL in s.msgs && |s.msgs[GLL]| == 4
    requires forall i :: 0 <= i < 4 ==> s.msgs[GLL][i].OptText?
    ensures var buf := Sentence(GPGLL, GLL_FIELDS, [0x37, 0x38]);
      Parse(buf, s) == Failure(ChecksumMismatch) && Framed(buf) &&
      var run := Dispatch(s, NewAddrField(buf[1..AddrEnd(buf)]), Handled(buf));
      run.Success? && GLL in run.value.msgs &&
      run.value.notified == s.notified + [Notification(GLL, run.value.msgs[GLL])]
  {
    var buf := Sentence(GPGLL, GLL_FIELDS, [0x37, 0x38]);
    GllIsWritten();
    GllAddress();
    CompleteRunNotifiesOnce(s, AddrField(GLL, GP), GLL_FIELDS);
    WrongGllChecksum(s);
    SentenceFraming(GPGLL, GLL_FIELDS, [0x37, 0x38]);
    assert NewAddrField(buf[1..AddrEnd(buf)]) == AddrField(GLL, GP);
    assert Handled(buf) == GLL_FIELDS;
  }

  /** "incorrect_prefix": a buffer that does not start with '$' is rejected,
      whatever the handler holds. */
  lemma IncorrectPrefix(s: HandlerState)
    ensures Parse(UPS, s) == Failure(BadPrefix)
  {
  }

  /** The `fields` slice returned for the GLL sentence starts at the address
      comma and lacks the final "E", while the fields handed to the handler
      join to "3751.65,S,14507.36,E". */
  lemma GllFieldsSliceShifted(s: HandlerState)
    requires Parse(GLL_SENTENCE, s).Success?
    ensures Parse(GLL_SENTENCE, s).value.body.message.fields == [COMMA] + GLL_REGION[..19]
    ensures Join(Handled(GLL_SENTENCE)) == FieldRegion(GLL_SENTENCE) == GLL_REGION
    ensures Parse(GLL_SENTENCE, s).value.body.message.fields != FieldRegion(GLL_SENTENCE)
  {
    GllIsWritten();
    GllJoin();
    SentenceFraming(GPGLL, GLL_FIELDS, HexEncode(0x77));
    ParseSuccessFacts(GLL_SENTENCE, s);
    RegionIsJoinedFields(GLL_SENTENCE);
    AsWrittenFieldsSlice(GLL_SENTENCE);
    assert GLL_REGION[0] != COMMA;
  }
}
