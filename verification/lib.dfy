/** The sentence framer `get_message_body`: it checks the '$' prefix, scans the
    address up to the first comma, then scans the fields up to the first '*',
    handing each comma- or asterisk-terminated field to the field handler with
    an increasing index while it folds every byte between '$' and '*' into an
    XOR checksum, and finally compares that checksum with the two hexadecimal
    digits after '*' when exactly two bytes follow it. */
module Framing {
  import opened Common
  import opened Checksum
  import opened Fields
  import opened Messages
  import opened NmeaParser

  /** `NmeaMessage`: the address token, the `fields` slice as the source cuts
      it, and `crc_ok`. */
  datatype NmeaMessage = NmeaMessage(addrField: seq<byte>, fields: seq<byte>, crcOk: bool)

  /** What `get_message_body` returns: the number of bytes to consume and the
      message. */
  datatype Body = Body(consumeAmt: byte, message: NmeaMessage)

  /** A successful parse: the returned body and the handler state it left. */
  datatype Parsed = Parsed(body: Body, state: HandlerState)

  /** The first index at or after `from` that holds `b`, or `|buf|` when there
      is none. */
  function FirstFrom(buf: seq<byte>, b: byte, from: nat): (i: nat)
    requires from <= |buf|
    ensures from <= i <= |buf|
    ensures i < |buf| ==> buf[i] == b
    ensures forall j :: from <= j < i ==> buf[j] != b
    decreases |buf| - from
  {
    if from == |buf| || buf[from] == b then from else FirstFrom(buf, b, from + 1)
  }

  /** Any index with the properties of the first occurrence is the first
      occurrence. */
  lemma FirstFromIs(buf: seq<byte>, b: byte, from: nat, i: nat)
    requires from <= i <= |buf|
    requires i < |buf| ==> buf[i] == b
    requires forall j :: from <= j < i ==> buf[j] != b
    ensures FirstFrom(buf, b, from) == i
  {
  }

  /** `addr_end`: the first comma after the '$'. */
  function AddrEnd(buf: seq<byte>): (i: nat)
    requires |buf| >= 1
    ensures 1 <= i <= |buf|
    ensures i < |buf| ==> buf[i] == COMMA
    ensures COMMA !in buf[1..i]
  {
    var i := FirstFrom(buf, COMMA, 1);
    assert forall j :: 0 <= j < i - 1 ==> buf[1..i][j] == buf[j + 1];
    i
  }

  /** `asterisk_pos` where the scan loop stops: the first '*' after the
      address comma. */
  function AsteriskPos(buf: seq<byte>): (i: nat)
    requires |buf| >= 1 && AddrEnd(buf) < |buf|
    ensures AddrEnd(buf) + 1 <= i <= |buf|
    ensures i < |buf| ==> buf[i] == ASTERISK
    ensures ASTERISK !in buf[AddrEnd(buf) + 1..i]
  {
    var rs := AddrEnd(buf) + 1;
    var i := FirstFrom(buf, ASTERISK, rs);
    assert forall j :: 0 <= j < i - rs ==> buf[rs..i][j] == buf[j + rs];
    i
  }

  /** The bytes between the address comma and the '*': what the handler is
      given, field by field. */
  function FieldRegion(buf: seq<byte>): (region: seq<byte>)
    requires |buf| >= 1 && AddrEnd(buf) < |buf|
    ensures ASTERISK !in region
    ensures |region| == AsteriskPos(buf) - AddrEnd(buf) - 1
  {
    buf[AddrEnd(buf) + 1..AsteriskPos(buf)]
  }

  /** The handler driven over `fields` in order, field `i` with index `i`,
      starting from state `s`. The first failing call ends the run; so does the
      u8 index increment after the field with index 255. */
  function Dispatch(s: HandlerState, addr: AddrField, fields: seq<seq<byte>>): (r: Result<HandlerState>)
    ensures r.Success? ==> |fields| < 256
    decreases |fields|
  {
    if fields == [] then Success(s)
    else
      var n := |fields| - 1;
      match Dispatch(s, addr, fields[..n])
      case Failure(e) => Failure(e)
      case Success(t) =>
        match HandleSpec(t, addr, n, fields[n])
        case Failure(e) => Failure(e)
        case Success(u) => if n == 255 then Failure(ArithmeticOverflow) else Success(u)
  }

  /** One more field: the handler is called with the next index. */
  lemma DispatchSnoc(s: HandlerState, addr: AddrField, fields: seq<seq<byte>>, field: seq<byte>, t: HandlerState)
    requires Dispatch(s, addr, fields) == Success(t)
    ensures Dispatch(s, addr, fields + [field]) ==
      match HandleSpec(t, addr, |fields|, field)
      case Failure(e) => Failure(e)
      case Success(u) => if |fields| == 255 then Failure(ArithmeticOverflow) else Success(u)
  {
    assert (fields + [field])[..|fields|] == fields;
  }

  /** Once a run has failed, further fields do not matter: the error of the
      first failure is the error of the whole run. */
  lemma {:induction false} DispatchFailureSticks(s: HandlerState, addr: AddrField, fields: seq<seq<byte>>, more: seq<seq<byte>>)
    requires Dispatch(s, addr, fields).Failure?
    ensures Dispatch(s, addr, fields + more) == Dispatch(s, addr, fields)
    decreases |more|
  {
    if more == [] {
      assert fields + more == fields;
    } else {
      var m := more[..|more| - 1];
      DispatchFailureSticks(s, addr, fields, m);
      assert (fields + more)[..|fields + more| - 1] == fields + m;
      assert Dispatch(s, addr, fields + m).Failure?;
    }
  }

  /** The fields the scan hands to the handler: every part closed by a comma
      or by the '*'. Without a '*' the unterminated last part is not handed
      over. */
  function Handled(buf: seq<byte>): (fields: seq<seq<byte>>)
    requires |buf| >= 1 && AddrEnd(buf) < |buf|
    ensures |fields| ==
      Count(buf[AddrEnd(buf) + 1..AsteriskPos(buf)], COMMA) + (if AsteriskPos(buf) < |buf| then 1 else 0)
    ensures forall i :: 0 <= i < |fields| ==> COMMA !in fields[i] && ASTERISK !in fields[i]
    ensures AsteriskPos(buf) < |buf| ==> Join(fields) == FieldRegion(buf)
  {
    var rest := buf[AddrEnd(buf) + 1..AsteriskPos(buf)];
    SplitCount(rest);
    SplitParts(rest, ASTERISK);
    if AsteriskPos(buf) == |buf| then
      assert buf[AddrEnd(buf) + 1..] == rest;
      AllButLast(Split(rest))
    else
      JoinSplit(rest);
      Split(rest)
  }

  /** The first bytes are checked before anything else; the scan has a
      non-empty rest of the buffer to read. */
  predicate Framed(buf: seq<byte>) {
    |buf| > 10 && buf[0] == DOLLAR && AddrEnd(buf) + 1 < |buf|
  }

  /** The field scan on the abstract handler state: every field is handed to
      the handler, and the scan must then stop at a '*' rather than read past
      the end of the buffer. */
  function Scan(buf: seq<byte>, s: HandlerState): (r: Result<HandlerState>)
    requires Framed(buf)
    ensures r.Success? <==>
      AsteriskPos(buf) < |buf| && Dispatch(s, NewAddrField(buf[1..AddrEnd(buf)]), Handled(buf)).Success?
  {
    match Dispatch(s, NewAddrField(buf[1..AddrEnd(buf)]), Handled(buf))
    case Failure(e) => Failure(e)
    case Success(t) => if AsteriskPos(buf) == |buf| then Failure(IndexOutOfRange) else Success(t)
  }

  /** The checksum comparison after the scan, given the bytes after the '*'
      and the checksum computed: it is made only when exactly two bytes follow
      the '*', and then fails when they do not decode or decode to another
      value. */
  function CheckCrc(tail: seq<byte>, crc: byte): (r: Outcome)
    ensures |tail| != 2 ==> r == Pass
    ensures |tail| == 2 ==> (r == Pass <==> HexCharsToU8(tail) == Some(crc))
    ensures |tail| == 2 && HexCharsToU8(tail).None? ==> r == Fail(ArithmeticOverflow)
  {
    if |tail| != 2 then Pass
    else
      match HexCharsToU8(tail)
      case None => Fail(ArithmeticOverflow)
      case Some(expected) => if expected != crc then Fail(ChecksumMismatch) else Pass
  }

  /** `get_message_body` on the abstract handler state: the returned body and
      the state after all handler calls, or the panic that ends the run. */
  function Parse(buf: seq<byte>, s: HandlerState): (r: Result<Parsed>)
    ensures |buf| <= 10 ==> r == Failure(TooShort)
    ensures |buf| > 10 && buf[0] != DOLLAR ==> r == Failure(BadPrefix)
    ensures r.Success? ==> r.value.body.consumeAmt == 0 && r.value.body.message.crcOk
  {
    if |buf| <= 10 then Failure(TooShort)
    else if buf[0] != DOLLAR then Failure(BadPrefix)
    // The scan loop starts by reading the byte after the address comma.
    else if AddrEnd(buf) + 1 >= |buf| then Failure(IndexOutOfRange)
    else
      match Scan(buf, s)
      case Failure(e) => Failure(e)
      case Success(t) =>
        var addrEnd, star := AddrEnd(buf), AsteriskPos(buf);
        match CheckCrc(buf[star + 1..], Xor(buf[1..star]))
        case Fail(e) => Failure(e)
        case Pass => Success(Parsed(Body(0, NmeaMessage(buf[1..addrEnd], buf[addrEnd..star - 1], true)), t))
  }

  /** The fields closed by the delimiter at `p` have all been handed over
      before the scan goes on: they are a prefix of `Handled`. */
  lemma HandledUpTo(buf: seq<byte>, p: nat)
    requires Framed(buf)
    requires AddrEnd(buf) + 1 <= p < |buf| && (buf[p] == COMMA || buf[p] == ASTERISK)
    requires ASTERISK !in buf[AddrEnd(buf) + 1..p]
    ensures Split(buf[AddrEnd(buf) + 1..p]) <= Handled(buf)
  {
    var rs := AddrEnd(buf) + 1;
    assert forall j :: rs <= j < p ==> buf[j] == buf[rs..p][j - rs];
    if buf[p] == ASTERISK {
      FirstFromIs(buf, ASTERISK, rs, p);
    } else {
      HandledUpToComma(buf, p);
    }
  }

  lemma HandledUpToComma(buf: seq<byte>, p: nat)
    requires Framed(buf)
    requires AddrEnd(buf) + 1 <= p < |buf| && buf[p] == COMMA
    requires p < AsteriskPos(buf)
    ensures Split(buf[AddrEnd(buf) + 1..p]) <= Handled(buf)
  {
    var rs := AddrEnd(buf) + 1;
    var star := AsteriskPos(buf);
    var closed, head, more := buf[rs..p], buf[rs..p + 1], buf[p + 1..star];
    assert head == closed + [COMMA];
    SplitSnoc(closed, COMMA);
    assert AllButLast(Split(head)) == Split(closed);
    assert buf[rs..star] == head + more;
    SplitPrefix(head, more);
    var all := Split(buf[rs..star]);
    assert Split(closed) <= AllButLast(all);
    if star < |buf| {
      assert AllButLast(all) <= all;
    }
  }

  /** A handler call that fails at a delimiter `p` ends the scan with its
      error, whatever follows `p`. */
  lemma ScanFailsAtDelimiter(buf: seq<byte>, s: HandlerState, p: nat)
    requires Framed(buf)
    requires AddrEnd(buf) + 1 <= p < |buf| && (buf[p] == COMMA || buf[p] == ASTERISK)
    requires ASTERISK !in buf[AddrEnd(buf) + 1..p]
    requires Dispatch(s, NewAddrField(buf[1..AddrEnd(buf)]), Split(buf[AddrEnd(buf) + 1..p])).Failure?
    ensures Dispatch(s, NewAddrField(buf[1..AddrEnd(buf)]), Handled(buf)) ==
      Dispatch(s, NewAddrField(buf[1..AddrEnd(buf)]), Split(buf[AddrEnd(buf) + 1..p]))
    ensures Scan(buf, s) ==
      Failure(Dispatch(s, NewAddrField(buf[1..AddrEnd(buf)]), Split(buf[AddrEnd(buf) + 1..p])).error)
  {
    var done := Split(buf[AddrEnd(buf) + 1..p]);
    HandledUpTo(buf, p);
    var handled := Handled(buf);
    assert handled == done + handled[|done|..];
    DispatchFailureSticks(s, NewAddrField(buf[1..AddrEnd(buf)]), done, handled[|done|..]);
  }

  /** With no '*' after the address comma, the scan reads past the end once
      every comma-closed field has been handled. */
  lemma ScanRunsOff(buf: seq<byte>, s: HandlerState)
    requires Framed(buf)
    requires ASTERISK !in buf[AddrEnd(buf) + 1..]
    requires Dispatch(s, NewAddrField(buf[1..AddrEnd(buf)]), AllButLast(Split(buf[AddrEnd(buf) + 1..]))).Success?
    ensures Scan(buf, s) == Failure(IndexOutOfRange)
  {
    var rs := AddrEnd(buf) + 1;
    assert AsteriskPos(buf) == |buf|;
    assert buf[rs..AsteriskPos(buf)] == buf[rs..];
  }

  /** One more byte folded into the running checksum. */
  lemma XorStep(buf: seq<byte>, p: nat)
    requires 1 <= p < |buf|
    ensures Xor(buf[1..p + 1]) == Xor(buf[1..p]) ^ buf[p]
  {
    assert buf[1..p + 1] == buf[1..p] + [buf[p]];
    XorSnoc(buf[1..p], buf[p]);
  }

  /** One step of the field scan, in terms of the parts read so far: the
      parts closed before `fieldStart` and the open part after it. */
  lemma ScanStep(buf: seq<byte>, rs: nat, fieldStart: nat, p: nat, closed: seq<seq<byte>>)
    requires rs <= fieldStart <= p < |buf|
    requires closed + [buf[fieldStart..p]] == Split(buf[rs..p])
    ensures buf[p] == COMMA ==>
      (closed + [buf[fieldStart..p]]) + [buf[p + 1..p + 1]] == Split(buf[rs..p + 1])
    ensures buf[p] != COMMA ==> closed + [buf[fieldStart..p + 1]] == Split(buf[rs..p + 1])
  {
    assert buf[rs..p + 1] == buf[rs..p] + [buf[p]];
    assert buf[fieldStart..p + 1] == buf[fieldStart..p] + [buf[p]];
    SplitSnoc(buf[rs..p], buf[p]);
    assert AllButLast(closed + [buf[fieldStart..p]]) == closed;
    assert buf[p + 1..p + 1] == [];
  }

  /** The scan moves from `p` to `q`, past a byte that is not '*': the
      checksum takes the byte in, and the byte either extends the open field or,
      as a comma, closes it and opens an empty one. */
  lemma ScanAdvance(buf: seq<byte>, rs: nat, fs: nat, p: nat, q: nat, closed: seq<seq<byte>>,
                    fieldStart: nat, emitted: seq<seq<byte>>)
    requires 1 <= rs <= fs <= p < |buf| && q == p + 1 && buf[p] != ASTERISK
    requires ASTERISK !in buf[rs..p]
    requires closed + [buf[fs..p]] == Split(buf[rs..p])
    requires buf[p] == COMMA ==> fieldStart == q && emitted == closed + [buf[fs..p]]
    requires buf[p] != COMMA ==> fieldStart == fs && emitted == closed
    ensures ASTERISK !in buf[rs..q]
    ensures Xor(buf[1..q]) == Xor(buf[1..p]) ^ buf[p]
    ensures emitted + [buf[fieldStart..q]] == Split(buf[rs..q])
  {
    XorStep(buf, p);
    NoAsteriskStep(buf, rs, p);
    ScanStep(buf, rs, fs, p, closed);
  }

  lemma NoAsteriskStep(buf: seq<byte>, rs: nat, p: nat)
    requires rs <= p < |buf| && buf[p] != ASTERISK
    requires ASTERISK !in buf[rs..p]
    ensures ASTERISK !in buf[rs..p + 1]
  {
    assert buf[rs..p + 1] == buf[rs..p] + [buf[p]];
  }

  /** The scan stops at the first '*' after the address comma. */
  lemma AsteriskAt(buf: seq<byte>, p: nat)
    requires |buf| >= 1 && AddrEnd(buf) + 1 <= p < |buf| && buf[p] == ASTERISK
    requires ASTERISK !in buf[AddrEnd(buf) + 1..p]
    ensures AsteriskPos(buf) == p
  {
    var rs := AddrEnd(buf) + 1;
    assert forall j :: rs <= j < p ==> buf[j] == buf[rs..p][j - rs];
    FirstFromIs(buf, ASTERISK, rs, p);
  }

  /** A framed buffer whose scan fails: the parse fails with the same error. */
  lemma ParseScanFails(buf: seq<byte>, s: HandlerState)
    requires Framed(buf) && Scan(buf, s).Failure?
    ensures Parse(buf, s) == Failure(Scan(buf, s).error)
  {
  }

  /** A framed buffer whose scan succeeds: the checksum comparison decides the
      parse. */
  lemma ParseAfterScan(buf: seq<byte>, s: HandlerState, star: nat, crc: byte)
    requires Framed(buf) && Scan(buf, s).Success?
    requires star == AsteriskPos(buf) && crc == Xor(buf[1..star])
    ensures Parse(buf, s) ==
      match CheckCrc(buf[star + 1..], crc)
      case Fail(e) => Failure(e)
      case Pass => Success(Parsed(Body(0, NmeaMessage(buf[1..AddrEnd(buf)], buf[AddrEnd(buf)..star - 1], true)), Scan(buf, s).value))
  {
  }

  /** The scan stops at the first '*' once every field up to it has been
      handed over without a failure: the scan succeeds with the state the
      handler calls left. */
  lemma ScanStopsAt(buf: seq<byte>, s: HandlerState, fs: nat, p: nat, closed: seq<seq<byte>>, t: HandlerState)
    requires Framed(buf) && AddrEnd(buf) + 1 <= fs <= p < |buf| && buf[p] == ASTERISK
    requires ASTERISK !in buf[AddrEnd(buf) + 1..p]
    requires closed + [buf[fs..p]] == Split(buf[AddrEnd(buf) + 1..p])
    requires Dispatch(s, NewAddrField(buf[1..AddrEnd(buf)]), closed + [buf[fs..p]]) == Success(t)
    ensures AsteriskPos(buf) == p && Scan(buf, s) == Success(t)
  {
    AsteriskAt(buf, p);
  }

  /** `ScanFailsAtDelimiter` for the field the scan loop has just closed. */
  lemma ScanFailsAt(buf: seq<byte>, s: HandlerState, fs: nat, p: nat, closed: seq<seq<byte>>)
    requires Framed(buf) && AddrEnd(buf) + 1 <= fs <= p < |buf| && (buf[p] == COMMA || buf[p] == ASTERISK)
    requires ASTERISK !in buf[AddrEnd(buf) + 1..p]
    requires closed + [buf[fs..p]] == Split(buf[AddrEnd(buf) + 1..p])
    requires Dispatch(s, NewAddrField(buf[1..AddrEnd(buf)]), closed + [buf[fs..p]]).Failure?
    ensures Dispatch(s, NewAddrField(buf[1..AddrEnd(buf)]), Handled(buf)).Failure?
    ensures Scan(buf, s) == Failure(Dispatch(s, NewAddrField(buf[1..AddrEnd(buf)]), closed + [buf[fs..p]]).error)
  {
    ScanFailsAtDelimiter(buf, s, p);
  }

  /** `ScanRunsOff` for the scan loop reaching the end of the buffer with the
      open field starting at `fs`. */
  lemma ScanRunsOffAt(buf: seq<byte>, s: HandlerState, fs: nat, closed: seq<seq<byte>>, t: HandlerState)
    requires Framed(buf) && AddrEnd(buf) + 1 <= fs <= |buf|
    requires ASTERISK !in buf[AddrEnd(buf) + 1..|buf|]
    requires closed + [buf[fs..|buf|]] == Split(buf[AddrEnd(buf) + 1..|buf|])
    requires Dispatch(s, NewAddrField(buf[1..AddrEnd(buf)]), closed) == Success(t)
    ensures Handled(buf) == closed
    ensures Scan(buf, s) == Failure(IndexOutOfRange)
  {
    var rs := AddrEnd(buf) + 1;
    assert buf[rs..] == buf[rs..|buf|];
    assert AllButLast(closed + [buf[fs..|buf|]]) == closed;
    ScanRunsOff(buf, s);
  }

  /** The address scan of `get_message_body`: the `while` loop that advances
      `addr_end` to the first comma after the '$' (or to the end of the
      buffer), folding every byte it passes into the checksum. */
  method ScanAddress(buf: seq<byte>) returns (addrEnd: nat, crc: byte)
    requires |buf| >= 1
    ensures addrEnd == AddrEnd(buf)
    ensures crc == Xor(buf[1..addrEnd])
  {
    addrEnd := 1;
    crc := 0;
    while addrEnd < |buf| && buf[addrEnd] != COMMA
      invariant 1 <= addrEnd <= |buf|
      invariant forall j :: 1 <= j < addrEnd ==> buf[j] != COMMA
      invariant crc == Xor(buf[1..addrEnd])
    {
      XorStep(buf, addrEnd);
      crc := crc ^ buf[addrEnd];
      addrEnd := addrEnd + 1;
    }
    FirstFromIs(buf, COMMA, 1, addrEnd);
  }

  /** One field handed to the handler, followed by the u8 increment of the
      field index: the run of handler calls so far, extended by `field`. The
      increment overflows after index 255. */
  method DeliverField(fieldHandler: FieldParseHandler, addrField: AddrField, fieldIdx: nat, field: seq<byte>,
                      ghost s0: HandlerState, ghost emitted: seq<seq<byte>>)
    returns (out: Outcome)
    requires fieldHandler.Valid() && fieldIdx == |emitted| < 256
    requires Dispatch(s0, addrField, emitted) == Success(fieldHandler.State())
    modifies fieldHandler, fieldHandler.allMessages.msgs.Values
    ensures fieldHandler.Valid()
    ensures fieldHandler.allMessages.msgs == old(fieldHandler.allMessages.msgs)
    ensures out.Pass? <==> Dispatch(s0, addrField, emitted + [field]).Success?
    ensures out.Pass? ==> fieldIdx < 255 && fieldHandler.State() == Dispatch(s0, addrField, emitted + [field]).value
    ensures out.Fail? ==> out.error == Dispatch(s0, addrField, emitted + [field]).error
  {
    DispatchSnoc(s0, addrField, emitted, field, fieldHandler.State());
    out := fieldHandler.Handle(addrField, fieldIdx, field);
    if out.Pass? && fieldIdx == 255 {
      out := Fail(ArithmeticOverflow);
    }
  }

  /** The scan `loop` of `get_message_body`, from the byte after the address
      comma: it folds every byte before the first '*' into the checksum and
      hands each comma- or asterisk-terminated field to the handler, with the
      u8 index 0, 1, 2, ... It changes the handler as `Scan` says and, on
      success, stops at the first '*' with the checksum of everything between
      '$' and it. */
  method ScanFields(buf: seq<byte>, addrEnd: nat, addrField: AddrField, crcIn: byte, fieldHandler: FieldParseHandler)
    returns (out: Outcome, asteriskPos: nat, crc: byte)
    requires Framed(buf) && addrEnd == AddrEnd(buf) && addrField == NewAddrField(buf[1..addrEnd])
    requires crcIn == Xor(buf[1..addrEnd + 1])
    requires fieldHandler.Valid()
    modifies fieldHandler, fieldHandler.allMessages.msgs.Values
    ensures fieldHandler.Valid()
    ensures fieldHandler.allMessages.msgs == old(fieldHandler.allMessages.msgs)
    ensures out.Pass? <==> Scan(buf, old(fieldHandler.State())).Success?
    ensures out.Pass? ==>
      fieldHandler.State() == Scan(buf, old(fieldHandler.State())).value &&
      asteriskPos == AsteriskPos(buf) && crc == Xor(buf[1..asteriskPos])
    ensures out.Fail? ==> out.error == Scan(buf, old(fieldHandler.State())).error
    ensures Dispatch(old(fieldHandler.State()), addrField, Handled(buf)).Success? ==>
      fieldHandler.State() == Dispatch(old(fieldHandler.State()), addrField, Handled(buf)).value
  {
    ghost var s0 := fieldHandler.State();
    crc := crcIn;
    asteriskPos := addrEnd + 1;
    var fieldStart := addrEnd + 1;
    var fieldIdx: nat := 0;
    ghost var rs := addrEnd + 1;
    ghost var emitted: seq<seq<byte>> := [];
    assert Dispatch(s0, addrField, emitted) == Success(s0);
    while true
      invariant rs <= fieldStart <= asteriskPos <= |buf|
      invariant ASTERISK !in buf[rs..asteriskPos]
      invariant crc == Xor(buf[1..asteriskPos])
      invariant fieldIdx == |emitted| < 256
      invariant emitted + [buf[fieldStart..asteriskPos]] == Split(buf[rs..asteriskPos])
      invariant fieldHandler.Valid()
      invariant fieldHandler.allMessages.msgs == old(fieldHandler.allMessages.msgs)
      invariant Dispatch(s0, addrField, emitted) == Success(fieldHandler.State())
      decreases |buf| - asteriskPos
    {
      if asteriskPos >= |buf| {
        // No '*' after the address: the index runs past the end.
        ScanRunsOffAt(buf, s0, fieldStart, emitted, fieldHandler.State());
        return Fail(IndexOutOfRange), asteriskPos, crc;
      }
      var c := buf[asteriskPos];
      ghost var p, fs, closed := asteriskPos, fieldStart, emitted;
      if c != ASTERISK {
        crc := crc ^ c;
      }
      if c == COMMA || c == ASTERISK {
        var field := buf[fieldStart..asteriskPos];
        fieldStart := asteriskPos + 1;
        out := DeliverField(fieldHandler, addrField, fieldIdx, field, s0, emitted);
        if out.Fail? {
          ScanFailsAt(buf, s0, fs, asteriskPos, emitted);
          return;
        }
        fieldIdx := fieldIdx + 1;
        emitted := emitted + [field];
      }
      if c == ASTERISK {
        ScanStopsAt(buf, s0, fs, asteriskPos, closed, fieldHandler.State());
        return Pass, asteriskPos, crc;
      }
      asteriskPos := asteriskPos + 1;
      ScanAdvance(buf, rs, fs, p, asteriskPos, closed, fieldStart, emitted);
    }
  }

  /** The framer, on the handler object. It changes the handler exactly as
      `Parse` says and returns what `Parse` returns. */
  method GetMessageBody(buf: seq<byte>, fieldHandler: FieldParseHandler) returns (r: Result<Body>)
    requires fieldHandler.Valid()
    modifies fieldHandler, fieldHandler.allMessages.msgs.Values
    ensures fieldHandler.Valid()
    ensures fieldHandler.allMessages.msgs == old(fieldHandler.allMessages.msgs)
    ensures r.Success? <==> Parse(buf, old(fieldHandler.State())).Success?
    ensures r.Success? ==>
      r.value == Parse(buf, old(fieldHandler.State())).value.body &&
      fieldHandler.State() == Parse(buf, old(fieldHandler.State())).value.state
    ensures r.Failure? ==> r.error == Parse(buf, old(fieldHandler.State())).error
    ensures !Framed(buf) ==> fieldHandler.State() == old(fieldHandler.State())
    ensures Framed(buf) && Dispatch(old(fieldHandler.State()), NewAddrField(buf[1..AddrEnd(buf)]), Handled(buf)).Success? ==>
      fieldHandler.State() == Dispatch(old(fieldHandler.State()), NewAddrField(buf[1..AddrEnd(buf)]), Handled(buf)).value
  {
    ghost var s0 := fieldHandler.State();
    if |buf| <= 10 {
      return Failure(TooShort);
    }
    if buf[0] != DOLLAR {
      return Failure(BadPrefix);
    }
    var consumeAmt: byte := 0;
    var addrEnd, crc := ScanAddress(buf);
    var addrField := NewAddrField(buf[1..addrEnd]);
    // The first read of the scan loop.
    if addrEnd + 1 >= |buf| {
      return Failure(IndexOutOfRange);
    }
    XorStep(buf, addrEnd);
    crc := crc ^ COMMA;

    var out, asteriskPos;
    out, asteriskPos, crc := ScanFields(buf, addrEnd, addrField, crc, fieldHandler);
    if out.Fail? {
      ParseScanFails(buf, s0);
      return Failure(out.error);
    }
    ParseAfterScan(buf, s0, asteriskPos, crc);

    var verdict := CheckCrc(buf[asteriskPos + 1..], crc);
    if verdict.Fail? {
      return Failure(verdict.error);
    }
    return Success(Body(consumeAmt, NmeaMessage(buf[1..addrEnd], buf[addrEnd..asteriskPos - 1], true)));
  }
}
