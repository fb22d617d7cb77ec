/** Whole sentences: what a successful parse says about the buffer, and a
    writer for sentences that the framer reads back. */
module Sentences {
  import opened Common
  import opened Checksum
  import opened Fields
  import opened Messages
  import opened NmeaParser
  import opened Framing
  import opened Properties

  // ---------------------------------------------------------------------------
  // Facts of a successful parse
  // ---------------------------------------------------------------------------

  /** A successful parse: the address is everything between '$' and the first
      comma; the field region runs from that comma to the first '*' after it;
      the handler saw the comma-separated parts of the region, field `i` with
      index `i`; and when exactly two bytes follow the '*' they are the XOR of
      everything between '$' and '*'. */
  lemma ParseSuccessFacts(buf: seq<byte>, s: HandlerState)
    requires Parse(buf, s).Success?
    ensures |buf| > 10 && buf[0] == DOLLAR
    ensures var addrEnd, star := AddrEnd(buf), AsteriskPos(buf);
      addrEnd < star < |buf| && buf[addrEnd] == COMMA && buf[star] == ASTERISK &&
      COMMA !in buf[1..addrEnd] && ASTERISK !in buf[addrEnd + 1..star] &&
      Parse(buf, s).value.body.message.addrField == buf[1..addrEnd] &&
      Parse(buf, s).value.body.message.fields == buf[addrEnd..star - 1] &&
      Dispatch(s, NewAddrField(buf[1..addrEnd]), Split(buf[addrEnd + 1..star])) == Success(Parse(buf, s).value.state) &&
      (|buf| - star == 3 ==> HexCharsToU8(buf[star + 1..]) == Some(Xor(buf[1..star])))
  {
  }

  /** The fields handed to the handler, joined with commas, are the field
      region; there is one field per comma in the region plus one for the
      '*'; and no field holds a comma or an asterisk. */
  lemma RegionIsJoinedFields(buf: seq<byte>)
    requires |buf| >= 1 && AddrEnd(buf) < |buf| && AsteriskPos(buf) < |buf|
    ensures Join(Handled(buf)) == FieldRegion(buf)
    ensures |Handled(buf)| == Count(FieldRegion(buf), COMMA) + 1
    ensures forall i :: 0 <= i < |Handled(buf)| ==>
      COMMA !in Handled(buf)[i] && ASTERISK !in Handled(buf)[i]
  {
    var region := FieldRegion(buf);
    JoinSplit(region);
    SplitCount(region);
    SplitParts(region, ASTERISK);
  }

  /** The `fields` slice of the returned message, as the source cuts it: it
      starts at the address comma and stops one byte before the '*', so it is
      the field region shifted one byte to the left. */
  lemma AsWrittenFieldsSlice(buf: seq<byte>)
    requires |buf| >= 1 && AddrEnd(buf) < |buf| && AsteriskPos(buf) < |buf|
    ensures var region := FieldRegion(buf);
      buf[AddrEnd(buf)..AsteriskPos(buf) - 1] ==
        if region == [] then [] else [COMMA] + region[..|region| - 1]
  {
    var addrEnd, star := AddrEnd(buf), AsteriskPos(buf);
    var region := buf[addrEnd + 1..star];
    if star > addrEnd + 1 {
      assert region[..|region| - 1] == buf[addrEnd + 1..star - 1];
      assert buf[addrEnd..star - 1] == [buf[addrEnd]] + buf[addrEnd + 1..star - 1];
    }
  }

  // ---------------------------------------------------------------------------
  // A sentence writer
  // ---------------------------------------------------------------------------

  /** The sentence `$<addr>,<f0>,<f1>,...*<tail>`. */
  function Sentence(addr: seq<byte>, fields: seq<seq<byte>>, tail: seq<byte>): (buf: seq<byte>)
    requires |fields| >= 1
    ensures |buf| == |addr| + |Join(fields)| + |tail| + 3
  {
    [DOLLAR] + addr + [COMMA] + Join(fields) + [ASTERISK] + tail
  }

  /** What a sender may put in a sentence: an address without a comma and
      fields without a comma or an asterisk. */
  predicate Writable(addr: seq<byte>, fields: seq<seq<byte>>)
  {
    COMMA !in addr && |fields| >= 1 &&
    forall i :: 0 <= i < |fields| ==> COMMA !in fields[i] && ASTERISK !in fields[i]
  }

  /** The checksum a sender writes: the XOR of the bytes between '$' and '*'. */
  function SentenceCrc(addr: seq<byte>, fields: seq<seq<byte>>): byte
    requires |fields| >= 1
  {
    Xor(addr + [COMMA] + Join(fields))
  }

  /** The pieces of a written sentence, by position. */
  lemma SentenceSlices(addr: seq<byte>, fields: seq<seq<byte>>, tail: seq<byte>)
    requires |fields| >= 1
    ensures var buf, j := Sentence(addr, fields, tail), Join(fields);
      var addrEnd, star := |addr| + 1, |addr| + 2 + |Join(fields)|;
      buf[0] == DOLLAR && buf[addrEnd] == COMMA && buf[star] == ASTERISK &&
      buf[1..addrEnd] == addr && buf[addrEnd + 1..star] == j &&
      buf[1..star] == addr + [COMMA] + j && buf[star + 1..] == tail
  {
    var buf, j := Sentence(addr, fields, tail), Join(fields);
    var mid := addr + [COMMA] + j;
    var addrEnd := |addr| + 1;
    SentenceSplits(mid, tail);
    assert buf[1..addrEnd] == mid[..|addr|];
    assert buf[addrEnd + 1..addrEnd + 1 + |j|] == mid[|addr| + 1..];
  }

  /** A sentence is '$', the text before the '*', the '*' and the tail. */
  lemma SentenceSplits(mid: seq<byte>, tail: seq<byte>)
    ensures var buf := [DOLLAR] + mid + [ASTERISK] + tail;
      buf[1..|mid| + 1] == mid && buf[|mid| + 1] == ASTERISK && buf[|mid| + 2..] == tail
  {
    var buf := [DOLLAR] + mid + [ASTERISK] + tail;
    assert buf[1..|mid| + 1] == mid by {
      assert forall k :: 0 <= k < |mid| ==> buf[1 + k] == mid[k];
    }
    assert buf[|mid| + 2..] == tail by {
      assert forall k :: 0 <= k < |tail| ==> buf[|mid| + 2 + k] == tail[k];
    }
  }

  /** In a written sentence the address ends at the comma written after it,
      and the scan stops at the '*' written after the fields. */
  lemma SentencePositions(addr: seq<byte>, fields: seq<seq<byte>>, tail: seq<byte>)
    requires Writable(addr, fields)
    ensures var buf := Sentence(addr, fields, tail);
      AddrEnd(buf) == |addr| + 1 && AddrEnd(buf) < |buf| &&
      AsteriskPos(buf) == |addr| + 2 + |Join(fields)|
  {
    var buf, j := Sentence(addr, fields, tail), Join(fields);
    var addrEnd, star := |addr| + 1, |addr| + 2 + |j|;
    SentenceSlices(addr, fields, tail);
    assert AddrEnd(buf) == addrEnd by {
      assert forall k :: 1 <= k < addrEnd ==> buf[k] == buf[1..addrEnd][k - 1];
      FirstFromIs(buf, COMMA, 1, addrEnd);
    }
    assert AsteriskPos(buf) == star by {
      JoinAvoids(fields, ASTERISK);
      assert forall k :: addrEnd + 1 <= k < star ==> buf[k] == buf[addrEnd + 1..star][k - addrEnd - 1];
      FirstFromIs(buf, ASTERISK, addrEnd + 1, star);
    }
  }

  /** The framer finds in a written sentence exactly what was written: the
      address, the field region and its fields, and the tail after '*'. */
  lemma SentenceFraming(addr: seq<byte>, fields: seq<seq<byte>>, tail: seq<byte>)
    requires Writable(addr, fields)
    ensures var buf := Sentence(addr, fields, tail);
      var star := |addr| + 2 + |Join(fields)|;
      AddrEnd(buf) == |addr| + 1 && AddrEnd(buf) < |buf| && AsteriskPos(buf) == star &&
      buf[1..AddrEnd(buf)] == addr && FieldRegion(buf) == Join(fields) &&
      Handled(buf) == fields && buf[1..star] == addr + [COMMA] + Join(fields) &&
      buf[star + 1..] == tail
  {
    var buf := Sentence(addr, fields, tail);
    SentenceSlices(addr, fields, tail);
    SentencePositions(addr, fields, tail);
    assert FieldRegion(buf) == Join(fields);
    SplitJoin(fields);
    assert Handled(buf) == Split(Join(fields));
  }

  /** A written sentence with its checksum is parsed exactly when the handler
      accepts its fields, and the parse then reports the written address and
      leaves the state of those handler calls. */
  lemma WrittenSentenceParses(addr: seq<byte>, fields: seq<seq<byte>>, s: HandlerState)
    requires Writable(addr, fields)
    requires |Sentence(addr, fields, HexEncode(SentenceCrc(addr, fields)))| > 10
    ensures var buf := Sentence(addr, fields, HexEncode(SentenceCrc(addr, fields)));
      var run := Dispatch(s, NewAddrField(addr), fields);
      (Parse(buf, s).Success? <==> run.Success?) &&
      (run.Success? ==>
        Parse(buf, s).value.state == run.value &&
        Parse(buf, s).value.body.message.addrField == addr) &&
      (run.Failure? ==> Parse(buf, s) == Failure(run.error))
  {
    var tail := HexEncode(SentenceCrc(addr, fields));
    SentenceFraming(addr, fields, tail);
    HexRoundTrip(SentenceCrc(addr, fields));
  }

  /** A sentence whose two checksum digits are valid but name another value is
      rejected once the handler has taken its fields. */
  lemma WrongChecksumRejected(addr: seq<byte>, fields: seq<seq<byte>>, tail: seq<byte>, s: HandlerState)
    requires Writable(addr, fields) && |Sentence(addr, fields, tail)| > 10
    requires |tail| == 2 && IsHexDigit(tail[0]) && IsHexDigit(tail[1])
    requires tail != HexEncode(SentenceCrc(addr, fields))
    requires Dispatch(s, NewAddrField(addr), fields).Success?
    ensures Parse(Sentence(addr, fields, tail), s) == Failure(ChecksumMismatch)
  {
    var buf, crc := Sentence(addr, fields, tail), SentenceCrc(addr, fields);
    var star := |addr| + 2 + |Join(fields)|;
    SentenceFraming(addr, fields, tail);
    assert Scan(buf, s) == Dispatch(s, NewAddrField(addr), fields);
    HexDigitsRoundTrip(tail);
    assert HexCharsToU8(tail) != Some(crc);
    ParseAfterScan(buf, s, star, crc);
  }

  /** Unless exactly two bytes follow the '*', no checksum is compared: a
      sentence with no digits, or one still carrying its CR LF terminator, is
      accepted whatever its digits say. */
  lemma UncheckedTail(addr: seq<byte>, fields: seq<seq<byte>>, tail: seq<byte>, s: HandlerState)
    requires Writable(addr, fields) && |Sentence(addr, fields, tail)| > 10
    requires |tail| != 2
    ensures var run := Dispatch(s, NewAddrField(addr), fields);
      (Parse(Sentence(addr, fields, tail), s).Success? <==> run.Success?) &&
      (run.Success? ==> Parse(Sentence(addr, fields, tail), s).value.state == run.value)
  {
    SentenceFraming(addr, fields, tail);
  }
}
