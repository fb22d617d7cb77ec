/** Address field, field slots and the message registry. */
module Messages {
  import opened Common
  import Talkers

  // ---------------------------------------------------------------------------
  // Address field
  // ---------------------------------------------------------------------------

  /** The address token of a sentence split into the sentence id `data`, which is
      the registry key, and the talker id that was stripped from it (empty when
      nothing was stripped). The talker id is kept as its ASCII bytes. */
  datatype AddrField = AddrField(data: seq<byte>, talkerId: seq<byte>)

  /** `AddrField::new`: strip a recognised two-byte talker id from a token of
      more than three bytes; otherwise keep the whole token as the id. */
  function NewAddrField(token: seq<byte>): (a: AddrField)
    ensures a.talkerId + a.data == token
    ensures a.talkerId != [] <==> |token| > 3 && Talkers.IsTalkerId(token[..2])
    ensures a.talkerId == [] || (|a.talkerId| == 2 && Talkers.IsTalkerId(a.talkerId))
  {
    if |token| > 3 && Talkers.IsTalkerId(token[..2]) then
      AddrField(token[2..], token[..2])
    else
      AddrField(token, [])
  }

  /** Two address tokens that carry the same sentence id behind different
      recognised talker ids yield the same key, and so does the bare id when it
      does not itself start with a talker id or is at most three bytes long. */
  lemma KeyIgnoresTalkerId(t1: seq<byte>, t2: seq<byte>, id: seq<byte>)
    requires |t1| == 2 && |t2| == 2 && Talkers.IsTalkerId(t1) && Talkers.IsTalkerId(t2)
    requires |id| >= 2
    ensures NewAddrField(t1 + id) == AddrField(id, t1)
    ensures NewAddrField(t1 + id).data == NewAddrField(t2 + id).data
    ensures |id| <= 3 || !Talkers.IsTalkerId(id[..2]) ==> NewAddrField(id).data == id
  {
    assert (t1 + id)[..2] == t1;
    assert (t2 + id)[..2] == t2;
    assert (t1 + id)[2..] == id;
    assert (t2 + id)[2..] == id;
  }

  // ---------------------------------------------------------------------------
  // Field slots (the non-float `FromSlice` implementations)
  // ---------------------------------------------------------------------------

  /** One field slot of a message, by scalar kind: `Option<String>`, `u8` and
      `Option<u8>`. */
  datatype Slot =
    | OptText(text: Option<string>)
    | Byte(byteValue: byte)
    | OptByte(optByte: Option<byte>)

  predicate SameKind(x: Slot, y: Slot) {
    (x.OptText? && y.OptText?) || (x.Byte? && y.Byte?) || (x.OptByte? && y.OptByte?)
  }

  /** The text of a byte string, one character per byte (ASCII input). */
  function Text(bytes: seq<byte>): (s: string)
    ensures |s| == |bytes|
    ensures forall i :: 0 <= i < |s| ==> s[i] as int == bytes[i] as int
  {
    seq(|bytes|, i requires 0 <= i < |bytes| => bytes[i] as int as char)
  }

  /** `set_from_slice`: the new value of a slot after storing `value`, or the
      panic it raises. A text slot takes any input, the empty one included; a
      `u8` slot needs exactly one byte; an `Option<u8>` slot needs at least one
      byte and keeps the first (its `None` for empty input is overwritten by the
      next statement, which then indexes past the end). */
  function SetFromSlice(slot: Slot, value: seq<byte>): (r: Result<Slot>)
    ensures r.Success? ==> SameKind(slot, r.value)
    ensures slot.OptText? ==> r == Success(OptText(Some(Text(value))))
    ensures slot.Byte? ==> (r.Success? <==> |value| == 1)
    ensures slot.OptByte? ==> (r.Success? <==> |value| >= 1)
    ensures r.Success? && slot.Byte? ==> r.value == Byte(value[0])
    ensures r.Success? && slot.OptByte? ==> r.value == OptByte(Some(value[0]))
    ensures r.Failure? ==> r.error == FieldDecode
  {
    match slot
    case OptText(_) => Success(OptText(Some(Text(value))))
    case Byte(_) => if |value| == 1 then Success(Byte(value[0])) else Failure(FieldDecode)
    case OptByte(_) => if |value| == 0 then Failure(FieldDecode) else Success(OptByte(Some(value[0])))
  }

  /** A store overwrites: what a slot held before does not affect the result. */
  lemma SetFromSliceForgets(x: Slot, y: Slot, value: seq<byte>)
    requires SameKind(x, y)
    ensures SetFromSlice(x, value) == SetFromSlice(y, value)
  {
  }

  /** `as_string`: the display text of a slot; an absent text is "-", an absent
      byte is the empty string, a byte is its decimal value. */
  function AsString(slot: Slot): (s: string)
    ensures slot == OptText(None) ==> s == "-"
    ensures slot.OptText? && slot.text.Some? ==> s == slot.text.value
    ensures slot == OptByte(None) ==> s == ""
    ensures slot.Byte? ==>
      |s| >= 1 && IsDecimal(s) && DecimalValue(s) == slot.byteValue as nat && (|s| == 1 || s[0] != '0')
    ensures slot.OptByte? && slot.optByte.Some? ==>
      |s| >= 1 && IsDecimal(s) && DecimalValue(s) == slot.optByte.value as nat && (|s| == 1 || s[0] != '0')
  {
    match slot
    case OptText(t) => if t.Some? then t.value else "-"
    case Byte(b) => DecimalRoundTrip(b as nat); DecimalText(b as nat)
    case OptByte(ob) =>
      if ob.Some? then DecimalRoundTrip(ob.value as nat); DecimalText(ob.value as nat) else ""
  }

  /** Storing a field and displaying the slot gives the field back: the same
      text for a text slot, the decimal text of the stored (first) byte for a
      byte slot. */
  lemma {:induction false} StoreThenDisplay(slot: Slot, value: seq<byte>)
    requires SetFromSlice(slot, value).Success?
    ensures slot.OptText? ==> AsString(SetFromSlice(slot, value).value) == Text(value)
    ensures !slot.OptText? ==>
      var s := AsString(SetFromSlice(slot, value).value);
      |s| >= 1 && IsDecimal(s) && DecimalValue(s) == value[0] as nat && (|s| == 1 || s[0] != '0')
  {
    if !slot.OptText? {
      DecimalRoundTrip(value[0] as nat);
    }
  }

  /** An absent text displays as "-", an absent byte as nothing. */
  lemma AbsentDisplay()
    ensures AsString(OptText(None)) == "-"
    ensures AsString(OptByte(None)) == ""
    ensures AsString(OptText(Some(""))) == ""
  {
  }

  // Decimal text of a number, as Rust's `to_string` writes it.

  function DigitChar(d: nat): (c: char)
    requires d < 10
    ensures '0' <= c <= '9'
  {
    (48 + d) as char
  }

  predicate IsDecimal(s: string) {
    forall i :: 0 <= i < |s| ==> '0' <= s[i] <= '9'
  }

  function DecimalText(n: nat): (s: string)
    ensures |s| >= 1 && IsDecimal(s)
    ensures n > 0 ==> s[0] != '0'
    ensures |s| == 1 <==> n < 10
    ensures n < 1000 ==> |s| <= 3
    decreases n
  {
    if n < 10 then [DigitChar(n)] else DecimalText(n / 10) + [DigitChar(n % 10)]
  }

  /** The value of a decimal text (the reference reading of `DecimalText`). */
  function DecimalValue(s: string): nat
    requires IsDecimal(s)
  {
    if s == [] then 0 else DecimalValue(s[..|s| - 1]) * 10 + (s[|s| - 1] as int - 48)
  }

  lemma {:induction false} DecimalRoundTrip(n: nat)
    ensures DecimalValue(DecimalText(n)) == n
  {
    if n >= 10 {
      var s := DecimalText(n);
      assert s[..|s| - 1] == DecimalText(n / 10);
      DecimalRoundTrip(n / 10);
    }
  }

  // ---------------------------------------------------------------------------
  // Messages and the registry
  // ---------------------------------------------------------------------------

  /** `set_field` on a slot list: write slot `idx`, or fail when there is no
      such slot or the value does not fit; every other slot keeps its value. */
  function WriteSlot(slots: seq<Slot>, idx: nat, value: seq<byte>): (r: Result<seq<Slot>>)
    ensures r.Success? <==> idx < |slots| && SetFromSlice(slots[idx], value).Success?
    ensures r.Success? ==>
      |r.value| == |slots| &&
      SetFromSlice(slots[idx], value) == Success(r.value[idx]) &&
      forall j :: 0 <= j < |slots| && j != idx ==> r.value[j] == slots[j]
    ensures idx >= |slots| ==> r == Failure(NoSuchField)
  {
    if idx >= |slots| then Failure(NoSuchField)
    else
      match SetFromSlice(slots[idx], value)
      case Failure(e) => Failure(e)
      case Success(v) => Success(slots[idx := v])
  }

  /** A message instance held by the registry: its ordered field slots. Its
      field count is the number of slots. */
  class Message {
    var slots: seq<Slot>

    constructor (slots: seq<Slot>)
      ensures this.slots == slots
    {
      this.slots := slots;
    }

    function FieldCount(): nat
      reads this
    {
      |slots|
    }

    /** `set_field`: `get_field_mut(idx).set_from_slice(value)`. */
    method SetField(idx: nat, value: seq<byte>) returns (out: Outcome)
      modifies this
      ensures out.Pass? <==> WriteSlot(old(slots), idx, value).Success?
      ensures out.Pass? ==> slots == WriteSlot(old(slots), idx, value).value
      ensures out.Fail? ==> out.error == WriteSlot(old(slots), idx, value).error && slots == old(slots)
    {
      if idx >= |slots| {
        return Fail(NoSuchField);
      }
      var r := SetFromSlice(slots[idx], value);
      if r.Failure? {
        return Fail(r.error);
      }
      slots := slots[idx := r.value];
      return Pass;
    }
  }

  /** The registry of message instances, keyed by sentence id only. */
  class MessagesMap {
    var msgs: map<seq<byte>, Message>

    /** Each entry owns its message: no two keys share one instance. */
    ghost predicate Valid()
      reads this
    {
      forall k1, k2 :: k1 in msgs && k2 in msgs && k1 != k2 ==> msgs[k1] != msgs[k2]
    }

    constructor ()
      ensures Valid() && msgs == map[]
    {
      msgs := map[];
    }

    /** `get` and `get_mut`: look the message up by the address's sentence id,
        ignoring its talker id. */
    function Get(addr: AddrField): (r: Option<Message>)
      reads this
      ensures r.Some? <==> addr.data in msgs
      ensures r.Some? ==> r.value == msgs[addr.data]
    {
      if addr.data in msgs then Some(msgs[addr.data]) else None
    }
  }

  /** Tokens that differ only in a recognised talker id resolve to the same
      registry entry. */
  lemma GetIgnoresTalkerId(m: MessagesMap, t1: seq<byte>, t2: seq<byte>, id: seq<byte>)
    requires |t1| == 2 && |t2| == 2 && Talkers.IsTalkerId(t1) && Talkers.IsTalkerId(t2)
    requires |id| >= 2
    ensures m.Get(NewAddrField(t1 + id)) == m.Get(NewAddrField(t2 + id))
    ensures |id| <= 3 ==> m.Get(NewAddrField(t1 + id)) == m.Get(NewAddrField(id))
  {
    KeyIgnoresTalkerId(t1, t2, id);
  }
}
