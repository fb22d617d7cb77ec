/** The field handler that the framer drives: it resolves the sentence's
    message in the registry, writes one slot, and calls the completion callback
    when the last slot has been written. */
module NmeaParser {
  import opened Common
  import opened Messages

  /** One call of the completion callback: the key of the message it receives
      and that message's slots at the moment of the call. */
  datatype Notification = Notification(key: seq<byte>, slots: seq<Slot>)

  /** What the handler acts on, as values: the slots of each registered message
      by key, and the callback calls made so far. */
  datatype HandlerState = HandlerState(msgs: map<seq<byte>, seq<Slot>>, notified: seq<Notification>)

  /** `FieldParseHandler::handle` on the abstract state. It fails when no
      message is registered under the address's sentence id or when the slot
      write fails; otherwise it writes slot `fieldIdx` of that one message and,
      when that slot is the last one, records one callback for it. */
  function HandleSpec(s: HandlerState, addr: AddrField, fieldIdx: nat, field: seq<byte>): (r: Result<HandlerState>)
    ensures addr.data !in s.msgs ==> r == Failure(UnknownAddress)
    ensures r.Success? ==>
      addr.data in s.msgs &&
      r.value.msgs.Keys == s.msgs.Keys &&
      (forall k :: k in s.msgs && k != addr.data ==> r.value.msgs[k] == s.msgs[k]) &&
      WriteSlot(s.msgs[addr.data], fieldIdx, field) == Success(r.value.msgs[addr.data])
    ensures r.Success? ==>
      var last := fieldIdx == |s.msgs[addr.data]| - 1;
      r.value.notified ==
        s.notified + (if last then [Notification(addr.data, r.value.msgs[addr.data])] else [])
    ensures addr.data in s.msgs ==>
      (r.Success? <==> WriteSlot(s.msgs[addr.data], fieldIdx, field).Success?)
    ensures addr.data in s.msgs && r.Failure? ==>
      r.error == WriteSlot(s.msgs[addr.data], fieldIdx, field).error
  {
    if addr.data !in s.msgs then Failure(UnknownAddress)
    else
      match WriteSlot(s.msgs[addr.data], fieldIdx, field)
      case Failure(e) => Failure(e)
      case Success(slots) =>
        var msgs := s.msgs[addr.data := slots];
        if fieldIdx == |slots| - 1 then
          Success(HandlerState(msgs, s.notified + [Notification(addr.data, slots)]))
        else
          Success(HandlerState(msgs, s.notified))
  }

  /** The handler object: the registry it writes into and, in place of the
      callback, the record of the calls made to it. */
  class FieldParseHandler {
    const allMessages: MessagesMap
    var notified: seq<Notification>

    ghost predicate Valid()
      reads this, allMessages
    {
      allMessages.Valid()
    }

    /** The handler's state as a value. */
    function State(): HandlerState
      reads this, allMessages, allMessages.msgs.Values
    {
      HandlerState(map k | k in allMessages.msgs :: allMessages.msgs[k].slots, notified)
    }

    constructor (msgsMap: MessagesMap)
      requires msgsMap.Valid()
      ensures Valid() && allMessages == msgsMap && notified == []
    {
      allMessages := msgsMap;
      notified := [];
    }

    /** `handle`: look the message up, write slot `fieldIdx`, and notify when
        it was the last slot. Only the message found is written; the registry's
        map itself is left as it is. */
    method Handle(addr: AddrField, fieldIdx: nat, field: seq<byte>) returns (out: Outcome)
      requires Valid() && fieldIdx < 256
      modifies this, allMessages.msgs.Values
      ensures Valid() && allMessages.msgs == old(allMessages.msgs)
      ensures out.Pass? <==> HandleSpec(old(State()), addr, fieldIdx, field).Success?
      ensures out.Pass? ==> State() == HandleSpec(old(State()), addr, fieldIdx, field).value
      ensures out.Fail? ==> out.error == HandleSpec(old(State()), addr, fieldIdx, field).error
    {
      ghost var s0 := State();
      var boxedMsg := allMessages.Get(addr);
      if boxedMsg.None? {
        return Fail(UnknownAddress);
      }
      var msg := boxedMsg.value;
      out := msg.SetField(fieldIdx, field);
      if out.Fail? {
        return;
      }
      // The subtraction cannot underflow: the write succeeded, so there is a slot.
      if fieldIdx == msg.FieldCount() - 1 {
        // Last field parsed: the callback receives the message just updated.
        notified := notified + [Notification(addr.data, msg.slots)];
      }
      assert forall k :: k in allMessages.msgs && k != addr.data ==> allMessages.msgs[k] != msg;
      assert State().msgs == s0.msgs[addr.data := msg.slots];
    }
  }
}
