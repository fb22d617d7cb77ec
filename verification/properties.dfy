/** The run of handler calls that the framer makes for one sentence,
    described in one step: which runs go through, what they store, and when
    the callback fires. */
module Properties {
  import opened Common
  import opened Checksum
  import opened Fields
  import opened Messages
  import opened NmeaParser
  import opened Framing

  // ---------------------------------------------------------------------------
  // The run of handler calls, in one step
  // ---------------------------------------------------------------------------

  /** The slots of a message after `fields[i]` has been stored into slot `i`
      for every `i < |fields|`; the remaining slots keep their values. */
  function Written(slots: seq<Slot>, fields: seq<seq<byte>>): (w: seq<Slot>)
    requires |fields| <= |slots|
    requires forall i :: 0 <= i < |fields| ==> SetFromSlice(slots[i], fields[i]).Success?
    ensures |w| == |slots|
  {
    seq(|slots|, i requires 0 <= i < |slots| =>
      if i < |fields| then SetFromSlice(slots[i], fields[i]).value else slots[i])
  }

  /** When a run of handler calls over `fields` goes through: no field at all,
      or a registered message with a slot for every field that takes the field,
      and fewer than 256 fields so that the u8 index does not overflow. */
  predicate Accepts(s: HandlerState, addr: AddrField, fields: seq<seq<byte>>)
  {
    fields == [] ||
    (addr.data in s.msgs && |fields| <= |s.msgs[addr.data]| && |fields| < 256 &&
     forall i :: 0 <= i < |fields| ==> SetFromSlice(s.msgs[addr.data][i], fields[i]).Success?)
  }

  /** The state after an accepted run: only the addressed message changes, its
      first `|fields|` slots hold the fields, and the callback has been called
      once if and only if its last slot was written. */
  function Expected(s: HandlerState, addr: AddrField, fields: seq<seq<byte>>): HandlerState
    requires Accepts(s, addr, fields) && fields != []
  {
    var slots := s.msgs[addr.data];
    var w := Written(slots, fields);
    HandlerState(s.msgs[addr.data := w],
                 s.notified + (if |fields| == |slots| then [Notification(addr.data, w)] else []))
  }

  /** The run of handler calls of `Dispatch`, described in one step: it
      succeeds exactly when `Accepts` holds, and then leaves `Expected`. */
  lemma {:induction false} DispatchEffect(s: HandlerState, addr: AddrField, fields: seq<seq<byte>>)
    ensures Dispatch(s, addr, fields).Success? <==> Accepts(s, addr, fields)
    ensures Accepts(s, addr, fields) && fields != [] ==>
      Dispatch(s, addr, fields) == Success(Expected(s, addr, fields))
    decreases |fields|
  {
    if fields != [] {
      var n := |fields| - 1;
      var init, x := fields[..n], fields[n];
      assert fields == init + [x];
      DispatchEffect(s, addr, init);
      if Accepts(s, addr, fields) {
        assert Accepts(s, addr, init);
      }
      if Dispatch(s, addr, init).Success? {
        var t := Dispatch(s, addr, init).value;
        if init == [] {
          assert t == s;
          if addr.data in s.msgs {
            HandleOne(s, addr, x);
          }
        } else {
          HandleNext(s, addr, init, x);
        }
      }
    }
  }

  /** The first field of a run. */
  lemma HandleOne(s: HandlerState, addr: AddrField, x: seq<byte>)
    requires addr.data in s.msgs
    ensures HandleSpec(s, addr, 0, x).Success? <==> Accepts(s, addr, [x])
    ensures Accepts(s, addr, [x]) ==> HandleSpec(s, addr, 0, x) == Success(Expected(s, addr, [x]))
  {
    var slots := s.msgs[addr.data];
    if Accepts(s, addr, [x]) {
      var r := HandleSpec(s, addr, 0, x).value;
      assert r.msgs[addr.data] == Written(slots, [x]);
      assert r.msgs == Expected(s, addr, [x]).msgs;
    }
  }

  /** A field after an accepted run of at least one field. */
  lemma HandleNext(s: HandlerState, addr: AddrField, init: seq<seq<byte>>, x: seq<byte>)
    requires Accepts(s, addr, init) && init != []
    ensures var t := Expected(s, addr, init);
      (HandleSpec(t, addr, |init|, x).Success? && |init| != 255) <==> Accepts(s, addr, init + [x])
    ensures Accepts(s, addr, init + [x]) ==>
      HandleSpec(Expected(s, addr, init), addr, |init|, x) == Success(Expected(s, addr, init + [x]))
  {
    var slots := s.msgs[addr.data];
    var t := Expected(s, addr, init);
    var w := Written(slots, init);
    var n := |init|;
    assert t.msgs[addr.data] == w;
    assert forall i :: 0 <= i < n ==> (init + [x])[i] == init[i];
    if n < |slots| {
      assert w[n] == slots[n];
      SetFromSliceForgets(w[n], slots[n], x);
    }
    if Accepts(s, addr, init + [x]) {
      var r := HandleSpec(t, addr, n, x).value;
      var w' := Written(slots, init + [x]);
      assert r.msgs[addr.data] == w';
      assert r.msgs == s.msgs[addr.data := w'];
      assert t.notified == s.notified;
    }
  }

  /** A sentence with exactly as many fields as its message has slots makes
      the callback fire exactly once, after every field has been stored. */
  lemma CompleteRunNotifiesOnce(s: HandlerState, addr: AddrField, fields: seq<seq<byte>>)
    requires addr.data in s.msgs && |fields| == |s.msgs[addr.data]| && 0 < |fields| < 256
    requires forall i :: 0 <= i < |fields| ==> SetFromSlice(s.msgs[addr.data][i], fields[i]).Success?
    ensures Dispatch(s, addr, fields).Success?
    ensures var r := Dispatch(s, addr, fields).value;
      r.notified == s.notified + [Notification(addr.data, r.msgs[addr.data])] &&
      forall i :: 0 <= i < |fields| ==>
        SetFromSlice(s.msgs[addr.data][i], fields[i]) == Success(r.msgs[addr.data][i])
  {
    DispatchEffect(s, addr, fields);
  }

  /** A sentence with fewer fields than its message has slots changes only the
      slots it names and does not make the callback fire. */
  lemma ShortRunIsSilent(s: HandlerState, addr: AddrField, fields: seq<seq<byte>>)
    requires Dispatch(s, addr, fields).Success? && addr.data in s.msgs
    requires |fields| < |s.msgs[addr.data]|
    ensures var r := Dispatch(s, addr, fields).value;
      r.notified == s.notified && r.msgs.Keys == s.msgs.Keys &&
      (forall k :: k in s.msgs && k != addr.data ==> r.msgs[k] == s.msgs[k]) &&
      |r.msgs[addr.data]| == |s.msgs[addr.data]| &&
      forall i :: |fields| <= i < |s.msgs[addr.data]| ==> r.msgs[addr.data][i] == s.msgs[addr.data][i]
  {
    DispatchEffect(s, addr, fields);
  }
}
