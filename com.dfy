/** The coordinator of the current revision: the handler registry, the per-id reassembly buffer,
    the radio state and the list of messages awaiting an acknowledgement. The radio itself is
    replaced by the frame `listen` would receive (a parameter) and a log of transmitted packets. */
module Com {
  import opened Bytes
  import opened Flags
  import opened Codec
  import opened Reassembly

  /** `RadioState`. */
  datatype RadioState = Idle | Receiving | Transmitting

  class ComInterface {
    /** `_rxMessageCallbacks`. */
    var callbacks: Registry
    /** `_messageBuffer`. */
    var buffer: Buffer
    /** `_radioState`. */
    var state: RadioState
    /** `_acksRequired`: the content type and message of every message sent. */
    var acksRequired: seq<(ContentType, Message)>
    /** The packets handed to the radio, in order. */
    ghost var sent: seq<seq<byte>>
    /** The handler invocations made, in order. */
    ghost var dispatched: seq<Dispatch>

    /** Every buffered entry is still waiting for fragments: non-empty, of its own id and of
        multi-packet fragments only, and short of its first fragment's count (or that count is
        0). No operation's result depends on it; it records that a completed entry never lingers
        in the buffer (`Reassembly.ReceiveKeepsPending`). */
    ghost predicate Valid()
      reads this
    {
      Pending(buffer)
    }

    constructor ()
      ensures Valid()
      ensures callbacks == map[] && buffer == map[] && state == Idle && acksRequired == []
      ensures sent == [] && dispatched == []
    {
      callbacks := map[];
      buffer := map[];
      state := Idle;
      acksRequired := [];
      sent := [];
      dispatched := [];
    }

    /** `addRXCallback(type, callback)`. */
    method AddRxCallback(t: ContentType, h: HandlerId)
      modifies this`callbacks
      ensures callbacks == Register(old(callbacks), t, h)
    {
      if t !in callbacks {
        callbacks := callbacks[t := []];
      }
      callbacks := callbacks[t := callbacks[t] + [h]];
    }

    /** `addRXCallback(types, callback)`. */
    method AddRxCallbackTypes(types: seq<ContentType>, h: HandlerId)
      modifies this`callbacks
      ensures callbacks == RegisterAll(old(callbacks), types, h)
      ensures forall t :: Handlers(callbacks, t) == Handlers(old(callbacks), t) + Repeat(h, multiset(types)[t])
    {
      for i := 0 to |types|
        invariant callbacks == RegisterAll(old(callbacks), types[..i], h)
      {
        assert types[..i + 1][..i] == types[..i];
        AddRxCallback(types[i], h);
      }
      assert types[..|types|] == types;
      forall t ensures Handlers(callbacks, t) == Handlers(old(callbacks), t) + Repeat(h, multiset(types)[t]) {
        RegisterAllAppends(old(callbacks), types, h, t);
      }
    }

    /** `addRXCallbackToAny(callback)`. */
    method AddRxCallbackToAny(h: HandlerId)
      modifies this`callbacks
      ensures forall t :: Handlers(callbacks, t) == Handlers(old(callbacks), t) + [h]
    {
      AddRxCallbackTypes(AllContentTypes, h);
      forall t ensures Handlers(callbacks, t) == Handlers(old(callbacks), t) + [h] {
        RegisterAnyAppendsToEveryType(old(callbacks), h, t);
      }
    }

    /** Invokes every handler registered for `t`, in registration order, with `payload`. */
    method Deliver(t: ContentType, payload: seq<byte>)
      modifies this`dispatched
      ensures dispatched == old(dispatched) + Calls(Handlers(callbacks, t), payload)
    {
      if t in callbacks {
        var hs := callbacks[t];
        for i := 0 to |hs|
          invariant dispatched == old(dispatched) + Calls(hs[..i], payload)
        {
          assert Calls(hs[..i + 1], payload) == Calls(hs[..i], payload) + [Dispatch(hs[i], payload)];
          dispatched := dispatched + [Dispatch(hs[i], payload)];
        }
        assert hs[..|hs|] == hs;
      }
    }

    /** `_handleRXMessage(res)`: one `Receive` step on the buffer, with the delivered payload, if
        any, handed to the handlers of the arriving fragment's content type. */
    method HandleRxMessage(res: Fragment)
      requires Valid()
      modifies this`buffer, this`dispatched
      ensures Valid()
      ensures buffer == Receive(old(buffer), res).buffer
      ensures dispatched == old(dispatched) + Deliveries(callbacks, res.contentType, Receive(old(buffer), res).delivered)
    {
      ReceiveKeepsPending(buffer, res);
      if res.packetCount == 1 {
        Deliver(res.contentType, res.payload);
        return;
      }
      var entry := if res.messageId in buffer then buffer[res.messageId] else [];
      entry := entry + [res];
      if |entry| == entry[0].packetCount {
        var packets := SortByNumber(entry);
        var fullMessage := JoinPayloads(packets);
        Deliver(res.contentType, fullMessage);
        buffer := buffer - {res.messageId};
      } else {
        buffer := buffer[res.messageId := entry];
      }
    }

    /** `listen()`: `rx` is the frame the radio hands over, if one arrives in time. Nothing happens
        unless the radio is idle and the frame parses. */
    method Listen(rx: Option<seq<byte>>)
      requires Valid()
      modifies this`buffer, this`dispatched
      ensures Valid()
      ensures state != Idle || rx.None? || Decoded(rx.value).ParseError? ==>
        buffer == old(buffer) && dispatched == old(dispatched)
      ensures state == Idle && rx.Some? && Decoded(rx.value).Parsed? ==>
        var f := Decoded(rx.value).fragment;
        buffer == Receive(old(buffer), f).buffer
        && dispatched == old(dispatched) + Deliveries(callbacks, f.contentType, Receive(old(buffer), f).delivered)
    {
      if state != Idle {
        return;
      }
      if rx.Some? {
        var res := Decode(rx.value);
        if res.ParseError? {
          return;
        }
        HandleRxMessage(res.fragment);
      }
    }

    /** `sendMessage(msg)`: when idle, every packet of `encode(msg)` goes to the radio in order and
        the message is recorded as awaiting an acknowledgement; the state is idle again after. */
    method SendMessage(msg: Message)
      requires EncodeDefined(msg)
      modifies this`state, this`sent, this`acksRequired
      ensures state == old(state)
      ensures old(state) != Idle ==> sent == old(sent) && acksRequired == old(acksRequired)
      ensures old(state) == Idle ==>
        sent == old(sent) + Encoded(msg)
        && acksRequired == old(acksRequired) + [(GetContentType(msg.flag), msg)]
    {
      if state != Idle {
        return;
      }
      state := Transmitting;
      var packets := Encode(msg);
      for i := 0 to |packets|
        invariant sent == old(sent) + packets[..i]
      {
        assert packets[..i + 1] == packets[..i] + [packets[i]];
        sent := sent + [packets[i]];
      }
      assert packets[..|packets|] == packets;
      acksRequired := acksRequired + [(GetContentType(msg.flag), msg)];
      state := Idle;
    }
  }
}
