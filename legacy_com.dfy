/** The coordinator of the header revision: one shared reassembly buffer for all messages, whose
    expected length is taken from the first fragment to arrive in an empty buffer, and no
    acknowledgement list. */
module LegacyCom {
  import opened Bytes
  import opened Flags
  import opened Codec
  import opened Reassembly
  import opened Com

  /** The shared buffer and expected count after a fragment, and the delivered payload, if any. */
  datatype LegacyStep = LegacyStep(buffer: seq<Fragment>, expected: int, delivered: Option<seq<byte>>)

  /** `_handleRXMessage` of the header revision: a single-packet fragment is delivered at once;
      any other sets the expected count if the buffer is empty, is appended, and once the buffer
      holds the expected number of fragments, whatever their ids, they are sorted, joined,
      delivered and the buffer is cleared. */
  function LegacyReceive(buf: seq<Fragment>, expected: int, f: Fragment): LegacyStep
  {
    if f.packetCount == 1 then LegacyStep(buf, expected, Some(f.payload))
    else
      var exp := if |buf| == 0 then f.packetCount as int else expected;
      var entry := buf + [f];
      if |entry| == exp then LegacyStep([], exp, Some(ConcatPayloads(SortByNumber(entry))))
      else LegacyStep(entry, exp, None)
  }

  /** The shared buffer is waiting: it holds no single-packet fragment, the expected count is the
      first fragment's count, and the buffer is shorter than it (or it is 0). */
  predicate LegacyPending(buf: seq<Fragment>, expected: int)
  {
    && (forall g :: g in buf ==> g.packetCount != 1)
    && (|buf| > 0 ==> expected == buf[0].packetCount as int && (expected == 0 || |buf| < expected))
  }

  lemma LegacyReceiveKeepsPending(buf: seq<Fragment>, expected: int, f: Fragment)
    requires LegacyPending(buf, expected)
    ensures LegacyPending(LegacyReceive(buf, expected, f).buffer, LegacyReceive(buf, expected, f).expected)
  {
    if f.packetCount != 1 && |buf| > 0 {
      assert (buf + [f])[0] == buf[0];
    }
  }

  /** Fragments fed one after another: the final buffer and expected count, and the payloads
      delivered along the way. */
  datatype LegacyRun = LegacyRun(buffer: seq<Fragment>, expected: int, delivered: seq<seq<byte>>)

  function LegacyReceiveAll(expected: int, fs: seq<Fragment>): LegacyRun
    decreases |fs|
  {
    if fs == [] then LegacyRun([], expected, [])
    else
      var prev := LegacyReceiveAll(expected, fs[..|fs| - 1]);
      var step := LegacyReceive(prev.buffer, prev.expected, fs[|fs| - 1]);
      LegacyRun(step.buffer, step.expected,
                prev.delivered + if step.delivered.Some? then [step.delivered.value] else [])
  }

  lemma LegacyReceiveAllSnoc(expected: int, fs: seq<Fragment>, f: Fragment)
    ensures LegacyReceiveAll(expected, fs + [f])
         == var prev := LegacyReceiveAll(expected, fs);
            var step := LegacyReceive(prev.buffer, prev.expected, f);
            LegacyRun(step.buffer, step.expected,
                      prev.delivered + if step.delivered.Some? then [step.delivered.value] else [])
  {
    assert (fs + [f])[..|fs|] == fs;
  }

  /** A multi-packet fragment arriving at the empty buffer sets the expected count from its own
      count and waits (a count of 1 is delivered at once, and a buffer of one never reaches 0). */
  lemma LegacyFirstWaits(expected: int, f: Fragment)
    requires f.packetCount != 1
    ensures LegacyReceive([], expected, f) == LegacyStep([f], f.packetCount as int, None)
  {
    assert [] + [f] == [f];
  }

  /** A multi-packet fragment that leaves the non-empty buffer short of the expected count is
      appended and waits. */
  lemma LegacyAppendWaits(buf: seq<Fragment>, expected: int, f: Fragment)
    requires f.packetCount != 1 && |buf| > 0 && |buf| + 1 != expected
    ensures LegacyReceive(buf, expected, f) == LegacyStep(buf + [f], expected, None)
  {
  }

  /** While fewer than n fragments of a lone message have arrived in the empty shared buffer, they
      sit there in arrival order with n expected, and nothing is delivered. */
  lemma {:induction false} LegacyReceivePrefix(expected: int, ordered: seq<Fragment>, arrival: seq<Fragment>, k: nat)
    requires IndexedMessage(ordered)
    requires multiset(arrival) == multiset(ordered)
    requires 1 <= k < |ordered|
    ensures |arrival| == |ordered|
    ensures LegacyReceiveAll(expected, arrival[..k]) == LegacyRun(arrival[..k], |ordered|, [])
  {
    assert |arrival| == |multiset(arrival)| == |ordered|;
    var f := arrival[k - 1];
    assert f in multiset(arrival);
    FragmentOfIndexedMessage(ordered, f);
    TakeSnoc(arrival, k);
    LegacyReceiveAllSnoc(expected, arrival[..k - 1], f);
    if k == 1 {
      assert LegacyReceiveAll(expected, arrival[..0]) == LegacyRun([], expected, []);
      LegacyFirstWaits(expected, f);
      assert arrival[..k] == [f];
    } else {
      LegacyReceivePrefix(expected, ordered, arrival, k - 1);
      LegacyAppendWaits(arrival[..k - 1], |ordered|, f);
      assert LegacyReceive(arrival[..k - 1], |ordered|, f) == LegacyStep(arrival[..k], |ordered|, None);
    }
  }

  /** The last of the n fragments completes the buffer holding the other n - 1. */
  lemma LegacyLastFragmentCompletes(ordered: seq<Fragment>, arrival: seq<Fragment>)
    requires IndexedMessage(ordered)
    requires multiset(arrival) == multiset(ordered)
    ensures |arrival| == |ordered|
    ensures LegacyReceive(arrival[..|ordered| - 1], |ordered|, arrival[|ordered| - 1])
         == LegacyStep([], |ordered|, Some(ConcatPayloads(ordered)))
  {
    assert |arrival| == |multiset(arrival)| == |ordered|;
    var n := |ordered|;
    var f := arrival[n - 1];
    assert f in multiset(arrival);
    FragmentOfIndexedMessage(ordered, f);
    TakeSnoc(arrival, n);
    SortedRearrangementIsIndexOrder(SortByNumber(arrival), ordered, 0);
  }

  /** A lone message whose n fragments arrive in any order into the empty shared buffer is
      delivered once, joined in index order, and the buffer is empty again. */
  lemma LegacyReassembleInAnyOrder(expected: int, ordered: seq<Fragment>, arrival: seq<Fragment>)
    requires IndexedMessage(ordered)
    requires multiset(arrival) == multiset(ordered)
    ensures LegacyReceiveAll(expected, arrival) == LegacyRun([], |ordered|, [ConcatPayloads(ordered)])
  {
    var n := |ordered|;
    LegacyReceivePrefix(expected, ordered, arrival, n - 1);
    LegacyLastFragmentCompletes(ordered, arrival);
    TakeSnoc(arrival, n);
    LegacyReceiveAllSnoc(expected, arrival[..n - 1], arrival[n - 1]);
  }

  /** The shared buffer ignores message ids: the first fragment of one two-packet message followed
      by any multi-packet fragment with a number no lower, even one of another message, completes
      the buffer and delivers the two payloads joined. */
  lemma LegacyMixesMessages(expected: int, a: Fragment, b: Fragment)
    requires a.packetCount == 2 && b.packetCount != 1 && a.packetNumber <= b.packetNumber
    ensures LegacyReceiveAll(expected, [a, b]) == LegacyRun([], 2, [a.payload + b.payload])
  {
    LegacyReceiveAllSnoc(expected, [], a);
    assert [] + [a] == [a];
    assert LegacyReceiveAll(expected, []) == LegacyRun([], expected, []);
    LegacyFirstWaits(expected, a);
    assert LegacyReceiveAll(expected, [a]) == LegacyRun([a], 2, []);
    LegacyReceiveAllSnoc(expected, [a], b);
    assert [a] + [b] == [a, b];
    LegacyPairCompletes(a, b);
  }

  /** With one fragment waiting and two expected, a second multi-packet fragment numbered no lower
      completes the buffer. */
  lemma LegacyPairCompletes(a: Fragment, b: Fragment)
    requires b.packetCount != 1 && a.packetNumber <= b.packetNumber
    ensures LegacyReceive([a], 2, b) == LegacyStep([], 2, Some(a.payload + b.payload))
  {
    assert [a] + [b] == [a, b];
    PairInOrder(a, b);
  }

  class LegacyComInterface {
    /** `_messageBuffer`: one buffer shared by every message. */
    var buffer: seq<Fragment>
    /** `_rxMessageCallbacks`. */
    var callbacks: Registry
    /** `_radioState`. */
    var state: RadioState
    /** `_expectedPackets`. */
    var expectedPackets: int
    /** The packets handed to the radio, in order. */
    ghost var sent: seq<seq<byte>>
    /** The handler invocations made, in order. */
    ghost var dispatched: seq<Dispatch>

    /** The shared buffer is still waiting: it holds no single-packet fragment, and when non-empty
        `_expectedPackets` is its first fragment's count and it holds fewer (or that count is 0).
        No operation's result depends on it; it records that a completed buffer never lingers
        (`LegacyCom.LegacyReceiveKeepsPending`). */
    ghost predicate Valid()
      reads this
    {
      LegacyPending(buffer, expectedPackets)
    }

    constructor ()
      ensures Valid()
      ensures buffer == [] && callbacks == map[] && state == Idle && expectedPackets == 0
      ensures sent == [] && dispatched == []
    {
      buffer := [];
      callbacks := map[];
      state := Idle;
      expectedPackets := 0;
      sent := [];
      dispatched := [];
    }

    /** `addRXCallback(type, callback)`. */
    method AddRxCallback(t: ContentType, h: HandlerId)
      modifies this`callbacks
      ensures callbacks == Register(old(callbacks), t, h)
    {
      if t !in callbacks {
        callbacks := callbacks[t := []];
      }
      callbacks := callbacks[t := callbacks[t] + [h]];
    }

    /** `addRXCallback(types, callback)`. */
    method AddRxCallbackTypes(types: seq<ContentType>, h: HandlerId)
      modifies this`callbacks
      ensures callbacks == RegisterAll(old(callbacks), types, h)
    {
      for i := 0 to |types|
        invariant callbacks == RegisterAll(old(callbacks), types[..i], h)
      {
        assert types[..i + 1][..i] == types[..i];
        AddRxCallback(types[i], h);
      }
      assert types[..|types|] == types;
    }

    /** `addRXCallbackToAny(callback)`. */
    method AddRxCallbackToAny(h: HandlerId)
      modifies this`callbacks
      ensures forall t :: Handlers(callbacks, t) == Handlers(old(callbacks), t) + [h]
    {
      AddRxCallbackTypes(AllContentTypes, h);
      forall t ensures Handlers(callbacks, t) == Handlers(old(callbacks), t) + [h] {
        RegisterAnyAppendsToEveryType(old(callbacks), h, t);
      }
    }

    /** Invokes every handler registered for `t`, in registration order, with `payload`. */
    method Deliver(t: ContentType, payload: seq<byte>)
      modifies this`dispatched
      ensures dispatched == old(dispatched) + Calls(Handlers(callbacks, t), payload)
    {
      if t in callbacks {
        var hs := callbacks[t];
        for i := 0 to |hs|
          invariant dispatched == old(dispatched) + Calls(hs[..i], payload)
        {
          assert Calls(hs[..i + 1], payload) == Calls(hs[..i], payload) + [Dispatch(hs[i], payload)];
          dispatched := dispatched + [Dispatch(hs[i], payload)];
        }
        assert hs[..|hs|] == hs;
      }
    }

    /** `_handleRXMessage(res)` of the header revision: one `LegacyReceive` step. */
    method HandleRxMessage(res: Fragment)
      requires Valid()
      modifies this`buffer, this`expectedPackets, this`dispatched
      ensures Valid()
      ensures var step := LegacyReceive(old(buffer), old(expectedPackets), res);
        buffer == step.buffer && expectedPackets == step.expected
        && dispatched == old(dispatched) + Deliveries(callbacks, res.contentType, step.delivered)
    {
      LegacyReceiveKeepsPending(buffer, expectedPackets, res);
      if res.packetCount == 1 {
        Deliver(res.contentType, res.payload);
        return;
      }
      if |buffer| == 0 {
        expectedPackets := res.packetCount as int;
      }
      buffer := buffer + [res];
      if |buffer| == expectedPackets {
        var packets := SortByNumber(buffer);
        var fullMessage := JoinPayloads(packets);
        Deliver(res.contentType, fullMessage);
        buffer := [];
      }
    }

    /** `listen()` of the header revision: `rx` is the frame the radio has available, if any. */
    method Listen(rx: Option<seq<byte>>)
      requires Valid()
      modifies this`buffer, this`expectedPackets, this`dispatched
      ensures Valid()
      ensures state != Idle || rx.None? || Decoded(rx.value).ParseError? ==>
        buffer == old(buffer) && expectedPackets == old(expectedPackets) && dispatched == old(dispatched)
      ensures state == Idle && rx.Some? && Decoded(rx.value).Parsed? ==>
        var f := Decoded(rx.value).fragment;
        var step := LegacyReceive(old(buffer), old(expectedPackets), f);
        buffer == step.buffer && expectedPackets == step.expected
        && dispatched == old(dispatched) + Deliveries(callbacks, f.contentType, step.delivered)
    {
      if state != Idle {
        return;
      }
      if rx.Some? {
        var res := Decode(rx.value);
        if res.ParseError? {
          return;
        }
        HandleRxMessage(res.fragment);
      }
    }

    /** `sendMessage(msg)` of the header revision: when idle, every packet of `encode(msg)` goes to
        the radio in order; nothing is recorded for acknowledgement. */
    method SendMessage(msg: Message)
      requires EncodeDefined(msg)
      modifies this`state, this`sent
      ensures state == old(state)
      ensures sent == old(sent) + if old(state) == Idle then Encoded(msg) else []
    {
      if state != Idle {
        return;
      }
      state := Transmitting;
      var packets := Encode(msg);
      for i := 0 to |packets|
        invariant sent == old(sent) + packets[..i]
      {
        assert packets[..i + 1] == packets[..i] + [packets[i]];
        sent := sent + [packets[i]];
      }
      assert packets[..|packets|] == packets;
      state := Idle;
    }
  }
}
