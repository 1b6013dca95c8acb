/** The receive side as values: the callback registry (content type to ordered handler list),
    the reassembly buffer (message id to the fragments received so far) and what one received
    fragment does to them. The coordinator classes are proved against these functions. */
module Reassembly {
  import opened Bytes
  import opened Flags
  import opened Codec

  // ---------------------------------------------------------------- callback registry

  /** A registered handler (a closure in the source), identified by an opaque id. */
  type HandlerId = nat

  /** One handler invocation together with the payload it was given. */
  datatype Dispatch = Dispatch(handler: HandlerId, payload: seq<byte>)

  /** `_rxMessageCallbacks`. */
  type Registry = map<ContentType, seq<HandlerId>>

  /** The handlers registered for `t`, in registration order (none when `t` has no list). */
  function Handlers(cbs: Registry, t: ContentType): seq<HandlerId>
  {
    if t in cbs then cbs[t] else []
  }

  /** `addRXCallback(type, cb)`: the list for `type` is created if absent and `cb` appended. */
  function Register(cbs: Registry, t: ContentType, h: HandlerId): (r: Registry)
    ensures r.Keys == cbs.Keys + {t}
    ensures Handlers(r, t) == Handlers(cbs, t) + [h]
    ensures forall u :: u != t ==> Handlers(r, u) == Handlers(cbs, u)
  {
    cbs[t := Handlers(cbs, t) + [h]]
  }

  /** `addRXCallback(types, cb)`: `Register` once per listed type, in list order. */
  function RegisterAll(cbs: Registry, types: seq<ContentType>, h: HandlerId): Registry
    decreases |types|
  {
    if types == [] then cbs
    else Register(RegisterAll(cbs, types[..|types| - 1], h), types[|types| - 1], h)
  }

  /** `n` copies of `h`. */
  function Repeat(h: HandlerId, n: nat): (r: seq<HandlerId>)
    ensures |r| == n && forall i :: 0 <= i < n ==> r[i] == h
  {
    seq(n, _ => h)
  }

  /** Registering for a list of types appends the handler to each type's list once per
      occurrence of that type in the list, and to no other list. */
  lemma {:induction false} RegisterAllAppends(cbs: Registry, types: seq<ContentType>, h: HandlerId, t: ContentType)
    ensures Handlers(RegisterAll(cbs, types, h), t) == Handlers(cbs, t) + Repeat(h, multiset(types)[t])
    decreases |types|
  {
    if types != [] {
      var init := types[..|types| - 1];
      var last := types[|types| - 1];
      RegisterAllAppends(cbs, init, h, t);
      CountSnoc(types, t);
      if last == t {
        RepeatSnoc(h, multiset(init)[t]);
      }
    }
  }

  /** Occurrences of `t` in a list: those before the last element, plus one if the last is `t`. */
  lemma CountSnoc(types: seq<ContentType>, t: ContentType)
    requires types != []
    ensures multiset(types)[t]
         == multiset(types[..|types| - 1])[t] + if types[|types| - 1] == t then 1 else 0
  {
    assert types == types[..|types| - 1] + [types[|types| - 1]];
  }

  /** One more copy is one more element at the end. */
  lemma RepeatSnoc(h: HandlerId, n: nat)
    ensures Repeat(h, n) + [h] == Repeat(h, n + 1)
  {
  }

  /** The four content types, as `addRXCallbackToAny` lists them. */
  const AllContentTypes: seq<ContentType> := [Meta, Drive, SwitchDataRate, DataTransfer]

  /** `addRXCallbackToAny`: every content type's list gets the handler appended exactly once. */
  lemma RegisterAnyAppendsToEveryType(cbs: Registry, h: HandlerId, t: ContentType)
    ensures Handlers(RegisterAll(cbs, AllContentTypes, h), t) == Handlers(cbs, t) + [h]
  {
    RegisterAllAppends(cbs, AllContentTypes, h, t);
    assert multiset(AllContentTypes)[t] == 1;
  }

  /** Invoking every handler of `hs`, in order, with `payload`. */
  function Calls(hs: seq<HandlerId>, payload: seq<byte>): (r: seq<Dispatch>)
    ensures |r| == |hs| && forall i :: 0 <= i < |hs| ==> r[i] == Dispatch(hs[i], payload)
  {
    seq(|hs|, i requires 0 <= i < |hs| => Dispatch(hs[i], payload))
  }

  /** What a delivery does: every handler for `t`, in registration order, gets the payload. */
  function Deliveries(cbs: Registry, t: ContentType, delivered: Option<seq<byte>>): seq<Dispatch>
  {
    if delivered.None? then [] else Calls(Handlers(cbs, t), delivered.value)
  }

  // ---------------------------------------------------------------- ordering fragments

  predicate SortedByNumber(fs: seq<Fragment>)
  {
    forall i, j :: 0 <= i < j < |fs| ==> fs[i].packetNumber <= fs[j].packetNumber
  }

  /** A bound below `f` and below every fragment of `tail` stays below every fragment of any
      rearrangement of `tail` with `f` added. */
  lemma LowerBoundKept(bound: nat, f: Fragment, tail: seq<Fragment>, rest: seq<Fragment>)
    requires bound <= f.packetNumber
    requires forall i :: 0 <= i < |tail| ==> bound <= tail[i].packetNumber
    requires multiset(rest) == multiset(tail) + multiset{f}
    ensures forall i :: 0 <= i < |rest| ==> bound <= rest[i].packetNumber
  {
    forall i | 0 <= i < |rest| ensures bound <= rest[i].packetNumber {
      assert rest[i] in multiset(rest);
      if rest[i] != f {
        assert rest[i] in multiset(tail);
        var j :| 0 <= j < |tail| && tail[j] == rest[i];
      }
    }
  }

  /** A fragment numbered no higher than every fragment of a sorted sequence can go in front. */
  lemma SortedCons(x: Fragment, rest: seq<Fragment>)
    requires SortedByNumber(rest)
    requires forall i :: 0 <= i < |rest| ==> x.packetNumber <= rest[i].packetNumber
    ensures SortedByNumber([x] + rest)
  {
    forall i, j | 0 <= i < j < |rest| + 1
      ensures ([x] + rest)[i].packetNumber <= ([x] + rest)[j].packetNumber
    {
      assert ([x] + rest)[j] == rest[j - 1];
    }
  }

  /** Inserting `f` after every fragment whose number is not larger. */
  function InsertByNumber(f: Fragment, fs: seq<Fragment>): (r: seq<Fragment>)
    requires SortedByNumber(fs)
    ensures SortedByNumber(r)
    ensures multiset(r) == multiset(fs) + multiset{f}
  {
    if fs == [] then [f]
    else if f.packetNumber < fs[0].packetNumber then
      SortedCons(f, fs);
      [f] + fs
    else
      var rest := InsertByNumber(f, fs[1..]);
      LowerBoundKept(fs[0].packetNumber, f, fs[1..], rest);
      SortedCons(fs[0], rest);
      assert fs == [fs[0]] + fs[1..];
      [fs[0]] + rest
  }

  /** The `std::sort` of the fragments by `packetNumber`: a sorted rearrangement of them. */
  function SortByNumber(fs: seq<Fragment>): (r: seq<Fragment>)
    ensures SortedByNumber(r)
    ensures multiset(r) == multiset(fs)
    decreases |fs|
  {
    if fs == [] then []
    else
      assert fs == fs[..|fs| - 1] + [fs[|fs| - 1]];
      InsertByNumber(fs[|fs| - 1], SortByNumber(fs[..|fs| - 1]))
  }

  /** The first fragment of a sorted rearrangement of fragments numbered `base`, `base + 1`, ...
      is the one numbered `base`. */
  lemma SortedHeadIsFirst(s: seq<Fragment>, ordered: seq<Fragment>, base: nat)
    requires multiset(s) == multiset(ordered) && 0 < |s|
    requires SortedByNumber(s)
    requires forall k :: 0 <= k < |ordered| ==> ordered[k].packetNumber == base + k
    ensures 0 < |ordered| && s[0] == ordered[0]
  {
    assert s[0] in multiset(ordered);
    var k :| 0 <= k < |ordered| && ordered[k] == s[0];
    assert ordered[0] in multiset(s);
    var j :| 0 <= j < |s| && s[j] == ordered[0];
    assert s[0].packetNumber <= s[j].packetNumber;
  }

  /** Removing equal heads from two rearrangements of each other leaves rearrangements. */
  lemma TailsRearranged(s: seq<Fragment>, ordered: seq<Fragment>)
    requires multiset(s) == multiset(ordered) && 0 < |s| && 0 < |ordered| && s[0] == ordered[0]
    ensures multiset(s[1..]) == multiset(ordered[1..])
  {
    assert s == [s[0]] + s[1..];
    assert ordered == [ordered[0]] + ordered[1..];
    assert multiset(s[1..]) == multiset(s) - multiset{s[0]};
    assert multiset(ordered[1..]) == multiset(ordered) - multiset{ordered[0]};
  }

  /** A sorted rearrangement of fragments numbered `base`, `base + 1`, ... in order is that very
      sequence: sorting by number restores index order whatever the arrival order. */
  lemma {:induction false} SortedRearrangementIsIndexOrder(s: seq<Fragment>, ordered: seq<Fragment>, base: nat)
    requires multiset(s) == multiset(ordered)
    requires SortedByNumber(s)
    requires forall k :: 0 <= k < |ordered| ==> ordered[k].packetNumber == base + k
    ensures s == ordered
    decreases |ordered|
  {
    assert |s| == |multiset(s)| == |multiset(ordered)| == |ordered|;
    if |s| > 0 {
      SortedHeadIsFirst(s, ordered, base);
      TailsRearranged(s, ordered);
      assert forall k :: 0 <= k < |ordered[1..]| ==> ordered[1..][k].packetNumber == base + 1 + k;
      SortedRearrangementIsIndexOrder(s[1..], ordered[1..], base + 1);
      assert s == [s[0]] + s[1..];
      assert ordered == [ordered[0]] + ordered[1..];
    }
  }

  /** The payloads of the fragments, in order. */
  function Payloads(fs: seq<Fragment>): (ps: seq<seq<byte>>)
    ensures |ps| == |fs| && forall i :: 0 <= i < |fs| ==> ps[i] == fs[i].payload
  {
    seq(|fs|, i requires 0 <= i < |fs| => fs[i].payload)
  }

  /** The payloads of the fragments joined in order. */
  function ConcatPayloads(fs: seq<Fragment>): seq<byte>
  {
    Flatten(Payloads(fs))
  }

  /** The loop that appends each sorted fragment's payload to `fullMessage`. */
  method JoinPayloads(packets: seq<Fragment>) returns (full: seq<byte>)
    ensures full == ConcatPayloads(packets)
  {
    full := [];
    for i := 0 to |packets|
      invariant full == ConcatPayloads(packets[..i])
    {
      assert Payloads(packets[..i + 1])[..i] == Payloads(packets[..i]);
      full := full + packets[i].payload;
    }
    assert packets[..|packets|] == packets;
  }

  // ---------------------------------------------------------------- the reassembly buffer

  /** `_messageBuffer`. */
  type Buffer = map<u16, seq<Fragment>>

  /** The fragments buffered for `id` (none when there is no entry). */
  function Entry(buf: Buffer, id: u16): seq<Fragment>
  {
    if id in buf then buf[id] else []
  }

  /** An entry still waiting: non-empty, every fragment of it carries the entry's id and a count
      other than 1, and it is shorter than the count of its first fragment (or that count is 0,
      which no entry length ever equals). */
  predicate PendingEntry(entry: seq<Fragment>, id: u16)
  {
    && |entry| > 0
    && (forall f :: f in entry ==> f.messageId == id && f.packetCount != 1)
    && (entry[0].packetCount == 0 || |entry| < entry[0].packetCount)
  }

  predicate Pending(buf: Buffer)
  {
    forall id :: id in buf ==> PendingEntry(buf[id], id)
  }

  /** The buffer after a fragment, and the payload delivered to the handlers, if any. */
  datatype Step = Step(buffer: Buffer, delivered: Option<seq<byte>>)

  /** `_handleRXMessage`: a single-packet fragment is delivered at once; any other is appended to
      its id's entry, and once the entry's length equals its first fragment's count the entry is
      sorted by number, its payloads are joined and delivered, and the entry is erased. */
  function Receive(buf: Buffer, f: Fragment): Step
  {
    if f.packetCount == 1 then Step(buf, Some(f.payload))
    else
      var entry := Entry(buf, f.messageId) + [f];
      if |entry| == entry[0].packetCount then
        Step(buf - {f.messageId}, Some(ConcatPayloads(SortByNumber(entry))))
      else
        Step(buf[f.messageId := entry], None)
  }

  /** One step touches only the arriving fragment's entry and keeps every entry waiting. */
  lemma ReceiveKeepsPending(buf: Buffer, f: Fragment)
    requires Pending(buf)
    ensures Pending(Receive(buf, f).buffer)
    ensures forall id :: id != f.messageId ==> Entry(Receive(buf, f).buffer, id) == Entry(buf, id)
    ensures forall id :: id != f.messageId ==> (id in Receive(buf, f).buffer <==> id in buf)
  {
    if f.packetCount != 1 {
      var entry := Entry(buf, f.messageId) + [f];
      if f.messageId in buf {
        assert entry[0] == buf[f.messageId][0];
      }
      if |entry| != entry[0].packetCount {
        assert PendingEntry(entry, f.messageId);
      }
    }
  }

  /** An entry whose first fragment declares 0 packets never completes: every further fragment
      for that id is appended and nothing is delivered. */
  lemma ZeroCountEntryNeverCompletes(buf: Buffer, g: Fragment)
    requires Pending(buf) && g.messageId in buf && buf[g.messageId][0].packetCount == 0
    requires g.packetCount != 1
    ensures Receive(buf, g).delivered == None
    ensures Entry(Receive(buf, g).buffer, g.messageId) == buf[g.messageId] + [g]
  {
    assert (buf[g.messageId] + [g])[0] == buf[g.messageId][0];
  }

  /** The outcome of feeding fragments one after another: the final buffer and the payloads
      delivered along the way. */
  datatype Run = Run(buffer: Buffer, delivered: seq<seq<byte>>)

  function ReceiveAll(buf: Buffer, fs: seq<Fragment>): Run
    decreases |fs|
  {
    if fs == [] then Run(buf, [])
    else
      var prev := ReceiveAll(buf, fs[..|fs| - 1]);
      var step := Receive(prev.buffer, fs[|fs| - 1]);
      Run(step.buffer, prev.delivered + if step.delivered.Some? then [step.delivered.value] else [])
  }

  /** Feeding one more fragment is one more `Receive` on the buffer reached so far. */
  lemma ReceiveAllSnoc(buf: Buffer, fs: seq<Fragment>, f: Fragment)
    ensures ReceiveAll(buf, fs + [f])
         == var prev := ReceiveAll(buf, fs);
            var step := Receive(prev.buffer, f);
            Run(step.buffer, prev.delivered + if step.delivered.Some? then [step.delivered.value] else [])
  {
    assert (fs + [f])[..|fs|] == fs;
  }

  /** The fragments of one message: numbered 0 to n-1 in order, all with count n and one id. */
  predicate IndexedMessage(ordered: seq<Fragment>)
  {
    && |ordered| >= 2
    && forall k :: 0 <= k < |ordered| ==>
         ordered[k].packetNumber == k && ordered[k].packetCount == |ordered|
         && ordered[k].messageId == ordered[0].messageId
  }

  /** Every fragment that occurs in an indexed message carries its id and its count. */
  lemma FragmentOfIndexedMessage(ordered: seq<Fragment>, x: Fragment)
    requires IndexedMessage(ordered) && x in multiset(ordered)
    ensures x.messageId == ordered[0].messageId && x.packetCount == |ordered|
  {
    var k :| 0 <= k < |ordered| && ordered[k] == x;
  }

  /** A fragment that leaves its entry short of the entry's count is appended and waits. */
  lemma AppendWaits(b: Buffer, f: Fragment, entry: seq<Fragment>)
    requires f.packetCount != 1 && entry == Entry(b, f.messageId) + [f]
    requires |entry| != entry[0].packetCount
    ensures Receive(b, f) == Step(b[f.messageId := entry], None)
  {
  }

  /** While fewer than n fragments of the message have arrived, they sit in its entry in
      arrival order and nothing is delivered. */
  lemma {:induction false} ReceivePrefix(buf: Buffer, ordered: seq<Fragment>, arrival: seq<Fragment>, k: nat)
    requires IndexedMessage(ordered) && ordered[0].messageId !in buf
    requires multiset(arrival) == multiset(ordered)
    requires 1 <= k < |ordered|
    ensures |arrival| == |ordered|
    ensures ReceiveAll(buf, arrival[..k]) == Run(buf[ordered[0].messageId := arrival[..k]], [])
  {
    assert |arrival| == |multiset(arrival)| == |ordered|;
    var id := ordered[0].messageId;
    var f := arrival[k - 1];
    assert f in multiset(arrival);
    FragmentOfIndexedMessage(ordered, f);
    assert arrival[0] in multiset(arrival);
    FragmentOfIndexedMessage(ordered, arrival[0]);
    TakeSnoc(arrival, k);
    ReceiveAllSnoc(buf, arrival[..k - 1], f);
    assert arrival[..k][0] == arrival[0];
    if k == 1 {
      assert ReceiveAll(buf, arrival[..0]) == Run(buf, []);
      assert Entry(buf, id) + [f] == arrival[..k];
      AppendWaits(buf, f, arrival[..k]);
    } else {
      ReceivePrefix(buf, ordered, arrival, k - 1);
      var prev := buf[id := arrival[..k - 1]];
      assert Entry(prev, id) + [f] == arrival[..k];
      AppendWaits(prev, f, arrival[..k]);
      UpdateTwice(buf, id, arrival[..k - 1], arrival[..k]);
    }
  }

  /** A second update of an entry overrides the first. */
  lemma UpdateTwice(buf: Buffer, id: u16, first: seq<Fragment>, second: seq<Fragment>)
    ensures buf[id := first][id := second] == buf[id := second]
  {
  }

  /** Reassembly in any arrival order: when the n fragments of a message numbered 0 to n-1 arrive
      in any order, nothing is delivered until the last, which delivers the payloads joined in
      index order, and the buffer ends as it began. */
  lemma ReassembleInAnyOrder(buf: Buffer, ordered: seq<Fragment>, arrival: seq<Fragment>)
    requires IndexedMessage(ordered) && ordered[0].messageId !in buf
    requires multiset(arrival) == multiset(ordered)
    ensures ReceiveAll(buf, arrival) == Run(buf, [ConcatPayloads(ordered)])
  {
    var n := |ordered|;
    ReceivePrefix(buf, ordered, arrival, n - 1);
    TakeSnoc(arrival, n);
    ReceiveAllSnoc(buf, arrival[..n - 1], arrival[n - 1]);
    LastArrivalCompletes(buf, ordered, arrival);
  }

  /** The last of the n fragments to arrive finds the other n-1 in its entry, delivers the
      payloads joined in index order and erases the entry. */
  lemma LastArrivalCompletes(buf: Buffer, ordered: seq<Fragment>, arrival: seq<Fragment>)
    requires IndexedMessage(ordered) && ordered[0].messageId !in buf
    requires multiset(arrival) == multiset(ordered)
    ensures |arrival| == |ordered|
    ensures Receive(buf[ordered[0].messageId := arrival[..|arrival| - 1]], arrival[|arrival| - 1])
         == Step(buf, Some(ConcatPayloads(ordered)))
  {
    assert |arrival| == |multiset(arrival)| == |ordered|;
    var n := |ordered|;
    var id := ordered[0].messageId;
    var f := arrival[n - 1];
    TakeSnoc(arrival, n);
    assert f in multiset(arrival);
    FragmentOfIndexedMessage(ordered, f);
    assert arrival[0] in multiset(arrival);
    FragmentOfIndexedMessage(ordered, arrival[0]);
    var prev := buf[id := arrival[..n - 1]];
    assert Entry(prev, id) + [f] == arrival;
    AppendCompletes(prev, f, arrival);
    SortedRearrangementIsIndexOrder(SortByNumber(arrival), ordered, 0);
    UpdateThenErase(buf, id, arrival[..n - 1]);
  }

  /** A fragment that brings its entry to the entry's count delivers the entry sorted and joined
      and erases it. */
  lemma AppendCompletes(b: Buffer, f: Fragment, entry: seq<Fragment>)
    requires f.packetCount != 1 && entry == Entry(b, f.messageId) + [f]
    requires |entry| == entry[0].packetCount
    ensures Receive(b, f) == Step(b - {f.messageId}, Some(ConcatPayloads(SortByNumber(entry))))
  {
  }

  /** Erasing an entry that was absent before it was added restores the buffer. */
  lemma UpdateThenErase(buf: Buffer, id: u16, entry: seq<Fragment>)
    requires id !in buf
    ensures buf[id := entry] - {id} == buf
  {
  }

  /** Two fragments already in number order sort to themselves and join to their payloads. */
  lemma PairInOrder(a: Fragment, b: Fragment)
    requires a.packetNumber <= b.packetNumber
    ensures SortByNumber([a, b]) == [a, b]
    ensures ConcatPayloads([a, b]) == a.payload + b.payload
  {
    assert [a, b][..1] == [a];
    assert [a][..0] == [];
    assert SortByNumber([a]) == [a];
    assert InsertByNumber(b, [a]) == [a, b];
    FlattenAppend([a.payload], [b.payload]);
    FlattenOne(a.payload);
    FlattenOne(b.payload);
    assert Payloads([a, b]) == [a.payload] + [b.payload];
  }

  /** Duplicates are not filtered: a fragment that arrives twice counts twice, so a two-packet
      message completes on the repeat and delivers the same payload twice. */
  lemma DuplicateFragmentCompletesMessage(buf: Buffer, f: Fragment)
    requires f.packetCount == 2 && f.messageId !in buf
    ensures ReceiveAll(buf, [f, f]) == Run(buf, [f.payload + f.payload])
  {
    var id := f.messageId;
    ReceiveAllSnoc(buf, [], f);
    assert [] + [f] == [f];
    assert Entry(buf, id) + [f] == [f];
    AppendWaits(buf, f, [f]);
    ReceiveAllSnoc(buf, [f], f);
    assert [f] + [f] == [f, f];
    assert Entry(buf[id := [f]], id) + [f] == [f, f];
    AppendCompletes(buf[id := [f]], f, [f, f]);
    PairInOrder(f, f);
    UpdateThenErase(buf, id, [f]);
  }

  /** The fragments the receiver parses out of the packets of a well-formed message. */
  function WireFragments(m: Message): (fs: seq<Fragment>)
    requires WellFormed(m) && CountFits(m)
    ensures |fs| == |Encoded(m)|
    ensures forall i :: 0 <= i < |fs| ==> Decoded(Encoded(m)[i]) == Parsed(fs[i])
  {
    EncodeDecodeRoundTrip(m);
    seq(|Encoded(m)|, i requires 0 <= i < |Encoded(m)| => Decoded(Encoded(m)[i]).fragment)
  }

  /** End to end for a long message: the parsed packets of `encode(m)`, fed to the receiver in any
      order, deliver exactly the original payload once, and leave the buffer as it was. */
  lemma LongMessageReassembles(buf: Buffer, m: Message, arrival: seq<Fragment>)
    requires WellFormed(m) && CountFits(m) && IsLong(m.flag) && m.id !in buf
    requires multiset(arrival) == multiset(WireFragments(m))
    ensures ReceiveAll(buf, arrival) == Run(buf, [m.data])
  {
    var ordered := WireFragments(m);
    EncodeDecodeRoundTrip(m);
    EncodeShape(m);
    assert |m.data| > MaxLongPayload;
    assert |Encoded(m)| * MaxLongPayload >= |m.data|;
    assert |ordered| >= 2;
    forall k | 0 <= k < |ordered|
      ensures ordered[k].packetNumber == k && ordered[k].packetCount == |ordered|
      ensures ordered[k].messageId == ordered[0].messageId && ordered[k].payload == PayloadChunks(m)[k]
    {
      assert Decoded(Encoded(m)[k]) == Parsed(ordered[k]);
    }
    ReassembleInAnyOrder(buf, ordered, arrival);
    assert Payloads(ordered) == PayloadChunks(m);
  }

  /** End to end for a short message: its single parsed packet is delivered at once with the
      original payload, and the buffer is untouched. */
  lemma ShortMessageDeliveredAtOnce(buf: Buffer, m: Message)
    requires WellFormed(m) && CountFits(m) && !IsLong(m.flag)
    ensures |WireFragments(m)| == 1
    ensures Receive(buf, WireFragments(m)[0]) == Step(buf, Some(m.data))
  {
    EncodeDecodeRoundTrip(m);
    FlattenOne(PayloadChunks(m)[0]);
    assert PayloadChunks(m) == [PayloadChunks(m)[0]];
  }
}
