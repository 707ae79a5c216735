/** The two filters for sequenced packets, RakNet's and the UDP one, against unbounded sequence numbers. */
module Sequenced {
  import opened Words
  import opened Packets
  import opened Bits
  import opened Receiving
  import opened Delivery
  import opened TcpUdp

  /** A whole sequenced message under the machine index it was sent with. */
  datatype Numbered = Numbered(ord: u32, data: Bytes)

  /** The same with the unbounded number the index stands for. */
  datatype Item = Item(n: int, data: Bytes)

  function Wrapped(items: seq<Item>): (ms: seq<Numbered>)
    ensures |ms| == |items|
  {
    seq(|items|, i requires 0 <= i < |items| => Numbered(Wrap32(items[i].n), items[i].data))
  }

  function AsPackets(items: seq<Item>): (ps: seq<Packet>)
    ensures |ps| == |items|
  {
    seq(|items|, i requires 0 <= i < |items| => Packet(UnreliableSequenced, items[i].data))
  }

  datatype Filtered = Filtered(expected: u32, kept: seq<Packet>)

  /** The machine filter. */
  function Filter(expected: u32, ms: seq<Numbered>): Filtered {
    if ms == [] then Filtered(expected, [])
    else
      var f, last := Filter(expected, ms[..|ms| - 1]), ms[|ms| - 1];
      if NotOld(last.ord, f.expected)
      then Filtered(Wrap32(last.ord + 1), f.kept + [Packet(UnreliableSequenced, last.data)])
      else f
  }

  /** The number expected next, without bound: one more than the largest seen. */
  function Expected(expected: int, items: seq<Item>): int {
    if items == [] then expected
    else
      var e, last := Expected(expected, items[..|items| - 1]), items[|items| - 1];
      if last.n >= e then last.n + 1 else e
  }

  /** The items that are new: later than everything before them. */
  function Newest(expected: int, items: seq<Item>): seq<Item> {
    if items == [] then []
    else
      var init, last := items[..|items| - 1], items[|items| - 1];
      if last.n >= Expected(expected, init) then Newest(expected, init) + [last] else Newest(expected, init)
  }

  /** Every item arrives within the window of the number expected at that moment. */
  ghost predicate InWindowRun(expected: int, items: seq<Item>) {
    items != [] ==>
      var init := items[..|items| - 1];
      InWindowRun(expected, init) && InWindow(items[|items| - 1].n, Expected(expected, init))
  }

  /** In the window, the machine filter keeps exactly the newest items, across any wraparound. */
  lemma {:induction false} FilterIsNewest(expected: int, items: seq<Item>)
    requires InWindowRun(expected, items)
    ensures Filter(Wrap32(expected), Wrapped(items)) ==
            Filtered(Wrap32(Expected(expected, items)), AsPackets(Newest(expected, items)))
  {
    if items != [] {
      var init, last := items[..|items| - 1], items[|items| - 1];
      FilterIsNewest(expected, init);
      WindowIsExact(last.n, Expected(expected, init));
      WrapNext(last.n, 1);
      hide Wrap32, NotOld;
      assert Wrapped(items)[..|init|] == Wrapped(init);
      var newest := Newest(expected, init);
      assert AsPackets(newest + [last]) == AsPackets(newest) + [Packet(UnreliableSequenced, last.data)];
    }
  }

  /** Whatever indices arrive, there is a reading of them in the window, */
  lemma {:induction false} Reading(expected: int, ms: seq<Numbered>) returns (items: seq<Item>)
    ensures Wrapped(items) == ms && InWindowRun(expected, items)
  {
    items := [];
    if ms != [] {
      var init := Reading(expected, ms[..|ms| - 1]);
      var last := ms[|ms| - 1];
      var n := Nearest(last.ord, Expected(expected, init));
      items := init + [Item(n, last.data)];
      assert items[..|init|] == init;
      hide Wrap32;
      assert Wrapped(items) == Wrapped(init) + [Numbered(Wrap32(n), last.data)];
    }
  }

  lemma Nearest(ord: u32, expected: int) returns (n: int)
    ensures Wrap32(n) == ord && InWindow(n, expected)
  {
    var d := WrappingSub(ord, Wrap32(expected));
    n := expected + if d < HALF_RANGE then d else d - 0x1_0000_0000;
    WrapNext(expected, n - expected);
  }

  /** and only one, because the window is exactly as wide as the index. */
  lemma {:induction false} ReadingIsUnique(expected: int, a: seq<Item>, b: seq<Item>)
    requires Wrapped(a) == Wrapped(b) && InWindowRun(expected, a) && InWindowRun(expected, b)
    ensures a == b
  {
    if a != [] {
      var k := |a| - 1;
      assert |b| == |Wrapped(b)|;
      assert Wrapped(a)[..k] == Wrapped(a[..k]) && Wrapped(b)[..k] == Wrapped(b[..k]);
      ReadingIsUnique(expected, a[..k], b[..k]);
      assert Wrapped(a)[k] == Wrapped(b)[k];
      SameWrap(a[k].n, b[k].n, Expected(expected, a[..k]));
      assert a == a[..k] + [a[k]] && b == b[..k] + [b[k]];
    }
  }

  lemma SameWrap(n: int, m: int, expected: int)
    requires Wrap32(n) == Wrap32(m) && InWindow(n, expected) && InWindow(m, expected)
    ensures n == m
  {
  }

  /** An item is newest if and only if its number exceeds all before it. */
  lemma {:induction false} ExpectedIsBound(expected: int, items: seq<Item>)
    ensures expected <= Expected(expected, items)
    ensures forall i :: 0 <= i < |items| ==> items[i].n < Expected(expected, items)
    ensures Expected(expected, items) == expected ||
              exists i :: 0 <= i < |items| && items[i].n == Expected(expected, items) - 1
  {
    if items != [] {
      var init, last := items[..|items| - 1], items[|items| - 1];
      ExpectedIsBound(expected, init);
      if last.n >= Expected(expected, init) {
        assert items[|items| - 1].n == Expected(expected, items) - 1;
      } else if Expected(expected, init) != expected {
        var i :| 0 <= i < |init| && init[i].n == Expected(expected, init) - 1;
        assert items[i].n == Expected(expected, items) - 1;
      }
    }
  }

  /** Kept numbers strictly increase, so nothing is delivered twice or late. */
  lemma {:induction false} NewestIncrease(expected: int, items: seq<Item>)
    ensures forall i :: 0 <= i < |Newest(expected, items)| ==>
              expected <= Newest(expected, items)[i].n < Expected(expected, items)
    ensures forall i, j :: 0 <= i < j < |Newest(expected, items)| ==>
              Newest(expected, items)[i].n < Newest(expected, items)[j].n
  {
    if items != [] {
      NewestIncrease(expected, items[..|items| - 1]);
      ExpectedIsBound(expected, items[..|items| - 1]);
    }
  }

  /** A message is kept exactly when it is later than everything that arrived before it. */
  lemma KeptIff(expected: int, items: seq<Item>, last: Item)
    ensures Newest(expected, items + [last]) ==
            if last.n >= expected && (forall i :: 0 <= i < |items| ==> items[i].n < last.n)
            then Newest(expected, items) + [last] else Newest(expected, items)
  {
    ExpectedIsBound(expected, items);
    assert (items + [last])[..|items|] == items;
  }

  // Both receivers are the machine filter, on every run and among whatever other traffic

  /** The UnreliableSequenced packets of a list, in order. */
  function SequencedOnly(ps: seq<Packet>): seq<Packet> {
    if ps == [] then []
    else
      var before, last := SequencedOnly(ps[..|ps| - 1]), ps[|ps| - 1];
      if last.reliability.UnreliableSequenced? then before + [last] else before
  }

  lemma {:induction false} SequencedAppends(a: seq<Packet>, b: seq<Packet>)
    ensures SequencedOnly(a + b) == SequencedOnly(a) + SequencedOnly(b)
  {
    if b == [] {
      assert a + b == a;
    } else {
      SequencedAppends(a, b[..|b| - 1]);
      assert (a + b)[..|a + b| - 1] == a + b[..|b| - 1];
    }
  }

  lemma {:induction false} OrderedAreNotSequenced(ps: seq<Packet>)
    requires AllOrdered(ps)
    ensures SequencedOnly(ps) == []
  {
    if ps != [] {
      OrderedAreNotSequenced(ps[..|ps| - 1]);
    }
  }

  lemma OneSequenced(p: Packet)
    ensures SequencedOnly([p]) == if p.reliability.UnreliableSequenced? then [p] else []
  {
    assert [p][..0] == [];
  }

  lemma FilterAppend(expected: u32, ms: seq<Numbered>, m: Numbered)
    ensures Filter(expected, ms + [m]) ==
            var f := Filter(expected, ms);
            if NotOld(m.ord, f.expected)
            then Filtered(Wrap32(m.ord + 1), f.kept + [Packet(UnreliableSequenced, m.data)])
            else f
  {
    assert (ms + [m])[..|ms|] == ms;
  }

  /** A whole message, if it is sequenced and no disconnect notification. */
  function IfSequenced(rel: ReliabilityData, data: Bytes): (ms: seq<Numbered>)
    ensures |ms| <= 1
  {
    if rel.UnreliableSequencedData? && !IsDisconnect(data) then [Numbered(rel.ord, data)] else []
  }

  /** The sequenced message that a packet makes whole. */
  function SeqWhole(t: RecvState, p: RaknetPacket): (ms: seq<Numbered>)
    ensures |ms| <= 1
  {
    match Assemble(t.splits, p)
    case Whole(_, data) => IfSequenced(p.relData, data)
    case _ => []
  }

  /** The whole sequenced messages of a run, in the order of their completion. */
  function SeqWholes(s: RecvState, ps: seq<RaknetPacket>): seq<Numbered> {
    if ps == [] then []
    else
      var init := ps[..|ps| - 1];
      SeqWholes(s, init) + if Run(s, init).Done? then SeqWhole(Run(s, init).state, ps[|ps| - 1]) else []
  }

  lemma DeliverFilters(t: RecvState, rel: ReliabilityData, data: Bytes)
    requires OrderedQueue(t.queue)
    ensures var d := Deliver(t, rel, data);
            && OrderedQueue(d.state.queue)
            && Filter(t.unrelSeqIndex, IfSequenced(rel, data)) ==
               Filtered(d.state.unrelSeqIndex, SequencedOnly(d.out))
  {
    hide Drain, NotOld, IsDisconnect, Wrap32, Filter, SequencedOnly;
    var d := Deliver(t, rel, data);
    FiltersNothing(t.unrelSeqIndex);
    match rel
    case ReliableOrderedData(ord) =>
      DrainOrdered(Wrap32(ord + 1), t.queue);
      OrderedAreNotSequenced(d.out);
    case UnreliableSequencedData(ord) =>
      FilterAppend(t.unrelSeqIndex, [], Numbered(ord, data));
      OneSequenced(Packet(UnreliableSequenced, data));
      assert [] + [Numbered(ord, data)] == [Numbered(ord, data)];
      assert [] + [Packet(UnreliableSequenced, data)] == [Packet(UnreliableSequenced, data)];
    case _ =>
      OneSequenced(Packet(rel.Kind(), data));
  }

  /** One packet, whatever it is. */
  lemma StepFilters(t: RecvState, p: RaknetPacket)
    requires OrderedQueue(t.queue) && Step(t, p).Done?
    ensures var d := Step(t, p);
            && OrderedQueue(d.state.queue)
            && Filter(t.unrelSeqIndex, SeqWhole(t, p)) == Filtered(d.state.unrelSeqIndex, SequencedOnly(d.out))
  {
    hide Deliver, Assemble, IfSequenced, Filter, SequencedOnly;
    FiltersNothing(t.unrelSeqIndex);
    match Assemble(t.splits, p)
    case Held(_) =>
    case Whole(splits, data) =>
      DeliverFilters(t.(splits := splits), p.relData, data);
  }

  /** Filtering more, one message or none. */
  lemma FilterOneMore(expected: u32, ms: seq<Numbered>, more: seq<Numbered>)
    requires |more| <= 1
    ensures var f := Filter(expected, ms);
            var g := Filter(f.expected, more);
            Filter(expected, ms + more) == Filtered(g.expected, f.kept + g.kept)
  {
    hide *;
    var f := Filter(expected, ms);
    FiltersNothing(f.expected);
    if more == [] {
      assert ms + more == ms && f.kept + [] == f.kept;
    } else {
      assert more == [more[0]] == [] + [more[0]];
      FilterAppend(expected, ms, more[0]);
      FilterAppend(f.expected, [], more[0]);
    }
  }

  /** RakNet's receiver filters sequenced messages, on every run, mixed with anything else. */
  lemma {:induction false} RunFilters(s: RecvState, ps: seq<RaknetPacket>)
    requires OrderedQueue(s.queue) && Run(s, ps).Done?
    ensures var o := Run(s, ps);
            && OrderedQueue(o.state.queue)
            && Filter(s.unrelSeqIndex, SeqWholes(s, ps)) == Filtered(o.state.unrelSeqIndex, SequencedOnly(o.out))
  {
    hide Step, SeqWhole, Filter, SequencedOnly, OrderedQueue;
    if ps == [] {
      FiltersNothing(s.unrelSeqIndex);
    } else {
      var init, last := ps[..|ps| - 1], ps[|ps| - 1];
      RunFilters(s, init);
      var t := Run(s, init).state;
      StepFilters(t, last);
      SequencedAppends(Run(s, init).out, Step(t, last).out);
      FilterOneMore(s.unrelSeqIndex, SeqWholes(s, init), SeqWhole(t, last));
    }
  }

  lemma FiltersNothing(expected: u32)
    ensures Filter(expected, []) == Filtered(expected, []) && SequencedOnly([]) == []
  {
  }

  /** The sequenced datagrams of a list, in order. */
  function UdpSequenced(ds: seq<Bytes>): seq<Numbered>
    requires AreDatagrams(ds)
  {
    if ds == [] then [] else UdpSequenced(ds[..|ds| - 1]) + UdpSequencedOne(ds[|ds| - 1])
  }

  function UdpSequencedOne(d: Bytes): (ms: seq<Numbered>)
    requires IsDatagram(d)
    ensures |ms| <= 1
  {
    if d[0] == 0 then [] else [Numbered(SeqNumOf(d), d[5..])]
  }

  lemma UdpStepFilters(seqNum: u32, d: Bytes)
    requires IsDatagram(d)
    ensures var r := UdpStep(seqNum, d);
            Filter(seqNum, UdpSequencedOne(d)) == Filtered(r.seqNum, SequencedOnly(r.packets))
  {
    hide NotOld, Wrap32, SeqNumOf;
    var r := UdpStep(seqNum, d);
    if |r.packets| == 1 {
      OneSequenced(r.packets[0]);
    }
    if d[0] != 0 {
      FilterAppend(seqNum, [], UdpSequencedOne(d)[0]);
    }
  }

  /** So does the UDP receiver. */
  lemma {:induction false} UdpRunFilters(seqNum: u32, ds: seq<Bytes>)
    requires AreDatagrams(ds)
    ensures var r := UdpRun(seqNum, ds);
            Filter(seqNum, UdpSequenced(ds)) == Filtered(r.seqNum, SequencedOnly(r.packets))
  {
    hide UdpStep, UdpSequencedOne, Filter, SequencedOnly, IsDatagram;
    if ds == [] {
      FiltersNothing(seqNum);
    } else {
      var init, last := ds[..|ds| - 1], ds[|ds| - 1];
      UdpRunFilters(seqNum, init);
      var before := UdpRun(seqNum, init);
      UdpStepFilters(before.seqNum, last);
      SequencedAppends(before.packets, UdpStep(before.seqNum, last).packets);
      FilterOneMore(seqNum, UdpSequenced(init), UdpSequencedOne(last));
    }
  }

  /** On the same sequenced messages, among any other traffic, both receivers let through the same ones. */
  lemma FiltersAgree(r: RecvState, ps: seq<RaknetPacket>, ds: seq<Bytes>)
    requires OrderedQueue(r.queue) && Run(r, ps).Done? && AreDatagrams(ds)
    requires SeqWholes(r, ps) == UdpSequenced(ds)
    ensures var raknet, udp := Run(r, ps), UdpRun(r.unrelSeqIndex, ds);
            && SequencedOnly(raknet.out) == SequencedOnly(udp.packets)
            && raknet.state.unrelSeqIndex == udp.seqNum
  {
    RunFilters(r, ps);
    UdpRunFilters(r.unrelSeqIndex, ds);
  }

  /**
   * Sequenced delivery on every run of RakNet's receiver: of the sequenced messages that become whole,
   * read with unbounded numbers inside the window, exactly those are delivered that are later than
   * all before them, so the numbers delivered strictly increase.
   */
  lemma SequencedIncrease(r: RecvState, expected: int, ps: seq<RaknetPacket>, items: seq<Item>)
    requires OrderedQueue(r.queue) && Run(r, ps).Done? && r.unrelSeqIndex == Wrap32(expected)
    requires SeqWholes(r, ps) == Wrapped(items) && InWindowRun(expected, items)
    ensures var newest := Newest(expected, items);
            && SequencedOnly(Run(r, ps).out) == AsPackets(newest)
            && (forall i, j :: 0 <= i < j < |newest| ==> newest[i].n < newest[j].n)
            && Run(r, ps).state.unrelSeqIndex == Wrap32(Expected(expected, items))
  {
    hide Wrap32, Run, Filter, SequencedOnly;
    RunFilters(r, ps);
    FilterIsNewest(expected, items);
    NewestIncrease(expected, items);
  }
}
