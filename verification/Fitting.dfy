/**
 * Which messages survive the wire: split headers come off it garbled, and a message of more than
 * 255 chunks never completes.
 */
module Fitting {
  import opened Words
  import opened Packets
  import opened Compressed
  import opened PacketCodec
  import opened Sending
  import opened Receiving
  import opened Delivery
  import opened InOrder

  /** The messages whose split headers survive the wire: at most 255 chunks. */
  predicate FitsWire(p: Packet) {
    NeedsSplit(p) ==> |p.data| <= 255 * ChunkSize(p.reliability)
  }

  lemma FitsWireIff(p: Packet)
    ensures FitsWire(p) <==> |Pieces(p)| <= 255
  {
    if NeedsSplit(p) {
      ChunkCount(p.data, ChunkSize(p.reliability), 255);
    } else {
      PiecesAreExact(p);
    }
  }

  lemma FragmentsExact(s: SendState, p: Packet, i: nat)
    requires Addressable(p) && FitsWire(p) && i < |Fragments(s, p)|
    ensures GarbledPacket(Fragments(s, p)[i]) == Fragments(s, p)[i]
  {
    FitsWireIff(p);
    FragmentsAreExact(s, p, i);
    hide Pieces, NeedsSplit, FitsWire;
    GarbledIff(Fragments(s, p)[i]);
  }

  // Messages that fit

  ghost predicate AllFit(packets: seq<Packet>) {
    forall j :: 0 <= j < |packets| ==> FitsWire(packets[j])
  }

  ghost predicate AllAddressable(packets: seq<Packet>) {
    forall j :: 0 <= j < |packets| ==> Addressable(packets[j])
  }

  lemma GarbledConcat(a: seq<RaknetPacket>, b: seq<RaknetPacket>)
    ensures AllGarbled(a + b) == AllGarbled(a) + AllGarbled(b)
  {
    hide GarbledPacket;
  }

  /** The fragments of a message that fits come off the wire unchanged. */
  lemma GarbledIsExact(s: SendState, p: Packet)
    requires Addressable(p) && FitsWire(p)
    ensures AllGarbled(Fragments(s, p)) == Fragments(s, p)
  {
    var fs := Fragments(s, p);
    forall i | 0 <= i < |fs| ensures GarbledPacket(fs[i]) == fs[i] {
      FragmentsExact(s, p, i);
    }
    hide GarbledPacket, Fragments;
    assert AllGarbled(fs) == fs;
  }

  lemma {:induction false} FittingWireIsExact(s: SendState, packets: seq<Packet>)
    requires AllAddressable(packets) && AllFit(packets)
    ensures AllGarbled(Flatten(Wire(s, packets))) == Flatten(Wire(s, packets))
  {
    if packets != [] {
      var init, last := packets[..|packets| - 1], packets[|packets| - 1];
      FittingWireIsExact(s, init);
      var fs := Fragments(StateAfter(s, init), last);
      GarbledIsExact(StateAfter(s, init), last);
      hide GarbledPacket, Fragments, StateAfter;
      GarbledConcat(Flatten(Wire(s, init)), fs);
      assert Wire(s, packets)[..|init|] == Wire(s, init);
    }
  }

  // Messages that do not fit

  /** Every reassembly entry waits for a part number 256. */
  ghost predicate AllStuck(splits: map<u16, Parts>) {
    forall id :: id in splits ==> |splits[id]| > 256 && splits[id][256].None?
  }

  /** Nothing came out, and what is in reassembly is stuck. */
  ghost predicate Swallowed(t: RecvState, o: Outcome) {
    o.Done? ==> o.out == [] && o.state.queue == t.queue && AllStuck(o.state.splits)
  }

  /** No split header comes off the wire with index 256, so an entry of more than 256 parts stays stuck. */
  lemma StepSwallows(t: RecvState, q: RaknetPacket)
    requires AllStuck(t.splits) && q.splitPacketInfo.Some?
    requires q.splitPacketInfo.value.id in t.splits || q.splitPacketInfo.value.count >= 256
    ensures var o := Step(t, GarbledPacket(q));
            Swallowed(t, o) && (o.Done? ==> t.splits.Keys <= o.state.splits.Keys)
  {
    var p := GarbledPacket(q);
    var info := p.splitPacketInfo.value;
    assert info.id == q.splitPacketInfo.value.id && info.index != 256;
    assert q.splitPacketInfo.value.count >= 256 ==> info.count > 256;
    hide Assembled, GarbledPacket;
    if info.id in t.splits && info.index < |t.splits[info.id]| {
      var parts := t.splits[info.id][info.index := Some(p.data)];
      assert parts[256].None?;
      assert !Complete(parts);
    }
  }

  /** What a fragment of such a message tells reassembly. */
  lemma SwallowedFragment(s: SendState, p: Packet, k: nat)
    requires Addressable(p) && NeedsSplit(p) && k < |Fragments(s, p)|
    ensures var info := Fragments(s, p)[k].splitPacketInfo;
            && info.Some? && info.value.id == s.splitPacketIndex
            && (!FitsWire(p) ==> info.value.count >= 256)
  {
    FragmentsAreExact(s, p, k);
    FitsWireIff(p);
    hide Fragments, FitsWire, NeedsSplit, Pieces;
  }

  ghost predicate SwallowedAll(t: RecvState, o: Outcome) {
    Swallowed(t, o) && (o.Done? ==> t.splits.Keys <= o.state.splits.Keys)
  }

  /** Garbled fragments of a message that does not fit, or whose split id is stuck. */
  lemma {:induction false} RunSwallows(t: RecvState, s: SendState, p: Packet, k: nat)
    requires AllStuck(t.splits) && Addressable(p) && NeedsSplit(p) && k <= |Fragments(s, p)|
    requires !FitsWire(p) || s.splitPacketIndex in t.splits
    ensures SwallowedAll(t, Run(t, AllGarbled(Fragments(s, p)[..k])))
  {
    hide *;
    var fs := Fragments(s, p);
    if k == 0 {
      SwallowsNothing(t);
      assert AllGarbled(fs[..0]) == [];
    } else {
      RunSwallows(t, s, p, k - 1);
      SwallowedFragment(s, p, k - 1);
      var gs := AllGarbled(fs[..k]);
      assert gs[..k - 1] == AllGarbled(fs[..k - 1]) && gs[..k] == gs && gs[k - 1] == GarbledPacket(fs[k - 1]);
      RunNext(t, gs, k - 1);
      SwallowsOneMore(t, Run(t, gs[..k - 1]), fs[k - 1]);
    }
  }

  lemma SwallowsNothing(t: RecvState)
    requires AllStuck(t.splits)
    ensures SwallowedAll(t, Run(t, []))
  {
  }

  lemma SwallowsOneMore(t: RecvState, o: Outcome, q: RaknetPacket)
    requires SwallowedAll(t, o) && q.splitPacketInfo.Some?
    requires q.splitPacketInfo.value.id in t.splits || q.splitPacketInfo.value.count >= 256
    ensures o.Done? ==>
              var d := Step(o.state, GarbledPacket(q));
              d.Done? ==> SwallowedAll(t, Done(d.state, o.out + d.out, o.disconnect || d.disconnect))
    ensures SwallowedAll(t, Panic)
  {
    hide Step, GarbledPacket, AllStuck;
    if o.Done? {
      StepSwallows(o.state, q);
    }
  }

  /** Draining moves packets from the queue to the output. */
  lemma {:induction false} DrainCounts(index: u32, queue: map<u32, Packet>)
    ensures |Drain(index, queue).2| + |Drain(index, queue).1| == |queue|
    decreases |queue|
  {
    hide Wrap32;
    if index in queue {
      RemoveShrinks(queue, index);
      RemoveOneKey(queue, index);
      DrainCounts(Wrap32(index + 1), queue - {index});
    }
  }

  lemma RemoveOneKey<K, V>(m: map<K, V>, k: K)
    requires k in m
    ensures |m - {k}| == |m| - 1
  {
    assert (m - {k}).Keys == m.Keys - {k};
    assert |m - {k}| == |(m - {k}).Keys| && |m| == |m.Keys|;
  }

  lemma AddOneKey<K, V>(m: map<K, V>, k: K, v: V)
    ensures |m[k := v]| <= |m| + 1
  {
    assert m[k := v].Keys == m.Keys + {k};
    assert |m[k := v]| == |m[k := v].Keys| && |m| == |m.Keys|;
  }

  /** A whole message adds at most one packet to those delivered or queued. */
  lemma DeliverGrows(t: RecvState, rel: ReliabilityData, data: Bytes)
    ensures var d := Deliver(t, rel, data);
            && d.state.splits == t.splits
            && |d.out| + |d.state.queue| <= |t.queue| + if IsDisconnect(data) then 0 else 1
  {
    hide Drain, NotOld, IsDisconnect, Wrap32;
    if rel.ReliableOrderedData? {
      DrainCounts(Wrap32(rel.ord + 1), t.queue);
      AddOneKey(t.queue, rel.ord, Packet(ReliableOrdered, data));
    }
  }

  /** The messages of a list that can come out of the receiver. */
  function Arriving(packets: seq<Packet>): nat {
    if packets == [] then 0
    else
      var last := packets[|packets| - 1];
      Arriving(packets[..|packets| - 1]) + if FitsWire(last) && !IsDisconnect(last.data) then 1 else 0
  }

  lemma {:induction false} ArrivingIff(packets: seq<Packet>)
    ensures Arriving(packets) <= |packets|
    ensures Arriving(packets) == |packets| <==> NoDisconnects(packets) && AllFit(packets)
  {
    hide FitsWire, IsDisconnect;
    if packets != [] {
      var init, last := packets[..|packets| - 1], packets[|packets| - 1];
      ArrivingIff(init);
      assert packets == init + [last];
    }
  }

  /** One message off the wire adds at most one packet, and none if it cannot arrive. */
  lemma MessageGrows(s: SendState, p: Packet, t: RecvState)
    requires AllStuck(t.splits) && Addressable(p)
    ensures var o := Run(t, AllGarbled(Fragments(s, p)));
            o.Done? ==>
              && AllStuck(o.state.splits)
              && |o.out| + |o.state.queue| <= |t.queue| + if FitsWire(p) && !IsDisconnect(p.data) then 1 else 0
  {
    var fs := Fragments(s, p);
    hide Run, Fragments, IsDisconnect, AllStuck, Addressable;
    if NeedsSplit(p) && (!FitsWire(p) || s.splitPacketIndex in t.splits) {
      RunSwallows(t, s, p, |fs|);
      assert fs[..|fs|] == fs;
    } else {
      GarbledIsExact(s, p);
      WholeMessage(s, p, t);
      hide Deliver;
      DeliverGrows(t, RelDataOf(s, p.reliability), p.data);
    }
  }

  /** Of a list of messages off the wire, no more come out than can arrive. */
  lemma {:induction false} RunGrows(s: SendState, r: RecvState, packets: seq<Packet>)
    requires AllAddressable(packets) && AllStuck(r.splits)
    ensures var o := Run(r, AllGarbled(Flatten(Wire(s, packets))));
            o.Done? ==> AllStuck(o.state.splits) && |o.out| + |o.state.queue| <= |r.queue| + Arriving(packets)
  {
    hide Run, AllStuck, StateAfter, Fragments, GarbledPacket, FitsWire, IsDisconnect, Addressable;
    if packets == [] {
      assert AllGarbled(Flatten(Wire(s, []))) == [];
      RunNothing(r);
    } else {
      var init, last := packets[..|packets| - 1], packets[|packets| - 1];
      RunGrows(s, r, init);
      var before, fs := Flatten(Wire(s, init)), Fragments(StateAfter(s, init), last);
      assert Wire(s, packets)[..|init|] == Wire(s, init);
      GarbledConcat(before, fs);
      RunConcat(r, AllGarbled(before), AllGarbled(fs));
      var o := Run(r, AllGarbled(before));
      if o.Done? {
        MessageGrows(StateAfter(s, init), last, o.state);
      }
    }
  }

  lemma RunNothing(r: RecvState)
    ensures Run(r, []) == Done(r, [], false)
  {
  }
}
