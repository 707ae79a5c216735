/** New connections: they are in step, so the theorems hold of them from the first message on. */
module Fresh {
  import opened Words
  import Datagrams
  import Layout
  import PacketCodec
  import opened Packets
  import Sending
  import Receiving
  import opened InOrder
  import opened Sessions
  import opened Delivery
  import Latest
  import Connections
  import opened Unordered
  import opened Fitting
  import opened WireRuns
  import opened EndToEnd
  import opened Conversations

  /** All counters start at zero on both sides, and nothing is held. */
  lemma StartsAtZero()
    ensures Sending.INITIAL == Sending.SendState(0, 0, 0, 0)
    ensures Receiving.INITIAL == Receiving.RecvState(0, 0, map[], map[])
    ensures Connections.INITIAL ==
            Connections.ConnState(false, 0, [], Receiving.RecvState(0, 0, map[], map[]), Sending.SendState(0, 0, 0, 0))
  {
  }

  lemma NewAreInStep(sent: seq<Packet>)
    ensures Synchronised(Sending.INITIAL, Receiving.INITIAL)
    ensures Latest.SeqInStep(Session(Sending.INITIAL, sent), Receiving.INITIAL)
    ensures Connections.INITIAL.send == Sending.INITIAL && Connections.INITIAL.recv == Receiving.INITIAL
    ensures Connections.INITIAL.acks == [] && !Connections.INITIAL.closed
  {
  }

  /** What a new connection sends in its first call, a new peer receives unchanged if and only if all fits. */
  lemma FirstCallIff(packets: seq<Packet>)
    requires AllAddressable(packets)
    ensures var sent := Connections.Send(Connections.INITIAL, packets);
            && sent.Sent?
            && var h := Collect(Connections.INITIAL, sent.datagrams);
            (h.Handled? && h.packets == packets <==> NoDisconnects(packets) && AllFit(packets))
  {
    NewAreInStep([]);
    hide *;
    EndToEndIff(Connections.INITIAL, Connections.INITIAL, packets);
  }

  /** All that two new connections say to each other from the start, in any order of the datagrams. */
  lemma AllIsHeardFromTheStart(events: seq<Connections.Event>, ds: seq<Bytes>)
    requires Connections.AfterAll(Connections.INITIAL, events).Some? && Talks(Connections.INITIAL, events)
    requires multiset(ds) == multiset(Produced(Connections.INITIAL, events))
    requires var s := Session(Sending.INITIAL, Said(Connections.INITIAL, events));
             s.Valid() && Small(s) && NoDisconnects(s.sent) && AllFit(s.sent)
    ensures var h, said := Collect(Connections.INITIAL, ds), Said(Connections.INITIAL, events);
            && h.Handled? && !h.state.closed
            && Ordered(h.packets) == Ordered(said)
            && multiset(Plain(h.packets)) == multiset(Plain(said))
            && h.state.recv.queue == map[] && h.state.recv.splits == map[]
  {
    var s := Session(Sending.INITIAL, Said(Connections.INITIAL, events));
    NewAreInStep(s.sent);
    SeqInStepIsInStep(s, Receiving.INITIAL);
    hide *;
    AllIsHeard(Connections.INITIAL, events, Connections.INITIAL, ds);
  }

  lemma SeqInStepIsInStep(s: Session, r: Receiving.RecvState)
    requires Latest.SeqInStep(s, r)
    ensures InStep(s, r)
  {
  }

  /** And with any of them lost and repeated. */
  lemma PrefixIsHeardFromTheStart(events: seq<Connections.Event>, ds: seq<Bytes>)
    requires Connections.AfterAll(Connections.INITIAL, events).Some? && Talks(Connections.INITIAL, events)
    requires forall i :: 0 <= i < |ds| ==> ds[i] in Produced(Connections.INITIAL, events)
    requires var s := Session(Sending.INITIAL, Said(Connections.INITIAL, events));
             s.Valid() && Small(s) && AllInRange(s.sent)
    ensures Collect(Connections.INITIAL, ds).Handled?
    ensures Ordered(Collect(Connections.INITIAL, ds).packets) <= Ordered(Said(Connections.INITIAL, events))
  {
    var s := Session(Sending.INITIAL, Said(Connections.INITIAL, events));
    NewAreInStep(s.sent);
    SeqInStepIsInStep(s, Receiving.INITIAL);
    hide *;
    PrefixIsHeard(Connections.INITIAL, events, Connections.INITIAL, ds);
  }

  /** A new connection that is dropped says so in seven bytes. */
  lemma FirstNotice()
    ensures Connections.Send(Connections.INITIAL, [DropNotice()]) ==
            Connections.Sent(
              Connections.ConnState(
                false, 0, [], Receiving.RecvState(0, 0, map[], map[]), Sending.SendState(1, 0, 0, 0)),
              [[0, 0, 0, 0, 3, 0x80, 0x13]])
  {
    var p := DropNotice();
    OnlyFragmentOf(Sending.INITIAL, p);
    assert Sending.Fragments(Sending.INITIAL, p) == [Layout.NOTICE];
    assert Sending.StateAfter(Sending.INITIAL, [p]) == Sending.SendState(1, 0, 0, 0) by {
      assert [p][..0] == [];
    }
    hide Connections.Outgoing, Datagrams.PacketDatagram, Sending.StateAfter, Sending.Fragments;
    Layout.NoticeExample(0);
  }
}
