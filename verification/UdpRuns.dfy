/** The datagrams of the UDP protocol over runs with loss, repeats and reordering. */
module UdpRuns {
  import opened Words
  import opened Packets
  import opened Bits
  import opened TcpUdp
  import opened Unordered
  import opened Sequenced
  import opened Numbering

  lemma {:induction false} SequencedCounts(ps: seq<Packet>)
    ensures SequencedCount(ps) == |SequencedOnly(UnreliablePackets(ps))|
  {
    if ps != [] {
      var init, last := ps[..|ps| - 1], ps[|ps| - 1];
      SequencedCounts(init);
      SequencedAppends(UnreliablePackets(init), [last]);
      OneSequenced(last);
    }
  }

  lemma {:induction false} UnreliableAre(ps: seq<Packet>)
    ensures forall k :: 0 <= k < |UnreliablePackets(ps)| ==> IsUnreliable(UnreliablePackets(ps)[k])
  {
    if ps != [] {
      UnreliableAre(ps[..|ps| - 1]);
    }
  }

  /** The datagram of the `k`th unreliable packet, under its wrapped number. */
  lemma {:induction false} DatagramAt(seqNum: u32, ps: seq<Packet>, k: nat)
    requires k < |UnreliablePackets(ps)|
    ensures var sent := UnreliablePackets(ps);
            && |Datagrams(seqNum, ps)| == |sent|
            && Datagrams(seqNum, ps)[k] == UdpBytes(Wrap32(seqNum + SeqOrd(sent, k)), sent[k])
  {
    hide UdpBytes, Wrap32, SequencedOnly, IsUnreliable;
    var init, last := ps[..|ps| - 1], ps[|ps| - 1];
    var before := UnreliablePackets(init);
    SameLength(seqNum, init);
    if k < |before| {
      DatagramAt(seqNum, init, k);
      assert UnreliablePackets(ps)[..k] == before[..k];
    } else {
      SequencedCounts(init);
      assert UnreliablePackets(ps)[..k] == before;
    }
  }

  lemma {:induction false} SameLength(seqNum: u32, ps: seq<Packet>)
    ensures |Datagrams(seqNum, ps)| == |UnreliablePackets(ps)|
  {
    hide UdpBytes, Wrap32, IsUnreliable;
    if ps != [] {
      SameLength(seqNum, ps[..|ps| - 1]);
    }
  }

  /** A run: any of the datagrams, by position, as often and in whatever order they arrive. */
  function Arriving(seqNum: u32, ps: seq<Packet>, js: seq<nat>): (ds: seq<Bytes>)
    requires Listed(UnreliablePackets(ps), js)
    ensures |ds| == |js|
  {
    SameLength(seqNum, ps);
    seq(|js|, i requires 0 <= i < |js| => Datagrams(seqNum, ps)[js[i]])
  }

  lemma ReadBack(n: u32, p: Packet)
    requires IsUnreliable(p)
    ensures IsDatagram(UdpBytes(n, p))
    ensures UdpSequencedOne(UdpBytes(n, p)) ==
            if p.reliability.UnreliableSequenced? then [Numbered(n, p.data)] else []
    ensures forall seqNum :: Plain(UdpStep(seqNum, UdpBytes(n, p)).packets) == if IsPlain(p) then [p] else []
  {
    var d := UdpBytes(n, p);
    if p.reliability.UnreliableSequenced? {
      SeqNumRoundTrip(n, p);
      hide UdpBytes, SeqNumOf, NotOld;
      assert [Packet(UnreliableSequenced, p.data)][..0] == [];
    } else {
      assert d[1..] == p.data && [p][..0] == [];
    }
  }

  lemma ArrivingNext(seqNum: u32, ps: seq<Packet>, js: seq<nat>, j: nat)
    requires Listed(UnreliablePackets(ps), js) && j < |UnreliablePackets(ps)|
    ensures Listed(UnreliablePackets(ps), js + [j])
    ensures var sent := UnreliablePackets(ps);
            Arriving(seqNum, ps, js + [j]) ==
            Arriving(seqNum, ps, js) + [UdpBytes(Wrap32(seqNum + SeqOrd(sent, j)), sent[j])]
  {
    DatagramAt(seqNum, ps, j);
    hide UnreliablePackets, Datagrams, UdpBytes, Wrap32, SeqOrd;
  }

  lemma UdpSequencedNext(ds: seq<Bytes>, d: Bytes)
    requires AreDatagrams(ds) && IsDatagram(d)
    ensures AreDatagrams(ds + [d])
    ensures UdpSequenced(ds + [d]) == UdpSequenced(ds) + UdpSequencedOne(d)
  {
    hide IsDatagram, UdpSequencedOne;
    assert (ds + [d])[..|ds|] == ds;
  }

  /** What the receiver's filter is given, and what comes out without regard to order. */
  ghost predicate Received(seqNum: u32, ps: seq<Packet>, js: seq<nat>)
    requires Listed(UnreliablePackets(ps), js)
  {
    var sent, ds := UnreliablePackets(ps), Arriving(seqNum, ps, js);
    && AreDatagrams(ds)
    && UdpSequenced(ds) == Wrapped(ItemsOf(seqNum, sent, SequencedOf(sent, js)))
    && Plain(UdpRun(seqNum, ds).packets) == Plain(Messages(sent, js))
  }

  lemma ReceivedIs(seqNum: u32, ps: seq<Packet>, js: seq<nat>)
    requires Listed(UnreliablePackets(ps), js)
    ensures var sent, ds := UnreliablePackets(ps), Arriving(seqNum, ps, js);
            Received(seqNum, ps, js) <==>
              && AreDatagrams(ds)
              && UdpSequenced(ds) == Wrapped(ItemsOf(seqNum, sent, SequencedOf(sent, js)))
              && Plain(UdpRun(seqNum, ds).packets) == Plain(Messages(sent, js))
  {
  }

  lemma ReceivedNext(seqNum: u32, ps: seq<Packet>, js: seq<nat>, j: nat)
    requires Listed(UnreliablePackets(ps), js) && j < |UnreliablePackets(ps)| && Received(seqNum, ps, js)
    ensures Listed(UnreliablePackets(ps), js + [j]) && Received(seqNum, ps, js + [j])
  {
    hide *;
    var sent, ds := UnreliablePackets(ps), Arriving(seqNum, ps, js);
    var n := Wrap32(seqNum + SeqOrd(sent, j));
    var d := UdpBytes(n, sent[j]);
    UnreliableAre(ps);
    ReceivedIs(seqNum, ps, js);
    ArrivingNext(seqNum, ps, js, j);
    ReceivedIs(seqNum, ps, js + [j]);
    ReadBack(n, sent[j]);
    UdpSequencedNext(ds, d);
    UdpRunAppend(seqNum, ds, d);
    PlainAppends(UdpRun(seqNum, ds).packets, UdpStep(UdpRun(seqNum, ds).seqNum, d).packets);
    MessagesAppend(sent, js, j);
    PlainAppends(Messages(sent, js), [sent[j]]);
    PlainOne(sent[j]);
    SequencedOfNext(sent, js, j);
    SequencedIff(sent, j);
    if IsSequenced(sent, j) {
      OneWrapped(seqNum, sent, j);
      WrappedItemsConcat(seqNum, sent, SequencedOf(sent, js), [j]);
    } else {
      assert SequencedOf(sent, js) + [] == SequencedOf(sent, js);
    }
  }

  lemma SequencedIff(sent: seq<Packet>, j: nat)
    ensures IsSequenced(sent, j) <==> j < |sent| && sent[j].reliability.UnreliableSequenced?
  {
  }

  lemma NothingReceived(seqNum: u32, ps: seq<Packet>)
    ensures Received(seqNum, ps, [])
  {
  }

  lemma {:induction false} RunIsReceived(seqNum: u32, ps: seq<Packet>, js: seq<nat>)
    requires Listed(UnreliablePackets(ps), js)
    ensures Received(seqNum, ps, js)
  {
    if js == [] {
      NothingReceived(seqNum, ps);
    } else {
      hide Received, UnreliablePackets;
      var k := |js| - 1;
      RunIsReceived(seqNum, ps, js[..k]);
      ReceivedNext(seqNum, ps, js[..k], js[k]);
      assert js[..k] + [js[k]] == js;
    }
  }

  /**
   * Whichever of the sent datagrams arrive, lost, repeated and reordered: of the sequenced packets
   * exactly those are delivered that are later than all before them, and every Unreliable packet as
   * often as it arrives, each in the order of arrival.
   */
  lemma UdpDelivery(seqNum: u32, ps: seq<Packet>, js: seq<nat>)
    requires Listed(UnreliablePackets(ps), js)
    requires var sent := UnreliablePackets(ps);
             InWindowRun(seqNum, ItemsOf(seqNum, sent, SequencedOf(sent, js)))
    ensures AreDatagrams(Arriving(seqNum, ps, js))
    ensures var sent, out := UnreliablePackets(ps), UdpRun(seqNum, Arriving(seqNum, ps, js)).packets;
            && Plain(out) == Plain(Messages(sent, js))
            && AllSequenced(sent, Records(SequencedOf(sent, js)))
            && SequencedOnly(out) == Messages(sent, Records(SequencedOf(sent, js)))
  {
    hide *;
    AlreadyWrapped(seqNum);
    var sent, ds := UnreliablePackets(ps), Arriving(seqNum, ps, js);
    var ks := SequencedOf(sent, js);
    RunIsReceived(seqNum, ps, js);
    ReceivedIs(seqNum, ps, js);
    UdpRunFilters(seqNum, ds);
    FilterIsNewest(seqNum, ItemsOf(seqNum, sent, ks));
    NewestAreRecords(seqNum, sent, ks);
  }

  lemma AlreadyWrapped(n: u32)
    ensures Wrap32(n) == n
  {
  }

  /** With at most 2^31-1 sequenced packets no run leaves the window. */
  lemma FewDatagramsInWindow(seqNum: u32, ps: seq<Packet>, js: seq<nat>)
    requires |SequencedOnly(UnreliablePackets(ps))| <= 0x7fff_ffff
    ensures var sent := UnreliablePackets(ps);
            InWindowRun(seqNum, ItemsOf(seqNum, sent, SequencedOf(sent, js)))
  {
    hide UnreliablePackets, SequencedOnly, SequencedOf, ItemsOf;
    FewInWindow(seqNum, UnreliablePackets(ps), SequencedOf(UnreliablePackets(ps), js));
  }
}
