/**
 * Whole connections talking: everything one connection produces over a run of sends and receives,
 * received by another.
 */
module Conversations {
  import opened Words
  import opened Packets
  import opened PacketCodec
  import opened Sending
  import opened Receiving
  import opened Datagrams
  import opened Connections
  import opened Sessions
  import opened Delivery
  import opened Unordered
  import opened Permutations
  import opened Fitting
  import opened WireRuns
  import opened EndToEnd

  /** The messages of the sends that were not refused. */
  function Said(c: ConnState, events: seq<Event>): seq<Packet> {
    if events == [] then []
    else
      var init := events[..|events| - 1];
      Said(c, init) + SaidNow(AfterAll(c, init), events[|events| - 1])
  }

  function SaidNow(now: Option<ConnState>, e: Event): seq<Packet> {
    if e.Sends? && now.Some? && !now.value.closed then e.packets else []
  }

  /** All datagrams of a run. */
  function Produced(c: ConnState, events: seq<Event>): seq<Bytes> {
    if events == [] then []
    else
      var init := events[..|events| - 1];
      Produced(c, init) + ProducedNow(AfterAll(c, init), events[|events| - 1])
  }

  function ProducedNow(now: Option<ConnState>, e: Event): seq<Bytes> {
    if e.Sends? && now.Some? && Send(now.value, e.packets).Sent? then Send(now.value, e.packets).datagrams else []
  }

  /** Every send has at most 65535 ranges to acknowledge, as many as the count on the wire can tell. */
  ghost predicate Talks(c: ConnState, events: seq<Event>) {
    events != [] ==>
      var init := events[..|events| - 1];
      Talks(c, init) && TalksNow(AfterAll(c, init), events[|events| - 1])
  }

  predicate TalksNow(now: Option<ConnState>, e: Event) {
    e.Sends? && now.Some? ==> |now.value.acks| < 0x1_0000
  }

  /** What a connection has sent is the wire form of what it has said. */
  ghost predicate Spoken(c: ConnState, now: ConnState, said: seq<Packet>, ds: seq<Bytes>) {
    && now.send == StateAfter(c.send, said)
    && Carry(ds, Flatten(Wire(c.send, said)))
  }

  lemma {:induction false} CarryConcat(ds: seq<Bytes>, ps: seq<RaknetPacket>, es: seq<Bytes>, qs: seq<RaknetPacket>)
    requires Carry(ds, ps) && Carry(es, qs)
    ensures Carry(ds + es, ps + qs)
  {
    hide Carries, AcksAlone;
    if es == [] {
      assert ds + es == ds && ps + qs == ps;
    } else {
      var init, last := es[..|es| - 1], es[|es| - 1];
      assert (ds + es)[..|ds + es| - 1] == ds + init;
      if AcksAlone(last) && Carry(init, qs) {
        CarryConcat(ds, ps, init, qs);
      } else {
        CarryConcat(ds, ps, init, qs[..|qs| - 1]);
        assert (ps + qs)[..|ps + qs| - 1] == ps + qs[..|qs| - 1];
      }
    }
  }

  lemma SpokenNext(c: ConnState, now: ConnState, said: seq<Packet>, ds: seq<Bytes>, packets: seq<Packet>)
    requires Spoken(c, now, said, ds) && !now.closed && |now.acks| < 0x1_0000
    ensures var sent := Send(now, packets);
            sent.Sent? && Spoken(c, sent.state, said + packets, ds + sent.datagrams)
  {
    CallsConcatenate(c.send, said, packets);
    FlattenConcat(Wire(c.send, said), Wire(now.send, packets));
    hide Wire, StateAfter, Flatten, DatagramsOf, Carry, AllEncodable;
    DatagramsCarry(Outgoing(now.send, packets), now.acks, now.remoteSystemTime);
    CarryConcat(ds, Flatten(Wire(c.send, said)), Send(now, packets).datagrams, Outgoing(now.send, packets));
  }

  lemma ReceivingKeepsSender(now: ConnState, e: Event)
    requires e.Receives? || now.closed
    ensures After(now, e).Some? ==> After(now, e).value.send == now.send
  {
    hide ReadHeader, ParsePackets, Run, Outgoing, DatagramsOf;
  }

  /** Over any run, the datagrams produced carry the packets of a single session, in order. */
  lemma {:induction false} RunIsSession(c: ConnState, events: seq<Event>)
    requires AfterAll(c, events).Some? && Talks(c, events)
    ensures Spoken(c, AfterAll(c, events).value, Said(c, events), Produced(c, events))
  {
    hide Spoken, After, Send;
    if events == [] {
      NothingSpoken(c);
    } else {
      var init, e := events[..|events| - 1], events[|events| - 1];
      RunIsSession(c, init);
      var now := AfterAll(c, init).value;
      RunIsSessionNext(c, now, Said(c, init), Produced(c, init), e);
    }
  }

  lemma NothingSpoken(c: ConnState)
    ensures Spoken(c, c, [], [])
  {
  }

  lemma RunIsSessionNext(c: ConnState, now: ConnState, said: seq<Packet>, ds: seq<Bytes>, e: Event)
    requires Spoken(c, now, said, ds) && TalksNow(Some(now), e) && After(now, e).Some?
    ensures Spoken(c, After(now, e).value, said + SaidNow(Some(now), e), ds + ProducedNow(Some(now), e))
  {
    if e.Sends? && !now.closed {
      hide Spoken, Outgoing, DatagramsOf;
      SpokenNext(c, now, said, ds, e.packets);
    } else {
      ReceivingKeepsSender(now, e);
      hide After, StateAfter, Wire, Carry;
      assert said + [] == said && ds + [] == ds;
    }
  }

  // What the other side makes of it

  lemma OneCarries(d: Bytes)
    ensures AcksAlone(d) ==> Carry([d], [])
    ensures forall p :: Carries(d, p) ==> Carry([d], [p])
  {
    hide Carries, AcksAlone;
    var one: seq<Bytes> := [d];
    assert one[..0] == [];
    forall p | Carries(d, p) ensures Carry([d], [p]) {
      assert [p][..0] == [];
      assert Carry([], []);
    }
  }

  /** What one of the datagrams carries, cut out. */
  lemma {:induction false} CarryCut(es: seq<Bytes>, qs: seq<RaknetPacket>, k: nat) returns (m: nat, n: nat)
    requires Carry(es, qs) && k < |es|
    ensures m <= n <= |qs| && n <= m + 1
    ensures Carry([es[k]], qs[m..n]) && Carry(es[..k] + es[k + 1..], qs[..m] + qs[n..])
  {
    hide Carries, AcksAlone;
    var init, last := es[..|es| - 1], es[|es| - 1];
    if k == |es| - 1 {
      n := |qs|;
      m := if AcksAlone(last) && Carry(init, qs) then n else n - 1;
      assert es[..k] + es[k + 1..] == init && qs[..m] + qs[n..] == qs[..m] && qs[..n] == qs;
      assert qs[m..n] == if m == n then [] else [qs[m]];
      OneCarries(last);
    } else {
      var rest := es[..k] + es[k + 1..];
      assert rest[..|rest| - 1] == init[..k] + init[k + 1..] && rest[|rest| - 1] == last;
      if AcksAlone(last) && Carry(init, qs) {
        m, n := CarryCut(init, qs, k);
      } else {
        m, n := CarryCut(init, qs[..|qs| - 1], k);
        LastStays(qs, m, n);
      }
    }
  }

  lemma LastStays<T>(qs: seq<T>, m: nat, n: nat)
    requires m <= n < |qs|
    ensures var init, rest := qs[..|qs| - 1], qs[..m] + qs[n..];
            && init[m..n] == qs[m..n]
            && rest != [] && rest[..|rest| - 1] == init[..m] + init[n..] && rest[|rest| - 1] == qs[|qs| - 1]
  {
  }

  /** Rearranged datagrams carry rearranged packets. */
  lemma {:induction false} CarryRearranged(ds: seq<Bytes>, es: seq<Bytes>, qs: seq<RaknetPacket>)
    returns (ps: seq<RaknetPacket>)
    requires Carry(es, qs) && multiset(ds) == multiset(es)
    ensures Carry(ds, ps) && multiset(ps) == multiset(qs)
    decreases |ds|
  {
    hide Carry;
    if ds == [] {
      assert |multiset(es)| == 0;
      ps := [];
      CarryNothing(qs);
    } else {
      var l := |ds| - 1;
      assert ds == ds[..l] + [ds[l]];
      assert ds[l] in multiset(es);
      var k :| 0 <= k < |es| && es[k] == ds[l];
      RemoveOne(ds[..l], ds[l], es, k);
      var m, n := CarryCut(es, qs, k);
      var init := CarryRearranged(ds[..l], es[..k] + es[k + 1..], qs[..m] + qs[n..]);
      ps := init + qs[m..n];
      CarryConcat(ds[..l], init, [ds[l]], qs[m..n]);
      PutBack(init, qs, m, n);
    }
  }

  lemma CarryNothing(qs: seq<RaknetPacket>)
    ensures Carry([], qs) <==> qs == []
  {
  }

  lemma PutBack<T>(init: seq<T>, qs: seq<T>, m: nat, n: nat)
    requires m <= n <= |qs| && multiset(init) == multiset(qs[..m] + qs[n..])
    ensures multiset(init + qs[m..n]) == multiset(qs)
  {
    assert qs == qs[..m] + qs[m..n] + qs[n..];
  }

  /**
   * Any-order delivery for a whole conversation. Whatever a connection said over a run of sends and
   * receives, its datagrams, rearranged at will, deliver to a peer in step all ordered messages in
   * order and every message that needs no order exactly once, and leave the peer holding nothing.
   */
  lemma AllIsHeard(a: ConnState, events: seq<Event>, b: ConnState, ds: seq<Bytes>)
    requires AfterAll(a, events).Some? && Talks(a, events) && multiset(ds) == multiset(Produced(a, events))
    requires var s := Session(a.send, Said(a, events));
             s.Valid() && InStep(s, b.recv) && Small(s) && NoDisconnects(s.sent) && AllFit(s.sent)
    ensures var h, said := Collect(b, ds), Said(a, events);
            && h.Handled? && h.state.closed == b.closed
            && Ordered(h.packets) == Ordered(said)
            && multiset(Plain(h.packets)) == multiset(Plain(said))
            && h.state.recv.queue == map[] && h.state.recv.splits == map[]
  {
    RunIsSession(a, events);
    hide Collect, Wire, Ordered, Plain, Carry, AllFit, NoDisconnects, Small, InStep, Said, Produced, AfterAll, Flatten;
    var ps := CarryRearranged(ds, Produced(a, events), Flatten(Wire(a.send, Said(a, events))));
    AnyPermutationOverDatagrams(Session(a.send, Said(a, events)), b, ps, ds);
  }

  lemma Located(s: Session, k: nat) returns (a: Arrival)
    requires k < |Flatten(Wire(s.start, s.sent))|
    ensures s.Has(a) && s.At(a) == Flatten(Wire(s.start, s.sent))[k]
  {
    hide Wire, Flatten, Session.Frags, Locate, Offset;
    a := Locate(Wire(s.start, s.sent), k);
    WireIsFrags(s, a.msg);
  }

  /** A datagram of the session carries one of its fragments, or acknowledgements alone. */
  lemma ArrivalCarried(s: Session, d: Bytes, es: seq<Bytes>) returns (arrivals: seq<Arrival>)
    requires Carry(es, Flatten(Wire(s.start, s.sent))) && d in es
    ensures s.HasAll(arrivals) && Carry([d], s.PacketsOf(arrivals))
  {
    hide Wire, Flatten, Carry, Session.Frags;
    var w := Flatten(Wire(s.start, s.sent));
    var k :| 0 <= k < |es| && es[k] == d;
    var m, n := CarryCut(es, w, k);
    if m == n {
      arrivals := [];
      assert s.PacketsOf(arrivals) == w[m..n];
    } else {
      var a := Located(s, m);
      arrivals := [a];
      assert s.PacketsOf(arrivals) == w[m..n];
    }
  }

  /** Datagrams taken from those produced, with any loss, repeats and order, carry fragments of the session. */
  lemma {:induction false} ArrivalsCarried(s: Session, ds: seq<Bytes>, es: seq<Bytes>) returns (arrivals: seq<Arrival>)
    requires Carry(es, Flatten(Wire(s.start, s.sent))) && forall i :: 0 <= i < |ds| ==> ds[i] in es
    ensures s.HasAll(arrivals) && Carry(ds, s.PacketsOf(arrivals))
  {
    hide Wire, Session.Frags, Flatten, Carry;
    if ds == [] {
      arrivals := [];
      CarryNothing(s.PacketsOf([]));
    } else {
      var n := |ds| - 1;
      var init := ArrivalsCarried(s, ds[..n], es);
      var last := ArrivalCarried(s, ds[n], es);
      arrivals := init + last;
      assert s.PacketsOf(arrivals) == s.PacketsOf(init) + s.PacketsOf(last);
      CarryConcat(ds[..n], s.PacketsOf(init), [ds[n]], s.PacketsOf(last));
      assert ds == ds[..n] + [ds[n]];
    }
  }

  /**
   * Prefix safety for a whole conversation: from any of its datagrams, lost, repeated and reordered
   * at will, a peer in step delivers a prefix of the ordered messages.
   */
  lemma PrefixIsHeard(a: ConnState, events: seq<Event>, b: ConnState, ds: seq<Bytes>)
    requires AfterAll(a, events).Some? && Talks(a, events)
    requires forall i :: 0 <= i < |ds| ==> ds[i] in Produced(a, events)
    requires var s := Session(a.send, Said(a, events));
             s.Valid() && InStep(s, b.recv) && Small(s) && AllInRange(s.sent)
    ensures Collect(b, ds).Handled? && Ordered(Collect(b, ds).packets) <= Ordered(Said(a, events))
  {
    RunIsSession(a, events);
    hide Collect, Wire, Ordered, Carry, AllInRange, Small, InStep, Said, Produced, AfterAll, Flatten, WireOrderly;
    var s := Session(a.send, Said(a, events));
    var arrivals := ArrivalsCarried(s, ds, Produced(a, events));
    SmallIsWireOrderly(s, b.recv, arrivals);
    PrefixSafetyOverDatagrams(s, b, arrivals, ds);
  }
}
