/** The receiver (src/raknet/recv.rs): reassembly of fragments, the ordering queue, and the windows. */
module Receiving {
  import opened Words
  import opened Packets
  import RangeLists

  type Parts = seq<Option<Bytes>>

  datatype RecvState = RecvState(
    unrelSeqIndex: u32,
    relOrdIndex: u32,
    queue: map<u32, Packet>,
    splits: map<u16, Parts>)

  const INITIAL: RecvState := RecvState(0, 0, map[], map[])

  predicate Complete(parts: Parts) {
    forall i :: 0 <= i < |parts| ==> parts[i].Some?
  }

  function Assembled(parts: Parts): Bytes {
    if parts == [] then []
    else Assembled(parts[..|parts| - 1]) + if parts[|parts| - 1].Some? then parts[|parts| - 1].value else []
  }

  function EmptyParts(n: nat): (parts: Parts)
    ensures |parts| == n && forall i :: 0 <= i < n ==> parts[i] == None
  {
    seq(n, _ => None)
  }

  /** What reassembly makes of one packet: an assertion fails, a fragment is kept, or a message is whole. */
  datatype Assembly =
    | Fault
    | Held(splits: map<u16, Parts>)
    | Whole(splits: map<u16, Parts>, data: Bytes)

  function Assemble(splits: map<u16, Parts>, p: RaknetPacket): Assembly {
    match p.splitPacketInfo
    case None => Whole(splits, p.data)
    case Some(info) =>
      if info.count <= 1 then Fault
      else if info.id !in splits then
        if info.index >= info.count then Fault
        else Held(splits[info.id := EmptyParts(info.count)[info.index := Some(p.data)]])
      else if info.index >= |splits[info.id]| then Fault
      else
        var parts := splits[info.id][info.index := Some(p.data)];
        if Complete(parts) then Whole(splits - {info.id}, Assembled(parts))
        else Held(splits[info.id := parts])
  }

  /** Releases the run of queued packets that starts at `index`. */
  function Drain(index: u32, queue: map<u32, Packet>): (r: (u32, map<u32, Packet>, seq<Packet>))
    ensures r.1.Keys <= queue.Keys
    decreases |queue|
  {
    if index !in queue then (index, queue, [])
    else
      RemoveShrinks(queue, index);
      var r := Drain(Wrap32(index + 1), queue - {index});
      (r.0, r.1, [queue[index]] + r.2)
  }

  lemma RemoveShrinks<K, V>(m: map<K, V>, k: K)
    requires k in m
    ensures |m - {k}| < |m|
  {
    assert (m - {k}).Keys == m.Keys - {k};
    assert |m - {k}| == |(m - {k}).Keys| && |m| == |m.Keys|;
  }

  lemma DrainNext(index: u32, queue: map<u32, Packet>)
    ensures index !in queue ==> Drain(index, queue) == (index, queue, [])
    ensures index in queue ==>
              var r := Drain(Wrap32(index + 1), queue - {index});
              Drain(index, queue) == (r.0, r.1, [queue[index]] + r.2)
  {
  }

  /** A step's outcome: a failed assertion, or the new state, what is delivered, and whether it disconnects. */
  datatype Outcome = Panic | Done(state: RecvState, out: seq<Packet>, disconnect: bool)

  /** What happens to a whole message. */
  function Deliver(s: RecvState, rel: ReliabilityData, data: Bytes): (o: Outcome)
    ensures o.Done?
  {
    if IsDisconnect(data) then Done(s, [], true)
    else match rel
      case UnreliableSequencedData(ord) =>
        if NotOld(ord, s.unrelSeqIndex)
        then Done(s.(unrelSeqIndex := Wrap32(ord + 1)), [Packet(UnreliableSequenced, data)], false)
        else Done(s, [], false)
      case ReliableOrderedData(ord) =>
        var p := Packet(ReliableOrdered, data);
        if ord == s.relOrdIndex then
          var (index, queue, released) := Drain(Wrap32(ord + 1), s.queue);
          Done(s.(relOrdIndex := index, queue := queue), [p] + released, false)
        else if NotOld(ord, s.relOrdIndex) then Done(s.(queue := s.queue[ord := p]), [], false)
        else Done(s, [], false)
      case _ => Done(s, [Packet(rel.Kind(), data)], false)
  }

  function Step(s: RecvState, p: RaknetPacket): Outcome {
    match Assemble(s.splits, p)
    case Fault => Panic
    case Held(splits) => Done(s.(splits := splits), [], false)
    case Whole(splits, data) => Deliver(s.(splits := splits), p.relData, data)
  }

  /** A whole run: states thread through, deliveries concatenate, a disconnect stays. */
  function Run(s: RecvState, ps: seq<RaknetPacket>): Outcome {
    if ps == [] then Done(s, [], false)
    else
      match Run(s, ps[..|ps| - 1])
      case Panic => Panic
      case Done(t, out, closed) =>
        match Step(t, ps[|ps| - 1])
        case Panic => Panic
        case Done(t', more, disconnect) => Done(t', out + more, closed || disconnect)
  }

  /** The message numbers the receiver puts on its acknowledgement list. */
  function AckNumbers(ps: seq<RaknetPacket>): seq<u32> {
    if ps == [] then []
    else
      var before, last := AckNumbers(ps[..|ps| - 1]), ps[|ps| - 1];
      if last.NeedsAck() then before + [last.messageNumber] else before
  }

  lemma AckNumbersNext(ps: seq<RaknetPacket>, n: nat)
    requires n < |ps|
    ensures AckNumbers(ps[..n + 1]) ==
            if ps[n].NeedsAck() then AckNumbers(ps[..n]) + [ps[n].messageNumber] else AckNumbers(ps[..n])
  {
    assert ps[..n + 1][..n] == ps[..n];
  }

  /** The numbers of the Reliable and the ReliableOrdered packets, in the order of arrival, and no others. */
  lemma AckNumbersAre(ps: seq<RaknetPacket>, p: RaknetPacket)
    ensures AckNumbers([]) == []
    ensures AckNumbers(ps + [p]) ==
            match p.relData
            case ReliableData => AckNumbers(ps) + [p.messageNumber]
            case ReliableOrderedData(_) => AckNumbers(ps) + [p.messageNumber]
            case UnreliableData => AckNumbers(ps)
            case UnreliableSequencedData(_) => AckNumbers(ps)
  {
    assert (ps + [p])[..|ps|] == ps;
  }

  ghost predicate IsReliableWith(p: RaknetPacket, x: u32) {
    p.messageNumber == x && (p.relData == ReliableData || p.relData.ReliableOrderedData?)
  }

  lemma {:induction false} AcknowledgedIff(ps: seq<RaknetPacket>, x: u32)
    ensures x in AckNumbers(ps) <==> exists i :: 0 <= i < |ps| && IsReliableWith(ps[i], x)
  {
    if ps != [] {
      var n := |ps| - 1;
      AcknowledgedIff(ps[..n], x);
      AckNumbersAre(ps[..n], ps[n]);
      assert ps == ps[..n] + [ps[n]];
      assert x in AckNumbers(ps) <==> x in AckNumbers(ps[..n]) || IsReliableWith(ps[n], x);
      hide AckNumbers, IsReliableWith;
      if i :| 0 <= i < n && IsReliableWith(ps[..n][i], x) {
        assert IsReliableWith(ps[i], x);
      }
      if i :| 0 <= i < |ps| && IsReliableWith(ps[i], x) {
        assert i < n ==> IsReliableWith(ps[..n][i], x);
      }
    }
  }

  lemma RunNext(s: RecvState, ps: seq<RaknetPacket>, n: nat)
    requires n < |ps|
    ensures Run(s, ps[..n + 1]) ==
            match Run(s, ps[..n])
            case Panic => Panic
            case Done(t, out, closed) =>
              match Step(t, ps[n])
              case Panic => Panic
              case Done(t', more, disconnect) => Done(t', out + more, closed || disconnect)
  {
    assert ps[..n + 1][..n] == ps[..n];
  }

  /** How packets are batched into calls makes no difference. */
  lemma {:induction false} RunConcat(s: RecvState, a: seq<RaknetPacket>, b: seq<RaknetPacket>)
    ensures Run(s, a + b) ==
            match Run(s, a)
            case Panic => Panic
            case Done(t, out, closed) =>
              match Run(t, b)
              case Panic => Panic
              case Done(t', more, disconnect) => Done(t', out + more, closed || disconnect)
  {
    hide Step;
    if b == [] {
      assert a + b == a;
      assert Run(s, a).Done? ==> Run(s, a).out + [] == Run(s, a).out;
    } else {
      var init := b[..|b| - 1];
      RunConcat(s, a, init);
      assert (a + b)[..|a + b| - 1] == a + init;
    }
  }

  /** Consecutive calls, each on one batch of packets. */
  function RunBatches(s: RecvState, batches: seq<seq<RaknetPacket>>): Outcome {
    if batches == [] then Done(s, [], false)
    else
      match RunBatches(s, batches[..|batches| - 1])
      case Panic => Panic
      case Done(t, out, closed) =>
        match Run(t, batches[|batches| - 1])
        case Panic => Panic
        case Done(t', more, disconnect) => Done(t', out + more, closed || disconnect)
  }

  lemma {:induction false} BatchingIsIrrelevant(s: RecvState, batches: seq<seq<RaknetPacket>>)
    ensures RunBatches(s, batches) == Run(s, Flatten(batches))
  {
    if batches != [] {
      var init, last := batches[..|batches| - 1], batches[|batches| - 1];
      BatchingIsIrrelevant(s, init);
      RunConcat(s, Flatten(init), last);
    }
  }

  lemma {:induction false} RunPrefix(s: RecvState, ps: seq<RaknetPacket>, n: nat)
    requires n <= |ps| && Run(s, ps).Done?
    ensures Run(s, ps[..n]).Done?
  {
    hide Step;
    if n == |ps| {
      assert ps[..n] == ps;
    } else {
      RunPrefix(s, ps[..|ps| - 1], n);
      assert ps[..|ps| - 1][..n] == ps[..n];
    }
  }

  // The ordering queue

  ghost predicate NoneBehind(index: u32, queue: map<u32, Packet>) {
    forall k :: k in queue ==> WrappingSub(k, index) < HALF_RANGE
  }

  ghost predicate AllAhead(index: u32, queue: map<u32, Packet>) {
    forall k :: k in queue ==> 1 <= WrappingSub(k, index) < HALF_RANGE
  }

  /** Every queued index is ahead of the expected one, by 1 to 2^31-2: the expected one is not queued. */
  ghost predicate QueueAhead(s: RecvState) {
    AllAhead(s.relOrdIndex, s.queue)
  }

  lemma StepCloser(k: u32, index: u32)
    ensures k != index ==>
              && 1 <= WrappingSub(k, index)
              && WrappingSub(k, Wrap32(index + 1)) == WrappingSub(k, index) - 1
    ensures k == index ==> WrappingSub(k, index) == 0
  {
  }

  /** Once the expected index is out of the queue, moving on by one leaves nothing behind. */
  lemma NextNoneBehind(index: u32, queue: map<u32, Packet>)
    requires AllAhead(index, queue) || (NoneBehind(index, queue) && index !in queue)
    ensures AllAhead(index, queue) && NoneBehind(Wrap32(index + 1), queue)
  {
    forall k | k in queue
      ensures 1 <= WrappingSub(k, index) && WrappingSub(k, Wrap32(index + 1)) < HALF_RANGE
    {
      StepCloser(k, index);
    }
  }

  lemma {:induction false} DrainAhead(index: u32, queue: map<u32, Packet>)
    requires NoneBehind(index, queue)
    ensures AllAhead(Drain(index, queue).0, Drain(index, queue).1)
    decreases |queue|
  {
    hide WrappingSub, Wrap32;
    if index in queue {
      RemoveShrinks(queue, index);
      NextNoneBehind(index, queue - {index});
      DrainAhead(Wrap32(index + 1), queue - {index});
    } else {
      NextNoneBehind(index, queue);
    }
  }

  lemma DeliverQueueAhead(s: RecvState, rel: ReliabilityData, data: Bytes)
    requires QueueAhead(s)
    ensures QueueAhead(Deliver(s, rel, data).state)
  {
    hide Drain, Wrap32;
    if rel.ReliableOrderedData? {
      StepCloser(rel.ord, s.relOrdIndex);
      hide WrappingSub;
      if rel.ord == s.relOrdIndex {
        NextNoneBehind(rel.ord, s.queue);
        DrainAhead(Wrap32(rel.ord + 1), s.queue);
      }
    }
  }

  lemma SplitsApart(s: RecvState, splits: map<u16, Parts>)
    ensures QueueAhead(s.(splits := splits)) == QueueAhead(s)
  {
  }

  /** Kept on every run from the initial state, whatever indices and fragments arrive. */
  lemma {:induction false} QueueAheadOnEveryRun(s: RecvState, ps: seq<RaknetPacket>)
    requires QueueAhead(s)
    ensures Run(s, ps).Done? ==> QueueAhead(Run(s, ps).state)
  {
    hide Deliver, Assemble, QueueAhead;
    if ps != [] {
      var init, last := ps[..|ps| - 1], ps[|ps| - 1];
      QueueAheadOnEveryRun(s, init);
      if Run(s, ps).Done? {
        var t := Run(s, init).state;
        match Assemble(t.splits, last)
        case Whole(splits, data) =>
          SplitsApart(t, splits);
          DeliverQueueAhead(t.(splits := splits), last.relData, data);
        case Held(splits) =>
          SplitsApart(t, splits);
      }
    }
  }

  // Disconnecting

  /** Step `n` of a run completes a message (unsplit or reassembled) that starts with byte 19. */
  ghost predicate CompletesDisconnect(s: RecvState, ps: seq<RaknetPacket>, n: nat)
    requires n < |ps|
  {
    && Run(s, ps[..n]).Done?
    && var a := Assemble(Run(s, ps[..n]).state.splits, ps[n]);
    a.Whole? && |a.data| >= 1 && a.data[0] == 19
  }

  /** The connection closes if and only if some whole message was one; a fragment never decides it. */
  lemma {:induction false} ClosesOnWholeMessages(s: RecvState, ps: seq<RaknetPacket>)
    requires Run(s, ps).Done?
    ensures Run(s, ps).disconnect <==> exists n :: 0 <= n < |ps| && CompletesDisconnect(s, ps, n)
  {
    if ps != [] {
      var init := ps[..|ps| - 1];
      ClosesOnWholeMessages(s, init);
      forall n | 0 <= n < |init|
        ensures CompletesDisconnect(s, init, n) <==> CompletesDisconnect(s, ps, n)
      {
        assert init[..n] == ps[..n] && init[n] == ps[n];
      }
      LastDisconnects(s, ps);
      hide CompletesDisconnect;
      assert Run(s, ps).disconnect <==> Run(s, init).disconnect || CompletesDisconnect(s, ps, |init|);
    }
  }

  lemma LastDisconnects(s: RecvState, ps: seq<RaknetPacket>)
    requires ps != [] && Run(s, ps).Done?
    ensures var init := ps[..|ps| - 1];
            Run(s, ps).disconnect <==> Run(s, init).disconnect || CompletesDisconnect(s, ps, |ps| - 1)
  {
    var init := ps[..|ps| - 1];
    assert ps[..|ps| - 1] == init;
    WholeDecides(Run(s, init).state, ps[|ps| - 1]);
    hide Assemble, IsDisconnect, Drain, Deliver;
  }

  /** A packet closes the connection exactly if it makes a message whole that starts with byte 19. */
  lemma WholeDecides(s: RecvState, p: RaknetPacket)
    ensures var o, a := Step(s, p), Assemble(s.splits, p);
            o.Done? ==>
              && (o.disconnect <==> a.Whole? && |a.data| >= 1 && a.data[0] == 19)
              && (o.disconnect ==> o == Done(s.(splits := a.splits), [], true))
  {
    hide Assemble, Drain, NotOld;
  }

  // What one packet does, case by case

  /** The receiver panics on a fragment count below two and on an index past the entry, and on nothing else. */
  lemma PanicsIff(s: RecvState, p: RaknetPacket)
    ensures Step(s, p).Panic? <==>
              && p.splitPacketInfo.Some?
              && var info := p.splitPacketInfo.value;
              || info.count < 2
              || info.index >= if info.id in s.splits then |s.splits[info.id]| else info.count
  {
    hide Deliver, Complete, Assembled;
  }

  /** An unsplit notification closes the connection, delivers nothing and changes nothing else. */
  lemma UnsplitDecides(s: RecvState, p: RaknetPacket)
    requires p.splitPacketInfo == None
    ensures Step(s, p).Done?
    ensures Step(s, p).disconnect <==> |p.data| >= 1 && p.data[0] == 19
    ensures Step(s, p).disconnect ==> Step(s, p) == Done(s, [], true)
  {
    WholeDecides(s, p);
    hide Deliver;
  }

  /**
   * An unsplit ordered message is delivered, together with what waited for it, if its index is the
   * expected one; kept, in place of an earlier one with its index, if it is up to 2^31-2 ahead; and
   * dropped otherwise.
   */
  lemma OrderedStep(s: RecvState, p: RaknetPacket, ord: u32)
    requires p.splitPacketInfo == None && p.relData == ReliableOrderedData(ord)
    requires !(|p.data| >= 1 && p.data[0] == 19)
    ensures var o, d := Step(s, p), (ord - s.relOrdIndex) % 0x1_0000_0000;
            && o.Done? && !o.disconnect
            && (d == 0 ==> o.out != [] && o.out[0] == Packet(ReliableOrdered, p.data))
            && (d == 0 && Wrap32(ord + 1) !in s.queue ==>
                  o.out == [Packet(ReliableOrdered, p.data)] && o.state == s.(relOrdIndex := Wrap32(ord + 1)))
            && (1 <= d <= 0x7fff_fffe ==>
                  o.out == [] && o.state == s.(queue := s.queue[ord := Packet(ReliableOrdered, p.data)]))
            && (d >= 0x7fff_ffff ==> o.out == [] && o.state == s)
  {
    DisconnectIff(p.data);
    DrainNext(Wrap32(ord + 1), s.queue);
    hide Drain, IsDisconnect;
  }

  class ReceivePart {
    var unrelSeqIndex: u32
    var relOrdIndex: u32
    var outOfOrderPackets: map<u32, Packet>
    var splitPacketQueue: map<u16, Parts>

    constructor ()
      ensures State() == INITIAL
    {
      unrelSeqIndex, relOrdIndex, outOfOrderPackets, splitPacketQueue := 0, 0, map[], map[];
    }

    function State(): RecvState
      reads this
    {
      RecvState(unrelSeqIndex, relOrdIndex, outOfOrderPackets, splitPacketQueue)
    }

    /** Each packet: acknowledge, reassemble, look for a disconnect, then deliver by reliability. */
    method ProcessIncomingPackets(rakPackets: seq<RaknetPacket>, acks: RangeLists.RangeList, closed: bool)
      returns (packets: seq<Packet>, closed': bool)
      requires Run(State(), rakPackets).Done?
      modifies this, acks
      ensures Done(State(), packets, closed') ==
              var o := Run(old(State()), rakPackets); o.(disconnect := closed || o.disconnect)
      ensures acks.ranges == RangeLists.InsertedAll(old(acks.ranges), AckNumbers(rakPackets))
    {
      ghost var s, acked := State(), acks.ranges;
      packets, closed' := [], closed;
      for n := 0 to |rakPackets|
        invariant Run(s, rakPackets[..n]).Done?
        invariant Done(State(), packets, closed') ==
                  var o := Run(s, rakPackets[..n]); o.(disconnect := closed || o.disconnect)
        invariant acks.ranges == RangeLists.InsertedAll(acked, AckNumbers(rakPackets[..n]))
      {
        RunPrefix(s, rakPackets, n + 1);
        RunNext(s, rakPackets, n);
        AckNumbersNext(rakPackets, n);
        hide Step, Run, RangeLists.InsertedAll, RangeLists.Inserted, AckNumbers;
        var packet := rakPackets[n];
        if packet.NeedsAck() {
          RangeLists.InsertedAllAppend(acked, AckNumbers(rakPackets[..n]), packet.messageNumber);
          acks.Insert(packet.messageNumber);
        }
        var out, disconnect := ProcessOne(packet);
        packets := packets + out;
        closed' := closed' || disconnect;
      }
      assert rakPackets[..|rakPackets|] == rakPackets;
    }

    method ProcessOne(packet: RaknetPacket) returns (out: seq<Packet>, disconnect: bool)
      requires Step(State(), packet).Done?
      modifies this
      ensures Done(State(), out, disconnect) == Step(old(State()), packet)
    {
      hide Drain, Assembled, Complete;
      var data := packet.data;
      if packet.splitPacketInfo.Some? {
        var split := packet.splitPacketInfo.value;
        assert split.count > 1;
        if split.id !in splitPacketQueue {
          var parts := EmptyParts(split.count);
          parts := parts[split.index := Some(packet.data)];
          splitPacketQueue := splitPacketQueue[split.id := parts];
          return [], false;
        }
        var parts := splitPacketQueue[split.id][split.index := Some(packet.data)];
        var ready, assembled := TryAssemble(parts);
        if !ready {
          splitPacketQueue := splitPacketQueue[split.id := parts];
          return [], false;
        }
        data := assembled;
        splitPacketQueue := splitPacketQueue - {split.id};
      }
      if IsDisconnect(data) {
        return [], true;
      }
      disconnect := false;
      match packet.relData
      case UnreliableSequencedData(ord) =>
        if NotOld(ord, unrelSeqIndex) {
          unrelSeqIndex := Wrap32(ord + 1);
          out := [Packet(UnreliableSequenced, data)];
        } else {
          out := [];
        }
      case ReliableOrderedData(ord) =>
        var p := Packet(ReliableOrdered, data);
        if ord == relOrdIndex {
          relOrdIndex := Wrap32(relOrdIndex + 1);
          var released := DrainQueue();
          out := [p] + released;
        } else if NotOld(ord, relOrdIndex) {
          outOfOrderPackets := outOfOrderPackets[ord := p];
          out := [];
        } else {
          out := [];
        }
      case _ =>
        out := [Packet(packet.relData.Kind(), data)];
    }

    /** The two loops over the parts: are they all there, and what do they add up to. */
    static method TryAssemble(parts: Parts) returns (ready: bool, assembled: Bytes)
      ensures ready == Complete(parts)
      ensures ready ==> assembled == Assembled(parts)
    {
      assembled := [];
      for i := 0 to |parts|
        invariant forall j :: 0 <= j < i ==> parts[j].Some?
      {
        if parts[i].None? {
          return false, [];
        }
      }
      for i := 0 to |parts|
        invariant assembled == Assembled(parts[..i])
      {
        assert parts[..i + 1][..i] == parts[..i];
        if parts[i].Some? {
          assembled := assembled + parts[i].value;
        }
      }
      assert parts[..|parts|] == parts;
      ready := true;
    }

    /** Releases queued packets; the queue shrinks with each, so the loop ends. */
    method DrainQueue() returns (released: seq<Packet>)
      modifies this`relOrdIndex, this`outOfOrderPackets
      ensures (relOrdIndex, outOfOrderPackets, released) == Drain(old(relOrdIndex), old(outOfOrderPackets))
    {
      released := [];
      ghost var goal := Drain(relOrdIndex, outOfOrderPackets);
      hide Drain;
      while relOrdIndex in outOfOrderPackets
        invariant var r := Drain(relOrdIndex, outOfOrderPackets);
                  r.0 == goal.0 && r.1 == goal.1 && released + r.2 == goal.2
        decreases |outOfOrderPackets|
      {
        DrainNext(relOrdIndex, outOfOrderPackets);
        RemoveShrinks(outOfOrderPackets, relOrdIndex);
        released := released + [outOfOrderPackets[relOrdIndex]];
        outOfOrderPackets := outOfOrderPackets - {relOrdIndex};
        relOrdIndex := Wrap32(relOrdIndex + 1);
      }
      DrainNext(relOrdIndex, outOfOrderPackets);
      assert released + [] == released;
    }
  }
}
