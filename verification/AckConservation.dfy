/** Acknowledgements over whole runs of a connection. */
module AckConservation {
  import opened Words
  import opened Packets
  import opened Bits
  import opened PacketCodec
  import opened RangeLists
  import Receiving
  import opened Datagrams
  import opened Connections

  /** The numbers of the reliable packets a datagram brings. */
  function NumbersIn(data: Bytes): seq<u32> {
    match Contents(data)
    case Parsed(ps) => Receiving.AckNumbers(ps)
    case ParsePanic => []
  }

  /** The numbers received since the last send that was not refused. */
  function Unacknowledged(c: ConnState, events: seq<Event>): seq<u32> {
    if events == [] then []
    else
      var before := Unacknowledged(c, events[..|events| - 1]);
      match events[|events| - 1]
      case Receives(data) => before + NumbersIn(data)
      case Sends(_) =>
        var now := AfterAll(c, events[..|events| - 1]);
        if now.Some? && now.value.closed then before else []
  }

  /** The numbers of all reliable packets of a run. */
  function Received(events: seq<Event>): seq<u32> {
    if events == [] then []
    else
      var before, last := Received(events[..|events| - 1]), events[|events| - 1];
      if last.Receives? then before + NumbersIn(last.data) else before
  }

  lemma {:induction false} UnacknowledgedWasReceived(c: ConnState, events: seq<Event>)
    ensures forall x :: x in Unacknowledged(c, events) ==> x in Received(events)
  {
    hide NumbersIn, AfterAll;
    if events != [] {
      UnacknowledgedWasReceived(c, events[..|events| - 1]);
    }
  }

  lemma {:induction false} InsertedAllConcat(rs: seq<Range>, a: seq<u32>, b: seq<u32>)
    ensures InsertedAll(rs, a + b) == InsertedAll(InsertedAll(rs, a), b)
  {
    hide Inserted;
    if b == [] {
      assert a + b == a;
    } else {
      InsertedAllConcat(rs, a, b[..|b| - 1]);
      assert (a + b)[..|a + b| - 1] == a + b[..|b| - 1];
    }
  }

  /** What receiving a datagram adds to the list. */
  lemma HandleAcks(c: ConnState, data: Bytes)
    ensures Handle(c, data).Handled? ==> Handle(c, data).state.acks == InsertedAll(c.acks, NumbersIn(data))
    ensures Handle(c, data) == Failed ==> NumbersIn(data) == []
  {
    hide ReadHeader, ParsePackets, BytesBits, Inserted, Receiving.Run;
  }

  /** The list is always what inserting the unacknowledged numbers in order makes. */
  lemma {:induction false} ListHoldsUnacknowledged(c: ConnState, events: seq<Event>)
    requires c.acks == [] && AfterAll(c, events).Some?
    ensures AfterAll(c, events).value.acks == InsertedAll([], Unacknowledged(c, events))
  {
    if events != [] {
      var init, last := events[..|events| - 1], events[|events| - 1];
      ListHoldsUnacknowledged(c, init);
      var c', before := AfterAll(c, init).value, Unacknowledged(c, init);
      match last {
        case Receives(data) =>
          HandleAcks(c', data);
          InsertedAllConcat([], before, NumbersIn(data));
          hide Handle, InsertedAll, NumbersIn;
          assert before + [] == before;
        case Sends(packets) =>
          hide DatagramsOf, Outgoing;
      }
    }
  }

  /**
   * Acknowledgements are conserved. On every run of a connection, when packets are sent next: every
   * number acknowledged was that of a reliable packet received since the previous send; acknowledged
   * are exactly those not dropped by the range list after their last arrival, the latest among them,
   * none more often than it was received, so each that was not repeated exactly once; all this in the
   * first datagram, in increasing order if none was repeated. No other datagram acknowledges anything,
   * and nothing is left pending.
   */
  lemma AcksAreConserved(c: ConnState, events: seq<Event>, packets: seq<Packet>)
    requires c.acks == [] && AfterAll(c, events).Some?
    requires !AfterAll(c, events).value.closed && |AfterAll(c, events).value.acks| < 0x1_0000
    ensures var sent := Send(AfterAll(c, events).value, packets);
            var nums := Unacknowledged(c, events);
            && sent.Sent? && sent.state.acks == []
            && (forall i :: 0 < i < |sent.datagrams| ==> AcksIn(sent.datagrams[i]) == [])
            && (sent.datagrams != [] ==> AcknowledgedOnce(nums, AcksIn(sent.datagrams[0])))
            && (nums != [] ==> sent.datagrams != [])
  {
    var now, nums := AfterAll(c, events).value, Unacknowledged(c, events);
    ListHoldsUnacknowledged(c, events);
    ListAcknowledges(nums);
    if nums != [] {
      EveryRun(nums);
    }
    hide AfterAll, Unacknowledged, InsertedAll, Enumerated, AcknowledgedOnce;
    FirstAcksOnly(Outgoing(now.send, packets), now.acks, now.remoteSystemTime);
  }

  /**
   * `written` acknowledges `nums`: nothing more often than it was received, exactly the numbers that no
   * later number dropped, the latest for sure; each number that was not repeated exactly once unless it
   * was dropped, and all of them if none was repeated.
   */
  ghost predicate AcknowledgedOnce(nums: seq<u32>, written: seq<u32>) {
    && multiset(written) <= multiset(nums)
    && (forall x :: x in written <==> Kept(nums, x))
    && (forall x: u32 :: multiset(nums)[x] == 1 ==> multiset(written)[x] == if Kept(nums, x) then 1 else 0)
    && (nums != [] ==> nums[|nums| - 1] in written)
    && (Distinct(nums) ==> multiset(written) == multiset(nums) && StrictlyIncreasing(written))
  }

  /** Some occurrence of `x` is dropped by no later number. */
  ghost predicate Kept(nums: seq<u32>, x: u32) {
    exists n :: 0 <= n < |nums| && Survives(nums, x, n)
  }

  lemma WrittenAreKept(nums: seq<u32>, x: u32)
    ensures x in Enumerated(InsertedAll([], nums)) <==> Kept(nums, x)
  {
    MembersAfterRun(nums, x);
    EnumeratedIsSorted(InsertedAll([], nums));
    hide Inserted, InsertedAll, Enumerated, Survives, Has, Disjoint, StrictlyIncreasing;
  }

  lemma LatestIsWritten(nums: seq<u32>)
    requires nums != []
    ensures InsertedAll([], nums) != [] && nums[|nums| - 1] in Enumerated(InsertedAll([], nums))
  {
    EveryRun(nums);
    EnumeratedIsSorted(InsertedAll([], nums));
    hide Inserted, InsertedAll, Enumerated;
  }

  lemma OnceIfKept(nums: seq<u32>, written: seq<u32>, x: u32)
    requires multiset(written) <= multiset(nums) && multiset(nums)[x] == 1
    requires x in written <==> Kept(nums, x)
    ensures multiset(written)[x] == if Kept(nums, x) then 1 else 0
  {
    hide Kept;
    assert x in written <==> multiset(written)[x] > 0;
  }

  lemma ListAcknowledges(nums: seq<u32>)
    ensures AcknowledgedOnce(nums, Enumerated(InsertedAll([], nums)))
    ensures nums != [] ==> InsertedAll([], nums) != []
  {
    hide Inserted, InsertedAll, Enumerated, Kept, Distinct, StrictlyIncreasing, Disjoint;
    var written: seq<u32> := Enumerated(InsertedAll([], nums));
    NoMoreThanInserted(nums);
    forall x: u32
      ensures x in written <==> Kept(nums, x)
      ensures multiset(nums)[x] == 1 ==> multiset(written)[x] == if Kept(nums, x) then 1 else 0
    {
      WrittenAreKept(nums, x);
      if multiset(nums)[x] == 1 {
        OnceIfKept(nums, written, x);
      }
    }
    if nums != [] {
      LatestIsWritten(nums);
    }
    if Distinct(nums) {
      DuplicateFreeRun(nums);
    }
  }

  lemma FirstAcksOnly(ps: seq<RaknetPacket>, acks: seq<Range>, time: u32)
    requires AllEncodable(ps) && |acks| < 0x1_0000
    ensures var ds := DatagramsOf(ps, acks, time);
            && (ds != [] ==> AcksIn(ds[0]) == Enumerated(acks))
            && (forall i :: 0 < i < |ds| ==> AcksIn(ds[i]) == [])
            && (acks != [] ==> ds != [])
  {
    assert Enumerated([]) == [];
    hide AcksIn, PacketDatagram, Enumerated, AckBits, ToBytes;
    if ps == [] {
      AckDatagramAcks(acks, time);
    } else {
      DatagramAcks(ps[0], acks, time);
      forall i | 0 < i < |ps| ensures AcksIn(PacketDatagram(ps[i], [], time)) == [] {
        DatagramAcks(ps[i], [], time);
      }
    }
  }
}
