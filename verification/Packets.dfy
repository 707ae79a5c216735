/** The packets both protocols exchange (src/bridge.rs) and RakNet's own form of them (src/raknet/packet.rs). */
module Packets {
  import opened Words

  datatype Reliability = Unreliable | UnreliableSequenced | Reliable | ReliableOrdered

  datatype Packet = Packet(reliability: Reliability, data: Bytes)

  datatype ReliabilityData =
    | UnreliableData
    | UnreliableSequencedData(ord: u32)
    | ReliableData
    | ReliableOrderedData(ord: u32)
  {
    function Kind(): Reliability {
      match this
      case UnreliableData => Unreliable
      case UnreliableSequencedData(_) => UnreliableSequenced
      case ReliableData => Reliable
      case ReliableOrderedData(_) => ReliableOrdered
    }
  }

  datatype SplitPacketInfo = SplitPacketInfo(id: u16, index: u32, count: u32)

  datatype RaknetPacket = RaknetPacket(
    messageNumber: u32,
    relData: ReliabilityData,
    splitPacketInfo: Option<SplitPacketInfo>,
    data: Bytes)
  {
    /** The receiver acknowledges these, fragments included. */
    predicate NeedsAck() {
      relData.ReliableData? || relData.ReliableOrderedData?
    }
  }

  const DISCONNECT_NOTIFICATION: byte := 19

  predicate IsDisconnect(data: Bytes) {
    |data| >= 1 && data[0] == DISCONNECT_NOTIFICATION
  }

  /** A message is a disconnect notification if and only if it starts with byte 19. */
  lemma DisconnectIff(data: Bytes)
    ensures IsDisconnect(data) <==> |data| >= 1 && data[0] == 19
  {
  }

  ghost predicate NoDisconnects(ps: seq<Packet>) {
    forall j :: 0 <= j < |ps| ==> !IsDisconnect(ps[j].data)
  }

  /** The concatenation of a list of lists. */
  function Flatten<T>(lists: seq<seq<T>>): seq<T> {
    if lists == [] then [] else Flatten(lists[..|lists| - 1]) + lists[|lists| - 1]
  }

  lemma FlattenAppend<T>(lists: seq<seq<T>>, last: seq<T>)
    ensures Flatten(lists + [last]) == Flatten(lists) + last
  {
    assert (lists + [last])[..|lists|] == lists;
  }

  lemma FlattenCons<T>(head: seq<T>, tail: seq<seq<T>>)
    ensures Flatten([head] + tail) == head + Flatten(tail)
  {
    if tail == [] {
      assert [head] + tail == [head];
    } else {
      FlattenCons(head, tail[..|tail| - 1]);
      var init, last := tail[..|tail| - 1], tail[|tail| - 1];
      assert ([head] + tail)[..|tail|] == [head] + init && ([head] + tail)[|tail|] == last;
      assert head + Flatten(init) + last == head + (Flatten(init) + last);
    }
  }

  lemma {:induction false} FlattenConcat<T>(a: seq<seq<T>>, b: seq<seq<T>>)
    ensures Flatten(a + b) == Flatten(a) + Flatten(b)
  {
    if b == [] {
      assert a + b == a;
    } else {
      FlattenConcat(a, b[..|b| - 1]);
      assert (a + b)[..|a + b| - 1] == a + b[..|b| - 1];
    }
  }
}
