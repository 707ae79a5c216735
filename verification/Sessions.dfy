/**
 * A session: a sender's starting counters and all the messages it ever sends. An arrival names one
 * fragment of one message, so a run is any list of arrivals: lost fragments are missing from it,
 * duplicated ones are repeated, and the order is free.
 */
module Sessions {
  import opened Words
  import opened Packets
  import opened Sending

  datatype Arrival = Arrival(msg: nat, frag: nat)

  /** The ReliableOrdered packets of a list, in order. */
  function Ordered(ps: seq<Packet>): seq<Packet> {
    if ps == [] then []
    else
      var before, last := Ordered(ps[..|ps| - 1]), ps[|ps| - 1];
      if last.reliability.ReliableOrdered? then before + [last] else before
  }

  function SplitCount(ps: seq<Packet>): nat {
    if ps == [] then 0
    else SplitCount(ps[..|ps| - 1]) + if NeedsSplit(ps[|ps| - 1]) then 1 else 0
  }

  datatype Session = Session(start: SendState, sent: seq<Packet>) {
    ghost predicate Valid() {
      forall j :: 0 <= j < |sent| ==> Addressable(sent[j])
    }

    function Before(j: nat): SendState
      requires j <= |sent|
    {
      StateAfter(start, sent[..j])
    }

    /** The packets message `j` became on the wire. */
    function Frags(j: nat): seq<RaknetPacket>
      requires j < |sent|
    {
      Fragments(Before(j), sent[j])
    }

    function SplitId(j: nat): u16
      requires j < |sent|
    {
      Before(j).splitPacketIndex
    }

    /** The unbounded ordering index of message `j`, if it has one. */
    function Ord(j: nat): nat
      requires j < |sent|
    {
      |Ordered(sent[..j])|
    }

    predicate Has(a: Arrival) {
      a.msg < |sent| && a.frag < |Frags(a.msg)|
    }

    /** The packet that arrives. */
    function At(a: Arrival): RaknetPacket
      requires Has(a)
    {
      Frags(a.msg)[a.frag]
    }

    predicate HasAll(arrivals: seq<Arrival>) {
      forall i :: 0 <= i < |arrivals| ==> Has(arrivals[i])
    }

    function PacketsOf(arrivals: seq<Arrival>): (ps: seq<RaknetPacket>)
      requires HasAll(arrivals)
      ensures |ps| == |arrivals|
    {
      seq(|arrivals|, i requires 0 <= i < |arrivals| => At(arrivals[i]))
    }

    /** All fragments of message `j` have arrived at least once. */
    ghost predicate Full(arrivals: seq<Arrival>, j: nat)
      requires j < |sent|
    {
      forall i :: 0 <= i < |Frags(j)| ==> Arrival(j, i) in arrivals
    }

    ghost predicate Started(arrivals: seq<Arrival>, j: nat)
      requires j < |sent|
    {
      exists i :: 0 <= i < |Frags(j)| && Arrival(j, i) in arrivals
    }

    /** The message that a split id was last seen with. */
    function Owner(arrivals: seq<Arrival>, id: u16): Option<nat>
      requires HasAll(arrivals)
    {
      if arrivals == [] then None
      else
        var last := arrivals[|arrivals| - 1];
        if NeedsSplit(sent[last.msg]) && SplitId(last.msg) == id then Some(last.msg)
        else Owner(arrivals[..|arrivals| - 1], id)
    }
  }

  /** The messages on the wire are the session's fragments. */
  lemma WireIsFrags(s: Session, j: nat)
    requires j < |s.sent|
    ensures Wire(s.start, s.sent)[j] == s.Frags(j)
  {
    WireAt(s.start, s.sent, j);
  }

  lemma {:induction false} RelOrdAfter(s: SendState, ps: seq<Packet>)
    ensures StateAfter(s, ps).relOrdIndex == Wrap32(s.relOrdIndex + |Ordered(ps)|)
  {
    if ps != [] {
      var init := ps[..|ps| - 1];
      RelOrdAfter(s, init);
      WrapNext(s.relOrdIndex + |Ordered(init)|, 1);
      hide Wrap32, Wrap16, Pieces;
    }
  }

  lemma {:induction false} SplitIdAfter(s: SendState, ps: seq<Packet>)
    ensures StateAfter(s, ps).splitPacketIndex == Wrap16(s.splitPacketIndex + SplitCount(ps))
  {
    if ps != [] {
      var init := ps[..|ps| - 1];
      SplitIdAfter(s, init);
      Wrap16Next(s.splitPacketIndex + SplitCount(init), 1);
      hide Wrap32, Wrap16, Pieces;
    }
  }

  /** What fragment `i` of message `j` looks like to the receiver. */
  lemma FragmentFacts(s: Session, j: nat, i: nat)
    requires s.Valid() && j < |s.sent| && i < |s.Frags(j)|
    ensures var p, m := s.Frags(j)[i], s.sent[j];
            && p.data == Pieces(m)[i]
            && p.relData.Kind() == m.reliability
            && (m.reliability.ReliableOrdered? ==>
                  p.relData == ReliableOrderedData(Wrap32(s.start.relOrdIndex + s.Ord(j))))
            && (p.splitPacketInfo.Some? <==> NeedsSplit(m))
            && |s.Frags(j)| == |Pieces(m)|
            && (if NeedsSplit(m) then
                  var info := p.splitPacketInfo.value;
                  info.id == s.SplitId(j) && info.index == i && info.count == |s.Frags(j)| >= 2
                else |s.Frags(j)| == 1 && p.data == m.data)
  {
    RelOrdAfter(s.start, s.sent[..j]);
    FragmentsAreExact(s.Before(j), s.sent[j], i);
    hide StateAfter, NeedsSplit;
    PiecesAreExact(s.sent[j]);
    if !NeedsSplit(s.sent[j]) {
      OnePiece(s.sent[j]);
    }
  }

  lemma OnePiece(p: Packet)
    requires !NeedsSplit(p)
    ensures Pieces(p) == [p.data]
  {
  }

  lemma {:induction false} OrderedAppends(a: seq<Packet>, b: seq<Packet>)
    ensures Ordered(a + b) == Ordered(a) + Ordered(b)
  {
    if b == [] {
      assert a + b == a;
    } else {
      OrderedAppends(a, b[..|b| - 1]);
      assert (a + b)[..|a + b| - 1] == a + b[..|b| - 1];
    }
  }

  /** An ordered message is found in the ordered stream at its index. */
  lemma OrdAt(s: Session, j: nat)
    requires j < |s.sent| && s.sent[j].reliability.ReliableOrdered?
    ensures s.Ord(j) < |Ordered(s.sent)| && Ordered(s.sent)[s.Ord(j)] == s.sent[j]
  {
    var a, b := s.sent[..j + 1], s.sent[j + 1..];
    assert a[..j] == s.sent[..j];
    assert s.sent == a + b;
    OrderedAppends(a, b);
  }

  lemma {:induction false} OrderedAre(ps: seq<Packet>)
    ensures forall i :: 0 <= i < |Ordered(ps)| ==> Ordered(ps)[i].reliability.ReliableOrdered?
  {
    if ps != [] {
      OrderedAre(ps[..|ps| - 1]);
    }
  }

  /** Every member of the ordered stream is a sent message. */
  lemma {:induction false} OrderedIndex(s: Session, n: nat, k: nat) returns (j: nat)
    requires k <= |s.sent| && n < |Ordered(s.sent[..k])|
    ensures j < k && s.sent[j].reliability.ReliableOrdered? && s.Ord(j) == n
    decreases k
  {
    assert s.sent[..k][..k - 1] == s.sent[..k - 1];
    if n < |Ordered(s.sent[..k - 1])| {
      j := OrderedIndex(s, n, k - 1);
    } else {
      j := k - 1;
    }
  }

  lemma {:induction false} OrderedOfOrdered(ps: seq<Packet>)
    requires forall i :: 0 <= i < |ps| ==> ps[i].reliability.ReliableOrdered?
    ensures Ordered(ps) == ps
  {
    if ps != [] {
      OrderedOfOrdered(ps[..|ps| - 1]);
      assert ps == ps[..|ps| - 1] + [ps[|ps| - 1]];
    }
  }
}
