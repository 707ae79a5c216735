/** What a split id does that comes round again before the receiver has let go of it. */
module Reuse {
  import opened Words
  import opened Packets
  import Sending
  import opened Receiving
  import opened Sessions
  import opened Delivery

  /** Two messages have the same split id if and only if a multiple of 65536 split messages lies between. */
  lemma IdComesRoundIff(s: Session, i: nat, j: nat)
    requires i < j < |s.sent|
    ensures s.SplitId(i) == s.SplitId(j) <==>
              (SplitCount(s.sent[..j]) - SplitCount(s.sent[..i])) % 0x1_0000 == 0
  {
    SplitIdAfter(s.start, s.sent[..i]);
    SplitIdAfter(s.start, s.sent[..j]);
    hide SplitCount, Sending.StateAfter;
    SameWrap16(s.start.splitPacketIndex, SplitCount(s.sent[..i]), SplitCount(s.sent[..j]));
  }

  lemma SameWrap16(base: nat, a: nat, b: nat)
    ensures Wrap16(base + a) == Wrap16(base + b) <==> (b - a) % 0x1_0000 == 0
  {
    var d := (b - a) / 0x1_0000;
    assert base + b == base + a + d * 0x1_0000 + (b - a) % 0x1_0000;
  }

  /** Half of one message and half of another with its id. */
  function Mixed(s: Session, i: nat, j: nat): Bytes
    requires i < |s.sent| && j < |s.sent|
    requires |Sending.Pieces(s.sent[i])| == |Sending.Pieces(s.sent[j])| == 2
  {
    Sending.Pieces(s.sent[i])[0] + Sending.Pieces(s.sent[j])[1]
  }

  /**
   * The first half of one message, and 65536 split messages later the second half of another: the
   * receiver takes the two halves for one message and delivers it.
   */
  lemma ReuseMixesMessages(s: Session, r: RecvState, i: nat, j: nat)
    requires s.Valid() && r.splits == map[] && i < j < |s.sent|
    requires Sending.NeedsSplit(s.sent[i]) && Sending.NeedsSplit(s.sent[j])
    requires |Sending.Pieces(s.sent[i])| == |Sending.Pieces(s.sent[j])| == 2
    requires (SplitCount(s.sent[..j]) - SplitCount(s.sent[..i])) % 0x1_0000 == 0
    requires s.sent[j].reliability.Unreliable? || s.sent[j].reliability.Reliable?
    requires !IsDisconnect(Mixed(s, i, j))
    ensures s.HasAll([Arrival(i, 0), Arrival(j, 1)])
    ensures Outcomes(s, r, [Arrival(i, 0), Arrival(j, 1)]) ==
            Done(r, [Packet(s.sent[j].reliability, Mixed(s, i, j))], false)
  {
    IdComesRoundIff(s, i, j);
    var a, b := Arrival(i, 0), Arrival(j, 1);
    FragmentFacts(s, i, 0);
    FragmentFacts(s, j, 1);
    hide Sending.NeedsSplit, Session.Frags, Session.SplitId, Sending.Pieces, Assembled, SplitCount, IsDisconnect, Run;
    hide Outcomes, Session.HasAll;
    HalvesAssemble(s.SplitId(i), s.At(a), s.At(b));
    TwoArrivals(s, r, a, b);
    var half := Assemble(r.splits, s.At(a)).splits;
    assert r.(splits := half).(splits := r.splits) == r;
  }

  /** The first half of two, then the second half of two, under one id. */
  lemma HalvesAssemble(id: u16, p: RaknetPacket, q: RaknetPacket)
    requires p.splitPacketInfo == Some(SplitPacketInfo(id, 0, 2))
    requires q.splitPacketInfo == Some(SplitPacketInfo(id, 1, 2))
    ensures var first := Assemble(map[], p);
            first.Held? && Assemble(first.splits, q) == Whole(map[], p.data + q.data)
  {
    var half: Parts := [Some(p.data), None];
    assert EmptyParts(2)[0 := Some(p.data)] == half && half[1 := Some(q.data)] == [Some(p.data), Some(q.data)];
    var none: map<u16, Parts> := map[];
    assert none[id := half] - {id} == none;
    TwoParts(p.data, q.data);
  }

  lemma TwoParts(x: Bytes, y: Bytes)
    ensures Complete([Some(x), Some(y)]) && Assembled([Some(x), Some(y)]) == x + y
  {
    var parts := [Some(x), Some(y)];
    assert parts[..1] == [Some(x)];
    assert Assembled(parts[..1]) == x;
  }

  lemma TwoArrivals(s: Session, r: RecvState, a: Arrival, b: Arrival)
    requires s.Has(a) && s.Has(b)
    requires Assemble(r.splits, s.At(a)).Held? && Assemble(Assemble(r.splits, s.At(a)).splits, s.At(b)).Whole?
    ensures s.HasAll([a, b])
    ensures Outcomes(s, r, [a, b]) ==
            var w := Assemble(Assemble(r.splits, s.At(a)).splits, s.At(b));
            Deliver(r.(splits := w.splits), s.At(b).relData, w.data)
  {
    hide Session.Frags, Assemble, Deliver;
    assert s.PacketsOf([]) == [];
    OutcomesNext(s, r, [], a);
    assert [] + [a] == [a];
    OutcomesNext(s, r, [a], b);
    assert [a] + [b] == [a, b];
    var d := Step(Outcomes(s, r, [a]).state, s.At(b));
    assert [] + d.out == d.out;
  }

  // It happens

  /** 65536 messages of zeros in two halves each, and one of ones. */
  function ReusingSession(): Session {
    Session(Sending.INITIAL, seq(0x1_0001, m requires 0 <= m < 0x1_0001 =>
      Packet(Reliable, TwoChunks(if m == 0x1_0000 then 1 else 0))))
  }

  function TwoChunks(b: byte): (data: Bytes)
    ensures |data| == 2366
  {
    seq(2366, _ => b)
  }

  lemma TwoChunksArePieces(b: byte)
    ensures var p := Packet(Reliable, TwoChunks(b));
            && Sending.NeedsSplit(p)
            && Sending.Pieces(p) == [TwoChunks(b)[..1183], TwoChunks(b)[1183..]]
  {
    var data := TwoChunks(b);
    hide TwoChunks;
    assert Sending.Chunks(data[1183..], 1183) == [data[1183..]];
    assert Sending.Chunks(data, 1183) == [data[..1183]] + [data[1183..]];
  }

  lemma {:induction false} AllSplitCount(ps: seq<Packet>)
    requires forall i :: 0 <= i < |ps| ==> Sending.NeedsSplit(ps[i])
    ensures SplitCount(ps) == |ps|
  {
    hide Sending.NeedsSplit;
    if ps != [] {
      AllSplitCount(ps[..|ps| - 1]);
    }
  }

  lemma ReusingMessages()
    ensures var s := ReusingSession();
            && |s.sent| == 0x1_0001 && s.Valid()
            && (forall m :: 0 <= m < |s.sent| ==>
                  && s.sent[m] == Packet(Reliable, TwoChunks(if m == 0x1_0000 then 1 else 0))
                  && Sending.NeedsSplit(s.sent[m]) && |Sending.Pieces(s.sent[m])| == 2)
  {
    TwoChunksArePieces(0);
    TwoChunksArePieces(1);
    hide TwoChunks, Sending.NeedsSplit, Sending.Pieces;
  }

  /** The mix starts with a zero and has a one later; no message that was sent does. */
  lemma MixIsNew()
    ensures var mixed := TwoChunks(0)[..1183] + TwoChunks(1)[1183..];
            !IsDisconnect(mixed) && mixed != TwoChunks(0) && mixed != TwoChunks(1)
  {
    var zeros, ones := TwoChunks(0), TwoChunks(1);
    var mixed := zeros[..1183] + ones[1183..];
    assert zeros[0] == 0 && zeros[1183] == 0 && ones[0] == 1 && ones[1183] == 1;
    assert mixed[0] == 0 && mixed[1183] == 1;
  }

  /** A message is delivered that was never sent. */
  lemma NeverSentIsDelivered()
    ensures var s := ReusingSession();
            && s.Valid() && s.HasAll([Arrival(0, 0), Arrival(0x1_0000, 1)])
            && var o := Outcomes(s, INITIAL, [Arrival(0, 0), Arrival(0x1_0000, 1)]);
            o.Done? && |o.out| == 1 && o.out[0] !in s.sent
  {
    hide ReusingSession, TwoChunks, Sending.NeedsSplit, Sending.Pieces, SplitCount, Session.Valid, IsDisconnect;
    var s := ReusingSession();
    ReusingMessages();
    AllSplitCount(s.sent[..0x1_0000]);
    AllSplitCount(s.sent[..0]);
    TwoChunksArePieces(0);
    TwoChunksArePieces(1);
    MixIsNew();
    assert Mixed(s, 0, 0x1_0000) == TwoChunks(0)[..1183] + TwoChunks(1)[1183..];
    ReuseMixesMessages(s, INITIAL, 0, 0x1_0000);
    hide *;
  }
}
