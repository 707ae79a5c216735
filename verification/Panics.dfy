/**
 * When the receiver panics on what a session puts on the wire: an index runs past the length of an
 * entry, which was made for the same message or for another one with the same split id.
 */
module Panics {
  import opened Words
  import opened Packets
  import opened Compressed
  import opened PacketCodec
  import opened Sending
  import opened Receiving
  import opened Sessions
  import opened Delivery
  import opened Fitting
  import opened WireRuns

  /** Some fragment of message `i` comes off the wire with an index past the count of message `j`. */
  predicate Outgrows(s: Session, i: nat, j: nat)
    requires s.Valid() && i < |s.sent| && j < |s.sent|
  {
    PiecesAreExact(s.sent[i]);
    LargestIndex(|Pieces(s.sent[i])|) >= Garbled(|Pieces(s.sent[j])|)
  }

  /** Both messages are split and have the same id, because they are the same or the id came round again. */
  predicate ShareId(s: Session, i: nat, j: nat)
    requires i < |s.sent| && j < |s.sent|
  {
    NeedsSplit(s.sent[i]) && NeedsSplit(s.sent[j]) && s.SplitId(i) == s.SplitId(j)
  }

  ghost predicate NoneOutgrows(s: Session)
    requires s.Valid()
  {
    forall i, j :: 0 <= i < |s.sent| && 0 <= j < |s.sent| && ShareId(s, i, j) ==> !Outgrows(s, i, j)
  }

  /** An entry under `id` as long as some message with that id makes it. */
  ghost predicate MadeBy(s: Session, id: u16, length: nat, j: nat)
    requires s.Valid()
  {
    j < |s.sent| && NeedsSplit(s.sent[j]) && s.SplitId(j) == id && length == Garbled(|Pieces(s.sent[j])|)
  }

  ghost predicate AllMade(s: Session, splits: map<u16, Parts>)
    requires s.Valid()
  {
    forall id :: id in splits ==> exists j :: MadeBy(s, id, |splits[id]|, j)
  }

  /** What a fragment of a split message looks like off the wire. */
  lemma WireFragment(s: Session, a: Arrival)
    requires s.Valid() && s.Has(a)
    ensures GarbledPacket(s.At(a)).splitPacketInfo ==
            if NeedsSplit(s.sent[a.msg])
            then Some(SplitPacketInfo(s.SplitId(a.msg), Garbled(a.frag), Garbled(|Pieces(s.sent[a.msg])|)))
            else None
    ensures a.frag < |Pieces(s.sent[a.msg])|
    ensures NeedsSplit(s.sent[a.msg]) ==> Garbled(|Pieces(s.sent[a.msg])|) > 1
  {
    FragmentFacts(s, a.msg, a.frag);
    hide Session.Frags, Session.SplitId, NeedsSplit, Pieces;
  }

  /** Reassembly changes no entry's length, and makes a new one as long as the packet's count says. */
  lemma AssembleLengths(splits: map<u16, Parts>, p: RaknetPacket)
    ensures p.splitPacketInfo == None ==> Assemble(splits, p) == Whole(splits, p.data)
    ensures p.splitPacketInfo.Some? ==>
              var m, info := Assemble(splits, p), p.splitPacketInfo.value;
              && (m.Fault? <==>
                    info.count <= 1 || info.index >= if info.id in splits then |splits[info.id]| else info.count)
              && (!m.Fault? ==> forall id :: id in m.splits ==>
                    if id in splits then |m.splits[id]| == |splits[id]|
                    else id == info.id && |m.splits[id]| == info.count)
  {
    hide Complete, Assembled;
  }

  lemma StaysMade(s: Session, t: RecvState, a: Arrival)
    requires s.Valid() && s.Has(a) && NoneOutgrows(s) && AllMade(s, t.splits)
    ensures var o := Step(t, GarbledPacket(s.At(a)));
            o.Done? && AllMade(s, o.state.splits)
  {
    var p, i := GarbledPacket(s.At(a)), a.msg;
    WireFragment(s, a);
    StepSplits(t, p);
    AssembleLengths(t.splits, p);
    hide Assemble, Step, Session.Frags, Session.SplitId, NeedsSplit, Pieces, GarbledPacket, Garbled;
    if NeedsSplit(s.sent[i]) {
      NotOutgrown(s, t.splits, a);
      assert MadeBy(s, s.SplitId(i), Garbled(|Pieces(s.sent[i])|), i);
    }
    hide NoneOutgrows, MadeBy;
    var splits := Step(t, p).state.splits;
    forall id | id in splits ensures exists j :: MadeBy(s, id, |splits[id]|, j) {
    }
  }

  /** The index is below the length of the entry there is, or of the one that is made. */
  lemma NotOutgrown(s: Session, splits: map<u16, Parts>, a: Arrival)
    requires s.Valid() && s.Has(a) && NoneOutgrows(s) && AllMade(s, splits)
    requires NeedsSplit(s.sent[a.msg]) && a.frag < |Pieces(s.sent[a.msg])|
    ensures var id := s.SplitId(a.msg);
            Garbled(a.frag) < if id in splits then |splits[id]| else Garbled(|Pieces(s.sent[a.msg])|)
  {
    hide Session.Frags, Session.SplitId, NeedsSplit, Pieces, Garbled;
    var i, id := a.msg, s.SplitId(a.msg);
    assert ShareId(s, i, i) && !Outgrows(s, i, i);
    if id in splits {
      var j :| MadeBy(s, id, |splits[id]|, j);
      assert ShareId(s, i, j) && !Outgrows(s, i, j);
    }
  }

  lemma {:induction false} NoneOutgrowsNoPanic(s: Session, r: RecvState, arrivals: seq<Arrival>)
    requires s.Valid() && NoneOutgrows(s) && r.splits == map[] && s.HasAll(arrivals)
    ensures var o := WireOutcomes(s, r, arrivals);
            o.Done? && AllMade(s, o.state.splits)
  {
    hide Step, Session.Frags, GarbledPacket, NoneOutgrows, MadeBy;
    if arrivals == [] {
      StartsEmpty(s, r);
    } else {
      var n := |arrivals| - 1;
      NoneOutgrowsNoPanic(s, r, arrivals[..n]);
      StaysMade(s, WireOutcomes(s, r, arrivals[..n]).state, arrivals[n]);
      WireOutcomesNext(s, r, arrivals[..n], arrivals[n]);
      assert arrivals[..n] + [arrivals[n]] == arrivals;
      hide WireOutcomes, AllMade;
    }
  }

  lemma StartsEmpty(s: Session, r: RecvState)
    ensures WireOutcomes(s, r, []) == Done(r, [], false)
  {
    assert AllGarbled(s.PacketsOf([])) == [];
  }

  /** A fragment of `j`, then one of `i` whose index is past the count of `j`. */
  lemma OutgrownPanics(s: Session, r: RecvState, i: nat, j: nat) returns (arrivals: seq<Arrival>)
    requires s.Valid() && r.splits == map[] && i < |s.sent| && j < |s.sent|
    requires ShareId(s, i, j) && Outgrows(s, i, j)
    ensures s.HasAll(arrivals) && WireOutcomes(s, r, arrivals).Panic?
  {
    PiecesAreExact(s.sent[i]);
    PiecesAreExact(s.sent[j]);
    var k := LargestIndexReached(|Pieces(s.sent[i])|);
    var a, b := Arrival(j, 0), Arrival(i, k);
    FragmentFacts(s, i, 0);
    FragmentFacts(s, j, 0);
    arrivals := [a, b];
    WireFragment(s, a);
    WireFragment(s, b);
    StartsEmpty(s, r);
    hide Session.Frags, Session.SplitId, NeedsSplit, Pieces, GarbledPacket, Garbled, LargestIndex, WireOutcomes;
    WireOutcomesNext(s, r, [], a);
    assert [] + [a] == [a];
    if WireOutcomes(s, r, [a]).Done? {
      assert Assemble(r.splits, GarbledPacket(s.At(a))).Held?;
      WireOutcomesNext(s, r, [a], b);
      assert [a] + [b] == arrivals;
      assert Assemble(WireOutcomes(s, r, [a]).state.splits, GarbledPacket(s.At(b))).Fault?;
    } else {
      arrivals := [a];
    }
  }

  /**
   * Exactly when the receiver never panics on what a session puts on the wire, however long the
   * session, and whatever is lost, repeated and reordered: when no message shares its split id with
   * one, itself included, past whose count one of its indices runs.
   */
  lemma NeverPanicsIff(s: Session, r: RecvState)
    requires s.Valid() && r.splits == map[]
    ensures (forall arrivals :: s.HasAll(arrivals) ==> WireOutcomes(s, r, arrivals).Done?) <==> NoneOutgrows(s)
  {
    hide Session.HasAll, Session.Valid, WireOutcomes, ShareId, Outgrows;
    if NoneOutgrows(s) {
      forall arrivals | s.HasAll(arrivals) ensures WireOutcomes(s, r, arrivals).Done? {
        NoneOutgrowsNoPanic(s, r, arrivals);
      }
    } else {
      var i, j :| 0 <= i < |s.sent| && 0 <= j < |s.sent| && ShareId(s, i, j) && Outgrows(s, i, j);
      var arrivals := OutgrownPanics(s, r, i, j);
      assert s.HasAll(arrivals) && WireOutcomes(s, r, arrivals).Panic?;
    }
  }

  /** With at most 65536 split messages only a message's own count matters. */
  lemma FewNeverPanicIff(s: Session, r: RecvState)
    requires s.Valid() && r.splits == map[] && SplitCount(s.sent) <= 0x1_0000
    ensures (forall arrivals :: s.HasAll(arrivals) ==> WireOutcomes(s, r, arrivals).Done?) <==> AllInRange(s.sent)
  {
    NeverPanicsIff(s, r);
    hide Session.HasAll, WireOutcomes, SplitCount, NeedsSplit, Session.SplitId, Pieces, Garbled;
    hide LargestIndex, RangeKept;
    forall i, j | 0 <= i < |s.sent| && 0 <= j < |s.sent| && ShareId(s, i, j) ensures i == j {
      if i < j {
        SplitIdsDiffer(s, i, j);
      } else if j < i {
        SplitIdsDiffer(s, j, i);
      }
    }
    forall i | 0 <= i < |s.sent| && NeedsSplit(s.sent[i])
      ensures ShareId(s, i, i) && (Outgrows(s, i, i) <==> !InRange(s.sent[i]))
    {
      PiecesAreExact(s.sent[i]);
      RangeKeptIff(|Pieces(s.sent[i])|);
    }
    hide Outgrows, ShareId;
    assert forall i :: 0 <= i < |s.sent| && !NeedsSplit(s.sent[i]) ==> InRange(s.sent[i]);
    hide InRange;
  }
}
