/**
 * The delivery theorems: a receiver in step with a sender, over every run of arrivals with loss,
 * duplication and reordering.
 */
module Delivery {
  import opened Words
  import opened Packets
  import opened Sending
  import opened Receiving
  import opened Ordering
  import opened Sessions
  import opened Reassembly

  /** The receiver expects the sender's next ordering index and holds nothing. */
  predicate InStep(s: Session, r: RecvState) {
    r.relOrdIndex == s.start.relOrdIndex && r.queue == map[] && r.splits == map[]
  }

  function Outcomes(s: Session, r: RecvState, arrivals: seq<Arrival>): Outcome
    requires s.HasAll(arrivals)
  {
    Run(r, s.PacketsOf(arrivals))
  }

  /**
   * The runs considered: whenever a ReliableOrdered fragment arrives its index is in the window, and
   * whenever a fragment arrives its split id is not in use by another message. Nothing else is
   * asked of the order, and nothing needs to arrive, or to arrive only once.
   */
  ghost predicate Orderly(s: Session, r: RecvState, arrivals: seq<Arrival>)
    requires s.HasAll(arrivals)
  {
    arrivals != [] ==>
      var before, a := arrivals[..|arrivals| - 1], arrivals[|arrivals| - 1];
      Orderly(s, r, before) && Acceptable(s, before, Outcomes(s, r, before), a)
  }

  ghost predicate Acceptable(s: Session, arrivals: seq<Arrival>, o: Outcome, a: Arrival)
    requires s.HasAll(arrivals) && s.Has(a)
  {
    o.Done? ==>
      && NoCollision(s, arrivals, o.state.splits, a)
      && (s.sent[a.msg].reliability.ReliableOrdered? ==> InWindow(s.Ord(a.msg), |Ordered(o.out)|))
  }

  /** The ordered messages that are complete and are not disconnect notifications, by index. */
  ghost function Have(s: Session, arrivals: seq<Arrival>): set<nat> {
    set j | 0 <= j < |s.sent| && Counts(s, arrivals, j) :: s.Ord(j)
  }

  ghost predicate Counts(s: Session, arrivals: seq<Arrival>, j: nat)
    requires j < |s.sent|
  {
    s.sent[j].reliability.ReliableOrdered? && !IsDisconnect(s.sent[j].data) && s.Full(arrivals, j)
  }

  ghost predicate DisconnectComplete(s: Session, arrivals: seq<Arrival>) {
    exists j :: 0 <= j < |s.sent| && s.Full(arrivals, j) && IsDisconnect(s.sent[j].data)
  }

  /** What holds after every orderly run. */
  ghost predicate Inv(s: Session, arrivals: seq<Arrival>, o: Outcome)
    requires s.HasAll(arrivals)
  {
    && o.Done?
    && SplitInv(s, arrivals, o.state.splits)
    && OrderInv(s.start.relOrdIndex, Ordered(s.sent), |Ordered(o.out)|, o.state, Have(s, arrivals))
    && Ordered(o.out) == Ordered(s.sent)[..|Ordered(o.out)|]
    && (o.disconnect <==> DisconnectComplete(s, arrivals))
  }

  lemma Initially(s: Session, r: RecvState)
    requires s.Valid() && InStep(s, r)
    ensures Inv(s, [], Done(r, [], false))
  {
    forall j | 0 <= j < |s.sent| ensures !s.Full([], j) {
      PiecesAreExact(s.sent[j]);
      assert Arrival(j, 0) !in [];
    }
  }

  /** An arrival changes which messages are complete for at most its own. */
  lemma FullNext(s: Session, arrivals: seq<Arrival>, a: Arrival, j: nat)
    requires s.Has(a) && j < |s.sent|
    ensures s.Full(arrivals, j) ==> s.Full(arrivals + [a], j)
    ensures j != a.msg ==> s.Full(arrivals + [a], j) ==> s.Full(arrivals, j)
  {
    hide Session.Frags;
  }

  lemma HaveNext(s: Session, arrivals: seq<Arrival>, a: Arrival)
    requires s.Has(a)
    ensures Counts(s, arrivals + [a], a.msg) ==> Have(s, arrivals + [a]) == Have(s, arrivals) + {s.Ord(a.msg)}
    ensures !Counts(s, arrivals + [a], a.msg) ==> Have(s, arrivals + [a]) == Have(s, arrivals)
    ensures Counts(s, arrivals + [a], a.msg) == Counts(s, arrivals, a.msg) ==>
              Have(s, arrivals + [a]) == Have(s, arrivals)
  {
    hide Session.Frags, Session.Ord, IsDisconnect;
    forall j | 0 <= j < |s.sent|
      ensures Counts(s, arrivals, j) ==> Counts(s, arrivals + [a], j)
      ensures j != a.msg ==> Counts(s, arrivals + [a], j) ==> Counts(s, arrivals, j)
    {
      FullNext(s, arrivals, a, j);
    }
    hide Counts;
    var before, after := Have(s, arrivals), Have(s, arrivals + [a]);
    forall n ensures n in after <==> n in before || (Counts(s, arrivals + [a], a.msg) && n == s.Ord(a.msg)) {
    }
  }

  lemma DisconnectNext(s: Session, arrivals: seq<Arrival>, a: Arrival)
    requires s.Has(a)
    ensures DisconnectComplete(s, arrivals + [a]) <==>
              DisconnectComplete(s, arrivals) || (s.Full(arrivals + [a], a.msg) && IsDisconnect(s.sent[a.msg].data))
  {
    hide Session.Frags, IsDisconnect;
    forall j | 0 <= j < |s.sent|
      ensures s.Full(arrivals, j) ==> s.Full(arrivals + [a], j)
      ensures j != a.msg ==> s.Full(arrivals + [a], j) ==> s.Full(arrivals, j)
    {
      FullNext(s, arrivals, a, j);
    }
    hide Session.Full;
  }

  /** A fragment that completes nothing. */
  lemma HeldKeeps(s: Session, arrivals: seq<Arrival>, o: Outcome, a: Arrival, splits: map<u16, Parts>)
    requires s.Valid() && s.HasAll(arrivals) && s.Has(a) && Inv(s, arrivals, o)
    requires s.HasAll(arrivals + [a]) && Progressed(s, arrivals, a, Held(splits))
    ensures Inv(s, arrivals + [a], o.(state := o.state.(splits := splits)))
  {
    HaveNext(s, arrivals, a);
    DisconnectNext(s, arrivals, a);
    FullNext(s, arrivals, a, a.msg);
    assert s.Full(arrivals, a.msg) ==> IsDisconnect(s.sent[a.msg].data) ==> DisconnectComplete(s, arrivals);
    hide SplitInv, Have, DisconnectComplete, QueueHolds, AllKept, Session.Full, Ordered;
  }

  /** A message that is whole is delivered, queued, dropped, or closes the connection. */
  lemma WholeKeeps(s: Session, arrivals: seq<Arrival>, o: Outcome, a: Arrival, splits: map<u16, Parts>)
    requires s.Valid() && s.HasAll(arrivals) && s.Has(a) && Inv(s, arrivals, o) && Acceptable(s, arrivals, o, a)
    requires s.HasAll(arrivals + [a]) && Progressed(s, arrivals, a, Whole(splits, s.sent[a.msg].data))
    ensures var d := Deliver(o.state.(splits := splits), s.At(a).relData, s.sent[a.msg].data);
            Inv(s, arrivals + [a], Done(d.state, o.out + d.out, o.disconnect || d.disconnect))
  {
    hide SplitInv, Have, DisconnectComplete, QueueHolds, AllKept, Session.Frags, Pieces;
    hide NeedsSplit, NoCollision;
    var m, t := s.sent[a.msg], o.state.(splits := splits);
    HaveNext(s, arrivals, a);
    DisconnectNext(s, arrivals, a);
    FragmentFacts(s, a.msg, a.frag);
    var d := Deliver(t, s.At(a).relData, m.data);
    OrderedAppends(o.out, d.out);
    hide Session.Full;
    if IsDisconnect(m.data) {
      hide Ordered;
      assert o.out + [] == o.out;
    } else if m.reliability.ReliableOrdered? {
      OrderedKeeps(s, o, a, splits, Have(s, arrivals));
    } else {
      hide OrderInv;
      OtherReliability(t, s.At(a).relData, m.data);
    }
  }

  lemma OtherReliability(t: RecvState, rel: ReliabilityData, data: Bytes)
    requires !rel.ReliableOrderedData? && !IsDisconnect(data)
    ensures var d := Deliver(t, rel, data);
            && Ordered(d.out) == [] && !d.disconnect
            && d.state.relOrdIndex == t.relOrdIndex && d.state.queue == t.queue && d.state.splits == t.splits
  {
  }

  lemma OrderedKeeps(s: Session, o: Outcome, a: Arrival, splits: map<u16, Parts>, have: set<nat>)
    requires s.Valid() && s.Has(a) && o.Done?
    requires var m := s.sent[a.msg]; m.reliability.ReliableOrdered? && !IsDisconnect(m.data)
    requires InWindow(s.Ord(a.msg), |Ordered(o.out)|)
    requires OrderInv(s.start.relOrdIndex, Ordered(s.sent), |Ordered(o.out)|, o.state, have)
    requires Ordered(o.out) == Ordered(s.sent)[..|Ordered(o.out)|]
    ensures var d := Deliver(o.state.(splits := splits), s.At(a).relData, s.sent[a.msg].data);
            var r := |Ordered(o.out + d.out)|;
            && !d.disconnect && d.state.splits == splits
            && r <= |Ordered(s.sent)| && Ordered(o.out + d.out) == Ordered(s.sent)[..r]
            && OrderInv(s.start.relOrdIndex, Ordered(s.sent), r, d.state, have + {s.Ord(a.msg)})
  {
    hide Session.Frags, OrderInv, Pieces, NeedsSplit, IsDisconnect, Wrap32, InWindow, Deliver;
    OrdAt(s, a.msg);
    FragmentFacts(s, a.msg, a.frag);
    OrderedAre(s.sent);
    var m := s.sent[a.msg];
    assert s.At(a).relData == ReliableOrderedData(Wrap32(s.start.relOrdIndex + s.Ord(a.msg)));
    assert Ordered(s.sent)[s.Ord(a.msg)].data == m.data;
    hide Session.Valid, Session.Has, Session.Ord, Ordered;
    var t := o.state.(splits := splits);
    OrderInvSplits(s.start.relOrdIndex, Ordered(s.sent), |Ordered(o.out)|, o.state, have, splits);
    ExtendsPrefix(s.start.relOrdIndex, Ordered(s.sent), o.out, t, have, s.Ord(a.msg));
  }

  lemma OrderInvSplits(base: u32, ro: seq<Packet>, r: nat, t: RecvState, have: set<nat>, splits: map<u16, Parts>)
    requires OrderInv(base, ro, r, t, have)
    ensures OrderInv(base, ro, r, t.(splits := splits), have)
  {
  }

  /** Delivering message `n` extends the delivered prefix of the stream. */
  lemma ExtendsPrefix(base: u32, ro: seq<Packet>, out: seq<Packet>, t: RecvState, have: set<nat>, n: nat)
    requires forall i :: 0 <= i < |ro| ==> ro[i].reliability.ReliableOrdered?
    requires OrderInv(base, ro, |Ordered(out)|, t, have) && Ordered(out) == ro[..|Ordered(out)|]
    requires n < |ro| && !IsDisconnect(ro[n].data) && InWindow(n, |Ordered(out)|)
    ensures var d := Deliver(t, ReliableOrderedData(Wrap32(base + n)), ro[n].data);
            var r := |Ordered(out + d.out)|;
            && !d.disconnect && d.state.splits == t.splits
            && r <= |ro| && Ordered(out + d.out) == ro[..r]
            && OrderInv(base, ro, r, d.state, have + {n})
  {
    hide Wrap32, InWindow, Deliver, IsDisconnect, QueueHolds, AllKept;
    var r := |Ordered(out)|;
    assert r <= |ro|;
    hide OrderInv;
    DeliverOrdered(base, ro, r, t, have, n);
    var d := Deliver(t, ReliableOrderedData(Wrap32(base + n)), ro[n].data);
    OrderedAppends(out, d.out);
    OrderedOfOrdered(d.out);
    hide Ordered;
    assert ro[..r] + ro[r..r + |d.out|] == ro[..r + |d.out|];
  }

  lemma StepKeeps(s: Session, arrivals: seq<Arrival>, o: Outcome, a: Arrival)
    requires s.Valid() && s.HasAll(arrivals) && s.Has(a) && Inv(s, arrivals, o) && Acceptable(s, arrivals, o, a)
    ensures s.HasAll(arrivals + [a])
    ensures var d := Step(o.state, s.At(a));
            d.Done? && Inv(s, arrivals + [a], Done(d.state, o.out + d.out, o.disconnect || d.disconnect))
  {
    FragmentArrives(s, arrivals, o.state.splits, a);
    match Assemble(o.state.splits, s.At(a))
    case Held(splits) =>
      HeldKeeps(s, arrivals, o, a, splits);
      assert o.out + [] == o.out;
    case Whole(splits, data) =>
      WholeKeeps(s, arrivals, o, a, splits);
  }

  lemma OutcomesNext(s: Session, r: RecvState, arrivals: seq<Arrival>, a: Arrival)
    requires s.HasAll(arrivals) && s.Has(a) && Outcomes(s, r, arrivals).Done?
    ensures s.HasAll(arrivals + [a])
    ensures var o := Outcomes(s, r, arrivals);
            var d := Step(o.state, s.At(a));
            d.Done? ==>
              Outcomes(s, r, arrivals + [a]) == Done(d.state, o.out + d.out, o.disconnect || d.disconnect)
  {
    hide Step, Session.Frags;
    var ps := s.PacketsOf(arrivals + [a]);
    assert ps[..|ps| - 1] == s.PacketsOf(arrivals);
  }

  lemma InvDone(s: Session, arrivals: seq<Arrival>, o: Outcome)
    requires s.HasAll(arrivals) && Inv(s, arrivals, o)
    ensures o.Done?
  {
  }

  lemma OrderlyLast(s: Session, r: RecvState, arrivals: seq<Arrival>)
    requires arrivals != [] && s.HasAll(arrivals) && Orderly(s, r, arrivals)
    ensures var before, a := arrivals[..|arrivals| - 1], arrivals[|arrivals| - 1];
            && s.HasAll(before) && s.Has(a) && arrivals == before + [a]
            && Orderly(s, r, before) && Acceptable(s, before, Outcomes(s, r, before), a)
  {
    hide Acceptable, Outcomes, Session.Frags;
  }

  /** The invariant holds on every orderly run; in particular no assertion of the receiver fails. */
  lemma {:induction false} InvHolds(s: Session, r: RecvState, arrivals: seq<Arrival>)
    requires s.Valid() && InStep(s, r) && s.HasAll(arrivals) && Orderly(s, r, arrivals)
    ensures Inv(s, arrivals, Outcomes(s, r, arrivals))
    decreases arrivals, 1
  {
    if arrivals == [] {
      Initially(s, r);
    } else {
      InvLast(s, r, arrivals);
    }
  }

  lemma {:induction false} InvLast(s: Session, r: RecvState, arrivals: seq<Arrival>)
    requires s.Valid() && InStep(s, r) && s.HasAll(arrivals) && Orderly(s, r, arrivals) && arrivals != []
    ensures Inv(s, arrivals, Outcomes(s, r, arrivals))
    decreases arrivals, 0
  {
    hide *;
    OrderlyLast(s, r, arrivals);
    var before, a := arrivals[..|arrivals| - 1], arrivals[|arrivals| - 1];
    InvHolds(s, r, before);
    InvDone(s, before, Outcomes(s, r, before));
    StepKeeps(s, before, Outcomes(s, r, before), a);
    OutcomesNext(s, r, before, a);
  }

  // The theorems

  /**
   * Prefix safety. With any loss, duplication and reordering inside the window, across any number
   * of wraparounds: what was delivered in order is a prefix of what was sent in order.
   */
  lemma PrefixSafety(s: Session, r: RecvState, arrivals: seq<Arrival>)
    requires s.Valid() && InStep(s, r) && s.HasAll(arrivals) && Orderly(s, r, arrivals)
    ensures Outcomes(s, r, arrivals).Done?
    ensures Ordered(Outcomes(s, r, arrivals).out) <= Ordered(s.sent)
  {
    InvHolds(s, r, arrivals);
  }

  /** The connection closes if and only if all fragments of some disconnect notification have arrived. */
  lemma ClosedIff(s: Session, r: RecvState, arrivals: seq<Arrival>)
    requires s.Valid() && InStep(s, r) && s.HasAll(arrivals) && Orderly(s, r, arrivals)
    ensures Outcomes(s, r, arrivals).Done?
    ensures Outcomes(s, r, arrivals).disconnect <==>
              exists j :: 0 <= j < |s.sent| && s.Full(arrivals, j) && |s.sent[j].data| >= 1 && s.sent[j].data[0] == 19
  {
    InvHolds(s, r, arrivals);
    forall j | 0 <= j < |s.sent|
      ensures IsDisconnect(s.sent[j].data) <==> |s.sent[j].data| >= 1 && s.sent[j].data[0] == 19
    {
      DisconnectIff(s.sent[j].data);
    }
    hide IsDisconnect, Session.Full, SplitInv, OrderInv;
  }

  ghost predicate EverythingArrives(s: Session, arrivals: seq<Arrival>) {
    forall j :: 0 <= j < |s.sent| ==> s.Full(arrivals, j)
  }

  /**
   * Once everything has arrived at least once, in any order and with any repeats, exactly the
   * ordered messages have been delivered, in order, and the ordering queue is empty.
   */
  lemma CompleteDelivery(s: Session, r: RecvState, arrivals: seq<Arrival>)
    requires s.Valid() && InStep(s, r) && s.HasAll(arrivals) && Orderly(s, r, arrivals)
    requires EverythingArrives(s, arrivals) && NoDisconnects(s.sent)
    ensures var o := Outcomes(s, r, arrivals);
            o.Done? && Ordered(o.out) == Ordered(s.sent) && o.state.queue == map[] && !o.disconnect
  {
    InvHolds(s, r, arrivals);
    var o := Outcomes(s, r, arrivals);
    var ro := Ordered(s.sent);
    forall n | 0 <= n < |ro| ensures n in Have(s, arrivals) {
      assert s.sent[..|s.sent|] == s.sent;
      var j := OrderedIndex(s, n, |s.sent|);
      assert Counts(s, arrivals, j);
    }
    AllDelivered(s.start.relOrdIndex, ro, |Ordered(o.out)|, o.state, Have(s, arrivals));
  }

  // Sessions small enough that no run leaves the window

  /** At most 2^31-1 ordered messages and at most 65536 split messages. */
  predicate Small(s: Session) {
    |Ordered(s.sent)| <= 0x7fff_ffff && SplitCount(s.sent) <= 0x1_0000
  }

  lemma {:induction false} CountsGrow(ps: seq<Packet>, j: nat)
    requires j < |ps|
    ensures SplitCount(ps[..j]) + (if NeedsSplit(ps[j]) then 1 else 0) <= SplitCount(ps)
  {
    hide NeedsSplit;
    if j < |ps| - 1 {
      CountsGrow(ps[..|ps| - 1], j);
      assert ps[..|ps| - 1][..j] == ps[..j];
    }
  }

  /** Split messages have different ids as long as there are at most 65536 of them. */
  lemma SplitIdsDiffer(s: Session, i: nat, j: nat)
    requires i < j < |s.sent| && NeedsSplit(s.sent[i]) && NeedsSplit(s.sent[j]) && SplitCount(s.sent) <= 0x1_0000
    ensures s.SplitId(i) != s.SplitId(j)
  {
    CountsGrow(s.sent, j);
    CountsGrow(s.sent[..j], i);
    assert s.sent[..j][..i] == s.sent[..i];
    SplitIdAfter(s.start, s.sent[..i]);
    SplitIdAfter(s.start, s.sent[..j]);
    WrapsApart(s.start.splitPacketIndex + SplitCount(s.sent[..i]), s.start.splitPacketIndex + SplitCount(s.sent[..j]));
    hide SplitCount, StateAfter, NeedsSplit, Wrap16;
  }

  lemma WrapsApart(a: nat, b: nat)
    requires 0 < b - a < 0x1_0000
    ensures Wrap16(a) != Wrap16(b)
  {
  }

  lemma NeverCollides(s: Session, arrivals: seq<Arrival>, splits: map<u16, Parts>, a: Arrival)
    requires s.HasAll(arrivals) && s.Has(a) && SplitCount(s.sent) <= 0x1_0000
    requires forall id :: id in splits ==> s.Owner(arrivals, id).Some?
    ensures NoCollision(s, arrivals, splits, a)
  {
    hide NeedsSplit, Session.SplitId, Session.Owner, Session.Frags, SplitCount;
    if NeedsSplit(s.sent[a.msg]) && s.SplitId(a.msg) in splits {
      var id := s.SplitId(a.msg);
      OwnerHasArrived(s, arrivals, id);
      var j := s.Owner(arrivals, id).value;
      if j < a.msg {
        SplitIdsDiffer(s, j, a.msg);
      } else if a.msg < j {
        SplitIdsDiffer(s, a.msg, j);
      }
    }
  }

  lemma NeverOutOfWindow(s: Session, j: nat, r: nat)
    requires j < |s.sent| && s.sent[j].reliability.ReliableOrdered?
    requires |Ordered(s.sent)| <= 0x7fff_ffff && r <= |Ordered(s.sent)|
    ensures InWindow(s.Ord(j), r)
  {
    OrdAt(s, j);
  }

  /** Every run of a small session is orderly: any loss, any repeats, any order. */
  lemma {:induction false} SmallIsOrderly(s: Session, r: RecvState, arrivals: seq<Arrival>)
    requires s.Valid() && InStep(s, r) && s.HasAll(arrivals) && Small(s)
    ensures Orderly(s, r, arrivals)
  {
    if arrivals != [] {
      var before, a := arrivals[..|arrivals| - 1], arrivals[|arrivals| - 1];
      SmallIsOrderly(s, r, before);
      InvHolds(s, r, before);
      hide Outcomes, Ordered, SplitCount, Session.Frags, NothingForgotten, EntriesHold, DisconnectComplete, Have;
      NeverCollides(s, before, Outcomes(s, r, before).state.splits, a);
      if s.sent[a.msg].reliability.ReliableOrdered? {
        NeverOutOfWindow(s, a.msg, |Ordered(Outcomes(s, r, before).out)|);
      }
    }
  }

  /** No entry is left behind by a finished message. */
  ghost predicate NoneStale(s: Session, arrivals: seq<Arrival>, splits: map<u16, Parts>)
    requires s.HasAll(arrivals)
  {
    forall id :: id in splits ==>
      var owner := s.Owner(arrivals, id);
      owner.Some? && owner.value < |s.sent| && !s.Full(arrivals, owner.value)
  }

  /** An entry that this arrival does not touch is as live as before. */
  lemma StillLive(s: Session, arrivals: seq<Arrival>, a: Arrival, id: u16)
    requires s.HasAll(arrivals) && s.Has(a)
    requires var owner := s.Owner(arrivals, id);
             owner.Some? && owner.value < |s.sent| && !s.Full(arrivals, owner.value)
    requires !(NeedsSplit(s.sent[a.msg]) && id == s.SplitId(a.msg))
    ensures s.HasAll(arrivals + [a])
    ensures var owner := s.Owner(arrivals + [a], id);
            owner.Some? && owner.value < |s.sent| && !s.Full(arrivals + [a], owner.value)
  {
    hide NeedsSplit, Session.Frags, Session.SplitId, Session.Owner, Session.Full;
    OwnerNext(s, arrivals, a);
    OwnerHasArrived(s, arrivals, id);
    FullNext(s, arrivals, a, s.Owner(arrivals, id).value);
  }

  lemma NoneStaleNext(s: Session, arrivals: seq<Arrival>, splits: map<u16, Parts>, a: Arrival)
    requires s.Valid() && s.HasAll(arrivals) && s.Has(a) && a !in arrivals
    requires SplitInv(s, arrivals, splits) && NoCollision(s, arrivals, splits, a) && NoneStale(s, arrivals, splits)
    ensures s.HasAll(arrivals + [a])
    ensures match Assemble(splits, s.At(a))
            case Fault => false
            case Held(splits') => NoneStale(s, arrivals + [a], splits')
            case Whole(splits', _) => NoneStale(s, arrivals + [a], splits')
  {
    FragmentArrives(s, arrivals, splits, a);
    OwnerNext(s, arrivals, a);
    assert !s.Full(arrivals, a.msg) by { assert Arrival(a.msg, a.frag) == a; }
    var next, splits' := arrivals + [a], Assemble(splits, s.At(a)).splits;
    OnlyOwnEntry(s, splits, a);
    assert NeedsSplit(s.sent[a.msg]) && s.SplitId(a.msg) in splits' ==> !s.Full(next, a.msg);
    hide SplitInv, NeedsSplit, Session.Frags, Session.SplitId, Session.Owner, Session.Full, Assemble;
    forall id | id in splits'
      ensures var owner := s.Owner(next, id);
              owner.Some? && owner.value < |s.sent| && !s.Full(next, owner.value)
    {
      if !(NeedsSplit(s.sent[a.msg]) && id == s.SplitId(a.msg)) {
        StillLive(s, arrivals, a, id);
      }
    }
  }

  /** An arrival adds no entry but its own, and takes that away when it completes the message. */
  lemma OnlyOwnEntry(s: Session, splits: map<u16, Parts>, a: Arrival)
    requires s.Valid() && s.Has(a)
    ensures var r := Assemble(splits, s.At(a));
            !r.Fault? ==>
              && (forall id :: id in r.splits ==> id in splits || (NeedsSplit(s.sent[a.msg]) && id == s.SplitId(a.msg)))
              && (r.Whole? && NeedsSplit(s.sent[a.msg]) ==> s.SplitId(a.msg) !in r.splits)
  {
    FragmentFacts(s, a.msg, a.frag);
    hide NeedsSplit, Session.Frags, Session.SplitId, Pieces, Complete, Assembled;
  }

  /** Every fragment at most once: nothing stale is kept. */
  lemma {:induction false} NoneStaleHolds(s: Session, r: RecvState, arrivals: seq<Arrival>)
    requires s.Valid() && InStep(s, r) && s.HasAll(arrivals) && Orderly(s, r, arrivals) && Unrepeated(arrivals)
    ensures Outcomes(s, r, arrivals).Done? && NoneStale(s, arrivals, Outcomes(s, r, arrivals).state.splits)
  {
    if arrivals != [] {
      var before, a := arrivals[..|arrivals| - 1], arrivals[|arrivals| - 1];
      hide Small, InStep;
      NoneStaleHolds(s, r, before);
      InvHolds(s, r, before);
      InvHolds(s, r, arrivals);
      var o := Outcomes(s, r, before);
      assert a !in before;
      hide Outcomes, NoneStale, Session.Frags, OrderInv, DisconnectComplete, Have;
      NoneStaleNext(s, before, o.state.splits, a);
      OutcomesNext(s, r, before, a);
      assert before + [a] == arrivals;
      StepSplits(o.state, s.At(a));
    }
  }

  lemma StepSplits(t: RecvState, p: RaknetPacket)
    ensures match Assemble(t.splits, p)
            case Fault => Step(t, p).Panic?
            case Held(splits) => Step(t, p).Done? && Step(t, p).state.splits == splits
            case Whole(splits, _) => Step(t, p).Done? && Step(t, p).state.splits == splits
  {
  }

  ghost predicate Unrepeated(arrivals: seq<Arrival>) {
    forall i, j :: 0 <= i < j < |arrivals| ==> arrivals[i] != arrivals[j]
  }

  /** Every fragment of every message exactly once, in any order. */
  ghost predicate IsPermutation(s: Session, arrivals: seq<Arrival>) {
    s.HasAll(arrivals) && Unrepeated(arrivals) && EverythingArrives(s, arrivals)
  }

  /**
   * Any-order delivery. The sender's packets, in any permutation and cut into any batches, deliver
   * exactly the ordered messages, in order, and leave both queues empty.
   */
  lemma AnyOrderDelivery(s: Session, r: RecvState, arrivals: seq<Arrival>, batches: seq<seq<RaknetPacket>>)
    requires s.Valid() && InStep(s, r) && Small(s) && NoDisconnects(s.sent)
    requires IsPermutation(s, arrivals) && Flatten(batches) == s.PacketsOf(arrivals)
    ensures var o := RunBatches(r, batches);
            && o.Done? && !o.disconnect
            && Ordered(o.out) == Ordered(s.sent)
            && o.state.queue == map[] && o.state.splits == map[]
  {
    BatchingIsIrrelevant(r, batches);
    SmallIsOrderly(s, r, arrivals);
    CompleteDelivery(s, r, arrivals);
    NoneStaleHolds(s, r, arrivals);
    var o := Outcomes(s, r, arrivals);
    hide Orderly, Run, Ordered, Small, NoDisconnects;
    forall id: u16 ensures id !in o.state.splits {
      var owner := s.Owner(arrivals, id);
      assert owner.Some? && owner.value < |s.sent| ==> s.Full(arrivals, owner.value);
    }
  }

  /** When all messages are ordered, that is every message: the output is the input. */
  lemma AnyOrderIdentity(s: Session, r: RecvState, arrivals: seq<Arrival>, batches: seq<seq<RaknetPacket>>)
    requires s.Valid() && InStep(s, r) && Small(s) && NoDisconnects(s.sent)
    requires AllOrdered(s.sent)
    requires IsPermutation(s, arrivals) && Flatten(batches) == s.PacketsOf(arrivals)
    ensures RunBatches(r, batches).Done? && RunBatches(r, batches).out == s.sent
  {
    AnyOrderDelivery(s, r, arrivals, batches);
    BatchingIsIrrelevant(r, batches);
    OnlyOrderedOut(s, r, arrivals);
    OrderedOfOrdered(s.sent);
    OrderedOfOrdered(Outcomes(s, r, arrivals).out);
  }

  ghost predicate AllOrdered(ps: seq<Packet>) {
    forall i :: 0 <= i < |ps| ==> ps[i].reliability.ReliableOrdered?
  }

  ghost predicate OrderedQueue(queue: map<u32, Packet>) {
    forall k :: k in queue ==> queue[k].reliability.ReliableOrdered?
  }

  lemma {:induction false} DrainOrdered(index: u32, queue: map<u32, Packet>)
    requires OrderedQueue(queue)
    ensures AllOrdered(Drain(index, queue).2) && OrderedQueue(Drain(index, queue).1)
    decreases |queue|
  {
    hide Wrap32;
    if index in queue {
      RemoveShrinks(queue, index);
      DrainOrdered(Wrap32(index + 1), queue - {index});
    }
  }

  lemma StepOrdered(t: RecvState, p: RaknetPacket)
    requires OrderedQueue(t.queue) && p.relData.ReliableOrderedData? && Step(t, p).Done?
    ensures AllOrdered(Step(t, p).out) && OrderedQueue(Step(t, p).state.queue)
  {
    DrainOrdered(Wrap32(p.relData.ord + 1), t.queue);
    hide Drain, Wrap32, IsDisconnect, NotOld;
  }

  lemma {:induction false} OnlyOrderedOut(s: Session, r: RecvState, arrivals: seq<Arrival>)
    requires s.Valid() && InStep(s, r) && s.HasAll(arrivals)
    requires AllOrdered(s.sent)
    requires Outcomes(s, r, arrivals).Done?
    ensures AllOrdered(Outcomes(s, r, arrivals).out) && OrderedQueue(Outcomes(s, r, arrivals).state.queue)
  {
    hide Step, InStep, OrderedQueue, Session.Valid, Session.Frags, Pieces, NeedsSplit;
    if arrivals == [] {
      assert OrderedQueue(r.queue) by { EmptyQueue(s, r); }
    } else {
      var before, a := arrivals[..|arrivals| - 1], arrivals[|arrivals| - 1];
      assert s.PacketsOf(arrivals)[..|before|] == s.PacketsOf(before);
      OnlyOrderedOut(s, r, before);
      FragmentFacts(s, a.msg, a.frag);
      StepOrdered(Outcomes(s, r, before).state, s.At(a));
    }
  }

  lemma EmptyQueue(s: Session, r: RecvState)
    requires InStep(s, r)
    ensures OrderedQueue(r.queue)
  {
  }
}
