/**
 * Which messages of a session become whole on a run, in which order and how often: every one that
 * needs no order is delivered then, again if its fragments come again.
 */
module Completing {
  import opened Words
  import opened Packets
  import opened Sending
  import opened Receiving
  import opened Ordering
  import opened Sessions
  import opened Reassembly
  import opened Delivery
  import opened Unordered
  import opened Numbering

  /** The message that an arrival completes, unless it is a disconnect notification. */
  function CompletedBy(s: Session, o: Outcome, a: Arrival): (js: seq<nat>)
    requires s.Has(a)
    ensures |js| <= 1 && forall j :: j in js ==> j == a.msg
  {
    if o.Done? && Assemble(o.state.splits, s.At(a)).Whole? && !IsDisconnect(s.sent[a.msg].data) then [a.msg] else []
  }

  /** The messages of a run in the order in which they become whole, repeats included. */
  function Completions(s: Session, r: RecvState, arrivals: seq<Arrival>): (js: seq<nat>)
    requires s.HasAll(arrivals)
    ensures Listed(s.sent, js)
  {
    if arrivals == [] then []
    else
      var before := arrivals[..|arrivals| - 1];
      Completions(s, r, before) + CompletedBy(s, Outcomes(s, r, before), arrivals[|arrivals| - 1])
  }

  lemma CompletionsNext(s: Session, r: RecvState, arrivals: seq<Arrival>, a: Arrival)
    requires s.HasAll(arrivals) && s.Has(a)
    ensures s.HasAll(arrivals + [a])
    ensures Completions(s, r, arrivals + [a]) ==
            Completions(s, r, arrivals) + CompletedBy(s, Outcomes(s, r, arrivals), a)
  {
    hide CompletedBy, Run, Session.Frags;
    assert (arrivals + [a])[..|arrivals|] == arrivals;
  }

  /** Message `j` has arrived whole and is no disconnect notification. */
  ghost predicate Arrived(s: Session, arrivals: seq<Arrival>, j: nat) {
    j < |s.sent| && !IsDisconnect(s.sent[j].data) && s.Full(arrivals, j)
  }

  /** One arrival. */
  lemma CompletesOne(s: Session, arrivals: seq<Arrival>, o: Outcome, a: Arrival)
    requires s.Valid() && s.HasAll(arrivals) && s.Has(a) && Inv(s, arrivals, o) && Acceptable(s, arrivals, o, a)
    ensures s.HasAll(arrivals + [a])
    ensures forall j :: Arrived(s, arrivals + [a], j) <==> Arrived(s, arrivals, j) || j in CompletedBy(s, o, a)
    ensures Listed(s.sent, CompletedBy(s, o, a))
    ensures Step(o.state, s.At(a)).Done?
    ensures Plain(Step(o.state, s.At(a)).out) == Plain(Messages(s.sent, CompletedBy(s, o, a)))
  {
    ArrivesByCompleting(s, arrivals, o, a);
    StepPlainAgain(s, arrivals, o, a);
    hide Inv, Acceptable, Step, Plain, Session.Frags, Session.Full, Assemble, IsDisconnect, Arrived;
    var js := CompletedBy(s, o, a);
    if js != [] {
      assert Messages(s.sent, js) == [s.sent[a.msg]];
    } else {
      assert Messages(s.sent, js) == [];
    }
    PlainOne(s.sent[a.msg]);
  }

  lemma ArrivesByCompleting(s: Session, arrivals: seq<Arrival>, o: Outcome, a: Arrival)
    requires s.Valid() && s.HasAll(arrivals) && s.Has(a) && Inv(s, arrivals, o) && Acceptable(s, arrivals, o, a)
    ensures s.HasAll(arrivals + [a])
    ensures forall j :: Arrived(s, arrivals + [a], j) <==> Arrived(s, arrivals, j) || j in CompletedBy(s, o, a)
  {
    FragmentArrives(s, arrivals, o.state.splits, a);
    ArrivedNext(s, arrivals, a);
    hide SplitInv, OrderInv, Session.Frags, Session.Full, Assemble, IsDisconnect, NoCollision, Have, DisconnectComplete;
  }

  lemma ArrivedNext(s: Session, arrivals: seq<Arrival>, a: Arrival)
    requires s.Has(a)
    ensures forall j :: Arrived(s, arrivals, j) ==> Arrived(s, arrivals + [a], j)
    ensures forall j :: j != a.msg && Arrived(s, arrivals + [a], j) ==> Arrived(s, arrivals, j)
  {
    hide Session.Frags, IsDisconnect;
    forall j: nat | j < |s.sent|
      ensures Arrived(s, arrivals, j) ==> Arrived(s, arrivals + [a], j)
      ensures j != a.msg && Arrived(s, arrivals + [a], j) ==> Arrived(s, arrivals, j)
    {
      FullNext(s, arrivals, a, j);
    }
  }

  lemma StepPlainAgain(s: Session, arrivals: seq<Arrival>, o: Outcome, a: Arrival)
    requires s.Valid() && s.HasAll(arrivals) && s.Has(a) && Inv(s, arrivals, o) && Acceptable(s, arrivals, o, a)
    ensures Step(o.state, s.At(a)).Done?
    ensures Plain(Step(o.state, s.At(a)).out) ==
            if CompletedBy(s, o, a) != [] && IsPlain(s.sent[a.msg]) then [s.sent[a.msg]] else []
  {
    QueueIsOrdered(s, arrivals, o);
    FragmentArrives(s, arrivals, o.state.splits, a);
    FragmentFacts(s, a.msg, a.frag);
    hide SplitInv, OrderInv, Deliver, Session.Full, Session.Frags, Assemble, Pieces, NeedsSplit;
    hide OrderedQueue, IsPlain, IsDisconnect;
    match Assemble(o.state.splits, s.At(a))
    case Held(splits) =>
    case Whole(splits, data) =>
      SameQueue(o.state, splits);
      DeliverPlain(o.state.(splits := splits), s.At(a).relData, s.sent[a.msg]);
  }

  /**
   * Every run: exactly the messages all of whose fragments have arrived become whole, and of those
   * that need no order, exactly what becomes whole is delivered, in that order, repeats included.
   */
  lemma {:induction false} PlainDelivery(s: Session, r: RecvState, arrivals: seq<Arrival>)
    requires s.Valid() && InStep(s, r) && s.HasAll(arrivals) && Orderly(s, r, arrivals)
    ensures forall j :: j in Completions(s, r, arrivals) <==> Arrived(s, arrivals, j)
    ensures Outcomes(s, r, arrivals).Done?
    ensures Plain(Outcomes(s, r, arrivals).out) == Plain(Messages(s.sent, Completions(s, r, arrivals)))
    decreases arrivals, 1
  {
    if arrivals == [] {
      NothingArrives(s, r);
    } else {
      PlainDeliveryLast(s, r, arrivals);
    }
  }

  lemma NothingArrives(s: Session, r: RecvState)
    ensures Completions(s, r, []) == [] && Outcomes(s, r, []) == Done(r, [], false)
    ensures Messages(s.sent, []) == [] && Plain([]) == []
    ensures forall j :: !Arrived(s, [], j)
  {
    assert s.PacketsOf([]) == [];
    forall j: nat | j < |s.sent| ensures !s.Full([], j) {
      PiecesAreExact(s.sent[j]);
      assert Arrival(j, 0) !in [];
    }
  }

  lemma {:induction false} PlainDeliveryLast(s: Session, r: RecvState, arrivals: seq<Arrival>)
    requires s.Valid() && InStep(s, r) && s.HasAll(arrivals) && Orderly(s, r, arrivals) && arrivals != []
    ensures forall j :: j in Completions(s, r, arrivals) <==> Arrived(s, arrivals, j)
    ensures Outcomes(s, r, arrivals).Done?
    ensures Plain(Outcomes(s, r, arrivals).out) == Plain(Messages(s.sent, Completions(s, r, arrivals)))
    decreases arrivals, 0
  {
    hide *;
    OrderlyLast(s, r, arrivals);
    var before, a := arrivals[..|arrivals| - 1], arrivals[|arrivals| - 1];
    PlainDelivery(s, r, before);
    InvHolds(s, r, before);
    var o := Outcomes(s, r, before);
    CompletesOne(s, before, o, a);
    CompletionsNext(s, r, before, a);
    OutcomesNext(s, r, before, a);
    var js, ks := Completions(s, r, before), CompletedBy(s, o, a);
    MessagesConcat(s.sent, js, ks);
    PlainAppends(Messages(s.sent, js), Messages(s.sent, ks));
    PlainAppends(o.out, Step(o.state, s.At(a)).out);
  }

  lemma MessagesConcat(sent: seq<Packet>, js: seq<nat>, ks: seq<nat>)
    requires Listed(sent, js) && Listed(sent, ks)
    ensures Listed(sent, js + ks) && Messages(sent, js + ks) == Messages(sent, js) + Messages(sent, ks)
  {
  }

  // How often

  /** Whether the receiver holds fragment `i` of message `j`. */
  ghost predicate Holds(s: Session, arrivals: seq<Arrival>, splits: map<u16, Parts>, j: nat, i: nat)
    requires s.HasAll(arrivals) && j < |s.sent|
  {
    var id := s.SplitId(j);
    && NeedsSplit(s.sent[j]) && id in splits && s.Owner(arrivals, id) == Some(j)
    && i < |splits[id]| && splits[id][i].Some?
  }

  function One(b: bool): nat {
    if b then 1 else 0
  }

  /** How often fragment `i` of message `j` has arrived. */
  function Times(arrivals: seq<Arrival>, j: nat, i: nat): nat {
    multiset(arrivals)[Arrival(j, i)]
  }

  lemma TimesNext(arrivals: seq<Arrival>, a: Arrival, j: nat, i: nat)
    ensures Times(arrivals + [a], j, i) == Times(arrivals, j, i) + One(a == Arrival(j, i))
  {
  }

  lemma ElsewhereUnchanged(splits: map<u16, Parts>, p: RaknetPacket, id: u16)
    requires p.splitPacketInfo.Some? ==> p.splitPacketInfo.value.id != id
    ensures var m := Assemble(splits, p);
            !m.Fault? ==> (id in m.splits <==> id in splits) && (id in splits ==> m.splits[id] == splits[id])
  {
    hide Complete, Assembled;
  }

  /** Reassembly fills the place of the packet's index in its entry, or takes the full entry away. */
  lemma AssembleOwn(splits: map<u16, Parts>, p: RaknetPacket, i: nat)
    requires p.splitPacketInfo.Some?
    ensures var m, info := Assemble(splits, p), p.splitPacketInfo.value;
            var before := info.id in splits && i < |splits[info.id]| && splits[info.id][i].Some?;
            && (m.Held? && info.id in m.splits && i < |m.splits[info.id]| && m.splits[info.id][i].Some? ==>
                  before || i == info.index)
            && (m.Whole? ==> info.id !in m.splits && info.id in splits)
            && (m.Whole? && i < |splits[info.id]| ==> before || i == info.index)
  {
    hide Assembled;
    var m, info := Assemble(splits, p), p.splitPacketInfo.value;
    if info.id in splits && info.index < |splits[info.id]| {
      var parts := splits[info.id][info.index := Some(p.data)];
      if i < |parts| {
        assert parts[i] == if i == info.index then Some(p.data) else splits[info.id][i];
      }
    } else if m.Held? && i < |m.splits[info.id]| && i != info.index {
      assert EmptyParts(info.count)[i] == None;
    }
  }

  /** A fragment of another message gives the receiver none of this one. */
  lemma HoldsNoMore(s: Session, arrivals: seq<Arrival>, splits: map<u16, Parts>, a: Arrival, j: nat, i: nat)
    requires s.Valid() && s.HasAll(arrivals) && s.Has(a) && j < |s.sent| && a.msg != j
    ensures s.HasAll(arrivals + [a])
    ensures var m := Assemble(splits, s.At(a));
            !m.Fault? ==> Holds(s, arrivals + [a], m.splits, j, i) ==> Holds(s, arrivals, splits, j, i)
  {
    FragmentFacts(s, a.msg, a.frag);
    OwnerNext(s, arrivals, a);
    hide Session.Frags, Session.SplitId, Session.Owner, NeedsSplit, Pieces, Assemble;
    if !(NeedsSplit(s.sent[a.msg]) && s.SplitId(a.msg) == s.SplitId(j)) {
      ElsewhereUnchanged(splits, s.At(a), s.SplitId(j));
    }
  }

  /** The fragments that complete a message are the ones held and the one that arrives; none is held then. */
  lemma HoldsOwn(s: Session, arrivals: seq<Arrival>, splits: map<u16, Parts>, a: Arrival, i: nat)
    requires s.Valid() && s.HasAll(arrivals) && s.Has(a) && EntriesHold(s, arrivals, splits)
    requires NoCollision(s, arrivals, splits, a) && i < |s.Frags(a.msg)|
    ensures s.HasAll(arrivals + [a])
    ensures var m, before := Assemble(splits, s.At(a)), Holds(s, arrivals, splits, a.msg, i);
            && (m.Held? ==> Holds(s, arrivals + [a], m.splits, a.msg, i) ==> before || i == a.frag)
            && (m.Whole? ==> !Holds(s, arrivals + [a], m.splits, a.msg, i) && (before || i == a.frag))
  {
    FragmentFacts(s, a.msg, a.frag);
    OwnerNext(s, arrivals, a);
    hide Session.Frags, Session.SplitId, Session.Owner, NeedsSplit, Pieces, Assemble;
    var id := s.SplitId(a.msg);
    if NeedsSplit(s.sent[a.msg]) {
      AssembleOwn(splits, s.At(a), i);
      if id in splits {
        assert EntryOf(s, arrivals, a.msg, splits[id]);
      }
    }
  }

  /** What an arrival adds to the completions of message `j` and to the fragments held of it. */
  lemma CountsNext(s: Session, arrivals: seq<Arrival>, o: Outcome, a: Arrival, j: nat, i: nat)
    requires s.Valid() && s.HasAll(arrivals) && s.Has(a) && Inv(s, arrivals, o) && Acceptable(s, arrivals, o, a)
    requires j < |s.sent| && i < |s.Frags(j)|
    ensures s.HasAll(arrivals + [a]) && Step(o.state, s.At(a)).Done?
    ensures multiset(CompletedBy(s, o, a))[j] + One(Holds(s, arrivals + [a], Step(o.state, s.At(a)).state.splits, j, i))
              <= One(Holds(s, arrivals, o.state.splits, j, i)) + One(a == Arrival(j, i))
    ensures !NeedsSplit(s.sent[j]) && !IsDisconnect(s.sent[j].data) ==>
              multiset(CompletedBy(s, o, a))[j] == One(a == Arrival(j, i))
  {
    FragmentArrives(s, arrivals, o.state.splits, a);
    StepSplits(o.state, s.At(a));
    FragmentFacts(s, a.msg, a.frag);
    FragmentFacts(s, j, i);
    hide Step, OrderInv, NothingForgotten, EntryOf, Session.Frags, Session.SplitId, NeedsSplit, Pieces, Holds;
    hide IsDisconnect, Complete, Assembled;
    if a.msg == j {
      HoldsOwn(s, arrivals, o.state.splits, a, i);
    } else {
      HoldsNoMore(s, arrivals, o.state.splits, a, j, i);
    }
    hide Assemble, NoCollision, Progressed, Acceptable, Inv;
  }

  /**
   * How often a message becomes whole: no more often than each of its fragments has arrived, and one
   * that is not split exactly as often as it has arrived.
   */
  lemma {:induction false} CompletionCounts(s: Session, r: RecvState, arrivals: seq<Arrival>, j: nat, i: nat)
    requires s.Valid() && InStep(s, r) && s.HasAll(arrivals) && Orderly(s, r, arrivals)
    requires j < |s.sent| && i < |s.Frags(j)|
    ensures Outcomes(s, r, arrivals).Done?
    ensures multiset(Completions(s, r, arrivals))[j] +
            One(Holds(s, arrivals, Outcomes(s, r, arrivals).state.splits, j, i)) <= Times(arrivals, j, i)
    ensures !NeedsSplit(s.sent[j]) && !IsDisconnect(s.sent[j].data) ==>
              multiset(Completions(s, r, arrivals))[j] == Times(arrivals, j, i)
    decreases arrivals, 1
  {
    if arrivals == [] {
      NothingArrives(s, r);
      NothingHeld(s, r, j, i);
    } else {
      CompletionCountsLast(s, r, arrivals, j, i);
    }
  }

  lemma NothingHeld(s: Session, r: RecvState, j: nat, i: nat)
    requires InStep(s, r) && j < |s.sent|
    ensures !Holds(s, [], r.splits, j, i) && Times([], j, i) == 0
  {
  }

  lemma {:induction false} CompletionCountsLast(s: Session, r: RecvState, arrivals: seq<Arrival>, j: nat, i: nat)
    requires s.Valid() && InStep(s, r) && s.HasAll(arrivals) && Orderly(s, r, arrivals) && arrivals != []
    requires j < |s.sent| && i < |s.Frags(j)|
    ensures Outcomes(s, r, arrivals).Done?
    ensures multiset(Completions(s, r, arrivals))[j] +
            One(Holds(s, arrivals, Outcomes(s, r, arrivals).state.splits, j, i)) <= Times(arrivals, j, i)
    ensures !NeedsSplit(s.sent[j]) && !IsDisconnect(s.sent[j].data) ==>
              multiset(Completions(s, r, arrivals))[j] == Times(arrivals, j, i)
    decreases arrivals, 0
  {
    hide *;
    OrderlyLast(s, r, arrivals);
    var before, a := arrivals[..|arrivals| - 1], arrivals[|arrivals| - 1];
    CompletionCounts(s, r, before, j, i);
    InvHolds(s, r, before);
    CountsNext(s, before, Outcomes(s, r, before), a, j, i);
    CompletionsNext(s, r, before, a);
    OutcomesNext(s, r, before, a);
    TimesNext(before, a, j, i);
    MultisetConcat(Completions(s, r, before), CompletedBy(s, Outcomes(s, r, before), a), j);
  }

  lemma MultisetConcat(js: seq<nat>, ks: seq<nat>, j: nat)
    ensures multiset(js + ks)[j] == multiset(js)[j] + multiset(ks)[j]
  {
  }
}
