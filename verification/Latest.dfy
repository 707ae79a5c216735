/**
 * Sequenced messages over the runs of a session: which of them are delivered, whatever else the
 * session sends and however its fragments are lost, repeated and reordered.
 */
module Latest {
  import opened Words
  import opened Packets
  import opened Sending
  import opened Receiving
  import opened Ordering
  import opened Sessions
  import opened Reassembly
  import opened Delivery
  import opened Permutations
  import opened Sequenced
  import opened Numbering
  import opened Completing

  // The indices on the wire

  lemma {:induction false} UnrelSeqAfter(s: SendState, ps: seq<Packet>)
    ensures StateAfter(s, ps).unrelSeqIndex == Wrap32(s.unrelSeqIndex + |SequencedOnly(ps)|)
  {
    if ps != [] {
      var init := ps[..|ps| - 1];
      UnrelSeqAfter(s, init);
      WrapNext(s.unrelSeqIndex + |SequencedOnly(init)|, 1);
      hide Wrap32, Wrap16, Pieces;
    }
  }

  /** A fragment of a sequenced message carries the wrapped number of the message. */
  lemma SequencedFacts(s: Session, j: nat, i: nat)
    requires s.Valid() && j < |s.sent| && i < |s.Frags(j)|
    ensures s.Frags(j)[i].relData.UnreliableSequencedData? <==> s.sent[j].reliability.UnreliableSequenced?
    ensures s.sent[j].reliability.UnreliableSequenced? ==>
              s.Frags(j)[i].relData == UnreliableSequencedData(Wrap32(s.start.unrelSeqIndex + SeqOrd(s.sent, j)))
  {
    UnrelSeqAfter(s.start, s.sent[..j]);
    FragmentsAreExact(s.Before(j), s.sent[j], i);
    hide StateAfter, NeedsSplit, Pieces, Wrap32;
  }

  // What the receiver sees

  /** The sequenced messages of a run in the order in which they become whole, repeats included. */
  function SeqCompletions(s: Session, r: RecvState, arrivals: seq<Arrival>): (js: seq<nat>)
    requires s.HasAll(arrivals)
    ensures AllSequenced(s.sent, js)
  {
    SequencedOf(s.sent, Completions(s, r, arrivals))
  }

  /** What an arrival completes is what the receiver's filter is given, under its wrapped number. */
  lemma CompletedWhole(s: Session, arrivals: seq<Arrival>, o: Outcome, a: Arrival)
    requires s.Valid() && s.HasAll(arrivals) && s.Has(a) && Inv(s, arrivals, o) && Acceptable(s, arrivals, o, a)
    ensures SeqWhole(o.state, s.At(a)) ==
            Wrapped(ItemsOf(s.start.unrelSeqIndex, s.sent, SequencedOf(s.sent, CompletedBy(s, o, a))))
  {
    hide Inv, Acceptable, Session.Frags, Assemble, SequencedOf, IsDisconnect, SeqOrd, Wrap32;
    WholeIsSent(s, arrivals, o, a);
    SequencedFacts(s, a.msg, a.frag);
    SequencedOfNext(s.sent, [], a.msg);
    assert [] + [a.msg] == [a.msg];
    var base, js := s.start.unrelSeqIndex, SequencedOf(s.sent, CompletedBy(s, o, a));
    if js == [] {
      assert Wrapped(ItemsOf(base, s.sent, js)) == [];
    } else {
      OneWrapped(base, s.sent, a.msg);
    }
  }

  lemma WholeIsSent(s: Session, arrivals: seq<Arrival>, o: Outcome, a: Arrival)
    requires s.Valid() && s.HasAll(arrivals) && s.Has(a) && Inv(s, arrivals, o) && Acceptable(s, arrivals, o, a)
    ensures o.Done?
    ensures var m := Assemble(o.state.splits, s.At(a));
            m.Whole? ==> m.data == s.sent[a.msg].data
  {
    FragmentArrives(s, arrivals, o.state.splits, a);
    hide SplitInv, OrderInv, Session.Frags, Session.Full, Assemble, NoCollision, Have, DisconnectComplete;
  }

  /** What completes, in order, is what the receiver's filter is given. */
  lemma {:induction false} WholesAreCompletions(s: Session, r: RecvState, arrivals: seq<Arrival>)
    requires s.Valid() && InStep(s, r) && s.HasAll(arrivals) && Orderly(s, r, arrivals)
    ensures SeqWholes(r, s.PacketsOf(arrivals)) ==
            Wrapped(ItemsOf(s.start.unrelSeqIndex, s.sent, SeqCompletions(s, r, arrivals)))
    decreases arrivals, 1
  {
    if arrivals == [] {
      NothingCompletes(s, r);
    } else {
      WholesAreCompletionsLast(s, r, arrivals);
    }
  }

  lemma NothingCompletes(s: Session, r: RecvState)
    ensures s.PacketsOf([]) == [] && SeqWholes(r, []) == []
    ensures Wrapped(ItemsOf(s.start.unrelSeqIndex, s.sent, SeqCompletions(s, r, []))) == []
  {
  }

  lemma {:induction false} WholesAreCompletionsLast(s: Session, r: RecvState, arrivals: seq<Arrival>)
    requires s.Valid() && InStep(s, r) && s.HasAll(arrivals) && Orderly(s, r, arrivals) && arrivals != []
    ensures SeqWholes(r, s.PacketsOf(arrivals)) ==
            Wrapped(ItemsOf(s.start.unrelSeqIndex, s.sent, SeqCompletions(s, r, arrivals)))
    decreases arrivals, 0
  {
    hide *;
    OrderlyLast(s, r, arrivals);
    var before, a := arrivals[..|arrivals| - 1], arrivals[|arrivals| - 1];
    WholesAreCompletions(s, r, before);
    InvHolds(s, r, before);
    var o := Outcomes(s, r, before);
    CompletedWhole(s, before, o, a);
    SeqCompletionsNext(s, r, before, a);
    SeqWholesNext(s, r, before, a);
    WrappedItemsConcat(
      s.start.unrelSeqIndex, s.sent, SeqCompletions(s, r, before), SequencedOf(s.sent, CompletedBy(s, o, a)));
  }

  lemma SeqCompletionsNext(s: Session, r: RecvState, arrivals: seq<Arrival>, a: Arrival)
    requires s.HasAll(arrivals) && s.Has(a)
    ensures s.HasAll(arrivals + [a])
    ensures SeqCompletions(s, r, arrivals + [a]) ==
            SeqCompletions(s, r, arrivals) + SequencedOf(s.sent, CompletedBy(s, Outcomes(s, r, arrivals), a))
  {
    CompletionsNext(s, r, arrivals, a);
    hide Completions, CompletedBy, SequencedOf, Outcomes, Session.Has, AllSequenced, Listed;
    SequencedOfAppends(s.sent, Completions(s, r, arrivals), CompletedBy(s, Outcomes(s, r, arrivals), a));
  }

  lemma SeqWholesNext(s: Session, r: RecvState, arrivals: seq<Arrival>, a: Arrival)
    requires s.HasAll(arrivals) && s.Has(a) && Outcomes(s, r, arrivals).Done?
    ensures s.HasAll(arrivals + [a])
    ensures SeqWholes(r, s.PacketsOf(arrivals + [a])) ==
            SeqWholes(r, s.PacketsOf(arrivals)) + SeqWhole(Outcomes(s, r, arrivals).state, s.At(a))
  {
    hide SeqWhole, Run, Session.Frags;
    var ps := s.PacketsOf(arrivals + [a]);
    assert ps[..|ps| - 1] == s.PacketsOf(arrivals);
  }

  // The theorem

  /** The receiver expects the sender's next sequence number, too. */
  predicate SeqInStep(s: Session, r: RecvState) {
    InStep(s, r) && r.unrelSeqIndex == s.start.unrelSeqIndex
  }

  /** Every sequenced message becomes whole inside the window of the number expected then. */
  ghost predicate SeqInWindow(s: Session, r: RecvState, arrivals: seq<Arrival>)
    requires s.HasAll(arrivals)
  {
    InWindowRun(s.start.unrelSeqIndex, ItemsOf(s.start.unrelSeqIndex, s.sent, SeqCompletions(s, r, arrivals)))
  }

  /**
   * Sequenced delivery over the runs of a session, across any wraparound. The sequenced messages
   * delivered are exactly those that become whole later than every earlier one, so they come out in
   * the order sent and each at most once; and of the messages that have arrived whole the last one
   * sent has been delivered.
   */
  lemma SequencedDelivery(s: Session, r: RecvState, arrivals: seq<Arrival>)
    requires s.Valid() && SeqInStep(s, r) && s.HasAll(arrivals) && Orderly(s, r, arrivals)
    requires SeqInWindow(s, r, arrivals)
    ensures var js := SeqCompletions(s, r, arrivals);
            && (forall j :: j in js <==> IsSequenced(s.sent, j) && Arrived(s, arrivals, j))
            && AllSequenced(s.sent, Records(js))
            && Outcomes(s, r, arrivals).Done?
            && SequencedOnly(Outcomes(s, r, arrivals).out) == Messages(s.sent, Records(js))
            && (forall i, k :: 0 <= i < k < |Records(js)| ==> Records(js)[i] < Records(js)[k])
            && (forall j :: j in js ==> Records(js) != [] && j <= Records(js)[|Records(js)| - 1])
  {
    var base, js := s.start.unrelSeqIndex, SeqCompletions(s, r, arrivals);
    PlainDelivery(s, r, arrivals);
    StartsInStep(s, r);
    assert InWindowRun(base, ItemsOf(base, s.sent, js));
    assert Outcomes(s, r, arrivals) == Run(r, s.PacketsOf(arrivals));
    hide *;
    WholesAreCompletions(s, r, arrivals);
    NewestAreRecords(base, s.sent, js);
    RecordsIncrease(js);
    SequencedIncrease(r, base, s.PacketsOf(arrivals), ItemsOf(base, s.sent, js));
  }

  lemma StartsInStep(s: Session, r: RecvState)
    requires SeqInStep(s, r)
    ensures InStep(s, r) && OrderedQueue(r.queue) && r.unrelSeqIndex == Wrap32(s.start.unrelSeqIndex)
  {
  }

  /** With at most 2^31-1 sequenced messages no run leaves the window. */
  lemma FewStayInWindow(s: Session, r: RecvState, arrivals: seq<Arrival>)
    requires s.HasAll(arrivals) && |SequencedOnly(s.sent)| <= 0x7fff_ffff
    ensures SeqInWindow(s, r, arrivals)
  {
    FewInWindow(s.start.unrelSeqIndex, s.sent, SeqCompletions(s, r, arrivals));
    hide SeqCompletions, ItemsOf, SequencedOnly, Expected;
  }

  /**
   * The sender's packets in any permutation and any batches: the sequenced messages delivered are
   * some of those sent, in the order sent and each at most once, and the last one is among them.
   */
  lemma AnyPermutationKeepsLatest(s: Session, r: RecvState, batches: seq<seq<RaknetPacket>>) returns (js: seq<nat>)
    requires s.Valid() && SeqInStep(s, r) && Small(s) && |SequencedOnly(s.sent)| <= 0x7fff_ffff
    requires multiset(Flatten(batches)) == multiset(Flatten(Wire(s.start, s.sent)))
    ensures AllSequenced(s.sent, js) && forall i, k :: 0 <= i < k < |js| ==> js[i] < js[k]
    ensures RunBatches(r, batches).Done? && SequencedOnly(RunBatches(r, batches).out) == Messages(s.sent, js)
    ensures forall j: nat :: IsSequenced(s.sent, j) && !IsDisconnect(s.sent[j].data) ==>
              js != [] && j <= js[|js| - 1]
  {
    hide *;
    var arrivals := ArrivalsOf(s, Flatten(batches));
    BatchingIsIrrelevant(r, batches);
    StartsInStep(s, r);
    PermutationArrives(s, arrivals);
    SmallIsOrderly(s, r, arrivals);
    FewStayInWindow(s, r, arrivals);
    OutcomesAreRun(s, r, arrivals);
    SequencedDelivery(s, r, arrivals);
    js := Records(SeqCompletions(s, r, arrivals));
  }

  lemma PermutationArrives(s: Session, arrivals: seq<Arrival>)
    requires IsPermutation(s, arrivals)
    ensures s.HasAll(arrivals)
    ensures forall j: nat :: IsSequenced(s.sent, j) && !IsDisconnect(s.sent[j].data) ==> Arrived(s, arrivals, j)
  {
    hide Session.Frags, Session.Full, IsDisconnect;
  }

  lemma OutcomesAreRun(s: Session, r: RecvState, arrivals: seq<Arrival>)
    requires s.HasAll(arrivals)
    ensures Outcomes(s, r, arrivals) == Run(r, s.PacketsOf(arrivals))
  {
  }
}
