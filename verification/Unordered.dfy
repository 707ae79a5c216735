/** Messages that need no order: in any permutation each is delivered exactly once. */
module Unordered {
  import opened Words
  import opened Packets
  import opened Sending
  import opened Receiving
  import opened Ordering
  import opened Sessions
  import opened Reassembly
  import opened Delivery

  predicate IsPlain(p: Packet) {
    p.reliability.Unreliable? || p.reliability.Reliable?
  }

  /** The packets of a list that are delivered without regard to order. */
  function Plain(ps: seq<Packet>): seq<Packet> {
    if ps == [] then []
    else
      var before, last := Plain(ps[..|ps| - 1]), ps[|ps| - 1];
      if IsPlain(last) then before + [last] else before
  }

  ghost predicate PlainDone(s: Session, arrivals: seq<Arrival>, j: nat)
    requires j < |s.sent|
  {
    IsPlain(s.sent[j]) && !IsDisconnect(s.sent[j].data) && s.Full(arrivals, j)
  }

  /** Those of the first `k` messages of a session that have arrived whole. */
  ghost function PlainArrived(s: Session, arrivals: seq<Arrival>, k: nat): multiset<Packet>
    requires k <= |s.sent|
  {
    if k == 0 then multiset{}
    else PlainArrived(s, arrivals, k - 1) + OnceIf(PlainDone(s, arrivals, k - 1), s.sent[k - 1])
  }

  function OnceIf(b: bool, p: Packet): multiset<Packet> {
    if b then multiset{p} else multiset{}
  }

  lemma {:induction false} PlainArrivedNext(s: Session, arrivals: seq<Arrival>, a: Arrival, k: nat)
    requires k <= |s.sent| && s.Has(a) && !s.Full(arrivals, a.msg)
    ensures PlainArrived(s, arrivals + [a], k) ==
            PlainArrived(s, arrivals, k) + OnceIf(a.msg < k && PlainDone(s, arrivals + [a], a.msg), s.sent[a.msg])
  {
    hide *;
    HasMessage(s, a);
    PlainArrivedNone(s, arrivals, s.sent[a.msg]);
    PlainArrivedNone(s, arrivals + [a], s.sent[a.msg]);
    if k > 0 {
      PlainArrivedNext(s, arrivals, a, k - 1);
      PlainArrivedStep(s, arrivals, a, k);
    }
  }

  lemma HasMessage(s: Session, a: Arrival)
    requires s.Has(a)
    ensures a.msg < |s.sent|
  {
  }

  lemma PlainArrivedNone(s: Session, arrivals: seq<Arrival>, p: Packet)
    ensures PlainArrived(s, arrivals, 0) == multiset{} && OnceIf(false, p) == multiset{}
  {
  }

  lemma PlainArrivedLast(s: Session, arrivals: seq<Arrival>, k: nat)
    requires 0 < k <= |s.sent|
    ensures PlainArrived(s, arrivals, k) ==
            PlainArrived(s, arrivals, k - 1) + OnceIf(PlainDone(s, arrivals, k - 1), s.sent[k - 1])
  {
    hide PlainDone, OnceIf;
  }

  lemma PlainArrivedStep(s: Session, arrivals: seq<Arrival>, a: Arrival, k: nat)
    requires 0 < k <= |s.sent| && s.Has(a) && !s.Full(arrivals, a.msg)
    requires PlainArrived(s, arrivals + [a], k - 1) ==
             PlainArrived(s, arrivals, k - 1) +
             OnceIf(a.msg < k - 1 && PlainDone(s, arrivals + [a], a.msg), s.sent[a.msg])
    ensures PlainArrived(s, arrivals + [a], k) ==
            PlainArrived(s, arrivals, k) + OnceIf(a.msg < k && PlainDone(s, arrivals + [a], a.msg), s.sent[a.msg])
  {
    hide *;
    HasMessage(s, a);
    var done := PlainDone(s, arrivals + [a], a.msg);
    PlainArrivedLast(s, arrivals, k);
    PlainArrivedLast(s, arrivals + [a], k);
    DoneNext(s, arrivals, a, k - 1);
    NeverIsEmpty(s.sent[a.msg]);
    Shuffle(
      PlainArrived(s, arrivals, k - 1),
      OnceIf(a.msg < k - 1 && done, s.sent[a.msg]),
      OnceIf(PlainDone(s, arrivals + [a], k - 1), s.sent[k - 1]));
  }

  lemma Shuffle<T>(a: multiset<T>, x: multiset<T>, y: multiset<T>)
    ensures a + x + y == a + y + x
    ensures a + multiset{} == a
  {
  }

  lemma NeverIsEmpty(p: Packet)
    ensures OnceIf(false, p) == multiset{}
  {
  }

  lemma DoneNext(s: Session, arrivals: seq<Arrival>, a: Arrival, j: nat)
    requires s.Has(a) && !s.Full(arrivals, a.msg) && j < |s.sent|
    ensures j != a.msg ==> (PlainDone(s, arrivals + [a], j) <==> PlainDone(s, arrivals, j))
    ensures !PlainDone(s, arrivals, a.msg)
  {
    hide Session.Full, Session.Frags;
    FullNext(s, arrivals, a, j);
  }

  lemma {:induction false} PlainAppends(a: seq<Packet>, b: seq<Packet>)
    ensures Plain(a + b) == Plain(a) + Plain(b)
  {
    if b == [] {
      assert a + b == a;
    } else {
      PlainAppends(a, b[..|b| - 1]);
      assert (a + b)[..|a + b| - 1] == a + b[..|b| - 1];
    }
  }

  lemma PlainOne(p: Packet)
    ensures Plain([]) == [] && Plain([p]) == if IsPlain(p) then [p] else []
  {
    assert [p][..0] == [];
  }

  lemma {:induction false} OrderedAreNotPlain(ps: seq<Packet>)
    requires AllOrdered(ps)
    ensures Plain(ps) == []
  {
    if ps != [] {
      OrderedAreNotPlain(ps[..|ps| - 1]);
    }
  }

  /** The queue of an orderly run holds ordered packets only. */
  lemma QueueIsOrdered(s: Session, arrivals: seq<Arrival>, o: Outcome)
    requires s.HasAll(arrivals) && Inv(s, arrivals, o)
    ensures OrderedQueue(o.state.queue)
  {
    hide SplitInv, Have, DisconnectComplete, AllKept;
    OrderedAre(s.sent);
    forall k | k in o.state.queue ensures o.state.queue[k].reliability.ReliableOrdered? {
      assert HoldsAt(s.start.relOrdIndex, Ordered(s.sent), |Ordered(o.out)|, k, o.state.queue[k]);
    }
  }

  /** What delivering one whole message adds. */
  lemma DeliverPlain(t: RecvState, rel: ReliabilityData, p: Packet)
    requires OrderedQueue(t.queue) && rel.Kind() == p.reliability
    ensures Plain(Deliver(t, rel, p.data).out) == if IsPlain(p) && !IsDisconnect(p.data) then [p] else []
  {
    var out := Deliver(t, rel, p.data).out;
    if rel.ReliableOrderedData? {
      DrainOrdered(Wrap32(rel.ord + 1), t.queue);
      hide Drain, Wrap32, NotOld, IsDisconnect;
      OrderedAreNotPlain(out);
    } else {
      hide Wrap32, NotOld, IsDisconnect;
      if out != [] {
        assert out[..0] == [];
      }
    }
  }

  lemma StepPlain(s: Session, arrivals: seq<Arrival>, o: Outcome, a: Arrival)
    requires s.Valid() && s.HasAll(arrivals) && s.Has(a) && Inv(s, arrivals, o) && Acceptable(s, arrivals, o, a)
    requires a !in arrivals
    ensures s.HasAll(arrivals + [a]) && Step(o.state, s.At(a)).Done?
    ensures Plain(Step(o.state, s.At(a)).out) ==
            if PlainDone(s, arrivals + [a], a.msg) then [s.sent[a.msg]] else []
  {
    QueueIsOrdered(s, arrivals, o);
    FragmentArrives(s, arrivals, o.state.splits, a);
    FragmentFacts(s, a.msg, a.frag);
    assert !s.Full(arrivals, a.msg) by { assert Arrival(a.msg, a.frag) == a; }
    hide SplitInv, OrderInv, Deliver, Session.Full, Session.Frags, Assemble, Pieces, NeedsSplit;
    hide OrderedQueue, IsPlain, IsDisconnect;
    match Assemble(o.state.splits, s.At(a))
    case Held(splits) =>
    case Whole(splits, data) =>
      SameQueue(o.state, splits);
      DeliverPlain(o.state.(splits := splits), s.At(a).relData, s.sent[a.msg]);
  }

  lemma SameQueue(t: RecvState, splits: map<u16, Parts>)
    ensures OrderedQueue(t.(splits := splits).queue) == OrderedQueue(t.queue)
  {
  }

  lemma {:induction false} PlainOnce(s: Session, r: RecvState, arrivals: seq<Arrival>)
    requires s.Valid() && InStep(s, r) && s.HasAll(arrivals) && Orderly(s, r, arrivals) && Unrepeated(arrivals)
    ensures Outcomes(s, r, arrivals).Done?
    ensures multiset(Plain(Outcomes(s, r, arrivals).out)) == PlainArrived(s, arrivals, |s.sent|)
    decreases arrivals, 1
  {
    if arrivals == [] {
      NoneArrived(s, |s.sent|);
    } else {
      PlainOnceLast(s, r, arrivals);
    }
  }

  lemma {:induction false} NoneArrived(s: Session, k: nat)
    requires k <= |s.sent|
    ensures PlainArrived(s, [], k) == multiset{}
  {
    if k > 0 {
      NoneArrived(s, k - 1);
      PiecesAreExact(s.sent[k - 1]);
      assert Arrival(k - 1, 0) !in [];
    }
  }

  lemma {:induction false} PlainOnceLast(s: Session, r: RecvState, arrivals: seq<Arrival>)
    requires s.Valid() && InStep(s, r) && s.HasAll(arrivals) && Orderly(s, r, arrivals) && Unrepeated(arrivals)
    requires arrivals != []
    ensures Outcomes(s, r, arrivals).Done?
    ensures multiset(Plain(Outcomes(s, r, arrivals).out)) == PlainArrived(s, arrivals, |s.sent|)
    decreases arrivals, 0
  {
    var before, a := arrivals[..|arrivals| - 1], arrivals[|arrivals| - 1];
    OrderlyLast(s, r, arrivals);
    UnrepeatedLast(arrivals);
    assert !s.Full(before, a.msg) by { assert Arrival(a.msg, a.frag) == a; }
    hide *;
    PlainOnce(s, r, before);
    InvHolds(s, r, before);
    StepPlain(s, before, Outcomes(s, r, before), a);
    OutcomesNext(s, r, before, a);
    PlainArrivedNext(s, before, a, |s.sent|);
    PlainAppends(Outcomes(s, r, before).out, Step(Outcomes(s, r, before).state, s.At(a)).out);
    OnceIfIsMultiset(PlainDone(s, arrivals, a.msg), s.sent[a.msg]);
  }

  lemma OnceIfIsMultiset(b: bool, p: Packet)
    ensures OnceIf(b, p) == multiset(if b then [p] else [])
    ensures OnceIf(true && b, p) == OnceIf(b, p)
  {
  }

  lemma UnrepeatedLast(arrivals: seq<Arrival>)
    requires arrivals != [] && Unrepeated(arrivals)
    ensures Unrepeated(arrivals[..|arrivals| - 1]) && arrivals[|arrivals| - 1] !in arrivals[..|arrivals| - 1]
  {
  }

  lemma {:induction false} AllPlainArrived(s: Session, arrivals: seq<Arrival>, k: nat)
    requires k <= |s.sent| && EverythingArrives(s, arrivals) && NoDisconnects(s.sent)
    ensures PlainArrived(s, arrivals, k) == multiset(Plain(s.sent[..k]))
  {
    if k > 0 {
      AllPlainArrived(s, arrivals, k - 1);
      PlainArrivedPrefix(s, arrivals, k);
    } else {
      assert s.sent[..0] == [];
    }
    hide *;
  }

  lemma PlainArrivedPrefix(s: Session, arrivals: seq<Arrival>, k: nat)
    requires 0 < k <= |s.sent| && EverythingArrives(s, arrivals) && NoDisconnects(s.sent)
    requires PlainArrived(s, arrivals, k - 1) == multiset(Plain(s.sent[..k - 1]))
    ensures PlainArrived(s, arrivals, k) == multiset(Plain(s.sent[..k]))
  {
    hide *;
    PlainDoneAll(s, arrivals, k - 1);
    PlainArrivedLast(s, arrivals, k);
    assert s.sent[..k][..k - 1] == s.sent[..k - 1];
    PlainLast(s.sent[..k]);
  }

  lemma PlainDoneAll(s: Session, arrivals: seq<Arrival>, j: nat)
    requires j < |s.sent| && EverythingArrives(s, arrivals) && NoDisconnects(s.sent)
    ensures PlainDone(s, arrivals, j) <==> IsPlain(s.sent[j])
  {
    hide Session.Full, IsPlain, IsDisconnect;
  }

  lemma PlainLast(ps: seq<Packet>)
    requires ps != []
    ensures multiset(Plain(ps)) ==
            multiset(Plain(ps[..|ps| - 1])) + OnceIf(IsPlain(ps[|ps| - 1]), ps[|ps| - 1])
  {
    hide IsPlain;
  }

  /**
   * The sender's packets in any permutation and any batches: every Unreliable and every Reliable
   * message is delivered exactly once.
   */
  lemma AnyOrderDeliversAll(s: Session, r: RecvState, arrivals: seq<Arrival>, batches: seq<seq<RaknetPacket>>)
    requires s.Valid() && InStep(s, r) && Small(s) && NoDisconnects(s.sent)
    requires IsPermutation(s, arrivals) && Flatten(batches) == s.PacketsOf(arrivals)
    ensures RunBatches(r, batches).Done?
    ensures multiset(Plain(RunBatches(r, batches).out)) == multiset(Plain(s.sent))
  {
    BatchingIsIrrelevant(r, batches);
    SmallIsOrderly(s, r, arrivals);
    PlainOnce(s, r, arrivals);
    AllPlainArrived(s, arrivals, |s.sent|);
    assert s.sent[..|s.sent|] == s.sent;
  }
}
