/** Packets that arrive in the order they were sent: the receiver inverts the sender. */
module InOrder {
  import opened Words
  import opened Packets
  import opened Sending
  import opened Receiving

  /** The receiver expects exactly what the sender sends next, and holds nothing. */
  predicate Synchronised(s: SendState, r: RecvState) {
    && r.unrelSeqIndex == s.unrelSeqIndex
    && r.relOrdIndex == s.relOrdIndex
    && r.queue == map[]
    && r.splits == map[]
  }

  /** The entry after the first `k` pieces. */
  function FirstParts(pieces: seq<Bytes>, k: nat): (parts: Parts)
    requires k <= |pieces|
    ensures |parts| == |pieces|
  {
    seq(|pieces|, i requires 0 <= i < |pieces| => if i < k then Some(pieces[i]) else None)
  }

  lemma FirstFragmentHeld(s: SendState, p: Packet, splits: map<u16, Parts>)
    requires Addressable(p) && NeedsSplit(p) && s.splitPacketIndex !in splits
    ensures 2 <= |Fragments(s, p)|
    ensures Assemble(splits, Fragments(s, p)[0]) == Held(splits[s.splitPacketIndex := FirstParts(Pieces(p), 1)])
  {
    var fs := Fragments(s, p);
    PiecesAreExact(p);
    FragmentsAreExact(s, p, 0);
    hide Fragments, NeedsSplit, Pieces;
    assert EmptyParts(|fs|)[0 := Some(fs[0].data)] == FirstParts(Pieces(p), 1);
  }

  lemma NextFragmentHeld(s: SendState, p: Packet, splits: map<u16, Parts>, k: nat)
    requires Addressable(p) && NeedsSplit(p) && 1 <= k < |Fragments(s, p)| - 1
    ensures Assemble(splits[s.splitPacketIndex := FirstParts(Pieces(p), k)], Fragments(s, p)[k]) ==
            Held(splits[s.splitPacketIndex := FirstParts(Pieces(p), k + 1)])
  {
    var fs, id := Fragments(s, p), s.splitPacketIndex;
    FragmentsAreExact(s, p, k);
    hide Fragments, NeedsSplit, Pieces;
    var before, after := FirstParts(Pieces(p), k), FirstParts(Pieces(p), k + 1);
    assert before[k := Some(fs[k].data)] == after;
    assert after[k + 1].None?;
    assert splits[id := before][id := after] == splits[id := after];
  }

  lemma {:induction false} FirstFragmentsHeld(s: SendState, p: Packet, r: RecvState, k: nat)
    requires Addressable(p) && NeedsSplit(p) && s.splitPacketIndex !in r.splits
    requires 1 <= k < |Fragments(s, p)|
    ensures Run(r, Fragments(s, p)[..k]) ==
            Done(r.(splits := r.splits[s.splitPacketIndex := FirstParts(Pieces(p), k)]), [], false)
  {
    var fs := Fragments(s, p);
    RunNext(r, fs, k - 1);
    hide Fragments, NeedsSplit, Pieces, Assemble, FirstParts;
    if k == 1 {
      assert fs[..0] == [];
      FirstFragmentHeld(s, p, r.splits);
    } else {
      FirstFragmentsHeld(s, p, r, k - 1);
      NextFragmentHeld(s, p, r.splits, k - 1);
      hide Run;
    }
  }

  lemma {:induction false} AllPartsAssemble(pieces: seq<Bytes>)
    ensures Complete(FirstParts(pieces, |pieces|))
    ensures Assembled(FirstParts(pieces, |pieces|)) == Flatten(pieces)
  {
    var parts := FirstParts(pieces, |pieces|);
    if pieces != [] {
      var n := |pieces| - 1;
      AllPartsAssemble(pieces[..n]);
      assert parts[..n] == FirstParts(pieces[..n], n);
    }
  }

  lemma LastFragmentCompletes(s: SendState, p: Packet, r: RecvState)
    requires Addressable(p) && NeedsSplit(p) && s.splitPacketIndex !in r.splits
    ensures |Fragments(s, p)| >= 2
    ensures var fs := Fragments(s, p);
            var k := |fs| - 1;
            Assemble(r.splits[s.splitPacketIndex := FirstParts(Pieces(p), k)], fs[k]) == Whole(r.splits, p.data)
  {
    var fs, id, pieces := Fragments(s, p), s.splitPacketIndex, Pieces(p);
    PiecesAreExact(p);
    var k := |fs| - 1;
    FragmentsAreExact(s, p, k);
    hide Fragments, NeedsSplit, Pieces, Assembled, Complete;
    var splits := r.splits[id := FirstParts(pieces, k)];
    assert splits[id][k := Some(fs[k].data)] == FirstParts(pieces, |pieces|);
    AllPartsAssemble(pieces);
    assert splits - {id} == r.splits;
  }

  /** All packets of one message, in order, are one whole message to the receiver. */
  lemma WholeMessage(s: SendState, p: Packet, r: RecvState)
    requires Addressable(p) && (NeedsSplit(p) ==> s.splitPacketIndex !in r.splits)
    ensures Run(r, Fragments(s, p)) == Deliver(r, RelDataOf(s, p.reliability), p.data)
  {
    var fs := Fragments(s, p);
    PiecesAreExact(p);
    var k := |fs| - 1;
    FragmentsAreExact(s, p, k);
    if NeedsSplit(p) {
      FirstFragmentsHeld(s, p, r, k);
      LastFragmentCompletes(s, p, r);
      hide Assemble;
    } else {
      assert Pieces(p) == [p.data];
      assert fs[..0] == [];
    }
    hide Fragments, NeedsSplit, Pieces, Deliver;
    RunNext(r, fs, k);
    assert fs[..k + 1] == fs;
    var d := Deliver(r, RelDataOf(s, p.reliability), p.data);
    assert [] + d.out == d.out;
  }

  /** A message in step is delivered at once, and both sides are in step again. */
  lemma DeliverInStep(s: SendState, p: Packet, r: RecvState)
    requires Synchronised(s, r)
    ensures var d := Deliver(r, RelDataOf(s, p.reliability), p.data);
            && d.state.splits == map[]
            && (d.disconnect <==> IsDisconnect(p.data))
            && (!d.disconnect ==> d.out == [p] && Synchronised(Advanced(s, p, |Pieces(p)|), d.state))
  {
    hide Pieces, NeedsSplit, IsDisconnect;
    DrainNext(Wrap32(r.relOrdIndex + 1), map[]);
  }

  lemma DeliverAnyway(s: SendState, p: Packet, r: RecvState)
    ensures var d := Deliver(r, RelDataOf(s, p.reliability), p.data);
            d.state.splits == r.splits && (d.disconnect <==> IsDisconnect(p.data))
  {
    hide Drain, IsDisconnect;
  }

  /** The outcome of receiving `ps` in order, the sender being at `t` by now. */
  ghost predicate Mirrors(t: SendState, ps: seq<Packet>, o: Outcome) {
    && o.Done? && o.state.splits == map[]
    && (!o.disconnect <==> NoDisconnects(ps))
    && (!o.disconnect ==> o.out == ps && Synchronised(t, o.state))
  }

  lemma MirrorsNext(t: SendState, ps: seq<Packet>, o: Outcome, p: Packet)
    requires Mirrors(t, ps, o)
    ensures var d := Deliver(o.state, RelDataOf(t, p.reliability), p.data);
            Mirrors(Advanced(t, p, |Pieces(p)|), ps + [p], Done(d.state, o.out + d.out, o.disconnect || d.disconnect))
  {
    if !o.disconnect {
      DeliverInStep(t, p, o.state);
    }
    DeliverAnyway(t, p, o.state);
    hide Deliver, Pieces, Advanced, Synchronised, IsDisconnect, RelDataOf;
    assert NoDisconnects(ps + [p]) <==> NoDisconnects(ps) && !IsDisconnect(p.data) by {
      assert (ps + [p])[|ps|] == p;
      assert forall j :: 0 <= j < |ps| ==> (ps + [p])[j] == ps[j];
    }
  }

  lemma MirrorsInitially(s: SendState, r: RecvState)
    requires Synchronised(s, r)
    ensures Mirrors(StateAfter(s, []), [], Run(r, Flatten(Wire(s, []))))
  {
  }

  lemma MirrorsDone(t: SendState, ps: seq<Packet>, o: Outcome)
    requires Mirrors(t, ps, o)
    ensures o.Done? && o.state.splits == map[]
  {
  }

  lemma OneMoreInOrder(s: SendState, r: RecvState, ps: seq<Packet>)
    requires ps != [] && Addressable(ps[|ps| - 1])
    requires Mirrors(StateAfter(s, ps[..|ps| - 1]), ps[..|ps| - 1], Run(r, Flatten(Wire(s, ps[..|ps| - 1]))))
    ensures Mirrors(StateAfter(s, ps), ps, Run(r, Flatten(Wire(s, ps))))
  {
    hide *;
    var init, last := ps[..|ps| - 1], ps[|ps| - 1];
    MirrorsDone(StateAfter(s, init), init, Run(r, Flatten(Wire(s, init))));
    RunOneMore(s, r, ps);
    OneMoreSent(s, init, last);
    MirrorsNext(StateAfter(s, init), init, Run(r, Flatten(Wire(s, init))), last);
    assert ps == init + [last];
  }

  lemma {:induction false} InOrderRun(s: SendState, r: RecvState, ps: seq<Packet>)
    requires Synchronised(s, r) && forall j :: 0 <= j < |ps| ==> Addressable(ps[j])
    ensures Mirrors(StateAfter(s, ps), ps, Run(r, Flatten(Wire(s, ps))))
  {
    MirrorsInitially(s, r);
    hide *;
    if ps != [] {
      InOrderRun(s, r, ps[..|ps| - 1]);
      OneMoreInOrder(s, r, ps);
    }
  }

  lemma RunOneMore(s: SendState, r: RecvState, ps: seq<Packet>)
    requires ps != [] && Addressable(ps[|ps| - 1])
    requires var o := Run(r, Flatten(Wire(s, ps[..|ps| - 1]))); o.Done? && o.state.splits == map[]
    ensures var init, last := ps[..|ps| - 1], ps[|ps| - 1];
            var o := Run(r, Flatten(Wire(s, init)));
            var d := Deliver(o.state, RelDataOf(StateAfter(s, init), last.reliability), last.data);
            Run(r, Flatten(Wire(s, ps))) == Done(d.state, o.out + d.out, o.disconnect || d.disconnect)
  {
    var init, last := ps[..|ps| - 1], ps[|ps| - 1];
    var before, t := Flatten(Wire(s, init)), StateAfter(s, init);
    assert Wire(s, ps)[..|init|] == Wire(s, init);
    hide Run, Deliver, StateAfter, Fragments, RelDataOf;
    RunConcat(r, before, Fragments(t, last));
    WholeMessage(t, last, Run(r, before).state);
  }

  /**
   * In-order identity for mixed traffic: for any list of messages of all reliabilities, receiving
   * what was sent gives the list back and leaves both sides in step, if and only if no message is a
   * disconnect notification.
   */
  lemma InOrderIdentityIff(s: SendState, r: RecvState, ps: seq<Packet>)
    requires Synchronised(s, r) && forall j :: 0 <= j < |ps| ==> Addressable(ps[j])
    ensures var o := Run(r, Flatten(Wire(s, ps)));
            o.Done? && (o.out == ps && !o.disconnect && Synchronised(StateAfter(s, ps), o.state) <==> NoDisconnects(ps))
  {
    InOrderRun(s, r, ps);
  }
}
