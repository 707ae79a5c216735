/** Any rearrangement of the sender's packets is a run in which every fragment arrives exactly once. */
module Permutations {
  import opened Words
  import opened Packets
  import opened Sending
  import opened Receiving
  import opened Sessions
  import opened Delivery
  import opened Unordered

  // Rearrangements are index permutations

  ghost predicate IsIndexing<T>(idx: seq<nat>, ps: seq<T>, w: seq<T>) {
    && |idx| == |ps|
    && (forall i :: 0 <= i < |ps| ==> idx[i] < |w| && ps[i] == w[idx[i]])
    && (forall i, j :: 0 <= i < j < |idx| ==> idx[i] != idx[j])
    && (forall v :: 0 <= v < |w| ==> v in idx)
  }

  function Skip(k: nat, v: nat): nat {
    if v < k then v else v + 1
  }

  lemma {:induction false} IndexingExists<T>(ps: seq<T>, w: seq<T>) returns (idx: seq<nat>)
    requires multiset(ps) == multiset(w)
    ensures IsIndexing(idx, ps, w)
    decreases |ps|
  {
    if ps == [] {
      idx := [];
      assert |multiset(w)| == 0;
    } else {
      var n := |ps| - 1;
      var init, x := ps[..n], ps[n];
      assert ps == init + [x];
      assert x in multiset(w);
      var k :| 0 <= k < |w| && w[k] == x;
      var w' := w[..k] + w[k + 1..];
      RemoveOne(init, x, w, k);
      var idx' := IndexingExists(init, w');
      idx := AddIndex(idx', init, w', w, k);
      assert init + [w[k]] == ps;
    }
  }

  lemma RemoveOne<T>(init: seq<T>, x: T, w: seq<T>, k: nat)
    requires k < |w| && w[k] == x && multiset(init + [x]) == multiset(w)
    ensures multiset(init) == multiset(w[..k] + w[k + 1..])
  {
    assert w == w[..k] + [x] + w[k + 1..];
    assert multiset(w) == multiset(w[..k]) + multiset{x} + multiset(w[k + 1..]);
    assert multiset(init) == multiset(init + [x]) - multiset{x};
  }

  lemma AddIndex<T>(idx': seq<nat>, init: seq<T>, w': seq<T>, w: seq<T>, k: nat) returns (idx: seq<nat>)
    requires k < |w| && w' == w[..k] + w[k + 1..] && IsIndexing(idx', init, w')
    ensures IsIndexing(idx, init + [w[k]], w)
  {
    idx := seq(|idx'|, i requires 0 <= i < |idx'| => Skip(k, idx'[i])) + [k];
    forall v | 0 <= v < |w| ensures v in idx {
      if v == k {
        assert idx[|idx'|] == v;
      } else {
        var v' := if v < k then v else v - 1;
        assert v' in idx';
        var i :| 0 <= i < |idx'| && idx'[i] == v';
        assert idx[i] == v;
      }
    }
  }

  // Positions in the wire

  function Offset(w: seq<seq<RaknetPacket>>, j: nat): nat
    requires j <= |w|
  {
    |Flatten(w[..j])|
  }

  /** The message and the fragment at a position of the flattened wire. */
  function Locate(w: seq<seq<RaknetPacket>>, v: nat): (a: Arrival)
    requires v < |Flatten(w)|
    ensures a.msg < |w| && a.frag < |w[a.msg]|
    ensures Offset(w, a.msg) + a.frag == v
    ensures Flatten(w)[v] == w[a.msg][a.frag]
  {
    var n := |w| - 1;
    assert Offset(w, n) == |Flatten(w[..n])|;
    if v < |Flatten(w[..n])| then
      var a := Locate(w[..n], v);
      assert w[..n][..a.msg] == w[..a.msg];
      a
    else Arrival(n, v - |Flatten(w[..n])|)
  }

  lemma {:induction false} OffsetsGrow(w: seq<seq<RaknetPacket>>, i: nat, j: nat)
    requires i < j <= |w|
    ensures Offset(w, i) + |w[i]| <= Offset(w, j)
    decreases j
  {
    assert w[..j][..j - 1] == w[..j - 1];
    if i < j - 1 {
      OffsetsGrow(w, i, j - 1);
    }
  }

  /** Every fragment has a position, and is found there. */
  lemma LocateOffset(w: seq<seq<RaknetPacket>>, j: nat, i: nat)
    requires j < |w| && i < |w[j]|
    ensures Offset(w, j) + i < |Flatten(w)|
    ensures Locate(w, Offset(w, j) + i) == Arrival(j, i)
  {
    OffsetsGrow(w, j, |w|);
    assert w[..|w|] == w;
    var a := Locate(w, Offset(w, j) + i);
    if a.msg < j {
      OffsetsGrow(w, a.msg, j);
    } else if j < a.msg {
      OffsetsGrow(w, j, a.msg);
    }
  }

  /** The arrivals of any rearrangement of the sender's packets. */
  lemma ArrivalsOf(s: Session, ps: seq<RaknetPacket>) returns (arrivals: seq<Arrival>)
    requires multiset(ps) == multiset(Flatten(Wire(s.start, s.sent)))
    ensures IsPermutation(s, arrivals) && s.PacketsOf(arrivals) == ps
  {
    var w := Wire(s.start, s.sent);
    var idx := IndexingExists(ps, Flatten(w));
    forall j | 0 <= j < |w| ensures w[j] == s.Frags(j) {
      WireIsFrags(s, j);
    }
    hide Wire, Session.Frags, Flatten;
    arrivals := seq(|idx|, i requires 0 <= i < |idx| => Locate(w, idx[i]));
    forall i | 0 <= i < |idx| ensures s.Has(arrivals[i]) && s.At(arrivals[i]) == ps[i] {
      assert arrivals[i] == Locate(w, idx[i]);
    }
    hide Locate;
    assert s.PacketsOf(arrivals) == ps;
    AllLocated(s, w, idx, arrivals);
  }

  lemma AllLocated(s: Session, w: seq<seq<RaknetPacket>>, idx: seq<nat>, arrivals: seq<Arrival>)
    requires |w| == |s.sent| && forall j :: 0 <= j < |w| ==> w[j] == s.Frags(j)
    requires |arrivals| == |idx|
    requires forall i :: 0 <= i < |idx| ==> idx[i] < |Flatten(w)| && arrivals[i] == Locate(w, idx[i])
    requires forall i, j :: 0 <= i < j < |idx| ==> idx[i] != idx[j]
    requires forall v :: 0 <= v < |Flatten(w)| ==> v in idx
    ensures Unrepeated(arrivals) && EverythingArrives(s, arrivals)
  {
    hide Locate, Flatten, Session.Frags, Offset;
    forall j, i | 0 <= j < |s.sent| && 0 <= i < |s.Frags(j)|
      ensures Arrival(j, i) in arrivals
    {
      LocateOffset(w, j, i);
      var v := Offset(w, j) + i;
      assert v in idx;
      var t :| 0 <= t < |idx| && idx[t] == v;
      assert arrivals[t] == Arrival(j, i);
    }
  }

  /**
   * Any-order delivery, on the packets themselves. Whatever a sender produces for a list of at most
   * 2^31-1 ordered and 65536 split messages, none a disconnect notification, may be rearranged and
   * batched at will: a receiver in step delivers all ordered messages in order and every message
   * that needs no order exactly once, and holds nothing in the end.
   */
  lemma AnyPermutationDelivers(s: Session, r: RecvState, batches: seq<seq<RaknetPacket>>)
    requires s.Valid() && InStep(s, r) && Small(s) && NoDisconnects(s.sent)
    requires multiset(Flatten(batches)) == multiset(Flatten(Wire(s.start, s.sent)))
    ensures var o := RunBatches(r, batches);
            && o.Done? && !o.disconnect
            && Ordered(o.out) == Ordered(s.sent)
            && multiset(Plain(o.out)) == multiset(Plain(s.sent))
            && o.state.queue == map[] && o.state.splits == map[]
  {
    hide *;
    var arrivals := ArrivalsOf(s, Flatten(batches));
    AnyOrderDelivery(s, r, arrivals, batches);
    AnyOrderDeliversAll(s, r, arrivals, batches);
  }
}
