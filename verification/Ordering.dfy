/**
 * The ordering queue against the unbounded stream it stands for: `ro` is the stream of
 * ReliableOrdered messages, `base` the index of the first one, `r` how many were delivered.
 */
module Ordering {
  import opened Words
  import opened Packets
  import opened Receiving

  function Index(base: u32, n: int): u32 {
    Wrap32(base + n)
  }

  /** Every queued packet is the message of the stream its wrapped key stands for. */
  ghost predicate QueueHolds(base: u32, ro: seq<Packet>, r: nat, queue: map<u32, Packet>) {
    forall k :: k in queue ==> HoldsAt(base, ro, r, k, queue[k])
  }

  ghost predicate HoldsAt(base: u32, ro: seq<Packet>, r: nat, k: u32, p: Packet) {
    var d := WrappingSub(k, Index(base, r));
    d < HALF_RANGE && r + d < |ro| && p == ro[r + d]
  }

  /** Message `n` of the stream is delivered or queued. */
  ghost predicate Kept(base: u32, r: nat, queue: map<u32, Packet>, n: nat) {
    n < r || (n - r < HALF_RANGE && Index(base, n) in queue)
  }

  ghost predicate AllKept(base: u32, r: nat, queue: map<u32, Packet>, have: set<nat>) {
    forall n :: n in have ==> Kept(base, r, queue, n)
  }

  /** The state of the ordering queue after `r` deliveries, when the messages `have` have arrived. */
  ghost predicate OrderInv(base: u32, ro: seq<Packet>, r: nat, s: RecvState, have: set<nat>) {
    && r <= |ro|
    && s.relOrdIndex == Index(base, r)
    && QueueHolds(base, ro, r, s.queue)
    && s.relOrdIndex !in s.queue
    && AllKept(base, r, s.queue, have)
  }

  lemma IndexDistance(base: u32, r: nat, n: nat)
    requires r <= n < r + 0x1_0000_0000
    ensures WrappingSub(Index(base, n), Index(base, r)) == n - r
  {
    WrappingSubWraps(base + n, base + r);
  }

  lemma IndexNext(base: u32, r: nat)
    ensures Wrap32(Index(base, r) + 1) == Index(base, r + 1)
  {
    WrapNext(base + r, 1);
  }

  /** The expected message is out of the queue: one step on, the rest still holds. */
  lemma HoldsNext(base: u32, ro: seq<Packet>, r: nat, queue: map<u32, Packet>, have: set<nat>)
    requires QueueHolds(base, ro, r, queue) && Index(base, r) !in queue
    requires forall n :: n in have && n != r ==> Kept(base, r, queue, n)
    ensures QueueHolds(base, ro, r + 1, queue)
    ensures AllKept(base, r + 1, queue, have)
  {
    IndexNext(base, r);
    hide Index;
    forall k | k in queue ensures HoldsAt(base, ro, r + 1, k, queue[k]) {
      StepCloser(k, Index(base, r));
      hide WrappingSub;
      assert HoldsAt(base, ro, r, k, queue[k]);
    }
  }

  /** Draining releases exactly the next stretch of the stream. */
  lemma {:induction false} DrainReleases(base: u32, ro: seq<Packet>, r: nat, queue: map<u32, Packet>, have: set<nat>)
    requires r <= |ro| && QueueHolds(base, ro, r, queue) && AllKept(base, r, queue, have)
    ensures var (index, queue', out) := Drain(Index(base, r), queue);
            var r' := r + |out|;
            && r' <= |ro| && out == ro[r..r']
            && index == Index(base, r') && index !in queue'
            && QueueHolds(base, ro, r', queue') && AllKept(base, r', queue', have)
    decreases |queue|
  {
    hide Wrap32, WrappingSub;
    DrainNext(Index(base, r), queue);
    hide Drain;
    var k := Index(base, r);
    if k in queue {
      IndexDistance(base, r, r);
      assert HoldsAt(base, ro, r, k, queue[k]);
      IndexNext(base, r);
      var rest := queue - {k};
      RemoveShrinks(queue, k);
      KeptWithout(base, r, queue, have);
      HoldsNext(base, ro, r, rest, have);
      DrainReleases(base, ro, r + 1, rest, have);
      var out := Drain(Index(base, r + 1), rest).2;
      assert [ro[r]] + ro[r + 1..r + 1 + |out|] == ro[r..r + 1 + |out|];
    }
  }

  /** Different messages close to each other have different keys. */
  lemma KeptWithout(base: u32, r: nat, queue: map<u32, Packet>, have: set<nat>)
    requires AllKept(base, r, queue, have)
    ensures forall n :: n in have && n != r ==> Kept(base, r, queue - {Index(base, r)}, n)
  {
    forall n | n in have && n != r ensures Kept(base, r, queue - {Index(base, r)}, n) {
      assert Kept(base, r, queue, n);
      if n > r {
        IndexDistance(base, r, n);
        IndexDistance(base, r, r);
      }
    }
  }

  /**
   * Message `n` of the stream arrives inside the window: what is delivered is the next stretch of
   * the stream, and `n` is from now on delivered or queued.
   */
  lemma DeliverOrdered(base: u32, ro: seq<Packet>, r: nat, s: RecvState, have: set<nat>, n: nat)
    requires OrderInv(base, ro, r, s, have)
    requires n < |ro| && ro[n].reliability == ReliableOrdered && !IsDisconnect(ro[n].data)
    requires InWindow(n, r)
    ensures var o := Deliver(s, ReliableOrderedData(Index(base, n)), ro[n].data);
            var r' := r + |o.out|;
            && r' <= |ro| && o.out == ro[r..r'] && !o.disconnect
            && OrderInv(base, ro, r', o.state, have + {n})
            && o.state.splits == s.splits
  {
    WindowIsExact(base + n, base + r);
    hide Wrap32, WrappingSub;
    var p := ro[n];
    assert p == Packet(ReliableOrdered, p.data);
    if n == r {
      DeliverExpected(base, ro, r, s, have);
    } else if n > r {
      Enqueue(base, ro, r, s, have, n);
      assert ro[r..r] == [];
    } else {
      assert ro[r..r] == [];
    }
    hide Drain, QueueHolds, AllKept, IsDisconnect;
  }

  lemma DeliverExpected(base: u32, ro: seq<Packet>, r: nat, s: RecvState, have: set<nat>)
    requires OrderInv(base, ro, r, s, have) && r < |ro|
    ensures var (index, queue, out) := Drain(Wrap32(Index(base, r) + 1), s.queue);
            var r' := r + 1 + |out|;
            && r' <= |ro| && [ro[r]] + out == ro[r..r']
            && OrderInv(base, ro, r', s.(relOrdIndex := index, queue := queue), have + {r})
  {
    hide Wrap32, WrappingSub;
    HoldsNext(base, ro, r, s.queue, have + {r});
    IndexNext(base, r);
    DrainReleases(base, ro, r + 1, s.queue, have + {r});
    hide Drain, QueueHolds, AllKept;
    var out := Drain(Index(base, r + 1), s.queue).2;
    assert [ro[r]] + ro[r + 1..r + 1 + |out|] == ro[r..r + 1 + |out|];
  }

  lemma Enqueue(base: u32, ro: seq<Packet>, r: nat, s: RecvState, have: set<nat>, n: nat)
    requires OrderInv(base, ro, r, s, have)
    requires r < n < |ro| && n - r < HALF_RANGE
    ensures OrderInv(base, ro, r, s.(queue := s.queue[Index(base, n) := ro[n]]), have + {n})
  {
    IndexDistance(base, r, n);
    IndexDistance(base, r, r);
    hide Wrap32, WrappingSub;
    var queue := s.queue[Index(base, n) := ro[n]];
    forall k | k in queue ensures HoldsAt(base, ro, r, k, queue[k]) {
      if k != Index(base, n) {
        assert HoldsAt(base, ro, r, k, s.queue[k]);
      }
    }
    forall m | m in have + {n} ensures Kept(base, r, queue, m) {
      if m != n {
        assert Kept(base, r, s.queue, m);
      }
    }
  }

  /** Once every message has arrived, everything is delivered and the queue is empty. */
  lemma AllDelivered(base: u32, ro: seq<Packet>, r: nat, s: RecvState, have: set<nat>)
    requires OrderInv(base, ro, r, s, have)
    requires forall n :: 0 <= n < |ro| ==> n in have
    ensures r == |ro| && s.queue == map[]
  {
    assert forall k :: k in s.queue ==> HoldsAt(base, ro, r, k, s.queue[k]);
    assert r in have ==> Kept(base, r, s.queue, r);
    assert s.queue.Keys == {};
  }
}
