/**
 * The runs of a session whose split headers come off the wire garbled. Messages of more than 255
 * chunks never complete; as long as no garbled index runs past its garbled count, they do not
 * disturb the others either.
 */
module WireRuns {
  import opened Words
  import opened Packets
  import opened Compressed
  import opened PacketCodec
  import opened Sending
  import opened Receiving
  import opened Sessions
  import opened Reassembly
  import opened Delivery
  import opened Fitting

  /** The receiver's run over arrivals as they come off the wire. */
  function WireOutcomes(s: Session, r: RecvState, arrivals: seq<Arrival>): Outcome
    requires s.HasAll(arrivals)
  {
    Run(r, AllGarbled(s.PacketsOf(arrivals)))
  }

  /** Orderly, on the packets that come off the wire. */
  ghost predicate WireOrderly(s: Session, r: RecvState, arrivals: seq<Arrival>)
    requires s.HasAll(arrivals)
  {
    arrivals != [] ==>
      var before, a := arrivals[..|arrivals| - 1], arrivals[|arrivals| - 1];
      WireOrderly(s, r, before) && Acceptable(s, before, WireOutcomes(s, r, before), a)
  }

  // Which messages keep their indices in range

  predicate RangeKept(n: nat) {
    n <= 0xffff || 0xff_ff00 < n < 0x100_0000 || 0xffff_ff00 < n
  }

  /** The messages of which no fragment comes off the wire with an index past its count. */
  predicate InRange(p: Packet) {
    NeedsSplit(p) ==> RangeKept(|Pieces(p)|)
  }

  /** The largest index that the fragments of a message of `n` chunks have off the wire. */
  function LargestIndex(n: u32): (k: u32)
    requires n > 0
    ensures forall i: u32 :: i < n ==> Garbled(i) <= k
  {
    if n <= 0x100 then n - 1
    else if n <= 0x1_0000 then (n - 1) * 0x1_0000
    else if n <= 0x100_0000 then
      if (n - 1) * 0x100 > 0xffff_0000 then (n - 1) * 0x100 else 0xffff_0000
    else if n - 1 > 0xffff_ff00 then n - 1 else 0xffff_ff00
  }

  lemma LargestIndexReached(n: u32) returns (i: u32)
    requires n > 0
    ensures i < n && Garbled(i) == LargestIndex(n)
  {
    i := if 0x1_0000 < n <= 0x100_0000 && (n - 1) * 0x100 <= 0xffff_0000 then 0xffff
         else if 0x100_0000 < n <= 0xffff_ff01 then 0xff_ffff
         else n - 1;
  }

  lemma RangeKeptIff(n: u32)
    requires n > 0
    ensures RangeKept(n) <==> LargestIndex(n) < Garbled(n)
  {
  }

  ghost predicate AllInRange(packets: seq<Packet>) {
    forall j :: 0 <= j < |packets| ==> InRange(packets[j])
  }

  /** A fragment of a message that does not fit, as it comes off the wire. */
  lemma UnfittingFragment(s: Session, a: Arrival)
    requires s.Valid() && s.Has(a) && !FitsWire(s.sent[a.msg])
    ensures NeedsSplit(s.sent[a.msg])
    ensures |s.Frags(a.msg)| < 0x1_0000_0000 && Garbled(|s.Frags(a.msg)|) > 256
    ensures s.At(a).splitPacketInfo == Some(SplitPacketInfo(s.SplitId(a.msg), a.frag, |s.Frags(a.msg)|))
    ensures InRange(s.sent[a.msg]) ==> Garbled(a.frag) < Garbled(|s.Frags(a.msg)|)
    ensures Garbled(a.frag) != 256
  {
    FragmentFacts(s, a.msg, a.frag);
    FitsWireIff(s.sent[a.msg]);
    RangeKeptIff(|s.Frags(a.msg)|);
    hide Session.Frags, Session.SplitId, NeedsSplit, Pieces, RangeKept;
  }

  // The run without the messages that do not fit

  function Fitted(s: Session, arrivals: seq<Arrival>): (fs: seq<Arrival>)
    requires s.HasAll(arrivals)
    ensures s.HasAll(fs)
  {
    if arrivals == [] then []
    else
      var last := arrivals[|arrivals| - 1];
      Fitted(s, arrivals[..|arrivals| - 1]) + if FitsWire(s.sent[last.msg]) then [last] else []
  }

  lemma FittedNext(s: Session, arrivals: seq<Arrival>, a: Arrival)
    requires s.HasAll(arrivals) && s.Has(a)
    ensures s.HasAll(arrivals + [a])
    ensures Fitted(s, arrivals + [a]) == Fitted(s, arrivals) + if FitsWire(s.sent[a.msg]) then [a] else []
  {
    hide FitsWire, Session.Frags;
    assert (arrivals + [a])[..|arrivals|] == arrivals;
  }

  lemma {:induction false} FittedOwner(s: Session, arrivals: seq<Arrival>, id: u16)
    requires s.HasAll(arrivals)
    ensures var owner := s.Owner(Fitted(s, arrivals), id);
            owner.Some? ==> owner.value < |s.sent| && FitsWire(s.sent[owner.value])
  {
    hide FitsWire, NeedsSplit, Session.Frags, Session.SplitId;
    if arrivals != [] {
      var before, last := arrivals[..|arrivals| - 1], arrivals[|arrivals| - 1];
      FittedOwner(s, before, id);
      if FitsWire(s.sent[last.msg]) {
        OwnerNext(s, Fitted(s, before), last);
      } else {
        assert Fitted(s, arrivals) == Fitted(s, before);
      }
    }
  }

  /** An entry of a message that does not fit: it waits for part 256 for ever. */
  ghost predicate Waits(s: Session, owner: Option<nat>, parts: Parts) {
    && owner.Some? && owner.value < |s.sent|
    && !FitsWire(s.sent[owner.value])
    && |s.Frags(owner.value)| < 0x1_0000_0000
    && |parts| == Garbled(|s.Frags(owner.value)|) > 256
    && parts[256].None?
  }

  /** Reassembly off the wire, next to reassembly of the fitting messages alone. */
  ghost predicate Matches(s: Session, arrivals: seq<Arrival>, wire: map<u16, Parts>, fitted: map<u16, Parts>)
    requires s.HasAll(arrivals)
  {
    forall id :: MatchesAt(s, arrivals, wire, fitted, id)
  }

  ghost predicate MatchesAt(
      s: Session, arrivals: seq<Arrival>, wire: map<u16, Parts>, fitted: map<u16, Parts>, id: u16)
    requires s.HasAll(arrivals)
  {
    if id in fitted then
      id in wire && wire[id] == fitted[id] && s.Owner(arrivals, id) == s.Owner(Fitted(s, arrivals), id)
    else
      id in wire ==> Waits(s, s.Owner(arrivals, id), wire[id])
  }

  lemma OwnersNext(s: Session, arrivals: seq<Arrival>, a: Arrival, id: u16)
    requires s.HasAll(arrivals) && s.Has(a)
    ensures s.HasAll(arrivals + [a])
    ensures var own := NeedsSplit(s.sent[a.msg]) && s.SplitId(a.msg) == id;
            && s.Owner(arrivals + [a], id) == (if own then Some(a.msg) else s.Owner(arrivals, id))
            && s.Owner(Fitted(s, arrivals + [a]), id) ==
               if FitsWire(s.sent[a.msg]) && own then Some(a.msg) else s.Owner(Fitted(s, arrivals), id)
  {
    OwnerNext(s, arrivals, a);
    FittedNext(s, arrivals, a);
    hide Session.Frags, Session.SplitId, Session.Owner, NeedsSplit, FitsWire, Fitted;
    if FitsWire(s.sent[a.msg]) {
      OwnerNext(s, Fitted(s, arrivals), a);
    } else {
      assert Fitted(s, arrivals) + [] == Fitted(s, arrivals);
    }
  }

  ghost predicate OwnId(p: RaknetPacket, id: u16) {
    p.splitPacketInfo.Some? && p.splitPacketInfo.value.id == id
  }

  /** Reassembly looks at the entry under the packet's own id only. */
  lemma AssembleIsLocal(wire: map<u16, Parts>, fitted: map<u16, Parts>, p: RaknetPacket)
    requires forall id :: OwnId(p, id) ==> (id in wire <==> id in fitted) && (id in wire ==> wire[id] == fitted[id])
    ensures var w, f := Assemble(wire, p), Assemble(fitted, p);
            && w.Fault? == f.Fault? && w.Whole? == f.Whole?
            && (w.Whole? ==> w.data == f.data)
            && (!w.Fault? ==> forall id ::
                  if OwnId(p, id) then
                    (id in w.splits <==> id in f.splits) && (id in w.splits ==> w.splits[id] == f.splits[id])
                  else && (id in w.splits <==> id in wire) && (id in wire ==> w.splits[id] == wire[id])
                       && (id in f.splits <==> id in fitted) && (id in fitted ==> f.splits[id] == fitted[id]))
  {
    hide Complete, Assembled;
  }

  lemma DeliverIgnoresSplits(t: RecvState, splits: map<u16, Parts>, rel: ReliabilityData, data: Bytes)
    ensures var d, e := Deliver(t, rel, data), Deliver(t.(splits := splits), rel, data);
            e == d.(state := d.state.(splits := splits)) && d.state.splits == t.splits
  {
    hide Drain, IsDisconnect, NotOld;
  }

  /** The same outcome, but for the entries of messages that do not fit. */
  ghost predicate Shadows(s: Session, arrivals: seq<Arrival>, wire: Outcome, fitted: Outcome)
    requires s.HasAll(arrivals)
  {
    && wire.Done? && fitted.Done?
    && wire == fitted.(state := fitted.state.(splits := wire.state.splits))
    && Matches(s, arrivals, wire.state.splits, fitted.state.splits)
  }

  /** An outcome followed by another step. */
  function Then(o: Outcome, d: Outcome): Outcome
    requires o.Done? && d.Done?
  {
    Done(d.state, o.out + d.out, o.disconnect || d.disconnect)
  }

  /** Without a collision, an entry under a fitting fragment's id is in both or in neither. */
  lemma SameOwnEntry(s: Session, arrivals: seq<Arrival>, wire: map<u16, Parts>, fitted: map<u16, Parts>, a: Arrival)
    requires s.Valid() && s.HasAll(arrivals) && s.Has(a) && Matches(s, arrivals, wire, fitted)
    requires NoCollision(s, arrivals, wire, a)
    ensures s.At(a).splitPacketInfo.Some? ==> s.At(a).splitPacketInfo.value.id == s.SplitId(a.msg)
    ensures s.At(a).splitPacketInfo.Some? <==> NeedsSplit(s.sent[a.msg])
    ensures FitsWire(s.sent[a.msg]) && NeedsSplit(s.sent[a.msg]) ==>
              var id := s.SplitId(a.msg);
              (id in wire <==> id in fitted) && (id in wire ==> wire[id] == fitted[id])
    ensures !FitsWire(s.sent[a.msg]) && NeedsSplit(s.sent[a.msg]) ==>
              var id := s.SplitId(a.msg);
              id !in fitted && (id in wire ==> Waits(s, Some(a.msg), wire[id]))
  {
    FragmentFacts(s, a.msg, a.frag);
    FittedOwner(s, arrivals, s.SplitId(a.msg));
    assert MatchesAt(s, arrivals, wire, fitted, s.SplitId(a.msg));
    hide Session.Frags, Session.SplitId, Session.Owner, NeedsSplit, Pieces, FitsWire;
  }

  lemma FittingMatches(s: Session, arrivals: seq<Arrival>, wire: map<u16, Parts>, fitted: map<u16, Parts>, a: Arrival)
    requires s.Valid() && s.HasAll(arrivals) && s.Has(a) && Matches(s, arrivals, wire, fitted)
    requires NoCollision(s, arrivals, wire, a) && FitsWire(s.sent[a.msg])
    ensures s.HasAll(arrivals + [a])
    ensures var w, f := Assemble(wire, s.At(a)), Assemble(fitted, s.At(a));
            && w.Fault? == f.Fault? && w.Whole? == f.Whole?
            && (w.Whole? ==> w.data == f.data)
            && (!w.Fault? ==> Matches(s, arrivals + [a], w.splits, f.splits))
  {
    SameOwnEntry(s, arrivals, wire, fitted, a);
    hide Session.Frags, Session.SplitId, Session.Owner, NeedsSplit, FitsWire, Fitted, Assemble, NoCollision;
    hide Matches;
    AssembleIsLocal(wire, fitted, s.At(a));
    var w, f := Assemble(wire, s.At(a)), Assemble(fitted, s.At(a));
    if !w.Fault? {
      MatchesUpdated(s, arrivals, wire, fitted, a, w.splits, f.splits);
    }
  }

  /** Both maps changed at the fitting fragment's own id at most, and in the same way. */
  lemma MatchesUpdated(
      s: Session, arrivals: seq<Arrival>, wire: map<u16, Parts>, fitted: map<u16, Parts>, a: Arrival,
      wire': map<u16, Parts>, fitted': map<u16, Parts>)
    requires s.HasAll(arrivals) && s.Has(a) && Matches(s, arrivals, wire, fitted) && FitsWire(s.sent[a.msg])
    requires NeedsSplit(s.sent[a.msg]) ==>
               var id := s.SplitId(a.msg);
               (id in wire' <==> id in fitted') && (id in wire' ==> wire'[id] == fitted'[id])
    requires forall id :: (NeedsSplit(s.sent[a.msg]) ==> id != s.SplitId(a.msg)) ==>
               && (id in wire' <==> id in wire) && (id in wire ==> wire'[id] == wire[id])
               && (id in fitted' <==> id in fitted) && (id in fitted ==> fitted'[id] == fitted[id])
    ensures s.HasAll(arrivals + [a]) && Matches(s, arrivals + [a], wire', fitted')
  {
    hide Session.HasAll, Session.Frags, Session.SplitId, Session.Owner, NeedsSplit, FitsWire, Fitted, Waits;
    HasAllNext(s, arrivals, a);
    forall id ensures MatchesAt(s, arrivals + [a], wire', fitted', id) {
      OwnersNext(s, arrivals, a, id);
      assert MatchesAt(s, arrivals, wire, fitted, id);
    }
  }

  lemma HasAllNext(s: Session, arrivals: seq<Arrival>, a: Arrival)
    requires s.HasAll(arrivals) && s.Has(a)
    ensures s.HasAll(arrivals + [a])
  {
    hide Session.Frags;
  }

  /** A fitting fragment has the same effect on both. */
  lemma FittingStep(s: Session, arrivals: seq<Arrival>, wire: Outcome, fitted: Outcome, a: Arrival)
    requires s.Valid() && s.HasAll(arrivals) && s.Has(a) && Shadows(s, arrivals, wire, fitted)
    requires NoCollision(s, arrivals, wire.state.splits, a) && FitsWire(s.sent[a.msg])
    requires Step(fitted.state, s.At(a)).Done?
    ensures s.HasAll(arrivals + [a])
    ensures var d := Step(wire.state, s.At(a));
            d.Done? && Shadows(s, arrivals + [a], Then(wire, d), Then(fitted, Step(fitted.state, s.At(a))))
  {
    FittingMatches(s, arrivals, wire.state.splits, fitted.state.splits, a);
    hide Session.Frags, FitsWire, Assemble, Matches, NoCollision, Deliver;
    var p := s.At(a);
    var w, f := Assemble(wire.state.splits, p), Assemble(fitted.state.splits, p);
    if w.Whole? {
      DeliverIgnoresSplits(fitted.state.(splits := f.splits), w.splits, p.relData, w.data);
    }
  }

  /** A fragment of a message that does not fit changes nothing but its own entry. */
  lemma UnfittingStep(s: Session, arrivals: seq<Arrival>, wire: Outcome, fitted: Outcome, a: Arrival)
    requires s.Valid() && s.HasAll(arrivals) && s.Has(a) && Shadows(s, arrivals, wire, fitted)
    requires NoCollision(s, arrivals, wire.state.splits, a) && !FitsWire(s.sent[a.msg]) && InRange(s.sent[a.msg])
    ensures s.HasAll(arrivals + [a])
    ensures var d := Step(wire.state, GarbledPacket(s.At(a)));
            d.Done? && Shadows(s, arrivals + [a], Then(wire, d), fitted)
  {
    SameOwnEntry(s, arrivals, wire.state.splits, fitted.state.splits, a);
    UnfittingFragment(s, a);
    var parts := WaitingHeld(s, wire.state.splits, a);
    hide Session.Frags, Session.SplitId, Session.Owner, NeedsSplit, FitsWire, InRange, Fitted, Assemble, NoCollision;
    hide Waits, GarbledPacket, Matches;
    assert wire.out + [] == wire.out;
    UnfittingMatches(s, arrivals, wire.state.splits, fitted.state.splits, a, parts);
  }

  lemma UnfittingMatches(
      s: Session, arrivals: seq<Arrival>, wire: map<u16, Parts>, fitted: map<u16, Parts>, a: Arrival, parts: Parts)
    requires s.HasAll(arrivals) && s.Has(a) && Matches(s, arrivals, wire, fitted)
    requires NeedsSplit(s.sent[a.msg]) && !FitsWire(s.sent[a.msg]) && s.SplitId(a.msg) !in fitted
    requires Waits(s, Some(a.msg), parts)
    ensures s.HasAll(arrivals + [a])
    ensures Matches(s, arrivals + [a], wire[s.SplitId(a.msg) := parts], fitted)
  {
    hide Session.HasAll, Session.Frags, Session.SplitId, Session.Owner, NeedsSplit, FitsWire, Fitted, Waits;
    HasAllNext(s, arrivals, a);
    var wire' := wire[s.SplitId(a.msg) := parts];
    forall id ensures MatchesAt(s, arrivals + [a], wire', fitted, id) {
      OwnersNext(s, arrivals, a, id);
      assert MatchesAt(s, arrivals, wire, fitted, id);
    }
  }

  lemma WaitingHeld(s: Session, wire: map<u16, Parts>, a: Arrival) returns (parts: Parts)
    requires s.Valid() && s.Has(a) && !FitsWire(s.sent[a.msg]) && InRange(s.sent[a.msg])
    requires var id := s.SplitId(a.msg); id in wire ==> Waits(s, Some(a.msg), wire[id])
    ensures Waits(s, Some(a.msg), parts)
    ensures Assemble(wire, GarbledPacket(s.At(a))) == Held(wire[s.SplitId(a.msg) := parts])
  {
    UnfittingFragment(s, a);
    hide Session.Frags, Session.SplitId, NeedsSplit, FitsWire, InRange, Garbled, Assembled;
    var id, count, index := s.SplitId(a.msg), Garbled(|s.Frags(a.msg)|), Garbled(a.frag);
    parts := (if id in wire then wire[id] else EmptyParts(count))[index := Some(s.At(a).data)];
    assert parts[256].None? && Waits(s, Some(a.msg), parts);
  }

  lemma WireOutcomesNext(s: Session, r: RecvState, arrivals: seq<Arrival>, a: Arrival)
    requires s.HasAll(arrivals) && s.Has(a) && WireOutcomes(s, r, arrivals).Done?
    ensures s.HasAll(arrivals + [a])
    ensures var o := WireOutcomes(s, r, arrivals);
            var d := Step(o.state, GarbledPacket(s.At(a)));
            if d.Done? then WireOutcomes(s, r, arrivals + [a]) == Then(o, d)
            else WireOutcomes(s, r, arrivals + [a]) == Panic
  {
    hide Step, Session.Frags, GarbledPacket;
    var ps := AllGarbled(s.PacketsOf(arrivals + [a]));
    assert ps[..|ps| - 1] == AllGarbled(s.PacketsOf(arrivals));
  }

  lemma WireOrderlyLast(s: Session, r: RecvState, arrivals: seq<Arrival>)
    requires arrivals != [] && s.HasAll(arrivals) && WireOrderly(s, r, arrivals)
    ensures var before, a := arrivals[..|arrivals| - 1], arrivals[|arrivals| - 1];
            && s.HasAll(before) && s.Has(a) && arrivals == before + [a]
            && WireOrderly(s, r, before) && Acceptable(s, before, WireOutcomes(s, r, before), a)
  {
    hide Acceptable, WireOutcomes, Session.Frags;
  }

  /** What is acceptable off the wire is acceptable to the fitting messages alone. */
  lemma StaysAcceptable(s: Session, arrivals: seq<Arrival>, wire: Outcome, fitted: Outcome, a: Arrival)
    requires s.Valid() && s.HasAll(arrivals) && s.Has(a) && Shadows(s, arrivals, wire, fitted)
    requires Acceptable(s, arrivals, wire, a)
    ensures Acceptable(s, Fitted(s, arrivals), fitted, a)
    ensures NoCollision(s, arrivals, wire.state.splits, a)
  {
    hide Session.Frags, Session.SplitId, Session.Owner, NeedsSplit, FitsWire, Fitted, Waits, Session.Ord, Ordered;
    assert MatchesAt(s, arrivals, wire.state.splits, fitted.state.splits, s.SplitId(a.msg));
  }

  lemma OrderlyNext(s: Session, r: RecvState, arrivals: seq<Arrival>, a: Arrival)
    requires s.HasAll(arrivals) && s.Has(a)
    requires Orderly(s, r, arrivals) && Acceptable(s, arrivals, Outcomes(s, r, arrivals), a)
    ensures s.HasAll(arrivals + [a]) && Orderly(s, r, arrivals + [a])
  {
    hide Acceptable, Outcomes, Session.Frags;
    assert (arrivals + [a])[..|arrivals|] == arrivals;
  }

  lemma StartsShadowed(s: Session, r: RecvState)
    requires InStep(s, r)
    ensures Orderly(s, r, []) && Shadows(s, [], WireOutcomes(s, r, []), Outcomes(s, r, [])) && Fitted(s, []) == []
    ensures WireOutcomes(s, r, []) == Done(r, [], false)
  {
    assert s.PacketsOf([]) == [] && AllGarbled([]) == [];
  }

  /** On every orderly run off the wire, the receiver does what it would do had only fitting messages been sent. */
  lemma {:induction false} FittedShadows(s: Session, r: RecvState, arrivals: seq<Arrival>)
    requires s.Valid() && InStep(s, r) && AllInRange(s.sent) && s.HasAll(arrivals) && WireOrderly(s, r, arrivals)
    ensures Orderly(s, r, Fitted(s, arrivals))
    ensures Shadows(s, arrivals, WireOutcomes(s, r, arrivals), Outcomes(s, r, Fitted(s, arrivals)))
    decreases arrivals, 1
  {
    if arrivals == [] {
      StartsShadowed(s, r);
    } else {
      FittedShadowsLast(s, r, arrivals);
    }
  }

  lemma {:induction false} FittedShadowsLast(s: Session, r: RecvState, arrivals: seq<Arrival>)
    requires s.Valid() && InStep(s, r) && AllInRange(s.sent) && s.HasAll(arrivals) && WireOrderly(s, r, arrivals)
    requires arrivals != []
    ensures Orderly(s, r, Fitted(s, arrivals))
    ensures Shadows(s, arrivals, WireOutcomes(s, r, arrivals), Outcomes(s, r, Fitted(s, arrivals)))
    decreases arrivals, 0
  {
    WireOrderlyLast(s, r, arrivals);
    var before, a := arrivals[..|arrivals| - 1], arrivals[|arrivals| - 1];
    assert InRange(s.sent[a.msg]);
    hide *;
    FittedShadows(s, r, before);
    if FitsWire(s.sent[a.msg]) {
      FittingShadows(s, r, before, a);
    } else {
      UnfittingShadows(s, r, before, a);
    }
  }

  lemma FittingShadows(s: Session, r: RecvState, arrivals: seq<Arrival>, a: Arrival)
    requires s.Valid() && InStep(s, r) && s.HasAll(arrivals) && s.Has(a) && Orderly(s, r, Fitted(s, arrivals))
    requires Shadows(s, arrivals, WireOutcomes(s, r, arrivals), Outcomes(s, r, Fitted(s, arrivals)))
    requires Acceptable(s, arrivals, WireOutcomes(s, r, arrivals), a) && FitsWire(s.sent[a.msg])
    ensures s.HasAll(arrivals + [a]) && Orderly(s, r, Fitted(s, arrivals + [a]))
    ensures Shadows(s, arrivals + [a], WireOutcomes(s, r, arrivals + [a]), Outcomes(s, r, Fitted(s, arrivals + [a])))
  {
    hide *;
    var fits := Fitted(s, arrivals);
    var wire, fitted := WireOutcomes(s, r, arrivals), Outcomes(s, r, fits);
    FittedNext(s, arrivals, a);
    ShadowsDone(s, arrivals, wire, fitted);
    StaysAcceptable(s, arrivals, wire, fitted, a);
    OrderlyNext(s, r, fits, a);
    InvHolds(s, r, fits);
    StepKeeps(s, fits, fitted, a);
    ArrivesUnchanged(s, a);
    FittingStep(s, arrivals, wire, fitted, a);
    WireOutcomesNext(s, r, arrivals, a);
    OutcomesNext(s, r, fits, a);
    ThenIs(fitted, Step(fitted.state, s.At(a)));
  }

  lemma UnfittingShadows(s: Session, r: RecvState, arrivals: seq<Arrival>, a: Arrival)
    requires s.Valid() && InStep(s, r) && s.HasAll(arrivals) && s.Has(a) && Orderly(s, r, Fitted(s, arrivals))
    requires Shadows(s, arrivals, WireOutcomes(s, r, arrivals), Outcomes(s, r, Fitted(s, arrivals)))
    requires Acceptable(s, arrivals, WireOutcomes(s, r, arrivals), a)
    requires !FitsWire(s.sent[a.msg]) && InRange(s.sent[a.msg])
    ensures s.HasAll(arrivals + [a]) && Fitted(s, arrivals + [a]) == Fitted(s, arrivals)
    ensures Shadows(s, arrivals + [a], WireOutcomes(s, r, arrivals + [a]), Outcomes(s, r, Fitted(s, arrivals)))
  {
    hide *;
    var fits := Fitted(s, arrivals);
    var wire, fitted := WireOutcomes(s, r, arrivals), Outcomes(s, r, fits);
    FittedNext(s, arrivals, a);
    assert fits + [] == fits;
    ShadowsDone(s, arrivals, wire, fitted);
    StaysAcceptable(s, arrivals, wire, fitted, a);
    UnfittingStep(s, arrivals, wire, fitted, a);
    WireOutcomesNext(s, r, arrivals, a);
  }

  lemma ThenIs(o: Outcome, d: Outcome)
    requires o.Done? && d.Done?
    ensures Then(o, d) == Done(d.state, o.out + d.out, o.disconnect || d.disconnect)
  {
  }

  lemma ShadowsDone(s: Session, arrivals: seq<Arrival>, wire: Outcome, fitted: Outcome)
    requires s.HasAll(arrivals) && Shadows(s, arrivals, wire, fitted)
    ensures wire.Done? && fitted.Done?
    ensures wire.out == fitted.out && wire.disconnect == fitted.disconnect
  {
  }

  lemma ArrivesUnchanged(s: Session, a: Arrival)
    requires s.Valid() && s.Has(a) && FitsWire(s.sent[a.msg])
    ensures GarbledPacket(s.At(a)) == s.At(a)
  {
    FragmentsExact(s.Before(a.msg), s.sent[a.msg], a.frag);
  }

  // The theorems

  /**
   * Prefix safety off the wire. However large the messages, as long as their indices stay in range:
   * no assertion fails, what is delivered is what the fitting messages alone would deliver, and in
   * order it is a prefix of what was sent.
   */
  lemma WirePrefixSafety(s: Session, r: RecvState, arrivals: seq<Arrival>)
    requires s.Valid() && InStep(s, r) && AllInRange(s.sent) && s.HasAll(arrivals) && WireOrderly(s, r, arrivals)
    ensures var o := WireOutcomes(s, r, arrivals);
            && o.Done? && Ordered(o.out) <= Ordered(s.sent)
            && Orderly(s, r, Fitted(s, arrivals)) && Outcomes(s, r, Fitted(s, arrivals)).Done?
            && o.out == Outcomes(s, r, Fitted(s, arrivals)).out
            && o.disconnect == Outcomes(s, r, Fitted(s, arrivals)).disconnect
  {
    hide *;
    FittedShadows(s, r, arrivals);
    ShadowsDone(s, arrivals, WireOutcomes(s, r, arrivals), Outcomes(s, r, Fitted(s, arrivals)));
    PrefixSafety(s, r, Fitted(s, arrivals));
  }

  /** Every run of a small session in range is orderly off the wire, too. */
  lemma {:induction false} SmallIsWireOrderly(s: Session, r: RecvState, arrivals: seq<Arrival>)
    requires s.Valid() && InStep(s, r) && AllInRange(s.sent) && s.HasAll(arrivals) && Small(s)
    ensures WireOrderly(s, r, arrivals)
  {
    if arrivals != [] {
      var before, a := arrivals[..|arrivals| - 1], arrivals[|arrivals| - 1];
      SmallIsWireOrderly(s, r, before);
      FittedShadows(s, r, before);
      InvHolds(s, r, Fitted(s, before));
      var wire, fitted := WireOutcomes(s, r, before), Outcomes(s, r, Fitted(s, before));
      ShadowsDone(s, before, wire, fitted);
      AllOwned(s, before, wire, fitted);
      NeverCollides(s, before, wire.state.splits, a);
      if s.sent[a.msg].reliability.ReliableOrdered? {
        PrefixSafety(s, r, Fitted(s, before));
        NeverOutOfWindow(s, a.msg, |Ordered(wire.out)|);
      }
      hide Outcomes, WireOutcomes, Ordered, SplitCount, Session.Frags, Inv, Shadows, Orderly;
    }
  }

  lemma AllOwned(s: Session, arrivals: seq<Arrival>, wire: Outcome, fitted: Outcome)
    requires s.HasAll(arrivals) && Shadows(s, arrivals, wire, fitted)
    requires Inv(s, Fitted(s, arrivals), fitted)
    ensures forall id :: id in wire.state.splits ==> s.Owner(arrivals, id).Some?
  {
    hide Session.Frags, Session.Owner, NothingForgotten, EntryOf, Have, DisconnectComplete, FitsWire, Fitted;
    forall id | id in wire.state.splits ensures s.Owner(arrivals, id).Some? {
      assert MatchesAt(s, arrivals, wire.state.splits, fitted.state.splits, id);
    }
  }
}
