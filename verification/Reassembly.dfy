/** What the reassembly entries of the receiver mean, on any run over a session's fragments. */
module Reassembly {
  import opened Words
  import opened Packets
  import opened Sending
  import opened Receiving
  import opened Sessions

  /** An entry holds only fragments of its owner that have arrived. */
  ghost predicate EntryOf(s: Session, arrivals: seq<Arrival>, j: nat, parts: Parts) {
    && j < |s.sent|
    && |parts| == |s.Frags(j)|
    && forall i :: 0 <= i < |parts| && parts[i].Some? ==>
         Arrival(j, i) in arrivals && parts[i].value == s.Frags(j)[i].data
  }

  ghost predicate EntriesHold(s: Session, arrivals: seq<Arrival>, splits: map<u16, Parts>)
    requires s.HasAll(arrivals)
  {
    forall id :: id in splits ==>
      s.Owner(arrivals, id).Some? && EntryOf(s, arrivals, s.Owner(arrivals, id).value, splits[id])
  }

  /** Fragments of an unfinished message are in its entry. */
  ghost predicate InProgress(s: Session, arrivals: seq<Arrival>, splits: map<u16, Parts>, j: nat)
    requires s.HasAll(arrivals) && j < |s.sent|
  {
    var id := s.SplitId(j);
    && id in splits
    && s.Owner(arrivals, id) == Some(j)
    && forall i :: 0 <= i < |s.Frags(j)| && Arrival(j, i) in arrivals ==> i < |splits[id]| && splits[id][i].Some?
  }

  ghost predicate NothingForgotten(s: Session, arrivals: seq<Arrival>, splits: map<u16, Parts>)
    requires s.HasAll(arrivals)
  {
    forall j :: 0 <= j < |s.sent| && NeedsSplit(s.sent[j]) && s.Started(arrivals, j) && !s.Full(arrivals, j) ==>
      InProgress(s, arrivals, splits, j)
  }

  ghost predicate SplitInv(s: Session, arrivals: seq<Arrival>, splits: map<u16, Parts>)
    requires s.HasAll(arrivals)
  {
    EntriesHold(s, arrivals, splits) && NothingForgotten(s, arrivals, splits)
  }

  /** The arriving fragment's split id is not in use by another message. */
  ghost predicate NoCollision(s: Session, arrivals: seq<Arrival>, splits: map<u16, Parts>, a: Arrival)
    requires s.HasAll(arrivals) && s.Has(a)
  {
    NeedsSplit(s.sent[a.msg]) && s.SplitId(a.msg) in splits ==>
      s.Owner(arrivals, s.SplitId(a.msg)) == Some(a.msg)
  }

  lemma OwnerNext(s: Session, arrivals: seq<Arrival>, a: Arrival)
    requires s.HasAll(arrivals) && s.Has(a)
    ensures s.HasAll(arrivals + [a])
    ensures forall id :: s.Owner(arrivals + [a], id) ==
              if NeedsSplit(s.sent[a.msg]) && s.SplitId(a.msg) == id then Some(a.msg) else s.Owner(arrivals, id)
  {
    hide Session.Frags, Session.SplitId, NeedsSplit;
    assert (arrivals + [a])[..|arrivals|] == arrivals;
  }

  lemma {:induction false} OwnerHasArrived(s: Session, arrivals: seq<Arrival>, id: u16)
    requires s.HasAll(arrivals) && s.Owner(arrivals, id).Some?
    ensures var j := s.Owner(arrivals, id).value;
            j < |s.sent| && NeedsSplit(s.sent[j]) && s.SplitId(j) == id && s.Started(arrivals, j)
  {
    hide Session.Frags, Session.SplitId, NeedsSplit;
    var init, last := arrivals[..|arrivals| - 1], arrivals[|arrivals| - 1];
    if !(NeedsSplit(s.sent[last.msg]) && s.SplitId(last.msg) == id) {
      OwnerHasArrived(s, init, id);
    } else {
      assert Arrival(last.msg, last.frag) in arrivals;
    }
  }

  /** All parts there: the reassembled data is the message. */
  lemma {:induction false} AssembledIsFlatten(parts: Parts, pieces: seq<Bytes>)
    requires |parts| == |pieces|
    requires forall i :: 0 <= i < |parts| ==> parts[i] == Some(pieces[i])
    ensures Assembled(parts) == Flatten(pieces)
  {
    if parts != [] {
      AssembledIsFlatten(parts[..|parts| - 1], pieces[..|parts| - 1]);
    }
  }

  /** What one arrival does to reassembly. */
  ghost predicate Progressed(s: Session, arrivals: seq<Arrival>, a: Arrival, r: Assembly)
    requires s.HasAll(arrivals) && s.HasAll(arrivals + [a]) && s.Has(a)
  {
    match r
    case Fault => false
    case Held(splits) =>
      && SplitInv(s, arrivals + [a], splits)
      && (s.Full(arrivals + [a], a.msg) ==> s.Full(arrivals, a.msg))
    case Whole(splits, data) =>
      && SplitInv(s, arrivals + [a], splits)
      && data == s.sent[a.msg].data
      && s.Full(arrivals + [a], a.msg)
  }

  lemma UnsplitArrives(s: Session, arrivals: seq<Arrival>, splits: map<u16, Parts>, a: Arrival)
    requires s.Valid() && s.HasAll(arrivals) && SplitInv(s, arrivals, splits) && s.Has(a)
    requires !NeedsSplit(s.sent[a.msg])
    ensures s.HasAll(arrivals + [a]) && Progressed(s, arrivals, a, Assemble(splits, s.At(a)))
  {
    FragmentFacts(s, a.msg, a.frag);
    hide NeedsSplit, Session.Frags, Session.SplitId, Session.Owner, Pieces, EntryOf;
    OtherEntries(s, arrivals, splits, splits, a);
    OthersInProgress(s, arrivals, splits, splits, a);
    assert s.Full(arrivals + [a], a.msg) by { assert Arrival(a.msg, 0) == a; }
    hide EntriesHold, InProgress;
  }

  /** An arrival leaves the unfinished messages alone whose entries it does not touch. */
  lemma OthersInProgress(
      s: Session, arrivals: seq<Arrival>, splits: map<u16, Parts>, splits': map<u16, Parts>, a: Arrival)
    requires s.HasAll(arrivals) && s.Has(a) && NothingForgotten(s, arrivals, splits)
    requires forall id :: id in splits && (NeedsSplit(s.sent[a.msg]) ==> id != s.SplitId(a.msg)) ==>
               id in splits' && splits'[id] == splits[id]
    requires NoCollision(s, arrivals, splits, a)
    ensures s.HasAll(arrivals + [a])
    ensures forall j :: 0 <= j < |s.sent| && j != a.msg && NeedsSplit(s.sent[j]) && s.Started(arrivals + [a], j) ==>
              s.Full(arrivals + [a], j) || InProgress(s, arrivals + [a], splits', j)
  {
    OwnerNext(s, arrivals, a);
    hide NeedsSplit, Session.Frags, Session.SplitId, Session.Owner;
    var next := arrivals + [a];
    forall j | 0 <= j < |s.sent| && j != a.msg && NeedsSplit(s.sent[j])
            && s.Started(next, j) && !s.Full(next, j)
      ensures InProgress(s, next, splits', j)
    {
      assert forall i :: Arrival(j, i) in next <==> Arrival(j, i) in arrivals;
      assert s.Started(arrivals, j) && !s.Full(arrivals, j);
      assert InProgress(s, arrivals, splits, j);
    }
  }

  /** Entries under other ids are untouched. */
  lemma OtherEntries(s: Session, arrivals: seq<Arrival>, splits: map<u16, Parts>, splits': map<u16, Parts>, a: Arrival)
    requires s.HasAll(arrivals) && s.Has(a) && EntriesHold(s, arrivals, splits)
    requires forall id :: id in splits' && (NeedsSplit(s.sent[a.msg]) ==> id != s.SplitId(a.msg)) ==>
               id in splits && splits'[id] == splits[id]
    requires NeedsSplit(s.sent[a.msg]) && s.SplitId(a.msg) in splits' ==>
               EntryOf(s, arrivals + [a], a.msg, splits'[s.SplitId(a.msg)])
    ensures s.HasAll(arrivals + [a]) && EntriesHold(s, arrivals + [a], splits')
  {
    OwnerNext(s, arrivals, a);
    hide NeedsSplit, Session.Frags, Session.SplitId, Session.Owner, EntryOf;
    var next := arrivals + [a];
    forall id | id in splits'
      ensures s.Owner(next, id).Some? && EntryOf(s, next, s.Owner(next, id).value, splits'[id])
    {
      if !NeedsSplit(s.sent[a.msg]) || id != s.SplitId(a.msg) {
        EntryStays(s, arrivals, a, s.Owner(arrivals, id).value, splits[id]);
      }
    }
  }

  lemma EntryStays(s: Session, arrivals: seq<Arrival>, a: Arrival, j: nat, parts: Parts)
    requires EntryOf(s, arrivals, j, parts)
    ensures EntryOf(s, arrivals + [a], j, parts)
  {
    hide Session.Frags;
  }

  lemma FreshEntry(s: Session, arrivals: seq<Arrival>, splits: map<u16, Parts>, a: Arrival) returns (parts: Parts)
    requires s.Valid() && s.Has(a) && NeedsSplit(s.sent[a.msg]) && s.SplitId(a.msg) !in splits
    ensures |parts| == |s.Frags(a.msg)| >= 2 && parts[a.frag].Some?
    ensures EntryOf(s, arrivals + [a], a.msg, parts)
    ensures Assemble(splits, s.At(a)) == Held(splits[s.SplitId(a.msg) := parts])
  {
    FragmentFacts(s, a.msg, a.frag);
    hide NeedsSplit, Session.Frags, Session.SplitId, Pieces;
    parts := EmptyParts(|s.Frags(a.msg)|)[a.frag := Some(s.At(a).data)];
  }

  /** The first fragment of a message, or one that comes after it was completed. */
  lemma FirstFragmentArrives(s: Session, arrivals: seq<Arrival>, splits: map<u16, Parts>, a: Arrival)
    requires s.Valid() && s.HasAll(arrivals) && SplitInv(s, arrivals, splits) && s.Has(a)
    requires NeedsSplit(s.sent[a.msg]) && s.SplitId(a.msg) !in splits
    ensures s.HasAll(arrivals + [a]) && Progressed(s, arrivals, a, Assemble(splits, s.At(a)))
  {
    var parts := FreshEntry(s, arrivals, splits, a);
    hide NeedsSplit, Session.Frags, Session.SplitId, Session.Owner, EntryOf, Assemble, InProgress;
    var j, splits', next := a.msg, splits[s.SplitId(a.msg) := parts], arrivals + [a];
    OtherEntries(s, arrivals, splits, splits', a);
    OthersInProgress(s, arrivals, splits, splits', a);
    hide EntriesHold;
    if !s.Full(arrivals, j) {
      NotStartedYet(s, arrivals, splits, j);
      FirstInProgress(s, arrivals, splits, a, parts);
    } else {
      assert s.Full(next, j);
    }
  }

  lemma NotStartedYet(s: Session, arrivals: seq<Arrival>, splits: map<u16, Parts>, j: nat)
    requires s.HasAll(arrivals) && NothingForgotten(s, arrivals, splits)
    requires j < |s.sent| && NeedsSplit(s.sent[j]) && s.SplitId(j) !in splits
    ensures s.Started(arrivals, j) ==> s.Full(arrivals, j)
  {
    hide NeedsSplit, Session.Frags, Session.SplitId, Session.Owner;
  }

  lemma FirstInProgress(s: Session, arrivals: seq<Arrival>, splits: map<u16, Parts>, a: Arrival, parts: Parts)
    requires s.HasAll(arrivals) && s.Has(a) && NeedsSplit(s.sent[a.msg]) && !s.Started(arrivals, a.msg)
    requires |parts| == |s.Frags(a.msg)| >= 2 && parts[a.frag].Some?
    ensures s.HasAll(arrivals + [a]) && !s.Full(arrivals + [a], a.msg)
    ensures InProgress(s, arrivals + [a], splits[s.SplitId(a.msg) := parts], a.msg)
  {
    OwnerNext(s, arrivals, a);
    hide NeedsSplit, Session.Frags, Session.SplitId, Session.Owner;
    var other := if a.frag == 0 then 1 else 0;
    assert Arrival(a.msg, other) !in arrivals + [a];
  }

  /** The entry of the arriving fragment's message, with the fragment put in. */
  lemma EntryWith(s: Session, arrivals: seq<Arrival>, splits: map<u16, Parts>, a: Arrival) returns (parts: Parts)
    requires s.Valid() && s.HasAll(arrivals) && EntriesHold(s, arrivals, splits) && s.Has(a)
    requires NeedsSplit(s.sent[a.msg]) && s.SplitId(a.msg) in splits && NoCollision(s, arrivals, splits, a)
    ensures a.frag < |splits[s.SplitId(a.msg)]|
    ensures parts == splits[s.SplitId(a.msg)][a.frag := Some(s.At(a).data)]
    ensures EntryOf(s, arrivals + [a], a.msg, parts)
    ensures Assemble(splits, s.At(a)) ==
            if Complete(parts) then Whole(splits - {s.SplitId(a.msg)}, Assembled(parts))
            else Held(splits[s.SplitId(a.msg) := parts])
  {
    hide NeedsSplit, Session.Frags, Session.SplitId, Session.Owner, Pieces, Assembled, Complete;
    FragmentFacts(s, a.msg, a.frag);
    var id := s.SplitId(a.msg);
    assert EntryOf(s, arrivals, a.msg, splits[id]);
    parts := splits[id][a.frag := Some(s.At(a).data)];
  }

  /** A further fragment of a message whose entry is there. */
  lemma FurtherFragmentArrives(s: Session, arrivals: seq<Arrival>, splits: map<u16, Parts>, a: Arrival)
    requires s.Valid() && s.HasAll(arrivals) && SplitInv(s, arrivals, splits) && s.Has(a)
    requires NeedsSplit(s.sent[a.msg]) && s.SplitId(a.msg) in splits && NoCollision(s, arrivals, splits, a)
    ensures s.HasAll(arrivals + [a]) && Progressed(s, arrivals, a, Assemble(splits, s.At(a)))
  {
    var parts := EntryWith(s, arrivals, splits, a);
    OwnerNext(s, arrivals, a);
    OwnerHasArrived(s, arrivals, s.SplitId(a.msg));
    hide NeedsSplit, Session.Frags, Session.SplitId, Session.Owner, Pieces, Assembled, Assemble, EntryOf, SplitInv;
    if Complete(parts) {
      WholeData(s, arrivals + [a], a.msg, parts);
      LastFragment(s, arrivals, splits, a);
    } else {
      NotLastFragment(s, arrivals, splits, a, parts);
    }
  }

  lemma LastFragment(s: Session, arrivals: seq<Arrival>, splits: map<u16, Parts>, a: Arrival)
    requires s.HasAll(arrivals) && SplitInv(s, arrivals, splits) && s.Has(a)
    requires s.HasAll(arrivals + [a]) && s.Full(arrivals + [a], a.msg)
    requires NeedsSplit(s.sent[a.msg]) && s.SplitId(a.msg) in splits && NoCollision(s, arrivals, splits, a)
    ensures SplitInv(s, arrivals + [a], splits - {s.SplitId(a.msg)})
  {
    hide NeedsSplit, Session.Frags, Session.SplitId, Session.Owner, EntryOf;
    OtherEntries(s, arrivals, splits, splits - {s.SplitId(a.msg)}, a);
    OthersInProgress(s, arrivals, splits, splits - {s.SplitId(a.msg)}, a);
    hide InProgress, EntriesHold;
  }

  lemma NotLastFragment(s: Session, arrivals: seq<Arrival>, splits: map<u16, Parts>, a: Arrival, parts: Parts)
    requires s.HasAll(arrivals) && SplitInv(s, arrivals, splits) && s.Has(a)
    requires NeedsSplit(s.sent[a.msg]) && s.SplitId(a.msg) in splits && NoCollision(s, arrivals, splits, a)
    requires s.Started(arrivals, a.msg)
    requires a.frag < |splits[s.SplitId(a.msg)]| && !Complete(parts)
    requires parts == splits[s.SplitId(a.msg)][a.frag := Some(s.At(a).data)]
    requires EntryOf(s, arrivals + [a], a.msg, parts)
    ensures s.HasAll(arrivals + [a]) && SplitInv(s, arrivals + [a], splits[s.SplitId(a.msg) := parts])
    ensures s.Full(arrivals + [a], a.msg) ==> s.Full(arrivals, a.msg)
  {
    var splits', next := splits[s.SplitId(a.msg) := parts], arrivals + [a];
    assert |parts| == |s.Frags(a.msg)|;
    hide NeedsSplit, Session.Frags, Session.SplitId, Session.Owner, EntryOf;
    OtherEntries(s, arrivals, splits, splits', a);
    OthersInProgress(s, arrivals, splits, splits', a);
    hide EntriesHold;
    if !s.Full(arrivals, a.msg) {
      assert InProgress(s, arrivals, splits, a.msg);
      StillInProgress(s, arrivals, splits, a, parts);
    } else {
      assert s.Full(next, a.msg);
    }
    hide InProgress;
  }

  lemma StillInProgress(s: Session, arrivals: seq<Arrival>, splits: map<u16, Parts>, a: Arrival, parts: Parts)
    requires s.HasAll(arrivals) && s.Has(a) && NeedsSplit(s.sent[a.msg]) && InProgress(s, arrivals, splits, a.msg)
    requires a.frag < |splits[s.SplitId(a.msg)]| && !Complete(parts)
    requires |parts| == |s.Frags(a.msg)|
    requires parts == splits[s.SplitId(a.msg)][a.frag := Some(s.At(a).data)]
    ensures s.HasAll(arrivals + [a])
    ensures InProgress(s, arrivals + [a], splits[s.SplitId(a.msg) := parts], a.msg)
    ensures !s.Full(arrivals + [a], a.msg)
  {
    OwnerNext(s, arrivals, a);
    hide NeedsSplit, Session.Frags, Session.SplitId, Session.Owner;
    var i :| 0 <= i < |parts| && parts[i].None?;
    assert Arrival(a.msg, i) !in arrivals + [a];
  }

  lemma WholeData(s: Session, arrivals: seq<Arrival>, j: nat, parts: Parts)
    requires s.Valid() && EntryOf(s, arrivals, j, parts) && Complete(parts)
    ensures s.Full(arrivals, j) && Assembled(parts) == s.sent[j].data
  {
    var pieces := Pieces(s.sent[j]);
    forall i | 0 <= i < |parts| ensures parts[i] == Some(pieces[i]) && Arrival(j, i) in arrivals {
      FragmentFacts(s, j, i);
    }
    PiecesAreExact(s.sent[j]);
    AssembledIsFlatten(parts, pieces);
  }

  /**
   * Whatever arrives next, reassembly never fails an assertion, a whole message is the message that
   * was sent, and a message is whole at the latest when its last missing fragment arrives.
   */
  lemma FragmentArrives(s: Session, arrivals: seq<Arrival>, splits: map<u16, Parts>, a: Arrival)
    requires s.Valid() && s.HasAll(arrivals) && SplitInv(s, arrivals, splits) && s.Has(a)
    requires NoCollision(s, arrivals, splits, a)
    ensures s.HasAll(arrivals + [a]) && Progressed(s, arrivals, a, Assemble(splits, s.At(a)))
  {
    hide NeedsSplit, Session.Frags, Session.SplitId, SplitInv, Progressed, Assemble;
    if !NeedsSplit(s.sent[a.msg]) {
      UnsplitArrives(s, arrivals, splits, a);
    } else if s.SplitId(a.msg) !in splits {
      FirstFragmentArrives(s, arrivals, splits, a);
    } else {
      FurtherFragmentArrives(s, arrivals, splits, a);
    }
  }

  // What reusing a split id too early does

  /**
   * A fragment that finds an entry under its split id fails exactly if its index is past the count of
   * the message the entry belongs to, which can only be another message.
   */
  lemma ReuseFaultsIff(s: Session, arrivals: seq<Arrival>, splits: map<u16, Parts>, a: Arrival)
    requires s.Valid() && s.HasAll(arrivals) && EntriesHold(s, arrivals, splits) && s.Has(a)
    requires NeedsSplit(s.sent[a.msg]) && s.SplitId(a.msg) in splits
    ensures s.Owner(arrivals, s.SplitId(a.msg)).Some? && s.Owner(arrivals, s.SplitId(a.msg)).value < |s.sent|
    ensures Assemble(splits, s.At(a)).Fault? <==>
              a.frag >= |s.Frags(s.Owner(arrivals, s.SplitId(a.msg)).value)|
  {
    FragmentFacts(s, a.msg, a.frag);
    hide NeedsSplit, Session.Frags, Session.SplitId, Session.Owner, Pieces, Assembled, Complete;
    var id := s.SplitId(a.msg);
    assert EntryOf(s, arrivals, s.Owner(arrivals, id).value, splits[id]);
  }
}
