/** Sequenced messages by their position in a list and by their number: what the filter keeps of them. */
module Numbering {
  import opened Words
  import opened Packets
  import opened Sequenced

  /** Positions in a list of messages. */
  predicate Listed(sent: seq<Packet>, js: seq<nat>) {
    forall i :: 0 <= i < |js| ==> js[i] < |sent|
  }

  function Messages(sent: seq<Packet>, js: seq<nat>): (ps: seq<Packet>)
    requires Listed(sent, js)
    ensures |ps| == |js|
  {
    seq(|js|, i requires 0 <= i < |js| => sent[js[i]])
  }

  predicate IsSequenced(sent: seq<Packet>, j: nat) {
    j < |sent| && sent[j].reliability.UnreliableSequenced?
  }

  predicate AllSequenced(sent: seq<Packet>, js: seq<nat>) {
    forall i :: 0 <= i < |js| ==> IsSequenced(sent, js[i])
  }

  /** Those of the messages that are sequenced. */
  function SequencedOf(sent: seq<Packet>, js: seq<nat>): (ks: seq<nat>)
    ensures AllSequenced(sent, ks)
    ensures forall j :: j in ks <==> j in js && IsSequenced(sent, j)
  {
    if js == [] then []
    else
      var before, last := SequencedOf(sent, js[..|js| - 1]), js[|js| - 1];
      if IsSequenced(sent, last) then before + [last] else before
  }

  lemma SequencedOfNext(sent: seq<Packet>, js: seq<nat>, j: nat)
    ensures SequencedOf(sent, []) == []
    ensures SequencedOf(sent, js + [j]) == SequencedOf(sent, js) + if IsSequenced(sent, j) then [j] else []
  {
    hide IsSequenced, AllSequenced;
    assert (js + [j])[..|js|] == js;
  }

  lemma {:induction false} SequencedOfAppends(sent: seq<Packet>, js: seq<nat>, ks: seq<nat>)
    ensures SequencedOf(sent, js + ks) == SequencedOf(sent, js) + SequencedOf(sent, ks)
  {
    hide *;
    if ks == [] {
      SequencedOfNext(sent, js, 0);
      assert js + ks == js;
    } else {
      var init, last := ks[..|ks| - 1], ks[|ks| - 1];
      SequencedOfAppends(sent, js, init);
      SequencedOfNext(sent, js + init, last);
      SequencedOfNext(sent, init, last);
      assert js + ks == (js + init) + [last] && ks == init + [last];
    }
  }

  /** The unbounded sequence number of the message at `j`, counted from the start of the list. */
  function SeqOrd(sent: seq<Packet>, j: nat): nat
    requires j <= |sent|
  {
    |SequencedOnly(sent[..j])|
  }

  function ItemsOf(base: u32, sent: seq<Packet>, js: seq<nat>): (items: seq<Item>)
    requires AllSequenced(sent, js)
    ensures |items| == |js|
  {
    seq(|js|, i requires 0 <= i < |js| => Item(base + SeqOrd(sent, js[i]), sent[js[i]].data))
  }

  /** Those later than all before them. */
  function Records(js: seq<nat>): (ks: seq<nat>)
    ensures forall i :: 0 <= i < |ks| ==> ks[i] in js
  {
    if js == [] then []
    else
      var init, last := js[..|js| - 1], js[|js| - 1];
      if forall i :: 0 <= i < |init| ==> init[i] < last then Records(init) + [last] else Records(init)
  }

  /** Each is later than the one before, and the latest of all is among them. */
  lemma {:induction false} RecordsIncrease(js: seq<nat>)
    ensures forall i, j :: 0 <= i < j < |Records(js)| ==> Records(js)[i] < Records(js)[j]
    ensures js != [] ==> Records(js) != [] && forall i :: 0 <= i < |js| ==> js[i] <= Records(js)[|Records(js)| - 1]
  {
    if js != [] {
      RecordsIncrease(js[..|js| - 1]);
    }
  }

  lemma {:induction false} SeqOrdGrows(sent: seq<Packet>, j: nat, k: nat)
    requires j < k <= |sent|
    ensures SeqOrd(sent, j) + (if sent[j].reliability.UnreliableSequenced? then 1 else 0) <= SeqOrd(sent, k)
    decreases k
  {
    assert sent[..k][..k - 1] == sent[..k - 1];
    if j < k - 1 {
      SeqOrdGrows(sent, j, k - 1);
    }
  }

  lemma SeqOrdOrders(sent: seq<Packet>, j: nat, k: nat)
    requires IsSequenced(sent, j) && IsSequenced(sent, k)
    ensures j < k <==> SeqOrd(sent, j) < SeqOrd(sent, k)
  {
    if j < k {
      SeqOrdGrows(sent, j, k);
    } else if k < j {
      SeqOrdGrows(sent, k, j);
    }
  }

  /** Newest by number is latest by position. */
  lemma {:induction false} NewestAreRecords(base: u32, sent: seq<Packet>, js: seq<nat>)
    requires AllSequenced(sent, js)
    ensures AllSequenced(sent, Records(js))
    ensures AsPackets(Newest(base, ItemsOf(base, sent, js))) == Messages(sent, Records(js))
  {
    if js != [] {
      var init, last := js[..|js| - 1], js[|js| - 1];
      NewestAreRecords(base, sent, init);
      OneMoreItem(base, sent, init, last);
      assert init + [last] == js;
      hide SeqOrd, Newest, ItemsOf, AsPackets, Messages;
      AsPacketsAppend(Newest(base, ItemsOf(base, sent, init)), ItemsOf(base, sent, [last])[0]);
      MessagesAppend(sent, Records(init), last);
    }
  }

  lemma AsPacketsAppend(items: seq<Item>, item: Item)
    ensures AsPackets(items + [item]) == AsPackets(items) + [Packet(UnreliableSequenced, item.data)]
  {
  }

  lemma MessagesAppend(sent: seq<Packet>, js: seq<nat>, j: nat)
    requires Listed(sent, js) && j < |sent|
    ensures Listed(sent, js + [j]) && Messages(sent, js + [j]) == Messages(sent, js) + [sent[j]]
  {
  }

  lemma OneMoreItem(base: u32, sent: seq<Packet>, js: seq<nat>, last: nat)
    requires AllSequenced(sent, js) && IsSequenced(sent, last)
    ensures AllSequenced(sent, js + [last]) && AllSequenced(sent, [last])
    ensures Packet(UnreliableSequenced, ItemsOf(base, sent, [last])[0].data) == sent[last]
    ensures var item := ItemsOf(base, sent, [last])[0];
            Newest(base, ItemsOf(base, sent, js + [last])) ==
            if forall i :: 0 <= i < |js| ==> js[i] < last
            then Newest(base, ItemsOf(base, sent, js)) + [item] else Newest(base, ItemsOf(base, sent, js))
  {
    var before, item := ItemsOf(base, sent, js), ItemsOf(base, sent, [last])[0];
    LaterIff(base, sent, js, last);
    hide SeqOrd, Newest;
    assert ItemsOf(base, sent, js + [last]) == before + [item];
    hide ItemsOf;
    KeptIff(base, before, item);
  }

  lemma LaterIff(base: u32, sent: seq<Packet>, js: seq<nat>, last: nat)
    requires AllSequenced(sent, js) && IsSequenced(sent, last) && AllSequenced(sent, [last])
    ensures var before, item := ItemsOf(base, sent, js), ItemsOf(base, sent, [last])[0];
            && base <= item.n
            && ((forall i :: 0 <= i < |js| ==> before[i].n < item.n) <==> (forall i :: 0 <= i < |js| ==> js[i] < last))
  {
    var before, item := ItemsOf(base, sent, js), ItemsOf(base, sent, [last])[0];
    forall i | 0 <= i < |js| ensures before[i].n < item.n <==> js[i] < last {
      SeqOrdOrders(sent, js[i], last);
    }
    hide SeqOrd, IsSequenced, ItemsOf;
  }

  lemma WrappedItemsConcat(base: u32, sent: seq<Packet>, js: seq<nat>, ks: seq<nat>)
    requires AllSequenced(sent, js) && AllSequenced(sent, ks)
    ensures AllSequenced(sent, js + ks)
    ensures Wrapped(ItemsOf(base, sent, js + ks)) ==
            Wrapped(ItemsOf(base, sent, js)) + Wrapped(ItemsOf(base, sent, ks))
  {
    hide SeqOrd, Wrap32, IsSequenced;
  }

  lemma OneWrapped(base: u32, sent: seq<Packet>, j: nat)
    requires IsSequenced(sent, j)
    ensures AllSequenced(sent, [j])
    ensures Wrapped(ItemsOf(base, sent, [j])) == [Numbered(Wrap32(base + SeqOrd(sent, j)), sent[j].data)]
  {
    hide SeqOrd, Wrap32;
  }

  /** With at most 2^31-1 sequenced messages no run leaves the window. */
  lemma {:induction false} FewInWindow(base: u32, sent: seq<Packet>, js: seq<nat>)
    requires AllSequenced(sent, js) && |SequencedOnly(sent)| <= 0x7fff_ffff
    ensures var items := ItemsOf(base, sent, js);
            InWindowRun(base, items) && base <= Expected(base, items) <= base + |SequencedOnly(sent)|
  {
    if js != [] {
      var init, last := js[..|js| - 1], js[|js| - 1];
      FewInWindow(base, sent, init);
      SeqOrdBound(sent, last);
      var items := ItemsOf(base, sent, js);
      assert items[..|init|] == ItemsOf(base, sent, init);
      assert items[|init|].n == base + SeqOrd(sent, last);
      hide *;
      InWindowNext(base, items, |SequencedOnly(sent)|);
    }
  }

  lemma InWindowNext(base: u32, items: seq<Item>, count: nat)
    requires items != [] && count <= 0x7fff_ffff
    requires var init, last := items[..|items| - 1], items[|items| - 1];
             InWindowRun(base, init) && base <= Expected(base, init) <= base + count && base <= last.n < base + count
    ensures InWindowRun(base, items) && base <= Expected(base, items) <= base + count
  {
  }

  lemma SeqOrdBound(sent: seq<Packet>, j: nat)
    requires IsSequenced(sent, j)
    ensures SeqOrd(sent, j) < |SequencedOnly(sent)|
  {
    SeqOrdGrows(sent, j, |sent|);
    assert sent[..|sent|] == sent;
  }
}
