/**
 * Message framing over TCP (src/tcpudp/mod.rs): each message is prefixed with its 32-bit length.
 * `Deframe` is the one-shot parser that the resumable receiver has to agree with.
 */
module Framing {
  import opened Words
  import opened Packets
  import opened Bits

  /** The bytes of one frame; the length is cut to 32 bits. */
  function Frame(data: Bytes): Bytes {
    LeBytes(|data|, 4) + data
  }

  function Frames(messages: seq<Bytes>): Bytes {
    if messages == [] then [] else Frames(messages[..|messages| - 1]) + Frame(messages[|messages| - 1])
  }

  /** The first frame is all there. */
  predicate HasFrame(bytes: Bytes) {
    |bytes| >= 4 && |bytes| - 4 >= LeValue(bytes[..4])
  }

  function FrameEnd(bytes: Bytes): (end: nat)
    requires HasFrame(bytes)
    ensures 4 <= end <= |bytes|
  {
    4 + LeValue(bytes[..4])
  }

  /** All complete frames of a stream, and the bytes of the unfinished one. */
  function Deframe(bytes: Bytes): (seq<Bytes>, Bytes) {
    if HasFrame(bytes) then
      var end := FrameEnd(bytes);
      var (messages, rest) := Deframe(bytes[end..]);
      ([bytes[4..end]] + messages, rest)
    else ([], bytes)
  }

  lemma FirstFrame(a: Bytes, b: Bytes)
    requires HasFrame(a)
    ensures HasFrame(a + b) && FrameEnd(a + b) == FrameEnd(a)
    ensures (a + b)[4..FrameEnd(a)] == a[4..FrameEnd(a)]
    ensures (a + b)[FrameEnd(a)..] == a[FrameEnd(a)..] + b
  {
    hide LeValue;
    assert (a + b)[..4] == a[..4];
  }

  lemma DeframeFirst(bytes: Bytes)
    requires HasFrame(bytes)
    ensures var end := FrameEnd(bytes);
            Deframe(bytes) == ([bytes[4..end]] + Deframe(bytes[end..]).0, Deframe(bytes[end..]).1)
  {
    hide HasFrame, FrameEnd;
  }

  lemma DeframeNone(bytes: Bytes)
    requires !HasFrame(bytes)
    ensures Deframe(bytes) == ([], bytes)
  {
    hide HasFrame;
  }

  /** Parsing can stop anywhere and go on later with the unfinished bytes in front. */
  lemma {:induction false} DeframeResumes(a: Bytes, b: Bytes)
    ensures var (messages, rest) := Deframe(a);
            Deframe(a + b) == (messages + Deframe(rest + b).0, Deframe(rest + b).1)
    decreases |a|
  {
    if HasFrame(a) {
      var end := FrameEnd(a);
      FirstFrame(a, b);
      DeframeResumes(a[end..], b);
      DeframeFirst(a);
      DeframeFirst(a + b);
      hide Deframe, HasFrame, FrameEnd;
      var first, later, more := a[4..end], Deframe(a[end..]).0, Deframe(Deframe(a[end..]).1 + b).0;
      assert [first] + (later + more) == ([first] + later) + more;
    } else {
      DeframeNone(a);
      hide Deframe, HasFrame;
      assert [] + Deframe(a + b).0 == Deframe(a + b).0;
    }
  }

  /** Resuming on one piece of the stream after the other. */
  function DeframePieces(pieces: seq<Bytes>): (seq<Bytes>, Bytes) {
    if pieces == [] then ([], [])
    else
      var (messages, rest) := DeframePieces(pieces[..|pieces| - 1]);
      var (more, rest') := Deframe(rest + pieces[|pieces| - 1]);
      (messages + more, rest')
  }

  /** However a stream is cut up, resuming agrees with parsing it at once. */
  lemma {:induction false} CutsDoNotMatter(pieces: seq<Bytes>)
    ensures DeframePieces(pieces) == Deframe(Flatten(pieces))
  {
    if pieces != [] {
      var init := pieces[..|pieces| - 1];
      CutsDoNotMatter(init);
      DeframeResumes(Flatten(init), pieces[|pieces| - 1]);
      hide Deframe;
    }
  }

  ghost predicate Framable(messages: seq<Bytes>) {
    forall i :: 0 <= i < |messages| ==> |messages[i]| < 0x1_0000_0000
  }

  lemma FrameParses(data: Bytes)
    requires |data| < 0x1_0000_0000
    ensures HasFrame(Frame(data)) && FrameEnd(Frame(data)) == |Frame(data)|
    ensures Frame(data)[4..] == data
  {
    var bytes := LeBytes(|data|, 4);
    LeBytesShifted(|data|, 4, 0);
    LowBytesAll(|data|, 4);
    ShiftLeftAdds(|data|, 0, 0, 0);
    assert LeValue(bytes) == |data|;
    hide LeBytes, LeValue, LeShifted;
    assert Frame(data)[..4] == bytes;
  }

  /** Parsing what was framed gives back exactly the messages, empty ones included, and nothing is left. */
  lemma {:induction false} DeframeFrames(messages: seq<Bytes>)
    requires Framable(messages)
    ensures Deframe(Frames(messages)) == (messages, [])
  {
    if messages != [] {
      var init, last := messages[..|messages| - 1], messages[|messages| - 1];
      DeframeFrames(init);
      DeframeResumes(Frames(init), Frame(last));
      OneFrame(last);
      hide *;
      assert [] + Frame(last) == Frame(last);
      assert init + [last] == messages;
      FramesLast(messages);
    }
  }

  lemma FramesLast(messages: seq<Bytes>)
    requires messages != []
    ensures Frames(messages) == Frames(messages[..|messages| - 1]) + Frame(messages[|messages| - 1])
  {
  }

  lemma FramesAppend(messages: seq<Bytes>, data: Bytes)
    ensures Frames(messages + [data]) == Frames(messages) + Frame(data)
  {
    assert (messages + [data])[..|messages|] == messages;
  }

  lemma OneFrame(data: Bytes)
    requires |data| < 0x1_0000_0000
    ensures Deframe(Frame(data)) == ([data], [])
  {
    FrameParses(data);
    DeframeFirst(Frame(data));
    var frame := Frame(data);
    hide Frame, HasFrame, FrameEnd;
    assert frame[|frame|..] == [] && frame[4..|frame|] == data;
    DeframeEmpty();
    assert [data] + [] == [data];
  }

  lemma DeframeEmpty()
    ensures Deframe([]) == ([], [])
  {
  }

  /** The bytes are the frames of the messages and the part of one more that is not complete. */
  ghost predicate ParsesTo(bytes: Bytes, messages: seq<Bytes>, rest: Bytes) {
    bytes == Frames(messages) + rest && Framable(messages) && !HasFrame(rest)
  }

  lemma {:induction false} FramesConcat(a: seq<Bytes>, b: seq<Bytes>)
    ensures Frames(a + b) == Frames(a) + Frames(b)
  {
    hide *;
    if b == [] {
      NoFrames();
      assert a + b == a;
    } else {
      var init, last := b[..|b| - 1], b[|b| - 1];
      FramesConcat(a, init);
      FramesAppend(a + init, last);
      FramesAppend(init, last);
      assert a + b == (a + init) + [last] && b == init + [last];
    }
  }

  lemma FramesCons(data: Bytes, messages: seq<Bytes>)
    ensures Frames([data] + messages) == Frame(data) + Frames(messages)
  {
    FramesConcat([data], messages);
    FramesAppend([], data);
    hide Frame, Frames;
    assert [] + [data] == [data];
    assert Frames([]) == [] by { NoFrames(); }
  }

  lemma NoFrames()
    ensures Frames([]) == []
  {
  }

  /** The bytes of a complete frame are the framed data. */
  lemma FrameAtFront(bytes: Bytes)
    requires HasFrame(bytes)
    ensures var data := bytes[4..FrameEnd(bytes)];
            |data| < 0x1_0000_0000 && bytes == Frame(data) + bytes[FrameEnd(bytes)..]
  {
    LeValueBytes(bytes[..4]);
    hide LeValue, LeBytes;
    var end := FrameEnd(bytes);
    assert |bytes[4..end]| == LeValue(bytes[..4]);
    assert bytes == bytes[..4] + bytes[4..end] + bytes[end..];
  }

  lemma {:induction false} DeframeIsExact(bytes: Bytes)
    ensures ParsesTo(bytes, Deframe(bytes).0, Deframe(bytes).1)
    decreases |bytes|
  {
    hide *;
    if HasFrame(bytes) {
      FrameAtFront(bytes);
      DeframeFirst(bytes);
      var end := FrameEnd(bytes);
      DeframeIsExact(bytes[end..]);
      ParsesOneMore(bytes[4..end], bytes[end..], Deframe(bytes[end..]).0, Deframe(bytes[end..]).1);
    } else {
      DeframeNone(bytes);
      ParsesNone(bytes);
    }
  }

  lemma ParsesOneMore(data: Bytes, bytes: Bytes, messages: seq<Bytes>, rest: Bytes)
    requires |data| < 0x1_0000_0000 && ParsesTo(bytes, messages, rest)
    ensures ParsesTo(Frame(data) + bytes, [data] + messages, rest)
  {
    FramesCons(data, messages);
    hide Frame, Frames, HasFrame;
    assert Frame(data) + (Frames(messages) + rest) == Frame(data) + Frames(messages) + rest;
  }

  lemma ParsesNone(bytes: Bytes)
    requires !HasFrame(bytes)
    ensures ParsesTo(bytes, [], bytes)
  {
    hide HasFrame;
    assert Frames([]) + bytes == bytes;
  }

  /**
   * What the parser finds, without the parser: the bytes are the encoding of the packets delivered
   * and of the partial state, which is not a whole frame, and nothing else is.
   */
  lemma DeframeIff(bytes: Bytes, messages: seq<Bytes>, rest: Bytes)
    ensures Deframe(bytes) == (messages, rest) <==> ParsesTo(bytes, messages, rest)
  {
    DeframeIsExact(bytes);
    if ParsesTo(bytes, messages, rest) {
      DeframeFrames(messages);
      DeframeResumes(Frames(messages), rest);
      DeframeNone(rest);
      hide Deframe, Frames, HasFrame;
      assert [] + rest == rest && messages + [] == messages;
    }
  }

  /** The equation carries over from one call to the next. */
  lemma ParsesOn(total: Bytes, messages: seq<Bytes>, pending: Bytes, got: Bytes, more: seq<Bytes>, rest: Bytes)
    requires ParsesTo(total, messages, pending) && ParsesTo(pending + got, more, rest)
    ensures ParsesTo(total + got, messages + more, rest)
  {
    FramesConcat(messages, more);
    hide Frames, HasFrame;
    assert total + got == Frames(messages) + (pending + got);
  }

  /**
   * At every moment exactly the messages have been delivered whose frames are complete: they are the
   * first ones sent, all of their bytes are there, and some byte of the next one is missing.
   */
  lemma ReceivedSoFar(messages: seq<Bytes>, k: nat)
    requires Framable(messages) && k <= |Frames(messages)|
    ensures var (got, rest) := Deframe(Frames(messages)[..k]);
            && got <= messages
            && |Frames(got)| <= k && rest == Frames(messages)[|Frames(got)|..k]
            && (|got| < |messages| ==> k < |Frames(messages[..|got| + 1])|)
  {
    hide *;
    var stream := Frames(messages);
    var (got, rest) := Deframe(stream[..k]);
    assert got <= messages by {
      DeframeFrames(messages);
      DeframeResumes(stream[..k], stream[k..]);
      assert stream[..k] + stream[k..] == stream;
    }
    assert stream[..k] == Frames(got) + rest by {
      DeframeIsExact(stream[..k]);
      ParsesToIsEncoding(stream[..k], got, rest);
    }
    assert rest == stream[|Frames(got)|..k];
    if |got| < |messages| && k >= |Frames(messages[..|got| + 1])| {
      CompleteAreDelivered(messages, k, |got| + 1);
    }
  }

  lemma ParsesToIsEncoding(bytes: Bytes, messages: seq<Bytes>, rest: Bytes)
    requires ParsesTo(bytes, messages, rest)
    ensures bytes == Frames(messages) + rest
  {
  }

  lemma CompleteAreDelivered(messages: seq<Bytes>, k: nat, n: nat)
    requires Framable(messages) && n <= |messages|
    requires |Frames(messages[..n])| <= k <= |Frames(messages)|
    ensures n <= |Deframe(Frames(messages)[..k]).0|
  {
    hide Deframe, Frames;
    var stream, first := Frames(messages), messages[..n];
    assert messages == first + messages[n..];
    FramesConcat(first, messages[n..]);
    var more := stream[|Frames(first)|..k];
    assert stream[..k] == Frames(first) + more;
    DeframeFrames(first);
    DeframeResumes(Frames(first), more);
  }

  /** What a receiver that has consumed `total` has delivered, with `pending` not yet parsed. */
  ghost predicate Progress(total: Bytes, messages: seq<Bytes>, pending: Bytes) {
    Deframe(total) == (messages + Deframe(pending).0, Deframe(pending).1)
  }

  lemma ProgressReads(total: Bytes, messages: seq<Bytes>, pending: Bytes, got: Bytes)
    requires Progress(total, messages, pending)
    ensures Progress(total + got, messages, pending + got)
  {
    DeframeResumes(total, got);
    DeframeResumes(pending, got);
    hide Deframe;
    var (first, rest) := Deframe(pending);
    assert messages + first + Deframe(rest + got).0 == messages + (first + Deframe(rest + got).0);
  }

  lemma ProgressStarts(start: Bytes, stream: Bytes)
    ensures Progress(start + stream[..0], [], start)
  {
    hide Deframe;
    assert start + stream[..0] == start;
    assert [] + Deframe(start).0 == Deframe(start).0;
  }

  /** Reading `n` more bytes of the stream. */
  lemma ProgressAdvances(start: Bytes, stream: Bytes, k: nat, n: nat, messages: seq<Bytes>, pending: Bytes)
    returns (k': nat)
    requires k + n <= |stream| && Progress(start + stream[..k], messages, pending)
    ensures k' == k + n && stream[k..][n..] == stream[k'..]
    ensures Progress(start + stream[..k'], messages, pending + stream[k..][..n])
  {
    hide Progress;
    ProgressReads(start + stream[..k], messages, pending, stream[k..][..n]);
    k' := k + n;
    assert start + stream[..k] + stream[k..][..n] == start + stream[..k'];
  }

  /** A complete packet leaves the pending bytes. */
  lemma ProgressCompletes(total: Bytes, messages: seq<Bytes>, length: Bytes, data: Bytes)
    requires |length| == 4 && |data| == LeValue(length)
    requires Progress(total, messages, length + data)
    ensures Progress(total, messages + [data], [])
  {
    var bytes := length + data;
    hide LeValue;
    assert bytes[..4] == length;
    DeframeFirst(bytes);
    DeframeEmpty();
    assert bytes[FrameEnd(bytes)..] == [] && bytes[4..FrameEnd(bytes)] == data;
    hide Deframe;
    assert messages + ([data] + []) == messages + [data] + [];
  }

  lemma ProgressPends(total: Bytes, messages: seq<Bytes>, pending: Bytes)
    requires Progress(total, messages, pending)
    requires |pending| < 4 || |pending| - 4 < LeValue(pending[..4])
    ensures Deframe(total) == (messages, pending)
  {
    DeframeNone(pending);
    hide Deframe;
    assert messages + [] == messages;
  }
}
