/**
 * One device connection, `handle` (tcpserver.py:123-190): receive a chunk,
 * append it to `recv_buf`, extract the frames, and for each frame in order
 * forward it to the backend, write the ack token and echo its digit text.
 *
 * The socket and the backend are oracles. `recvs` is what the successive
 * `recv` calls deliver. `backend(t, p)` is the outcome of the forward made
 * when `t` events have been recorded, and `sendOk(t)` whether the write
 * recorded at position `t` of the trace went through.
 */
module Session {
  import opened Protocol
  import opened Extractor
  import opened Chunking
  import ExtractorFacts
  import opened Forwarder

  /** The ack written when the backend accepted the reading (tcpserver.py:19). */
  const SUCCESS: string := "code=0000"
  /** The ack written otherwise (tcpserver.py:20). */
  const FAILURE: string := "code=0001"
  /** `ECHO_VALUE` (tcpserver.py:23): the digit text is written back after the ack. */
  const EchoValue: bool := true

  /** What one `recv` call gives: bytes (empty when the peer closed), or an exception. */
  datatype ReadEvent = Received(data: seq<byte>) | Interrupted

  /** An empty chunk, a timeout, a reset or any other exception ends the session. */
  predicate EndsSession(ev: ReadEvent) {
    ev.Interrupted? || |ev.data| == 0
  }

  /** What the session does to the outside world, in order. */
  datatype Event =
    | Forwarded(payload: Payload, ok: bool)
    | Sent(message: string, delivered: bool)

  /** The chunks appended to `recv_buf` before the session ends. */
  function ReceivedChunks(recvs: seq<ReadEvent>): (r: seq<seq<byte>>)
    ensures |r| <= |recvs|
    ensures forall k :: 0 <= k < |r| ==> |r[k]| > 0 && recvs[k] == Received(r[k])
  {
    if recvs == [] || EndsSession(recvs[0]) then []
    else [recvs[0].data] + ReceivedChunks(recvs[1..])
  }

  /** `SUCCESS if ok else FAILURE`: the two tokens differ, so the device can tell the outcomes apart. */
  function Ack(ok: bool): (a: string)
    ensures a == SUCCESS <==> ok
    ensures a == FAILURE <==> !ok
  {
    if ok then SUCCESS else FAILURE
  }

  /** The events of one frame handled when `t` events have been recorded (tcpserver.py:146-173). */
  function FrameEvents(fr: Frame, t: nat, backend: (nat, Payload) -> HttpOutcome, sendOk: nat -> bool): (es: seq<Event>)
    ensures |es| == 3
  {
    var payload := MakePayload(fr.id, fr.valueInt);
    var ok := Upload(backend(t, payload)).ok;
    [Forwarded(payload, ok), Sent(Ack(ok), sendOk(t + 1))]
      + (if EchoValue then [Sent(fr.valueStr, sendOk(t + 2))] else [])
  }

  /** The events of the frames `fs` handled one after another. */
  function FramesEvents(fs: seq<Frame>, backend: (nat, Payload) -> HttpOutcome, sendOk: nat -> bool): (es: seq<Event>)
    ensures |es| == 3 * |fs|
  {
    if fs == [] then []
    else
      var prior := FramesEvents(fs[..|fs| - 1], backend, sendOk);
      prior + FrameEvents(fs[|fs| - 1], |prior|, backend, sendOk)
  }

  /** The frames the session extracts; each is a reading the backend parser accepts. */
  function SessionFrames(recvs: seq<ReadEvent>): (fs: seq<Frame>)
    ensures forall fr :: fr in fs ==> ExtractorFacts.WellFormedFrame(fr) && ExtractorFacts.BackendAccepts(fr)
  {
    FedFramesParse([], ReceivedChunks(recvs));
    FeedAsWritten([], ReceivedChunks(recvs)).frames
  }

  /**
   * Everything the session does, given what it receives and what its oracles
   * answer: three events for each frame extracted.
   */
  function SessionTrace(recvs: seq<ReadEvent>, backend: (nat, Payload) -> HttpOutcome, sendOk: nat -> bool): (es: seq<Event>)
    ensures |es| == 3 * |SessionFrames(recvs)|
  {
    FramesEvents(SessionFrames(recvs), backend, sendOk)
  }

  lemma FramesEventsSnoc(fs: seq<Frame>, fr: Frame, backend: (nat, Payload) -> HttpOutcome, sendOk: nat -> bool)
    ensures FramesEvents(fs + [fr], backend, sendOk)
      == FramesEvents(fs, backend, sendOk) + FrameEvents(fr, 3 * |fs|, backend, sendOk)
  {
    assert (fs + [fr])[..|fs|] == fs;
  }

  /** `recv_buf.extend(chunk)` then `extract_frames(recv_buf)` (tcpserver.py:139-142). */
  method AppendAndExtract(recvBuf: ByteBuffer, chunk: seq<byte>, ghost chunks: seq<seq<byte>>) returns (frames: seq<Frame>)
    requires recvBuf.bytes == FeedAsWritten([], chunks).rest
    modifies recvBuf
    ensures recvBuf.bytes == FeedAsWritten([], chunks + [chunk]).rest
    ensures FeedAsWritten([], chunks + [chunk]).frames == FeedAsWritten([], chunks).frames + frames
  {
    recvBuf.Extend(chunk);
    frames := ExtractFrames(recvBuf);
    FeedAsWrittenSnoc([], chunks, chunk);
  }

  /**
   * The `for fr in frames` loop of tcpserver.py:146-173: forward the reading,
   * write the ack token for the outcome, echo the digit text. A failed write
   * is only logged, so its outcome is recorded and the loop goes on.
   */
  method ForwardFrames(frames: seq<Frame>, backend: (nat, Payload) -> HttpOutcome, sendOk: nat -> bool,
                       ghost handled: seq<Frame>, trace0: seq<Event>)
    returns (trace: seq<Event>)
    requires trace0 == FramesEvents(handled, backend, sendOk)
    ensures trace == FramesEvents(handled + frames, backend, sendOk)
  {
    trace := trace0;
    assert handled + frames[..0] == handled;
    for k := 0 to |frames|
      invariant trace == FramesEvents(handled + frames[..k], backend, sendOk)
    {
      var fr := frames[k];
      ghost var prior := trace;
      var t := |trace|;
      var payload := MakePayload(fr.id, fr.valueInt);
      var ok := Upload(backend(t, payload)).ok;
      trace := trace + [Forwarded(payload, ok)];
      trace := trace + [Sent(Ack(ok), sendOk(t + 1))];
      if EchoValue {
        trace := trace + [Sent(fr.valueStr, sendOk(t + 2))];
      }
      AppendThree(prior, Forwarded(payload, ok), Sent(Ack(ok), sendOk(t + 1)), Sent(fr.valueStr, sendOk(t + 2)));
      FrameEventsSteps(fr, t, backend, sendOk);
      assert trace == prior + FrameEvents(fr, t, backend, sendOk);
      FramesEventsSnoc(handled + frames[..k], fr, backend, sendOk);
      SnocSlice(handled, frames, k);
    }
    assert frames[..|frames|] == frames;
  }

  /** The three events of one frame, spelled out. */
  lemma FrameEventsSteps(fr: Frame, t: nat, backend: (nat, Payload) -> HttpOutcome, sendOk: nat -> bool)
    ensures var payload := MakePayload(fr.id, fr.valueInt);
      var ok := Upload(backend(t, payload)).ok;
      FrameEvents(fr, t, backend, sendOk)
        == [Forwarded(payload, ok), Sent(Ack(ok), sendOk(t + 1)), Sent(fr.valueStr, sendOk(t + 2))]
  {
  }

  lemma AppendThree<T>(s: seq<T>, a: T, b: T, c: T)
    ensures s + [a] + [b] + [c] == s + [a, b, c]
  {
  }

  lemma SnocSlice<T>(s: seq<T>, t: seq<T>, k: nat)
    requires k < |t|
    ensures (s + t[..k]) + [t[k]] == s + t[..k + 1]
  {
    assert t[..k + 1] == t[..k] + [t[k]];
  }

  /** How the received events continue from `r`: an end, or one more chunk. */
  lemma ReceivedChunksStep(recvs: seq<ReadEvent>, r: nat)
    requires r < |recvs|
    ensures EndsSession(recvs[r]) ==> ReceivedChunks(recvs[r..]) == []
    ensures !EndsSession(recvs[r]) ==> ReceivedChunks(recvs[r..]) == [recvs[r].data] + ReceivedChunks(recvs[r + 1..])
  {
    assert recvs[r..][0] == recvs[r];
    assert recvs[r..][1..] == recvs[r + 1..];
  }

  /**
   * The loop of `handle`: the buffer starts empty; each chunk is appended and
   * the extractor run on the buffer; each frame is forwarded, then the ack
   * token and the digit text are written.
   */
  method Handle(recvs: seq<ReadEvent>, backend: (nat, Payload) -> HttpOutcome, sendOk: nat -> bool)
    returns (trace: seq<Event>)
    ensures trace == SessionTrace(recvs, backend, sendOk)
  {
    var recvBuf := new ByteBuffer();
    ghost var chunks: seq<seq<byte>> := [];
    trace := [];
    var r := 0;
    while r < |recvs|
      invariant 0 <= r <= |recvs|
      invariant ReceivedChunks(recvs) == chunks + ReceivedChunks(recvs[r..])
      invariant recvBuf.bytes == FeedAsWritten([], chunks).rest
      invariant trace == FramesEvents(FeedAsWritten([], chunks).frames, backend, sendOk)
    {
      var ev := recvs[r];
      ReceivedChunksStep(recvs, r);
      if ev.Interrupted? {
        // timeout, reset or any other exception
        break;
      }
      var chunk := ev.data;
      if |chunk| == 0 {
        // connection lost
        break;
      }
      r := r + 1;
      ghost var handled := FeedAsWritten([], chunks).frames;
      ExtractorFacts.AppendAssoc(chunks, [chunk], ReceivedChunks(recvs[r..]));
      var frames := AppendAndExtract(recvBuf, chunk, chunks);
      chunks := chunks + [chunk];
      if |frames| == 0 {
        assert handled + frames == handled;
        continue;
      }
      trace := ForwardFrames(frames, backend, sendOk, handled, trace);
    }
    assert chunks == ReceivedChunks(recvs);
  }

  /**
   * The events at positions `t` to `t + 2` are those of frame `fr` handled
   * when `t` events had been recorded: its forward, the ack token for the
   * backend's answer, and its digit text.
   */
  predicate EventsAt(es: seq<Event>, t: nat, fr: Frame, backend: (nat, Payload) -> HttpOutcome, sendOk: nat -> bool) {
    var payload := MakePayload(fr.id, fr.valueInt);
    var ok := Upload(backend(t, payload)).ok;
    && t + 3 <= |es|
    && es[t] == Forwarded(payload, ok)
    && es[t + 1] == Sent(Ack(ok), sendOk(t + 1))
    && es[t + 2] == Sent(fr.valueStr, sendOk(t + 2))
  }

  /**
   * For each frame, in the order extracted: exactly one forward, then the ack
   * matching its outcome, then the digit text.
   */
  lemma {:induction false} FramesEventsIndex(fs: seq<Frame>, backend: (nat, Payload) -> HttpOutcome, sendOk: nat -> bool, k: nat)
    requires k < |fs|
    ensures |FramesEvents(fs, backend, sendOk)| == 3 * |fs|
    ensures EventsAt(FramesEvents(fs, backend, sendOk), 3 * k, fs[k], backend, sendOk)
    decreases |fs|
  {
    var init := fs[..|fs| - 1];
    var prior := FramesEvents(init, backend, sendOk);
    var tail := FrameEvents(fs[|fs| - 1], |prior|, backend, sendOk);
    assert FramesEvents(fs, backend, sendOk) == prior + tail;
    if k < |init| {
      FramesEventsIndex(init, backend, sendOk, k);
      assert init[k] == fs[k];
      EventsAtPrefix(prior, tail, 3 * k, fs[k], backend, sendOk);
    } else {
      assert |prior| == 3 * k;
      LastFrameEvents(prior, fs[|fs| - 1], backend, sendOk);
    }
  }

  lemma EventsAtPrefix(prior: seq<Event>, tail: seq<Event>, t: nat, fr: Frame, backend: (nat, Payload) -> HttpOutcome, sendOk: nat -> bool)
    requires EventsAt(prior, t, fr, backend, sendOk)
    ensures EventsAt(prior + tail, t, fr, backend, sendOk)
  {
  }

  lemma LastFrameEvents(prior: seq<Event>, fr: Frame, backend: (nat, Payload) -> HttpOutcome, sendOk: nat -> bool)
    ensures EventsAt(prior + FrameEvents(fr, |prior|, backend, sendOk), |prior|, fr, backend, sendOk)
  {
    FrameEventsSteps(fr, |prior|, backend, sendOk);
  }

  /** Two events that differ at most in whether a write went through. */
  predicate SameAction(a: Event, b: Event) {
    if a.Sent? then b.Sent? && a.message == b.message else a == b
  }

  /**
   * A failed write is logged and changes nothing else: the session forwards
   * and writes the same things whichever writes go through.
   */
  lemma {:induction false} WriteFailuresIgnored(fs: seq<Frame>, backend: (nat, Payload) -> HttpOutcome, s1: nat -> bool, s2: nat -> bool)
    ensures var t1, t2 := FramesEvents(fs, backend, s1), FramesEvents(fs, backend, s2);
      |t1| == |t2| && forall i :: 0 <= i < |t1| ==> SameAction(t1[i], t2[i])
    decreases |fs|
  {
    if fs != [] {
      var init := fs[..|fs| - 1];
      WriteFailuresIgnored(init, backend, s1, s2);
      var t1, t2 := FramesEvents(fs, backend, s1), FramesEvents(fs, backend, s2);
      var n := 3 * |init|;
      forall i | 0 <= i < |t1| ensures SameAction(t1[i], t2[i]) {
        if i < n {
          assert t1[i] == FramesEvents(init, backend, s1)[i];
          assert t2[i] == FramesEvents(init, backend, s2)[i];
        }
      }
    }
  }

  /** Nothing is read, forwarded or written after the event that ends the session. */
  lemma {:induction false} SessionEndsAt(pre: seq<ReadEvent>, end: ReadEvent, post: seq<ReadEvent>)
    requires forall k :: 0 <= k < |pre| ==> !EndsSession(pre[k])
    requires EndsSession(end)
    ensures ReceivedChunks(pre + [end] + post) == ReceivedChunks(pre)
    ensures |ReceivedChunks(pre)| == |pre|
    decreases |pre|
  {
    var all := pre + [end] + post;
    if pre == [] {
      assert all[0] == end;
    } else {
      assert all[0] == pre[0];
      assert all[1..] == pre[1..] + [end] + post;
      SessionEndsAt(pre[1..], end, post);
    }
  }

  /** The session's trace depends only on the recvs before the one that ends it. */
  lemma SessionTraceEndsAt(pre: seq<ReadEvent>, end: ReadEvent, post: seq<ReadEvent>,
                           backend: (nat, Payload) -> HttpOutcome, sendOk: nat -> bool)
    requires forall k :: 0 <= k < |pre| ==> !EndsSession(pre[k])
    requires EndsSession(end)
    ensures SessionTrace(pre + [end] + post, backend, sendOk) == SessionTrace(pre, backend, sendOk)
  {
    SessionEndsAt(pre, end, post);
  }

  /** An empty first chunk: the session ends with no forward and no write. */
  lemma EmptyChunkFirst(post: seq<ReadEvent>, backend: (nat, Payload) -> HttpOutcome, sendOk: nat -> bool)
    ensures SessionTrace([Received([])] + post, backend, sendOk) == []
  {
    SessionTraceEndsAt([], Received([]), post, backend, sendOk);
    assert [] + [Received([])] + post == [Received([])] + post;
  }

  /**
   * The frame `66 31 35 35 BB` after a stray `00`, split after its id byte,
   * is never forwarded and nothing is written back.
   */
  lemma SplitFrameSession(backend: (nat, Payload) -> HttpOutcome, sendOk: nat -> bool)
    ensures SessionTrace([Received([0x00, 0x66, 0x31]), Received([0x35, 0x35, 0xBB])], backend, sendOk) == []
  {
    var split := [Received([0x00, 0x66, 0x31]), Received([0x35, 0x35, 0xBB])];
    assert ReceivedChunks(split) == [[0x00, 0x66, 0x31], [0x35, 0x35, 0xBB]] by {
      assert split[1..] == [Received([0x35, 0x35, 0xBB])];
      assert split[1..][1..] == [];
    }
    SplitFrameLostAsWritten();
  }

  /** The same bytes in one chunk are forwarded as id "0x31", value 5, acknowledged and echoed. */
  lemma WholeFrameSession(backend: (nat, Payload) -> HttpOutcome, sendOk: nat -> bool)
    ensures var t := SessionTrace([Received([0x00, 0x66, 0x31, 0x35, 0x35, 0xBB])], backend, sendOk);
      var ok := Upload(backend(0, Payload("0x31", 5))).ok;
      t == [Forwarded(Payload("0x31", 5), ok), Sent(Ack(ok), sendOk(1)), Sent("5", sendOk(2))]
  {
    WholeFrameExtracted();
    OneFrameEvents(Frame(0x31, 1, "5", 5, "66313535bb"), backend, sendOk);
    FormatIdExamples();
  }

  lemma OneFrameEvents(fr: Frame, backend: (nat, Payload) -> HttpOutcome, sendOk: nat -> bool)
    ensures var payload := MakePayload(fr.id, fr.valueInt);
      var ok := Upload(backend(0, payload)).ok;
      FramesEvents([fr], backend, sendOk) == [Forwarded(payload, ok), Sent(Ack(ok), sendOk(1)), Sent(fr.valueStr, sendOk(2))]
  {
    FramesEventsSnoc([], fr, backend, sendOk);
    assert [] + [fr] == [fr];
    FrameEventsSteps(fr, 0, backend, sendOk);
  }

  lemma WholeFrameExtracted()
    ensures SessionFrames([Received([0x00, 0x66, 0x31, 0x35, 0x35, 0xBB])]) == [Frame(0x31, 1, "5", 5, "66313535bb")]
  {
    var one: seq<ReadEvent> := [Received([0x00, 0x66, 0x31, 0x35, 0x35, 0xBB])];
    var whole: seq<byte> := [0x00, 0x66, 0x31, 0x35, 0x35, 0xBB];
    assert ReceivedChunks(one) == [whole] by {
      assert one[1..] == [];
    }
    FeedAsWrittenSnoc([], [], whole);
    assert [] + [whole] == [whole];
    assert [] + whole == whole;
    SplitFrameLostAsWritten();
  }

  /** The frames the session would extract with the intended single trim. */
  function SessionFramesIntended(recvs: seq<ReadEvent>): seq<Frame> {
    FeedIntended([], ReceivedChunks(recvs)).frames
  }

  /** With the intended trim the session extracts the frames of everything it received, read as one. */
  lemma SessionFramesIntendedWhole(recvs: seq<ReadEvent>)
    ensures SessionFramesIntended(recvs) == ExtractIntended(Concat(ReceivedChunks(recvs))).frames
  {
    var chunks := ReceivedChunks(recvs);
    if chunks == [] {
      assert Scan([], 0, []) == Scanned([], Cleared);
    } else {
      FeedIntendedIsWhole([], chunks);
      assert [] + Concat(chunks) == Concat(chunks);
    }
  }

  /**
   * Corrected behaviour: two connections delivering the same bytes, however
   * the network splits them into chunks, lead to the same forwards and writes.
   */
  lemma IntendedSessionIgnoresChunking(r1: seq<ReadEvent>, r2: seq<ReadEvent>,
                                       backend: (nat, Payload) -> HttpOutcome, sendOk: nat -> bool)
    requires Concat(ReceivedChunks(r1)) == Concat(ReceivedChunks(r2))
    ensures FramesEvents(SessionFramesIntended(r1), backend, sendOk) == FramesEvents(SessionFramesIntended(r2), backend, sendOk)
  {
    SessionFramesIntendedWhole(r1);
    SessionFramesIntendedWhole(r2);
  }
}
