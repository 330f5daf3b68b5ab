/**
 * `extract_frames` is called once per received chunk on the bytes kept from
 * the previous calls (tcpserver.py:139-142). A frame split across two chunks
 * must then be kept from its START until the rest arrives. The code as
 * written trims an incomplete candidate at offset `j > 0` twice (lines
 * 50-51/63-64 and again at 95-96), which drops its first bytes, whether
 * noise or a complete frame stood in front of it; the evidently intended
 * trim keeps `buffer[j:]`, and with it extracting chunk by chunk yields the
 * same frames as extracting the whole stream at once.
 */
module Chunking {
  import opened Protocol
  import opened Extractor
  import opened ExtractorFacts
  import ExtractorExamples

  /** The buffer kept after one call when only the prefix before the incomplete candidate is deleted. */
  function RestIntended(buf: seq<byte>, stop: Stop): (r: seq<byte>)
    requires stop.Pending? ==> stop.at < |buf|
    ensures |r| <= |buf| && r == buf[|buf| - |r|..]
    ensures stop.Pending? ==> |r| > 0 && r[0] == buf[stop.at]
  {
    match stop
    case Cleared => []
    case Pending(j) => buf[j..]
  }

  /** `extract_frames` with the intended single trim. */
  function ExtractIntended(buf: seq<byte>): Extracted {
    var s := Scan(buf, 0, []);
    ScanFindsFrames(buf, 0, []);
    Extracted(FramesOf(buf, s.found), RestIntended(buf, s.stop))
  }

  /** The chunks received one after another, joined. */
  function Concat(chunks: seq<seq<byte>>): seq<byte> {
    if chunks == [] then [] else Concat(chunks[..|chunks| - 1]) + chunks[|chunks| - 1]
  }

  /**
   * Starting from the kept bytes `buf`, append each chunk and extract, as the
   * session loop does (tcpserver.py:139-142): all frames returned, in order,
   * and the bytes kept at the end.
   */
  function FeedAsWritten(buf: seq<byte>, chunks: seq<seq<byte>>): (r: Extracted)
    ensures IsSuffix(r.rest, buf + Concat(chunks))
    decreases |chunks|
  {
    if chunks == [] then
      assert buf + Concat(chunks) == buf;
      Extracted([], buf)
    else
      var before := FeedAsWritten(buf, chunks[..|chunks| - 1]);
      var r := Extract(before.rest + chunks[|chunks| - 1]);
      KeptSuffix(buf, chunks, before.rest, r.rest);
      Extracted(before.frames + r.frames, r.rest)
  }

  /** `a` is what is left of `b` once a prefix of it has been deleted. */
  predicate IsSuffix(a: seq<byte>, b: seq<byte>) {
    |a| <= |b| && a == b[|b| - |a|..]
  }

  /** What one more call keeps of the kept bytes and the last chunk is what is left of everything received. */
  lemma KeptSuffix(buf: seq<byte>, chunks: seq<seq<byte>>, kept: seq<byte>, rest: seq<byte>)
    requires chunks != []
    requires IsSuffix(kept, buf + Concat(chunks[..|chunks| - 1]))
    requires IsSuffix(rest, kept + chunks[|chunks| - 1])
    ensures IsSuffix(rest, buf + Concat(chunks))
  {
    var init, last := chunks[..|chunks| - 1], chunks[|chunks| - 1];
    SuffixAppend(kept, buf + Concat(init), last);
    AppendAssoc(buf, Concat(init), last);
    SuffixTrans(rest, kept + last, buf + Concat(chunks));
  }

  lemma SuffixAppend(a: seq<byte>, b: seq<byte>, c: seq<byte>)
    requires IsSuffix(a, b)
    ensures IsSuffix(a + c, b + c)
  {
    assert (b + c)[|b + c| - |a + c|..] == b[|b| - |a|..] + c;
  }

  lemma SuffixTrans(a: seq<byte>, b: seq<byte>, c: seq<byte>)
    requires IsSuffix(a, b) && IsSuffix(b, c)
    ensures IsSuffix(a, c)
  {
    assert c[|c| - |a|..] == c[|c| - |b|..][|b| - |a|..];
  }

  /** Every frame returned over successive chunks is well formed and accepted by the backend parser. */
  lemma {:induction false} FedFramesParse(buf: seq<byte>, chunks: seq<seq<byte>>)
    ensures forall fr :: fr in FeedAsWritten(buf, chunks).frames ==> WellFormedFrame(fr) && BackendAccepts(fr)
    decreases |chunks|
  {
    if chunks != [] {
      var init := chunks[..|chunks| - 1];
      FedFramesParse(buf, init);
      ExtractedFramesParse(FeedAsWritten(buf, init).rest + chunks[|chunks| - 1]);
    }
  }

  /** The same session loop over the intended extractor. */
  function FeedIntended(buf: seq<byte>, chunks: seq<seq<byte>>): Extracted
    decreases |chunks|
  {
    if chunks == [] then Extracted([], buf)
    else
      var before := FeedIntended(buf, chunks[..|chunks| - 1]);
      var r := ExtractIntended(before.rest + chunks[|chunks| - 1]);
      Extracted(before.frames + r.frames, r.rest)
  }

  /** One more chunk: the frames of its call follow those already returned. */
  lemma FeedAsWrittenSnoc(buf: seq<byte>, chunks: seq<seq<byte>>, c: seq<byte>)
    ensures var before := FeedAsWritten(buf, chunks);
      var r := Extract(before.rest + c);
      FeedAsWritten(buf, chunks + [c]) == Extracted(before.frames + r.frames, r.rest)
  {
    assert (chunks + [c])[..|chunks|] == chunks;
  }

  /** The two extractors differ only when the scan waits at a candidate past offset 0. */
  lemma AsWrittenAgreesUnlessWaitingLater(buf: seq<byte>)
    requires !(Scan(buf, 0, []).stop.Pending? && Scan(buf, 0, []).stop.at > 0)
    ensures Extract(buf) == ExtractIntended(buf)
  {
  }

  /**
   * The frame `66 31 35 35 BB` preceded by a stray `00` and split after its
   * id byte is lost by the code as written; the same bytes in one chunk give
   * the frame with id 0x31 and value 5.
   */
  lemma SplitFrameLostAsWritten()
    ensures FeedAsWritten([], [[0x00, 0x66, 0x31], [0x35, 0x35, 0xBB]]).frames == []
    ensures Extract([0x00, 0x66, 0x31, 0x35, 0x35, 0xBB]).frames == [Frame(0x31, 1, "5", 5, "66313535bb")]
  {
    var first: seq<byte> := [0x00, 0x66, 0x31];
    assert Classify(first, 1) == Wait;
    assert Scan(first, 0, []) == Scanned([], Pending(1));
    assert Extract([] + first).rest == [0x31] by {
      assert [] + first == first;
    }
    var second: seq<byte> := [0x31, 0x35, 0x35, 0xBB];
    assert [0x31] + [0x35, 0x35, 0xBB] == second;
    NoStartInExample(second);
    NoStartDrainsBuffer(second);
    var whole: seq<byte> := [0x00, 0x66, 0x31, 0x35, 0x35, 0xBB];
    WholeExample(whole);
  }

  /**
   * No noise is needed: the start of a frame that follows a complete one in
   * the same chunk is lost too, and with it the second reading.
   */
  lemma TrailingFrameLostAsWritten()
    ensures FeedAsWritten([], [[0x66, 0x31, 0x35, 0x35, 0xBB, 0x66, 0x31], [0x35, 0x37, 0xBB]]).frames
      == [Frame(0x31, 1, "5", 5, "66313535bb")]
  {
    var first: seq<byte> := [0x66, 0x31, 0x35, 0x35, 0xBB, 0x66, 0x31];
    var second: seq<byte> := [0x35, 0x37, 0xBB];
    TrailingFirstChunk(first);
    FeedAsWrittenSnoc([], [first], second);
    assert [first] + [second] == [first, second];
    assert [] + second == second;
    assert NoStartIn(second, 0, |second|) by {
      assert NoStartIn(second, 0, 1) && NoStartIn(second, 0, 2);
    }
    NoStartDrainsBuffer(second);
  }

  /** The same bytes in one chunk give both readings. */
  lemma TrailingFrameWhole()
    ensures Extract([0x66, 0x31, 0x35, 0x35, 0xBB, 0x66, 0x31, 0x35, 0x37, 0xBB]).frames
      == [Frame(0x31, 1, "5", 5, "66313535bb"), Frame(0x31, 1, "7", 7, "66313537bb")]
  {
    var b: seq<byte> := [0x66, 0x31, 0x35, 0x35, 0xBB, 0x66, 0x31, 0x35, 0x37, 0xBB];
    var f0, f1 := Found(0, 1), Found(5, 1);
    TwoFramesAt(b);
    TwoFramesScanned(b);
    assert [f0, f1][..1] == [f0];
    assert FramesOf(b, [f0, f1]) == [MakeFrame(b, f0), MakeFrame(b, f1)];
    TwoFramesBuilt(b);
  }

  lemma TwoFramesAt(b: seq<byte>)
    requires b == [0x66, 0x31, 0x35, 0x35, 0xBB, 0x66, 0x31, 0x35, 0x37, 0xBB]
    ensures FrameAt(b, Found(0, 1)) && FrameAt(b, Found(5, 1))
  {
    assert b[3..4] == [0x35];
    assert b[8..9] == [0x37];
  }

  lemma TwoFramesScanned(b: seq<byte>)
    requires b == [0x66, 0x31, 0x35, 0x35, 0xBB, 0x66, 0x31, 0x35, 0x37, 0xBB]
    requires FrameAt(b, Found(0, 1)) && FrameAt(b, Found(5, 1))
    ensures Scan(b, 0, []).found == [Found(0, 1), Found(5, 1)]
  {
    var f0, f1 := Found(0, 1), Found(5, 1);
    ClassifyTakesFrames(b, f0);
    ClassifyTakesFrames(b, f1);
    ScanTakes(b, 0, [], 1);
    ScanTakes(b, 5, [f0], 1);
    assert [] + [f0] == [f0];
    assert [f0] + [f1] == [f0, f1];
  }

  lemma TwoFramesBuilt(b: seq<byte>)
    requires b == [0x66, 0x31, 0x35, 0x35, 0xBB, 0x66, 0x31, 0x35, 0x37, 0xBB]
    requires FrameAt(b, Found(0, 1)) && FrameAt(b, Found(5, 1))
    ensures MakeFrame(b, Found(0, 1)) == Frame(0x31, 1, "5", 5, "66313535bb")
    ensures MakeFrame(b, Found(5, 1)) == Frame(0x31, 1, "7", 7, "66313537bb")
  {
    assert b[3..4] == [0x35] && b[0..5] == [0x66, 0x31, 0x35, 0x35, 0xBB];
    assert AsciiString([0x35]) == "5";
    ExtractorExamples.FrameHex();
    SecondFrameBuilt(b);
  }

  lemma SecondFrameBuilt(b: seq<byte>)
    requires b == [0x66, 0x31, 0x35, 0x35, 0xBB, 0x66, 0x31, 0x35, 0x37, 0xBB]
    requires FrameAt(b, Found(5, 1))
    ensures MakeFrame(b, Found(5, 1)) == Frame(0x31, 1, "7", 7, "66313537bb")
  {
    assert Hex.ToHex([0x66, 0x31, 0x35, 0x37, 0xBB]) == "66313537bb";
    assert b[8..9] == [0x37] && b[5..10] == [0x66, 0x31, 0x35, 0x37, 0xBB];
    assert AsciiString([0x37]) == "7";
  }

  lemma TrailingFirstChunk(first: seq<byte>)
    requires first == [0x66, 0x31, 0x35, 0x35, 0xBB, 0x66, 0x31]
    ensures FeedAsWritten([], [first]) == Extracted([Frame(0x31, 1, "5", 5, "66313535bb")], [])
  {
    ExtractorExamples.PartialAfterFrameDropped();
    FeedAsWrittenSnoc([], [], first);
    assert [] + [first] == [first];
    assert [] + first == first;
  }

  /** With the intended trim the same two chunks give the frame. */
  lemma SplitFrameKeptIntended()
    ensures FeedIntended([], [[0x00, 0x66, 0x31], [0x35, 0x35, 0xBB]]).frames == [Frame(0x31, 1, "5", 5, "66313535bb")]
  {
    var chunks: seq<seq<byte>> := [[0x00, 0x66, 0x31], [0x35, 0x35, 0xBB]];
    var whole: seq<byte> := [0x00, 0x66, 0x31, 0x35, 0x35, 0xBB];
    assert chunks[..1] == [[0x00, 0x66, 0x31]];
    assert Concat(chunks[..1]) == [0x00, 0x66, 0x31] by {
      assert chunks[..1][..0] == [];
    }
    assert [] + Concat(chunks) == whole;
    FeedIntendedIsWhole([], chunks);
    WholeExample(whole);
  }

  lemma NoStartInExample(b: seq<byte>)
    requires b == [0x31, 0x35, 0x35, 0xBB]
    ensures NoStartIn(b, 0, |b|)
  {
    assert NoStartIn(b, 0, 1) && NoStartIn(b, 0, 2) && NoStartIn(b, 0, 3);
  }

  lemma WholeExample(whole: seq<byte>)
    requires whole == [0x00, 0x66, 0x31, 0x35, 0x35, 0xBB]
    ensures Extract(whole).frames == [Frame(0x31, 1, "5", 5, "66313535bb")]
    ensures Extract(whole) == ExtractIntended(whole)
  {
    var f := Found(1, 1);
    assert whole[4..5] == [0x35];
    assert FrameAt(whole, f);
    ClassifyTakesFrames(whole, f);
    assert Classify(whole, 0) == Advance;
    ScanAdvances(whole, 0, []);
    ScanTakes(whole, 1, [], 1);
    assert [] + [f] == [f];
    assert Scan(whole, 0, []) == Scanned([f], Cleared);
    assert FramesOf(whole, [f]) == [MakeFrame(whole, f)];
    assert AsciiString([0x35]) == "5";
    assert DecimalValue("5") == 5;
    assert whole[1..6] == [0x66, 0x31, 0x35, 0x35, 0xBB];
    ExtractorExamples.FrameHex();
  }

  // ---- extending a buffer at the back -------------------------------------

  /** A decision the scan made on `x` without waiting stays the same once more bytes arrive. */
  lemma ClassifyExtend(x: seq<byte>, e: seq<byte>, i: nat)
    requires i < |x| && !Classify(x, i).Wait?
    ensures Classify(x + e, i) == Classify(x, i)
  {
    var y := x + e;
    assert y[i] == x[i];
    if x[i] == START && |x| - i >= MinFrameLen {
      assert y[i + 2] == x[i + 2];
      var d := DigitsFor(x[i + 2]);
      if d != 0 && |x| - i >= FrameLen(d) {
        assert y[i + 3 + d] == x[i + 3 + d];
        assert y[i + 3..i + 3 + d] == x[i + 3..i + 3 + d];
      }
    }
  }

  /** Where the scan of `x` would continue on a longer buffer: its end, or the candidate it waits at. */
  function Resume(stop: Stop, n: nat): nat {
    match stop
    case Cleared => n
    case Pending(j) => j
  }

  /** On `x + e` the scan repeats what it did on `x`, then goes on from where it stopped. */
  lemma {:induction false} ScanExtend(x: seq<byte>, e: seq<byte>, i: nat, acc: seq<Found>)
    requires i <= |x|
    ensures Resume(Scan(x, i, acc).stop, |x|) <= |x|
    ensures Scan(x + e, i, acc) == Scan(x + e, Resume(Scan(x, i, acc).stop, |x|), Scan(x, i, acc).found)
    decreases |x| - i, 1
  {
    if i < |x| {
      match Classify(x, i)
      case Advance => ExtendAdvances(x, e, i, acc);
      case Wait => ScanWaits(x, i, acc);
      case Take(d) => ExtendTakes(x, e, i, acc, d);
    }
  }

  lemma ExtendAdvances(x: seq<byte>, e: seq<byte>, i: nat, acc: seq<Found>)
    requires i < |x| && Classify(x, i).Advance?
    ensures Resume(Scan(x, i, acc).stop, |x|) <= |x|
    ensures Scan(x + e, i, acc) == Scan(x + e, Resume(Scan(x, i, acc).stop, |x|), Scan(x, i, acc).found)
    decreases |x| - i, 0
  {
    ScanExtend(x, e, i + 1, acc);
    ClassifyExtend(x, e, i);
    ScanAdvances(x, i, acc);
    ScanAdvances(x + e, i, acc);
  }

  lemma ExtendTakes(x: seq<byte>, e: seq<byte>, i: nat, acc: seq<Found>, d: nat)
    requires i < |x| && Classify(x, i) == Take(d)
    ensures Resume(Scan(x, i, acc).stop, |x|) <= |x|
    ensures Scan(x + e, i, acc) == Scan(x + e, Resume(Scan(x, i, acc).stop, |x|), Scan(x, i, acc).found)
    decreases |x| - i, 0
  {
    ScanExtend(x, e, i + FrameLen(d), acc + [Found(i, d)]);
    ClassifyExtend(x, e, i);
    ScanTakes(x, i, acc, d);
    ScanTakes(x + e, i, acc, d);
  }

  lemma {:induction false} FramesOfExtend(x: seq<byte>, e: seq<byte>, fs: seq<Found>)
    requires AllFramesAt(x, fs)
    ensures AllFramesAt(x + e, fs)
    ensures FramesOf(x + e, fs) == FramesOf(x, fs)
    decreases |fs|
  {
    forall k | 0 <= k < |fs| ensures FrameAt(x + e, fs[k]) {
      MakeFrameExtend(x, e, fs[k]);
    }
    if fs != [] {
      var init := fs[..|fs| - 1];
      assert AllFramesAt(x, init) by {
        forall j | 0 <= j < |init| ensures FrameAt(x, init[j]) {
          assert init[j] == fs[j];
        }
      }
      FramesOfExtend(x, e, init);
      MakeFrameExtend(x, e, fs[|fs| - 1]);
    }
  }

  lemma MakeFrameExtend(x: seq<byte>, e: seq<byte>, f: Found)
    requires FrameAt(x, f)
    ensures FrameAt(x + e, f) && MakeFrame(x + e, f) == MakeFrame(x, f)
  {
    var y := x + e;
    assert y[f.at + 3..f.at + 3 + f.digits] == x[f.at + 3..f.at + 3 + f.digits];
    assert y[f.at..End(f)] == x[f.at..End(f)];
    SameBytesSameFrame(y, f, x, f);
  }

  // ---- shifting a buffer to the right -------------------------------------

  function ShiftFound(f: Found, d: nat): Found {
    Found(f.at + d, f.digits)
  }

  /** The matches `fs` seen in a buffer with `d` more bytes in front. */
  function Shift(fs: seq<Found>, d: nat): (r: seq<Found>)
    ensures |r| == |fs|
    ensures forall k :: 0 <= k < |fs| ==> r[k] == ShiftFound(fs[k], d)
  {
    if fs == [] then [] else [ShiftFound(fs[0], d)] + Shift(fs[1..], d)
  }

  function ShiftStop(s: Stop, d: nat): Stop {
    match s
    case Cleared => Cleared
    case Pending(j) => Pending(j + d)
  }

  /** The scan decides alike at offset `k` of `q` and at offset `i = |p| + k` of `p + q`. */
  lemma ClassifyShift(p: seq<byte>, q: seq<byte>, k: nat, i: nat)
    requires k < |q| && i == |p| + k
    ensures Classify(p + q, i) == Classify(q, k)
  {
    var y := p + q;
    assert y[i] == q[k];
    if q[k] == START && |q| - k >= MinFrameLen {
      assert y[i + 2] == q[k + 2];
      var d := DigitsFor(q[k + 2]);
      if d != 0 && |q| - k >= FrameLen(d) {
        assert y[i + 3 + d] == q[k + 3 + d];
        assert y[i + 3..i + 3 + d] == q[k + 3..k + 3 + d];
      }
    }
  }

  lemma ShiftSnoc(fs: seq<Found>, f: Found, d: nat, at: nat)
    requires at == f.at + d
    ensures Shift(fs + [f], d) == Shift(fs, d) + [Found(at, f.digits)]
  {
  }

  /** The scan of `q` from `k`, seen in `p + q` from `i = |p| + k`. */
  predicate ShiftedScan(p: seq<byte>, q: seq<byte>, k: nat, i: nat, acc: seq<Found>)
    requires k <= |q| && i == |p| + k
  {
    var s := Scan(q, k, acc);
    Scan(p + q, i, Shift(acc, |p|)) == Scanned(Shift(s.found, |p|), ShiftStop(s.stop, |p|))
  }

  /** Scanning `q` inside `p + q` finds the same frames, `|p|` further on. */
  lemma {:induction false} ScanShift(p: seq<byte>, q: seq<byte>, k: nat, i: nat, acc: seq<Found>)
    requires k <= |q| && i == |p| + k
    ensures ShiftedScan(p, q, k, i, acc)
    decreases |q| - k, 1
  {
    if k < |q| {
      match Classify(q, k)
      case Advance => ShiftAdvances(p, q, k, i, acc);
      case Wait => ShiftWaits(p, q, k, i, acc);
      case Take(d) => ShiftTakes(p, q, k, i, acc, d);
    }
  }

  lemma ShiftWaits(p: seq<byte>, q: seq<byte>, k: nat, i: nat, acc: seq<Found>)
    requires k < |q| && i == |p| + k && Classify(q, k).Wait?
    ensures ShiftedScan(p, q, k, i, acc)
  {
    ClassifyShift(p, q, k, i);
    ScanWaits(q, k, acc);
    ScanWaits(p + q, i, Shift(acc, |p|));
  }

  lemma ShiftAdvances(p: seq<byte>, q: seq<byte>, k: nat, i: nat, acc: seq<Found>)
    requires k < |q| && i == |p| + k && Classify(q, k).Advance?
    ensures ShiftedScan(p, q, k, i, acc)
    decreases |q| - k, 0
  {
    ScanShift(p, q, k + 1, i + 1, acc);
    ClassifyShift(p, q, k, i);
    ScanAdvances(q, k, acc);
    ScanAdvances(p + q, i, Shift(acc, |p|));
  }

  lemma ShiftTakes(p: seq<byte>, q: seq<byte>, k: nat, i: nat, acc: seq<Found>, d: nat)
    requires k < |q| && i == |p| + k && Classify(q, k) == Take(d)
    ensures ShiftedScan(p, q, k, i, acc)
    decreases |q| - k, 0
  {
    ScanShift(p, q, k + FrameLen(d), i + FrameLen(d), acc + [Found(k, d)]);
    TakesBoth(p, q, k, i, acc, d);
  }

  /** A frame taken in `q` at `k` is taken alike in `p + q` at `i`. */
  lemma TakesBoth(p: seq<byte>, q: seq<byte>, k: nat, i: nat, acc: seq<Found>, d: nat)
    requires k < |q| && i == |p| + k && Classify(q, k) == Take(d)
    ensures Scan(q, k, acc) == Scan(q, k + FrameLen(d), acc + [Found(k, d)])
    ensures Scan(p + q, i, Shift(acc, |p|)) == Scan(p + q, i + FrameLen(d), Shift(acc + [Found(k, d)], |p|))
  {
    ClassifyShift(p, q, k, i);
    ScanTakes(q, k, acc, d);
    ScanTakes(p + q, i, Shift(acc, |p|), d);
    ShiftSnoc(acc, Found(k, d), |p|, i);
  }

  lemma ShiftKeepsFrames(p: seq<byte>, q: seq<byte>, fs: seq<Found>)
    requires AllFramesAt(q, fs)
    ensures AllFramesAt(p + q, Shift(fs, |p|))
  {
    var sh := Shift(fs, |p|);
    forall k | 0 <= k < |fs| ensures FrameAt(p + q, sh[k]) {
      MakeFrameShift(p, q, fs[k]);
    }
  }

  lemma {:induction false} FramesOfShift(p: seq<byte>, q: seq<byte>, fs: seq<Found>)
    requires AllFramesAt(q, fs)
    ensures AllFramesAt(p + q, Shift(fs, |p|))
    ensures FramesOf(p + q, Shift(fs, |p|)) == FramesOf(q, fs)
    decreases |fs|
  {
    ShiftKeepsFrames(p, q, fs);
    if fs != [] {
      var sh := Shift(fs, |p|);
      var n := |fs|;
      var init := fs[..n - 1];
      assert AllFramesAt(q, init) by {
        forall j | 0 <= j < |init| ensures FrameAt(q, init[j]) {
          assert init[j] == fs[j];
        }
      }
      FramesOfShift(p, q, init);
      assert sh[..n - 1] == Shift(init, |p|);
      MakeFrameShift(p, q, fs[n - 1]);
      assert FramesOf(p + q, sh) == FramesOf(p + q, sh[..n - 1]) + [MakeFrame(p + q, sh[n - 1])];
    }
  }

  lemma FrameAtShift(p: seq<byte>, q: seq<byte>, f: Found)
    requires FrameAt(q, f)
    ensures FrameAt(p + q, ShiftFound(f, |p|))
  {
    var y := p + q;
    var g := ShiftFound(f, |p|);
    assert y[g.at] == q[f.at] && y[g.at + 2] == q[f.at + 2];
    assert y[g.at + 3 + g.digits] == q[f.at + 3 + f.digits];
    assert y[g.at + 3..g.at + 3 + g.digits] == q[f.at + 3..f.at + 3 + f.digits];
  }

  lemma MakeFrameShift(p: seq<byte>, q: seq<byte>, f: Found)
    requires FrameAt(q, f)
    ensures var g := ShiftFound(f, |p|);
      FrameAt(p + q, g) && MakeFrame(p + q, g) == MakeFrame(q, f)
  {
    FrameAtShift(p, q, f);
    var y := p + q;
    var g := ShiftFound(f, |p|);
    assert y[g.at..End(g)] == q[f.at..End(f)];
    SameBytesSameFrame(y, g, q, f);
  }

  /** A frame is made from its own bytes only, wherever they sit in the buffer. */
  lemma SameBytesSameFrame(a: seq<byte>, fa: Found, b: seq<byte>, fb: Found)
    requires FrameAt(a, fa) && FrameAt(b, fb) && fa.digits == fb.digits
    requires a[fa.at..End(fa)] == b[fb.at..End(fb)]
    ensures MakeFrame(a, fa) == MakeFrame(b, fb)
  {
    var raw := a[fa.at..End(fa)];
    var d := fa.digits;
    assert a[fa.at + 1] == raw[1] == b[fb.at + 1];
    SliceOfSlice(a, fa.at, End(fa), 3, 3 + d);
    SliceOfSlice(b, fb.at, End(fb), 3, 3 + d);
  }

  lemma {:induction false} FramesOfAppend(buf: seq<byte>, a: seq<Found>, b: seq<Found>)
    requires AllFramesAt(buf, a) && AllFramesAt(buf, b)
    ensures AllFramesAt(buf, a + b)
    ensures FramesOf(buf, a + b) == FramesOf(buf, a) + FramesOf(buf, b)
    decreases |b|
  {
    assert AllFramesAt(buf, a + b) by {
      forall j | 0 <= j < |a + b| ensures FrameAt(buf, (a + b)[j]) {
        if j < |a| { assert (a + b)[j] == a[j]; } else { assert (a + b)[j] == b[j - |a|]; }
      }
    }
    if b == [] {
      assert a + b == a;
    } else {
      var init := b[..|b| - 1];
      assert AllFramesAt(buf, init) by {
        forall j | 0 <= j < |init| ensures FrameAt(buf, init[j]) {
          assert init[j] == b[j];
        }
      }
      var last := b[|b| - 1];
      FramesOfAppend(buf, a, init);
      assert (a + b)[..|a + b| - 1] == a + init;
      assert (a + b)[|a + b| - 1] == last;
      var fa, fi, fl := FramesOf(buf, a), FramesOf(buf, init), [MakeFrame(buf, last)];
      calc {
        FramesOf(buf, a + b);
        FramesOf(buf, a + init) + fl;
        (fa + fi) + fl;
        { AppendAssoc(fa, fi, fl); }
        fa + (fi + fl);
        fa + FramesOf(buf, b);
      }
    }
  }

  // ---- one call on a longer buffer ----------------------------------------

  /**
   * With the intended trim, one call on `x + e` returns the frames of one
   * call on `x` followed by those of a call on what it kept plus `e`, and
   * keeps the same bytes at the end.
   */
  lemma ExtractIntendedSplit(x: seq<byte>, e: seq<byte>)
    ensures var r := ExtractIntended(x);
      var t := ExtractIntended(r.rest + e);
      ExtractIntended(x + e) == Extracted(r.frames + t.frames, t.rest)
  {
    var s := Scan(x, 0, []);
    var j := Resume(s.stop, |x|);
    ScanOfExtended(x, e);
    var p, q := x[..j], x[j..] + e;
    assert x + e == p + q;
    assert ExtractIntended(x).rest + e == q by {
      if s.stop.Cleared? { assert x[j..] == []; }
    }
    var t := Scan(q, 0, []);
    RestShift(p, q, t.stop);
    ScanFindsFrames(x, 0, []);
    ScanFindsFrames(q, 0, []);
    FramesOfExtend(x, e, s.found);
    FramesOfShift(p, q, t.found);
    FramesOfAppend(x + e, s.found, Shift(t.found, j));
  }

  /** The scan of `x + e`: that of `x`, then that of what it kept plus `e`, shifted. */
  lemma ScanOfExtended(x: seq<byte>, e: seq<byte>)
    ensures var j := Resume(Scan(x, 0, []).stop, |x|);
      var t := Scan(x[j..] + e, 0, []);
      j <= |x| && Scan(x + e, 0, []) == Scanned(Scan(x, 0, []).found + Shift(t.found, j), ShiftStop(t.stop, j))
  {
    var s := Scan(x, 0, []);
    var j := Resume(s.stop, |x|);
    var p, q := x[..j], x[j..] + e;
    assert x + e == p + q;
    ScanExtend(x, e, 0, []);
    ScanKeepsEarlier(x + e, j, s.found);
    ScanShift(p, q, 0, |p|, []);
    assert Shift([], |p|) == [];
  }

  /** Keeping the buffer from an incomplete candidate ignores the bytes in front of it. */
  lemma RestShift(p: seq<byte>, q: seq<byte>, stop: Stop)
    requires stop.Pending? ==> stop.at < |q|
    ensures RestIntended(p + q, ShiftStop(stop, |p|)) == RestIntended(q, stop)
  {
    if stop.Pending? {
      assert (p + q)[|p| + stop.at..] == q[stop.at..];
    }
  }

  /**
   * Corrected behaviour: with the intended trim, feeding a stream chunk by
   * chunk yields exactly the frames, and keeps exactly the bytes, of one call
   * on the whole stream, however it is split.
   */
  lemma {:induction false} FeedIntendedIsWhole(buf: seq<byte>, chunks: seq<seq<byte>>)
    requires chunks != []
    ensures FeedIntended(buf, chunks) == ExtractIntended(buf + Concat(chunks))
    decreases |chunks|
  {
    var init, last := chunks[..|chunks| - 1], chunks[|chunks| - 1];
    assert Concat(chunks) == Concat(init) + last;
    if init == [] {
      assert Concat(chunks) == last;
      var r := ExtractIntended(buf + last);
      assert FeedIntended(buf, chunks) == Extracted([] + r.frames, r.rest);
      assert [] + r.frames == r.frames;
    } else {
      FeedIntendedIsWhole(buf, init);
      ExtractIntendedSplit(buf + Concat(init), last);
      AppendAssoc(buf, Concat(init), last);
    }
  }
}
