/**
 * What `extract_frames` (tcpserver.py:31-97) guarantees about one call: each
 * frame it returns is a well-formed frame of the buffer, in buffer order and
 * without overlap (ScanInOrder), and is accepted by the backend parser
 * (Sensor/parser.py); a well-formed frame at a START the scan reaches is taken
 * (ClassifyTakesFrames, ScanTakesAfter); and what it leaves in the buffer.
 * Not every well-formed frame is returned: the scan passes over one that
 * overlaps a frame already taken, and it stops at an incomplete candidate
 * even when a shorter frame starts after it.
 */
module ExtractorFacts {
  import opened Wrappers
  import opened Protocol
  import Hex
  import Parser
  import opened Extractor

  /** The offset just past the frame `f`. */
  function End(f: Found): nat {
    f.at + FrameLen(f.digits)
  }

  /** The frames of `fs` lie in order at or after `lo` and do not overlap. */
  predicate InOrder(fs: seq<Found>, lo: nat) {
    fs == [] || (lo <= fs[0].at && InOrder(fs[1..], End(fs[0])))
  }

  /** The end of the last frame of `fs`, or `lo` when there is none. */
  function LastEnd(fs: seq<Found>, lo: nat): nat {
    if fs == [] then lo else LastEnd(fs[1..], End(fs[0]))
  }

  /** The frames matched before `i` come first, ahead of those the scan matches from `i`. */
  lemma {:induction false} ScanKeepsEarlier(buf: seq<byte>, i: nat, acc: seq<Found>)
    requires i <= |buf|
    ensures Scan(buf, i, acc) == Scanned(acc + Scan(buf, i, []).found, Scan(buf, i, []).stop)
    decreases |buf| - i
  {
    if i < |buf| {
      match Classify(buf, i)
      case Advance => ScanKeepsEarlier(buf, i + 1, acc);
      case Wait =>
      case Take(digits) =>
        var f := Found(i, digits);
        var next := i + FrameLen(digits);
        ScanKeepsEarlier(buf, next, acc + [f]);
        ScanKeepsEarlier(buf, next, [f]);
        assert [] + [f] == [f];
        AppendAssoc(acc, [f], Scan(buf, next, []).found);
    }
  }

  lemma AppendAssoc<T>(a: seq<T>, b: seq<T>, c: seq<T>)
    ensures (a + b) + c == a + (b + c)
  {
  }

  /**
   * The scan from `i` reports frames in buffer order, none overlapping the
   * next, all at or after `i`; an incomplete candidate it waits at lies past
   * the last of them.
   */
  lemma {:induction false} ScanInOrder(buf: seq<byte>, i: nat)
    requires i <= |buf|
    ensures InOrder(Scan(buf, i, []).found, i)
    ensures Scan(buf, i, []).stop.Pending? ==> LastEnd(Scan(buf, i, []).found, i) <= Scan(buf, i, []).stop.at
    decreases |buf| - i
  {
    if i < |buf| {
      match Classify(buf, i)
      case Advance =>
        ScanInOrder(buf, i + 1);
        InOrderLower(Scan(buf, i + 1, []).found, i, i + 1);
        LastEndLower(Scan(buf, i + 1, []).found, i, i + 1);
      case Wait =>
      case Take(digits) =>
        var f := Found(i, digits);
        assert [] + [f] == [f];
        assert Scan(buf, i, []) == Scan(buf, End(f), [f]);
        ScanKeepsEarlier(buf, End(f), [f]);
        ScanInOrder(buf, End(f));
        var r := Scan(buf, i, []).found;
        assert r[0] == f && r[1..] == Scan(buf, End(f), []).found;
    }
  }

  lemma {:induction false} InOrderLower(fs: seq<Found>, lo: nat, hi: nat)
    requires lo <= hi && InOrder(fs, hi)
    ensures InOrder(fs, lo)
  {
  }

  lemma {:induction false} LastEndLower(fs: seq<Found>, lo: nat, hi: nat)
    requires lo <= hi && InOrder(fs, hi)
    ensures LastEnd(fs, lo) <= LastEnd(fs, hi)
  {
    if fs != [] {
      assert LastEnd(fs, lo) == LastEnd(fs[1..], End(fs[0])) == LastEnd(fs, hi);
    }
  }

  /** The `k`-th frame returned is built from the `k`-th match. */
  lemma {:induction false} FramesOfIndex(buf: seq<byte>, fs: seq<Found>, k: nat)
    requires AllFramesAt(buf, fs) && k < |fs|
    ensures FramesOf(buf, fs)[k] == MakeFrame(buf, fs[k])
    decreases |fs|
  {
    var init := fs[..|fs| - 1];
    assert AllFramesAt(buf, init) by {
      forall j | 0 <= j < |init| ensures FrameAt(buf, init[j]) {
        assert init[j] == fs[j];
      }
    }
    if k < |fs| - 1 {
      FramesOfIndex(buf, init, k);
      assert init[k] == fs[k];
    }
  }

  /** The bytes of a frame the gateway builds are the device encoding of its id and digit text. */
  lemma FrameIsEncoded(buf: seq<byte>, f: Found)
    requires FrameAt(buf, f)
    ensures var fr := MakeFrame(buf, f);
      IsValueText(fr.valueStr) && buf[f.at..End(f)] == EncodeFrame(fr.id, fr.valueStr)
  {
    var fr := MakeFrame(buf, f);
    var raw := buf[f.at..End(f)];
    var d := f.digits;
    SliceOfSlice(buf, f.at, End(f), 3, 3 + d);
    assert raw[3..3 + d] == raw[3..|raw| - 1];
    var e := EncodeFrame(fr.id, fr.valueStr);
    AsciiRoundTrip(raw[3..|raw| - 1], fr.valueStr);
    AsciiRoundTrip(e[3..|e| - 1], fr.valueStr);
    Parser.SameFrameBytes(raw, e);
  }

  /**
   * A frame the gateway builds is the device encoding of its id and digit
   * text, the backend parser accepts those bytes with the same id and value,
   * and `raw_hex` decodes back to them.
   */
  lemma FrameIsParsed(buf: seq<byte>, f: Found)
    requires FrameAt(buf, f)
    ensures var fr := MakeFrame(buf, f);
      var raw := buf[f.at..End(f)];
      && raw == EncodeFrame(fr.id, fr.valueStr)
      && Parser.ParseOneFrame(raw) == Some(Parser.Reading(fr.id, fr.valueInt, fr.valueStr))
      && Hex.BytesFromHexString(fr.rawHex) == Some(raw)
  {
    var fr := MakeFrame(buf, f);
    FrameIsEncoded(buf, f);
    Parser.ParseEncode(fr.id, fr.valueStr);
    Hex.HexStringRoundTrip(buf[f.at..End(f)]);
  }

  /** The backend accepts the `raw_hex` of the frame `fr` as that same reading. */
  predicate BackendAccepts(fr: Frame) {
    var raw := Hex.BytesFromHexString(fr.rawHex);
    raw.Some? && Parser.ParseOneFrame(raw.value) == Some(Parser.Reading(fr.id, fr.valueInt, fr.valueStr))
  }

  /**
   * The shape of an emitted frame: one to three digits, `value_str` that many
   * ASCII digits, `value_int` its decimal value (at most 999), and `raw_hex`
   * the hex of the device encoding of id and digits.
   */
  predicate WellFormedFrame(fr: Frame) {
    && 1 <= fr.digits <= 3 && |fr.valueStr| == fr.digits && IsValueText(fr.valueStr)
    && fr.valueInt == DecimalValue(fr.valueStr) && fr.valueInt <= 999
    && fr.rawHex == Hex.ToHex(EncodeFrame(fr.id, fr.valueStr))
  }

  /** Every frame `extract_frames` returns is well formed and accepted by the backend parser. */
  lemma ExtractedFramesParse(buf: seq<byte>)
    ensures forall fr :: fr in Extract(buf).frames ==> WellFormedFrame(fr) && BackendAccepts(fr)
  {
    var fs := Scan(buf, 0, []).found;
    ScanFindsFrames(buf, 0, []);
    forall fr | fr in Extract(buf).frames ensures WellFormedFrame(fr) && BackendAccepts(fr) {
      var k :| 0 <= k < |Extract(buf).frames| && Extract(buf).frames[k] == fr;
      FramesOfIndex(buf, fs, k);
      MadeFrameWellFormed(buf, fs[k]);
    }
  }

  lemma MadeFrameWellFormed(buf: seq<byte>, f: Found)
    requires FrameAt(buf, f)
    ensures WellFormedFrame(MakeFrame(buf, f)) && BackendAccepts(MakeFrame(buf, f))
  {
    var fr := MakeFrame(buf, f);
    FrameIsParsed(buf, f);
    ValueTextBelow1000(fr.valueStr);
  }

  /** Conversely, a well-formed frame at a START the scan reaches is taken, whole. */
  lemma ClassifyTakesFrames(buf: seq<byte>, f: Found)
    requires FrameAt(buf, f)
    ensures Classify(buf, f.at) == Take(f.digits)
  {
  }

  /** A buffer holding exactly the frame a device sends yields that one frame and is emptied. */
  lemma ExtractSingleFrame(id: byte, s: string)
    requires IsValueText(s)
    ensures var b := EncodeFrame(id, s);
      Extract(b) == Extracted([Frame(id, |s|, s, DecimalValue(s), Hex.ToHex(b))], [])
  {
    var b := EncodeFrame(id, s);
    var f := Found(0, |s|);
    assert b[3..3 + |s|] == b[3..|b| - 1];
    assert FrameAt(b, f);
    ClassifyTakesFrames(b, f);
    assert Scan(b, 0, []) == Scanned([f], Cleared);
    assert b[0..End(f)] == b;
    assert FramesOf(b, [f]) == [MakeFrame(b, f)];
  }

  /**
   * Agreement with the backend parser: a buffer that `parse_one_frame`
   * accepts is exactly one frame, which `extract_frames` returns with the
   * same id, digit text and value, leaving the buffer empty.
   */
  lemma ExtractAgreesWithParser(b: seq<byte>)
    requires Parser.ParseOneFrame(b).Some?
    ensures var r := Parser.ParseOneFrame(b).value;
      Extract(b) == Extracted([Frame(r.idCode, |r.valueStr|, r.valueStr, r.valueInt, Hex.ToHex(b))], [])
  {
    var r := Parser.ParseOneFrame(b).value;
    Parser.ParsedIsEncoded(b);
    ExtractSingleFrame(r.idCode, r.valueStr);
  }

  /**
   * A START at offset 0 with fewer than 5 bytes, or fewer than the marker
   * announces: nothing is returned and the buffer is kept whole for the
   * next chunk (tcpserver.py:49-52, 62-65, 95).
   */
  lemma IncompleteAtStartKept(buf: seq<byte>)
    requires |buf| > 0 && buf[0] == START
    requires |buf| < MinFrameLen || (DigitsFor(buf[2]) != 0 && |buf| < FrameLen(DigitsFor(buf[2])))
    ensures Extract(buf) == Extracted([], buf)
  {
    assert Classify(buf, 0) == Wait;
  }

  /** Without a START byte the call returns nothing and empties the buffer. */
  lemma NoStartDrainsBuffer(buf: seq<byte>)
    requires NoStartIn(buf, 0, |buf|)
    ensures Extract(buf) == Extracted([], [])
  {
    ScanSkips(buf, 0, |buf|, []);
  }

  /**
   * What remains in the buffer is a suffix of it: nothing when the scan ran
   * off the end; the whole buffer when it waits at offset 0; and otherwise
   * the buffer from twice the waiting offset on, as the two trims at
   * tcpserver.py:51/64 and 96 remove that prefix twice.
   */
  lemma RestAsWrittenShape(buf: seq<byte>)
    ensures var s := Scan(buf, 0, []).stop;
      var rest := Extract(buf).rest;
      && (s.Cleared? ==> rest == [])
      && (s == Pending(0) ==> rest == buf)
      && (s.Pending? && s.at > 0 ==> rest == buf[Min(2 * s.at, |buf|)..])
  {
    var s := Scan(buf, 0, []).stop;
    assert Extract(buf).rest == RestAsWritten(buf, s);
    if s.Pending? && s.at > 0 {
      DroppedTwice(buf, s.at);
    }
  }

  /** Deleting the first `j` bytes twice deletes the first `2 * j`, or all of them. */
  lemma DroppedTwice(buf: seq<byte>, j: nat)
    requires j <= |buf|
    ensures Dropped(Dropped(buf, j), j) == buf[Min(2 * j, |buf|)..]
  {
    var once := buf[j..];
    assert Dropped(buf, j) == once;
    var k := Min(j, |once|);
    assert once[k..] == buf[j + k..];
  }

  /**
   * The buffer left behind never holds the bytes of a frame already
   * returned: it starts at or after the end of the last one.
   */
  lemma RestAfterFrames(buf: seq<byte>)
    ensures var rest := Extract(buf).rest;
      |rest| <= |buf| && rest == buf[|buf| - |rest|..]
      && LastEnd(Scan(buf, 0, []).found, 0) <= |buf| - |rest|
  {
    ScanInOrder(buf, 0);
    RestAsWrittenShape(buf);
    var s := Scan(buf, 0, []);
    if s.stop.Cleared? {
      ScanLastEnd(buf, 0);
    }
  }

  /** No frame reaches past the end of the buffer. */
  lemma {:induction false} ScanLastEnd(buf: seq<byte>, i: nat)
    requires i <= |buf|
    ensures LastEnd(Scan(buf, i, []).found, i) <= |buf|
    decreases |buf| - i
  {
    if i < |buf| {
      match Classify(buf, i)
      case Advance =>
        ScanLastEnd(buf, i + 1);
        ScanInOrder(buf, i + 1);
        LastEndLower(Scan(buf, i + 1, []).found, i, i + 1);
      case Wait =>
      case Take(digits) =>
        var f := Found(i, digits);
        assert [] + [f] == [f];
        assert Scan(buf, i, []) == Scan(buf, End(f), [f]);
        ScanKeepsEarlier(buf, End(f), [f]);
        ScanLastEnd(buf, End(f));
        var r := Scan(buf, i, []).found;
        assert r[0] == f && r[1..] == Scan(buf, End(f), []).found;
    }
  }
}
