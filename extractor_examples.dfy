/**
 * The one-byte resynchronisation of `extract_frames` (tcpserver.py:57-59,
 * 69-76) on three concrete buffers, and the double trim of tcpserver.py:95-96
 * on a frame followed by the start of the next one.
 */
module ExtractorExamples {
  import opened Protocol
  import opened Extractor
  import opened ExtractorFacts

  /** A START followed by a frame: the first START fails its marker check, the frame after it is taken. */
  lemma DoubleStart()
    ensures Extract([0x66, 0x66, 0x31, 0x35, 0x35, 0xBB]) == Extracted([Frame(0x31, 1, "5", 5, "66313535bb")], [])
  {
    var b: seq<byte> := [0x66, 0x66, 0x31, 0x35, 0x35, 0xBB];
    var f := Found(1, 1);
    assert b[4..5] == [0x35];
    assert Classify(b, 0) == Advance;
    assert FrameAt(b, f);
    ClassifyTakesFrames(b, f);
    ScanAdvances(b, 0, []);
    ScanTakes(b, 1, [], 1);
    assert [] + [f] == [f];
    assert Scan(b, 0, []) == Scanned([f], Cleared);
    assert FramesOf(b, [f]) == [MakeFrame(b, f)];
    assert b[1..6] == [0x66, 0x31, 0x35, 0x35, 0xBB];
    assert AsciiString([0x35]) == "5";
    FrameHex();
  }

  /** The `raw_hex` of the frame `66 31 35 35 BB`. */
  lemma FrameHex()
    ensures Hex.ToHex([0x66, 0x31, 0x35, 0x35, 0xBB]) == "66313535bb"
  {
  }

  /**
   * A frame followed by the first two bytes of the next one: the frame is
   * returned, but the START of the next one is trimmed at line 51 and its ID
   * at line 96, so nothing of it is kept for the next chunk.
   */
  lemma PartialAfterFrameDropped()
    ensures Extract([0x66, 0x31, 0x35, 0x35, 0xBB, 0x66, 0x31]) == Extracted([Frame(0x31, 1, "5", 5, "66313535bb")], [])
  {
    var b: seq<byte> := [0x66, 0x31, 0x35, 0x35, 0xBB, 0x66, 0x31];
    var f := Found(0, 1);
    assert b[3..4] == [0x35];
    assert FrameAt(b, f);
    ClassifyTakesFrames(b, f);
    ScanTakes(b, 0, [], 1);
    assert Classify(b, 5) == Wait;
    ScanWaits(b, 5, [f]);
    assert [] + [f] == [f];
    assert Scan(b, 0, []) == Scanned([f], Pending(5));
    assert FramesOf(b, [f]) == [MakeFrame(b, f)];
    assert b[0..5] == [0x66, 0x31, 0x35, 0x35, 0xBB];
    assert AsciiString([0x35]) == "5";
    FrameHex();
    assert Dropped(b, 5) == [0x66, 0x31];
  }

  /** A digit byte where the marker belongs: nothing matches and the buffer is emptied. */
  lemma BadMarker()
    ensures Extract([0x66, 0x31, 0x39, 0x35, 0xBB]) == Extracted([], [])
  {
    var b: seq<byte> := [0x66, 0x31, 0x39, 0x35, 0xBB];
    assert Classify(b, 0) == Advance;
    ScanAdvances(b, 0, []);
    assert NoStartIn(b, 1, 5) by {
      assert NoStartIn(b, 1, 2) && NoStartIn(b, 1, 3) && NoStartIn(b, 1, 4);
    }
    ScanSkips(b, 1, 5, []);
  }

  /** A two-digit frame. */
  lemma TwoDigits()
    ensures Extract([0x66, 0x33, 0x36, 0x32, 0x36, 0xBB]) == Extracted([Frame(0x33, 2, "26", 26, "6633363236bb")], [])
  {
    assert Hex.ToHex([0x66, 0x33, 0x36, 0x32, 0x36, 0xBB]) == "6633363236bb";
    var b := EncodeFrame(0x33, "26");
    assert b == [0x66, 0x33, 0x36, 0x32, 0x36, 0xBB] by {
      assert AsciiBytes("26") == [0x32, 0x36];
    }
    ExtractSingleFrame(0x33, "26");
    TwoDigitsValue();
  }

  lemma TwoDigitsValue()
    ensures DecimalValue("26") == 26
  {
    assert "26"[..1] == "2";
  }
}
