/**
 * The gateway's streaming frame extractor `extract_frames`
 * (tcpserver.py:31-97). It scans a receive buffer left to right with an index
 * `i`, resynchronises by one byte whenever a candidate frame fails its marker,
 * terminator or digit check, emits every frame it matches and trims the
 * buffer in place.
 *
 * `Scan` is the specification of the scanning loop, `Extract` of the whole
 * call including the trimming, and `ExtractFrames` the imperative procedure
 * over a `ByteBuffer`, proved equal to `Extract`.
 */
module Extractor {
  import opened Wrappers
  import opened Protocol
  import Hex
  import Parser

  /** The dict appended to `frames`: `id`, `digits`, `value_str`, `value_int`, `raw_hex`. */
  datatype Frame = Frame(id: byte, digits: nat, valueStr: string, valueInt: nat, rawHex: string)

  /** A frame of `digits` digits matched at buffer offset `at`. */
  datatype Found = Found(at: nat, digits: nat)

  /** How the scanning loop ended: the buffer was used up, or a candidate at `at` is incomplete. */
  datatype Stop = Cleared | Pending(at: nat)

  /** Where a scan matched frames, and how it ended. */
  datatype Scanned = Scanned(found: seq<Found>, stop: Stop)

  /** The frames returned by `extract_frames` and the buffer it leaves behind. */
  datatype Extracted = Extracted(frames: seq<Frame>, rest: seq<byte>)

  function Min(a: int, b: int): int {
    if a <= b then a else b
  }

  /**
   * The bytes of `buf` at `f` form a well-formed frame: START, an id, the
   * marker announcing `f.digits` digits, that many ASCII digits, END.
   */
  predicate FrameAt(buf: seq<byte>, f: Found) {
    1 <= f.digits <= 3 && f.at + FrameLen(f.digits) <= |buf|
    && buf[f.at] == START && DigitsFor(buf[f.at + 2]) == f.digits && buf[f.at + 3 + f.digits] == END
    && AllDigitBytes(buf[f.at + 3..f.at + 3 + f.digits])
  }

  predicate AllFramesAt(buf: seq<byte>, fs: seq<Found>) {
    forall k :: 0 <= k < |fs| ==> FrameAt(buf, fs[k])
  }

  /** The frame built from the candidate `f` (tcpserver.py:78-87). */
  function MakeFrame(buf: seq<byte>, f: Found): (fr: Frame)
    requires FrameAt(buf, f)
    ensures fr.id == buf[f.at + 1] && fr.digits == f.digits
    ensures IsValueText(fr.valueStr) && |fr.valueStr| == f.digits && fr.valueInt <= 999
  {
    var valueStr := AsciiString(buf[f.at + 3..f.at + 3 + f.digits]);
    ValueTextBelow1000(valueStr);
    Frame(buf[f.at + 1], f.digits, valueStr, DecimalValue(valueStr), Hex.ToHex(buf[f.at..f.at + FrameLen(f.digits)]))
  }

  /** The frames built from the matches `fs`, in order. */
  function FramesOf(buf: seq<byte>, fs: seq<Found>): (r: seq<Frame>)
    requires AllFramesAt(buf, fs)
    ensures |r| == |fs|
  {
    if fs == [] then [] else FramesOf(buf, fs[..|fs| - 1]) + [MakeFrame(buf, fs[|fs| - 1])]
  }

  /** What the scanning loop does at offset `i`. */
  datatype Step = Advance | Wait | Take(digits: nat)

  /**
   * The checks of tcpserver.py:42-76 on the byte at offset `i`: move on by one
   * byte (not a START, or a complete candidate with a bad marker, terminator
   * or digit), wait for more input (a START too close to the end), or take a
   * frame of `digits` digits.
   */
  function Classify(buf: seq<byte>, i: nat): (s: Step)
    requires i < |buf|
    ensures s.Take? ==> FrameAt(buf, Found(i, s.digits))
    ensures s.Wait? ==> buf[i] == START
  {
    if buf[i] != START then Advance
    else if |buf| - i < MinFrameLen then Wait
    else if DigitsFor(buf[i + 2]) == 0 then Advance
    else
      var digits := DigitsFor(buf[i + 2]);
      if |buf| - i < FrameLen(digits) then Wait
      else if buf[i + 3 + digits] != END then Advance
      else if !AllDigitBytes(buf[i + 3..i + 3 + digits]) then Advance
      else Take(digits)
  }

  /**
   * The scanning loop of tcpserver.py:40-93 from offset `i`, with `acc` the
   * frames matched before `i`; the buffer is not changed inside the loop.
   */
  function Scan(buf: seq<byte>, i: nat, acc: seq<Found>): (r: Scanned)
    requires i <= |buf|
    ensures r.stop.Pending? ==> i <= r.stop.at < |buf| && buf[r.stop.at] == START
    decreases |buf| - i
  {
    if i == |buf| then Scanned(acc, Cleared)
    else
      match Classify(buf, i)
      case Advance => Scan(buf, i + 1, acc)
      case Wait => Scanned(acc, Pending(i))
      case Take(digits) => Scan(buf, i + FrameLen(digits), acc + [Found(i, digits)])
  }

  /**
   * The buffer `extract_frames` leaves behind. An incomplete candidate at `j`
   * is trimmed twice: `del buffer[:j]` at line 51 or 64, then again at line 96
   * on the already shortened buffer.
   */
  function RestAsWritten(buf: seq<byte>, stop: Stop): (r: seq<byte>)
    requires stop.Pending? ==> stop.at < |buf|
    ensures |r| <= |buf| && r == buf[|buf| - |r|..]
  {
    match stop
    case Cleared => []
    case Pending(j) => if j == 0 then buf else Dropped(Dropped(buf, j), j)
  }

  /** `del s[:k]`: a prefix longer than `s` removes all of it. */
  function Dropped(s: seq<byte>, k: nat): (r: seq<byte>)
    ensures |r| == |s| - Min(k, |s|)
  {
    s[Min(k, |s|)..]
  }

  /** `extract_frames(buffer)`: its result and the new contents of `buffer`. */
  function Extract(buf: seq<byte>): (r: Extracted)
    ensures |r.rest| <= |buf| && r.rest == buf[|buf| - |r.rest|..]
  {
    var s := Scan(buf, 0, []);
    ScanFindsFrames(buf, 0, []);
    Extracted(FramesOf(buf, s.found), RestAsWritten(buf, s.stop))
  }

  /** Every offset a scan reports holds a well-formed frame. */
  lemma {:induction false} ScanFindsFrames(buf: seq<byte>, i: nat, acc: seq<Found>)
    requires i <= |buf| && AllFramesAt(buf, acc)
    ensures AllFramesAt(buf, Scan(buf, i, acc).found)
    decreases |buf| - i
  {
    if i < |buf| {
      match Classify(buf, i)
      case Advance => ScanFindsFrames(buf, i + 1, acc);
      case Wait =>
      case Take(digits) =>
        var f := Found(i, digits);
        assert AllFramesAt(buf, acc + [f]) by {
          forall k | 0 <= k < |acc + [f]|
            ensures FrameAt(buf, (acc + [f])[k])
          {
            if k < |acc| {
              assert (acc + [f])[k] == acc[k];
            }
          }
        }
        ScanFindsFrames(buf, i + FrameLen(digits), acc + [f]);
    }
  }

  /** No byte of `buf[i..j]` is START. */
  predicate NoStartIn(buf: seq<byte>, i: nat, j: nat)
    requires i <= j <= |buf|
    decreases j - i
  {
    i == j || (buf[j - 1] != START && NoStartIn(buf, i, j - 1))
  }

  /** Bytes that are not START are passed over without a frame. */
  lemma {:induction false} ScanSkips(buf: seq<byte>, i: nat, j: nat, acc: seq<Found>)
    requires i <= j <= |buf| && NoStartIn(buf, i, j)
    ensures Scan(buf, i, acc) == Scan(buf, j, acc)
    decreases j - i
  {
    if i < j {
      ScanSkips(buf, i, j - 1, acc);
    }
  }

  /** A complete candidate failing a check: the scan moves on by one byte. */
  lemma ScanAdvances(buf: seq<byte>, i: nat, acc: seq<Found>)
    requires i < |buf| && Classify(buf, i).Advance?
    ensures Scan(buf, i, acc) == Scan(buf, i + 1, acc)
  {
  }

  /** A frame at `j`, the first START at or after `i`: the scan goes on after it with it recorded. */
  lemma ScanTakesAfter(buf: seq<byte>, i: nat, j: nat, acc: seq<Found>, digits: nat)
    requires i <= j < |buf| && NoStartIn(buf, i, j) && Classify(buf, j) == Take(digits)
    ensures j + FrameLen(digits) <= |buf|
    ensures Scan(buf, i, acc) == Scan(buf, j + FrameLen(digits), acc + [Found(j, digits)])
  {
    ScanSkips(buf, i, j, acc);
    ScanTakes(buf, j, acc, digits);
  }

  /** An incomplete candidate at `i`: the scan stops there. */
  lemma ScanWaits(buf: seq<byte>, i: nat, acc: seq<Found>)
    requires i < |buf| && Classify(buf, i).Wait?
    ensures Scan(buf, i, acc) == Scanned(acc, Pending(i))
  {
  }

  /** A frame at `i`: the scan records it and goes on after it. */
  lemma ScanTakes(buf: seq<byte>, i: nat, acc: seq<Found>, digits: nat)
    requires i < |buf| && Classify(buf, i) == Take(digits)
    ensures Scan(buf, i, acc) == Scan(buf, i + FrameLen(digits), acc + [Found(i, digits)])
  {
  }

  /**
   * From `i`, past the non-START bytes up to the candidate at `j`, then one
   * step at `j`: where the scan continues, or that it waits at `j`.
   */
  lemma ScanMovesTo(buf: seq<byte>, i: nat, j: nat, acc: seq<Found>, step: Step)
    requires i <= j < |buf| && NoStartIn(buf, i, j) && step == Classify(buf, j)
    ensures step.Advance? ==> Scan(buf, i, acc) == Scan(buf, j + 1, acc)
    ensures step.Take? ==> j + FrameLen(step.digits) <= |buf|
    ensures step.Take? ==> Scan(buf, i, acc) == Scan(buf, j + FrameLen(step.digits), acc + [Found(j, step.digits)])
    ensures step.Wait? ==> Scan(buf, i, acc) == Scanned(acc, Pending(j))
  {
    ScanSkips(buf, i, j, acc);
  }

  /** Appending a match appends its frame. */
  lemma FramesOfSnoc(buf: seq<byte>, fs: seq<Found>, f: Found)
    requires AllFramesAt(buf, fs) && FrameAt(buf, f)
    ensures AllFramesAt(buf, fs + [f])
    ensures FramesOf(buf, fs + [f]) == FramesOf(buf, fs) + [MakeFrame(buf, f)]
  {
    assert (fs + [f])[..|fs|] == fs;
  }

  /** A slice of a slice is a slice of the whole. */
  lemma SliceOfSlice<T>(s: seq<T>, i: nat, j: nat, k: nat, l: nat)
    requires i <= j <= |s| && k <= l <= j - i
    ensures s[i..j][k..l] == s[i + k..i + l]
  {
    forall m | 0 <= m < l - k
      ensures s[i..j][k..l][m] == s[i + k..i + l][m]
    {
      assert s[i..j][k..l][m] == s[i..j][k + m] == s[i + k + m];
    }
  }

  /** `bytearray`: the mutable byte buffer `extract_frames` trims in place. */
  class ByteBuffer {
    var bytes: seq<byte>

    /** `bytearray()` */
    constructor ()
      ensures bytes == []
    {
      bytes := [];
    }

    /** `buffer.extend(chunk)` */
    method Extend(chunk: seq<byte>)
      modifies this
      ensures bytes == old(bytes) + chunk
    {
      bytes := bytes + chunk;
    }

    /** `del buffer[:k]`: a prefix longer than the buffer removes all of it. */
    method DeletePrefix(k: nat)
      modifies this
      ensures bytes == Dropped(old(bytes), k)
    {
      bytes := Dropped(bytes, k);
    }

    /** `del buffer[:]` */
    method Clear()
      modifies this
      ensures bytes == []
    {
      bytes := [];
    }
  }

  /** The inner loop of tcpserver.py:42-43: the first START at or after `i`, or `|data|`. */
  method SkipToStart(data: seq<byte>, i: nat) returns (j: nat)
    requires i <= |data|
    ensures i <= j <= |data|
    ensures j < |data| ==> data[j] == START
    ensures NoStartIn(data, i, j)
  {
    j := i;
    while j < |data| && data[j] != START
      invariant i <= j <= |data|
      invariant NoStartIn(data, i, j)
    {
      j := j + 1;
    }
  }

  /**
   * The checks of tcpserver.py:47-76 on a candidate at a START: too short to
   * hold a frame, an unknown marker, too short for the announced digits, a
   * missing terminator, a non-digit data byte, or a frame.
   */
  method CheckCandidate(data: seq<byte>, i: nat) returns (step: Step)
    requires i < |data| && data[i] == START
    ensures step == Classify(data, i)
  {
    var n := |data|;
    // shortest frame is 5 bytes
    if n - i < 5 {
      return Wait;
    }
    var marker := data[i + 2];
    if DigitsFor(marker) == 0 {
      return Advance;
    }
    var digits := DigitsFor(marker);
    var frameLen := 1 + 1 + 1 + digits + 1;
    if n - i < frameLen {
      return Wait;
    }
    if data[i + 3 + digits] != END {
      return Advance;
    }
    // every data byte must be '0'..'9'
    if !AllDigitBytes(data[i + 3..i + 3 + digits]) {
      return Advance;
    }
    return Take(digits);
  }

  /**
   * A frame of `digits` digits at `j`, the first START at or after `i`: the
   * frame is appended (tcpserver.py:78-87) and the scan goes on after it
   * (tcpserver.py:89).
   */
  method TakeFrame(data: seq<byte>, i: nat, j: nat, ghost found: seq<Found>, frames: seq<Frame>, digits: nat)
    returns (next: nat, ghost found': seq<Found>, frames': seq<Frame>)
    requires i <= j < |data| && NoStartIn(data, i, j) && Classify(data, j) == Take(digits)
    requires AllFramesAt(data, found) && frames == FramesOf(data, found)
    ensures found' == found + [Found(j, digits)] && next == j + FrameLen(digits) <= |data|
    ensures AllFramesAt(data, found') && frames' == FramesOf(data, found')
    ensures Scan(data, i, found) == Scan(data, j + FrameLen(digits), found + [Found(j, digits)])
  {
    FramesOfSnoc(data, found, Found(j, digits));
    frames' := frames + [MakeFrame(data, Found(j, digits))];
    found' := found + [Found(j, digits)];
    next := j + FrameLen(digits);
    ScanTakesAfter(data, i, j, found, digits);
  }

  /**
   * One pass of the scanning loop of `extract_frames` (tcpserver.py:41-93):
   * skip to the next START at or after `i`, then classify the candidate there.
   * Either the loop goes on from `next` with `found'` (the pass skipped one byte
   * or took one frame), or it stops: at the end of the buffer (`cleared`) or
   * waiting at the incomplete candidate at `next`.
   */
  method ScanPass(data: seq<byte>, i: nat, ghost found: seq<Found>, frames: seq<Frame>)
    returns (next: nat, ghost found': seq<Found>, frames': seq<Frame>, stopped: bool, cleared: bool)
    requires i <= |data| && AllFramesAt(data, found) && frames == FramesOf(data, found)
    ensures i <= next <= |data| && AllFramesAt(data, found') && frames' == FramesOf(data, found')
    ensures !stopped ==> i < next && Scan(data, i, found) == Scan(data, next, found')
    ensures stopped ==> Scan(data, i, found) == Scanned(found', if cleared then Cleared else Pending(next))
  {
    var n := |data|;
    found', frames', stopped, cleared := found, frames, false, false;
    next := SkipToStart(data, i);
    if next >= n {
      ScanSkips(data, i, next, found);
      return next, found', frames', true, true;
    }
    var step := CheckCandidate(data, next);
    ScanMovesTo(data, i, next, found, step);
    if step.Wait? {
      return next, found', frames', true, false;
    } else if step.Advance? {
      return next + 1, found', frames', false, false;
    }
    next, found', frames' := TakeFrame(data, i, next, found, frames, step.digits);
    if next >= n {
      stopped, cleared := true, true;
    }
  }

  /**
   * The scanning loop of `extract_frames` (tcpserver.py:40-93). The buffer is
   * not changed until the loop ends, so it runs here on a snapshot `data`; it
   * returns the frames, the offset `i` it stopped at and whether it ran to the
   * end of the buffer (`cleared`) rather than waiting at an incomplete candidate.
   */
  method ScanBuffer(data: seq<byte>) returns (frames: seq<Frame>, i: nat, cleared: bool)
    ensures frames == Extract(data).frames
    ensures Scan(data, 0, []).stop == if cleared then Cleared else Pending(i)
  {
    ghost var found: seq<Found> := [];
    frames, i, cleared := [], 0, false;
    var stopped := false;
    while !stopped
      invariant i <= |data| && AllFramesAt(data, found) && frames == FramesOf(data, found)
      invariant !stopped ==> Scan(data, 0, []) == Scan(data, i, found)
      invariant stopped ==> Scan(data, 0, []) == Scanned(found, if cleared then Cleared else Pending(i))
      decreases |data| - i, !stopped
    {
      i, found, frames, stopped, cleared := ScanPass(data, i, found, frames);
    }
  }


  /**
   * `extract_frames`: scan, then trim the buffer as tcpserver.py:44-96 does —
   * cleared when the scan ran off its end, otherwise `del buffer[:i]` when
   * the loop exits at an incomplete candidate and once more after the loop.
   */
  method ExtractFrames(buffer: ByteBuffer) returns (frames: seq<Frame>)
    modifies buffer
    ensures frames == Extract(old(buffer.bytes)).frames
    ensures buffer.bytes == Extract(old(buffer.bytes)).rest
  {
    var i, cleared;
    frames, i, cleared := ScanBuffer(buffer.bytes);
    if cleared {
      buffer.Clear();
    } else if i > 0 {
      buffer.DeletePrefix(i);
    }
    if i > 0 && |buffer.bytes| > 0 {
      buffer.DeletePrefix(i);
    }
  }
}
