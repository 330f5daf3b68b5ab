# Sensor gateway framing and session, in Dafny

This project models the core of a TCP gateway for sensor devices. A device
sends readings as binary frames

    0x66 | ID | MARKER | DIGITS[n] | 0xBB

where MARKER is 0x35, 0x36 or 0x37 for n = 1, 2 or 3 and every digit byte is
an ASCII decimal digit. The gateway (`tcpserver.py`) does three things:

- It cuts frames out of an arbitrarily chunked byte stream (`extract_frames`).
  Candidates that fail a check are skipped one byte at a time.
- It forwards each reading to the backend as `{"id": "0x31", "value": 26}`
  (`upload_reading_to_django`).
- It writes an ack token and the digit text back to the device (`handle`).

The backend validates single frames and decodes hex text (`Sensor/parser.py`).

Modules:

- `Protocol` (protocol.dfy) holds the frame constants, the ASCII digit
  conversions and the device encoding `EncodeFrame`.
- `Hex` (hex.dfy) holds `bytearray.hex()` and `bytes_from_hex_string` with
  their round trip.
- `Parser` (parser.dfy) holds `parse_one_frame`.
- `Extractor` (extractor.dfy) holds `extract_frames`:
  - `Scan` and `Extract` are the specification of one call;
  - `ByteBuffer` is the `bytearray` class, trimmed in place;
  - `ExtractFrames` is the imperative procedure, proved equal to `Extract`.
- `ExtractorFacts` and `ExtractorExamples` hold what one call guarantees, and
  the resynchronisation examples.
- `Chunking` holds the session's repeated calls over successive chunks, and
  the double-trim finding with its corrected variant.
- `Forwarder` (forwarder.dfy) holds the payload formatting and the ok/not-ok
  classification of an HTTP outcome.
- `Session` (session.dfy) holds the `handle` loop as a method.
  - The sequence of `recv` results is a parameter.
  - The backend outcome and the socket-write outcome are oracle functions,
    indexed by position in the trace.
  - `Handle` is proved to produce `SessionTrace`.

Two behaviours of the code are modelled as written:

- A failed socket write is logged and the session goes on with the next frame
  and the next chunk (tcpserver.py:163-173).
- When the scan stops at an incomplete candidate at an offset other than 0,
  the buffer is trimmed twice up to that offset, at line 51 or 64 and again at
  line 96. The docstring of `extract_frames` (tcpserver.py:35) says that the
  buffer is trimmed in place and the consumed bytes are discarded; the second
  trim goes further and also removes that candidate's START and the bytes
  after it. The candidate at which the scan stops is therefore lost whether it
  sits behind noise or follows a complete frame in the same chunk (see
  Findings); bytes past twice its offset survive.

## Model

| member | source | states |
|---|---|---|
| Protocol.DigitsFor | tcpserver.py:29 | a marker announces at most 3 digits; 0 stands for the `None` of an unknown marker |
| Protocol.MarkerTable | tcpserver.py:29 | exactly 0x35, 0x36 and 0x37 announce digits, and each is the marker for the count it announces |
| Protocol.MarkerFor | Sensor/parser.py:4 | the marker for 1-3 digits is announced back as that count (inverse of the marker table) |
| Protocol.AsciiString | tcpserver.py:78 | decoding digit bytes as ASCII gives a digit string of the same length |
| Protocol.AsciiBytes | tcpserver.py:171 | encoding digit text gives digit bytes of the same length |
| Protocol.AsciiRoundTrip | tcpserver.py:78 | ASCII decoding and encoding of digits are mutually inverse |
| Protocol.DecimalValue | tcpserver.py:79 | `int(value_str)` is below 10 to the number of digits |
| Protocol.ValueTextBelow1000 | Sensor/parser.py:26 | a reading's value is at most 999 |
| Protocol.EncodeFrame | Sensor/parser.py:8 | the device encoding has length 3+n+1, START, the id, the right marker, the digit text and END |
| Hex.HexValue | Sensor/parser.py:35 | a lower-case hex digit has a value below 16 and is written back as itself |
| Hex.ToHex | tcpserver.py:86 | `.hex()` gives two lower-case hex digits per byte |
| Hex.FromHex | Sensor/parser.py:35 | `fromhex` succeeds exactly on an even number of hex digits and halves the length |
| Hex.RemoveSpaces | Sensor/parser.py:34 | removing spaces never lengthens the text |
| Hex.Lower | Sensor/parser.py:34 | ASCII lower-casing keeps the length, and the hex digits of either case, and only they, become lower-case hex digits |
| Hex.BytesFromHexString | Sensor/parser.py:30-35 | accepted text holds two hex digits per byte, and without its spaces and lower-cased it is exactly the `.hex()` of the result; HexStringRoundTrip, OddDigitCountRejected and NonHexCharRejected state the round trip and the errors |
| Hex.FromHexToHex | Sensor/parser.py:35 | decoding the hex of bytes gives the bytes back |
| Hex.ToHexFromHex | Sensor/parser.py:35 | encoding decoded hex gives the text back |
| Hex.HexStringRoundTrip | Sensor/parser.py:30-35 | `bytes_from_hex_string` of a frame's `raw_hex` returns the frame bytes |
| Hex.SpaceIgnored | Sensor/parser.py:34 | a space anywhere does not change the result |
| Hex.CaseIgnored | Sensor/parser.py:34 | upper-casing the input does not change the result |
| Hex.OddDigitCountRejected | Sensor/parser.py:35 | an odd number of hex digits is an error |
| Hex.NonHexCharRejected | Sensor/parser.py:35 | a character that is neither space nor hex digit is an error |
| Hex.RemoveSpacesKeeps | Sensor/parser.py:34 | every non-space character survives the removal |
| Hex.SpacedUpperCaseExample | Sensor/parser.py:32 | `'66 31 35 33 BB'` and `'66313533bb'` decode to the same five bytes |
| Parser.ParseOneFrame | Sensor/parser.py:6-27 | an accepted reading has 1-3 digit characters, `value_int` their decimal value, at most 999 |
| Parser.RejectsBadEnvelope | Sensor/parser.py:13-14 | too short, no START in front or no END at the back is rejected |
| Parser.RejectsBadMarker | Sensor/parser.py:16-19 | an unknown marker is rejected |
| Parser.RejectsWrongLength | Sensor/parser.py:20-21 | a length other than 3+n+1 is rejected |
| Parser.RejectsNonDigit | Sensor/parser.py:22-24 | a non-digit data byte is rejected |
| Parser.ParseEncode | Sensor/parser.py:6-27 | parsing the device encoding of `(id, s)` gives `(id, int(s), s)` |
| Parser.ParsedIsEncoded | Sensor/parser.py:6-27 | every accepted buffer is exactly the encoding of what was read from it |
| Parser.ParsedParts | Sensor/parser.py:13-27 | an accepted buffer has START, the id, a marker for the digit count, those digits and END |
| Extractor.MakeFrame | tcpserver.py:78-87 | a built frame has the ID byte after START, the announced digit count, that many digit characters and a value at most 999; FrameIsEncoded states its bytes |
| Extractor.FramesOf | tcpserver.py:81-87 | one frame is built per match |
| Extractor.Classify | tcpserver.py:42-76 | a candidate that is taken is a well-formed frame; waiting happens only at a START |
| Extractor.Scan | tcpserver.py:40-93 | a scan that stops early stops at a START inside the buffer |
| Extractor.Dropped | tcpserver.py:51 | `del s[:k]` removes `min(k, len(s))` bytes |
| Extractor.RestAsWritten | tcpserver.py:44-96 | what is left of the buffer is a suffix of it; RestAsWrittenShape states which one |
| Extractor.Extract | tcpserver.py:31-97 | the buffer left behind is a suffix of the old buffer; ExtractFrames is proved to compute it |
| Extractor.ScanFindsFrames | tcpserver.py:54-87 | every offset the scan matches holds a well-formed frame |
| Extractor.ScanSkips | tcpserver.py:42-43 | bytes that are not START are passed over |
| Extractor.ScanAdvances | tcpserver.py:57-59 | a failed check moves on by exactly one byte |
| Extractor.ScanTakes | tcpserver.py:81-89 | a match is recorded and the scan resumes after it |
| Extractor.ScanWaits | tcpserver.py:49-52 | an incomplete candidate stops the scan where it starts |
| Extractor.ScanTakesAfter | tcpserver.py:42-89 | past the bytes before a START, a match there is recorded and the scan resumes after it |
| Extractor.ScanMovesTo | tcpserver.py:42-89 | from `i`, the scan goes where the step at the next START says: one byte on, past a match, or stopped waiting |
| Extractor.FramesOfSnoc | tcpserver.py:81 | appending a match appends its frame |
| Extractor.ByteBuffer.constructor | tcpserver.py:128 | `bytearray()` is empty |
| Extractor.ByteBuffer.Extend | tcpserver.py:139 | the chunk is appended |
| Extractor.ByteBuffer.DeletePrefix | tcpserver.py:51 | `del buffer[:k]` |
| Extractor.ByteBuffer.Clear | tcpserver.py:45 | `del buffer[:]` |
| Extractor.SkipToStart | tcpserver.py:42-43 | stops at the first START at or after `i`, or at the end, with no START skipped |
| Extractor.CheckCandidate | tcpserver.py:47-76 | the checks on a candidate decide exactly as `Classify` |
| Extractor.TakeFrame | tcpserver.py:78-89 | the frame is appended, the match recorded, and the scan continues after the frame as `Scan` does |
| Extractor.ScanPass | tcpserver.py:41-93 | one pass of the loop either continues further on exactly as `Scan` does, or stops where `Scan` stops with the frames so far |
| Extractor.ScanBuffer | tcpserver.py:37-93 | the loop returns the frames of `Extract` and stops where `Scan` stops |
| Extractor.ExtractFrames | tcpserver.py:31-97 | returns the frames of `Extract` on the old buffer and leaves its rest in the buffer |
| ExtractorFacts.ScanKeepsEarlier | tcpserver.py:81 | frames matched earlier stay ahead of later ones |
| ExtractorFacts.ScanInOrder | tcpserver.py:89 | frames come in increasing offset order without overlap; a waiting candidate lies past them |
| ExtractorFacts.FramesOfIndex | tcpserver.py:81-87 | the k-th frame is built from the k-th match |
| ExtractorFacts.FrameIsEncoded | tcpserver.py:78-87 | the bytes of a built frame are the device encoding of its id and digit text |
| ExtractorFacts.FrameIsParsed | tcpserver.py:78-87 | a built frame is the device encoding of its id and digits, the backend parser accepts it and `raw_hex` decodes to it |
| ExtractorFacts.MadeFrameWellFormed | tcpserver.py:78-87 | a built frame has the shape of a reading and is accepted by the backend |
| ExtractorFacts.ExtractedFramesParse | tcpserver.py:56-87 | every emitted frame has 1-3 digits, digit text of that length, its decimal value at most 999, and raw hex of its encoding, and is accepted by `parse_one_frame` |
| ExtractorFacts.ClassifyTakesFrames | tcpserver.py:47-76 | a well-formed frame at a START the scan reaches is taken whole |
| ExtractorFacts.ExtractSingleFrame | tcpserver.py:31-97 | a buffer holding exactly one frame yields it and is emptied |
| ExtractorFacts.ExtractAgreesWithParser | Sensor/parser.py:6-27 | on a buffer `parse_one_frame` accepts, `extract_frames` returns the same id, digit text and value and empties the buffer |
| ExtractorFacts.IncompleteAtStartKept | tcpserver.py:49-52 | a START at offset 0 with too few bytes yields nothing and keeps the buffer whole |
| ExtractorFacts.NoStartDrainsBuffer | tcpserver.py:42-46 | without a START nothing is returned and the buffer is emptied |
| ExtractorFacts.RestAsWrittenShape | tcpserver.py:95-96 | the buffer left is empty, whole, or `buffer[min(2i, n):]` for an incomplete candidate at `i > 0` |
| ExtractorFacts.DroppedTwice | tcpserver.py:95-96 | deleting the first `j` bytes twice deletes the first `min(2j, n)` |
| ExtractorFacts.RestAfterFrames | tcpserver.py:95-96 | the buffer never grows, and what is left is a suffix lying past every emitted frame |
| ExtractorFacts.ScanLastEnd | tcpserver.py:61-62 | no frame reaches past the end of the buffer |
| ExtractorExamples.DoubleStart | tcpserver.py:57-59 | `66 66 31 35 35 BB` yields one frame (0x31, 1 digit, "5", 5) and an empty buffer |
| ExtractorExamples.BadMarker | tcpserver.py:57-59 | `66 31 39 35 BB` yields nothing and an empty buffer |
| ExtractorExamples.TwoDigits | tcpserver.py:78-87 | `66 33 36 32 36 BB` yields (0x33, "26", 26) |
| ExtractorExamples.PartialAfterFrameDropped | tcpserver.py:95-96 | `66 31 35 35 BB 66 31` yields its frame and leaves the buffer empty, dropping the start of the next frame |
| Chunking.RestIntended | tcpserver.py:95-96 | the intended trim keeps a suffix starting at the waiting START |
| Chunking.FeedAsWritten | tcpserver.py:139-142 | the buffer kept across calls is always a suffix of the bytes received |
| Chunking.FedFramesParse | tcpserver.py:139-142 | every frame returned over successive chunks is well formed and accepted by `parse_one_frame` |
| Chunking.FeedAsWrittenSnoc | tcpserver.py:139-142 | each chunk is appended to what was kept, and its frames follow those already returned |
| Chunking.AsWrittenAgreesUnlessWaitingLater | tcpserver.py:95-96 | the double trim matters only for an incomplete candidate past offset 0 |
| Chunking.SplitFrameLostAsWritten | tcpserver.py:95-96 | chunks `00 66 31` then `35 35 BB` yield no frame; the same bytes in one chunk yield the frame |
| Chunking.TrailingFrameLostAsWritten | tcpserver.py:95-96 | chunks `66 31 35 35 BB 66 31` then `35 37 BB` yield only the first frame |
| Chunking.TrailingFrameWhole | tcpserver.py:31-97 | the same ten bytes in one chunk yield both frames, values 5 and 7 |
| Chunking.SplitFrameKeptIntended | tcpserver.py:95-96 | with the intended trim the two chunks yield the frame |
| Chunking.ClassifyExtend | tcpserver.py:47-76 | a decision that did not wait is unchanged by later bytes |
| Chunking.ScanExtend | tcpserver.py:40-93 | on a longer buffer the scan repeats itself, then goes on from where it stopped |
| Chunking.ExtendAdvances | tcpserver.py:57-59 | a byte passed over is passed over alike on a longer buffer |
| Chunking.ExtendTakes | tcpserver.py:81-89 | a match is taken alike on a longer buffer |
| Chunking.FramesOfExtend | tcpserver.py:81-87 | frames are unchanged by later bytes |
| Chunking.MakeFrameExtend | tcpserver.py:78-87 | a built frame is unchanged by later bytes |
| Chunking.SameBytesSameFrame | tcpserver.py:78-87 | a frame is built from its own bytes only |
| Chunking.Shift | tcpserver.py:51 | shifting matches moves each one by the same offset |
| Chunking.ClassifyShift | tcpserver.py:47-76 | the checks do not depend on bytes in front |
| Chunking.ScanShift | tcpserver.py:40-93 | scanning a buffer behind extra bytes finds the same frames, shifted |
| Chunking.ShiftAdvances | tcpserver.py:57-59 | a byte passed over is passed over alike behind extra bytes |
| Chunking.ShiftWaits | tcpserver.py:49-52 | an incomplete candidate waits alike behind extra bytes |
| Chunking.ShiftTakes | tcpserver.py:81-89 | a match is taken alike behind extra bytes, shifted |
| Chunking.ShiftKeepsFrames | tcpserver.py:54-76 | shifted matches are still well formed |
| Chunking.FramesOfShift | tcpserver.py:81-87 | shifted matches build the same frames |
| Chunking.FrameAtShift | tcpserver.py:54-76 | a well-formed frame stays well formed behind extra bytes |
| Chunking.MakeFrameShift | tcpserver.py:78-87 | a frame is built the same behind extra bytes |
| Chunking.FramesOfAppend | tcpserver.py:81 | frames of two match lists are concatenated |
| Chunking.ExtractIntendedSplit | tcpserver.py:95-96 | with the intended trim, one call on `x + e` equals a call on `x` and then one on what it kept plus `e` |
| Chunking.ScanOfExtended | tcpserver.py:40-93 | the scan of `x + e` is the scan of `x` followed by the shifted scan of what it kept plus `e` |
| Chunking.RestShift | tcpserver.py:95-96 | the intended rest ignores the bytes in front |
| Chunking.FeedIntendedIsWhole | tcpserver.py:139-142 | with the intended trim, feeding chunk by chunk gives the frames and rest of one call on the whole stream |
| Forwarder.FormatId | tcpserver.py:106 | the id is "0x" and two upper-case hex digits |
| Forwarder.FormatIdRoundTrip | tcpserver.py:106 | the hex digits of the id decode back to the id byte |
| Forwarder.FormatIdInjective | tcpserver.py:152 | distinct ids are formatted differently |
| Forwarder.MakePayload | tcpserver.py:106 | the payload carries the value and an id text decoding to the id byte |
| Forwarder.Truthy | tcpserver.py:113 | `bool()` is false exactly for null, false, 0, the empty string, the empty list and the empty object |
| Forwarder.OkFlag | tcpserver.py:111-115 | the flag is set exactly when the body is a JSON object with a truthy `"ok"` |
| Forwarder.Upload | tcpserver.py:107-120 | the text of a response is returned; a transport error is a failure with its message |
| Forwarder.AcceptedIff | tcpserver.py:110-118 | ok exactly when status 200, a JSON object body, and a truthy `"ok"` |
| Forwarder.OtherStatusRejected | tcpserver.py:117-118 | any other status is a failure |
| Forwarder.NonObjectBodyRejected | tcpserver.py:111-115 | an unparseable body, or JSON that is not an object, is a failure |
| Forwarder.MissingOkRejected | tcpserver.py:113 | a missing `"ok"` defaults to 0, a failure |
| Forwarder.BackendReplies | tcpserver.py:113 | `{"ok": true}` is accepted, `{"ok": false}` is not |
| Forwarder.FormatIdExamples | tcpserver.py:152 | 0x31 gives "0x31", 0xBB gives "0xBB", 0x0A gives "0x0A" |
| Session.ReceivedChunks | tcpserver.py:130-139 | only non-empty chunks received before the end are appended, in order |
| Session.Ack | tcpserver.py:164 | `code=0000` exactly when the backend accepted, `code=0001` exactly when not |
| Session.FrameEvents | tcpserver.py:146-173 | each frame makes three events |
| Session.FramesEvents | tcpserver.py:146-173 | the frames make three events each |
| Session.FramesEventsSnoc | tcpserver.py:146 | the events of one more frame follow those already made |
| Session.AppendAndExtract | tcpserver.py:139-142 | the buffer goes on as `FeedAsWritten` and the frames returned are those of the new chunk |
| Session.ForwardFrames | tcpserver.py:146-173 | each frame in turn is forwarded, acked and echoed, and a failed write does not stop the loop |
| Session.FrameEventsSteps | tcpserver.py:157-173 | a frame's events are the forward, the ack for its outcome, and the echo |
| Session.ReceivedChunksStep | tcpserver.py:132-135 | an ending read ends the chunks; otherwise one more chunk follows |
| Session.SessionFrames | tcpserver.py:139-146 | every frame the session handles is well formed and accepted by `parse_one_frame` |
| Session.SessionTrace | tcpserver.py:146-173 | the session makes three events per frame it extracts |
| Session.Handle | tcpserver.py:123-190 | the session produces exactly `SessionTrace` |
| Session.FramesEventsIndex | tcpserver.py:146-173 | for the k-th frame: one forward, then `code=0000`/`code=0001` by its outcome, then its digit text |
| Session.WriteFailuresIgnored | tcpserver.py:163-173 | write outcomes change nothing else the session does |
| Session.SessionEndsAt | tcpserver.py:132-135 | nothing after an empty chunk or an exception is used |
| Session.SessionTraceEndsAt | tcpserver.py:175-183 | the trace depends only on the reads before the end |
| Session.EmptyChunkFirst | tcpserver.py:133-135 | an empty first chunk: no forward, no write |
| Session.SplitFrameSession | tcpserver.py:139-146 | the split frame behind noise is never forwarded |
| Session.WholeFrameSession | tcpserver.py:146-173 | the same bytes in one chunk are forwarded as ("0x31", 5), acked and echoed "5" |
| Session.WholeFrameExtracted | tcpserver.py:139-142 | the one-chunk session extracts that one frame |
| Session.SessionFramesIntendedWhole | tcpserver.py:139-142 | with the intended trim the session extracts the frames of all its bytes read as one |
| Session.IntendedSessionIgnoresChunking | tcpserver.py:139-173 | with the intended trim, the same bytes chunked differently give the same forwards and writes |

## Left out

- Sockets, threads, `main`, `settimeout` and the kinds of exception are left out. The `recv` results are a parameter, and a timeout, a reset or any other exception is one `Interrupted` event.
- The running out of `recv` results is treated as the end of the session.
- The HTTP request, its timeout and JSON decoding are left out. The backend's answer is an oracle value: a transport error, or a status, a text and a decoded body.
- A JSON number is an exact decimal (`real`). A literal that a float would round to 0.0 is not modelled, and neither are the `NaN`, `Infinity` and `-Infinity` literals that Python's `json` accepts; they are truthy, so a body `{"ok": NaN}` is accepted by the gateway but cannot be written here.
- An exception other than `RequestException` escaping the request is not modelled.
- Logging, `print`, the timestamps and `device_id_str`, which is used only for logging, are left out.
- Session.Handle: a write is modelled as succeeding or failing as a whole; partial `send` counts are not modelled.
- The scan in `extract_frames` runs on a snapshot of the buffer. The loop of tcpserver.py:40-93 changes the buffer only just before it exits, so this is the same; the trims are then applied to the `ByteBuffer` in place.
- Hex.Lower: lower-cases the ASCII letters only. Python's `str.lower()` also maps other letters, some to two characters (so the length can change); any such text is rejected by `bytes.fromhex` either way, so `BytesFromHexString` gives the same outcome.
- Hex: whitespace other than the plain space is not removed; such input is an error here, whereas `bytes.fromhex` skips some of it.
- `Sensor/views.py`, `Sensor/models.py`, `Sensor/urls.py` and `server.py` are not part of this model.

## Findings

| source | as written | input that shows it | evidently intended | confidence | as-written member | corrected member |
|---|---|---|---|---|---|---|
| tcpserver.py:95-96 | an incomplete candidate at offset `i > 0` is trimmed at line 51 or 64 and then again at line 96, leaving `buffer[min(2i, n):]`, which drops its START | chunk `00 66 31` then chunk `35 35 BB`: no frame, whereas the same bytes in one chunk give the frame with id 0x31 and value 5 | delete only `buffer[:i]`, keeping the candidate from its START, so that chunking does not change the frames | not executed | Chunking.SplitFrameLostAsWritten | Chunking.FeedIntendedIsWhole |
| tcpserver.py:95-96 | the same double trim hits a partial frame that follows a complete one, with no noise involved | chunk `66 31 35 35 BB 66 31` then chunk `35 37 BB`: only the reading 5, whereas the same bytes in one chunk give the readings 5 and 7 | as above: keep the partial frame from its START | not executed | Chunking.TrailingFrameLostAsWritten | Chunking.FeedIntendedIsWhole |
