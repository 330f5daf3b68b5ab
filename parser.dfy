/**
 * The backend's whole-buffer frame validator `parse_one_frame`
 * (Sensor/parser.py:6-27): a buffer is accepted only when it is exactly one
 * well-formed frame.
 */
module Parser {
  import opened Wrappers
  import opened Protocol

  /** The dict `{'id_code', 'value_int', 'value_str'}` of a successful parse. */
  datatype Reading = Reading(idCode: byte, valueInt: nat, valueStr: string)

  /** `parse_one_frame`: the chain of guard returns, `None` on any failure. */
  function ParseOneFrame(b: seq<byte>): (r: Option<Reading>)
    ensures r.Some? ==> IsValueText(r.value.valueStr) && r.value.valueInt == DecimalValue(r.value.valueStr)
    ensures r.Some? ==> r.value.valueInt <= 999
  {
    if |b| < 5 || b[0] != START || b[|b| - 1] != END then None
    else
      var idCode := b[1];
      var marker := b[2];
      if DigitsFor(marker) == 0 then None
      else
        var digits := DigitsFor(marker);
        if |b| != 1 + 1 + 1 + digits + 1 then None
        else
          var data := b[3..3 + digits];
          if !AllDigitBytes(data) then None
          else
            var valueStr := AsciiString(data);
            ValueTextBelow1000(valueStr);
            Some(Reading(idCode, DecimalValue(valueStr), valueStr))
  }

  /** Too short, no START in front or no END at the back: rejected. */
  lemma RejectsBadEnvelope(b: seq<byte>)
    requires |b| < 5 || b[0] != START || b[|b| - 1] != END
    ensures ParseOneFrame(b) == None
  {
  }

  /** A marker other than 0x35, 0x36 or 0x37: rejected. */
  lemma RejectsBadMarker(b: seq<byte>)
    requires |b| >= 3 && DigitsFor(b[2]) == 0
    ensures ParseOneFrame(b) == None
  {
  }

  /** A length other than the marker announces (extra bytes on either side): rejected. */
  lemma RejectsWrongLength(b: seq<byte>)
    requires |b| >= 3 && |b| != FrameLen(DigitsFor(b[2]))
    ensures ParseOneFrame(b) == None
  {
  }

  /** A digit byte outside 0x30..0x39: rejected. */
  lemma RejectsNonDigit(b: seq<byte>, k: nat)
    requires |b| >= 3 && 3 <= k < 3 + DigitsFor(b[2]) && k < |b|
    requires !IsDigitByte(b[k])
    ensures ParseOneFrame(b) == None
  {
    if |b| == FrameLen(DigitsFor(b[2])) {
      assert b[3..3 + DigitsFor(b[2])][k - 3] == b[k];
    }
  }

  /** Round trip: the frame a device sends for `id` and `s` parses to `(id, int(s), s)`. */
  lemma ParseEncode(id: byte, s: string)
    requires IsValueText(s)
    ensures ParseOneFrame(EncodeFrame(id, s)) == Some(Reading(id, DecimalValue(s), s))
  {
    var b := EncodeFrame(id, s);
    assert b[3..3 + |s|] == b[3..|b| - 1];
  }

  /** Every accepted buffer is exactly the encoding of what was read from it. */
  lemma ParsedIsEncoded(b: seq<byte>)
    requires ParseOneFrame(b).Some?
    ensures var r := ParseOneFrame(b).value;
      b == EncodeFrame(r.idCode, r.valueStr) && 1 <= |r.valueStr| <= 3
  {
    var r := ParseOneFrame(b).value;
    var mid := b[3..|b| - 1];
    ParsedParts(b);
    var e := EncodeFrame(r.idCode, r.valueStr);
    AsciiRoundTrip(mid, r.valueStr);
    AsciiRoundTrip(e[3..|e| - 1], r.valueStr);
    SameFrameBytes(b, e);
  }

  /** What an accepted buffer is made of. */
  lemma ParsedParts(b: seq<byte>)
    requires ParseOneFrame(b).Some?
    ensures var r := ParseOneFrame(b).value;
      && |b| == FrameLen(|r.valueStr|) && b[0] == START && b[|b| - 1] == END
      && b[1] == r.idCode && DigitsFor(b[2]) == |r.valueStr|
      && AllDigitBytes(b[3..|b| - 1]) && r.valueStr == AsciiString(b[3..|b| - 1])
  {
    assert b[3..3 + DigitsFor(b[2])] == b[3..|b| - 1];
  }

  /** Two buffers that agree on the four header and trailer bytes and on the digits are equal. */
  lemma SameFrameBytes(b: seq<byte>, e: seq<byte>)
    requires |b| == |e| >= 4 && b[0] == e[0] && b[1] == e[1] && b[|b| - 1] == e[|e| - 1]
    requires DigitsFor(b[2]) == DigitsFor(e[2]) != 0
    requires b[3..|b| - 1] == e[3..|e| - 1]
    ensures b == e
  {
    assert b == b[..3] + b[3..|b| - 1] + [b[|b| - 1]];
    assert e == e[..3] + e[3..|e| - 1] + [e[|e| - 1]];
  }

}
