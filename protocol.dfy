/**
 * The device wire protocol shared by the gateway (tcpserver.py) and the
 * backend parser (Sensor/parser.py):
 *
 *     0x66 | ID | MARKER | DIGITS[n] | 0xBB
 *
 * where MARKER is 0x35, 0x36 or 0x37 for n = 1, 2 or 3 and every digit byte
 * is an ASCII decimal digit. Both source files declare the same constants;
 * here they are declared once.
 */
module Protocol {

  newtype byte = x: int | 0 <= x < 256

  const START: byte := 0x66
  const END: byte := 0xBB

  /**
   * `MARKER_TO_DIGITS.get(marker)`: the number of digit bytes announced by
   * 0x35, 0x36 or 0x37; 0 stands for the `None` of any other byte.
   */
  function DigitsFor(marker: byte): (n: nat)
    ensures n <= 3
  {
    if marker == 0x35 then 1 else if marker == 0x36 then 2 else if marker == 0x37 then 3 else 0
  }

  /** The shortest possible frame: START, ID, MARKER, one digit, END. */
  const MinFrameLen: nat := 5

  /** `1 + 1 + 1 + digits + 1`: the length of a frame carrying `digits` digits. */
  function FrameLen(digits: nat): nat {
    1 + 1 + 1 + digits + 1
  }

  /** The marker byte announcing `n` digits; the inverse of `DigitsFor`. */
  function MarkerFor(n: nat): (m: byte)
    requires 1 <= n <= 3
    ensures DigitsFor(m) == n
  {
    (0x34 + n) as byte
  }

  /** The whole marker table: exactly 0x35, 0x36 and 0x37 announce digits, and each is the marker for its count. */
  lemma MarkerTable(marker: byte)
    ensures DigitsFor(marker) != 0 <==> 0x35 <= marker <= 0x37
    ensures DigitsFor(marker) != 0 ==> MarkerFor(DigitsFor(marker)) == marker
  {
  }

  predicate IsDigitByte(x: byte) {
    0x30 <= x <= 0x39
  }

  predicate AllDigitBytes(s: seq<byte>) {
    forall k :: 0 <= k < |s| ==> IsDigitByte(s[k])
  }

  predicate IsDigitChar(c: char) {
    '0' <= c <= '9'
  }

  predicate IsDigitString(s: string) {
    forall k :: 0 <= k < |s| ==> IsDigitChar(s[k])
  }

  /** The digit text a frame can carry: one to three decimal digits. */
  predicate IsValueText(s: string) {
    1 <= |s| <= 3 && IsDigitString(s)
  }

  /** `bytes(data).decode('ascii')` on digit bytes. */
  function AsciiString(s: seq<byte>): (r: string)
    requires AllDigitBytes(s)
    ensures |r| == |s| && IsDigitString(r)
  {
    seq(|s|, k requires 0 <= k < |s| => (s[k] as int) as char)
  }

  /** `str.encode('ascii')` on digit text. */
  function AsciiBytes(s: string): (r: seq<byte>)
    requires IsDigitString(s)
    ensures |r| == |s| && AllDigitBytes(r)
  {
    seq(|s|, k requires 0 <= k < |s| => (s[k] as int) as byte)
  }

  lemma AsciiRoundTrip(b: seq<byte>, s: string)
    requires AllDigitBytes(b) && IsDigitString(s)
    ensures AsciiBytes(AsciiString(b)) == b
    ensures AsciiString(AsciiBytes(s)) == s
  {
    assert forall k :: 0 <= k < |b| ==> AsciiBytes(AsciiString(b))[k] == b[k];
    assert forall k :: 0 <= k < |s| ==> AsciiString(AsciiBytes(s))[k] == s[k];
  }

  function Pow10(n: nat): (p: nat)
    ensures p >= 1
  {
    if n == 0 then 1 else 10 * Pow10(n - 1)
  }

  /** Python's `int(value_str)` on a string of decimal digits. */
  function DecimalValue(s: string): (v: nat)
    requires IsDigitString(s)
    ensures v < Pow10(|s|)
  {
    if |s| == 0 then 0
    else 10 * DecimalValue(s[..|s| - 1]) + (s[|s| - 1] as int - '0' as int)
  }

  /** A reading's value is at most 999: three decimal digits at most. */
  lemma ValueTextBelow1000(s: string)
    requires IsValueText(s)
    ensures DecimalValue(s) <= 999
  {
    assert Pow10(|s|) <= Pow10(3) == 1000;
  }

  /** The frame a device sends for source `id` and digit text `s`. */
  function EncodeFrame(id: byte, s: string): (b: seq<byte>)
    requires IsValueText(s)
    ensures |b| == FrameLen(|s|)
    ensures b[0] == START && b[1] == id && b[|b| - 1] == END
    ensures DigitsFor(b[2]) == |s|
    ensures AllDigitBytes(b[3..|b| - 1]) && AsciiString(b[3..|b| - 1]) == s
  {
    var b := [START, id, MarkerFor(|s|)] + AsciiBytes(s) + [END];
    assert b[3..|b| - 1] == AsciiBytes(s);
    AsciiRoundTrip([], s);
    b
  }
}
