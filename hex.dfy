/**
 * Hexadecimal text and bytes: `bytearray.hex()` as the gateway uses it for a
 * frame's `raw_hex` (tcpserver.py:86), and `bytes_from_hex_string` of
 * Sensor/parser.py:30-35, which removes spaces, lower-cases and then applies
 * `bytes.fromhex`. The input alphabet is spaces and hexadecimal digits of
 * either case; any other character is an error.
 */
module Hex {
  import opened Wrappers
  import opened Protocol

  predicate IsLowerHexChar(c: char) {
    '0' <= c <= '9' || 'a' <= c <= 'f'
  }

  predicate IsUpperHexChar(c: char) {
    '0' <= c <= '9' || 'A' <= c <= 'F'
  }

  /** The value of one lower-case hex digit. */
  function HexValue(c: char): (v: nat)
    requires IsLowerHexChar(c)
    ensures v < 16 && LowerHexDigit(v) == c
  {
    if '0' <= c <= '9' then c as int - '0' as int else c as int - 'a' as int + 10
  }

  /** The lower-case hex digit of `v`, as `.hex()` writes it. */
  function LowerHexDigit(v: nat): (c: char)
    requires v < 16
    ensures IsLowerHexChar(c)
  {
    if v < 10 then ('0' as int + v) as char else ('a' as int + v - 10) as char
  }

  /** The upper-case hex digit of `v`, as the format `%X` writes it. */
  function UpperHexDigit(v: nat): (c: char)
    requires v < 16
    ensures IsUpperHexChar(c)
  {
    if v < 10 then ('0' as int + v) as char else ('A' as int + v - 10) as char
  }

  /** `bytearray.hex()`: two lower-case hex digits per byte. */
  function ToHex(b: seq<byte>): (s: string)
    ensures |s| == 2 * |b|
    ensures forall k :: 0 <= k < |s| ==> IsLowerHexChar(s[k])
  {
    if b == [] then []
    else [LowerHexDigit(b[0] as int / 16), LowerHexDigit(b[0] as int % 16)] + ToHex(b[1..])
  }

  /** `bytes.fromhex` on text with no spaces left in it. */
  function FromHex(s: string): (r: Option<seq<byte>>)
    ensures r.Some? <==> |s| % 2 == 0 && forall k :: 0 <= k < |s| ==> IsLowerHexChar(s[k])
    ensures r.Some? ==> 2 * |r.value| == |s|
  {
    if |s| == 0 then Some([])
    else if |s| == 1 || !IsLowerHexChar(s[0]) || !IsLowerHexChar(s[1]) then None
    else
      match FromHex(s[2..])
      case None => None
      case Some(rest) => Some([(16 * HexValue(s[0]) + HexValue(s[1])) as byte] + rest)
  }

  /** `hex_str.replace(' ', '')`. */
  function RemoveSpaces(s: string): (r: string)
    ensures |r| <= |s|
  {
    if s == [] then []
    else if s[0] == ' ' then RemoveSpaces(s[1..])
    else [s[0]] + RemoveSpaces(s[1..])
  }

  function LowerChar(c: char): char {
    if 'A' <= c <= 'Z' then (c as int - 'A' as int + 'a' as int) as char else c
  }

  function UpperChar(c: char): char {
    if 'a' <= c <= 'z' then (c as int - 'a' as int + 'A' as int) as char else c
  }

  /**
   * `str.lower()` on the ASCII letters; other characters are left alone. The
   * hex digits of either case, and only they, become lower-case hex digits.
   */
  function Lower(s: string): (r: string)
    ensures |r| == |s|
    ensures forall k :: 0 <= k < |s| ==> (IsLowerHexChar(r[k]) <==> IsLowerHexChar(s[k]) || IsUpperHexChar(s[k]))
  {
    seq(|s|, k requires 0 <= k < |s| => LowerChar(s[k]))
  }

  function Upper(s: string): (r: string)
    ensures |r| == |s|
  {
    seq(|s|, k requires 0 <= k < |s| => UpperChar(s[k]))
  }

  /**
   * `bytes_from_hex_string`; `None` stands for the `ValueError` of `fromhex`.
   * Accepted text, without its spaces and lower-cased, is exactly what
   * `.hex()` writes for the result.
   */
  function BytesFromHexString(s: string): (r: Option<seq<byte>>)
    ensures r.Some? ==> 2 * |r.value| == |RemoveSpaces(s)|
    ensures r.Some? ==> ToHex(r.value) == Lower(RemoveSpaces(s))
  {
    var t := Lower(RemoveSpaces(s));
    if FromHex(t).Some? then ToHexFromHex(t); FromHex(t) else None
  }

  /** Decoding what `.hex()` wrote gives back the bytes. */
  lemma {:induction false} FromHexToHex(b: seq<byte>)
    ensures FromHex(ToHex(b)) == Some(b)
  {
    if b != [] {
      FromHexToHex(b[1..]);
      var s := ToHex(b);
      assert s[2..] == ToHex(b[1..]);
      assert 16 * HexValue(s[0]) + HexValue(s[1]) == b[0] as int;
      assert [b[0]] + b[1..] == b;
    }
  }

  /** Encoding what `fromhex` decoded gives back its (space-free, lower-case) input. */
  lemma {:induction false} ToHexFromHex(s: string)
    requires FromHex(s).Some?
    ensures ToHex(FromHex(s).value) == s
  {
    if |s| > 0 {
      ToHexFromHex(s[2..]);
      var v := 16 * HexValue(s[0]) + HexValue(s[1]);
      assert v / 16 == HexValue(s[0]) && v % 16 == HexValue(s[1]);
      assert s == s[..2] + s[2..];
    }
  }

  lemma {:induction false} RemoveSpacesAppend(a: string, b: string)
    ensures RemoveSpaces(a + b) == RemoveSpaces(a) + RemoveSpaces(b)
  {
    if a == [] {
      assert a + b == b;
    } else {
      assert (a + b)[0] == a[0] && (a + b)[1..] == a[1..] + b;
      RemoveSpacesAppend(a[1..], b);
    }
  }

  lemma {:induction false} RemoveSpacesNoSpace(s: string)
    requires forall k :: 0 <= k < |s| ==> s[k] != ' '
    ensures RemoveSpaces(s) == s
  {
    if s != [] {
      RemoveSpacesNoSpace(s[1..]);
    }
  }

  lemma {:induction false} RemoveSpacesUpper(s: string)
    ensures RemoveSpaces(Upper(s)) == Upper(RemoveSpaces(s))
  {
    if s != [] {
      assert Upper(s)[1..] == Upper(s[1..]);
      RemoveSpacesUpper(s[1..]);
      if s[0] != ' ' {
        assert Upper([s[0]] + RemoveSpaces(s[1..])) == [UpperChar(s[0])] + Upper(RemoveSpaces(s[1..]));
      }
    }
  }

  /** `bytes_from_hex_string` reads back what `.hex()` wrote (as for `raw_hex`). */
  lemma HexStringRoundTrip(b: seq<byte>)
    ensures BytesFromHexString(ToHex(b)) == Some(b)
  {
    var s := ToHex(b);
    RemoveSpacesNoSpace(s);
    assert Lower(s) == s;
    FromHexToHex(b);
  }

  /** A space anywhere in the input is ignored. */
  lemma SpaceIgnored(a: string, b: string)
    ensures BytesFromHexString(a + " " + b) == BytesFromHexString(a + b)
  {
    RemoveSpacesAppend(a + " ", b);
    RemoveSpacesAppend(a, " ");
    RemoveSpacesAppend(a, b);
    assert " "[1..] == [];
    assert RemoveSpaces(" ") == [];
    assert RemoveSpaces(a + " " + b) == RemoveSpaces(a + b);
  }

  /** Upper-case and lower-case hex digits decode alike. */
  lemma CaseIgnored(s: string)
    ensures BytesFromHexString(Upper(s)) == BytesFromHexString(s)
  {
    RemoveSpacesUpper(s);
    var t := RemoveSpaces(s);
    assert Lower(Upper(t)) == Lower(t);
  }

  /** An odd number of hex digits is an error. */
  lemma OddDigitCountRejected(s: string)
    requires |RemoveSpaces(s)| % 2 == 1
    ensures BytesFromHexString(s) == None
  {
  }

  lemma {:induction false} RemoveSpacesKeeps(s: string, k: nat)
    requires k < |s| && s[k] != ' '
    ensures s[k] in RemoveSpaces(s)
  {
    if k > 0 {
      RemoveSpacesKeeps(s[1..], k - 1);
    }
  }

  /** A character that is neither a space nor a hex digit is an error. */
  lemma NonHexCharRejected(s: string, k: nat)
    requires k < |s| && s[k] != ' ' && !IsLowerHexChar(s[k]) && !IsUpperHexChar(s[k])
    ensures BytesFromHexString(s) == None
  {
    RemoveSpacesKeeps(s, k);
    var t := RemoveSpaces(s);
    var j :| 0 <= j < |t| && t[j] == s[k];
    assert !IsLowerHexChar(Lower(t)[j]);
  }

  /** The two spellings of a frame accepted by the backend decode alike. */
  lemma SpacedUpperCaseExample()
    ensures BytesFromHexString("66 31 35 33 BB") == BytesFromHexString("66313533bb")
    ensures BytesFromHexString("66313533bb") == Some([0x66, 0x31, 0x35, 0x33, 0xBB])
  {
    assert Upper("66313533bb") == "66313533BB";
    assert ToHex([0x66, 0x31, 0x35, 0x33, 0xBB]) == "66313533bb";
    SpacesExample();
    CaseIgnored("66313533bb");
    HexStringRoundTrip([0x66, 0x31, 0x35, 0x33, 0xBB]);
  }

  lemma SpacesExample()
    ensures BytesFromHexString("66 31 35 33 BB") == BytesFromHexString("66313533BB")
  {
    SpaceIgnored("66", "31 35 33 BB");
    assert "66" + " " + "31 35 33 BB" == "66 31 35 33 BB";
    SpaceIgnored("6631", "35 33 BB");
    assert "6631" + " " + "35 33 BB" == "66" + "31 35 33 BB";
    assert "6631" + "35 33 BB" == "663135 33 BB";
    SpacesExampleTail();
  }

  lemma SpacesExampleTail()
    ensures BytesFromHexString("663135 33 BB") == BytesFromHexString("66313533BB")
  {
    SpaceIgnored("663135", "33 BB");
    assert "663135" + " " + "33 BB" == "663135 33 BB";
    SpaceIgnored("66313533", "BB");
    assert "66313533" + " " + "BB" == "663135" + "33 BB";
    assert "66313533" + "BB" == "66313533BB";
  }
}
