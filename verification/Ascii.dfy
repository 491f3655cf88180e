/** ASCII text, as the Go code handles it byte by byte. */
module Ascii {
  import opened Bytes

  type AsciiString = s: string | forall i :: 0 <= i < |s| ==> s[i] as int < 128

  function LowerChar(c: char): char {
    if 'A' <= c <= 'Z' then (c as int + 32) as char else c
  }

  /** `strings.ToLower` on ASCII text. */
  function ToLower(s: AsciiString): (r: AsciiString)
    ensures |r| == |s|
    ensures forall i :: 0 <= i < |s| ==> r[i] == LowerChar(s[i])
  {
    seq(|s|, i requires 0 <= i < |s| => LowerChar(s[i]))
  }

  const UPPER: string := "ABCDEFGHIJKLMNOPQRSTUVWXYZ"
  const LOWER: string := "abcdefghijklmnopqrstuvwxyz"

  /** Exactly the 26 upper-case letters change, each to its own lower-case letter. */
  lemma LowerCharIs(c: char)
    ensures forall i :: 0 <= i < 26 ==> LowerChar(UPPER[i]) == LOWER[i]
    ensures c !in UPPER ==> LowerChar(c) == c
  {
    if 'A' <= c <= 'Z' {
      assert UPPER[c as int - 'A' as int] == c;
    }
  }

  // ---------------------------------------------------------------- hexadecimal

  function HexChar(v: int): (c: char)
    requires 0 <= v < 16
    ensures c as int < 128
  {
    (if v < 10 then '0' as int + v else 'a' as int + (v - 10)) as char
  }

  lemma HexCharIs(v: int)
    requires 0 <= v < 16
    ensures HexChar(v) == "0123456789abcdef"[v]
  {
  }

  function HexDigit(c: char): (v: Option<int>)
    ensures v.Some? ==> 0 <= v.value < 16 && HexChar(v.value) == LowerChar(c)
  {
    if '0' <= c <= '9' then Some(c as int - '0' as int)
    else if 'a' <= c <= 'f' then Some(c as int - 'a' as int + 10)
    else if 'A' <= c <= 'F' then Some(c as int - 'A' as int + 10)
    else None
  }

  ghost predicate AllHex(s: string) {
    forall i :: 0 <= i < |s| ==> HexDigit(s[i]).Some?
  }

  ghost predicate IsHex(s: string) {
    |s| % 2 == 0 && AllHex(s)
  }

  lemma AllHexPair(s: string)
    requires |s| >= 2
    ensures AllHex(s) <==> HexDigit(s[0]).Some? && HexDigit(s[1]).Some? && AllHex(s[2..])
  {
  }

  /** `hex.DecodeString`: both letter cases, an even number of digits. */
  function HexDecode(s: string): (r: Option<seq<byte>>)
    ensures r.Some? <==> IsHex(s)
    ensures r.Some? ==> 2 * |r.value| == |s|
  {
    if s == "" then Some([])
    else if |s| == 1 then None
    else
      AllHexPair(s);
      hide AllHex;
      var high, low, rest := HexDigit(s[0]), HexDigit(s[1]), HexDecode(s[2..]);
      if high.None? || low.None? || rest.None? then None
      else Some([16 * high.value + low.value] + rest.value)
  }

  /** `hex.EncodeToString`. */
  function HexEncode(d: seq<byte>): (s: AsciiString)
    ensures |s| == 2 * |d|
  {
    if d == [] then "" else [HexChar(d[0] / 16), HexChar(d[0] % 16)] + HexEncode(d[1..])
  }

  lemma HexDigitOf(v: int)
    requires 0 <= v < 16
    ensures HexDigit(HexChar(v)) == Some(v)
    ensures LowerChar(HexChar(v)) == HexChar(v)
  {
  }

  lemma {:induction false} HexEncodeDecode(d: seq<byte>)
    ensures HexDecode(HexEncode(d)) == Some(d)
  {
    if d != [] {
      hide HexChar, HexDigit, IsHex, AllHex;
      HexDigitOf(d[0] / 16);
      HexDigitOf(d[0] % 16);
      HexEncodeDecode(d[1..]);
      assert HexEncode(d)[2..] == HexEncode(d[1..]);
      assert d == [d[0]] + d[1..];
    }
  }

  lemma {:induction false} HexEncodeLower(d: seq<byte>)
    ensures ToLower(HexEncode(d)) == HexEncode(d)
  {
    if d != [] {
      hide HexChar;
      HexDigitOf(d[0] / 16);
      HexDigitOf(d[0] % 16);
      HexEncodeLower(d[1..]);
    }
  }

  lemma HexEncodeCons(high: int, low: int, rest: seq<byte>)
    requires 0 <= high < 16 && 0 <= low < 16
    ensures HexEncode([16 * high + low] + rest) == [HexChar(high), HexChar(low)] + HexEncode(rest)
  {
    hide HexChar;
    assert ([16 * high + low] + rest)[1..] == rest;
  }

  lemma {:induction false} HexDecodeEncode(s: AsciiString)
    requires IsHex(s)
    ensures HexEncode(HexDecode(s).value) == ToLower(s)
  {
    if s != "" {
      AllHexPair(s);
      hide HexChar, HexDigit, AllHex, LowerChar, HexEncode;
      var tail: AsciiString := s[2..];
      HexDecodeEncode(tail);
      HexEncodeCons(HexDigit(s[0]).value, HexDigit(s[1]).value, HexDecode(tail).value);
      assert ToLower(s) == [LowerChar(s[0]), LowerChar(s[1])] + ToLower(tail);
    } else {
      assert HexDecode(s) == Some([]);
      assert ToLower(s) == "";
    }
  }
}
