/**
 * `base32Decode` of packages/vault-crypto/src/totp.ts, against the encoding of
 * section 6 of RFC 4648.
 *
 * JavaScript shifts work on 32-bit integers and the source never masks its
 * accumulator, so it wraps after the first six characters or so.
 */
module Base32 {
  import opened Ascii
  import opened BitStrings
  import opened Bytes
  import opened ConvertBits

  datatype Base32Error = InvalidCharacter(c: char, position: nat)

  const SHIFT_BITS: nat := 32

  /** The alphabet `ABCDEFGHIJKLMNOPQRSTUVWXYZ234567`. */
  function AlphabetChar(v: int): (c: char)
    requires 0 <= v < 32
    ensures c as int < 128
  {
    (if v < 26 then 'A' as int + v else '2' as int + (v - 26)) as char
  }

  /** `CHARS.indexOf(c)`. */
  function IndexOf(c: char): (v: int)
    ensures v == -1 || (0 <= v < 32 && AlphabetChar(v) == c)
    ensures v == -1 ==> forall u :: 0 <= u < 32 ==> AlphabetChar(u) != c
  {
    if 'A' <= c <= 'Z' then c as int - 'A' as int
    else if '2' <= c <= '7' then c as int - '2' as int + 26
    else -1
  }

  lemma {:induction false} IndexOfAlphabet(v: int)
    requires 0 <= v < 32
    ensures IndexOf(AlphabetChar(v)) == v
    ensures UpperChar(AlphabetChar(v)) == AlphabetChar(v)
    ensures AlphabetChar(v) != '=' && !IsSpace(AlphabetChar(v))
  {
  }

  function UpperChar(c: char): char {
    if 'a' <= c <= 'z' then (c as int - 32) as char else c
  }

  /** The ASCII part of the regular expression class `\s`. */
  predicate IsSpace(c: char) {
    c == ' ' || 9 <= c as int <= 13
  }

  function ToUpper(s: AsciiString): (r: AsciiString)
    ensures |r| == |s|
    ensures forall i :: 0 <= i < |s| ==> r[i] == UpperChar(s[i])
  {
    seq(|s|, i requires 0 <= i < |s| => UpperChar(s[i]))
  }

  function RemoveSpaces(s: AsciiString): AsciiString {
    if s == "" then ""
    else RemoveSpaces(s[..|s| - 1]) + (if IsSpace(s[|s| - 1]) then "" else [s[|s| - 1]])
  }

  /** `replace(/=+$/, '')`. */
  function StripPadding(s: AsciiString): AsciiString {
    if s != "" && s[|s| - 1] == '=' then StripPadding(s[..|s| - 1]) else s
  }

  function Normalize(input: AsciiString): AsciiString {
    StripPadding(RemoveSpaces(ToUpper(input)))
  }

  ghost predicate InAlphabet(s: string) {
    forall i :: 0 <= i < |s| ==> IndexOf(s[i]) >= 0
  }

  function Indices(s: string): (d: seq<int>)
    requires InAlphabet(s)
    ensures |d| == |s|
    ensures forall i :: 0 <= i < |d| ==> 0 <= d[i] < 32
  {
    seq(|s|, i requires 0 <= i < |s| => IndexOf(s[i]))
  }

  lemma IndicesFit(s: string)
    requires InAlphabet(s)
    ensures Fits(Indices(s), 5)
  {
    assert Pow2(5) == 32;
  }

  /** `(value >>> shift) & 0xff` of a signed 32-bit value. */
  function UnsignedByte(value: int, shift: nat): (b: byte) {
    FitsBytes([Shr(value % Pow2(SHIFT_BITS), shift) % Pow2(8)], 8);
    Shr(value % Pow2(SHIFT_BITS), shift) % Pow2(8)
  }

  lemma UnsignedByteBits(value: int, shift: nat)
    requires shift + 8 <= SHIFT_BITS
    ensures LowBits(value, 8 + shift) == LowBits(UnsignedByte(value, shift), 8) + LowBits(value, shift)
  {
    var u := value % Pow2(SHIFT_BITS);
    UnsignedKeepsLowBits(value, SHIFT_BITS, 8 + shift);
    UnsignedKeepsLowBits(value, SHIFT_BITS, shift);
    LowBitsSplit(u, 8, shift);
    DigitBits(u, shift, 8);
    assert UnsignedByte(value, shift) == Digit(u, shift, 8);
  }

  lemma StateTakeByte(done: seq<int>, out: seq<int>, value: int, bits: nat)
    requires bits + 8 <= SHIFT_BITS && State(done, 5, out, 8, value, 8 + bits)
    ensures State(done, 5, out + [UnsignedByte(value, bits)], 8, value, bits)
  {
    hide LowBits, Spread, UnsignedByte;
    UnsignedByteBits(value, bits);
    BytesFit([UnsignedByte(value, bits)]);
    SpreadSnoc(out, UnsignedByte(value, bits), 8);
  }

  /** How many whole bytes the first `n` characters hold. */
  lemma WholeBytes(out: nat, n: nat, bits: nat)
    requires bits < 8 && 8 * out + bits == 5 * n
    ensures out == 5 * n / 8
  {
  }

  /** What is decoded: the whole bytes of the characters' bits; leftover bits are ignored. */
  ghost predicate DecodesTo(s: string, r: Result<seq<byte>, Base32Error>) {
    match r
    case Ok(d) => InAlphabet(s) && d == Gather(Spread(Indices(s), 5), 8)
    case Err(InvalidCharacter(c, i)) => i < |s| && s[i] == c && IndexOf(c) == -1 && InAlphabet(s[..i])
  }

  /** The source's loop; the output buffer is allocated up front and filled exactly. */
  method Base32Decode(input: AsciiString) returns (r: Result<seq<byte>, Base32Error>)
    ensures DecodesTo(Normalize(input), r)
  {
    hide Spread, LowBits, Wrap, Shl, UnsignedByte, State, Normalize, IndexOf, Gather;
    var s := Normalize(input);
    var out := new byte[|s| * 5 / 8](_ => 0);
    var bits, value, idx := 0, 0, 0;
    StartState(5, 8);
    assert s[..0] == "" && out[..0] == [];
    ghost var done: seq<int> := [];
    for i := 0 to |s|
      invariant InAlphabet(s[..i]) && done == Indices(s[..i])
      invariant 0 <= bits < 8 && 0 <= idx <= out.Length
      invariant 8 * idx + bits == 5 * i
      invariant State(done, 5, out[..idx], 8, value, bits)
    {
      var c := IndexOf(s[i]);
      if c == -1 {
        return Err(InvalidCharacter(s[i], i));
      }
      IndicesFit([s[i]]);
      assert c == Indices([s[i]])[0];
      StateShiftIn(done, c, 5, out[..idx], 8, value, bits, SHIFT_BITS);
      value := Wrap(Shl(value, 5), SHIFT_BITS) + c;
      bits := bits + 5;
      done := done + [c];
      assert done == Indices(s[..i + 1]);
      if bits >= 8 {
        StateTakeByte(done, out[..idx], value, bits - 8);
        ghost var filled := out[..idx];
        out[idx] := UnsignedByte(value, bits - 8);
        idx := idx + 1;
        bits := bits - 8;
        assert out[..idx] == filled + [out[idx - 1]];
      }
    }
    assert s[..|s|] == s;
    WholeBytes(idx, |s|, bits);
    assert out[..idx] == out[..];
    AllBytes(done, out[..], value, bits);
    return Ok(out[..]);
  }

  lemma {:induction false} AllBytes(done: seq<int>, out: seq<byte>, value: int, bits: nat)
    requires bits < 8 && State(done, 5, out, 8, value, bits)
    ensures Gather(Spread(done, 5), 8) == out
  {
    hide LowBits, Spread;
    SpreadLength(out, 8);
    GatherDropsTail(Spread(out, 8), LowBits(value, bits), 8);
    GatherSpread(out, 8);
  }

  // ---------------------------------------------------------------- RFC 4648, section 6

  function Text(w: seq<int>): (s: AsciiString)
    requires forall i :: 0 <= i < |w| ==> 0 <= w[i] < 32
    ensures |s| == |w|
    ensures forall i :: 0 <= i < |w| ==> s[i] == AlphabetChar(w[i])
  {
    seq(|w|, i requires 0 <= i < |w| => AlphabetChar(w[i]))
  }

  /** The encoding of `d` without its padding characters. */
  ghost function Encoded(d: seq<byte>): (s: AsciiString) {
    PaddedBytesGather(d, 5);
    assert Pow2(5) == 32;
    Text(Regroup(d, 8, 5, true).value)
  }

  function Equals(k: nat): (s: AsciiString)
    ensures |s| == k
    ensures forall i :: 0 <= i < k ==> s[i] == '='
  {
    seq(k, i => '=')
  }

  lemma {:induction false} StripEquals(s: AsciiString, k: nat)
    requires s == "" || s[|s| - 1] != '='
    ensures StripPadding(s + Equals(k)) == s
  {
    if k == 0 {
      assert s + Equals(0) == s;
    } else {
      var t := s + Equals(k);
      assert t[..|t| - 1] == s + Equals(k - 1);
      StripEquals(s, k - 1);
    }
  }

  lemma {:induction false} SpacesAndCase(s: AsciiString)
    ensures RemoveSpaces(ToUpper(s)) == ToUpper(RemoveSpaces(s))
  {
    if s != "" {
      var k := |s| - 1;
      var front: AsciiString := s[..k];
      SpacesAndCase(front);
      assert ToUpper(s)[..k] == ToUpper(front);
      assert IsSpace(UpperChar(s[k])) <==> IsSpace(s[k]);
      if !IsSpace(s[k]) {
        var kept: AsciiString := RemoveSpaces(front) + [s[k]];
        assert ToUpper(kept) == ToUpper(RemoveSpaces(front)) + [UpperChar(s[k])];
      }
    }
  }

  /** The alphabet of section 6. */
  lemma AlphabetIs(v: int)
    requires 0 <= v < 32
    ensures AlphabetChar(v) == "ABCDEFGHIJKLMNOPQRSTUVWXYZ234567"[v]
  {
  }

  /** `input` writes out `text`: white space anywhere, letters in either case. */
  ghost predicate Writes(input: string, text: string) {
    if input == "" then text == ""
    else
      var c, front := input[|input| - 1], input[..|input| - 1];
      if c == ' ' || c as int in {9, 10, 11, 12, 13} then Writes(front, text)
      else
        && text != ""
        && (c == text[|text| - 1] || ('a' <= c <= 'z' && text[|text| - 1] as int == c as int - 32))
        && Writes(front, text[..|text| - 1])
  }

  lemma {:induction false} WrittenIsRead(input: AsciiString, text: AsciiString)
    requires Writes(input, text)
    requires forall i :: 0 <= i < |text| ==> UpperChar(text[i]) == text[i]
    ensures ToUpper(RemoveSpaces(input)) == text
  {
    if input != "" {
      var k := |input| - 1;
      var c, front: AsciiString := input[k], input[..k];
      if IsSpace(c) {
        WrittenIsRead(front, text);
      } else {
        var before: AsciiString := text[..|text| - 1];
        WrittenIsRead(front, before);
        UpperSnoc(RemoveSpaces(front), c);
        assert text == before + [UpperChar(c)];
      }
    }
  }

  lemma UpperSnoc(s: AsciiString, c: char)
    requires c as int < 128
    ensures ToUpper(s + [c]) == ToUpper(s) + [UpperChar(c)]
  {
  }

  lemma EncodedIsUpper(d: seq<byte>, k: nat)
    ensures forall i :: 0 <= i < |Encoded(d) + Equals(k)| ==> UpperChar((Encoded(d) + Equals(k))[i]) == (Encoded(d) + Equals(k))[i]
  {
    hide Regroup, AlphabetChar, UpperChar;
    PaddedBytesGather(d, 5);
    assert Pow2(5) == 32;
    var w, text := Regroup(d, 8, 5, true).value, Encoded(d) + Equals(k);
    assert UpperChar('=') == '=' by {
      UpperEquals();
    }
    forall i | 0 <= i < |text| ensures UpperChar(text[i]) == text[i] {
      if i < |w| {
        IndexOfAlphabet(w[i]);
      }
    }
  }

  lemma UpperEquals()
    ensures UpperChar('=') == '='
  {
  }

  /**
   * However the encoding of `d` is written - either letter case, white space
   * anywhere, any amount of padding - it decodes to `d`.
   */
  lemma DecodeInvertsEncode(d: seq<byte>, input: AsciiString, k: nat, r: Result<seq<byte>, Base32Error>)
    requires Writes(input, Encoded(d) + Equals(k))
    requires DecodesTo(Normalize(input), r)
    ensures r == Ok(d)
  {
    EncodedIsUpper(d, k);
    hide Spread, Gather, Regroup, RemoveSpaces, AlphabetChar, IndexOf, UpperChar, IsSpace, Writes;
    WrittenIsRead(input, Encoded(d) + Equals(k));
    var body := Encoded(d);
    PaddedBytesGather(d, 5);
    var w := Regroup(d, 8, 5, true).value;
    assert Pow2(5) == 32;
    forall i | 0 <= i < |w|
      ensures IndexOf(body[i]) == w[i] && body[i] != '='
    {
      IndexOfAlphabet(w[i]);
    }
    SpacesAndCase(input);
    StripEquals(body, k);
    assert Normalize(input) == body;
    assert Indices(body) == w;
  }
}
