/**
 * The Bech32 codec and the npub functions of backend/internal/identity/nostr.go.
 *
 * The source has no 90-character limit and lower-cases its input before
 * decoding, so mixed-case strings are accepted; the model does the same.
 */
module Bech32 {
  import opened Ascii
  import opened BitStrings
  import opened Bytes
  import opened Bech32Checksum
  import opened ConvertBits

  datatype Bech32Error =
    | InvalidString | InvalidCharacter | InvalidChecksum | InvalidDataValue
    | InvalidLength | InvalidHex | InvalidHrp | BadBits(why: ConvertError)

  const CHARSET: string := "qpzry9x8gf2tvdw0s3jn54khce6mua7l"

  ghost predicate Symbols(d: seq<byte>) {
    forall i :: 0 <= i < |d| ==> d[i] < 32
  }

  // ---------------------------------------------------------------- characters

  function DataChar(v: byte): char
    requires v < 32
  {
    CHARSET[v]
  }

  /** First position of `c` in the charset at or after `i`, or -1. */
  function IndexFrom(c: char, i: nat): (r: int)
    requires i <= 32
    ensures r == -1 || (i <= r < 32 && DataChar(r) == c)
    ensures r == -1 ==> forall v :: i <= v < 32 ==> DataChar(v) != c
    decreases 32 - i
  {
    if i == 32 then -1 else if DataChar(i) == c then i else IndexFrom(c, i + 1)
  }

  /** `strings.IndexRune(bech32Charset, c)`. */
  function Index(c: char): (r: int)
    ensures r == -1 || (0 <= r < 32 && DataChar(r) == c)
  {
    IndexFrom(c, 0)
  }

  /** The charset read backwards, one character at a time. */
  function Position(c: char): int {
    if c == 'q' then 0 else if c == 'p' then 1 else if c == 'z' then 2 else if c == 'r' then 3
    else if c == 'y' then 4 else if c == '9' then 5 else if c == 'x' then 6 else if c == '8' then 7
    else if c == 'g' then 8 else if c == 'f' then 9 else if c == '2' then 10 else if c == 't' then 11
    else if c == 'v' then 12 else if c == 'd' then 13 else if c == 'w' then 14 else if c == '0' then 15
    else if c == 's' then 16 else if c == '3' then 17 else if c == 'j' then 18 else if c == 'n' then 19
    else if c == '5' then 20 else if c == '4' then 21 else if c == 'k' then 22 else if c == 'h' then 23
    else if c == 'c' then 24 else if c == 'e' then 25 else if c == '6' then 26 else if c == 'm' then 27
    else if c == 'u' then 28 else if c == 'a' then 29 else if c == '7' then 30 else if c == 'l' then 31
    else -1
  }

  lemma PositionOf(v: byte)
    requires v < 32
    ensures Position(DataChar(v)) == v
  {
  }

  /** Data characters are lower-case ASCII, and none of them is the separator. */
  lemma DataCharPlain(v: byte)
    requires v < 32
    ensures DataChar(v) != '1' && LowerChar(DataChar(v)) == DataChar(v) && DataChar(v) as int < 128
  {
  }

  lemma IndexOfDataChar(v: byte)
    requires v < 32
    ensures Index(DataChar(v)) == v
  {
    hide DataChar, Position;
    PositionOf(v);
    if Index(DataChar(v)) == -1 {
      assert false;
    } else {
      PositionOf(Index(DataChar(v)));
    }
  }

  // ---------------------------------------------------------------- encoding

  function High(c: char): (v: byte)
    requires c as int < 128
  {
    c as int / 32
  }

  function Low(c: char): (v: byte)
    requires c as int < 128
  {
    c as int % 32
  }

  /** `bech32HrpExpand`. */
  function Expand(hrp: AsciiString): (v: seq<byte>)
    ensures |v| == 2 * |hrp| + 1
  {
    seq(|hrp|, i requires 0 <= i < |hrp| => High(hrp[i])) + [0] + seq(|hrp|, i requires 0 <= i < |hrp| => Low(hrp[i]))
  }

  /** The source fills one preallocated slice from both ends of the separator zero. */
  method HrpExpand(hrp: AsciiString) returns (v: seq<byte>)
    ensures v == Expand(hrp)
    ensures |v| == 2 * |hrp| + 1 && v[|hrp|] == 0
    ensures forall i :: 0 <= i < |hrp| ==> 32 * v[i] <= hrp[i] as int < 32 * v[i] + 32
    ensures forall i :: |hrp| < i < |v| ==> v[i] < 32 && (hrp[i - |hrp| - 1] as int - v[i]) % 32 == 0
  {
    ExpandHalves(hrp);
    ExpandAt(hrp);
    hide High, Low, Expand;
    var n := |hrp|;
    var result := new byte[2 * n + 1](_ => 0);
    for i := 0 to n
      invariant result[n] == 0
      invariant forall k :: 0 <= k < i ==> result[k] == High(hrp[k])
      invariant forall k :: n < k < n + 1 + i ==> result[k] == Low(hrp[k - n - 1])
    {
      result[i] := High(hrp[i]);
      result[i + n + 1] := Low(hrp[i]);
    }
    result[n] := 0;
    v := result[..];
  }

  lemma ExpandAt(hrp: AsciiString)
    ensures var v := Expand(hrp);
      && v[|hrp|] == 0
      && (forall k :: 0 <= k < |hrp| ==> v[k] == High(hrp[k]))
      && forall k :: |hrp| < k < |v| ==> v[k] == Low(hrp[k - |hrp| - 1])
  {
  }

  /** High bits, a zero, low bits. */
  lemma ExpandHalves(hrp: AsciiString)
    ensures var v := Expand(hrp);
      && v[|hrp|] == 0
      && (forall i :: 0 <= i < |hrp| ==> 32 * v[i] <= hrp[i] as int < 32 * v[i] + 32)
      && forall i :: |hrp| < i < |v| ==> v[i] < 32 && (hrp[i - |hrp| - 1] as int - v[i]) % 32 == 0
  {
  }

  function ChecksumFor(hrp: AsciiString, data: seq<byte>): (c: seq<byte>)
    ensures |c| == 6 && Symbols(c)
  {
    Checksum(Expand(hrp) + data)
  }

  predicate VerifyChecksum(hrp: AsciiString, data: seq<byte>) {
    Verifies(Expand(hrp) + data)
  }

  method CreateChecksum(hrp: AsciiString, data: seq<byte>) returns (c: seq<byte>)
    ensures c == ChecksumFor(hrp, data)
  {
    var expanded := HrpExpand(hrp);
    var values := expanded + data;
    var polymod := ComputePolymod(values + SIX_ZEROS);
    polymod := Xor(polymod, 1);
    c := [];
    for i := 0 to 6
      invariant c == Digits(polymod)[..i]
    {
      hide LowSymbol, Leading;
      c := c + [LowSymbol(Leading(polymod, i + 1))];
    }
  }

  function Chars(d: seq<byte>): (s: AsciiString)
    requires Symbols(d)
    ensures |s| == |d|
    ensures forall i :: 0 <= i < |d| ==> s[i] == DataChar(d[i])
  {
    assert forall v: byte :: v < 32 ==> DataChar(v) as int < 128 by {
      forall v: byte | v < 32 ensures DataChar(v) as int < 128 {
        DataCharPlain(v);
      }
    }
    hide DataChar;
    seq(|d|, i requires 0 <= i < |d| => DataChar(d[i]))
  }

  function Encode(hrp: AsciiString, data: seq<byte>): (r: Result<AsciiString, Bech32Error>) {
    if exists i :: 0 <= i < |data| && data[i] >= 32 then Err(InvalidDataValue)
    else Ok(hrp + "1" + Chars(data + ChecksumFor(hrp, data)))
  }

  /** `bech32Encode`. */
  method Bech32Encode(hrp: AsciiString, data: seq<byte>) returns (r: Result<AsciiString, Bech32Error>)
    ensures r == Encode(hrp, data)
  {
    var checksum := CreateChecksum(hrp, data);
    var combined := data + checksum;
    hide DataChar, ChecksumFor;
    var result: AsciiString := hrp + "1";
    for n := 0 to |combined|
      invariant Symbols(combined[..n])
      invariant result == hrp + "1" + Chars(combined[..n])
    {
      if combined[n] >= |CHARSET| {
        assert n < |data|;
        return Err(InvalidDataValue);
      }
      DataCharPlain(combined[n]);
      result := result + [DataChar(combined[n])];
    }
    assert combined[..|combined|] == combined;
    assert forall i :: 0 <= i < |data| ==> combined[i] == data[i];
    return Ok(result);
  }

  // ---------------------------------------------------------------- decoding

  /** `strings.LastIndex(s, "1")`. */
  function LastSeparator(s: string): (p: int)
    ensures -1 <= p < |s|
    ensures p >= 0 ==> s[p] == '1'
    ensures forall i :: p < i < |s| ==> s[i] != '1'
  {
    if s == "" then -1
    else if s[|s| - 1] == '1' then |s| - 1
    else LastSeparator(s[..|s| - 1])
  }

  function SymbolsOf(s: string): (d: Option<seq<byte>>)
    ensures d.Some? ==> |d.value| == |s| && Symbols(d.value)
  {
    if s == "" then Some([])
    else
      var k := |s| - 1;
      var front, last := SymbolsOf(s[..k]), Index(s[k]);
      if front.None? || last < 0 then None else Some(front.value + [last])
  }

  function Decode(bech: AsciiString): (r: Result<(AsciiString, seq<byte>), Bech32Error>) {
    var pos := LastSeparator(bech);
    if pos < 1 || pos + 7 > |bech| then Err(InvalidString)
    else
      var low := ToLower(bech);
      var hrp, data := low[..pos], SymbolsOf(low[pos + 1..]);
      if data.None? then Err(InvalidCharacter)
      else if !VerifyChecksum(hrp, data.value) then Err(InvalidChecksum)
      else Ok((hrp, data.value[..|data.value| - 6]))
  }

  /** `bech32Decode`. */
  method Bech32Decode(bech: AsciiString) returns (r: Result<(AsciiString, seq<byte>), Bech32Error>)
    ensures r == Decode(bech)
  {
    hide Index, Expand, Polymod, ToLower, LastSeparator, DataChar, LowerChar;
    var pos := LastSeparator(bech);
    if pos < 1 || pos + 7 > |bech| {
      return Err(InvalidString);
    }
    var low := ToLower(bech);
    var hrp: AsciiString := low[..pos];
    var dataStr := low[pos + 1..];
    var data: seq<byte> := [];
    for n := 0 to |dataStr|
      invariant SymbolsOf(dataStr[..n]) == Some(data)
    {
      var idx := Index(dataStr[n]);
      assert dataStr[..n + 1][..n] == dataStr[..n];
      if idx < 0 {
        RejectedTail(dataStr, n + 1);
        return Err(InvalidCharacter);
      }
      data := data + [idx];
    }
    assert dataStr[..|dataStr|] == dataStr;
    var expanded := HrpExpand(hrp);
    var polymod := ComputePolymod(expanded + data);
    if polymod != 1 {
      return Err(InvalidChecksum);
    }
    return Ok((hrp, data[..|data| - 6]));
  }

  lemma {:induction false} RejectedTail(s: string, n: nat)
    requires n <= |s| && SymbolsOf(s[..n]).None?
    ensures SymbolsOf(s).None?
    decreases |s|
  {
    if n == |s| {
      assert s[..n] == s;
    } else {
      assert s[..|s| - 1][..n] == s[..n];
      RejectedTail(s[..|s| - 1], n);
    }
  }

  // ---------------------------------------------------------------- round trips

  lemma {:induction false} SymbolsOfChars(d: seq<byte>)
    requires Symbols(d)
    ensures SymbolsOf(Chars(d)) == Some(d)
  {
    hide Index, DataChar;
    if d != [] {
      var k := |d| - 1;
      SymbolsOfChars(d[..k]);
      IndexOfDataChar(d[k]);
      assert Chars(d)[..k] == Chars(d[..k]);
      assert d == d[..k] + [d[k]];
    }
  }

  lemma {:induction false} CharsOfSymbols(s: string)
    requires SymbolsOf(s).Some?
    ensures Chars(SymbolsOf(s).value) == s
  {
    hide Index, DataChar, Chars;
    if s != "" {
      CharsOfSymbols(s[..|s| - 1]);
      assert s == s[..|s| - 1] + [s[|s| - 1]];
    }
  }

  lemma {:induction false} LastSeparatorUnique(s: string, p: int)
    requires 0 <= p < |s| && s[p] == '1'
    requires forall i :: p < i < |s| ==> s[i] != '1'
    ensures LastSeparator(s) == p
  {
  }

  lemma SeparatorSurvivesLowering(s: AsciiString)
    ensures LastSeparator(ToLower(s)) == LastSeparator(s)
  {
  }

  /** Decoding sees a string only through its lower-case form. */
  lemma DecodeIgnoresCase(s: AsciiString)
    ensures Decode(s) == Decode(ToLower(s))
  {
    hide VerifyChecksum, SymbolsOf, LastSeparator;
    SeparatorSurvivesLowering(s);
    assert ToLower(ToLower(s)) == ToLower(s);
  }

  /** Every accepted string is the encoding of what it decodes to. */
  lemma DecodeThenEncode(s: AsciiString, h: AsciiString, d: seq<byte>)
    requires Decode(s) == Ok((h, d))
    ensures h != "" && ToLower(h) == h
    ensures Encode(h, d) == Ok(ToLower(s))
  {
    hide SymbolsOf, Chars, Checksum, Verifies, Expand, DataChar;
    var low := ToLower(s);
    var pos := LastSeparator(s);
    var data := SymbolsOf(low[pos + 1..]).value;
    var n := |data| - 6;
    assert data == d + data[n..];
    assert (Expand(h) + d) + data[n..] == Expand(h) + data;
    ChecksumUnique(Expand(h) + d, data[n..]);
    CharsOfSymbols(low[pos + 1..]);
    assert low == low[..pos] + "1" + low[pos + 1..];
    assert ToLower(h) == h;
  }

  /** An encoding decodes to what was encoded. */
  lemma EncodeThenDecode(h: AsciiString, d: seq<byte>)
    requires h != "" && ToLower(h) == h && Symbols(d)
    ensures Encode(h, d).Ok?
    ensures ToLower(Encode(h, d).value) == Encode(h, d).value
    ensures Decode(Encode(h, d).value) == Ok((h, d))
  {
    hide SymbolsOf, Checksum, Verifies, Expand, DataChar, LastSeparator;
    var data := d + ChecksumFor(h, d);
    var e := Encode(h, d).value;
    forall i | |h| < i < |e|
      ensures e[i] != '1' && LowerChar(e[i]) == e[i]
    {
      assert e[i] == Chars(data)[i - |h| - 1];
      DataCharPlain(data[i - |h| - 1]);
    }
    forall i | 0 <= i < |h|
      ensures LowerChar(e[i]) == e[i]
    {
      assert e[i] == ToLower(h)[i];
    }
    LastSeparatorUnique(e, |h|);
    assert ToLower(e) == e;
    assert e[..|h|] == h && e[|h| + 1..] == Chars(data);
    SymbolsOfChars(data);
    ChecksumVerifies(Expand(h) + d);
    assert (Expand(h) + d) + ChecksumFor(h, d) == Expand(h) + data;
    assert data[..|data| - 6] == d;
  }

  /** Decoding accepts exactly the case variants of encodings, each as what it encodes. */
  lemma DecodeIffEncode(s: AsciiString, h: AsciiString, d: seq<byte>)
    ensures Decode(s) == Ok((h, d)) <==>
      h != "" && ToLower(h) == h && Encode(h, d) == Ok(ToLower(s))
  {
    hide Decode, Encode;
    if Decode(s) == Ok((h, d)) {
      DecodeThenEncode(s, h, d);
    }
    if h != "" && ToLower(h) == h && Encode(h, d) == Ok(ToLower(s)) {
      EncodedSymbols(h, d);
      EncodeThenDecode(h, d);
      DecodeIgnoresCase(s);
    }
  }

  lemma EncodedSymbols(h: AsciiString, d: seq<byte>)
    ensures Encode(h, d).Ok? <==> Symbols(d)
  {
  }

  // ---------------------------------------------------------------- rejections

  lemma IndexRejects(c: char)
    ensures Index(c) == -1 <==> c !in CHARSET
  {
    if c in CHARSET {
      var v :| 0 <= v < |CHARSET| && CHARSET[v] == c;
      assert DataChar(v) == c;
    }
  }

  lemma {:induction false} SymbolsOfRejects(s: string)
    ensures SymbolsOf(s).None? <==> exists j :: 0 <= j < |s| && s[j] !in CHARSET
  {
    hide Index;
    if s != "" {
      var k := |s| - 1;
      SymbolsOfRejects(s[..k]);
      IndexRejects(s[k]);
      if SymbolsOf(s[..k]).None? {
        var j :| 0 <= j < k && s[..k][j] !in CHARSET;
        assert s[j] !in CHARSET;
      }
      if j :| 0 <= j < |s| && s[j] !in CHARSET {
        assert j < k ==> s[..k][j] == s[j];
      }
    }
  }

  /** Which string is rejected for what; `p` is the place of its last separator, -1 if it has none. */
  lemma {:induction false} DecodeErrors(s: AsciiString, p: int)
    requires -1 <= p < |s| && (p >= 0 ==> s[p] == '1') && forall i :: p < i < |s| ==> s[i] != '1'
    ensures Decode(s) == Err(InvalidString) <==> p < 1 || |s| - p < 7
    ensures Decode(s) == Err(InvalidCharacter) <==>
      1 <= p <= |s| - 7 && exists j :: p < j < |s| && LowerChar(s[j]) !in CHARSET
    ensures Decode(s).Ok? || Decode(s).error == InvalidString || Decode(s).error == InvalidCharacter
         || Decode(s).error == InvalidChecksum
  {
    hide SymbolsOf, VerifyChecksum, LastSeparator, LowerChar;
    if p >= 0 {
      LastSeparatorUnique(s, p);
      var tail := ToLower(s)[p + 1..];
      SymbolsOfRejects(tail);
      if j :| 0 <= j < |tail| && tail[j] !in CHARSET {
        assert LowerChar(s[p + 1 + j]) !in CHARSET;
      }
      if j :| p < j < |s| && LowerChar(s[j]) !in CHARSET {
        assert tail[j - p - 1] !in CHARSET;
      }
    } else {
      assert LastSeparator(s) == -1;
    }
  }

  // ---------------------------------------------------------------- error detection

  /**
   * Two data parts of equal length that differ only within six consecutive
   * positions never both verify, whatever the prefix and the length.
   */
  lemma BurstDetected(hrp: AsciiString, x: seq<byte>, y: seq<byte>, p: nat)
    requires DifferInBurst(x, y, p)
    requires x != y
    ensures !(VerifyChecksum(hrp, x) && VerifyChecksum(hrp, y))
  {
    hide Expand, Polymod;
    var e := Expand(hrp);
    assert x == (e + x)[|e|..] && y == (e + y)[|e|..];
    BurstChangesPolymod(e + x, e + y, |e| + p);
  }

  /** In particular any single wrong symbol, and any swap of neighbours, is caught. */
  lemma {:induction false} SubstitutionDetected(hrp: AsciiString, x: seq<byte>, i: nat, v: byte)
    requires Symbols(x) && v < 32 && i < |x| && x[i] != v
    requires VerifyChecksum(hrp, x)
    ensures !VerifyChecksum(hrp, x[i := v])
  {
    hide VerifyChecksum;
    BurstDetected(hrp, x, x[i := v], i);
  }

  lemma {:induction false} TranspositionDetected(hrp: AsciiString, x: seq<byte>, i: nat)
    requires Symbols(x) && i + 1 < |x| && x[i] != x[i + 1]
    requires VerifyChecksum(hrp, x)
    ensures !VerifyChecksum(hrp, x[i := x[i + 1]][i + 1 := x[i]])
  {
    hide VerifyChecksum;
    BurstDetected(hrp, x, x[i := x[i + 1]][i + 1 := x[i]], i);
  }
}
