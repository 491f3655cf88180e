/** `EncodeNpub` and `DecodeNpub`: hexadecimal public keys as NIP-19 `npub` strings. */
module Npub {
  import opened Ascii
  import opened BitStrings
  import opened Bytes
  import opened Bech32
  import opened ConvertBits

  ghost function EncodeNpub(hexPubkey: AsciiString): (r: Result<AsciiString, Bech32Error>) {
    if |hexPubkey| != 64 then Err(InvalidLength)
    else if HexDecode(hexPubkey).None? then Err(InvalidHex)
    else EncodePayload(HexDecode(hexPubkey).value)
  }

  ghost function EncodePayload(d: seq<byte>): (r: Result<AsciiString, Bech32Error>) {
    match Regroup(d, 8, 5, true)
    case Err(why) => Err(BadBits(why))
    case Ok(words) => Encode("npub", words)
  }

  ghost function DecodeNpub(npub: AsciiString): (r: Result<AsciiString, Bech32Error>) {
    match Decode(npub)
    case Err(e) => Err(e)
    case Ok((hrp, words)) =>
      if hrp != "npub" then Err(InvalidHrp)
      else match Regroup(words, 5, 8, false)
        case Err(why) => Err(BadBits(why))
        case Ok(d) => Ok(HexEncode(d))
  }

  method ComputeEncodeNpub(hexPubkey: AsciiString) returns (r: Result<AsciiString, Bech32Error>)
    ensures r == EncodeNpub(hexPubkey)
  {
    hide HexDecode, Encode, Regroup;
    if |hexPubkey| != 64 {
      return Err(InvalidLength);
    }
    var data := HexDecode(hexPubkey);
    if data.None? {
      return Err(InvalidHex);
    }
    var words := Convert(data.value, 8, 5, true);
    if words.Err? {
      return Err(BadBits(words.error));
    }
    r := Bech32Encode("npub", words.value);
  }

  method ComputeDecodeNpub(npub: AsciiString) returns (r: Result<AsciiString, Bech32Error>)
    ensures r == DecodeNpub(npub)
  {
    hide HexEncode, Decode, Regroup;
    var decoded := Bech32Decode(npub);
    if decoded.Err? {
      return Err(decoded.error);
    }
    var (hrp, words) := decoded.value;
    if hrp != "npub" {
      return Err(InvalidHrp);
    }
    var data := Convert(words, 5, 8, false);
    if data.Err? {
      return Err(BadBits(data.error));
    }
    r := Ok(HexEncode(data.value));
  }

  // ---------------------------------------------------------------- round trips

  lemma FiveBitsAreSymbols(w: seq<byte>)
    ensures Fits(w, 5) <==> Symbols(w)
  {
    assert Pow2(5) == 32;
  }

  lemma RegroupedFits(d: seq<byte>, w: seq<byte>)
    requires Regroup(d, 8, 5, true) == Ok(w)
    ensures Symbols(w)
  {
    hide Gather, Padding, Spread;
    FiveBitsAreSymbols(w);
  }

  lemma NpubPrefix()
    ensures ToLower("npub") == "npub"
  {
  }

  /** A payload of any length decodes to its hexadecimal form: no length is checked on the way back. */
  lemma {:induction false} PayloadComesBack(d: seq<byte>)
    ensures EncodePayload(d).Ok?
    ensures DecodeNpub(EncodePayload(d).value) == Ok(HexEncode(d))
  {
    hide Regroup, Encode, Decode, HexEncode;
    BytesFit(d);
    PaddedComesBack(d, 8, 5);
    var words := Regroup(d, 8, 5, true).value;
    RegroupedFits(d, words);
    NpubPrefix();
    EncodeThenDecode("npub", words);
  }

  /** `EncodeNpub` accepts exactly 64 hexadecimal digits, and decoding gives them back in lower case. */
  lemma {:induction false} NpubRoundTrip(x: AsciiString)
    ensures EncodeNpub(x).Ok? <==> |x| == 64 && IsHex(x)
    ensures EncodeNpub(x).Ok? ==> DecodeNpub(EncodeNpub(x).value) == Ok(ToLower(x))
  {
    hide EncodePayload, DecodeNpub, IsHex, HexDecode, HexEncode;
    if |x| == 64 && IsHex(x) {
      PayloadComesBack(HexDecode(x).value);
      HexDecodeEncode(x);
    }
  }

  /** An npub is `npub1` and 58 characters; nothing without that prefix decodes. */
  lemma NpubShape(x: AsciiString, s: AsciiString)
    ensures EncodeNpub(x).Ok? ==> |EncodeNpub(x).value| == 63 && EncodeNpub(x).value[..5] == "npub1"
    ensures DecodeNpub(s).Ok? ==> |s| >= 5 && ToLower(s)[..5] == "npub1"
  {
    hide Spread, Gather, Padding, GatherBytes, HexDecode, HexEncode, Chars, LastSeparator, SymbolsOf, VerifyChecksum, LowerChar;
    if EncodeNpub(x).Ok? {
      WordsOfKey(HexDecode(x).value);
    }
    if DecodeNpub(s).Ok? {
      var p := LastSeparator(s);
      SeparatorSurvivesLowering(s);
      assert ToLower(s)[..p] == "npub" && ToLower(s)[p] == '1';
    }
  }

  lemma WordsOfKey(d: seq<byte>)
    requires |d| == 32 && Regroup(d, 8, 5, true).Ok?
    ensures |Regroup(d, 8, 5, true).value| == 52
  {
    hide Spread, Gather;
    assert Padding(256, 5) == 4;
    GatherLength(Spread(d, 8) + Zeros(4), 5);
  }

  /** Every accepted npub of a 32-byte key is, up to letter case, what `EncodeNpub` produces for it. */
  lemma NpubCanonical(s: AsciiString, x: AsciiString)
    requires |x| == 64
    ensures DecodeNpub(s) == Ok(x) <==> ToLower(x) == x && EncodeNpub(x) == Ok(ToLower(s))
  {
    if DecodeNpub(s) == Ok(x) {
      hide Regroup, Encode, Decode, HexEncode, HexDecode;
      var words := Decode(s).value.1;
      var d := Regroup(words, 5, 8, false).value;
      DecodeThenEncode(s, "npub", words);
      UnpaddedComesBack(words, d, 8, 5);
      HexEncodeDecode(d);
      HexEncodeLower(d);
    }
    if ToLower(x) == x && EncodeNpub(x) == Ok(ToLower(s)) {
      hide EncodeNpub, Decode;
      NpubRoundTrip(x);
      DecodeIgnoresCase(s);
    }
  }
}
