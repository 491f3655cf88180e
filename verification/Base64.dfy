/**
 * The byte and string conversions of packages/vault-crypto/src/encoding.ts.
 *
 * `btoa` and `atob` are the platform's base64 (section 4 of RFC 4648, and the
 * forgiving decoder browsers ship); base64url is section 5.
 */
module Base64 {
  import opened BitStrings
  import opened Bytes
  import opened ConvertBits

  /** Digit `v` in the standard (`url` false) or the URL-safe alphabet. */
  function AlphabetChar(v: int, url: bool): (c: char)
    requires 0 <= v < 64
  {
    if v < 26 then ('A' as int + v) as char
    else if v < 52 then ('a' as int + (v - 26)) as char
    else if v < 62 then ('0' as int + (v - 52)) as char
    else if v == 62 then (if url then '-' else '+')
    else (if url then '_' else '/')
  }

  function IndexOf(c: char): (v: int)
    ensures v == -1 || (0 <= v < 64 && AlphabetChar(v, false) == c)
    ensures v == -1 ==> forall u :: 0 <= u < 64 ==> AlphabetChar(u, false) != c
  {
    if 'A' <= c <= 'Z' then c as int - 'A' as int
    else if 'a' <= c <= 'z' then c as int - 'a' as int + 26
    else if '0' <= c <= '9' then c as int - '0' as int + 52
    else if c == '+' then 62
    else if c == '/' then 63
    else -1
  }

  function ToUrl(c: char): char {
    if c == '+' then '-' else if c == '/' then '_' else c
  }

  function FromUrl(c: char): char {
    if c == '-' then '+' else if c == '_' then '/' else c
  }

  lemma AlphabetProperties(v: int, url: bool)
    requires 0 <= v < 64
    ensures IndexOf(AlphabetChar(v, false)) == v
    ensures ToUrl(AlphabetChar(v, url)) == AlphabetChar(v, true)
    ensures FromUrl(AlphabetChar(v, url)) == AlphabetChar(v, false)
    ensures AlphabetChar(v, url) != '=' && !IsSpace(AlphabetChar(v, url))
  {
  }

  /** The white space `atob` skips: tab, line feed, form feed, carriage return, space. */
  predicate IsSpace(c: char) {
    c == ' ' || c as int == 9 || c as int == 10 || c as int == 12 || c as int == 13
  }

  function Equals(k: nat): (s: string)
    ensures |s| == k
    ensures forall i :: 0 <= i < k ==> s[i] == '='
  {
    seq(k, i => '=')
  }

  // ---------------------------------------------------------------- encoding

  function Text(w: seq<int>, url: bool): (s: string)
    requires forall i :: 0 <= i < |w| ==> 0 <= w[i] < 64
    ensures |s| == |w|
    ensures forall i :: 0 <= i < |w| ==> s[i] == AlphabetChar(w[i], url)
  {
    hide AlphabetChar;
    seq(|w|, i requires 0 <= i < |w| => AlphabetChar(w[i], url))
  }

  ghost function Sextets(d: seq<byte>): (w: seq<byte>)
    ensures forall i :: 0 <= i < |w| ==> 0 <= w[i] < 64
  {
    PaddedBytesGather(d, 6);
    assert Pow2(6) == 64;
    Regroup(d, 8, 6, true).value
  }

  /** The digits of `d` without padding. */
  ghost function Body(d: seq<byte>, url: bool): string {
    Text(Sextets(d), url)
  }

  /** Padding characters that fill a body of `n` digits up to a multiple of four. */
  function Fill(n: nat): nat {
    (4 - n % 4) % 4
  }

  /** `btoa` of a binary string given by its code units, or its URL-safe form. */
  ghost function Encode(d: seq<byte>, url: bool): string {
    Body(d, url) + Equals(Fill(|Body(d, url)|))
  }

  /** Never one digit too many: a body leaves 0, 2 or 3 modulo 4. */
  lemma BodyLength(d: seq<byte>, url: bool)
    ensures |Body(d, url)| % 4 != 1
    ensures Fill(|Body(d, url)|) <= 2
  {
    hide Spread, Gather;
    var bits := Spread(d, 8);
    var p := Padding(|bits|, 6);
    GatherLength(bits + Zeros(p), 6);
    var n := |Sextets(d)|;
    assert n == (8 * |d| + p) / 6;
    assert 6 * n == 8 * |d| + p;
  }

  const CHUNK: nat := 0x8000

  /** `bytesToBase64` hands the bytes over in chunks; the chunks join up to the whole. */
  method BinaryString(bytes: seq<byte>) returns (binary: seq<byte>)
    ensures binary == bytes
  {
    binary := [];
    var i := 0;
    while i < |bytes|
      invariant 0 <= i
      invariant binary == bytes[..if i < |bytes| then i else |bytes|]
    {
      var end := if i + CHUNK < |bytes| then i + CHUNK else |bytes|;
      binary := binary + bytes[i..end];
      i := i + CHUNK;
    }
  }

  // ---------------------------------------------------------------- decoding

  function RemoveSpaces(s: string): string {
    if s == "" then ""
    else RemoveSpaces(s[..|s| - 1]) + (if IsSpace(s[|s| - 1]) then "" else [s[|s| - 1]])
  }

  ghost predicate InAlphabet(s: string) {
    forall i :: 0 <= i < |s| ==> IndexOf(s[i]) >= 0
  }

  function Indices(s: string): (w: seq<int>)
    requires InAlphabet(s)
    ensures |w| == |s|
  {
    seq(|s|, i requires 0 <= i < |s| => IndexOf(s[i]))
  }

  /** Up to two padding characters go, when the length is a multiple of four. */
  function DropPadding(s: string): string {
    if |s| % 4 == 0 && |s| >= 2 && s[|s| - 2..] == "==" then s[..|s| - 2]
    else if |s| % 4 == 0 && |s| >= 1 && s[|s| - 1] == '=' then s[..|s| - 1]
    else s
  }

  /** `base64ToBytes`: `atob`, then one byte per code unit. `None` is its exception. */
  ghost function Decode(text: string): (r: Option<seq<byte>>) {
    var s := DropPadding(RemoveSpaces(text));
    if |s| % 4 == 1 || !InAlphabet(s) then None
    else Some(GatherBytes(Spread(Indices(s), 6), 8))
  }

  // ---------------------------------------------------------------- credential ids

  function StripPadding(s: string): string {
    if s != "" && s[|s| - 1] == '=' then StripPadding(s[..|s| - 1]) else s
  }

  function MapUrl(s: string): (r: string)
    ensures |r| == |s|
    ensures forall i :: 0 <= i < |s| ==> r[i] == ToUrl(s[i])
  {
    seq(|s|, i requires 0 <= i < |s| => ToUrl(s[i]))
  }

  function MapFromUrl(s: string): (r: string)
    ensures |r| == |s|
    ensures forall i :: 0 <= i < |s| ==> r[i] == FromUrl(s[i])
  {
    seq(|s|, i requires 0 <= i < |s| => FromUrl(s[i]))
  }

  /** `canonicalCredentialId`: URL-safe characters, no padding. */
  function Canonical(id: string): string {
    StripPadding(MapUrl(id))
  }

  /** `base64UrlToBytes`. */
  ghost function UrlToBytes(text: string): (r: Option<seq<byte>>) {
    Decode(MapFromUrl(text) + Equals(Fill(|text|)))
  }

  // ---------------------------------------------------------------- theorems

  lemma {:induction false} NoSpaces(s: string)
    requires forall i :: 0 <= i < |s| ==> !IsSpace(s[i])
    ensures RemoveSpaces(s) == s
  {
    if s != "" {
      NoSpaces(s[..|s| - 1]);
      assert s == s[..|s| - 1] + [s[|s| - 1]];
    }
  }

  lemma {:induction false} StripEquals(s: string, k: nat)
    requires s == "" || s[|s| - 1] != '='
    ensures StripPadding(s + Equals(k)) == s
  {
    if k == 0 {
      assert s + Equals(0) == s;
    } else {
      var t := s + Equals(k);
      assert t[..|t| - 1] == s + Equals(k - 1);
      StripEquals(s, k - 1);
    }
  }

  /** `Strip` ends only when no padding is left. */
  lemma {:induction false} StripEndsPlain(s: string)
    ensures StripPadding(s) <= s
    ensures StripPadding(s) == "" || StripPadding(s)[|StripPadding(s)| - 1] != '='
  {
    if s != "" && s[|s| - 1] == '=' {
      StripEndsPlain(s[..|s| - 1]);
    }
  }

  lemma BodyChars(d: seq<byte>, url: bool)
    ensures MapUrl(Body(d, url)) == Body(d, true)
    ensures MapFromUrl(Body(d, url)) == Body(d, false)
    ensures forall i :: 0 <= i < |Body(d, url)| ==> Body(d, url)[i] != '=' && !IsSpace(Body(d, url)[i])
    ensures InAlphabet(Body(d, false)) && Indices(Body(d, false)) == Sextets(d)
  {
    hide AlphabetChar, IndexOf, ToUrl, FromUrl, IsSpace;
    var w := Sextets(d);
    hide Sextets;
    forall i | 0 <= i < |w|
      ensures IndexOf(AlphabetChar(w[i], false)) == w[i]
      ensures ToUrl(AlphabetChar(w[i], url)) == AlphabetChar(w[i], true)
      ensures FromUrl(AlphabetChar(w[i], url)) == AlphabetChar(w[i], false)
      ensures AlphabetChar(w[i], url) != '=' && !IsSpace(AlphabetChar(w[i], url))
    {
      AlphabetProperties(w[i], false);
      AlphabetProperties(w[i], url);
    }
  }

  lemma DropFill(s: string)
    requires forall i :: 0 <= i < |s| ==> s[i] != '='
    requires Fill(|s|) <= 2
    ensures DropPadding(s + Equals(Fill(|s|))) == s
  {
    var k := Fill(|s|);
    var t := s + Equals(k);
    assert |t| % 4 == 0;
    assert t[..|s|] == s;
    if k == 2 {
      assert t[|t| - 2..] == "==";
    } else if k == 1 {
      assert |t| >= 2 ==> t[|t| - 2..][0] == s[|s| - 1];
    } else {
      assert |t| >= 2 ==> t[|t| - 2..][1] == s[|s| - 1];
    }
  }

  /** The alphabets of sections 4 and 5. */
  lemma AlphabetsAre(v: int)
    requires 0 <= v < 64
    ensures v < 26 ==> AlphabetChar(v, false) == "ABCDEFGHIJKLMNOPQRSTUVWXYZ"[v]
    ensures 26 <= v < 52 ==> AlphabetChar(v, false) == "abcdefghijklmnopqrstuvwxyz"[v - 26]
    ensures 52 <= v < 62 ==> AlphabetChar(v, false) == "0123456789"[v - 52]
    ensures v < 62 ==> AlphabetChar(v, true) == AlphabetChar(v, false)
    ensures AlphabetChar(62, false) == '+' && AlphabetChar(63, false) == '/'
    ensures AlphabetChar(62, true) == '-' && AlphabetChar(63, true) == '_'
  {
  }

  /** Padding fills the text up to whole groups of four characters for three bytes. */
  lemma {:induction false} EncodedLength(d: seq<byte>, url: bool)
    ensures |Encode(d, url)| == (|d| + 2) / 3 * 4
  {
    hide Spread, Gather;
    var bits := Spread(d, 8);
    var p := Padding(|bits|, 6);
    GatherLength(bits + Zeros(p), 6);
    assert 6 * |Sextets(d)| == 8 * |d| + p;
  }

  /** `base64ToBytes` inverts `bytesToBase64`. */
  lemma {:induction false} DecodeInvertsEncode(d: seq<byte>)
    ensures Decode(Encode(d, false)) == Some(d)
  {
    hide Spread, Gather, Regroup, IndexOf, AlphabetChar, Sextets;
    var body := Body(d, false);
    BodyChars(d, false);
    BodyLength(d, false);
    NoSpaces(Encode(d, false));
    DropFill(body);
    SextetsGather(d);
  }

  lemma SextetsGather(d: seq<byte>)
    ensures Gather(Spread(Sextets(d), 6), 8) == d
  {
    hide Spread, Gather, Regroup;
    PaddedBytesGather(d, 6);
  }

  lemma MapAppend(s: string, t: string)
    ensures MapUrl(s + t) == MapUrl(s) + MapUrl(t)
  {
  }

  /**
   * Every spelling of a credential id - standard or URL-safe alphabet, with any
   * amount of padding - has one canonical form, and that form maps back to the bytes.
   */
  lemma {:induction false} CanonicalOfSpelling(d: seq<byte>, url: bool, k: nat)
    ensures Canonical(Body(d, url) + Equals(k)) == Body(d, true)
    ensures UrlToBytes(Canonical(Body(d, url) + Equals(k))) == Some(d)
  {
    hide Body, Decode;
    var body := Body(d, url);
    BodyChars(d, url);
    BodyChars(d, true);
    MapAppend(body, Equals(k));
    assert MapUrl(Equals(k)) == Equals(k);
    StripEquals(Body(d, true), k);
    SameLength(d);
    DecodeInvertsEncode(d);
  }

  lemma SameLength(d: seq<byte>)
    ensures |Body(d, true)| == |Body(d, false)|
  {
  }

  lemma CanonicalIdempotent(id: string)
    ensures Canonical(Canonical(id)) == Canonical(id)
  {
    var s := MapUrl(id);
    StripEndsPlain(s);
    assert forall c :: ToUrl(ToUrl(c)) == ToUrl(c);
    hide ToUrl;
    assert MapUrl(StripPadding(s)) == StripPadding(s);
  }
}
