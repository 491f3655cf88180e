/**
 * A valid string published in BIP-173, which fixes what no law over all inputs
 * mentions: the register's start value, the final constant and the generator.
 */
module Bech32Vectors {
  import opened Ascii
  import opened Bytes
  import opened Bech32
  import opened Bech32Checksum

  /** A run whose registers `r` are known. */
  lemma {:induction false} RunThrough(s: seq<byte>, r: seq<bv32>)
    requires |r| == |s| + 1
    requires forall i :: 0 <= i < |s| ==> Step(r[i], Word(s[i])) == r[i + 1]
    ensures Run(r[0], Words(s)) == r[|s|]
  {
    hide Step, Word;
    if s != [] {
      var k := |s| - 1;
      RunThrough(s[..k], r[..k + 1]);
      assert Words(s)[..k] == Words(s[..k]);
    }
  }

  lemma ShortRunSteps()
    ensures Step(0x1, Word(3)) == 0x23
    ensures Step(0x23, Word(0)) == 0x460
    ensures Step(0x460, Word(1)) == 0x8c01
    ensures Step(0x8c01, Word(10)) == 0x11802a
    ensures Step(0x11802a, Word(28)) == 0x230055c
    ensures Step(0x230055c, Word(25)) == 0x3d6afc2b
    ensures Step(0x3d6afc2b, Word(31)) == 0x2f84386
    ensures Step(0x2f84386, Word(20)) == 0x24622766
    ensures Step(0x24622766, Word(31)) == 0x1
  {
  }

  lemma ShortRun()
    ensures Run(0x1, Words([3, 0, 1, 10, 28, 25, 31, 20, 31])) == 0x1
  {
    hide Step, Word, Run, Words;
    ShortRunSteps();
    RunThrough([3, 0, 1, 10, 28, 25, 31, 20, 31], [0x1, 0x23, 0x460, 0x8c01, 0x11802a, 0x230055c, 0x3d6afc2b, 0x2f84386, 0x24622766, 0x1]);
  }

  /** The published string in upper case, of a prefix and a checksum alone. */
  lemma ShortVector(s: AsciiString)
    requires s == "A12UEL5L"
    ensures Decode(s) == Ok(("a", []))
  {
    var c: seq<byte> := [10, 28, 25, 31, 20, 31];
    ShortChecksum(c);
    ShortLower(s);
    ShortText(c);
    hide *;
    assert [] + c == c;
    EncodedIs("a", [], c);
    DecodeIffEncode(s, "a", []);
  }

  lemma ShortChecksum(c: seq<byte>)
    requires c == [10, 28, 25, 31, 20, 31]
    ensures c == ChecksumFor("a", [])
  {
    assert Expand("a") == [3, 0, 1];
    assert Expand("a") + [] + c == [3, 0, 1, 10, 28, 25, 31, 20, 31];
    hide Step, Word, Words, Run, Expand, Checksum;
    ShortRun();
    ChecksumUnique(Expand("a") + [], c);
  }

  lemma EncodedIs(h: AsciiString, d: seq<byte>, c: seq<byte>)
    requires Symbols(d) && c == ChecksumFor(h, d)
    ensures Symbols(d + c) && Encode(h, d) == Ok(h + "1" + Chars(d + c))
  {
    hide Checksum, Chars;
  }

  lemma ShortLower(s: AsciiString)
    requires s == "A12UEL5L"
    ensures ToLower(s) == "a12uel5l" && ToLower("a") == "a"
  {
    var t := ToLower(s);
    assert t[0] == 'a' && t[1] == '1' && t[2] == '2' && t[3] == 'u' && t[4] == 'e' && t[5] == 'l' && t[6] == '5' && t[7] == 'l';
  }

  lemma ShortText(c: seq<byte>)
    requires c == [10, 28, 25, 31, 20, 31]
    ensures Symbols(c) && "a" + "1" + Chars(c) == "a12uel5l"
  {
    var t := Chars(c);
    assert t[0] == CHARSET[10] && t[1] == CHARSET[28] && t[2] == CHARSET[25];
    assert t[3] == CHARSET[31] && t[4] == CHARSET[20] && t[5] == CHARSET[31];
    hide Chars, DataChar;
    assert t == "2uel5l";
  }

  /** The charset of BIP-173, in its order. */
  lemma CharsetIs(v: byte)
    requires v < 32
    ensures DataChar(v) == "qpzry9x8gf2tvdw0s3jn54khce6mua7l"[v]
  {
  }
}
