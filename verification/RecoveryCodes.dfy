/** The spelling of recovery codes: `generateCode` and `normalizeCode` of backend/internal/recovery/recovery.go. */
module RecoveryCodes {
  import opened Ascii
  import Base32
  import opened BitStrings
  import opened Bytes
  import opened ConvertBits

  const CODE_LENGTH: nat := 12
  const RANDOM_BYTES: nat := 8

  // ---------------------------------------------------------------- generating

  lemma DigitsOfCode(b: seq<byte>)
    requires |b| == RANDOM_BYTES
    ensures Regroup(b, 8, 5, true).Ok?
    ensures var w := Regroup(b, 8, 5, true).value;
      Fits(w, 5) && |w| == 13 && |Base32.Encoded(b)| == 13 && Spread(w[..CODE_LENGTH], 5) == Spread(b, 8)[..60]
  {
    hide Spread, Gather, Padding, Regroup;
    PaddedBytesGather(b, 5);
    PaddedTo65(b);
    var w := Regroup(b, 8, 5, true).value;
    assert w == w[..CODE_LENGTH] + w[CODE_LENGTH..];
    SpreadConcat(w[..CODE_LENGTH], w[CODE_LENGTH..], 5);
    assert Spread(w, 5)[..60] == Spread(w[..CODE_LENGTH], 5);
  }

  lemma {:induction false} PaddedTo65(b: seq<byte>)
    requires |b| == RANDOM_BYTES && Regroup(b, 8, 5, true).Ok?
    ensures var w := Regroup(b, 8, 5, true).value; |w| == 13 && |Spread(w, 5)| == 65 && Spread(w, 5)[..64] == Spread(b, 8)
  {
    hide Spread, Gather;
    var bits := Spread(b, 8);
    assert |bits| == 64 && Padding(64, 5) == 1;
    hide Zeros, Padding, LowBits;
    SpreadGather(bits + Zeros(1), 5);
    GatherLength(bits + Zeros(1), 5);
  }

  /** The twelve characters a code carries. */
  ghost function Core(b: seq<byte>): (s: AsciiString)
    requires |b| == RANDOM_BYTES
    ensures |s| == CODE_LENGTH
  {
    DigitsOfCode(b);
    Base32.Encoded(b)[..CODE_LENGTH]
  }

  function Dashed(x: AsciiString, y: AsciiString, z: AsciiString): AsciiString {
    x + ("-" + (y + ("-" + z)))
  }

  /** XXXX-XXXX-XXXX. */
  ghost function GenerateCode(b: seq<byte>): (s: AsciiString)
    requires |b| == RANDOM_BYTES
    ensures |s| == CODE_LENGTH + 2
  {
    var e := Core(b);
    Dashed(e[0..4], e[4..8], e[8..12])
  }

  // ---------------------------------------------------------------- normalising

  function Without(s: AsciiString, c: char): AsciiString {
    if s == "" then "" else (if s[0] == c then "" else [s[0]]) + Without(s[1..], c)
  }

  function NormalizeCode(code: AsciiString): AsciiString {
    Base32.ToUpper(Without(Without(code, '-'), ' '))
  }

  /** `s` writes out `core` with dashes and spaces anywhere and letters of either case. */
  predicate Spells(s: AsciiString, core: AsciiString) {
    if s == "" then core == ""
    else if s[0] == '-' || s[0] == ' ' then Spells(s[1..], core)
    else core != "" && Base32.UpperChar(s[0]) == core[0] && Spells(s[1..], core[1..])
  }

  lemma NormalizeStep(s: AsciiString)
    requires s != ""
    ensures NormalizeCode(s) == (if s[0] == '-' || s[0] == ' ' then "" else [Base32.UpperChar(s[0])]) + NormalizeCode(s[1..])
  {
    hide Base32.UpperChar;
    var rest := Without(s[1..], '-');
    if s[0] != '-' {
      var t := Without(s, '-');
      assert t == [s[0]] + rest;
      assert t[0] == s[0] && t[1..] == rest;
      assert Without(t, ' ') == (if s[0] == ' ' then "" else [s[0]]) + Without(rest, ' ');
      if s[0] == ' ' {
        assert "" + Without(rest, ' ') == Without(rest, ' ');
      } else {
        UpperCons(s[0], Without(rest, ' '));
      }
    } else {
      assert "" + rest == rest;
    }
  }

  lemma UpperCons(c: char, rest: AsciiString)
    requires c as int < 128
    ensures Base32.ToUpper([c] + rest) == [Base32.UpperChar(c)] + Base32.ToUpper(rest)
  {
  }

  /** Two spellings normalise alike exactly when they write out the same characters. */
  lemma {:induction false} NormalizedIffSpelled(s: AsciiString, core: AsciiString)
    ensures NormalizeCode(s) == core <==> Spells(s, core)
  {
    if s != "" {
      NormalizeStep(s);
      var tail: AsciiString := s[1..];
      if s[0] == '-' || s[0] == ' ' {
        NormalizedIffSpelled(tail, core);
      } else if core != "" {
        NormalizedIffSpelled(tail, core[1..]);
        assert core == [core[0]] + core[1..];
      }
    }
  }

  ghost predicate Plain(s: AsciiString) {
    forall i :: 0 <= i < |s| ==> Base32.UpperChar(s[i]) == s[i] && s[i] != '-' && s[i] != ' '
  }

  lemma {:induction false} SpellsPlain(p: AsciiString, rest: AsciiString, core: AsciiString)
    requires Plain(p)
    ensures Spells(p + rest, p + core) == Spells(rest, core)
  {
    hide Base32.UpperChar;
    if p == "" {
      assert p + rest == rest && p + core == core;
    } else {
      var tail: AsciiString := p[1..];
      assert (p + rest)[1..] == tail + rest && (p + core)[1..] == tail + core;
      SpellsPlain(tail, rest, core);
    }
  }

  lemma SpellsDash(rest: AsciiString, core: AsciiString)
    ensures Spells("-" + rest, core) == Spells(rest, core)
  {
    assert ("-" + rest)[1..] == rest;
  }

  lemma CoreIsPlain(b: seq<byte>)
    requires |b| == RANDOM_BYTES
    ensures Plain(Core(b))
  {
    hide Base32.UpperChar, Base32.AlphabetChar;
    PaddedBytesGather(b, 5);
    assert Pow2(5) == 32;
    var w := Regroup(b, 8, 5, true).value;
    forall i | 0 <= i < CODE_LENGTH
      ensures Base32.UpperChar(Core(b)[i]) == Core(b)[i] && Core(b)[i] != '-' && Core(b)[i] != ' '
    {
      DigitsOfCode(b);
      assert Core(b)[i] == Base32.AlphabetChar(w[i]);
      PlainAlphabet(w[i]);
    }
  }

  lemma PlainAlphabet(v: int)
    requires 0 <= v < 32
    ensures var c := Base32.AlphabetChar(v); Base32.UpperChar(c) == c && c != '-' && c != ' '
  {
  }

  lemma PlainParts(e: AsciiString)
    requires Plain(e) && |e| == CODE_LENGTH
    ensures Plain(e[0..4]) && Plain(e[4..8]) && Plain(e[8..12])
  {
    hide Base32.UpperChar;
  }

  lemma CoreOfCode(b: seq<byte>)
    requires |b| == RANDOM_BYTES
    ensures NormalizeCode(GenerateCode(b)) == Core(b)
    ensures NormalizeCode(Core(b)) == Core(b)
  {
    hide Core, NormalizeCode, Spells, Dashed;
    CoreIsPlain(b);
    var e := Core(b);
    PlainParts(e);
    hide Plain;
    GroupsSpell(e[0..4], e[4..8], e[8..12]);
    assert e[0..4] + (e[4..8] + e[8..12]) == e;
    NormalizedIffSpelled(GenerateCode(b), e);
    SpellsSelf(e);
    NormalizedIffSpelled(e, e);
  }

  lemma SpellsGroup(p: AsciiString, rest: AsciiString, core: AsciiString)
    requires Plain(p)
    ensures Spells(p + ("-" + rest), p + core) == Spells(rest, core)
  {
    hide Spells, Plain;
    SpellsPlain(p, "-" + rest, core);
    SpellsDash(rest, core);
  }

  lemma {:induction false} GroupsSpell(x: AsciiString, y: AsciiString, z: AsciiString)
    requires Plain(x) && Plain(y) && Plain(z)
    ensures Spells(Dashed(x, y, z), x + (y + z))
  {
    SpellsSelf(z);
    hide Spells, Plain;
    SpellsGroup(y, z, z);
    SpellsGroup(x, y + ("-" + z), y + z);
  }

  lemma SpellsSelf(p: AsciiString)
    requires Plain(p)
    ensures Spells(p, p)
  {
    SpellsPlain(p, "", "");
    assert p + "" == p;
  }

  // ---------------------------------------------------------------- main results

  /** A code is three groups of four between dashes: the first twelve characters of the bytes' base32 text. */
  lemma CodeShape(b: seq<byte>)
    requires |b| == 8
    ensures var s := GenerateCode(b);
      && |s| == 14 && s[4] == '-' && s[9] == '-' && |Base32.Encoded(b)| == 13
      && s[..4] + s[5..9] + s[10..] == Base32.Encoded(b)[..12]
  {
    hide Base32.Encoded, Dashed, Regroup, Spread, Fits;
    DigitsOfCode(b);
    var e := Core(b);
    DashedShape(e[0..4], e[4..8], e[8..12]);
    assert e[0..4] + e[4..8] + e[8..12] == e;
  }

  lemma DashedShape(x: AsciiString, y: AsciiString, z: AsciiString)
    requires |x| == 4 && |y| == 4 && |z| == 4
    ensures var s := Dashed(x, y, z);
      |s| == 14 && s[4] == '-' && s[9] == '-' && s[..4] == x && s[5..9] == y && s[10..] == z
  {
  }

  /** A text is taken for a generated code exactly when it spells its twelve characters; normalising again changes nothing. */
  lemma {:induction false} SpellingsOfCode(b: seq<byte>, s: AsciiString)
    requires |b| == RANDOM_BYTES
    ensures NormalizeCode(s) == NormalizeCode(GenerateCode(b)) <==> Spells(s, Core(b))
    ensures NormalizeCode(NormalizeCode(GenerateCode(b))) == NormalizeCode(GenerateCode(b))
  {
    CoreOfCode(b);
    NormalizedIffSpelled(s, Core(b));
    hide NormalizeCode, GenerateCode, Core;
  }

  /** Two draws give the same code exactly when their first 60 bits agree: the code drops only the last four. */
  lemma {:induction false} CodesAgreeIff(b: seq<byte>, c: seq<byte>)
    requires |b| == RANDOM_BYTES && |c| == RANDOM_BYTES
    ensures NormalizeCode(GenerateCode(b)) == NormalizeCode(GenerateCode(c)) <==> Spread(b, 8)[..60] == Spread(c, 8)[..60]
  {
    hide Spread, Gather, Regroup, NormalizeCode, GenerateCode, Core;
    CoreOfCode(b);
    CoreOfCode(c);
    DigitsOfCode(b);
    DigitsOfCode(c);
    CoresAgree(b, c);
    var w, x := Regroup(b, 8, 5, true).value[..CODE_LENGTH], Regroup(c, 8, 5, true).value[..CODE_LENGTH];
    GatherSpread(w, 5);
    GatherSpread(x, 5);
  }

  lemma CoresAgree(b: seq<byte>, c: seq<byte>)
    requires |b| == RANDOM_BYTES && |c| == RANDOM_BYTES
    requires Regroup(b, 8, 5, true).Ok? && |Regroup(b, 8, 5, true).value| == 13
    requires Regroup(c, 8, 5, true).Ok? && |Regroup(c, 8, 5, true).value| == 13
    ensures Core(b) == Core(c) <==> Regroup(b, 8, 5, true).value[..CODE_LENGTH] == Regroup(c, 8, 5, true).value[..CODE_LENGTH]
  {
    hide Base32.UpperChar, Base32.AlphabetChar, Base32.IndexOf, Spread, Gather, Padding, Regroup;
    PaddedBytesGather(b, 5);
    PaddedBytesGather(c, 5);
    assert Pow2(5) == 32;
    var w, x := Regroup(b, 8, 5, true).value, Regroup(c, 8, 5, true).value;
    forall i | 0 <= i < CODE_LENGTH ensures Core(b)[i] == Core(c)[i] <==> w[i] == x[i] {
      Base32.IndexOfAlphabet(w[i]);
      Base32.IndexOfAlphabet(x[i]);
    }
    assert forall i :: 0 <= i < CODE_LENGTH ==> w[..CODE_LENGTH][i] == w[i] && x[..CODE_LENGTH][i] == x[i];
    if Core(b) == Core(c) {
      assert w[..CODE_LENGTH] == x[..CODE_LENGTH];
    }
  }
}
