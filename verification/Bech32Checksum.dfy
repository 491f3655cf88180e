/**
 * The Bech32 checksum of backend/internal/identity/nostr.go.
 *
 * Every value of the checksum register fits in 30 bits (`StepBounded`), so the
 * Go `int` that holds it is modelled by a 32-bit vector: the masked shift never
 * reaches a bit that a wider register would keep.  One register step is linear
 * over GF(2), which is what all error detection below rests on.
 */
module Bech32Checksum {
  import opened Bytes

  const GENERATOR: seq<bv32> := [0x3b6a57b2, 0x26508e6d, 0x1ea119fa, 0x3d4233dd, 0x2a1462b3]

  // ------------------------------------------------------------ the register

  function Xor(a: bv32, b: bv32): bv32 {
    a ^ b
  }

  /** What the inner loop has xored in after looking at the low `i` bits of `b`. */
  function Feedback(b: bv32, i: nat): bv32
    requires i <= 5
  {
    if i == 0 then 0 else Xor(Feedback(b, i - 1), Tap(Bit(b, i - 1), GENERATOR[i - 1]))
  }

  function Bit(b: bv32, i: nat): bool
    requires i < 5
  {
    (b >> i) & 1 == 1
  }

  function Tap(bit: bool, g: bv32): bv32 {
    if bit then g else 0
  }

  function Shift(chk: bv32): bv32 {
    (chk & 0x1ffffff) << 5
  }

  function Top(chk: bv32): bv32 {
    chk >> 25
  }

  function FullFeedback(b: bv32): bv32 {
    Feedback(b, 5)
  }

  function Step(chk: bv32, v: bv32): bv32 {
    Xor(Xor(Shift(chk), v), FullFeedback(Top(chk)))
  }

  // ---------------------------------------------------------------- one step

  lemma XorAssociates(a: bv32, b: bv32, c: bv32)
    ensures Xor(Xor(a, b), c) == Xor(a, Xor(b, c))
  {
    assert (a ^ b) ^ c == a ^ (b ^ c);
  }

  lemma XorCommutes(a: bv32, b: bv32)
    ensures Xor(a, b) == Xor(b, a)
  {
    assert a ^ b == b ^ a;
  }

  lemma XorSwap(a: bv32, b: bv32, c: bv32, d: bv32)
    ensures Xor(Xor(a, b), Xor(c, d)) == Xor(Xor(a, c), Xor(b, d))
  {
    hide Xor;
    XorAssociates(a, b, Xor(c, d));
    XorAssociates(b, c, d);
    XorCommutes(b, c);
    XorAssociates(c, b, d);
    XorAssociates(a, c, Xor(b, d));
  }

  lemma XorUnits(g: bv32)
    ensures Xor(g, g) == 0
    ensures Xor(g, 0) == g && Xor(0, g) == g
  {
  }

  lemma BitsOfXor(a: bv32, b: bv32, i: nat)
    requires i < 5
    ensures ((a ^ b) >> i) & 1 == ((a >> i) & 1) ^ ((b >> i) & 1)
    ensures (a >> i) & 1 <= 1 && (b >> i) & 1 <= 1
  {
  }

  lemma BitLinear(a: bv32, b: bv32, i: nat)
    requires i < 5
    ensures Bit(Xor(a, b), i) == (Bit(a, i) != Bit(b, i))
  {
    BitsOfXor(a, b, i);
    OneBit((a >> i) & 1, (b >> i) & 1);
  }

  lemma OneBit(p: bv32, q: bv32)
    requires p <= 1 && q <= 1
    ensures (p ^ q == 1) == ((p == 1) != (q == 1))
  {
    assert p == 0 || p == 1;
  }

  lemma TapLinear(p: bool, q: bool, g: bv32)
    ensures Tap(p != q, g) == Xor(Tap(p, g), Tap(q, g))
  {
    XorUnits(g);
    XorUnits(0);
    if p {
    } else {
    }
  }

  lemma FiveWords()
    ensures |GENERATOR| == 5
  {
  }

  lemma NoFeedback()
    ensures forall b :: Feedback(b, 0) == 0
    ensures Xor(0, 0) == 0
  {
  }

  lemma FeedbackNext(b: bv32, i: nat)
    requires 0 < i <= 5 && |GENERATOR| == 5
    ensures Feedback(b, i) == Xor(Feedback(b, i - 1), Tap(Bit(b, i - 1), GENERATOR[i - 1]))
  {
    hide Xor, Bit, Tap, GENERATOR;
  }

  lemma {:induction false} FeedbackLinear(a: bv32, b: bv32, i: nat)
    requires i <= 5
    ensures Feedback(Xor(a, b), i) == Xor(Feedback(a, i), Feedback(b, i))
  {
    hide Xor, Bit, Tap, GENERATOR, Feedback;
    FiveWords();
    if i == 0 {
      NoFeedback();
    } else {
      FeedbackLinear(a, b, i - 1);
      FeedbackNext(a, i);
      FeedbackNext(b, i);
      FeedbackNext(Xor(a, b), i);
      BitLinear(a, b, i - 1);
      TapLinear(Bit(a, i - 1), Bit(b, i - 1), GENERATOR[i - 1]);
      XorSwap(Feedback(a, i - 1), Feedback(b, i - 1),
              Tap(Bit(a, i - 1), GENERATOR[i - 1]), Tap(Bit(b, i - 1), GENERATOR[i - 1]));
    }
  }

  lemma FullFeedbackLinear(a: bv32, b: bv32)
    ensures FullFeedback(Xor(a, b)) == Xor(FullFeedback(a), FullFeedback(b))
  {
    FeedbackLinear(a, b, 5);
  }

  lemma ShiftLinear(a: bv32, b: bv32)
    ensures Shift(Xor(a, b)) == Xor(Shift(a), Shift(b))
    ensures Top(Xor(a, b)) == Xor(Top(a), Top(b))
  {
  }

  /** One step is linear in the register and the symbol together. */
  lemma StepLinear(a: bv32, b: bv32, v: bv32, w: bv32)
    ensures Step(Xor(a, b), Xor(v, w)) == Xor(Step(a, v), Step(b, w))
  {
    hide Xor, Shift, Top, FullFeedback;
    ShiftLinear(a, b);
    FullFeedbackLinear(Top(a), Top(b));
    XorSwap(Shift(a), Shift(b), v, w);
    XorSwap(Xor(Shift(a), v), Xor(Shift(b), w), FullFeedback(Top(a)), FullFeedback(Top(b)));
  }

  /** `Feedback` written out, without its recursion. */
  lemma FeedbackUnfolded(b: bv32)
    ensures Feedback(b, 5) ==
      (((Tap(b & 1 == 1, 0x3b6a57b2) ^ Tap((b >> 1) & 1 == 1, 0x26508e6d)) ^ Tap((b >> 2) & 1 == 1, 0x1ea119fa))
       ^ Tap((b >> 3) & 1 == 1, 0x3d4233dd)) ^ Tap((b >> 4) & 1 == 1, 0x2a1462b3)
  {
    XorUnits(Tap(Bit(b, 0), GENERATOR[0]));
    assert Feedback(b, 1) == Tap(b & 1 == 1, 0x3b6a57b2);
    assert Feedback(b, 2) == Feedback(b, 1) ^ Tap((b >> 1) & 1 == 1, 0x26508e6d);
    assert Feedback(b, 3) == Feedback(b, 2) ^ Tap((b >> 2) & 1 == 1, 0x1ea119fa);
    assert Feedback(b, 4) == Feedback(b, 3) ^ Tap((b >> 3) & 1 == 1, 0x3d4233dd);
  }

  /** The register stays below 2^30 whatever byte is fed. */
  lemma StepBounded(a: bv32, v: bv32)
    requires v < 0x100
    ensures Step(a, v) < 0x4000_0000
  {
    FeedbackUnfolded(Top(a));
  }

  /** Feeding a zero symbol never maps a nonzero register to zero. */
  lemma StepInjective(a: bv32)
    requires a < 0x4000_0000
    requires Step(a, 0) == 0
    ensures a == 0
  {
    FeedbackUnfolded(Top(a));
  }

  /** While the register is below 2^25 a step only appends five bits. */
  lemma StepAppends(a: bv32, v: bv32)
    requires a < 0x200_0000
    ensures Step(a, v) == (a << 5) ^ v
  {
    FeedbackUnfolded(Top(a));
  }

  // ---------------------------------------------------------------- whole runs

  /** A byte as a register value, one nibble at a time. */
  function Word(v: byte): bv32 {
    Glue((v / 16) as bv4, (v % 16) as bv4)
  }

  function Glue(high: bv4, low: bv4): bv32 {
    ((high as bv32) << 4) | (low as bv32)
  }

  /** The register after feeding `values`, starting from `chk`. */
  function Run(chk: bv32, values: seq<bv32>): bv32 {
    if values == [] then chk
    else Step(Run(chk, values[..|values| - 1]), values[|values| - 1])
  }

  function Words(values: seq<byte>): (w: seq<bv32>)
    ensures |w| == |values|
  {
    seq(|values|, i requires 0 <= i < |values| => Word(values[i]))
  }

  function Polymod(values: seq<byte>): bv32 {
    Run(1, Words(values))
  }

  /** The outer loop of `bech32Polymod`. */
  method ComputePolymod(values: seq<byte>) returns (chk: bv32)
    ensures chk == Polymod(values)
  {
    chk := 1;
    for n := 0 to |values|
      invariant chk == Run(1, Words(values)[..n])
    {
      chk := ApplyFeedback(Xor(Shift(chk), Word(values[n])), Top(chk));
      assert Words(values)[..n + 1][..n] == Words(values)[..n];
    }
    assert Words(values)[..|values|] == Words(values);
  }

  /** Its inner loop: xor in one generator for each of the five bits shifted out. */
  method ApplyFeedback(shifted: bv32, b: bv32) returns (chk: bv32)
    ensures chk == Xor(shifted, FullFeedback(b))
  {
    chk := shifted;
    XorUnits(shifted);
    for i := 0 to 5
      invariant chk == Xor(shifted, Feedback(b, i))
    {
      XorAssociates(shifted, Feedback(b, i), Tap(Bit(b, i), GENERATOR[i]));
      XorUnits(chk);
      if Bit(b, i) {
        chk := Xor(chk, GENERATOR[i]);
      }
    }
  }

  function XorAll(x: seq<bv32>, y: seq<bv32>): (z: seq<bv32>)
    requires |x| == |y|
    ensures |z| == |x|
  {
    seq(|x|, i requires 0 <= i < |x| => Xor(x[i], y[i]))
  }

  /** Two runs differ by the run of their difference. */
  lemma {:induction false} RunLinear(a: bv32, b: bv32, x: seq<bv32>, y: seq<bv32>)
    requires |x| == |y|
    ensures Run(Xor(a, b), XorAll(x, y)) == Xor(Run(a, x), Run(b, y))
  {
    hide Step, Xor;
    if x != [] {
      var k := |x| - 1;
      RunLinear(a, b, x[..k], y[..k]);
      assert XorAll(x, y)[..k] == XorAll(x[..k], y[..k]);
      StepLinear(Run(a, x[..k]), Run(b, y[..k]), x[k], y[k]);
    }
  }

  lemma {:induction false} RunConcat(c: bv32, x: seq<bv32>, y: seq<bv32>)
    ensures Run(c, x + y) == Run(Run(c, x), y)
  {
    if y == [] {
      assert x + y == x;
    } else {
      var k := |y| - 1;
      RunConcat(c, x, y[..k]);
      assert (x + y)[..|x + y| - 1] == x + y[..k];
    }
  }

  /** 2^(5k), as a register bound. */
  function Cap(k: nat): bv32
    requires k <= 6
  {
    if k == 0 then 1
    else if k == 1 then 0x20
    else if k == 2 then 0x400
    else if k == 3 then 0x8000
    else if k == 4 then 0x10_0000
    else if k == 5 then 0x200_0000
    else 0x4000_0000
  }

  lemma CapBounded(k: nat)
    requires k <= 6
    ensures 0 < Cap(k) <= 0x4000_0000
  {
  }

  lemma AppendGrows(a: bv32, v: bv32, k: nat)
    requires k < 6 && a < Cap(k) && v < 32
    ensures Step(a, v) < Cap(k + 1)
    ensures Step(a, v) == 0 <==> a == 0 && v == 0
  {
    assert a < 0x200_0000;
    StepAppends(a, v);
    if k == 0 {
    } else if k == 1 {
    } else if k == 2 {
    } else if k == 3 {
    } else if k == 4 {
    } else {
      assert k == 5;
    }
  }

  lemma ZeroSymbol(a: bv32)
    requires a < 0x4000_0000
    ensures Step(a, 0) < 0x4000_0000
    ensures Step(a, 0) == 0 <==> a == 0
  {
    StepBounded(a, 0);
    if a == 0 {
      StepAppends(0, 0);
    } else if Step(a, 0) == 0 {
      StepInjective(a);
    }
  }

  ghost predicate AllZero(z: seq<bv32>) {
    forall i :: 0 <= i < |z| ==> z[i] == 0
  }

  /** `z` is zero outside positions p .. p + 6 and holds 5-bit symbols inside. */
  ghost predicate Burst(z: seq<bv32>, p: nat) {
    forall i :: 0 <= i < |z| ==> if p <= i < p + 6 then z[i] < 32 else z[i] == 0
  }

  /** What the register can hold after `n` symbols, when the burst starts at `p`. */
  ghost predicate Fits(r: bv32, n: nat, p: nat) {
    && r < 0x4000_0000
    && (n < p ==> r == 0)
    && (p <= n <= p + 6 ==> r < Cap(n - p))
  }

  lemma BurstStep(r: bv32, v: bv32, n: nat, p: nat)
    requires Fits(r, n, p)
    requires if p <= n < p + 6 then v < 32 else v == 0
    ensures Fits(Step(r, v), n + 1, p)
    ensures Step(r, v) == 0 <==> r == 0 && v == 0
  {
    hide Step, Cap;
    if p <= n < p + 6 {
      AppendGrows(r, v, n - p);
      StepBounded(r, v);
    } else {
      ZeroSymbol(r);
      CapBounded(0);
    }
  }

  /** From a zero register a burst ends in zero only if it is no burst at all. */
  lemma {:induction false} BurstLeavesTrace(z: seq<bv32>, p: nat)
    requires Burst(z, p)
    ensures Fits(Run(0, z), |z|, p)
    ensures Run(0, z) == 0 <==> AllZero(z)
  {
    hide Step, Cap;
    if z == [] {
      CapBounded(0);
    } else {
      var k := |z| - 1;
      BurstLeavesTrace(z[..k], p);
      BurstStep(Run(0, z[..k]), z[k], k, p);
      assert AllZero(z) <==> AllZero(z[..k]) && z[k] == 0;
    }
  }

  lemma XorZero(a: bv32, b: bv32)
    ensures Xor(a, b) == 0 <==> a == b
  {
    assert a ^ b == 0 <==> a == b;
  }

  lemma XorSmall(a: bv32, b: bv32)
    requires a < 32 && b < 32
    ensures Xor(a, b) < 32
  {
  }

  lemma NibbleRoundTrip(v: int)
    requires 0 <= v < 16
    ensures (v as bv4) as int == v
  {
  }

  lemma GlueProperties(a: bv4, b: bv4, c: bv4, d: bv4)
    ensures Glue(a, b) == Glue(c, d) ==> a == c && b == d
    ensures Glue(a, b) < 0x100
    ensures a < 2 ==> Glue(a, b) < 32
  {
  }

  lemma WordValue(v: byte)
    ensures Word(v) < 0x100
    ensures v < 32 ==> Word(v) < 32
  {
  }

  lemma WordInjective(v: byte, w: byte)
    ensures Word(v) == Word(w) <==> v == w
  {
    hide Glue;
    GlueProperties((v / 16) as bv4, (v % 16) as bv4, (w / 16) as bv4, (w % 16) as bv4);
    NibbleRoundTrip(v / 16);
    NibbleRoundTrip(v % 16);
    NibbleRoundTrip(w / 16);
    NibbleRoundTrip(w % 16);
  }

  // ---------------------------------------------------------------- error detection

  /** `x` and `y` agree outside the six positions from `p`, where both hold symbols. */
  ghost predicate DifferInBurst(x: seq<byte>, y: seq<byte>, p: nat) {
    && |x| == |y|
    && (forall i :: 0 <= i < |x| && !(p <= i < p + 6) ==> x[i] == y[i])
    && (forall i :: 0 <= i < |x| && p <= i < p + 6 ==> x[i] < 32 && y[i] < 32)
  }

  /** A burst of at most six symbols always changes the checksum register, at any length. */
  lemma BurstChangesPolymod(x: seq<byte>, y: seq<byte>, p: nat)
    requires DifferInBurst(x, y, p)
    requires x != y
    ensures Polymod(x) != Polymod(y)
  {
    hide Step, Xor, Word;
    var z := XorAll(Words(x), Words(y));
    forall i | 0 <= i < |x|
      ensures z[i] == 0 <==> x[i] == y[i]
      ensures p <= i < p + 6 ==> z[i] < 32
    {
      WordInjective(x[i], y[i]);
      WordValue(x[i]);
      WordValue(y[i]);
      XorZero(Word(x[i]), Word(y[i]));
      if p <= i < p + 6 {
        XorSmall(Word(x[i]), Word(y[i]));
      }
    }
    XorZero(1, 1);
    RunLinear(1, 1, Words(x), Words(y));
    BurstLeavesTrace(z, p);
    XorZero(Polymod(x), Polymod(y));
  }

  // ---------------------------------------------------------------- the checksum itself

  /** `w & 31` as a byte. */
  function LowSymbol(w: bv32): (d: byte)
    ensures d < 32
  {
    16 * (HighNibble(w) as int) + (LowNibble(w) as int)
  }

  function HighNibble(w: bv32): (h: bv4)
    ensures h < 2
  {
    ((w >> 4) & 1) as bv4
  }

  function LowNibble(w: bv32): bv4 {
    (w & 15) as bv4
  }

  /** The leading 5k bits of a 30-bit register: `w >> (5 * (6 - k))`. */
  function Leading(w: bv32, k: nat): bv32
    requires k <= 6
  {
    if k == 0 then w >> 30
    else if k == 1 then w >> 25
    else if k == 2 then w >> 20
    else if k == 3 then w >> 15
    else if k == 4 then w >> 10
    else if k == 5 then w >> 5
    else w
  }

  /** The six symbols that `bech32CreateChecksum` cuts the register into. */
  function Digits(w: bv32): (d: seq<byte>)
    ensures |d| == 6
    ensures forall i :: 0 <= i < 6 ==> d[i] < 32
  {
    seq(6, k requires 0 <= k < 6 => LowSymbol(Leading(w, k + 1)))
  }

  const SIX_ZEROS: seq<byte> := [0, 0, 0, 0, 0, 0]

  /** `bech32CreateChecksum`, for the expanded prefix followed by the data. */
  function Checksum(values: seq<byte>): (c: seq<byte>)
    ensures |c| == 6
    ensures forall i :: 0 <= i < 6 ==> c[i] < 32
  {
    Digits(Xor(Polymod(values + SIX_ZEROS), 1))
  }

  predicate Verifies(values: seq<byte>) {
    Polymod(values) == 1
  }

  lemma LowSymbolWord(w: bv32)
    ensures Word(LowSymbol(w)) == w & 31
  {
  }

  lemma {:induction false} LeadingBounded(w: bv32, k: nat)
    requires w < 0x4000_0000 && k <= 6
    ensures Leading(w, k) < Cap(k)
    decreases 6 - k
  {
    hide Leading, Cap, Shift5;
    if k == 6 {
      LeadingWhole(w);
    } else {
      LeadingBounded(w, k + 1);
      LeadingShift(w, k);
      ShiftBounded(Leading(w, k + 1), k);
    }
  }

  lemma LeadingWhole(w: bv32)
    ensures Leading(w, 6) == w
    ensures Cap(6) == 0x4000_0000 && Cap(0) == 1
  {
  }

  lemma ShiftBounded(y: bv32, k: nat)
    requires k < 6 && y < Cap(k + 1)
    ensures Shift5(y) < Cap(k) <= 0x4000_0000
  {
  }

  function Shift5(y: bv32): bv32 {
    y >> 5
  }

  lemma LeadingUnfolded(w: bv32)
    ensures Leading(w, 0) == w >> 30 && Leading(w, 1) == w >> 25 && Leading(w, 2) == w >> 20
    ensures Leading(w, 3) == w >> 15 && Leading(w, 4) == w >> 10 && Leading(w, 5) == w >> 5
    ensures Leading(w, 6) == w
  {
  }

  lemma ShiftsCompose(w: bv32)
    ensures Shift5(w >> 25) == w >> 30 && Shift5(w >> 20) == w >> 25 && Shift5(w >> 15) == w >> 20
    ensures Shift5(w >> 10) == w >> 15 && Shift5(w >> 5) == w >> 10
  {
  }

  lemma Shift5Unfolded(w: bv32)
    ensures Shift5(w) == w >> 5
  {
  }

  lemma LeadingShift(w: bv32, k: nat)
    requires k < 6
    ensures Leading(w, k) == Shift5(Leading(w, k + 1))
  {
    hide Leading, Shift5;
    LeadingUnfolded(w);
    ShiftsCompose(w);
    assert Shift5(w) == w >> 5 by {
      Shift5Unfolded(w);
    }
    assert k == 0 || k == 1 || k == 2 || k == 3 || k == 4 || k == 5;
  }

  lemma AppendLowSymbol(y: bv32)
    requires y < 0x4000_0000
    ensures Step(Shift5(y), Word(LowSymbol(y))) == y
  {
    LowSymbolWord(y);
    StepAppends(y >> 5, y & 31);
    assert ((y >> 5) << 5) ^ (y & 31) == y;
  }

  /** Running the first `k` digits of `w` from a zero register rebuilds its leading bits. */
  lemma {:induction false} DigitsRebuild(w: bv32, k: nat)
    requires w < 0x4000_0000 && k <= 6
    ensures Run(0, Words(Digits(w)[..k])) == Leading(w, k)
  {
    hide Step, Leading, LowSymbol, Word, Cap, Shift5;
    LeadingWhole(w);
    if k == 0 {
      LeadingBounded(w, 0);
    } else {
      DigitsRebuild(w, k - 1);
      LeadingBounded(w, k);
      LeadingShift(w, k - 1);
      CapBounded(k);
      AppendLowSymbol(Leading(w, k));
      assert Words(Digits(w)[..k])[..k - 1] == Words(Digits(w)[..k - 1]);
    }
  }

  lemma RunBounded(c: bv32, values: seq<byte>)
    requires values != []
    ensures Run(c, Words(values)) < 0x4000_0000
  {
    var k := |values| - 1;
    WordValue(values[k]);
    StepBounded(Run(c, Words(values)[..k]), Word(values[k]));
  }

  lemma PolymodConcat(x: seq<byte>, y: seq<byte>)
    ensures Polymod(x + y) == Run(Polymod(x), Words(y))
  {
    assert Words(x + y) == Words(x) + Words(y);
    RunConcat(1, Words(x), Words(y));
  }

  lemma XorCancels(a: bv32, b: bv32)
    ensures Xor(a, Xor(a, b)) == b
  {
    assert a ^ (a ^ b) == b;
  }

  /** Replacing six zero symbols by `d` xors the run of `d` alone into the register. */
  lemma RunFromZeros(c: bv32, d: seq<byte>)
    requires |d| == 6
    ensures Run(c, Words(d)) == Xor(Run(c, Words(SIX_ZEROS)), Run(0, Words(d)))
  {
    hide Step, Xor;
    RunLinear(c, 0, Words(SIX_ZEROS), Words(d));
    XorUnits(c);
    forall i | 0 <= i < 6
      ensures XorAll(Words(SIX_ZEROS), Words(d))[i] == Words(d)[i]
    {
      assert Word(0) == 0;
      XorUnits(Word(d[i]));
    }
    assert XorAll(Words(SIX_ZEROS), Words(d)) == Words(d);
  }

  /** Appending the created checksum makes the whole sequence verify. */
  lemma ChecksumVerifies(values: seq<byte>)
    ensures Verifies(values + Checksum(values))
  {
    hide Step, Leading, LowSymbol, Word;
    var c := Polymod(values);
    var pm := Run(c, Words(SIX_ZEROS));
    PolymodConcat(values, SIX_ZEROS);
    PolymodConcat(values, Checksum(values));
    RunBounded(c, SIX_ZEROS);
    FlipLow(pm);
    DigitsRebuild(Xor(pm, 1), 6);
    assert Digits(Xor(pm, 1))[..6] == Digits(Xor(pm, 1));
    LeadingWhole(Xor(pm, 1));
    RunFromZeros(c, Checksum(values));
    XorCancels(pm, 1);
  }

  lemma FlipLow(a: bv32)
    requires a < 0x4000_0000
    ensures Xor(a, 1) < 0x4000_0000
  {
  }

  /** No other six symbols do. */
  lemma ChecksumUnique(values: seq<byte>, c: seq<byte>)
    requires |c| == 6
    requires forall i :: 0 <= i < 6 ==> c[i] < 32
    ensures Verifies(values + c) <==> c == Checksum(values)
  {
    ChecksumVerifies(values);
    var good := values + Checksum(values);
    if c != Checksum(values) {
      assert c == (values + c)[|values|..] && Checksum(values) == good[|values|..];
      BurstChangesPolymod(values + c, good, |values|);
    }
  }
}