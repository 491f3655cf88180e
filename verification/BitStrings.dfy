/**
 * Bit strings, and the machine-integer accumulators that shift bits through.
 *
 * An accumulator is modelled by its mathematical value.  Shifting right is
 * floor division, masking is reduction modulo a power of two, and a register
 * of `n` bits that is never masked wraps: it keeps its value modulo 2^n.
 */
module BitStrings {
  import opened Arithmetic
  import opened Bytes

  function Pow2(n: nat): (p: int)
    ensures p >= 1
  {
    if n == 0 then 1 else 2 * Pow2(n - 1)
  }

  /** `x << n` before any wrap-around. */
  function Shl(x: int, n: nat): int {
    if n == 0 then x else 2 * Shl(x, n - 1)
  }

  /** `x >> n`; arithmetic, so it rounds towards minus infinity. */
  function Shr(x: int, n: nat): int
    decreases n
  {
    if n == 0 then x else Shr(x / 2, n - 1)
  }

  /** Two's complement wrap-around of a signed register of `n` bits. */
  function Wrap(x: int, n: nat): int
    requires n >= 1
  {
    (x + Pow2(n - 1)) % Pow2(n) - Pow2(n - 1)
  }

  /** The low `n` bits of `x`, most significant first. */
  function LowBits(x: int, n: nat): (s: seq<bool>)
    ensures |s| == n
    decreases n
  {
    if n == 0 then [] else LowBits(x / 2, n - 1) + [x % 2 == 1]
  }

  /** The number a bit string denotes. */
  function Value(s: seq<bool>): (v: int)
    ensures 0 <= v < Pow2(|s|)
  {
    if s == [] then 0
    else 2 * Value(s[..|s| - 1]) + (if s[|s| - 1] then 1 else 0)
  }

  function Zeros(n: nat): (s: seq<bool>)
    ensures |s| == n
  {
    seq(n, i => false)
  }

  ghost predicate Fits(d: seq<int>, w: nat) {
    forall i :: 0 <= i < |d| ==> 0 <= d[i] < Pow2(w)
  }

  /** The bits of a sequence of `w`-bit digits. */
  function Spread(d: seq<int>, w: nat): (s: seq<bool>)
    ensures |s| == |d| * w
  {
    if d == [] then [] else Spread(d[..|d| - 1], w) + LowBits(d[|d| - 1], w)
  }

  /** Cut a bit string into `w`-bit digits; an incomplete last digit is dropped. */
  function Gather(s: seq<bool>, w: nat): (d: seq<int>)
    requires w >= 1
    ensures Fits(d, w)
  {
    if |s| < w then [] else [Value(s[..w])] + Gather(s[w..], w)
  }

  // ---------------------------------------------------------------- registers

  lemma {:induction false} LowBitsPeriodic(x: int, k: int, n: nat, m: nat)
    requires n <= m
    ensures LowBits(x + k * Pow2(m), n) == LowBits(x, n)
    decreases n
  {
    if n > 0 {
      var y := k * Pow2(m - 1);
      assert k * Pow2(m) == 2 * y;
      assert (x + 2 * y) / 2 == x / 2 + y && (x + 2 * y) % 2 == x % 2;
      LowBitsPeriodic(x / 2, k, n - 1, m - 1);
    }
  }

  /** Wrapping never disturbs the bits that fit in the register. */
  lemma WrapKeepsLowBits(x: int, n: nat, k: nat)
    requires 1 <= n && k <= n
    ensures LowBits(Wrap(x, n), k) == LowBits(x, k)
  {
    var q := (x + Pow2(n - 1)) / Pow2(n);
    assert x == Wrap(x, n) + q * Pow2(n);
    LowBitsPeriodic(Wrap(x, n), q, k, n);
  }

  lemma {:induction false} LowBitsShl(x: int, v: int, n: nat, f: nat)
    requires 0 <= v < Pow2(f)
    ensures LowBits(Shl(x, f) + v, n + f) == LowBits(x, n) + LowBits(v, f)
    decreases f
  {
    if f > 0 {
      var y := Shl(x, f - 1);
      assert (2 * y + v) / 2 == y + v / 2 && (2 * y + v) % 2 == v % 2;
      LowBitsShl(x, v / 2, n, f - 1);
    }
  }

  lemma {:induction false} LowBitsSplit(x: int, high: nat, low: nat)
    ensures LowBits(x, high + low) == LowBits(Shr(x, low), high) + LowBits(x, low)
    decreases low
  {
    if low > 0 {
      LowBitsSplit(x / 2, high, low - 1);
    }
  }

  lemma {:induction false} ValueOfLowBits(x: int, w: nat)
    ensures Value(LowBits(x, w)) == x % Pow2(w)
    decreases w
  {
    if w > 0 {
      ValueOfLowBits(x / 2, w - 1);
      var s := LowBits(x, w);
      assert s[..w - 1] == LowBits(x / 2, w - 1);
      ModHalves(x, Pow2(w - 1));
    }
  }

  lemma {:induction false} ModHalves(x: int, p: int)
    requires p >= 1
    ensures x % (2 * p) == 2 * ((x / 2) % p) + x % 2
  {
    var h := x / 2;
    var q, r := h / p, h % p;
    assert h == q * p + r;
    assert x == q * (2 * p) + (2 * r + x % 2);
    DivisionUnique(x, 2 * p, q, 2 * r + x % 2);
  }

  lemma {:induction false} LowBitsOfValue(s: seq<bool>)
    ensures LowBits(Value(s), |s|) == s
  {
    if s != [] {
      var k := |s| - 1;
      LowBitsOfValue(s[..k]);
      assert s == s[..k] + [s[k]];
    }
  }

  lemma {:induction false} LowBitsZero(x: int, w: nat)
    ensures LowBits(x, w) == Zeros(w) <==> x % Pow2(w) == 0
  {
    ValueOfLowBits(x, w);
    ValueOfZeros(w);
    if x % Pow2(w) == 0 {
      LowBitsOfValue(LowBits(x, w));
      LowBitsOfValue(Zeros(w));
    }
  }

  lemma {:induction false} ValueOfZeros(w: nat)
    ensures Value(Zeros(w)) == 0
  {
    if w > 0 {
      ValueOfZeros(w - 1);
      assert Zeros(w)[..w - 1] == Zeros(w - 1);
    }
  }

  // ------------------------------------------------------------ spread and gather

  lemma SpreadSnoc(d: seq<int>, x: int, w: nat)
    ensures Spread(d + [x], w) == Spread(d, w) + LowBits(x, w)
  {
    assert (d + [x])[..|d|] == d;
  }

  lemma {:induction false} SpreadConcat(a: seq<int>, b: seq<int>, w: nat)
    ensures Spread(a + b, w) == Spread(a, w) + Spread(b, w)
  {
    hide LowBits;
    if b == [] {
      assert a + b == a;
    } else {
      var k := |b| - 1;
      SpreadConcat(a, b[..k], w);
      assert (a + b)[..|a + b| - 1] == a + b[..k];
    }
  }

  lemma SpreadCons(x: int, rest: seq<int>, w: nat)
    ensures Spread([x] + rest, w) == LowBits(x, w) + Spread(rest, w)
  {
    assert [x][..0] == [];
    assert Spread([x], w) == LowBits(x, w);
    SpreadConcat([x], rest, w);
  }

  lemma {:induction false} SpreadGather(s: seq<bool>, w: nat)
    requires w >= 1 && |s| % w == 0
    ensures Spread(Gather(s, w), w) == s
    decreases |s|
  {
    if |s| < w {
      DivisionUnique(|s|, w, 0, |s|);
    } else {
      hide Spread, LowBits, Value;
      SubtractOnce(|s|, w);
      SpreadGather(s[w..], w);
      LowBitsOfValue(s[..w]);
      SpreadCons(Value(s[..w]), Gather(s[w..], w), w);
      assert s == s[..w] + s[w..];
    }
  }

  lemma {:induction false} GatherSpread(d: seq<int>, w: nat)
    requires w >= 1 && Fits(d, w)
    ensures Gather(Spread(d, w), w) == d
  {
    if d != [] {
      hide Spread, LowBits, Value;
      var rest := d[1..];
      assert d == [d[0]] + rest;
      SpreadCons(d[0], rest, w);
      GatherSpread(rest, w);
      ValueOfLowBits(d[0], w);
      DivisionUnique(d[0], Pow2(w), 0, d[0]);
      assert Spread(d, w)[..w] == LowBits(d[0], w);
      assert Spread(d, w)[w..] == Spread(rest, w);
    }
  }

  /** A digit string is the only one with its bits. */
  lemma {:induction false} GatherUnique(d: seq<int>, s: seq<bool>, w: nat)
    requires w >= 1 && Fits(d, w) && Spread(d, w) == s
    ensures Gather(s, w) == d
  {
    GatherSpread(d, w);
  }

  /** An incomplete digit at the end is dropped. */
  lemma {:induction false} GatherDropsTail(s: seq<bool>, tail: seq<bool>, w: nat)
    requires w >= 1 && |s| % w == 0 && |tail| < w
    ensures Gather(s + tail, w) == Gather(s, w)
    decreases |s|
  {
    if |s| >= w {
      hide Value;
      SubtractOnce(|s|, w);
      GatherDropsTail(s[w..], tail, w);
      assert (s + tail)[..w] == s[..w];
      assert (s + tail)[w..] == s[w..] + tail;
    } else {
      DivisionUnique(|s|, w, 0, |s|);
    }
  }

  lemma {:induction false} GatherLength(s: seq<bool>, w: nat)
    requires w >= 1
    ensures |Gather(s, w)| == |s| / w
    decreases |s|
  {
    if |s| >= w {
      hide Value;
      GatherLength(s[w..], w);
      DivisionUnique(|s|, w, (|s| - w) / w + 1, (|s| - w) % w);
    } else {
      DivisionUnique(|s|, w, 0, |s|);
    }
  }

  /** Reading an accumulator as unsigned keeps the bits that fit in it. */
  lemma UnsignedKeepsLowBits(x: int, n: nat, k: nat)
    requires k <= n
    ensures LowBits(x % Pow2(n), k) == LowBits(x, k)
  {
    var q := x / Pow2(n);
    assert x == x % Pow2(n) + q * Pow2(n);
    LowBitsPeriodic(x % Pow2(n), q, k, n);
  }
}
