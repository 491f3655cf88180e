/**
 * `convertBits` of backend/internal/identity/nostr.go: regroup digits of
 * `from` bits into digits of `to` bits.
 *
 * The source shifts every digit into one Go `int` that it never masks, so the
 * accumulator overflows after 64 bits and may turn negative.  `Regroup` states
 * what the result means on bit strings; the method is the source's loop.
 */
module ConvertBits {
  import opened Arithmetic
  import opened Bytes
  import opened BitStrings

  datatype ConvertError = InvalidValue | InvalidPadding

  const INT_BITS: nat := 64

  /** Zero bits that fill `n` bits up to a multiple of `w`. */
  function Padding(n: nat, w: nat): (p: nat)
    requires w >= 1
    ensures p < w
    ensures (n + p) % w == 0
  {
    PaddingFills(n, w);
    (w - n % w) % w
  }

  lemma PaddingFills(n: nat, w: nat)
    requires w >= 1
    ensures (n + (w - n % w) % w) % w == 0
  {
    var q, r := n / w, n % w;
    if r == 0 {
      DivisionUnique(w, w, 1, 0);
    } else {
      DivisionUnique(w - r, w, 0, w - r);
      assert n + (w - r) == (q + 1) * w;
      DivisionUnique(n + (w - r), w, q + 1, 0);
    }
  }

  lemma {:induction false} PaddingUnique(n: nat, w: nat, p: nat)
    requires w >= 1 && p < w && (n + p) % w == 0
    ensures p == Padding(n, w)
  {
    var u, v := (n + p) / w, (n + Padding(n, w)) / w;
    assert n + p == u * w && n + Padding(n, w) == v * w;
    assert (u - v) * w == u * w - v * w;
    MultipleGrows(u - v, w);
  }

  /** What the regrouped digits are, said on whole bit strings. */
  ghost function Regroup(data: seq<byte>, from: nat, to: nat, pad: bool): (r: Result<seq<byte>, ConvertError>)
    requires 1 <= from <= 8 && 1 <= to <= 8
  {
    var bits := Spread(data, from);
    var rest := |bits| % to;
    if !Fits(data, from) then Err(InvalidValue)
    else if pad then Ok(GatherBytes(bits + Zeros(Padding(|bits|, to)), to))
    else if rest >= from || bits[|bits| - rest..] != Zeros(rest) then Err(InvalidPadding)
    else Ok(GatherBytes(bits[..|bits| - rest], to))
  }

  lemma {:induction false} Pow2Monotone(m: nat, n: nat)
    requires m <= n
    ensures Pow2(m) <= Pow2(n)
    decreases n - m
  {
    if m < n {
      Pow2Monotone(m + 1, n);
    }
  }

  lemma FitsBytes(d: seq<int>, w: nat)
    requires w <= 8 && Fits(d, w)
    ensures forall i :: 0 <= i < |d| ==> 0 <= d[i] < 256
  {
    Pow2Monotone(w, 8);
    assert Pow2(8) == 256 by {
      assert Pow2(4) == 16;
    }
  }

  function GatherBytes(s: seq<bool>, w: nat): (d: seq<byte>)
    requires 1 <= w <= 8
    ensures Fits(d, w)
  {
    FitsBytes(Gather(s, w), w);
    Gather(s, w)
  }

  // ---------------------------------------------------------------- the loop

  lemma {:induction false} ShrZero(x: int, n: nat)
    requires x >= 0
    ensures Shr(x, n) == 0 <==> x < Pow2(n)
    decreases n
  {
    if n > 0 {
      ShrZero(x / 2, n - 1);
    }
  }

  /** Shifting the accumulator and adding a digit appends the digit's bits. */
  lemma ShiftIn(acc: int, bits: nat, v: int, f: nat, width: nat)
    requires 0 <= v < Pow2(f) && bits + f <= width && 1 <= width
    ensures LowBits(Wrap(Shl(acc, f), width) + v, bits + f) == LowBits(acc, bits) + LowBits(v, f)
  {
    var x := Shl(acc, f);
    var q := (x + Pow2(width - 1)) / Pow2(width);
    assert Wrap(x, width) + v == (x + v) + (-q) * Pow2(width);
    LowBitsPeriodic(x + v, -q, bits + f, width);
    LowBitsShl(acc, v, bits, f);
  }

  /** The state of the loop after `done`: complete digits in `out`, `bits` pending bits in `acc`. */
  ghost predicate State(done: seq<int>, from: nat, out: seq<int>, to: nat, acc: int, bits: nat) {
    && Fits(done, from)
    && Fits(out, to)
    && Spread(out, to) + LowBits(acc, bits) == Spread(done, from)
  }

  lemma {:induction false} StateShiftIn(done: seq<int>, v: int, from: nat, out: seq<int>, to: nat, acc: int, bits: nat, width: nat)
    requires State(done, from, out, to, acc, bits)
    requires 0 <= v < Pow2(from) && bits + from <= width && 1 <= width
    ensures State(done + [v], from, out, to, Wrap(Shl(acc, from), width) + v, bits + from)
  {
    hide LowBits, Wrap, Shl, Spread;
    ShiftIn(acc, bits, v, from, width);
    SpreadSnoc(done, v, from);
  }

  /** `(acc >> bits) & maxv` is the next digit. */
  function Digit(acc: int, bits: nat, to: nat): (d: byte)
    requires to <= 8
    ensures d < Pow2(to)
  {
    var d := Shr(acc, bits) % Pow2(to);
    FitsBytes([d], to);
    assert 0 <= [d][0] < 256;
    d
  }

  lemma {:induction false} StateTakeDigit(done: seq<int>, from: nat, out: seq<int>, to: nat, acc: int, bits: nat)
    requires to <= 8 && State(done, from, out, to, acc, to + bits)
    ensures State(done, from, out + [Digit(acc, bits, to)], to, acc, bits)
  {
    hide LowBits, Spread, Shr, Digit;
    var d := Digit(acc, bits, to);
    LowBitsSplit(acc, to, bits);
    DigitBits(acc, bits, to);
    SpreadSnoc(out, d, to);
  }

  lemma {:induction false} DigitBits(acc: int, bits: nat, to: nat)
    requires to <= 8
    ensures LowBits(Digit(acc, bits, to), to) == LowBits(Shr(acc, bits), to)
  {
    ValueOfLowBits(Shr(acc, bits), to);
    LowBitsOfValue(LowBits(Shr(acc, bits), to));
  }

  lemma {:induction false} DigitZero(acc: int, to: nat)
    requires to <= 8
    ensures Digit(acc, 0, to) == 0 <==> LowBits(acc, to) == Zeros(to)
  {
    LowBitsZero(acc, to);
  }

  /** `(acc << k) & maxv` is the last digit, `bits` pending bits above `k` zeros. */
  lemma {:induction false} LastDigit(acc: int, bits: nat, k: nat, width: nat)
    requires bits + k <= 8 <= width
    ensures LowBits(Digit(Wrap(Shl(acc, k), width), 0, bits + k), bits + k) == LowBits(acc, bits) + Zeros(k)
    ensures Digit(Wrap(Shl(acc, k), width), 0, bits + k) == 0 <==> LowBits(acc, bits) == Zeros(bits)
  {
    hide Wrap, Shl, LowBits, Digit;
    var x := Wrap(Shl(acc, k), width);
    WrapKeepsLowBits(Shl(acc, k), width, bits + k);
    LowBitsShl(acc, 0, bits, k);
    LowBitsZero(0, k);
    DigitBits(x, 0, bits + k);
    DigitZero(x, bits + k);
    assert Zeros(bits + k) == Zeros(bits) + Zeros(k);
    assert LowBits(x, bits + k)[..bits] == LowBits(acc, bits);
  }

  method Convert(data: seq<byte>, from: nat, to: nat, pad: bool) returns (r: Result<seq<byte>, ConvertError>)
    requires 1 <= from <= 8 && 1 <= to <= 8
    ensures r == Regroup(data, from, to, pad)
  {
    hide Spread, LowBits, Wrap, Shl, Shr, State, Digit;
    var acc := 0;
    var bits := 0;
    var result: seq<byte> := [];
    StartState(from, to);
    for i := 0 to |data|
      invariant 0 <= bits < to
      invariant State(data[..i], from, result, to, acc, bits)
    {
      ShrZero(data[i], from);
      if Shr(data[i], from) != 0 {
        return Err(InvalidValue);
      }
      StateShiftIn(data[..i], data[i], from, result, to, acc, bits, INT_BITS);
      assert data[..i + 1] == data[..i] + [data[i]];
      acc := Wrap(Shl(acc, from), INT_BITS) + data[i];
      bits := bits + from;
      while bits >= to
        invariant 0 <= bits < to + from
        invariant State(data[..i + 1], from, result, to, acc, bits)
      {
        bits := bits - to;
        StateTakeDigit(data[..i + 1], from, result, to, acc, bits);
        result := result + [Digit(acc, bits, to)];
      }
    }
    assert data[..|data|] == data;
    if pad {
      FinishPadded(data, from, result, to, acc, bits);
      if bits > 0 {
        result := result + [Digit(Wrap(Shl(acc, to - bits), INT_BITS), 0, to)];
      }
      return Ok(result);
    }
    FinishUnpadded(data, from, result, to, acc, bits);
    if bits >= from || Digit(Wrap(Shl(acc, to - bits), INT_BITS), 0, to) != 0 {
      return Err(InvalidPadding);
    }
    return Ok(result);
  }

  lemma StartState(from: nat, to: nat)
    ensures State([], from, [], to, 0, 0)
  {
  }

  lemma StateLength(done: seq<int>, from: nat, out: seq<int>, to: nat, acc: int, bits: nat)
    requires to >= 1 && bits < to && State(done, from, out, to, acc, bits)
    ensures |Spread(done, from)| % to == bits
    ensures Spread(done, from)[..|Spread(done, from)| - bits] == Spread(out, to)
    ensures Spread(done, from)[|Spread(done, from)| - bits..] == LowBits(acc, bits)
  {
    hide Spread, LowBits;
    DivisionUnique(|out| * to + bits, to, |out|, bits);
  }

  lemma {:induction false} FinishUnpadded(data: seq<byte>, from: nat, out: seq<byte>, to: nat, acc: int, bits: nat)
    requires 1 <= from <= 8 && 1 <= to <= 8 && bits < to
    requires State(data, from, out, to, acc, bits)
    ensures Regroup(data, from, to, false) ==
      if bits >= from || Digit(Wrap(Shl(acc, to - bits), INT_BITS), 0, to) != 0 then Err(InvalidPadding) else Ok(out)
  {
    hide Spread, LowBits, Wrap, Shl, Digit, Gather;
    StateLength(data, from, out, to, acc, bits);
    LastDigit(acc, bits, to - bits, INT_BITS);
    GatherUnique(out, Spread(out, to), to);
  }

  lemma SpreadLength(d: seq<int>, w: nat)
    requires w >= 1
    ensures |Spread(d, w)| % w == 0
  {
    DivisionUnique(|d| * w, w, |d|, 0);
  }

  lemma FinishPadded(data: seq<byte>, from: nat, out: seq<byte>, to: nat, acc: int, bits: nat)
    requires 1 <= from <= 8 && 1 <= to <= 8 && bits < to
    requires State(data, from, out, to, acc, bits)
    ensures Regroup(data, from, to, true) ==
      Ok(if bits > 0 then out + [Digit(Wrap(Shl(acc, to - bits), INT_BITS), 0, to)] else out)
  {
    hide LowBits, Wrap, Shl, Digit, Gather, Padding, Spread;
    var all := Spread(data, from);
    StateLength(data, from, out, to, acc, bits);
    if bits == 0 {
      PaddingUnique(|all|, to, 0);
      assert all + Zeros(0) == Spread(out, to);
      GatherUnique(out, all, to);
    } else {
      var last := Digit(Wrap(Shl(acc, to - bits), INT_BITS), 0, to);
      LastDigit(acc, bits, to - bits, INT_BITS);
      var full := out + [last];
      SpreadSnoc(out, last, to);
      assert Spread(full, to) == all + Zeros(to - bits);
      SpreadLength(full, to);
      PaddingUnique(|all|, to, to - bits);
      GatherUnique(full, Spread(full, to), to);
    }
  }

  // ---------------------------------------------------------------- inverses

  /** Padding down to narrower digits loses nothing: the wider digits come back. */
  lemma {:induction false} PaddedComesBack(d: seq<byte>, a: nat, b: nat)
    requires 1 <= b <= a <= 8 && Fits(d, a)
    ensures Regroup(d, a, b, true).Ok?
    ensures Regroup(Regroup(d, a, b, true).value, b, a, false) == Ok(d)
  {
    hide Spread, Gather, Padding;
    var bits := Spread(d, a);
    var p := Padding(|bits|, b);
    var w := GatherBytes(bits + Zeros(p), b);
    SpreadGather(bits + Zeros(p), b);
    DivisionUnique(|d| * a + p, a, |d|, p);
    assert (bits + Zeros(p))[..|bits|] == bits;
    assert (bits + Zeros(p))[|bits|..] == Zeros(p);
    GatherUnique(d, bits, a);
  }

  /** Digits accepted without padding are exactly what padding produces. */
  lemma UnpaddedComesBack(w: seq<byte>, d: seq<byte>, a: nat, b: nat)
    requires 1 <= b <= a <= 8
    requires Regroup(w, b, a, false) == Ok(d)
    ensures Fits(d, a) && Regroup(d, a, b, true) == Ok(w)
  {
    hide Spread, Gather, Padding;
    var bits := Spread(w, b);
    var rest := |bits| % a;
    var kept := bits[..|bits| - rest];
    UseWholeDigits(|bits|, a);
    SpreadGather(kept, a);
    SpreadLength(w, b);
    PaddingUnique(|kept|, b, rest);
    assert kept + Zeros(rest) == bits;
    GatherUnique(w, bits, b);
  }

  lemma {:induction false} UseWholeDigits(n: nat, w: nat)
    requires w >= 1
    ensures (n - n % w) % w == 0
  {
    DivisionUnique(n - n % w, w, n / w, 0);
  }

  /** Regrouping with padding and regrouping back without are one relation read both ways. */
  lemma ConvertBitsInverse(d: seq<byte>, w: seq<byte>, a: nat, b: nat)
    requires 1 <= b <= a <= 8
    ensures Regroup(d, a, b, true) == Ok(w) <==> Regroup(w, b, a, false) == Ok(d)
  {
    if Regroup(d, a, b, true) == Ok(w) {
      PaddedComesBack(d, a, b);
    }
    if Regroup(w, b, a, false) == Ok(d) {
      UnpaddedComesBack(w, d, a, b);
    }
  }

  /** Dropping the incomplete last byte undoes padding from bytes to narrower digits. */
  lemma PaddedBytesGather(d: seq<byte>, w: nat)
    requires 1 <= w <= 8
    ensures Regroup(d, 8, w, true).Ok?
    ensures Fits(Regroup(d, 8, w, true).value, w)
    ensures Gather(Spread(Regroup(d, 8, w, true).value, w), 8) == d
  {
    hide Spread, Gather, Padding;
    var bits := Spread(d, 8);
    var p := Padding(|bits|, w);
    BytesFit(d);
    SpreadGather(bits + Zeros(p), w);
    GatherDropsTail(bits, Zeros(p), 8);
    GatherSpread(d, 8);
  }

  lemma BytesFit(d: seq<byte>)
    ensures Fits(d, 8)
  {
    assert Pow2(4) == 16;
  }
}
