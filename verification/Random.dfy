/**
 * Randomness primitives of packages/vault-crypto/src/random.ts.
 *
 * The platform generator is a stream of 32-bit words handed in by the caller.
 * The source would redraw for ever; here `None` says that the words given ran out.
 */
module Random {
  import opened Arithmetic
  import opened Bytes

  const WORDS: int := 0x1_0000_0000

  type Word = x: int | 0 <= x < WORDS

  // ---------------------------------------------------------------- randomInt

  /** Largest multiple of `max` that fits in 32 bits. */
  function Limit(max: int): (limit: int)
    requires 1 <= max <= WORDS
  {
    WORDS / max * max
  }

  /** One draw below `max` from the stream: the value, and the words left. */
  function Draw(max: int, words: seq<Word>): (r: Option<(int, seq<Word>)>)
    requires 1 <= max <= WORDS
    ensures r.Some? ==> 0 <= r.value.0 < max
  {
    if words == [] then None
    else if words[0] < Limit(max) then Some((words[0] % max, words[1..]))
    else Draw(max, words[1..])
  }

  datatype RangeError = NotPositive | TooLarge

  method RandomInt(max: int, words: seq<Word>) returns (r: Result<Option<(int, seq<Word>)>, RangeError>)
    ensures max <= 0 ==> r == Err(NotPositive)
    ensures max > WORDS ==> r == Err(TooLarge)
    ensures 1 <= max <= WORDS ==> r == Ok(Draw(max, words))
  {
    if max <= 0 {
      return Err(NotPositive);
    }
    if max > WORDS {
      return Err(TooLarge);
    }
    var limit := WORDS / max * max;
    var n := 0;
    while n < |words| && words[n] >= limit
      invariant 0 <= n <= |words|
      invariant Draw(max, words) == Draw(max, words[n..])
    {
      n := n + 1;
    }
    if n == |words| {
      return Ok(None);
    }
    return Ok(Some((words[n] % max, words[n + 1..])));
  }

  /** r, max + r, ..., (n - 1) * max + r */
  ghost function Progression(n: nat, max: int, r: int): set<int> {
    if n == 0 then {} else Progression(n - 1, max, r) + {(n - 1) * max + r}
  }

  lemma {:induction false} ProgressionMembers(n: nat, max: int, r: int, w: int)
    requires 1 <= max && 0 <= r < max
    ensures w in Progression(n, max, r) <==> 0 <= w < n * max && w % max == r
  {
    if n > 0 {
      ProgressionMembers(n - 1, max, r, w);
      assert n * max == (n - 1) * max + max;
      MultipleNotNegative(n - 1, max);
      if (n - 1) * max <= w < n * max {
        DivisionUnique(w, max, n - 1, w - (n - 1) * max);
      }
    }
  }

  lemma MultipleNotNegative(n: nat, max: int)
    requires 1 <= max
    ensures n * max >= 0
  {
  }

  lemma {:induction false} ProgressionSize(n: nat, max: int, r: int)
    requires 1 <= max && 0 <= r < max
    ensures |Progression(n, max, r)| == n
  {
    if n > 0 {
      ProgressionSize(n - 1, max, r);
      ProgressionMembers(n - 1, max, r, (n - 1) * max + r);
    }
  }

  /** Rejected words change nothing. */
  lemma {:induction false} DrawSkips(max: int, words: seq<Word>, k: nat)
    requires 1 <= max <= WORDS && k <= |words|
    requires forall i :: 0 <= i < k ==> words[i] >= WORDS - WORDS % max
    ensures Draw(max, words) == Draw(max, words[k..])
    decreases k
  {
    if k > 0 {
      assert Limit(max) == WORDS - WORDS % max;
      assert forall i :: 0 <= i < k - 1 ==> words[1..][i] == words[i + 1];
      DrawSkips(max, words[1..], k - 1);
      assert words[1..][k - 1..] == words[k..];
    }
  }

  lemma FirstAccepted(max: int, words: seq<Word>) returns (k: nat)
    requires 1 <= max <= WORDS
    ensures k <= |words|
    ensures forall i :: 0 <= i < k ==> words[i] >= WORDS - WORDS % max
    ensures k < |words| ==> words[k] < WORDS - WORDS % max
    ensures Draw(max, words) == if k == |words| then None else Some((words[k] % max, words[k + 1..]))
  {
    k := 0;
    while k < |words| && words[k] >= WORDS - WORDS % max
      invariant k <= |words|
      invariant forall i :: 0 <= i < k ==> words[i] >= WORDS - WORDS % max
    {
      k := k + 1;
    }
    DrawSkips(max, words, k);
    assert Limit(max) == WORDS - WORDS % max;
    if k < |words| {
      assert words[k..][0] == words[k] && words[k..][1..] == words[k + 1..];
    }
  }

  /**
   * A draw takes the first word below the largest multiple of `max`, skips exactly
   * the words before it, and reduces it; it fails when every word is at or above.
   */
  lemma {:induction false} DrawTakesFirst(max: int, words: seq<Word>, v: int, rest: seq<Word>)
    requires 1 <= max <= WORDS
    ensures Draw(max, words) == Some((v, rest)) <==>
      exists k :: 0 <= k < |words| && words[k] < WORDS - WORDS % max && words[k] % max == v && rest == words[k + 1..]
               && (forall i :: 0 <= i < k ==> words[i] >= WORDS - WORDS % max)
    ensures Draw(max, words).None? <==> forall i :: 0 <= i < |words| ==> words[i] >= WORDS - WORDS % max
  {
    hide Draw;
    var first := FirstAccepted(max, words);
    forall k | 0 <= k < |words| && words[k] < WORDS - WORDS % max
            && (forall i :: 0 <= i < k ==> words[i] >= WORDS - WORDS % max)
      ensures k == first
    {
    }
  }

  lemma DrawOne(max: int, w: Word)
    requires 1 <= max <= WORDS
    ensures Draw(max, [w]) == if w < WORDS - WORDS % max then Some((w % max, [])) else None
  {
    assert Limit(max) == WORDS - WORDS % max;
    assert Draw(max, [w][1..]) == None;
  }

  /** The words that give `v`, by the draw itself. */
  ghost function AcceptedWords(max: int, v: int): set<int>
    requires 1 <= max <= WORDS
  {
    set w: int | 0 <= w < WORDS && Draw(max, [w]) == Some((v, []))
  }

  lemma AcceptedWord(max: int, v: int, w: int)
    requires 1 <= max <= WORDS && 0 <= v < max
    ensures w in AcceptedWords(max, v) <==> w in Progression(WORDS / max, max, v)
  {
    var q := WORDS / max;
    assert WORDS == q * max + WORDS % max;
    ProgressionMembers(q, max, v, w);
    hide Draw, Progression;
    if 0 <= w < WORDS {
      DrawOne(max, w);
    }
  }

  lemma AcceptedSize(max: int, v: int)
    requires 1 <= max <= WORDS && 0 <= v < max
    ensures |AcceptedWords(max, v)| == WORDS / max
    ensures forall w :: w in AcceptedWords(max, v) ==> 0 <= w < WORDS
  {
    forall w: int
      ensures w in AcceptedWords(max, v) <==> w in Progression(WORDS / max, max, v)
    {
      AcceptedWord(max, v, w);
    }
    assert AcceptedWords(max, v) == Progression(WORDS / max, max, v) by {
      hide AcceptedWords, Progression;
    }
    QuotientPositive(WORDS, max);
    ProgressionSize(WORDS / max, max, v);
    hide Draw;
  }

  /** Rejection sampling is exactly uniform, and accepts more than half of all words. */
  lemma ResiduesEquallyLikely(max: int, v: int)
    requires 1 <= max <= WORDS && 0 <= v < max
    ensures forall w :: w in AcceptedWords(max, v) <==> 0 <= w < WORDS && Draw(max, [w]) == Some((v, []))
    ensures |AcceptedWords(max, v)| == WORDS / max
    ensures forall w: Word {:trigger Draw(max, [w])} :: Draw(max, [w]).Some? <==> w < WORDS - WORDS % max
    ensures WORDS < 2 * (WORDS - WORDS % max)
  {
    hide Draw;
    AcceptedSize(max, v);
    forall w: Word
      ensures Draw(max, [w]).Some? <==> w < WORDS - WORDS % max
    {
      DrawOne(max, w);
    }
    MoreThanHalf(max);
  }

  lemma MoreThanHalf(max: int)
    requires 1 <= max <= WORDS
    ensures WORDS < 2 * (WORDS - WORDS % max)
  {
    assert WORDS == WORDS / max * max + WORDS % max;
    QuotientPositive(WORDS, max);
    MultipleGrows(WORDS / max, max);
  }

  // ---------------------------------------------------------------- draws in a row

  ghost predicate Bounds(bounds: seq<int>) {
    forall i :: 0 <= i < |bounds| ==> 1 <= bounds[i] <= WORDS
  }

  /** One draw below each bound in turn, from one stream. */
  ghost function Taken(bounds: seq<int>, words: seq<Word>): (r: Option<(seq<int>, seq<Word>)>)
    requires Bounds(bounds)
    ensures r.Some? ==> |r.value.0| == |bounds|
  {
    if bounds == [] then Some(([], words))
    else match Draw(bounds[0], words)
      case None => None
      case Some((v, rest)) =>
        match Taken(bounds[1..], rest)
        case None => None
        case Some((vs, left)) => Some(([v] + vs, left))
  }

  lemma NoDraws(words: seq<Word>)
    ensures Taken([], words) == Some(([], words))
  {
  }

  lemma {:induction false} TakenSnoc(bounds: seq<int>, last: int, words: seq<Word>)
    requires Bounds(bounds) && 1 <= last <= WORDS
    ensures Taken(bounds + [last], words) ==
      match Taken(bounds, words)
      case None => None
      case Some((vs, rest)) =>
        match Draw(last, rest)
        case None => None
        case Some((v, left)) => Some((vs + [v], left))
    decreases |bounds|
  {
    hide Draw;
    var all := bounds + [last];
    if bounds == [] {
      assert all[0] == last && all[1..] == [];
      assert Taken([], words) == Some(([], words));
      match Draw(last, words)
      case None =>
      case Some((v, left)) => assert Taken([], left) == Some(([], left)) && [v] + [] == [] + [v];
    } else {
      assert all[0] == bounds[0] && all[1..] == bounds[1..] + [last];
      match Draw(bounds[0], words)
      case None =>
      case Some((v, rest)) =>
        TakenSnoc(bounds[1..], last, rest);
        match Taken(bounds[1..], rest)
        case None =>
        case Some((vs, left)) =>
          match Draw(last, left)
          case None =>
          case Some((u, end)) => assert [v] + (vs + [u]) == [v] + vs + [u];
    }
  }

  /** How many word sequences give one sequence of draws, when no word is rejected. */
  function Ways(bounds: seq<int>): int
    requires Bounds(bounds)
  {
    if bounds == [] then 1 else WORDS / bounds[0] * Ways(bounds[1..])
  }

  /** Those word sequences. */
  ghost function Streams(bounds: seq<int>, draws: seq<int>): set<seq<Word>>
    requires Bounds(bounds) && |draws| == |bounds|
  {
    if bounds == [] then {[]}
    else Prefixed(AcceptedWords(bounds[0], draws[0]), Streams(bounds[1..], draws[1..]))
  }

  ghost function Prefixed(first: set<int>, tails: set<seq<Word>>): set<seq<Word>> {
    set w: int, ws: seq<Word> | w in first && 0 <= w < WORDS && ws in tails :: [w] + ws
  }

  lemma {:induction false} PrefixedSize(first: set<int>, tails: set<seq<Word>>)
    requires forall w :: w in first ==> 0 <= w < WORDS
    ensures |Prefixed(first, tails)| == |first| * |tails|
    decreases |first|
  {
    hide Prefixed;
    if first == {} {
      NothingPrefixed(tails);
    } else {
      var w := Member(first);
      PrefixedSize(first - {w}, tails);
      PrefixedByOne(w, tails);
      PrefixedSplits(first, w, tails);
      assert (|first| - 1) * |tails| + |tails| == |first| * |tails|;
    }
  }

  lemma Member<T>(s: set<T>) returns (x: T)
    requires s != {}
    ensures x in s
  {
    x :| x in s;
  }

  lemma NothingPrefixed(tails: set<seq<Word>>)
    ensures Prefixed({}, tails) == {}
  {
  }

  lemma PrefixedSplits(first: set<int>, w: Word, tails: set<seq<Word>>)
    requires w in first
    ensures |Prefixed(first, tails)| == |Prefixed(first - {w}, tails)| + |Prefixed({w}, tails)|
  {
    var one, others := Prefixed({w}, tails), Prefixed(first - {w}, tails);
    forall ws ensures ws in Prefixed(first, tails) <==> ws in one + others {
      if ws != [] {
        PrefixedMember(first, tails, ws);
        PrefixedMember({w}, tails, ws);
        PrefixedMember(first - {w}, tails, ws);
      }
    }
    assert Prefixed(first, tails) == one + others;
    forall ws | ws in one ensures ws !in others {
      assert ws[0] == w;
    }
    assert one !! others;
  }

  lemma {:induction false} PrefixedByOne(w: Word, tails: set<seq<Word>>)
    ensures |Prefixed({w}, tails)| == |tails|
    decreases |tails|
  {
    hide Prefixed;
    if tails == {} {
      NoTails({w});
    } else {
      var t := Member(tails);
      PrefixedByOne(w, tails - {t});
      OneMore(w, t, tails);
    }
  }

  lemma NoTails(first: set<int>)
    ensures Prefixed(first, {}) == {}
  {
  }

  lemma OneMore(w: Word, t: seq<Word>, tails: set<seq<Word>>)
    requires t in tails
    ensures |Prefixed({w}, tails)| == |Prefixed({w}, tails - {t})| + 1
  {
    var all, others := Prefixed({w}, tails), Prefixed({w}, tails - {t});
    var one := [w] + t;
    assert one[1..] == t;
    PrefixedMember({w}, tails, one);
    PrefixedMember({w}, tails - {t}, one);
    forall ws ensures ws in all <==> ws in others + {one} {
      if ws != [] {
        PrefixedMember({w}, tails, ws);
        PrefixedMember({w}, tails - {t}, ws);
        hide Prefixed;
        assert ws == [ws[0]] + ws[1..];
      }
    }
    hide Prefixed;
    assert all == others + {one};
  }

  lemma {:induction false} StreamsSize(bounds: seq<int>, draws: seq<int>)
    requires Bounds(bounds) && |draws| == |bounds|
    requires forall i :: 0 <= i < |draws| ==> 0 <= draws[i] < bounds[i]
    ensures |Streams(bounds, draws)| == Ways(bounds)
  {
    if bounds != [] {
      hide Draw, AcceptedWords, Prefixed;
      StreamsSize(bounds[1..], draws[1..]);
      AcceptedSize(bounds[0], draws[0]);
      PrefixedSize(AcceptedWords(bounds[0], draws[0]), Streams(bounds[1..], draws[1..]));
    }
  }

  lemma {:induction false} StreamsMembers(bounds: seq<int>, draws: seq<int>, words: seq<Word>)
    requires Bounds(bounds) && |draws| == |bounds|
    ensures words in Streams(bounds, draws) <==> |words| == |bounds| && Taken(bounds, words) == Some((draws, []))
  {
    if bounds == [] {
      assert words in Streams(bounds, draws) <==> words == [];
    } else {
      var tails := Streams(bounds[1..], draws[1..]);
      assert draws == [draws[0]] + draws[1..];
      if |words| > 0 {
        assert words == [words[0]] + words[1..];
        StreamsMembers(bounds[1..], draws[1..], words[1..]);
        DrawOfFirst(bounds[0], words);
        if Taken(bounds, words) == Some((draws, [])) && |words| == |bounds| {
          EnoughWords(bounds, words);
        }
        assert words in Prefixed(AcceptedWords(bounds[0], draws[0]), tails)
          <==> words[0] in AcceptedWords(bounds[0], draws[0]) && words[1..] in tails by {
          PrefixedMember(AcceptedWords(bounds[0], draws[0]), tails, words);
        }
      }
    }
  }

  lemma PrefixedMember(first: set<int>, tails: set<seq<Word>>, words: seq<Word>)
    requires words != []
    ensures words in Prefixed(first, tails) <==> words[0] in first && words[1..] in tails
  {
    assert words == [words[0]] + words[1..];
    if words in Prefixed(first, tails) {
      var w, ws :| w in first && 0 <= w < WORDS && ws in tails && [w] + ws == words;
      assert words[1..] == ws;
    }
  }

  /** An accepted first word decides the draw by itself. */
  lemma DrawOfFirst(max: int, words: seq<Word>)
    requires 1 <= max <= WORDS && words != []
    ensures Draw(max, [words[0]]).Some? ==> Draw(max, words) == Some((Draw(max, [words[0]]).value.0, words[1..]))
    ensures Draw(max, [words[0]]).Some? ==> Draw(max, [words[0]]).value.1 == []
    ensures Draw(max, [words[0]]).None? ==> Draw(max, words) == Draw(max, words[1..])
  {
  }

  /** Each draw uses up a word at least; with as many words as draws none is rejected. */
  lemma {:induction false} WordsUsed(bounds: seq<int>, words: seq<Word>)
    requires Bounds(bounds) && Taken(bounds, words).Some?
    ensures |Taken(bounds, words).value.1| + |bounds| <= |words|
  {
    if bounds != [] {
      var drawn := Draw(bounds[0], words);
      DrawUses(bounds[0], words);
      WordsUsed(bounds[1..], drawn.value.1);
    }
  }

  lemma {:induction false} DrawUses(max: int, words: seq<Word>)
    requires 1 <= max <= WORDS && Draw(max, words).Some?
    ensures |Draw(max, words).value.1| < |words|
    decreases |words|
  {
    if words[0] >= Limit(max) {
      DrawUses(max, words[1..]);
    }
  }

  lemma {:induction false} EnoughWords(bounds: seq<int>, words: seq<Word>)
    requires Bounds(bounds) && bounds != [] && |words| == |bounds| && Taken(bounds, words).Some?
    ensures Draw(bounds[0], [words[0]]).Some?
  {
    if Draw(bounds[0], [words[0]]).None? {
      DrawOfFirst(bounds[0], words);
      DrawUses(bounds[0], words[1..]);
      WordsUsed(bounds[1..], Draw(bounds[0], words).value.1);
    }
  }

  /**
   * Draws in a row are jointly uniform: whatever values below the bounds are asked
   * for, exactly the product of the floors of 2^32 by each bound of the word
   * sequences without a rejected word give them.
   */
  lemma DrawsJointlyUniform(bounds: seq<int>, draws: seq<int>) returns (streams: set<seq<Word>>)
    requires Bounds(bounds) && |draws| == |bounds|
    requires forall i :: 0 <= i < |draws| ==> 0 <= draws[i] < bounds[i]
    ensures forall words :: words in streams <==> |words| == |bounds| && Taken(bounds, words) == Some((draws, []))
    ensures |streams| == Ways(bounds)
  {
    streams := Streams(bounds, draws);
    StreamsSize(bounds, draws);
    forall words: seq<Word>
      ensures words in streams <==> |words| == |bounds| && Taken(bounds, words) == Some((draws, []))
    {
      StreamsMembers(bounds, draws, words);
    }
  }

  // ---------------------------------------------------------------- shuffle

  /** One draw `j` for each `i` from the last index down to 1, with `j` at most `i`. */
  ghost predicate ValidDraws(draws: seq<int>, n: nat) {
    && |draws| == (if n <= 1 then 0 else n - 1)
    && forall k :: 0 <= k < |draws| ==> 0 <= draws[k] <= n - 1 - k
  }

  lemma ValidTail(draws: seq<int>, n: nat)
    requires n >= 2 && ValidDraws(draws, n)
    ensures ValidDraws(draws[1..], n - 1)
  {
  }

  /** What is left to shuffle after the first swap, which moves element `j` to the end. */
  function Rest<T>(s: seq<T>, j: int): (r: seq<T>)
    requires 0 <= j < |s|
    ensures |r| == |s| - 1
  {
    var i := |s| - 1;
    s[j := s[i]][..i]
  }

  /** Fisher-Yates on the draws it made. */
  ghost function Shuffled<T>(s: seq<T>, draws: seq<int>): (r: seq<T>)
    requires ValidDraws(draws, |s|)
    ensures |r| == |s|
    decreases |s|
  {
    if |s| <= 1 then s
    else
      ValidTail(draws, |s|);
      Shuffled(Rest(s, draws[0]), draws[1..]) + [s[draws[0]]]
  }

  /** The draws made for `n` items from the word stream. */
  ghost function Draws(n: nat, words: seq<Word>): (r: Option<(seq<int>, seq<Word>)>)
    requires n <= WORDS
    ensures r.Some? ==> ValidDraws(r.value.0, n)
  {
    if n <= 1 then Some(([], words))
    else match Draw(n, words)
      case None => None
      case Some((j, rest)) =>
        match Draws(n - 1, rest)
        case None => None
        case Some((js, left)) => Some(([j] + js, left))
  }

  /** What comes of `prefix`, still to be shuffled with draws from `stream`, and `tail`, already final. */
  ghost function Outcome<T>(prefix: seq<T>, tail: seq<T>, stream: seq<Word>): Option<(seq<T>, seq<Word>)>
    requires |prefix| <= WORDS
  {
    match Draws(|prefix|, stream)
    case None => None
    case Some((draws, left)) => Some((Shuffled(prefix, draws) + tail, left))
  }

  /** Work in progress that amounts to shuffling `items` with draws from `words`. */
  ghost predicate Amounts<T>(prefix: seq<T>, tail: seq<T>, stream: seq<Word>, items: seq<T>, words: seq<Word>)
    requires |prefix| <= WORDS && |items| <= WORDS
  {
    Outcome(prefix, tail, stream) == Outcome(items, [], words)
  }

  /** One draw and one swap change nothing about the outcome. */
  lemma {:induction false} SwapOutcome<T>(prefix: seq<T>, tail: seq<T>, stream: seq<Word>)
    requires 2 <= |prefix| <= WORDS
    ensures Outcome(prefix, tail, stream) ==
      match Draw(|prefix|, stream)
      case None => None
      case Some((j, rest)) => Outcome(Rest(prefix, j), [prefix[j]] + tail, rest)
  {
    hide Draw, Draws, Shuffled, Rest, ValidDraws;
    DrawsUnfold(|prefix|, stream);
    if Draw(|prefix|, stream).Some? {
      var (j, rest) := Draw(|prefix|, stream).value;
      if Draws(|prefix| - 1, rest).Some? {
        var js := Draws(|prefix| - 1, rest).value.0;
        ShuffledUnfold(prefix, j, js);
        assert (Shuffled(Rest(prefix, j), js) + [prefix[j]]) + tail == Shuffled(Rest(prefix, j), js) + ([prefix[j]] + tail);
      }
    }
  }

  lemma {:induction false} SwapAmounts<T>(prefix: seq<T>, tail: seq<T>, stream: seq<Word>, items: seq<T>, words: seq<Word>)
    requires 2 <= |prefix| <= WORDS && |items| <= WORDS
    requires Amounts(prefix, tail, stream, items, words)
    ensures Draw(|prefix|, stream).None? ==> Draws(|items|, words).None?
    ensures Draw(|prefix|, stream).Some? ==>
      var (j, rest) := Draw(|prefix|, stream).value;
      Amounts(Rest(prefix, j), [prefix[j]] + tail, rest, items, words)
  {
    SwapOutcome(prefix, tail, stream);
    hide Draw, Draws, Shuffled, Rest, ValidDraws;
  }

  lemma DrawsUnfold(n: nat, words: seq<Word>)
    requires 2 <= n <= WORDS
    ensures Draws(n, words) ==
      match Draw(n, words)
      case None => None
      case Some((j, rest)) =>
        match Draws(n - 1, rest)
        case None => None
        case Some((js, left)) => Some(([j] + js, left))
  {
    hide Draw;
  }

  lemma ShuffledUnfold<T>(s: seq<T>, j: int, js: seq<int>)
    requires |s| >= 2 && 0 <= j < |s| && ValidDraws(js, |s| - 1)
    ensures ValidDraws([j] + js, |s|)
    ensures Shuffled(s, [j] + js) == Shuffled(Rest(s, j), js) + [s[j]]
  {
    hide Rest;
    assert ([j] + js)[1..] == js;
  }

  /** The same, for positions 0 to `i` and behind `i` of the whole array contents `s`. */
  ghost predicate AmountsAt<T>(s: seq<T>, i: int, stream: seq<Word>, items: seq<T>, words: seq<Word>)
    requires -1 <= i < |s| <= WORDS && |items| <= WORDS
  {
    Amounts(s[..i + 1], s[i + 1..], stream, items, words)
  }

  method Swap<T>(a: array<T>, i: int, j: int)
    requires 0 <= j <= i < a.Length
    modifies a
    ensures a[..] == old(a[..])[i := old(a[j])][j := old(a[i])]
  {
    a[i], a[j] := a[j], a[i];
  }

  /** The source's loop: swaps in a copy of `items`, from the last position down. */
  method Shuffle<T(0)>(items: seq<T>, words: seq<Word>) returns (r: Option<(seq<T>, seq<Word>)>)
    requires |items| <= WORDS
    ensures Draws(|items|, words).None? ==> r.None?
    ensures Draws(|items|, words).Some? ==>
      var (draws, left) := Draws(|items|, words).value;
      r == Some((Shuffled(items, draws), left))
  {
    hide Draws, Shuffled, Draw, AmountsAt;
    var out := new T[|items|](i requires 0 <= i < |items| => items[i]);
    var stream := words;
    var i := |items| - 1;
    assert out[..] == items;
    StartAmounts(items, words);
    while i > 0
      invariant -1 <= i < |items| && (i < 0 ==> items == [])
      invariant AmountsAt(out[..], i, stream, items, words)
      decreases i
    {
      SwapAmountsAt(out[..], i, stream, items, words);
      var drawn := RandomInt(i + 1, stream);
      if drawn.value.None? {
        return None;
      }
      var (j, rest) := drawn.value.value;
      Swap(out, i, j);
      stream := rest;
      i := i - 1;
    }
    FinishAmounts(out[..], i, stream, items, words);
    return Some((out[..], stream));
  }

  lemma SwapAmountsAt<T>(s: seq<T>, i: nat, stream: seq<Word>, items: seq<T>, words: seq<Word>)
    requires 1 <= i < |s| <= WORDS && |items| <= WORDS
    requires AmountsAt(s, i, stream, items, words)
    ensures Draw(i + 1, stream).None? ==> Draws(|items|, words).None?
    ensures Draw(i + 1, stream).Some? ==>
      var (j, rest) := Draw(i + 1, stream).value;
      AmountsAt(s[i := s[j]][j := s[i]], i - 1, rest, items, words)
  {
    hide Amounts, Draw, Rest;
    SwapAmounts(s[..i + 1], s[i + 1..], stream, items, words);
    if Draw(i + 1, stream).Some? {
      SwapSplits(s, i, Draw(i + 1, stream).value.0);
    }
  }

  lemma SwapSplits<T>(s: seq<T>, i: nat, j: nat)
    requires j <= i < |s|
    ensures s[i := s[j]][j := s[i]][..i] == Rest(s[..i + 1], j)
    ensures s[i := s[j]][j := s[i]][i..] == [s[..i + 1][j]] + s[i + 1..]
  {
  }

  lemma StartAmounts<T>(items: seq<T>, words: seq<Word>)
    requires |items| <= WORDS
    ensures AmountsAt(items, |items| - 1, words, items, words)
  {
    assert items[..|items|] == items && items[|items|..] == [];
    if Draws(|items|, words).Some? {
      var s := Shuffled(items, Draws(|items|, words).value.0);
      assert s + [] == s;
    }
  }

  lemma {:induction false} FinishAmounts<T>(s: seq<T>, i: int, stream: seq<Word>, items: seq<T>, words: seq<Word>)
    requires -1 <= i <= 0 && i < |s| <= WORDS && |items| <= WORDS
    requires AmountsAt(s, i, stream, items, words)
    ensures Draws(|items|, words).Some?
    ensures Draws(|items|, words).value.1 == stream
    ensures Shuffled(items, Draws(|items|, words).value.0) == s
  {
    hide Draws, Shuffled;
    NothingLeft(s[..i + 1], stream);
    assert s[..i + 1] + s[i + 1..] == s;
  }

  lemma NothingLeft<T>(prefix: seq<T>, stream: seq<Word>)
    requires |prefix| <= 1
    ensures Draws(|prefix|, stream) == Some(([], stream))
    ensures Shuffled(prefix, []) == prefix
  {
  }

  // ------------------------------------------------------------ every permutation once

  ghost predicate Distinct<T>(s: seq<T>) {
    forall i, j :: 0 <= i < j < |s| ==> s[i] != s[j]
  }

  /** The first swap takes one element out and keeps the others. */
  lemma RestElements<T>(s: seq<T>, j: int)
    requires 0 <= j < |s|
    ensures multiset(Rest(s, j)) + multiset{s[j]} == multiset(s)
  {
    var i := |s| - 1;
    assert s == s[..i] + [s[i]];
    assert s[j := s[i]] == Rest(s, j) + [s[j := s[i]][i]];
    assert multiset(s[j := s[i]]) == multiset(s)[s[j] := multiset(s)[s[j]] - 1] + multiset{s[i]};
  }

  lemma RestDistinct<T>(s: seq<T>, j: int)
    requires 0 <= j < |s| && Distinct(s)
    ensures Distinct(Rest(s, j))
    ensures s[j] !in Rest(s, j)
  {
  }

  /** Whatever is drawn, the result is a permutation. */
  lemma {:induction false} ShuffledIsPermutation<T>(s: seq<T>, draws: seq<int>)
    requires ValidDraws(draws, |s|)
    ensures multiset(Shuffled(s, draws)) == multiset(s)
    decreases |s|
  {
    if |s| > 1 {
      ValidTail(draws, |s|);
      ShuffledIsPermutation(Rest(s, draws[0]), draws[1..]);
      RestElements(s, draws[0]);
    }
  }

  /** Different draws give different orders. */
  lemma {:induction false} ShuffledInjective<T>(s: seq<T>, d: seq<int>, e: seq<int>)
    requires Distinct(s) && ValidDraws(d, |s|) && ValidDraws(e, |s|)
    requires Shuffled(s, d) == Shuffled(s, e)
    ensures d == e
    decreases |s|
  {
    if |s| > 1 {
      var k := |s| - 1;
      ValidTail(d, |s|);
      ValidTail(e, |s|);
      assert Shuffled(s, d)[k] == s[d[0]] && Shuffled(s, e)[k] == s[e[0]];
      assert d[0] == e[0];
      RestDistinct(s, d[0]);
      assert Shuffled(s, d)[..k] == Shuffled(Rest(s, d[0]), d[1..]);
      assert Shuffled(s, e)[..k] == Shuffled(Rest(s, d[0]), e[1..]);
      ShuffledInjective(Rest(s, d[0]), d[1..], e[1..]);
      assert d == [d[0]] + d[1..] && e == [e[0]] + e[1..];
    }
  }

  lemma CancelOne<T>(a: multiset<T>, b: multiset<T>, x: T)
    requires a + multiset{x} == b + multiset{x}
    ensures a == b
  {
    forall y
      ensures a[y] == b[y]
    {
      assert (a + multiset{x})[y] == (b + multiset{x})[y];
    }
  }

  /** Every order has draws that give it. */
  lemma {:induction false} ShuffledSurjective<T>(s: seq<T>, t: seq<T>) returns (draws: seq<int>)
    requires multiset(t) == multiset(s)
    ensures ValidDraws(draws, |s|) && Shuffled(s, draws) == t
    decreases |s|
  {
    hide Rest;
    assert |t| == |multiset(t)| && |s| == |multiset(s)|;
    if |s| == 0 {
      draws := [];
    } else {
      var k := |s| - 1;
      assert t == t[..k] + [t[k]];
      assert t[k] in multiset(s);
      var j :| 0 <= j < |s| && s[j] == t[k];
      RestElements(s, j);
      CancelOne(multiset(t[..k]), multiset(Rest(s, j)), t[k]);
      if k == 0 {
        draws := [];
      } else {
        var tail := ShuffledSurjective(Rest(s, j), t[..k]);
        draws := [j] + tail;
        assert draws[1..] == tail;
      }
    }
  }

  /** Each permutation of distinct items arises from exactly one sequence of draws. */
  lemma {:induction false} ShuffleExactlyUniform<T>(s: seq<T>, t: seq<T>)
    requires Distinct(s)
    ensures multiset(t) == multiset(s) <==> exists draws :: ValidDraws(draws, |s|) && Shuffled(s, draws) == t
    ensures forall d, e :: ValidDraws(d, |s|) && Shuffled(s, d) == t && ValidDraws(e, |s|) && Shuffled(s, e) == t ==> d == e
  {
    if multiset(t) == multiset(s) {
      var draws := ShuffledSurjective(s, t);
    }
    forall draws | ValidDraws(draws, |s|) && Shuffled(s, draws) == t
      ensures multiset(t) == multiset(s)
    {
      ShuffledIsPermutation(s, draws);
    }
    forall d, e | ValidDraws(d, |s|) && Shuffled(s, d) == t && ValidDraws(e, |s|) && Shuffled(s, e) == t
      ensures d == e
    {
      ShuffledInjective(s, d, e);
    }
  }

  // ------------------------------------------------------------ from words to permutations

  /** The bounds of the draws for `n` items: n, n - 1, ..., 2. */
  function ShuffleBounds(n: nat): (bounds: seq<int>)
    requires n <= WORDS
    ensures Bounds(bounds) && |bounds| == if n <= 1 then 0 else n - 1
    ensures forall i :: 0 <= i < |bounds| ==> bounds[i] == n - i
  {
    if n <= 1 then [] else [n] + ShuffleBounds(n - 1)
  }

  lemma {:induction false} DrawsAreTaken(n: nat, words: seq<Word>)
    requires n <= WORDS
    ensures Draws(n, words) == Taken(ShuffleBounds(n), words)
  {
    hide Draw;
    if n > 1 {
      assert ShuffleBounds(n)[1..] == ShuffleBounds(n - 1);
      match Draw(n, words)
      case None =>
      case Some((_, rest)) => DrawsAreTaken(n - 1, rest);
    }
  }

  /**
   * The shuffle is uniform down to the random words: every permutation of distinct
   * items comes from equally many word sequences, the product of the floors of
   * 2^32 / k for k from 2 to the number of items.
   */
  lemma {:induction false} PermutationsEquallyLikely<T>(items: seq<T>, t: seq<T>) returns (streams: set<seq<Word>>)
    requires |items| <= WORDS && Distinct(items) && multiset(t) == multiset(items)
    ensures forall words :: words in streams <==>
      && |words| == |ShuffleBounds(|items|)|
      && Draws(|items|, words).Some? && Draws(|items|, words).value.1 == []
      && Shuffled(items, Draws(|items|, words).value.0) == t
    ensures |streams| == Ways(ShuffleBounds(|items|))
  {
    var n := |items|;
    var draws := ShuffledSurjective(items, t);
    hide Draws, Shuffled, Taken, Ways, Distinct;
    streams := DrawsJointlyUniform(ShuffleBounds(n), draws);
    forall words: seq<Word>
      ensures words in streams <==>
        && |words| == |ShuffleBounds(n)|
        && Draws(n, words).Some? && Draws(n, words).value.1 == []
        && Shuffled(items, Draws(n, words).value.0) == t
    {
      DrawsAreTaken(n, words);
      if Draws(n, words).Some? && Shuffled(items, Draws(n, words).value.0) == t {
        ShuffledInjective(items, draws, Draws(n, words).value.0);
      }
    }
  }
}
