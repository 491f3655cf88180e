/** `generatePasswordFromOptions` of packages/vault-crypto/src/random.ts. */
module Passwords {
  import opened Bytes
  import opened Random

  const LOWERCASE: string := "abcdefghijklmnopqrstuvwxyz"
  const UPPERCASE: string := "ABCDEFGHIJKLMNOPQRSTUVWXYZ"
  const NUMBERS: string := "0123456789"
  const SPECIAL: string := "!@#$%^&*()_+-=[]{}|;:,.<>?"

  predicate IsAmbiguous(c: char) {
    c == 'I' || c == 'l' || c == '1' || c == 'O' || c == '0'
  }

  datatype PasswordOptions = PasswordOptions(
    length: int,
    includeLower: bool,
    includeUpper: bool,
    includeNumbers: bool,
    includeSpecial: bool,
    excludeAmbiguous: bool)

  datatype PasswordError = NoClassEnabled | TooShort | TooLong | OutOfWords

  function Unambiguous(s: string): (r: string)
    ensures forall c :: c in r <==> c in s && !IsAmbiguous(c)
    ensures |r| <= |s|
  {
    if s == "" then "" else (if IsAmbiguous(s[0]) then "" else [s[0]]) + Unambiguous(s[1..])
  }

  function Filter(s: string, excludeAmbiguous: bool): string {
    if excludeAmbiguous then Unambiguous(s) else s
  }

  /** The enabled classes; special characters are never filtered. */
  function Classes(opts: PasswordOptions): (classes: seq<string>) {
    (if opts.includeLower then [Filter(LOWERCASE, opts.excludeAmbiguous)] else [])
    + (if opts.includeUpper then [Filter(UPPERCASE, opts.excludeAmbiguous)] else [])
    + (if opts.includeNumbers then [Filter(NUMBERS, opts.excludeAmbiguous)] else [])
    + (if opts.includeSpecial then [SPECIAL] else [])
  }

  lemma LowercaseSize()
    ensures |LOWERCASE| == 26 && 'a' in LOWERCASE
  {
    assert LOWERCASE[0] == 'a';
  }

  lemma {:induction false} UppercaseSize()
    ensures |UPPERCASE| == 26 && 'A' in UPPERCASE
  {
    assert UPPERCASE[0] == 'A';
  }

  lemma NumbersSize()
    ensures |NUMBERS| == 10 && '2' in NUMBERS
  {
    assert NUMBERS[2] == '2';
  }

  lemma SpecialSize()
    ensures |SPECIAL| == 26
  {
  }

  /** No filter empties a class, so none of them drops out of the list. */
  lemma {:induction false} ClassesNonEmpty(opts: PasswordOptions)
    ensures forall i :: 0 <= i < |Classes(opts)| ==> 0 < |Classes(opts)[i]| <= 26
  {
    hide LOWERCASE, UPPERCASE, NUMBERS, SPECIAL, Unambiguous;
    LowercaseSize();
    UppercaseSize();
    NumbersSize();
    SpecialSize();
    assert 'a' in Filter(LOWERCASE, opts.excludeAmbiguous);
    assert 'A' in Filter(UPPERCASE, opts.excludeAmbiguous);
    assert '2' in Filter(NUMBERS, opts.excludeAmbiguous);
  }

  /** `classes.join('')`. */
  function Join(classes: seq<string>): (r: string) {
    if classes == [] then "" else classes[0] + Join(classes[1..])
  }

  lemma {:induction false} JoinHas(classes: seq<string>, c: char)
    ensures c in Join(classes) <==> exists i :: 0 <= i < |classes| && c in classes[i]
  {
    if classes != [] {
      JoinHas(classes[1..], c);
      if exists i :: 0 <= i < |classes| && c in classes[i] {
        var i :| 0 <= i < |classes| && c in classes[i];
        assert i > 0 ==> c in classes[1..][i - 1];
      }
      if c in Join(classes[1..]) {
        var i :| 0 <= i < |classes[1..]| && c in classes[1..][i];
        assert c in classes[i + 1];
      }
    }
  }

  lemma {:induction false} JoinSize(classes: seq<string>)
    requires forall i :: 0 <= i < |classes| ==> |classes[i]| <= 26
    ensures |Join(classes)| <= 26 * |classes|
  {
    if classes != [] {
      JoinSize(classes[1..]);
    }
  }

  ghost predicate Has(s: seq<char>, cls: string) {
    exists k :: 0 <= k < |s| && s[k] in cls
  }

  /** Long enough, every class represented, and nothing outside the enabled classes. */
  ghost predicate Satisfies(password: string, opts: PasswordOptions) {
    && |password| == opts.length
    && (forall i :: 0 <= i < |Classes(opts)| ==> Has(password, Classes(opts)[i]))
    && (forall k :: 0 <= k < |password| ==> password[k] in Join(Classes(opts)))
  }

  /** `randomChoice` of a non-empty string. */
  method RandomChoice(items: string, words: seq<Word>) returns (r: Option<(char, seq<Word>)>)
    requires 0 < |items| <= WORDS
    ensures r.None? <==> Draw(|items|, words).None?
    ensures r.Some? ==> r.value.0 == items[Draw(|items|, words).value.0] && r.value.1 == Draw(|items|, words).value.1
  {
    var drawn := RandomInt(|items|, words);
    if drawn.value.None? {
      return None;
    }
    var (k, rest) := drawn.value.value;
    return Some((items[k], rest));
  }

  ghost predicate Covers(chars: seq<char>, classes: seq<string>, n: nat)
    requires n <= |classes|
  {
    forall i :: 0 <= i < n ==> Has(chars, classes[i])
  }

  lemma HasMore(chars: seq<char>, c: char, cls: string)
    requires Has(chars, cls) || c in cls
    ensures Has(chars + [c], cls)
  {
    if Has(chars, cls) {
      var k :| 0 <= k < |chars| && chars[k] in cls;
      assert (chars + [c])[k] in cls;
    } else {
      assert (chars + [c])[|chars|] in cls;
    }
  }

  lemma CoversMore(chars: seq<char>, c: char, classes: seq<string>, n: nat)
    requires n <= |classes| && Covers(chars, classes, n)
    ensures Covers(chars + [c], classes, n)
    ensures n < |classes| && c in classes[n] ==> Covers(chars + [c], classes, n + 1)
  {
    hide Has;
    forall i | 0 <= i < |classes| && (i < n || (i == n && c in classes[n]))
      ensures Has(chars + [c], classes[i])
    {
      HasMore(chars, c, classes[i]);
    }
  }

  lemma CoversPermuted(a: seq<char>, b: seq<char>, classes: seq<string>)
    requires multiset(a) == multiset(b)
    requires Covers(a, classes, |classes|)
    ensures Covers(b, classes, |classes|)
  {
    forall i | 0 <= i < |classes|
      ensures Has(b, classes[i])
    {
      assert Has(a, classes[i]);
      var k :| 0 <= k < |a| && a[k] in classes[i];
      assert a[k] in multiset(b);
      var m :| 0 <= m < |b| && b[m] == a[k];
    }
  }

  lemma MembersPermuted(a: seq<char>, b: seq<char>, charset: string)
    requires multiset(a) == multiset(b)
    requires forall k :: 0 <= k < |a| ==> a[k] in charset
    ensures |a| == |b|
    ensures forall k :: 0 <= k < |b| ==> b[k] in charset
  {
    assert |a| == |multiset(a)| && |b| == |multiset(b)|;
    forall k | 0 <= k < |b|
      ensures b[k] in charset
    {
      assert b[k] in multiset(a);
      assert b[k] in a;
    }
  }

  ghost predicate Usable(sources: seq<string>) {
    forall i :: 0 <= i < |sources| ==> 0 < |sources[i]| <= WORDS
  }

  /** One character drawn from each source in turn. */
  ghost function Picks(sources: seq<string>, words: seq<Word>): (r: Option<(seq<char>, seq<Word>)>)
    requires Usable(sources)
    ensures r.Some? ==> |r.value.0| == |sources|
  {
    if sources == [] then Some(([], words))
    else
      var last := sources[|sources| - 1];
      match Picks(sources[..|sources| - 1], words)
      case None => None
      case Some((chars, stream)) =>
        match Draw(|last|, stream)
        case None => None
        case Some((k, rest)) => Some((chars + [last[k]], rest))
  }

  lemma {:induction false} PicksPrefix(sources: seq<string>, n: nat, words: seq<Word>)
    requires Usable(sources) && n <= |sources|
    requires Picks(sources[..n], words).None?
    ensures Picks(sources, words).None?
    decreases |sources|
  {
    if n == |sources| {
      assert sources[..n] == sources;
    } else {
      var front := sources[..|sources| - 1];
      assert front[..n] == sources[..n];
      PicksPrefix(front, n, words);
    }
  }

  /** One source per guaranteed class, then the union of all classes up to the length. */
  ghost function Sources(opts: PasswordOptions): (sources: seq<string>)
    requires opts.length >= |Classes(opts)|
    ensures |sources| == opts.length
  {
    Classes(opts) + seq(opts.length - |Classes(opts)|, _ => Join(Classes(opts)))
  }

  lemma SourcesUsable(opts: PasswordOptions)
    requires Classes(opts) != [] && opts.length >= |Classes(opts)|
    ensures Usable(Sources(opts))
  {
    hide Classes;
    ClassesNonEmpty(opts);
    assert |Classes(opts)| <= 4 by {
      AtMostFour(opts);
    }
    CharsetUsable(Classes(opts));
  }

  lemma AtMostFour(opts: PasswordOptions)
    ensures |Classes(opts)| <= 4
  {
  }

  /** What the generator returns for a stream of words, when the options can be met. */
  ghost function Generated(opts: PasswordOptions, words: seq<Word>): Result<string, PasswordError>
    requires Classes(opts) != [] && opts.length >= |Classes(opts)|
  {
    SourcesUsable(opts);
    match Picks(Sources(opts), words)
    case None => Err(OutOfWords)
    case Some((chars, stream)) =>
      if opts.length > WORDS then Err(TooLong)
      else match Draws(|chars|, stream)
        case None => Err(OutOfWords)
        case Some((draws, _)) => Ok(Shuffled(chars, draws))
  }

  /** One guaranteed character per class, the rest from their union, and then a shuffle of them all. */
  method GeneratePassword(opts: PasswordOptions, words: seq<Word>) returns (r: Result<string, PasswordError>)
    ensures Classes(opts) == [] ==> r == Err(NoClassEnabled)
    ensures Classes(opts) != [] && opts.length < |Classes(opts)| ==> r == Err(TooShort)
    ensures Classes(opts) != [] && opts.length >= |Classes(opts)| ==> r == Generated(opts, words)
    ensures r.Ok? ==> Satisfies(r.value, opts)
  {
    hide Filter, Join, Draw, Draws, Shuffled, Covers, Usable, Satisfies;
    var classes := Classes(opts);
    if classes == [] {
      return Err(NoClassEnabled);
    }
    if opts.length < |classes| {
      return Err(TooShort);
    }
    ghost var sources := Sources(opts);
    SourcesUsable(opts);
    var charset := Join(classes);
    var chars: seq<char> := [];
    var stream := words;
    StartPicks(classes, sources, words);
    while |chars| < |classes|
      invariant |chars| <= |classes|
      invariant Progress(chars, stream, classes, charset, sources, words)
    {
      Choosable(classes, charset, sources, |chars|);
      var picked := RandomChoice(classes[|chars|], stream);
      PickOne(chars, stream, classes, charset, sources, words);
      if picked.None? {
        return Err(OutOfWords);
      }
      chars := chars + [picked.value.0];
      stream := picked.value.1;
    }
    while |chars| < opts.length
      invariant |classes| <= |chars| <= opts.length
      invariant Progress(chars, stream, classes, charset, sources, words)
    {
      Choosable(classes, charset, sources, |chars|);
      var picked := RandomChoice(charset, stream);
      PickOne(chars, stream, classes, charset, sources, words);
      if picked.None? {
        return Err(OutOfWords);
      }
      chars := chars + [picked.value.0];
      stream := picked.value.1;
    }
    AllPicked(chars, stream, classes, charset, sources, words);
    if |chars| > WORDS {
      // `randomInt` refuses a bound above 2^32.
      return Err(TooLong);
    }
    var shuffled := Shuffle(chars, stream);
    if shuffled.None? {
      return Err(OutOfWords);
    }
    var password := shuffled.value.0;
    ShuffledIsPermutation(chars, Draws(|chars|, stream).value.0);
    CoversPermuted(chars, password, classes);
    MembersPermuted(chars, password, charset);
    SatisfiedBy(password, opts);
    return Ok(password);
  }

  ghost predicate SourcesOf(classes: seq<string>, charset: string, sources: seq<string>) {
    && charset == Join(classes)
    && Usable(sources)
    && |classes| <= |sources|
    && forall i :: 0 <= i < |sources| ==> sources[i] == if i < |classes| then classes[i] else charset
  }

  /** The characters drawn so far cover the classes whose turn has come. */
  ghost predicate Progress(chars: seq<char>, stream: seq<Word>, classes: seq<string>, charset: string,
                           sources: seq<string>, words: seq<Word>)
  {
    && SourcesOf(classes, charset, sources)
    && |chars| <= |sources|
    && UsablePrefix(sources, |chars|)
    && Picks(sources[..|chars|], words) == Some((chars, stream))
    && Covers(chars, classes, if |chars| < |classes| then |chars| else |classes|)
    && forall k :: 0 <= k < |chars| ==> chars[k] in charset
  }

  ghost predicate UsablePrefix(sources: seq<string>, n: nat)
    requires n <= |sources|
  {
    Usable(sources[..n])
  }

  lemma StartPicks(classes: seq<string>, sources: seq<string>, words: seq<Word>)
    requires SourcesOf(classes, Join(classes), sources)
    ensures Progress([], words, classes, Join(classes), sources, words)
  {
  }

  lemma Choosable(classes: seq<string>, charset: string, sources: seq<string>, n: nat)
    requires SourcesOf(classes, charset, sources) && n < |sources|
    ensures 0 < |sources[n]| <= WORDS
    ensures sources[n] == if n < |classes| then classes[n] else charset
  {
  }

  lemma PickOne(chars: seq<char>, stream: seq<Word>, classes: seq<string>, charset: string,
                sources: seq<string>, words: seq<Word>)
    requires Progress(chars, stream, classes, charset, sources, words) && |chars| < |sources|
    ensures 0 < |sources[|chars|]| <= WORDS
    ensures Draw(|sources[|chars|]|, stream).None? ==> Picks(sources, words).None?
    ensures Draw(|sources[|chars|]|, stream).Some? ==>
      var (k, rest) := Draw(|sources[|chars|]|, stream).value;
      Progress(chars + [sources[|chars|][k]], rest, classes, charset, sources, words)
  {
    hide Draw, Covers, Join;
    var n := |chars|;
    var next := sources[..n + 1];
    assert next[..n] == sources[..n];
    assert Usable(next);
    if Draw(|sources[n]|, stream).None? {
      PicksPrefix(sources, n + 1, words);
    } else {
      var c := sources[n][Draw(|sources[n]|, stream).value.0];
      assert c in sources[n];
      JoinHas(classes, c);
      CoversMore(chars, c, classes, if n < |classes| then n else |classes|);
    }
  }

  lemma {:induction false} AllPicked(chars: seq<char>, stream: seq<Word>, classes: seq<string>, charset: string,
                  sources: seq<string>, words: seq<Word>)
    requires Progress(chars, stream, classes, charset, sources, words) && |chars| == |sources|
    ensures Usable(sources) && Picks(sources, words) == Some((chars, stream))
    ensures Covers(chars, classes, |classes|)
    ensures forall k :: 0 <= k < |chars| ==> chars[k] in charset
  {
    assert sources[..|chars|] == sources;
  }

  lemma CharsetUsable(classes: seq<string>)
    requires 0 < |classes| <= 4
    requires forall i :: 0 <= i < |classes| ==> 0 < |classes[i]| <= 26
    ensures 0 < |Join(classes)| <= WORDS
  {
    JoinSize(classes);
    var c := classes[0][0];
    JoinHas(classes, c);
    assert c in classes[0];
    assert c in Join(classes);
  }

  lemma SatisfiedBy(password: string, opts: PasswordOptions)
    requires |password| == opts.length
    requires Covers(password, Classes(opts), |Classes(opts)|)
    requires forall k :: 0 <= k < |password| ==> password[k] in Join(Classes(opts))
    ensures Satisfies(password, opts)
  {
  }

  // ---------------------------------------------------------------- what a password holds

  lemma LowercaseIs(c: char)
    ensures c in LOWERCASE <==> 'a' <= c <= 'z'
  {
    if 'a' <= c <= 'z' {
      assert LOWERCASE[c as int - 'a' as int] == c;
    }
  }

  lemma UppercaseIs(c: char)
    ensures c in UPPERCASE <==> 'A' <= c <= 'Z'
  {
    if 'A' <= c <= 'Z' {
      assert UPPERCASE[c as int - 'A' as int] == c;
    }
  }

  lemma NumbersIs(c: char)
    ensures c in NUMBERS <==> '0' <= c <= '9'
  {
    if '0' <= c <= '9' {
      assert NUMBERS[c as int - '0' as int] == c;
    }
  }

  lemma SpecialIs(c: char)
    requires c in SPECIAL
    ensures !('a' <= c <= 'z') && !('A' <= c <= 'Z') && !('0' <= c <= '9')
  {
  }

  predicate Filtered(c: char, opts: PasswordOptions) {
    opts.excludeAmbiguous && c in "Il1O0"
  }

  /** The characters a password may hold. */
  lemma CharsetIs(opts: PasswordOptions, c: char)
    ensures c in Join(Classes(opts)) <==>
      || (opts.includeLower && 'a' <= c <= 'z' && !Filtered(c, opts))
      || (opts.includeUpper && 'A' <= c <= 'Z' && !Filtered(c, opts))
      || (opts.includeNumbers && '0' <= c <= '9' && !Filtered(c, opts))
      || (opts.includeSpecial && c in SPECIAL)
  {
    LowercaseIs(c);
    UppercaseIs(c);
    NumbersIs(c);
    hide LOWERCASE, UPPERCASE, NUMBERS, SPECIAL, Unambiguous, Join;
    JoinHas(Classes(opts), c);
    ClassAt(opts);
    assert IsAmbiguous(c) <==> c in "Il1O0";
    var f := opts.excludeAmbiguous;
    if i :| 0 <= i < |Classes(opts)| && c in Classes(opts)[i] {
      assert Classes(opts)[i] in [Filter(LOWERCASE, f), Filter(UPPERCASE, f), Filter(NUMBERS, f), SPECIAL];
    }
  }

  /** Where each enabled class stands in the list. */
  lemma ClassAt(opts: PasswordOptions)
    ensures opts.includeLower ==> exists i :: 0 <= i < |Classes(opts)| && Classes(opts)[i] == Filter(LOWERCASE, opts.excludeAmbiguous)
    ensures opts.includeUpper ==> exists i :: 0 <= i < |Classes(opts)| && Classes(opts)[i] == Filter(UPPERCASE, opts.excludeAmbiguous)
    ensures opts.includeNumbers ==> exists i :: 0 <= i < |Classes(opts)| && Classes(opts)[i] == Filter(NUMBERS, opts.excludeAmbiguous)
    ensures opts.includeSpecial ==> exists i :: 0 <= i < |Classes(opts)| && Classes(opts)[i] == SPECIAL
    ensures |Classes(opts)| == Enabled(opts)
  {
    hide LOWERCASE, UPPERCASE, NUMBERS, SPECIAL, Unambiguous, Filter;
    var lower := if opts.includeLower then 1 else 0;
    var upper := lower + if opts.includeUpper then 1 else 0;
    var numbers := upper + if opts.includeNumbers then 1 else 0;
    assert opts.includeLower ==> Classes(opts)[0] == Filter(LOWERCASE, opts.excludeAmbiguous);
    assert opts.includeUpper ==> Classes(opts)[lower] == Filter(UPPERCASE, opts.excludeAmbiguous);
    assert opts.includeNumbers ==> Classes(opts)[upper] == Filter(NUMBERS, opts.excludeAmbiguous);
    assert opts.includeSpecial ==> Classes(opts)[numbers] == SPECIAL;
  }

  /** How many classes the options enable. */
  function Enabled(opts: PasswordOptions): nat {
    (if opts.includeLower then 1 else 0) + (if opts.includeUpper then 1 else 0)
    + (if opts.includeNumbers then 1 else 0) + (if opts.includeSpecial then 1 else 0)
  }

  lemma HasUsable(p: string, opts: PasswordOptions, cls: string)
    requires Satisfies(p, opts)
    requires exists i :: 0 <= i < |Classes(opts)| && Classes(opts)[i] == cls
    ensures exists k :: 0 <= k < |p| && p[k] in cls
  {
    hide Classes, Join;
    var i :| 0 <= i < |Classes(opts)| && Classes(opts)[i] == cls;
    assert Has(p, Classes(opts)[i]);
  }

  /** A password holds a character of each kind exactly when the kind is enabled, and no excluded one. */
  lemma {:induction false} HoldsWhatIsEnabled(p: string, opts: PasswordOptions)
    requires Satisfies(p, opts)
    ensures |p| == opts.length
    ensures opts.includeLower <==> exists k :: 0 <= k < |p| && 'a' <= p[k] <= 'z'
    ensures opts.includeUpper <==> exists k :: 0 <= k < |p| && 'A' <= p[k] <= 'Z'
    ensures opts.includeNumbers <==> exists k :: 0 <= k < |p| && '0' <= p[k] <= '9'
    ensures opts.includeSpecial <==> exists k :: 0 <= k < |p| && p[k] in SPECIAL
    ensures opts.excludeAmbiguous ==> forall k :: 0 <= k < |p| ==> p[k] !in "Il1O0"
  {
    ClassAt(opts);
    forall k | 0 <= k < |p|
      ensures 'a' <= p[k] <= 'z' ==> opts.includeLower
      ensures 'A' <= p[k] <= 'Z' ==> opts.includeUpper
      ensures '0' <= p[k] <= '9' ==> opts.includeNumbers
      ensures p[k] in SPECIAL ==> opts.includeSpecial
      ensures opts.excludeAmbiguous ==> p[k] !in "Il1O0"
    {
      CharsetIs(opts, p[k]);
      if p[k] in SPECIAL {
        SpecialIs(p[k]);
      }
      NotAmbiguousSpecial(p[k]);
      hide LOWERCASE, UPPERCASE, NUMBERS, SPECIAL, Classes, Join;
    }
    EachKindIsHeld(p, opts);
    hide *;
  }

  lemma NotAmbiguousSpecial(c: char)
    ensures c in SPECIAL ==> c !in "Il1O0"
  {
    if c in SPECIAL {
      SpecialIs(c);
      hide SPECIAL;
    }
  }

  lemma {:induction false} EachKindIsHeld(p: string, opts: PasswordOptions)
    requires Satisfies(p, opts)
    ensures opts.includeLower ==> exists k :: 0 <= k < |p| && 'a' <= p[k] <= 'z'
    ensures opts.includeUpper ==> exists k :: 0 <= k < |p| && 'A' <= p[k] <= 'Z'
    ensures opts.includeNumbers ==> exists k :: 0 <= k < |p| && '0' <= p[k] <= '9'
    ensures opts.includeSpecial ==> exists k :: 0 <= k < |p| && p[k] in SPECIAL
  {
    hide LOWERCASE, UPPERCASE, NUMBERS, SPECIAL, Unambiguous, Classes, Satisfies;
    ClassAt(opts);
    var f := opts.excludeAmbiguous;
    if opts.includeLower {
      HasUsable(p, opts, Filter(LOWERCASE, f));
      var k :| 0 <= k < |p| && p[k] in Filter(LOWERCASE, f);
      LowercaseIs(p[k]);
    }
    if opts.includeUpper {
      HasUsable(p, opts, Filter(UPPERCASE, f));
      var k :| 0 <= k < |p| && p[k] in Filter(UPPERCASE, f);
      UppercaseIs(p[k]);
    }
    if opts.includeNumbers {
      HasUsable(p, opts, Filter(NUMBERS, f));
      var k :| 0 <= k < |p| && p[k] in Filter(NUMBERS, f);
      NumbersIs(p[k]);
    }
    if opts.includeSpecial {
      HasUsable(p, opts, SPECIAL);
    }
  }

  // ---------------------------------------------------------------- the draws behind it

  function Sizes(sources: seq<string>): seq<int> {
    seq(|sources|, i requires 0 <= i < |sources| => |sources[i]|)
  }

  /**
   * The characters before the shuffle are draws in a row from one stream, one below
   * the size of each source: no word serves two characters.
   */
  lemma {:induction false} PicksAreDraws(sources: seq<string>, words: seq<Word>)
    requires Usable(sources)
    ensures Bounds(Sizes(sources))
    ensures Picks(sources, words).Some? <==> Taken(Sizes(sources), words).Some?
    ensures Picks(sources, words).Some? ==>
      var (chars, left), (draws, rest) := Picks(sources, words).value, Taken(Sizes(sources), words).value;
      left == rest && forall i :: 0 <= i < |sources| ==> 0 <= draws[i] < |sources[i]| && chars[i] == sources[i][draws[i]]
  {
    hide Draw, Taken;
    if sources == [] {
      assert Taken([], words) == Some(([], words)) by {
        NoDraws(words);
      }
      assert Sizes(sources) == [];
    } else {
      var k := |sources| - 1;
      var front := sources[..k];
      PicksAreDraws(front, words);
      assert Sizes(sources) == Sizes(front) + [|sources[k]|];
      TakenSnoc(Sizes(front), |sources[k]|, words);
    }
  }
}
