/**
 * Login challenges across replicas: the steps of `GenerateNostrChallengePublic`
 * and `AuthenticateWithNostr` (backend/internal/auth/nostr.go) over the stores of
 * backend/internal/auth/challenge_store.go, in any interleaving.
 *
 * A login is three steps - look the challenge up, check it, delete it - and any
 * number of logins may stand between two of them. One clock, in seconds, that
 * never decreases times every step. Signature and event checks are the
 * `verified` answer of the check step.
 */
module Challenges {
  import opened Bytes
  import opened Ascii

  type Id = nat
  type LoginId = nat
  type Time = int

  const LIFETIME: int := 600
  const HOUR: int := 3600

  datatype Challenge = Challenge(id: Id, value: string, pubkey: string, expiresAt: Time)

  /** Where a login attempt stands. */
  datatype Attempt =
    | Found(challenge: Challenge, pubkey: string)
    | Passed(challenge: Challenge, pubkey: string, verified: bool, checkedAt: Time)
    | Dropping(challenge: Challenge)
    | Ended

  /** An admitted login: what its check answered and when, and when its delete and the last prune before that were. */
  datatype Login = Login(login: LoginId, challenge: Challenge, pubkey: string, verified: bool, checkedAt: Time,
                         consumedAt: Time, prunedTo: Time)

  datatype State = State(
    store: map<Id, Challenge>,
    attempts: map<LoginId, Attempt>,
    issued: map<Id, Challenge>,
    logins: seq<Login>,
    clock: Time,
    prunedTo: Time)

  datatype Event =
    | Issue(id: Id, value: string, pubkey: string, now: Time)
    | Prune(now: Time)
    | Lookup(login: LoginId, value: string, pubkey: string, now: Time)
    | Check(login: LoginId, verified: bool, now: Time)
    | Consume(login: LoginId, now: Time)

  function Start(now: Time): State {
    State(map[], map[], map[], [], now, now)
  }

  // ---------------------------------------------------------------- steps

  predicate ValidPubkey(pubkey: string) {
    |pubkey| == 64 && HexDecode(pubkey).Some?
  }

  /** The row a `value` finds. */
  ghost function Find(store: map<Id, Challenge>, value: string): Option<Challenge> {
    if exists id :: id in store && store[id].value == value then
      var id :| id in store && store[id].value == value;
      Some(store[id])
    else None
  }

  /** Ids and values are drawn at random; a draw that repeats one does not happen. */
  predicate FreshDraw(issued: map<Id, Challenge>, id: Id, value: string) {
    id !in issued && forall k :: k in issued ==> issued[k].value != value
  }

  function Stale(c: Challenge, now: Time): bool {
    c.expiresAt < now - HOUR
  }

  function PruneRows(store: map<Id, Challenge>, now: Time): map<Id, Challenge> {
    map id | id in store && !Stale(store[id], now) :: store[id]
  }

  /** The check of a found challenge: expiry first, then the public key, then the event. */
  function Checked(a: Attempt, verified: bool, now: Time): Attempt
    requires a.Found?
  {
    if now > a.challenge.expiresAt then Dropping(a.challenge)
    else if a.challenge.pubkey != a.pubkey || !verified then Ended
    else Passed(a.challenge, a.pubkey, verified, now)
  }

  function AfterIssue(s: State, id: Id, value: string, pubkey: string, now: Time): State {
    if !ValidPubkey(pubkey) || !FreshDraw(s.issued, id, value) then s
    else
      var c := Challenge(id, value, pubkey, now + LIFETIME);
      s.(store := s.store[id := c], issued := s.issued[id := c])
  }

  ghost function AfterLookup(s: State, login: LoginId, value: string, pubkey: string): State {
    if login in s.attempts then s
    else
      var found := Find(s.store, value);
      s.(attempts := s.attempts[login := if found.Some? then Found(found.value, pubkey) else Ended])
  }

  function AfterCheck(s: State, login: LoginId, verified: bool, now: Time): State {
    if login !in s.attempts || !s.attempts[login].Found? then s
    else s.(attempts := s.attempts[login := Checked(s.attempts[login], verified, now)])
  }

  /** The delete: the attempt is admitted when it passed its checks and its delete removed the row. */
  function AfterConsume(s: State, login: LoginId, now: Time): State {
    if login !in s.attempts then s
    else match s.attempts[login]
      case Passed(c, pubkey, verified, checkedAt) =>
        s.(store := s.store - {c.id},
           attempts := s.attempts[login := Ended],
           logins := s.logins + if c.id in s.store
                                then [Login(login, c, pubkey, verified, checkedAt, now, s.prunedTo)] else [])
      case Dropping(c) => s.(store := s.store - {c.id}, attempts := s.attempts[login := Ended])
      case _ => s
  }

  /** One step; `pruning` says whether prunes delete rows, as Postgres does and the memory store does not. */
  ghost function Step(before: State, e: Event, pruning: bool): State {
    var s := before.(clock := e.now);
    match e
    case Issue(id, value, pubkey, now) => AfterIssue(s, id, value, pubkey, now)
    case Prune(now) => s.(store := if pruning then PruneRows(s.store, now) else s.store, prunedTo := now)
    case Lookup(login, value, pubkey, _) => AfterLookup(s, login, value, pubkey)
    case Check(login, verified, now) => AfterCheck(s, login, verified, now)
    case Consume(login, now) => AfterConsume(s, login, now)
  }

  ghost function Run(s: State, events: seq<Event>, pruning: bool): State
    decreases |events|
  {
    if events == [] then s else Run(Step(s, events[0], pruning), events[1..], pruning)
  }

  ghost predicate Timed(events: seq<Event>, start: Time) {
    && (forall i :: 0 <= i < |events| ==> start <= events[i].now)
    && (forall i, j :: 0 <= i < j < |events| ==> events[i].now <= events[j].now)
  }

  // ---------------------------------------------------------------- single use

  type Rows = map<Id, Challenge>

  ghost predicate Holds(issued: Rows, c: Challenge) {
    c.id in issued && issued[c.id] == c
  }

  ghost predicate AttemptOk(issued: Rows, a: Attempt) {
    match a
    case Found(c, _) => Holds(issued, c)
    case Passed(c, pubkey, verified, at) => Holds(issued, c) && c.pubkey == pubkey && verified && at <= c.expiresAt
    case Dropping(c) => Holds(issued, c)
    case Ended => true
  }

  ghost predicate LoginOk(issued: Rows, l: Login) {
    Holds(issued, l.challenge) && l.pubkey == l.challenge.pubkey && l.verified && l.checkedAt <= l.challenge.expiresAt
  }

  ghost predicate SingleUse(logins: seq<Login>) {
    forall i, j :: 0 <= i < j < |logins| ==> logins[i].challenge.id != logins[j].challenge.id
  }

  ghost predicate IssuedOk(issued: Rows) {
    && (forall id :: id in issued ==> issued[id].id == id)
    && (forall id, k :: id in issued && k in issued && issued[id].value == issued[k].value ==> id == k)
  }

  ghost predicate StoreOk(store: Rows, issued: Rows) {
    forall id :: id in store ==> id in issued && store[id] == issued[id]
  }

  ghost predicate AttemptsOk(attempts: map<LoginId, Attempt>, issued: Rows) {
    forall r :: r in attempts ==> AttemptOk(issued, attempts[r])
  }

  ghost predicate LoginsOk(logins: seq<Login>, issued: Rows, store: Rows) {
    && SingleUse(logins)
    && forall i :: 0 <= i < |logins| ==> LoginOk(issued, logins[i]) && logins[i].challenge.id !in store
  }

  ghost predicate Invariant(s: State) {
    && IssuedOk(s.issued)
    && StoreOk(s.store, s.issued)
    && AttemptsOk(s.attempts, s.issued)
    && LoginsOk(s.logins, s.issued, s.store)
  }

  lemma IssuedGrows(s: State, c: Challenge)
    requires c.id !in s.issued
    requires AttemptsOk(s.attempts, s.issued) && LoginsOk(s.logins, s.issued, s.store)
    ensures AttemptsOk(s.attempts, s.issued[c.id := c]) && LoginsOk(s.logins, s.issued[c.id := c], s.store[c.id := c])
  {
    forall r | r in s.attempts ensures AttemptOk(s.issued[c.id := c], s.attempts[r]) {
      assert AttemptOk(s.issued, s.attempts[r]);
    }
  }

  lemma {:induction false} IssueKeepsInvariant(s: State, id: Id, value: string, pubkey: string, now: Time)
    requires Invariant(s)
    ensures Invariant(AfterIssue(s, id, value, pubkey, now))
  {
    hide ValidPubkey, AttemptsOk, LoginsOk;
    if ValidPubkey(pubkey) && FreshDraw(s.issued, id, value) {
      IssuedGrows(s, Challenge(id, value, pubkey, now + LIFETIME));
    }
  }

  lemma ConsumeKeepsInvariant(s: State, login: LoginId, now: Time)
    requires Invariant(s)
    ensures Invariant(AfterConsume(s, login, now))
  {
  }

  lemma LookupKeepsInvariant(s: State, login: LoginId, value: string, pubkey: string)
    requires Invariant(s)
    ensures Invariant(AfterLookup(s, login, value, pubkey))
  {
    hide LoginsOk;
  }

  lemma CheckKeepsInvariant(s: State, login: LoginId, verified: bool, now: Time)
    requires Invariant(s)
    ensures Invariant(AfterCheck(s, login, verified, now))
  {
    hide IssuedOk, LoginsOk, StoreOk;
  }

  lemma PruneKeepsInvariant(s: State, store: Rows, now: Time)
    requires Invariant(s) && store in {s.store, PruneRows(s.store, now)}
    ensures Invariant(s.(store := store, prunedTo := now))
  {
    hide IssuedOk, AttemptsOk, Stale;
  }

  lemma StepKeepsInvariant(before: State, e: Event, pruning: bool)
    requires Invariant(before)
    ensures Invariant(Step(before, e, pruning))
  {
    hide IssuedOk, StoreOk, AttemptsOk, LoginsOk, AfterIssue, AfterLookup, AfterCheck, AfterConsume, PruneRows;
    var s := before.(clock := e.now);
    match e
    case Issue(id, value, pubkey, now) => IssueKeepsInvariant(s, id, value, pubkey, now);
    case Prune(now) => PruneKeepsInvariant(s, if pruning then PruneRows(s.store, now) else s.store, now);
    case Lookup(login, value, pubkey, _) => LookupKeepsInvariant(s, login, value, pubkey);
    case Check(login, verified, now) => CheckKeepsInvariant(s, login, verified, now);
    case Consume(login, now) => ConsumeKeepsInvariant(s, login, now);
  }

  lemma {:induction false} RunKeepsInvariant(s: State, events: seq<Event>, pruning: bool)
    requires Invariant(s)
    ensures Invariant(Run(s, events, pruning))
    decreases |events|
  {
    if events != [] {
      StepKeepsInvariant(s, events[0], pruning);
      RunKeepsInvariant(Step(s, events[0], pruning), events[1..], pruning);
    }
  }

  /**
   * In every interleaving, with either store: no challenge admits two logins, and a
   * login's challenge was issued for its public key and unexpired when checked, and
   * the check verified its event.
   */
  lemma ChallengesAreSingleUse(now: Time, events: seq<Event>, pruning: bool)
    ensures var s := Run(Start(now), events, pruning);
      && (forall i, j :: 0 <= i < j < |s.logins| ==> s.logins[i].challenge.id != s.logins[j].challenge.id)
      && forall i :: 0 <= i < |s.logins| ==>
           && s.logins[i].challenge.id in s.issued
           && s.issued[s.logins[i].challenge.id] == s.logins[i].challenge
           && s.logins[i].pubkey == s.logins[i].challenge.pubkey
           && s.logins[i].verified
           && s.logins[i].checkedAt <= s.logins[i].challenge.expiresAt
  {
    RunKeepsInvariant(Start(now), events, pruning);
    var s := Run(Start(now), events, pruning);
    assert forall i :: 0 <= i < |s.logins| ==> LoginOk(s.issued, s.logins[i]);
  }

  // ---------------------------------------------------------------- the two stores

  /** A delete that came no more than an hour's grace after expiry, going by the prunes before it. */
  predicate Timely(l: Login) {
    !Stale(l.challenge, l.prunedTo)
  }

  function TimelyLogins(logins: seq<Login>): seq<Login> {
    if logins == [] then []
    else TimelyLogins(logins[..|logins| - 1]) + if Timely(logins[|logins| - 1]) then [logins[|logins| - 1]] else []
  }

  lemma TimelySnoc(logins: seq<Login>, l: Login)
    ensures TimelyLogins(logins + [l]) == TimelyLogins(logins) + if Timely(l) then [l] else []
  {
    assert (logins + [l])[..|logins|] == logins;
  }

  lemma {:induction false} TimelyLength(logins: seq<Login>)
    ensures |TimelyLogins(logins)| <= |logins|
  {
    if logins != [] {
      TimelyLength(logins[..|logins| - 1]);
    }
  }

  lemma {:induction false} TimelyAll(logins: seq<Login>)
    ensures TimelyLogins(logins) == logins <==> forall i :: 0 <= i < |logins| ==> Timely(logins[i])
  {
    if logins != [] {
      var init, last := logins[..|logins| - 1], logins[|logins| - 1];
      TimelyAll(init);
      TimelyLength(init);
      assert logins == init + [last];
    }
  }

  /** The attempts of the two stores agree, but for those that found a row only the memory store kept. */
  ghost predicate Alike(p: Attempt, m: Attempt, prunedTo: Time) {
    p == m || (p.Ended? && (m.Found? || m.Dropping?) && Stale(m.challenge, prunedTo))
  }

  ghost predicate StoresMatch(p: Rows, m: Rows, prunedTo: Time) {
    && (forall id :: id in p <==> id in m && !Stale(m[id], prunedTo))
    && (forall id :: id in p ==> p[id] == m[id])
  }

  ghost predicate AttemptsMatch(p: map<LoginId, Attempt>, m: map<LoginId, Attempt>, prunedTo: Time) {
    && p.Keys == m.Keys
    && forall r :: r in m ==> Alike(p[r], m[r], prunedTo)
  }

  /** Postgres, `p`, holds what the memory store, `m`, holds without the rows pruned so far. */
  ghost predicate Lockstep(p: State, m: State) {
    && p.issued == m.issued && p.clock == m.clock && p.prunedTo == m.prunedTo && p.prunedTo <= p.clock
    && StoresMatch(p.store, m.store, m.prunedTo)
    && AttemptsMatch(p.attempts, m.attempts, m.prunedTo)
    && p.logins == TimelyLogins(m.logins)
  }

  /** A value finds the same row in both stores, unless only the memory store still has it. */
  lemma FindsMatch(p: Rows, m: Rows, issued: Rows, value: string, prunedTo: Time)
    requires IssuedOk(issued) && StoreOk(p, issued) && StoreOk(m, issued) && StoresMatch(p, m, prunedTo)
    ensures Find(p, value) == Find(m, value)
         || (Find(p, value).None? && Find(m, value).Some? && Stale(Find(m, value).value, prunedTo))
  {
  }

  lemma LookupLockstep(p: State, m: State, login: LoginId, value: string, pubkey: string)
    requires Invariant(p) && Invariant(m) && Lockstep(p, m)
    ensures Lockstep(AfterLookup(p, login, value, pubkey), AfterLookup(m, login, value, pubkey))
  {
    hide Find, IssuedOk, StoreOk, LoginsOk, AttemptsOk, StoresMatch, Stale, TimelyLogins;
    FindsMatch(p.store, m.store, m.issued, value, m.prunedTo);
  }

  lemma CheckLockstep(p: State, m: State, login: LoginId, verified: bool, now: Time)
    requires Lockstep(p, m) && p.clock <= now
    ensures Lockstep(AfterCheck(p, login, verified, now), AfterCheck(m, login, verified, now))
  {
    hide StoresMatch, TimelyLogins;
  }

  lemma ConsumeLockstep(p: State, m: State, login: LoginId, now: Time)
    requires Invariant(m) && Lockstep(p, m)
    ensures Lockstep(AfterConsume(p, login, now), AfterConsume(m, login, now))
  {
    hide LoginsOk, IssuedOk;
    if login in m.attempts {
      var a := m.attempts[login];
      assert AttemptOk(m.issued, a) && Alike(p.attempts[login], a, m.prunedTo);
      if a.Passed? {
        ConsumePassed(p, m, login, now);
      } else if a.Dropping? {
        hide TimelyLogins;
      }
    }
  }

  lemma ConsumePassed(p: State, m: State, login: LoginId, now: Time)
    requires Invariant(m) && Lockstep(p, m) && login in m.attempts && m.attempts[login].Passed?
    ensures Lockstep(AfterConsume(p, login, now), AfterConsume(m, login, now))
  {
    hide LoginsOk, IssuedOk, AttemptsOk, TimelyLogins;
    var a := m.attempts[login];
    assert p.attempts[login] == a;
    var l := Login(login, a.challenge, a.pubkey, a.verified, a.checkedAt, now, m.prunedTo);
    assert AttemptOk(m.issued, a) by {
      assert AttemptsOk(m.attempts, m.issued);
      UseAttempt(m.attempts, m.issued, login);
    }
    TimelySnoc(m.logins, l);
    assert m.logins + [] == m.logins && p.logins + [] == p.logins;
  }

  lemma UseAttempt(attempts: map<LoginId, Attempt>, issued: Rows, login: LoginId)
    requires AttemptsOk(attempts, issued) && login in attempts
    ensures AttemptOk(issued, attempts[login])
  {
  }

  lemma PruneLockstep(p: State, m: State, now: Time)
    requires Lockstep(p, m) && p.clock == now
    ensures Lockstep(p.(store := PruneRows(p.store, now), prunedTo := now), m.(prunedTo := now))
  {
    hide TimelyLogins;
  }

  lemma IssueLockstep(p: State, m: State, id: Id, value: string, pubkey: string, now: Time)
    requires Lockstep(p, m) && p.clock <= now
    ensures Lockstep(AfterIssue(p, id, value, pubkey, now), AfterIssue(m, id, value, pubkey, now))
  {
    hide ValidPubkey, TimelyLogins, AttemptsMatch, FreshDraw;
  }

  lemma StepLockstep(p: State, m: State, e: Event)
    requires Invariant(p) && Invariant(m) && Lockstep(p, m) && p.clock <= e.now
    ensures Lockstep(Step(p, e, true), Step(m, e, false))
  {
    hide IssuedOk, StoreOk, AttemptsOk, LoginsOk, AfterIssue, AfterLookup, AfterCheck, AfterConsume, PruneRows,
      StoresMatch, AttemptsMatch, TimelyLogins;
    var q, n := p.(clock := e.now), m.(clock := e.now);
    match e
    case Issue(id, value, pubkey, now) => IssueLockstep(q, n, id, value, pubkey, now);
    case Prune(now) => PruneLockstep(q, n, now);
    case Lookup(login, value, pubkey, _) => LookupLockstep(q, n, login, value, pubkey);
    case Check(login, verified, now) => CheckLockstep(q, n, login, verified, now);
    case Consume(login, now) => ConsumeLockstep(q, n, login, now);
  }

  lemma StepClock(s: State, e: Event, pruning: bool)
    ensures Step(s, e, pruning).clock == e.now
  {
  }

  lemma {:induction false} RunLockstep(p: State, m: State, events: seq<Event>)
    requires Invariant(p) && Invariant(m) && Lockstep(p, m) && Timed(events, p.clock)
    ensures Lockstep(Run(p, events, true), Run(m, events, false))
    decreases |events|
  {
    hide Step, Invariant, Lockstep;
    if events != [] {
      var e := events[0];
      StepKeepsInvariant(p, e, true);
      StepKeepsInvariant(m, e, false);
      StepLockstep(p, m, e);
      StepClock(p, e, true);
      RunLockstep(Step(p, e, true), Step(m, e, false), events[1..]);
    }
  }

  /**
   * Over the same interleaving Postgres admits exactly the timely ones among the
   * memory store's logins, so the two agree if and only if no login's delete came
   * after a prune more than an hour past the expiry of its challenge.
   */
  lemma StoresAgreeIff(now: Time, events: seq<Event>)
    requires Timed(events, now)
    ensures var pg, memory := Run(Start(now), events, true).logins, Run(Start(now), events, false).logins;
      && pg == TimelyLogins(memory)
      && (pg == memory <==> forall i :: 0 <= i < |memory| ==> memory[i].prunedTo <= memory[i].challenge.expiresAt + 3600)
  {
    RunLockstep(Start(now), Start(now), events);
    TimelyAll(Run(Start(now), events, false).logins);
  }

  // ---------------------------------------------------------------- requests that end within the hour

  ghost predicate LoginsTimed(s: State) {
    && s.prunedTo <= s.clock
    && forall i :: 0 <= i < |s.logins| ==> s.logins[i].prunedTo <= s.logins[i].consumedAt
  }

  lemma StepLoginsTimed(s: State, e: Event, pruning: bool)
    requires LoginsTimed(s) && s.clock <= e.now
    ensures LoginsTimed(Step(s, e, pruning))
  {
    hide PruneRows, Find, Checked, FreshDraw, ValidPubkey;
  }

  lemma {:induction false} RunLoginsTimed(s: State, events: seq<Event>, pruning: bool)
    requires LoginsTimed(s) && Timed(events, s.clock)
    ensures LoginsTimed(Run(s, events, pruning))
    decreases |events|
  {
    if events != [] {
      StepLoginsTimed(s, events[0], pruning);
      StepClock(s, events[0], pruning);
      RunLoginsTimed(Step(s, events[0], pruning), events[1..], pruning);
    }
  }

  /** The stores agree on every run whose requests delete within an hour of their check. */
  lemma PromptRequestsAgree(now: Time, events: seq<Event>)
    requires Timed(events, now)
    requires var memory := Run(Start(now), events, false).logins;
      forall i :: 0 <= i < |memory| ==> memory[i].consumedAt - memory[i].checkedAt <= 3600
    ensures Run(Start(now), events, true).logins == Run(Start(now), events, false).logins
  {
    StoresAgreeIff(now, events);
    RunKeepsInvariant(Start(now), events, false);
    RunLoginsTimed(Start(now), events, false);
    var s := Run(Start(now), events, false);
    forall i | 0 <= i < |s.logins| ensures !Stale(s.logins[i].challenge, s.logins[i].prunedTo) {
      assert LoginOk(s.issued, s.logins[i]);
    }
  }

  // ---------------------------------------------------------------- and one that does not

  /** A login checked in time whose delete waits past the hour and a prune. */
  function LateDelete(pubkey: string): seq<Event> {
    [Issue(0, "value", pubkey, 0), Lookup(1, "value", pubkey, 0), Check(1, true, 0),
     Prune(LIFETIME + HOUR + 1), Consume(1, LIFETIME + HOUR + 1)]
  }

  lemma {:induction false} RunUnfold(s: State, e: Event, rest: seq<Event>, pruning: bool)
    ensures Run(s, [e] + rest, pruning) == Run(Step(s, e, pruning), rest, pruning)
  {
    assert ([e] + rest)[1..] == rest;
  }

  lemma LateDeleteStates(pubkey: string, pruning: bool)
    requires ValidPubkey(pubkey)
    ensures var c := Challenge(0, "value", pubkey, LIFETIME);
      Run(Start(0), LateDelete(pubkey), pruning).logins
        == if pruning then [] else [Login(1, c, pubkey, true, 0, LIFETIME + HOUR + 1, LIFETIME + HOUR + 1)]
  {
    var e := LateDelete(pubkey);
    var c := Challenge(0, "value", pubkey, LIFETIME);
    var late := LIFETIME + HOUR + 1;
    var s1 := State(map[0 := c], map[], map[0 := c], [], 0, 0);
    var s2 := s1.(attempts := map[1 := Found(c, pubkey)]);
    var s3 := s1.(attempts := map[1 := Passed(c, pubkey, true, 0)]);
    var s4 := s3.(store := if pruning then map[] else map[0 := c], clock := late, prunedTo := late);
    LateDeletePasses(pubkey, s1, s2, s3, pruning);
    assert Step(s3, Prune(late), pruning) == s4;
    assert Step(s4, Consume(1, late), pruning).logins
        == if pruning then [] else [Login(1, c, pubkey, true, 0, late, late)];
    hide ValidPubkey, Step;
    RunUnfold(Start(0), e[0], e[1..], pruning);
    RunUnfold(s1, e[1], e[2..], pruning);
    RunUnfold(s2, e[2], e[3..], pruning);
    RunUnfold(s3, e[3], e[4..], pruning);
    RunUnfold(s4, e[4], [], pruning);
  }

  lemma LateDeletePasses(pubkey: string, s1: State, s2: State, s3: State, pruning: bool)
    requires ValidPubkey(pubkey)
    requires var c := Challenge(0, "value", pubkey, LIFETIME);
      && s1 == State(map[0 := c], map[], map[0 := c], [], 0, 0)
      && s2 == s1.(attempts := map[1 := Found(c, pubkey)])
      && s3 == s1.(attempts := map[1 := Passed(c, pubkey, true, 0)])
    ensures Step(Start(0), LateDelete(pubkey)[0], pruning) == s1
    ensures Step(s1, LateDelete(pubkey)[1], pruning) == s2
    ensures Step(s2, LateDelete(pubkey)[2], pruning) == s3
  {
    hide ValidPubkey;
    assert Find(s1.store, "value") == Some(s1.store[0]);
  }

  /** The stores do not agree on every run, for any public key. */
  lemma StoresDifferOnLateDelete(pubkey: string)
    requires ValidPubkey(pubkey)
    ensures Timed(LateDelete(pubkey), 0)
    ensures |Run(Start(0), LateDelete(pubkey), false).logins| == 1
    ensures |Run(Start(0), LateDelete(pubkey), true).logins| == 0
  {
    hide Run, ValidPubkey;
    LateDeleteStates(pubkey, true);
    LateDeleteStates(pubkey, false);
  }
}
