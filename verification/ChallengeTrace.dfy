/**
 * Where admitted logins come from: the events of the run behind each of them, and
 * that an honest login is admitted.
 */
module ChallengeTraces {
  import opened Bytes
  import opened Ascii
  import opened Challenges

  // ---------------------------------------------------------------- what was done, and when

  ghost predicate IssuedAt(past: seq<Event>, a: int, c: Challenge) {
    && 0 <= a < |past| && past[a] == Issue(c.id, c.value, c.pubkey, c.expiresAt - 600)
    && |c.pubkey| == 64 && AllHex(c.pubkey)
  }

  ghost predicate FoundAt(past: seq<Event>, a: int, b: int, login: LoginId, c: Challenge, pubkey: string) {
    && IssuedAt(past, a, c)
    && a < b < |past| && past[b].Lookup? && past[b].login == login && past[b].value == c.value && past[b].pubkey == pubkey
  }

  ghost predicate PassedAt(past: seq<Event>, a: int, b: int, k: int, login: LoginId, c: Challenge, pubkey: string, at: Time) {
    && FoundAt(past, a, b, login, c, pubkey)
    && b < k < |past| && past[k] == Check(login, true, at)
    && at <= c.expiresAt && c.pubkey == pubkey
  }

  ghost predicate AdmittedAt(past: seq<Event>, a: int, b: int, k: int, d: int, l: Login) {
    && PassedAt(past, a, b, k, l.login, l.challenge, l.pubkey, l.checkedAt)
    && k < d < |past| && past[d] == Consume(l.login, l.consumedAt)
  }

  ghost predicate AttemptTraced(past: seq<Event>, login: LoginId, a: Attempt) {
    match a
    case Found(c, pubkey) => exists i, j :: FoundAt(past, i, j, login, c, pubkey)
    case Passed(c, pubkey, _, at) => exists i, j, k :: PassedAt(past, i, j, k, login, c, pubkey, at)
    case _ => true
  }

  ghost predicate LoginTraced(past: seq<Event>, l: Login) {
    exists i, j, k, d :: AdmittedAt(past, i, j, k, d, l)
  }

  ghost predicate Traced(past: seq<Event>, s: State) {
    && (forall id :: id in s.issued ==> exists a :: IssuedAt(past, a, s.issued[id]))
    && (forall r :: r in s.attempts ==> AttemptTraced(past, r, s.attempts[r]))
    && (forall i :: 0 <= i < |s.logins| ==> LoginTraced(past, s.logins[i]))
  }

  // ---------------------------------------------------------------- the trace grows

  lemma AttemptLater(past: seq<Event>, e: Event, login: LoginId, a: Attempt)
    requires AttemptTraced(past, login, a)
    ensures AttemptTraced(past + [e], login, a)
  {
    match a
    case Found(c, pubkey) =>
      var i, j :| FoundAt(past, i, j, login, c, pubkey);
      assert FoundAt(past + [e], i, j, login, c, pubkey);
    case Passed(c, pubkey, _, at) =>
      var i, j, k :| PassedAt(past, i, j, k, login, c, pubkey, at);
      assert PassedAt(past + [e], i, j, k, login, c, pubkey, at);
    case _ =>
  }

  lemma {:induction false} TracedLater(past: seq<Event>, e: Event, s: State)
    requires Traced(past, s)
    ensures Traced(past + [e], s)
  {
    forall id | id in s.issued ensures exists a :: IssuedAt(past + [e], a, s.issued[id]) {
      var a :| IssuedAt(past, a, s.issued[id]);
      assert IssuedAt(past + [e], a, s.issued[id]);
    }
    forall r | r in s.attempts ensures AttemptTraced(past + [e], r, s.attempts[r]) {
      AttemptLater(past, e, r, s.attempts[r]);
    }
    forall i | 0 <= i < |s.logins| ensures LoginTraced(past + [e], s.logins[i]) {
      var l := s.logins[i];
      var a, b, k, d :| AdmittedAt(past, a, b, k, d, l);
      assert AdmittedAt(past + [e], a, b, k, d, l);
    }
  }

  lemma IssueTraced(past: seq<Event>, s: State, e: Event)
    requires e.Issue? && Traced(past + [e], s)
    ensures Traced(past + [e], AfterIssue(s, e.id, e.value, e.pubkey, e.now))
  {
    hide FreshDraw, AttemptTraced, LoginTraced, HexDecode, AllHex;
    if ValidPubkey(e.pubkey) {
      assert IssuedAt(past + [e], |past|, Challenge(e.id, e.value, e.pubkey, e.now + 600));
    }
  }

  lemma LookupTraced(past: seq<Event>, s: State, e: Event)
    requires e.Lookup? && Invariant(s) && Traced(past, s) && Traced(past + [e], s)
    ensures Traced(past + [e], AfterLookup(s, e.login, e.value, e.pubkey))
  {
    var found := Find(s.store, e.value);
    if found.Some? {
      FoundIsIssued(s, e.value);
      hide IssuedOk, StoreOk, AttemptsOk, LoginsOk, Find, LoginTraced;
      var a :| IssuedAt(past, a, found.value);
      assert FoundAt(past + [e], a, |past|, e.login, found.value, e.pubkey);
    }
  }

  lemma FoundIsIssued(s: State, value: string)
    requires Invariant(s) && Find(s.store, value).Some?
    ensures var c := Find(s.store, value).value; c.value == value && c.id in s.issued && s.issued[c.id] == c
  {
  }

  lemma CheckTraced(past: seq<Event>, s: State, e: Event)
    requires e.Check? && Traced(past, s) && Traced(past + [e], s)
    ensures Traced(past + [e], AfterCheck(s, e.login, e.verified, e.now))
  {
    if e.login in s.attempts && s.attempts[e.login].Found? {
      var f := s.attempts[e.login];
      assert AttemptTraced(past, e.login, f);
      var i, j :| FoundAt(past, i, j, e.login, f.challenge, f.pubkey);
      var after := Checked(f, e.verified, e.now);
      if after.Passed? {
        assert PassedAt(past + [e], i, j, |past|, e.login, f.challenge, f.pubkey, e.now);
      }
      assert AttemptTraced(past + [e], e.login, after);
      hide AttemptTraced, LoginTraced;
    }
  }

  lemma ConsumeTraced(past: seq<Event>, s: State, e: Event)
    requires e.Consume? && Traced(past, s) && Traced(past + [e], s)
    ensures Traced(past + [e], AfterConsume(s, e.login, e.now))
  {
    if e.login in s.attempts && s.attempts[e.login].Passed? {
      var p := s.attempts[e.login];
      assert AttemptTraced(past, e.login, p);
      var i, j, k :| PassedAt(past, i, j, k, e.login, p.challenge, p.pubkey, p.checkedAt);
      var l := Login(e.login, p.challenge, p.pubkey, p.verified, p.checkedAt, e.now, s.prunedTo);
      assert AdmittedAt(past + [e], i, j, k, |past|, l);
      assert LoginTraced(past + [e], l);
      hide LoginTraced;
    }
    assert AttemptTraced(past + [e], e.login, Ended);
    hide AttemptTraced;
  }

  lemma {:induction false} StepTraced(past: seq<Event>, before: State, e: Event, pruning: bool)
    requires Invariant(before) && Traced(past, before)
    ensures Traced(past + [e], Step(before, e, pruning))
  {
    var s := before.(clock := e.now);
    assert Traced(past, s) && Invariant(s) by {
      hide AttemptTraced, LoginTraced, IssuedOk, StoreOk, AttemptsOk, LoginsOk;
    }
    TracedLater(past, e, s);
    hide AttemptTraced, LoginTraced, Invariant, AfterIssue, AfterLookup, AfterCheck, AfterConsume, PruneRows;
    match e
    case Issue(_, _, _, _) => IssueTraced(past, s, e);
    case Prune(_) =>
    case Lookup(_, _, _, _) => LookupTraced(past, s, e);
    case Check(_, _, _) => CheckTraced(past, s, e);
    case Consume(_, _) => ConsumeTraced(past, s, e);
  }

  lemma {:induction false} RunTraced(past: seq<Event>, s: State, events: seq<Event>, pruning: bool)
    requires Invariant(s) && Traced(past, s)
    ensures Traced(past + events, Run(s, events, pruning))
    decreases |events|
  {
    hide Invariant, Traced, Step;
    if events == [] {
      assert past + events == past;
    } else {
      var e := events[0];
      StepTraced(past, s, e, pruning);
      StepKeepsInvariant(s, e, pruning);
      RunTraced(past + [e], Step(s, e, pruning), events[1..], pruning);
      assert past + [e] + events[1..] == past + events;
    }
  }

  /**
   * Behind every admitted login, in this order: its challenge was issued for its
   * well-formed public key, ten minutes before its expiry; this login looked that value up for
   * that public key; its check, no later than the expiry, verified the event; and
   * it deleted the challenge.
   */
  lemma AdmittedLoginsWereEarned(now: Time, events: seq<Event>, pruning: bool, i: nat)
    returns (a: nat, b: nat, k: nat, d: nat)
    requires i < |Run(Start(now), events, pruning).logins|
    ensures a < b < k < d < |events|
    ensures var l := Run(Start(now), events, pruning).logins[i];
      && events[a] == Issue(l.challenge.id, l.challenge.value, l.pubkey, l.challenge.expiresAt - 600)
      && |l.pubkey| == 64 && AllHex(l.pubkey)
      && events[b].Lookup? && events[b].login == l.login
      && events[b].value == l.challenge.value && events[b].pubkey == l.pubkey
      && events[k] == Check(l.login, true, l.checkedAt) && l.checkedAt <= l.challenge.expiresAt
      && events[d] == Consume(l.login, l.consumedAt)
  {
    hide Step, Run, Invariant, Traced;
    StartTraced(now);
    RunTraced([], Start(now), events, pruning);
    assert [] + events == events;
    a, b, k, d := UseTraced(events, Run(Start(now), events, pruning), i);
  }

  lemma StartTraced(now: Time)
    ensures Invariant(Start(now)) && Traced([], Start(now))
  {
  }

  lemma UseTraced(past: seq<Event>, s: State, i: nat) returns (a: nat, b: nat, k: nat, d: nat)
    requires Traced(past, s) && i < |s.logins|
    ensures AdmittedAt(past, a, b, k, d, s.logins[i])
  {
    assert LoginTraced(past, s.logins[i]);
    a, b, k, d :| AdmittedAt(past, a, b, k, d, s.logins[i]);
  }

  // ---------------------------------------------------------------- honest logins succeed

  /**
   * A challenge issued for a valid public key, under an id and a value not drawn
   * before, admits a login of that public key that looks it up, checks it no later
   * than ten minutes on with a verified event, and deletes it, with either store.
   */
  lemma {:induction false} HonestLoginAdmitted(s: State, id: Id, value: string, pubkey: string, login: LoginId,
                            t: Time, found: Time, checked: Time, consumed: Time, pruning: bool)
    requires Invariant(s)
    requires id !in s.issued && forall k :: k in s.issued ==> s.issued[k].value != value
    requires |pubkey| == 64 && AllHex(pubkey) && login !in s.attempts
    requires checked <= t + 600
    ensures Run(s, [Issue(id, value, pubkey, t), Lookup(login, value, pubkey, found), Check(login, true, checked),
                    Consume(login, consumed)], pruning).logins
         == s.logins + [Login(login, Challenge(id, value, pubkey, t + 600), pubkey, true, checked, consumed, s.prunedTo)]
  {
    var c := Challenge(id, value, pubkey, t + 600);
    var e1, e2, e3, e4 := Issue(id, value, pubkey, t), Lookup(login, value, pubkey, found), Check(login, true, checked), Consume(login, consumed);
    var s1 := Step(s, e1, pruning);
    var s2 := Step(s1, e2, pruning);
    var s3 := Step(s2, e3, pruning);
    var s4 := Step(s3, e4, pruning);
    IssueStores(s, id, value, pubkey, t, pruning);
    StepKeepsInvariant(s, e1, pruning);
    LookupFinds(s1, c, login, found, pruning);
    hide Invariant;
    RunUnfold(s, e1, [e2, e3, e4], pruning);
    RunUnfold(s1, e2, [e3, e4], pruning);
    RunUnfold(s2, e3, [e4], pruning);
    RunUnfold(s3, e4, [], pruning);
    assert [e1, e2, e3, e4] == [e1] + [e2, e3, e4] && [e2, e3, e4] == [e2] + [e3, e4] && [e3, e4] == [e3] + [e4] && [e4] == [e4] + [];
    ChecksAndConsumes(s2, c, login, checked, consumed, pruning);
    hide *;
  }

  lemma IssueStores(s: State, id: Id, value: string, pubkey: string, t: Time, pruning: bool)
    requires id !in s.issued && forall k :: k in s.issued ==> s.issued[k].value != value
    requires |pubkey| == 64 && AllHex(pubkey)
    ensures var s1, c := Step(s, Issue(id, value, pubkey, t), pruning), Challenge(id, value, pubkey, t + 600);
      && s1.store == s.store[id := c] && s1.issued == s.issued[id := c]
      && s1.attempts == s.attempts && s1.logins == s.logins && s1.prunedTo == s.prunedTo
  {
  }

  lemma LookupFinds(s: State, c: Challenge, login: LoginId, now: Time, pruning: bool)
    requires Invariant(s) && c.id in s.store && s.store[c.id] == c && login !in s.attempts
    ensures Step(s, Lookup(login, c.value, c.pubkey, now), pruning)
         == s.(clock := now, attempts := s.attempts[login := Found(c, c.pubkey)])
  {
    assert Find(s.store, c.value) == Some(c);
  }

  lemma ChecksAndConsumes(s: State, c: Challenge, login: LoginId, checked: Time, consumed: Time, pruning: bool)
    requires c.id in s.store && login in s.attempts && s.attempts[login] == Found(c, c.pubkey)
    requires checked <= c.expiresAt
    ensures Step(Step(s, Check(login, true, checked), pruning), Consume(login, consumed), pruning).logins
         == s.logins + [Login(login, c, c.pubkey, true, checked, consumed, s.prunedTo)]
  {
  }
}
