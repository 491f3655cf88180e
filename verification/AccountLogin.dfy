/**
 * Email logins, verifier upgrades and recoveries on one account
 * (backend/internal/auth/auth.go), in any interleaving.
 *
 * A stored verifier is known by the secret it accepts: scrypt is ideal, so
 * verifying an input against it succeeds exactly for that secret. A login reads
 * the row, may upgrade it in a later statement, and opens its session in another.
 */
module AccountLogin {
  import opened Bytes
  import opened Ascii

  type LoginId = nat

  /** Version 1 verifies the password, version 2 the auth key. */
  datatype Verifier = Verifier(secret: string, version: int)

  // ---------------------------------------------------------------- auth keys

  const KEY_BYTES: nat := 32

  function ParseAuthKey(s: string): Option<string> {
    match HexDecode(s)
    case Some(b) => if |b| == KEY_BYTES then Some(HexEncode(b)) else None
    case None => None
  }

  /** Every spelling of 64 hex digits is read as its lower-case form, and nothing else is read. */
  lemma AuthKeySpellings(s: AsciiString, t: AsciiString)
    ensures ParseAuthKey(s) == if |s| == 64 && AllHex(s) then Some(ToLower(s)) else None
    ensures ParseAuthKey(s).Some? ==> ParseAuthKey(ParseAuthKey(s).value) == ParseAuthKey(s)
    ensures ParseAuthKey(s).Some? && ParseAuthKey(t).Some? ==> (ParseAuthKey(s) == ParseAuthKey(t) <==> ToLower(s) == ToLower(t))
  {
    hide HexDecode, HexEncode;
    if IsHex(s) {
      HexDecodeEncode(s);
      HexEncodeDecode(HexDecode(s).value);
    }
    if IsHex(t) {
      HexDecodeEncode(t);
    }
  }

  // ---------------------------------------------------------------- one login's decision

  datatype LoginError = MissingCredentials | InvalidAuthKey | InvalidCredentials | UpgradeRequired

  datatype Decision = Refuse(error: LoginError) | Admit | Upgrade(key: string)

  /** What a login decides from the row it read; `key` is the parsed auth key. */
  function Decide(row: Verifier, key: Option<string>, password: Option<string>): Decision {
    if row.version >= 2 then
      if key.None? || key.value != row.secret then Refuse(InvalidCredentials) else Admit
    else if password.None? then Refuse(UpgradeRequired)
    else if password.value != row.secret then Refuse(InvalidCredentials)
    else if key.Some? then Upgrade(key.value)
    else Admit
  }

  // ---------------------------------------------------------------- steps

  /** How a verifier came to be installed. */
  datatype Install = Registered(verifier: Verifier) | Upgraded(verifier: Verifier) | Recovered(verifier: Verifier)

  /** A login that read the row when `installs` verifiers had been installed. */
  datatype Attempt =
    | Upgrading(installs: nat, proof: string, key: string)
    | Admitted(installs: nat, proof: string)
    | Ended

  datatype Session = Session(installs: nat, proof: string)

  datatype State = State(row: Verifier, history: seq<Install>, attempts: map<LoginId, Attempt>, sessions: seq<Session>)

  datatype Event =
    | Read(login: LoginId, key: Option<string>, password: Option<string>)
    | Write(login: LoginId)
    | OpenSession(login: LoginId)
    | Recover(newKey: string)

  function Start(row: Verifier): State {
    State(row, [Registered(row)], map[], [])
  }

  function AfterRead(s: State, key: Option<string>, password: Option<string>): Attempt {
    match Decide(s.row, key, password)
    case Refuse(_) => Ended
    case Admit => Admitted(|s.history|, if s.row.version >= 2 then key.value else password.value)
    case Upgrade(k) => Upgrading(|s.history|, password.value, k)
  }

  /** The update with `auth_version = 1` in its WHERE. */
  function UpgradeRow(s: State, key: string): State {
    if s.row.version != 1 then s
    else
      var v := Verifier(key, 2);
      s.(row := v, history := s.history + [Upgraded(v)])
  }

  function RecoverRow(s: State, key: string): State {
    var v := Verifier(key, 2);
    s.(row := v, history := s.history + [Recovered(v)], sessions := [])
  }

  function Step(s: State, e: Event): State {
    match e
    case Read(login, key, password) =>
      if login in s.attempts then s
      else s.(attempts := s.attempts[login := AfterRead(s, key, password)])
    case Write(login) =>
      if login !in s.attempts || !s.attempts[login].Upgrading? then s
      else
        var a := s.attempts[login];
        UpgradeRow(s, a.key).(attempts := s.attempts[login := Admitted(a.installs, a.proof)])
    case OpenSession(login) =>
      if login !in s.attempts || !s.attempts[login].Admitted? then s
      else
        var a := s.attempts[login];
        s.(attempts := s.attempts[login := Ended], sessions := s.sessions + [Session(a.installs, a.proof)])
    case Recover(key) => RecoverRow(s, key)
  }

  function Run(s: State, events: seq<Event>): State
    decreases |events|
  {
    if events == [] then s else Run(Step(s, events[0]), events[1..])
  }

  // ---------------------------------------------------------------- what every run keeps

  /** The secret presented is the one the then current verifier accepts. */
  ghost predicate Proved(history: seq<Install>, installs: nat, proof: string) {
    1 <= installs <= |history| && history[installs - 1].verifier.secret == proof
  }

  /** The first verifier is the registered one; only it can be of version 1; an upgrade can only be the second. */
  ghost predicate HistoryOk(row: Verifier, history: seq<Install>) {
    && history != []
    && row == history[|history| - 1].verifier
    && history[0].Registered? && history[0].verifier.version >= 1
    && (forall i :: 1 <= i < |history| ==> !history[i].Registered? && history[i].verifier.version == 2)
    && (forall i :: 1 <= i < |history| && history[i].Upgraded? ==> i == 1 && history[0].verifier.version == 1)
  }

  ghost predicate AttemptOk(history: seq<Install>, a: Attempt) {
    match a
    case Upgrading(installs, proof, _) => Proved(history, installs, proof) && installs == 1 && history[0].verifier.version == 1
    case Admitted(installs, proof) => Proved(history, installs, proof)
    case Ended => true
  }

  ghost predicate Invariant(s: State) {
    && HistoryOk(s.row, s.history)
    && (forall r :: r in s.attempts ==> AttemptOk(s.history, s.attempts[r]))
    && (forall i :: 0 <= i < |s.sessions| ==> Proved(s.history, s.sessions[i].installs, s.sessions[i].proof))
  }

  /** `later` continues `earlier`: nothing installed before is taken back. */
  ghost predicate Continues(earlier: State, later: State) {
    earlier.history <= later.history && earlier.row.version <= later.row.version
  }

  lemma {:induction false} StepKeepsInvariant(s: State, e: Event)
    requires Invariant(s) && s.row.version <= 2
    ensures Invariant(Step(s, e)) && Continues(s, Step(s, e)) && Step(s, e).row.version <= 2
  {
  }

  lemma {:induction false} RunKeepsInvariant(s: State, events: seq<Event>)
    requires Invariant(s) && s.row.version <= 2
    ensures Invariant(Run(s, events)) && Continues(s, Run(s, events)) && Run(s, events).row.version <= 2
    decreases |events|
  {
    hide Invariant, Step;
    if events != [] {
      StepKeepsInvariant(s, events[0]);
      RunKeepsInvariant(Step(s, events[0]), events[1..]);
    }
  }

  // ---------------------------------------------------------------- main results

  ghost predicate ValidRow(row: Verifier) {
    1 <= row.version <= 2
  }

  /** In every interleaving the version never decreases and installed verifiers are never taken back. */
  lemma VersionNeverDecreases(row: Verifier, before: seq<Event>, after: seq<Event>)
    requires ValidRow(row)
    ensures var s, t := Run(Start(row), before), Run(Run(Start(row), before), after);
      s.row.version <= t.row.version && s.history <= t.history
  {
    RunKeepsInvariant(Start(row), before);
    RunKeepsInvariant(Run(Start(row), before), after);
  }

  /**
   * In every interleaving at most one upgrade takes effect, and only on the version
   * 1 verifier the account was registered with: never over a recovery's.
   */
  lemma UpgradeTakesEffectOnce(row: Verifier, events: seq<Event>)
    requires ValidRow(row)
    ensures var h := Run(Start(row), events).history;
      && forall i :: 0 <= i < |h| && h[i].Upgraded? ==> i == 1 && h[0] == Registered(row) && row.version == 1
  {
    RunKeepsInvariant(Start(row), events);
  }

  /** Whatever upgrades are still pending, they leave a recovered verifier alone. */
  lemma RecoveryStands(row: Verifier, before: seq<Event>, key: string, after: seq<Event>)
    requires ValidRow(row)
    requires forall i :: 0 <= i < |after| ==> !after[i].Recover?
    ensures Run(Step(Run(Start(row), before), Recover(key)), after).row == Verifier(key, 2)
  {
    var s := Run(Start(row), before);
    RunKeepsInvariant(Start(row), before);
    StepKeepsInvariant(s, Recover(key));
    SecondVersionStands(Step(s, Recover(key)), after);
  }

  lemma {:induction false} SecondVersionStands(s: State, events: seq<Event>)
    requires s.row.version == 2
    requires forall i :: 0 <= i < |events| ==> !events[i].Recover?
    ensures Run(s, events).row == s.row
    decreases |events|
  {
    if events != [] {
      assert !events[0].Recover?;
      SecondVersionStands(Step(s, events[0]), events[1..]);
    }
  }

  /**
   * A login that reads a version 2 row is admitted exactly with the auth key of the
   * verifier installed last, however that came to be; a version 1 row admits
   * exactly the password it was registered with.
   */
  lemma {:induction false} AdmittedByLastInstalled(row: Verifier, events: seq<Event>, login: LoginId, key: Option<string>, password: Option<string>)
    requires ValidRow(row)
    requires login !in Run(Start(row), events).attempts
    ensures Run(Start(row), events).history != []
    ensures var s := Run(Start(row), events);
      var last := s.history[|s.history| - 1].verifier;
      var a := Step(s, Read(login, key, password)).attempts[login];
      && (last.version == 2 ==> (!a.Ended? <==> key == Some(last.secret)) && !a.Upgrading?)
      && (last.version == 1 ==> last == row && (!a.Ended? <==> password == Some(row.secret)))
  {
    RunKeepsInvariant(Start(row), events);
    assert Start(row).history <= Run(Start(row), events).history;
  }

  /** Every open session was opened with the secret of the verifier current when its login read the row. */
  lemma {:induction false} SessionsWereProved(row: Verifier, events: seq<Event>)
    requires ValidRow(row)
    ensures var s := Run(Start(row), events);
      forall i :: 0 <= i < |s.sessions| ==>
        && 1 <= s.sessions[i].installs <= |s.history|
        && s.history[s.sessions[i].installs - 1].verifier.secret == s.sessions[i].proof
  {
    RunKeepsInvariant(Start(row), events);
    assert forall i :: 0 <= i < |Run(Start(row), events).sessions| ==>
      Proved(Run(Start(row), events).history, Run(Start(row), events).sessions[i].installs, Run(Start(row), events).sessions[i].proof);
  }

  // ---------------------------------------------------------------- where verifiers and sessions come from

  ghost predicate Presented(past: seq<Event>, a: int, login: LoginId, key: string, password: string) {
    0 <= a < |past| && past[a] == Read(login, Some(key), Some(password))
  }

  ghost predicate Showed(past: seq<Event>, a: int, login: LoginId, proof: string) {
    0 <= a < |past| && past[a].Read? && past[a].login == login && (past[a].key == Some(proof) || past[a].password == Some(proof))
  }

  ghost predicate AttemptTraced(past: seq<Event>, login: LoginId, a: Attempt) {
    match a
    case Upgrading(_, proof, key) => exists i :: Presented(past, i, login, key, proof)
    case Admitted(_, proof) => exists i :: Showed(past, i, login, proof)
    case Ended => true
  }

  ghost predicate UpgradedBy(past: seq<Event>, a: int, b: int, v: Verifier, password: string) {
    && 0 <= a < b < |past| && past[b].Write?
    && Presented(past, a, past[b].login, v.secret, password)
  }

  ghost predicate InstallTraced(past: seq<Event>, password: string, h: Install) {
    match h
    case Registered(_) => true
    case Upgraded(v) => exists a, b :: UpgradedBy(past, a, b, v, password)
    case Recovered(v) => exists a :: 0 <= a < |past| && past[a] == Recover(v.secret)
  }

  ghost predicate OpenedBy(past: seq<Event>, a: int, b: int, proof: string) {
    && 0 <= a < b < |past| && past[b].OpenSession? && Showed(past, a, past[b].login, proof)
    && forall k :: b < k < |past| ==> !past[k].Recover?
  }

  ghost predicate SessionTraced(past: seq<Event>, x: Session) {
    exists a, b :: OpenedBy(past, a, b, x.proof)
  }

  ghost predicate Traced(past: seq<Event>, s: State) {
    && s.history != []
    && (forall r :: r in s.attempts ==> AttemptTraced(past, r, s.attempts[r]))
    && (forall i :: 0 <= i < |s.history| ==> InstallTraced(past, s.history[0].verifier.secret, s.history[i]))
    && (forall i :: 0 <= i < |s.sessions| ==> SessionTraced(past, s.sessions[i]))
  }

  lemma AttemptLater(past: seq<Event>, e: Event, login: LoginId, a: Attempt)
    requires AttemptTraced(past, login, a)
    ensures AttemptTraced(past + [e], login, a)
  {
    match a
    case Upgrading(_, proof, key) =>
      var i :| Presented(past, i, login, key, proof);
      assert Presented(past + [e], i, login, key, proof);
    case Admitted(_, proof) =>
      var i :| Showed(past, i, login, proof);
      assert Showed(past + [e], i, login, proof);
    case Ended =>
  }

  lemma InstallLater(past: seq<Event>, e: Event, password: string, h: Install)
    requires InstallTraced(past, password, h)
    ensures InstallTraced(past + [e], password, h)
  {
    match h
    case Registered(_) =>
    case Upgraded(v) =>
      var a, b :| UpgradedBy(past, a, b, v, password);
      assert UpgradedBy(past + [e], a, b, v, password);
    case Recovered(v) =>
      var a :| 0 <= a < |past| && past[a] == Recover(v.secret);
      assert (past + [e])[a] == Recover(v.secret);
  }

  lemma TracedLater(past: seq<Event>, e: Event, s: State)
    requires Traced(past, s)
    requires e.Recover? ==> s.sessions == []
    ensures Traced(past + [e], s)
  {
    hide AttemptTraced, InstallTraced;
    forall r | r in s.attempts ensures AttemptTraced(past + [e], r, s.attempts[r]) {
      AttemptLater(past, e, r, s.attempts[r]);
    }
    forall i | 0 <= i < |s.history| ensures InstallTraced(past + [e], s.history[0].verifier.secret, s.history[i]) {
      InstallLater(past, e, s.history[0].verifier.secret, s.history[i]);
    }
    forall i | 0 <= i < |s.sessions| ensures SessionTraced(past + [e], s.sessions[i]) {
      var a, b :| OpenedBy(past, a, b, s.sessions[i].proof);
      assert OpenedBy(past + [e], a, b, s.sessions[i].proof);
    }
  }

  lemma ReadTraced(past: seq<Event>, s: State, e: Event)
    requires e.Read? && Traced(past + [e], s)
    ensures Traced(past + [e], Step(s, e))
  {
    var a := AfterRead(s, e.key, e.password);
    if a.Upgrading? {
      assert Presented(past + [e], |past|, e.login, a.key, a.proof);
    } else if a.Admitted? {
      assert Showed(past + [e], |past|, e.login, a.proof);
    }
    assert AttemptTraced(past + [e], e.login, a);
    hide AttemptTraced, InstallTraced, SessionTraced, AfterRead;
  }

  lemma {:induction false} WriteTraced(past: seq<Event>, s: State, e: Event)
    requires e.Write? && Invariant(s) && Traced(past, s) && Traced(past + [e], s)
    ensures Traced(past + [e], Step(s, e))
  {
    if e.login in s.attempts && s.attempts[e.login].Upgrading? {
      var a := s.attempts[e.login];
      assert AttemptTraced(past, e.login, a) && AttemptOk(s.history, a);
      var i :| Presented(past, i, e.login, a.key, a.proof);
      assert UpgradedBy(past + [e], i, |past|, Verifier(a.key, 2), a.proof);
      assert InstallTraced(past + [e], s.history[0].verifier.secret, Upgraded(Verifier(a.key, 2)));
      assert Showed(past + [e], i, e.login, a.proof);
      assert AttemptTraced(past + [e], e.login, Admitted(a.installs, a.proof));
      hide AttemptTraced, InstallTraced, SessionTraced, Invariant;
    }
  }

  lemma OpenTraced(past: seq<Event>, s: State, e: Event)
    requires e.OpenSession? && Traced(past, s) && Traced(past + [e], s)
    ensures Traced(past + [e], Step(s, e))
  {
    if e.login in s.attempts && s.attempts[e.login].Admitted? {
      var a := s.attempts[e.login];
      assert AttemptTraced(past, e.login, a);
      var i :| Showed(past, i, e.login, a.proof);
      assert OpenedBy(past + [e], i, |past|, a.proof);
      assert AttemptTraced(past + [e], e.login, Ended);
      hide AttemptTraced, InstallTraced;
    }
  }

  lemma RecoverTraced(past: seq<Event>, s: State, e: Event)
    requires e.Recover? && Traced(past, s)
    ensures Traced(past + [e], Step(s, e))
  {
    assert Traced(past, s.(sessions := []));
    TracedLater(past, e, s.(sessions := []));
    assert (past + [e])[|past|] == Recover(e.newKey);
    assert InstallTraced(past + [e], s.history[0].verifier.secret, Recovered(Verifier(e.newKey, 2)));
    hide AttemptTraced, InstallTraced;
  }

  lemma {:induction false} RunTraced(past: seq<Event>, s: State, events: seq<Event>)
    requires Invariant(s) && s.row.version <= 2 && Traced(past, s)
    ensures Traced(past + events, Run(s, events))
    decreases |events|
  {
    hide Invariant, Traced, Step;
    if events == [] {
      assert past + events == past;
    } else {
      var e := events[0];
      if !e.Recover? {
        TracedLater(past, e, s);
      }
      match e {
        case Read(_, _, _) => ReadTraced(past, s, e);
        case Write(_) => WriteTraced(past, s, e);
        case OpenSession(_) => OpenTraced(past, s, e);
        case Recover(_) => RecoverTraced(past, s, e);
      }
      StepKeepsInvariant(s, e);
      RunTraced(past + [e], Step(s, e), events[1..]);
      assert past + [e] + events[1..] == past + events;
    }
  }

  lemma {:induction false} AllTraced(row: Verifier, events: seq<Event>)
    requires ValidRow(row)
    ensures Traced(events, Run(Start(row), events)) && Run(Start(row), events).history != []
    ensures Run(Start(row), events).history[0] == Registered(row)
  {
    RunKeepsInvariant(Start(row), events);
    RunTraced([], Start(row), events);
    assert [] + events == events;
  }

  /**
   * The verifier an upgrade installs is the auth key of a login that also presented
   * the registered password, before its upgrade; the one a recovery installs is its own.
   */
  lemma VerifiersAreEarned(row: Verifier, events: seq<Event>, i: nat) returns (a: nat, b: nat)
    requires ValidRow(row) && 1 <= i < |Run(Start(row), events).history|
    ensures var h := Run(Start(row), events).history[i];
      h.Upgraded? ==>
        && a < b < |events| && events[b].Write?
        && events[a] == Read(events[b].login, Some(h.verifier.secret), Some(row.secret))
    ensures var h := Run(Start(row), events).history[i];
      h.Recovered? ==> a < |events| && events[a] == Recover(h.verifier.secret)
  {
    hide Run, Step;
    AllTraced(row, events);
    var h := Run(Start(row), events).history[i];
    assert InstallTraced(events, row.secret, h);
    a, b := 0, 0;
    if h.Upgraded? {
      a, b :| UpgradedBy(events, a, b, h.verifier, row.secret);
    } else if h.Recovered? {
      a :| 0 <= a < |events| && events[a] == Recover(h.verifier.secret);
    }
  }

  /** Every session was opened by a login that had presented the secret it counts as proof, and since the last recovery. */
  lemma SessionsAreEarned(row: Verifier, events: seq<Event>, i: nat) returns (a: nat, b: nat)
    requires ValidRow(row) && i < |Run(Start(row), events).sessions|
    ensures var proof := Run(Start(row), events).sessions[i].proof;
      && a < b < |events| && events[b].OpenSession? && events[a].Read? && events[a].login == events[b].login
      && (events[a].key == Some(proof) || events[a].password == Some(proof))
      && forall k :: b < k < |events| ==> !events[k].Recover?
  {
    hide Run, Step;
    AllTraced(row, events);
    var x := Run(Start(row), events).sessions[i];
    assert SessionTraced(events, x);
    a, b :| OpenedBy(events, a, b, x.proof);
  }

  lemma RunThree(s: State, e: Event, f: Event, g: Event)
    ensures Run(s, [e, f, g]) == Step(Step(Step(s, e), f), g)
  {
    hide Step;
    var t := Step(s, e);
    assert [e, f, g][1..] == [f, g] && [f, g][1..] == [g] && [g][1..] == [];
    assert Run(t, [f, g]) == Run(Step(t, f), [g]);
    assert Run(Step(t, f), [g]) == Run(Step(Step(t, f), g), []);
  }

  /**
   * On a version 1 account the right password with an auth key makes that key the
   * verifier and opens a session; on a version 2 account the right key opens one.
   */
  lemma {:induction false} HonestLoginCompletes(s: State, login: LoginId, key: string, password: Option<string>)
    requires login !in s.attempts
    ensures s.row.version == 1 && password == Some(s.row.secret) ==>
      var t := Run(s, [Read(login, Some(key), password), Write(login), OpenSession(login)]);
      && t.row == Verifier(key, 2) && t.history == s.history + [Upgraded(Verifier(key, 2))]
      && t.sessions == s.sessions + [Session(|s.history|, s.row.secret)]
    ensures s.row.version == 2 && key == s.row.secret ==>
      var t := Run(s, [Read(login, Some(key), password), Write(login), OpenSession(login)]);
      && t.row == s.row && t.history == s.history
      && t.sessions == s.sessions + [Session(|s.history|, key)]
  {
    RunThree(s, Read(login, Some(key), password), Write(login), OpenSession(login));
    hide Run;
  }

  // ---------------------------------------------------------------- the service

  class AuthService {
    var accounts: map<string, Verifier>
    var sessions: seq<string>

    /** `loginEmailUser` undisturbed, on a normalised email. */
    method LoginEmailUser(email: string, authKey: Option<string>, password: Option<string>)
      returns (r: Result<(), LoginError>)
      modifies this
      ensures var key := if authKey.Some? then ParseAuthKey(authKey.value) else None;
        if authKey.None? && password.None? then r == Err(MissingCredentials)
        else if authKey.Some? && key.None? then r == Err(InvalidAuthKey)
        else if email !in old(accounts) then r == Err(InvalidCredentials)
        else
          var row := old(accounts)[email];
          if row.version >= 2 then
            r == (if key == Some(row.secret) then Ok(()) else Err(InvalidCredentials)) && accounts == old(accounts)
          else if password.None? then r == Err(UpgradeRequired)
          else if password.value != row.secret then r == Err(InvalidCredentials)
          else r == Ok(()) && accounts == if key.Some? && row.version == 1 then old(accounts)[email := Verifier(key.value, 2)]
                                          else old(accounts)
      ensures r.Err? ==> accounts == old(accounts) && sessions == old(sessions)
      ensures r.Ok? ==> sessions == old(sessions) + [email]
    {
      if authKey.None? && password.None? {
        return Err(MissingCredentials);
      }
      var key: Option<string> := None;
      if authKey.Some? {
        key := ParseAuthKey(authKey.value);
        if key.None? {
          return Err(InvalidAuthKey);
        }
      }
      if email !in accounts {
        return Err(InvalidCredentials);
      }
      var row := accounts[email];
      if row.version >= 2 {
        if key.None? || key.value != row.secret {
          return Err(InvalidCredentials);
        }
        sessions := sessions + [email];
        return Ok(());
      }
      if password.None? {
        return Err(UpgradeRequired);
      }
      if password.value != row.secret {
        return Err(InvalidCredentials);
      }
      if key.Some? {
        UpgradeToAuthKey(email, key.value);
      }
      sessions := sessions + [email];
      r := Ok(());
    }

    method UpgradeToAuthKey(email: string, key: string)
      requires email in accounts
      modifies this`accounts
      ensures accounts == old(accounts)[email := if old(accounts)[email].version == 1 then Verifier(key, 2)
                                                 else old(accounts)[email]]
    {
      if accounts[email].version == 1 {
        accounts := accounts[email := Verifier(key, 2)];
      }
    }

    /** The transaction of `RecoverAccount`, once its recovery code is consumed, and the session it opens. */
    method RecoverAccount(email: string, newAuthKey: string) returns (r: Result<(), LoginError>)
      requires email in accounts
      modifies this
      ensures match ParseAuthKey(newAuthKey)
        case None => r == Err(InvalidAuthKey) && accounts == old(accounts) && sessions == old(sessions)
        case Some(key) => r == Ok(()) && accounts == old(accounts)[email := Verifier(key, 2)]
      ensures r.Ok? ==> multiset(sessions)[email] == 1
      ensures r.Ok? ==> forall other :: other != email ==> multiset(sessions)[other] == multiset(old(sessions))[other]
    {
      var key := ParseAuthKey(newAuthKey);
      if key.None? {
        return Err(InvalidAuthKey);
      }
      accounts := accounts[email := Verifier(key.value, 2)];
      RevokedLeavesOthers(sessions, email);
      sessions := Revoked(sessions, email) + [email];
      r := Ok(());
    }
  }

  /** The sessions left when those of `email` are deleted. */
  function Revoked(sessions: seq<string>, email: string): seq<string> {
    if sessions == [] then [] else (if sessions[0] == email then [] else [sessions[0]]) + Revoked(sessions[1..], email)
  }

  lemma {:induction false} RevokedLeavesOthers(sessions: seq<string>, email: string)
    ensures multiset(Revoked(sessions, email)) == multiset(sessions)[email := 0]
  {
    if sessions != [] {
      RevokedLeavesOthers(sessions[1..], email);
      assert sessions == [sessions[0]] + sessions[1..];
    }
  }
}
