/**
 * Unlocked vaults: packages/vault-crypto/src/vault.ts on top of the envelope.
 *
 * A session is followed over every sequence of saves, enrolments and
 * revocations.  `LastSaved` and `Passkeys` say, from the operations alone, what
 * the stored vault should open to and which passkeys should open it.
 */
module VaultSession {
  import opened Base64
  import opened Bytes
  import opened Envelope

  /** A stored blob.  v1 and v2 are told apart by their JSON, so they are disjoint. */
  datatype Blob<T> =
    | Absent
    | V2(envelope: VaultEnvelope<T>)
    | Legacy(opens: map<string, T>)
    | Unrecognised

  datatype Unlocked<T> = Unlocked(data: T, envelope: VaultEnvelope<T>, dek: Plain<T>, migrated: bool)

  // ---------------------------------------------------------------- unlocking

  function Create<T>(data: T, password: string, draws: Draws, migrated: bool): Unlocked<T> {
    var (envelope, dek) := CreateEnvelope(data, password, draws);
    Unlocked(data, envelope, DekPlain(dek), migrated)
  }

  function OpenBody<T>(envelope: VaultEnvelope<T>, dek: Result<Plain<T>, VaultError>): Result<Unlocked<T>, VaultError> {
    match dek
    case Err(e) => Err(e)
    case Ok(key) =>
      match DecryptBody(envelope, key)
      case Err(e) => Err(e)
      case Ok(data) => Ok(Unlocked(data, envelope, key, false))
  }

  function UnlockWithPassword<T>(blob: Blob<T>, password: string, emptyVault: T, draws: Draws): Result<Unlocked<T>, VaultError> {
    match blob
    case Absent => Ok(Create(emptyVault, password, draws, false))
    case V2(envelope) => OpenBody(envelope, UnwrapWithPassword(envelope, password))
    case Legacy(opens) =>
      if password in opens then Ok(Create(opens[password], password, draws, true)) else Err(IncorrectPassword)
    case Unrecognised => Err(UnrecognisedFormat)
  }

  function UnlockWithPrf<T>(blob: Blob<T>, credentialId: string, prfOutput: Raw): Result<Unlocked<T>, VaultError> {
    if !blob.V2? then Err(PredatesPasskeys)
    else OpenBody(blob.envelope, UnwrapWithPrf(blob.envelope, credentialId, prfOutput))
  }

  // ---------------------------------------------------------------- operations

  datatype Operation<T> =
    | Save(data: T, nonce: Raw)
    | Enroll(credentialId: string, prfSalt: Raw, prfOutput: Raw, caption: Option<string>, nonce: Raw)
    | Revoke(credentialId: string)

  function Apply<T>(u: Unlocked<T>, op: Operation<T>): Result<Unlocked<T>, VaultError>
    requires u.dek.DekPlain?
  {
    match op
    case Save(data, nonce) =>
      Ok(Unlocked(data, EncryptBody(u.envelope, u.dek.key, data, nonce), u.dek, false))
    case Enroll(id, prfSalt, prfOutput, caption, nonce) =>
      Ok(u.(envelope := AddPrfWrap(u.envelope, u.dek.key, id, prfSalt, prfOutput, caption, nonce), migrated := false))
    case Revoke(id) =>
      match RemovePrfWrap(u.envelope, id)
      case Err(e) => Err(e)
      case Ok(envelope) => Ok(u.(envelope := envelope, migrated := false))
  }

  /** A run stops at the first operation that fails. */
  function Run<T>(u: Unlocked<T>, ops: seq<Operation<T>>): (r: Result<Unlocked<T>, VaultError>)
    requires u.dek.DekPlain?
    ensures r.Ok? ==> r.value.dek == u.dek
  {
    if ops == [] then Ok(u)
    else match Run(u, ops[..|ops| - 1])
      case Err(e) => Err(e)
      case Ok(v) => Apply(v, ops[|ops| - 1])
  }

  // ------------------------------------------------ what the operations should amount to

  function LastSaved<T>(initial: T, ops: seq<Operation<T>>): T {
    if ops == [] then initial
    else match ops[|ops| - 1]
      case Save(data, _) => data
      case _ => LastSaved(initial, ops[..|ops| - 1])
  }

  datatype Passkey = Passkey(prfSalt: Raw, prfOutput: Raw)

  /** The passkeys enrolled and not revoked since, by canonical credential id. */
  function Passkeys<T>(ops: seq<Operation<T>>): map<string, Passkey> {
    if ops == [] then map[]
    else
      var before := Passkeys(ops[..|ops| - 1]);
      match ops[|ops| - 1]
      case Save(_, _) => before
      case Enroll(id, prfSalt, prfOutput, _, _) => before[Canonical(id) := Passkey(prfSalt, prfOutput)]
      case Revoke(id) => before - {Canonical(id)}
  }

  // ---------------------------------------------------------------- the invariant

  ghost predicate HoldsDek<T>(w: KeyWrap<T>, dek: Key) {
    match w
    case PasswordWrap(params, Good(salt), Good(n), Good(Sealed(k, n', a, plain))) =>
      k.ScryptKey? && k.salt == salt && k.params == params && n' == n && a == PasswordWrapAad && plain == DekPlain(dek)
    case PrfWrap(_, Good(_), Good(n), Good(Sealed(k, n', a, plain)), _) =>
      k.PrfKey? && n' == n && a == PrfWrapAad && plain == DekPlain(dek)
    case _ => false
  }

  /** The wrap that an enrolled passkey should have. */
  ghost predicate WrapOf<T>(w: KeyWrap<T>, id: string, key: Passkey, dek: Key) {
    && HoldsDek(w, dek)
    && w.PrfWrap?
    && w.credentialId == id
    && w.prfSalt == Good(key.prfSalt)
    && w.ct.value.key == PrfKey(key.prfOutput)
  }

  /** The password wrap stays first; behind it, one wrap per enrolled credential. */
  ghost predicate Invariant<T>(u: Unlocked<T>, password: string, data: T, keys: map<string, Passkey>) {
    && u.dek.DekPlain?
    && u.data == data
    && DecryptBody(u.envelope, u.dek) == Ok(data)
    && |u.envelope.wraps| > 0
    && PasswordWrapFor(u.envelope.wraps[0], password, u.dek.key)
    && PrfWrapsFor(u.envelope.wraps[1..], keys, u.dek.key)
  }

  ghost predicate PasswordWrapFor<T>(w: KeyWrap<T>, password: string, dek: Key) {
    HoldsDek(w, dek) && w.PasswordWrap? && w.ct.value.key.password == password
  }

  ghost predicate PrfWrapsFor<T>(wraps: seq<KeyWrap<T>>, keys: map<string, Passkey>, dek: Key) {
    && (forall i :: 0 <= i < |wraps| ==> IsEnrolled(wraps[i], keys, dek))
    && (forall id :: id in keys ==> Canonical(id) == id && exists i :: 0 <= i < |wraps| && IsWrapWithId(wraps[i], id))
    && (forall i, j :: 0 <= i < j < |wraps| ==> wraps[i].credentialId != wraps[j].credentialId)
  }

  ghost predicate IsWrapWithId<T>(w: KeyWrap<T>, id: string) {
    w.PrfWrap? && w.credentialId == id
  }

  ghost predicate IsEnrolled<T>(w: KeyWrap<T>, keys: map<string, Passkey>, dek: Key) {
    w.PrfWrap? && w.credentialId in keys && WrapOf(w, w.credentialId, keys[w.credentialId], dek)
  }

  // ---------------------------------------------------------------- filtering

  lemma {:induction false} WithoutPrfMember<T>(wraps: seq<KeyWrap<T>>, id: string, w: KeyWrap<T>)
    ensures w in WithoutPrf(wraps, id) <==> w in wraps && !IsPrfFor(w, id)
  {
    if wraps != [] {
      WithoutPrfMember(wraps[1..], id, w);
      assert w in wraps <==> w == wraps[0] || w in wraps[1..];
    }
  }

  ghost predicate DistinctIds<T>(wraps: seq<KeyWrap<T>>) {
    && (forall i :: 0 <= i < |wraps| ==> wraps[i].PrfWrap?)
    && (forall i, j :: 0 <= i < j < |wraps| ==> wraps[i].credentialId != wraps[j].credentialId)
  }

  lemma {:induction false} WithoutPrfDistinct<T>(wraps: seq<KeyWrap<T>>, id: string)
    requires DistinctIds(wraps)
    ensures DistinctIds(WithoutPrf(wraps, id))
  {
    if wraps != [] {
      hide IsPrfFor;
      var rest := WithoutPrf(wraps[1..], id);
      WithoutPrfDistinct(wraps[1..], id);
      forall j | 0 <= j < |rest|
        ensures rest[j].credentialId != wraps[0].credentialId
      {
        assert rest[j] in rest;
        WithoutPrfMember(wraps[1..], id, rest[j]);
        var k :| 0 <= k < |wraps[1..]| && wraps[1..][k] == rest[j];
        assert wraps[k + 1] == rest[j];
      }
    }
  }

  // ---------------------------------------------------------------- every operation keeps the invariant

  lemma CreateEstablishes<T>(data: T, password: string, draws: Draws, migrated: bool)
    ensures Invariant(Create(data, password, draws, migrated), password, data, map[])
  {
    var u := Create(data, password, draws, migrated);
    assert u.envelope.wraps[1..] == [];
  }

  lemma {:induction false} RevokeKeepsWraps<T>(wraps: seq<KeyWrap<T>>, keys: map<string, Passkey>, dek: Key, id: string)
    requires PrfWrapsFor(wraps, keys, dek)
    ensures PrfWrapsFor(WithoutPrf(wraps, id), keys - {Canonical(id)}, dek)
    ensures forall i :: 0 <= i < |WithoutPrf(wraps, id)| ==> WithoutPrf(wraps, id)[i].credentialId != Canonical(id)
  {
    hide Canonical, WithoutPrf, WrapOf;
    var r, left := WithoutPrf(wraps, id), keys - {Canonical(id)};
    WithoutPrfDistinct(wraps, id);
    forall i | 0 <= i < |r|
      ensures IsEnrolled(r[i], left, dek) && r[i].credentialId != Canonical(id)
    {
      assert r[i] in r;
      WithoutPrfMember(wraps, id, r[i]);
      assert IsEnrolled(r[i], keys, dek);
      assert r[i].credentialId in keys;
    }
    forall other | other in left
      ensures exists i :: 0 <= i < |r| && IsWrapWithId(r[i], other)
    {
      var j :| 0 <= j < |wraps| && IsWrapWithId(wraps[j], other);
      WithoutPrfMember(wraps, id, wraps[j]);
      assert other in keys;
      assert wraps[j] in r;
    }
  }

  lemma {:induction false} AppendKeepsWraps<T>(wraps: seq<KeyWrap<T>>, keys: map<string, Passkey>, dek: Key,
                            id: string, key: Passkey, w: KeyWrap<T>)
    requires PrfWrapsFor(wraps, keys, dek)
    requires forall i :: 0 <= i < |wraps| ==> wraps[i].credentialId != id
    requires Canonical(id) == id && WrapOf(w, id, key, dek)
    ensures PrfWrapsFor(wraps + [w], keys[id := key], dek)
  {
    WrapOfShape(w, id, key, dek);
    hide Canonical, WrapOf;
    var all, now := wraps + [w], keys[id := key];
    forall i | 0 <= i < |all|
      ensures IsEnrolled(all[i], now, dek)
    {
      if i < |wraps| {
        assert IsEnrolled(wraps[i], keys, dek);
      }
    }
    forall other | other in now
      ensures Canonical(other) == other
      ensures exists i :: 0 <= i < |all| && IsWrapWithId(all[i], other)
    {
      if other == id {
        assert IsWrapWithId(all[|wraps|], other);
      } else {
        assert other in keys;
        var i :| 0 <= i < |wraps| && IsWrapWithId(wraps[i], other);
        assert IsWrapWithId(all[i], other);
      }
    }
  }

  lemma {:induction false} EnrollKeepsWraps<T>(wraps: seq<KeyWrap<T>>, keys: map<string, Passkey>, dek: Key,
                            id: string, key: Passkey, w: KeyWrap<T>)
    requires PrfWrapsFor(wraps, keys, dek)
    requires WrapOf(w, Canonical(id), key, dek)
    ensures PrfWrapsFor(WithoutPrf(wraps, id) + [w], keys[Canonical(id) := key], dek)
  {
    RevokeKeepsWraps(wraps, keys, dek, id);
    CanonicalIdempotent(id);
    var c := Canonical(id);
    hide *;
    AppendKeepsWraps(WithoutPrf(wraps, id), keys - {c}, dek, c, key, w);
    RemoveThenSet(keys, c, key);
  }

  lemma RemoveThenSet(keys: map<string, Passkey>, id: string, key: Passkey)
    ensures (keys - {id})[id := key] == keys[id := key]
  {
  }

  lemma WrapOfShape<T>(w: KeyWrap<T>, id: string, key: Passkey, dek: Key)
    requires WrapOf(w, id, key, dek)
    ensures w.PrfWrap? && w.credentialId == id
  {
  }

  lemma PasswordWrapSurvives<T>(wraps: seq<KeyWrap<T>>, id: string)
    requires |wraps| > 0 && wraps[0].PasswordWrap?
    ensures WithoutPrf(wraps, id) == [wraps[0]] + WithoutPrf(wraps[1..], id)
  {
  }

  lemma {:induction false} StepKeepsInvariant<T>(u: Unlocked<T>, op: Operation<T>, password: string, data: T, keys: map<string, Passkey>)
    requires Invariant(u, password, data, keys)
    ensures Apply(u, op).Ok?
    ensures match op
      case Save(d, _) => Invariant(Apply(u, op).value, password, d, keys)
      case Enroll(id, prfSalt, prfOutput, _, _) =>
        Invariant(Apply(u, op).value, password, data, keys[Canonical(id) := Passkey(prfSalt, prfOutput)])
      case Revoke(id) => Invariant(Apply(u, op).value, password, data, keys - {Canonical(id)})
  {
    hide Canonical, WithoutPrf, PrfWrapsFor;
    match op
    case Save(d, n) =>
    case Enroll(id, prfSalt, prfOutput, _, n) =>
      var v := Apply(u, op).value;
      PasswordWrapSurvives(u.envelope.wraps, id);
      var w := v.envelope.wraps[|v.envelope.wraps| - 1];
      EnrollKeepsWraps(u.envelope.wraps[1..], keys, u.dek.key, id, Passkey(prfSalt, prfOutput), w);
      assert v.envelope.wraps[1..] == WithoutPrf(u.envelope.wraps[1..], id) + [w];
    case Revoke(id) =>
      PasswordWrapSurvives(u.envelope.wraps, id);
      RevokeKeepsWraps(u.envelope.wraps[1..], keys, u.dek.key, id);
      var v := Apply(u, op).value;
      assert v.envelope.wraps[1..] == WithoutPrf(u.envelope.wraps[1..], id);
  }

  /** No run of saves, enrolments and revocations fails, and every one keeps the invariant. */
  lemma {:induction false} RunKeepsInvariant<T>(u: Unlocked<T>, ops: seq<Operation<T>>, password: string, data: T)
    requires Invariant(u, password, data, map[])
    ensures Run(u, ops).Ok?
    ensures Invariant(Run(u, ops).value, password, LastSaved(data, ops), Passkeys(ops))
  {
    if ops != [] {
      var front, last := ops[..|ops| - 1], ops[|ops| - 1];
      RunKeepsInvariant(u, front, password, data);
      hide Invariant, Apply;
      StepKeepsInvariant(Run(u, front).value, last, password, LastSaved(data, front), Passkeys(front));
    }
  }

  // ---------------------------------------------------------------- what opens a stored vault

  lemma {:induction false} OnlyFirstPassword<T>(wraps: seq<KeyWrap<T>>, password: string)
    requires forall i :: 0 <= i < |wraps| ==> !wraps[i].PasswordWrap?
    ensures TryPasswords(wraps, password) == None
  {
    if wraps != [] {
      OnlyFirstPassword(wraps[1..], password);
    }
  }

  /** The password opens the vault to the last saved data; every other password is refused. */
  lemma PasswordOpens<T>(u: Unlocked<T>, password: string, data: T, keys: map<string, Passkey>,
                         attempt: string, emptyVault: T, draws: Draws)
    requires Invariant(u, password, data, keys)
    ensures UnlockWithPassword(V2(u.envelope), attempt, emptyVault, draws) ==
      if attempt == password then Ok(Unlocked(data, u.envelope, u.dek, false)) else Err(IncorrectPassword)
  {
    var wraps := u.envelope.wraps;
    forall i | 0 <= i < |wraps[1..]|
      ensures !wraps[1..][i].PasswordWrap?
    {
      assert IsEnrolled(wraps[1..][i], keys, u.dek.key);
    }
    OnlyFirstPassword(wraps[1..], attempt);
    assert wraps[0].PasswordWrap?;
  }

  /** A passkey opens the vault exactly when it is enrolled, and to the same data. */
  lemma {:induction false} PasskeyOpens<T>(u: Unlocked<T>, password: string, data: T, keys: map<string, Passkey>,
                        credentialId: string, prfOutput: Raw)
    requires Invariant(u, password, data, keys)
    ensures UnlockWithPrf(V2(u.envelope), credentialId, prfOutput) ==
      if Canonical(credentialId) !in keys then Err(NoPasskeyUnlock)
      else if keys[Canonical(credentialId)].prfOutput != prfOutput then Err(PasskeyFailed)
      else Ok(Unlocked(data, u.envelope, u.dek, false))
  {
  }

  // ---------------------------------------------------------------- whole sessions

  ghost predicate AllHoldDek<T>(u: Unlocked<T>) {
    && u.dek.DekPlain?
    && DecryptBody(u.envelope, u.dek) == Ok(u.data)
    && forall i :: 0 <= i < |u.envelope.wraps| ==> HoldsDek(u.envelope.wraps[i], u.dek.key)
  }

  ghost predicate OneWrapPerCredential<T>(wraps: seq<KeyWrap<T>>) {
    forall i, j :: 0 <= i < j < |wraps| && wraps[i].PrfWrap? && wraps[j].PrfWrap? ==>
      !SameCredential(wraps[i].credentialId, wraps[j].credentialId)
  }

  lemma InvariantImpliesDeks<T>(u: Unlocked<T>, password: string, data: T, keys: map<string, Passkey>)
    requires Invariant(u, password, data, keys)
    ensures AllHoldDek(u)
  {
  }

  lemma InvariantImpliesOneWrap<T>(u: Unlocked<T>, password: string, data: T, keys: map<string, Passkey>)
    requires Invariant(u, password, data, keys)
    ensures OneWrapPerCredential(u.envelope.wraps)
  {
  }

  /**
   * The promise of the envelope, over every session.  Starting from a fresh
   * vault - or one migrated from v1 - no save, enrolment or revocation fails.
   * What is then stored opens to the last saved data: with the password and no
   * other, and with exactly the passkeys enrolled and not revoked since.  Either
   * way the reopened session is the one that was closed.
   */
  lemma {:induction false} SessionTheorem<T>(initial: T, password: string, draws: Draws, migrated: bool, ops: seq<Operation<T>>,
                          attempt: string, emptyVault: T, draws': Draws, credentialId: string, prfOutput: Raw)
    ensures var r := Run(Create(initial, password, draws, migrated), ops);
      && r.Ok?
      && r.value.data == LastSaved(initial, ops)
      && AllHoldDek(r.value)
      && OneWrapPerCredential(r.value.envelope.wraps)
      && UnlockWithPassword(V2(r.value.envelope), attempt, emptyVault, draws') ==
           (if attempt == password then Ok(r.value.(migrated := false)) else Err(IncorrectPassword))
      && UnlockWithPrf(V2(r.value.envelope), credentialId, prfOutput) ==
           (if Canonical(credentialId) !in Passkeys(ops) then Err(NoPasskeyUnlock)
            else if Passkeys(ops)[Canonical(credentialId)].prfOutput != prfOutput then Err(PasskeyFailed)
            else Ok(r.value.(migrated := false)))
  {
    var u0 := Create(initial, password, draws, migrated);
    CreateEstablishes(initial, password, draws, migrated);
    RunKeepsInvariant(u0, ops, password, initial);
    var u, data, keys := Run(u0, ops).value, LastSaved(initial, ops), Passkeys(ops);
    PasswordOpens(u, password, data, keys, attempt, emptyVault, draws');
    PasskeyOpens(u, password, data, keys, credentialId, prfOutput);
    InvariantImpliesDeks(u, password, data, keys);
    InvariantImpliesOneWrap(u, password, data, keys);
    assert u.data == data;
    hide *;
  }

  /** Migration from v1 re-keys the vault: the stored v2 blob opens to the v1 data, with that password only. */
  lemma MigrationKeepsData<T>(opens: map<string, T>, password: string, emptyVault: T, draws: Draws,
                              attempt: string, draws': Draws)
    ensures UnlockWithPassword(Legacy(opens), password, emptyVault, draws).Ok? <==> password in opens
    ensures password in opens ==>
      var u := UnlockWithPassword(Legacy(opens), password, emptyVault, draws).value;
      && u.migrated
      && UnlockWithPassword(V2(u.envelope), attempt, emptyVault, draws') ==
           if attempt == password then Ok(Unlocked(opens[password], u.envelope, u.dek, false)) else Err(IncorrectPassword)
  {
    if password in opens {
      CreateEstablishes(opens[password], password, draws, true);
      PasswordOpens(Create(opens[password], password, draws, true), password, opens[password], map[],
                    attempt, emptyVault, draws');
    }
  }

  /** What a new envelope holds: one password wrap under the fixed parameters, and the body, each under its own draws. */
  lemma CreateWrites<T>(data: T, password: string, draws: Draws, migrated: bool)
    ensures var kdf := ScryptParams(32768, 8, 1);
      var dek := RandomKey(draws.dek);
      Create(data, password, draws, migrated).envelope == VaultEnvelope(
        [PasswordWrap(kdf, Good(draws.salt), Good(draws.wrapNonce),
           Good(Sealed(ScryptKey(password, draws.salt, kdf), draws.wrapNonce, PasswordWrapAad, DekPlain(dek))))],
        Good(draws.bodyNonce), Good(Sealed(dek, draws.bodyNonce, BodyAad, BodyPlain(data))))
  {
  }

  /** Without a stored vault, any password creates an empty one that it alone opens; other formats are refused. */
  lemma {:induction false} OtherFormats<T>(password: string, emptyVault: T, draws: Draws, attempt: string, draws': Draws,
                        blob: Blob<T>, credentialId: string, prfOutput: Raw)
    ensures var r := UnlockWithPassword(Absent, password, emptyVault, draws);
      && r.Ok? && r.value.data == emptyVault && !r.value.migrated
      && UnlockWithPassword(V2(r.value.envelope), attempt, emptyVault, draws') ==
           if attempt == password then r else Err(IncorrectPassword)
    ensures UnlockWithPassword(Unrecognised, password, emptyVault, draws) == Err(UnrecognisedFormat)
    ensures !blob.V2? ==> UnlockWithPrf(blob, credentialId, prfOutput) == Err(PredatesPasskeys)
  {
    CreateEstablishes(emptyVault, password, draws, false);
    PasswordOpens(Create(emptyVault, password, draws, false), password, emptyVault, map[], attempt, emptyVault, draws');
  }

  lemma {:induction false} TriesInOrder<T>(wraps: seq<KeyWrap<T>>, password: string) returns (i: nat)
    ensures i <= |wraps|
    ensures forall j :: 0 <= j < i ==> OpenedBy(wraps[j], password).None?
    ensures TryPasswords(wraps, password) == if i == |wraps| then None else OpenedBy(wraps[i], password)
    ensures i < |wraps| ==> OpenedBy(wraps[i], password).Some?
  {
    if wraps == [] || OpenedBy(wraps[0], password).Some? {
      i := 0;
    } else {
      i := TriesInOrder(wraps[1..], password);
      i := i + 1;
    }
  }

  /** What a password gets out of one wrap. */
  function OpenedBy<T>(w: KeyWrap<T>, password: string): Option<Plain<T>> {
    match w
    case PasswordWrap(params, Good(salt), Good(n), Good(Sealed(k, n', a, plain))) =>
      if k == ScryptKey(password, salt, params) && n' == n && a == PasswordWrapAad then Some(plain) else None
    case _ => None
  }

  /**
   * In any envelope, with any number of password wraps, the password gets what the
   * first wrap it opens holds; the error tells whether there was one to try.
   */
  lemma EveryPasswordWrapIsTried<T>(envelope: VaultEnvelope<T>, password: string) returns (i: nat)
    ensures i <= |envelope.wraps|
    ensures forall j :: 0 <= j < i ==> OpenedBy(envelope.wraps[j], password).None?
    ensures i < |envelope.wraps| ==>
      && OpenedBy(envelope.wraps[i], password).Some?
      && UnwrapWithPassword(envelope, password) == Ok(OpenedBy(envelope.wraps[i], password).value)
    ensures i == |envelope.wraps| ==> UnwrapWithPassword(envelope, password).Err?
    ensures UnwrapWithPassword(envelope, password) == Err(NoPasswordUnlock)
        <==> forall j :: 0 <= j < |envelope.wraps| ==> !envelope.wraps[j].PasswordWrap?
  {
    hide TryPasswords;
    i := TriesInOrder(envelope.wraps, password);
  }

  /**
   * What each operation writes, on any envelope: a save seals the data under its own
   * nonce and leaves the wraps; an enrolment appends the one new wrap, sealed under its
   * own nonce; enrolling and revoking leave the body, and drop exactly the wraps of
   * that credential, under any spelling.
   */
  lemma OperationsWrite<T>(u: Unlocked<T>, op: Operation<T>, w: KeyWrap<T>)
    requires u.dek.DekPlain?
    ensures var dropped := (k: KeyWrap<T>, id: string) => k.PrfWrap? && Canonical(k.credentialId) == Canonical(id);
      match op
      case Save(data, n) =>
        var e := Apply(u, op).value.envelope;
        && e.nonce == Good(n) && e.ct == Good(Sealed(u.dek.key, n, BodyAad, BodyPlain(data))) && e.wraps == u.envelope.wraps
        && Apply(u, op).value.data == data
      case Enroll(id, prfSalt, prfOutput, caption, n) =>
        var e := Apply(u, op).value.envelope;
        && e.nonce == u.envelope.nonce && e.ct == u.envelope.ct && |e.wraps| > 0
        && e.wraps[|e.wraps| - 1] == PrfWrap(Canonical(id), Good(prfSalt), Good(n),
             Good(Sealed(PrfKey(prfOutput), n, PrfWrapAad, DekPlain(u.dek.key))),
             if caption == Some("") then None else caption)
        && (w in e.wraps[..|e.wraps| - 1] <==> w in u.envelope.wraps && !dropped(w, id))
        && Apply(u, op).value.data == u.data
      case Revoke(id) =>
        match Apply(u, op)
        case Ok(v) =>
          && v.envelope.nonce == u.envelope.nonce && v.envelope.ct == u.envelope.ct && v.data == u.data
          && (w in v.envelope.wraps <==> w in u.envelope.wraps && !dropped(w, id))
        case Err(error) => error == LastUnlockFactor && (w in u.envelope.wraps ==> dropped(w, id))
  {
    hide Canonical, WithoutPrf;
    match op
    case Save(_, _) =>
    case Enroll(id, _, _, _, _) =>
      WithoutPrfMember(u.envelope.wraps, id, w);
      var e := Apply(u, op).value.envelope;
      assert e.wraps[..|e.wraps| - 1] == WithoutPrf(u.envelope.wraps, id);
    case Revoke(id) =>
      WithoutPrfMember(u.envelope.wraps, id, w);
  }

  // ---------------------------------------------------------------- salts offered before unlocking

  /** What `passkeyUnlockSalts` should return for a v2 blob; `None` is its exception on a malformed salt. */
  ghost predicate SaltsOffered<T>(wraps: seq<KeyWrap<T>>, r: Option<map<string, Raw>>) {
    match r
    case None => exists id :: id in EnrolledIds(wraps) && FindPrf(wraps, id).Some? && FindPrf(wraps, id).value.prfSalt.Malformed?
    case Some(salts) => Collected(wraps, EnrolledIds(wraps), salts)
  }

  ghost predicate Collected<T>(wraps: seq<KeyWrap<T>>, ids: seq<string>, salts: map<string, Raw>) {
    && (forall id :: id in salts <==> id in ids)
    && (forall id :: id in salts ==> TriesSalt(wraps, id, salts[id]))
  }

  /** The wrap tried for `id` was enrolled with `salt`. */
  ghost predicate TriesSalt<T>(wraps: seq<KeyWrap<T>>, id: string, salt: Raw) {
    FindPrf(wraps, id).Some? && FindPrf(wraps, id).value.prfSalt == Good(salt)
  }

  lemma NothingCollected<T>(wraps: seq<KeyWrap<T>>, ids: seq<string>)
    ensures Collected(wraps, ids[..0], map[])
  {
  }

  lemma CollectOne<T>(wraps: seq<KeyWrap<T>>, ids: seq<string>, n: nat, salts: map<string, Raw>, salt: Raw)
    requires n < |ids| && Collected(wraps, ids[..n], salts)
    requires FindPrf(wraps, ids[n]).Some? && FindPrf(wraps, ids[n]).value.prfSalt == Good(salt)
    ensures Collected(wraps, ids[..n + 1], salts[ids[n] := salt])
  {
    hide FindPrf;
    assert TriesSalt(wraps, ids[n], salt);
    assert ids[..n + 1] == ids[..n] + [ids[n]];
    hide TriesSalt;
  }

  lemma {:induction false} EnrolledIdFound<T>(wraps: seq<KeyWrap<T>>, id: string)
    ensures Canonical(id) in EnrolledIds(wraps) <==> FindPrf(wraps, id).Some?
    ensures id in EnrolledIds(wraps) ==> Canonical(id) == id
  {
    if wraps != [] {
      if wraps[0].PrfWrap? {
        CanonicalIdempotent(wraps[0].credentialId);
      }
      hide Canonical;
      EnrolledIdFound(wraps[1..], id);
    }
  }

  lemma {:induction false} FindAnySpelling<T>(wraps: seq<KeyWrap<T>>, id: string)
    ensures FindPrf(wraps, id) == FindPrf(wraps, Canonical(id))
  {
    CanonicalIdempotent(id);
    if wraps != [] {
      FindAnySpelling(wraps[1..], id);
    }
  }

  lemma EnrolledHasWrap<T>(wraps: seq<KeyWrap<T>>, id: string)
    requires id in EnrolledIds(wraps)
    ensures FindPrf(wraps, id).Some? && FindPrf(wraps, id).value.PrfWrap?
  {
    EnrolledIdFound(wraps, id);
    hide EnrolledIds, Canonical;
  }

  lemma MalformedSaltOffered<T>(wraps: seq<KeyWrap<T>>, id: string)
    requires id in EnrolledIds(wraps) && FindPrf(wraps, id).Some? && FindPrf(wraps, id).value.prfSalt.Malformed?
    ensures SaltsOffered(wraps, None)
  {
    hide EnrolledIds, FindPrf;
  }

  lemma CollectedAreOffered<T>(wraps: seq<KeyWrap<T>>, salts: map<string, Raw>)
    requires Collected(wraps, EnrolledIds(wraps), salts)
    ensures SaltsOffered(wraps, Some(salts))
  {
    hide EnrolledIds, Collected;
  }

  method PasskeyUnlockSalts<T>(blob: Blob<T>) returns (r: Option<map<string, Raw>>)
    ensures !blob.V2? ==> r == Some(map[])
    ensures blob.V2? ==> SaltsOffered(blob.envelope.wraps, r)
  {
    if !blob.V2? {
      return Some(map[]);
    }
    hide *;
    var wraps := blob.envelope.wraps;
    var ids := EnrolledIds(wraps);
    var salts: map<string, Raw> := map[];
    NothingCollected(wraps, ids);
    for n := 0 to |ids|
      invariant Collected(wraps, ids[..n], salts)
    {
      var id := ids[n];
      var found := FindPrf(wraps, id);
      EnrolledHasWrap(wraps, id);
      if found.Some? {
        if found.value.prfSalt.Malformed? {
          MalformedSaltOffered(wraps, id);
          return None;
        }
        CollectOne(wraps, ids, n, salts, found.value.prfSalt.value);
        salts := salts[id := found.value.prfSalt.value];
      }
    }
    assert ids[..|ids|] == ids;
    CollectedAreOffered(wraps, salts);
    return Some(salts);
  }

  /**
   * For every stored envelope, whatever spellings its credential ids have: a
   * salt is offered for a credential exactly when it has a wrap, and it is the
   * salt of the very wrap that unlocking will try.
   */
  lemma {:induction false} OfferedSaltIsTried<T>(wraps: seq<KeyWrap<T>>, salts: map<string, Raw>, credentialId: string)
    requires SaltsOffered(wraps, Some(salts))
    ensures Canonical(credentialId) in salts <==> FindPrf(wraps, credentialId).Some?
    ensures Canonical(credentialId) in salts ==>
      FindPrf(wraps, credentialId).value.prfSalt == Good(salts[Canonical(credentialId)])
  {
    EnrolledIdFound(wraps, credentialId);
    FindAnySpelling(wraps, credentialId);
  }

  /** So a deterministic authenticator, evaluated on the offered salt, opens any honestly made wrap. */
  lemma {:induction false} OfferedSaltUnlocks<T>(envelope: VaultEnvelope<T>, salts: map<string, Raw>, credentialId: string,
                              authenticator: (string, Raw) -> Raw, nonce: Raw, dek: Key, data: T)
    requires SaltsOffered(envelope.wraps, Some(salts))
    requires FindPrf(envelope.wraps, credentialId).Some?
    requires DecryptBody(envelope, DekPlain(dek)) == Ok(data)
    requires var w := FindPrf(envelope.wraps, credentialId).value;
      && w.prfSalt.Good?
      && w.nonce == Good(nonce)
      && w.ct == Seal(PrfKey(authenticator(Canonical(credentialId), w.prfSalt.value)), nonce, PrfWrapAad, DekPlain(dek))
    ensures Canonical(credentialId) in salts
    ensures UnlockWithPrf(V2(envelope), credentialId,
                          authenticator(Canonical(credentialId), salts[Canonical(credentialId)]))
      == Ok(Unlocked(data, envelope, DekPlain(dek), false))
  {
    OfferedSaltIsTried(envelope.wraps, salts, credentialId);
  }
}
