/**
 * The v2 key envelope of packages/vault-crypto/src/envelope.ts.
 *
 * Cryptography is ideal: a derived key determines its inputs, and AES-GCM opens
 * a ciphertext exactly under the key, nonce and additional data it was sealed
 * with.  Random values are parameters.  JSON, UTF-8 and base64 are inverse
 * pairs, so a stored envelope is the value itself; a text field that is not
 * base64 at all is `Malformed`.
 */
module Envelope {
  import opened Base64
  import opened Bytes

  type Raw = seq<byte>

  datatype ScryptParams = ScryptParams(N: nat, r: nat, p: nat)

  const SCRYPT_PARAMS := ScryptParams(32768, 8, 1)

  datatype Key =
    | RandomKey(bytes: Raw)
    | ScryptKey(password: string, salt: Raw, params: ScryptParams)
    | PrfKey(output: Raw)

  /** Additional authenticated data: one label per use of a key. */
  datatype Aad = BodyAad | PasswordWrapAad | PrfWrapAad

  datatype Plain<T> = DekPlain(key: Key) | BodyPlain(data: T)

  datatype Ciphertext<T> =
    | Sealed(key: Key, nonce: Raw, aad: Aad, plain: Plain<T>)
    | Forged(bytes: Raw)

  /** A base64 text field of the envelope. */
  datatype Field<+F> = Good(value: F) | Malformed

  datatype KeyWrap<T> =
    | PasswordWrap(params: ScryptParams, salt: Field<Raw>, nonce: Field<Raw>, ct: Field<Ciphertext<T>>)
    | PrfWrap(credentialId: string, prfSalt: Field<Raw>, nonce: Field<Raw>, ct: Field<Ciphertext<T>>, caption: Option<string>)
    | UnknownWrap

  datatype VaultEnvelope<T> = VaultEnvelope(wraps: seq<KeyWrap<T>>, nonce: Field<Raw>, ct: Field<Ciphertext<T>>)

  datatype VaultError =
    | NoPasswordUnlock | IncorrectPassword | NoPasskeyUnlock | PasskeyFailed
    | UnreadableBody | LastUnlockFactor | PredatesPasskeys | UnrecognisedFormat

  // ---------------------------------------------------------------- ideal AES-GCM

  function Seal<T>(key: Key, nonce: Raw, aad: Aad, plain: Plain<T>): Field<Ciphertext<T>> {
    Good(Sealed(key, nonce, aad, plain))
  }

  function Open<T>(key: Key, nonce: Field<Raw>, ct: Field<Ciphertext<T>>, aad: Aad): Option<Plain<T>> {
    match (nonce, ct)
    case (Good(n), Good(Sealed(k, n', a, plain))) =>
      if k == key && n' == n && a == aad then Some(plain) else None
    case _ => None
  }

  // ---------------------------------------------------------------- operations

  predicate SameCredential(a: string, b: string) {
    Canonical(a) == Canonical(b)
  }

  predicate IsPrfFor<T>(w: KeyWrap<T>, credentialId: string) {
    w.PrfWrap? && SameCredential(w.credentialId, credentialId)
  }

  /** Random values drawn by `createEnvelope`. */
  datatype Draws = Draws(dek: Raw, salt: Raw, wrapNonce: Raw, bodyNonce: Raw)

  function BuildPasswordWrap<T>(dek: Key, password: string, salt: Raw, nonce: Raw): KeyWrap<T> {
    var kek := ScryptKey(password, salt, SCRYPT_PARAMS);
    PasswordWrap(SCRYPT_PARAMS, Good(salt), Good(nonce), Seal(kek, nonce, PasswordWrapAad, DekPlain(dek)))
  }

  function CreateEnvelope<T>(vault: T, password: string, draws: Draws): (VaultEnvelope<T>, Key) {
    var dek := RandomKey(draws.dek);
    (VaultEnvelope([BuildPasswordWrap(dek, password, draws.salt, draws.wrapNonce)],
                   Good(draws.bodyNonce), Seal(dek, draws.bodyNonce, BodyAad, BodyPlain(vault))),
     dek)
  }

  /** The first password wrap that `password` opens. */
  function TryPasswords<T>(wraps: seq<KeyWrap<T>>, password: string): Option<Plain<T>> {
    if wraps == [] then None
    else
      var w := wraps[0];
      var plain :=
        if w.PasswordWrap? && w.salt.Good?
        then Open(ScryptKey(password, w.salt.value, w.params), w.nonce, w.ct, PasswordWrapAad)
        else None;
      if plain.Some? then plain else TryPasswords(wraps[1..], password)
  }

  function UnwrapWithPassword<T>(envelope: VaultEnvelope<T>, password: string): Result<Plain<T>, VaultError> {
    if !exists i :: 0 <= i < |envelope.wraps| && envelope.wraps[i].PasswordWrap? then Err(NoPasswordUnlock)
    else match TryPasswords(envelope.wraps, password)
      case Some(plain) => Ok(plain)
      case None => Err(IncorrectPassword)
  }

  /** `wraps.find(...)`: the first PRF wrap of a credential, under any spelling of its id. */
  function FindPrf<T>(wraps: seq<KeyWrap<T>>, credentialId: string): (r: Option<KeyWrap<T>>)
    ensures r.Some? ==> r.value in wraps && IsPrfFor(r.value, credentialId)
    ensures r.None? <==> forall i :: 0 <= i < |wraps| ==> !IsPrfFor(wraps[i], credentialId)
  {
    if wraps == [] then None
    else if IsPrfFor(wraps[0], credentialId) then Some(wraps[0])
    else FindPrf(wraps[1..], credentialId)
  }

  function UnwrapWithPrf<T>(envelope: VaultEnvelope<T>, credentialId: string, prfOutput: Raw): Result<Plain<T>, VaultError> {
    match FindPrf(envelope.wraps, credentialId)
    case None => Err(NoPasskeyUnlock)
    case Some(w) =>
      match Open(PrfKey(prfOutput), w.nonce, w.ct, PrfWrapAad)
      case None => Err(PasskeyFailed)
      case Some(plain) => Ok(plain)
  }

  function DecryptBody<T>(envelope: VaultEnvelope<T>, dek: Plain<T>): Result<T, VaultError> {
    if dek.BodyPlain? then Err(UnreadableBody)
    else match Open(dek.key, envelope.nonce, envelope.ct, BodyAad)
      case Some(BodyPlain(data)) => Ok(data)
      case _ => Err(UnreadableBody)
  }

  function EncryptBody<T>(envelope: VaultEnvelope<T>, dek: Key, vault: T, nonce: Raw): VaultEnvelope<T> {
    envelope.(nonce := Good(nonce), ct := Seal(dek, nonce, BodyAad, BodyPlain(vault)))
  }

  /** `wraps.filter(...)`: every wrap but the PRF wraps of one credential. */
  function WithoutPrf<T>(wraps: seq<KeyWrap<T>>, credentialId: string): (r: seq<KeyWrap<T>>)
    ensures |r| <= |wraps|
  {
    if wraps == [] then []
    else (if IsPrfFor(wraps[0], credentialId) then [] else [wraps[0]]) + WithoutPrf(wraps[1..], credentialId)
  }

  function AddPrfWrap<T>(envelope: VaultEnvelope<T>, dek: Key, credentialId: string,
                         prfSalt: Raw, prfOutput: Raw, caption: Option<string>, nonce: Raw): VaultEnvelope<T>
  {
    var wrap := PrfWrap(Canonical(credentialId), Good(prfSalt), Good(nonce),
                        Seal(PrfKey(prfOutput), nonce, PrfWrapAad, DekPlain(dek)),
                        if caption == Some("") then None else caption);
    envelope.(wraps := WithoutPrf(envelope.wraps, credentialId) + [wrap])
  }

  function RemovePrfWrap<T>(envelope: VaultEnvelope<T>, credentialId: string): Result<VaultEnvelope<T>, VaultError> {
    var remaining := WithoutPrf(envelope.wraps, credentialId);
    if remaining == [] then Err(LastUnlockFactor) else Ok(envelope.(wraps := remaining))
  }

  /** `enrolledPrfCredentialIds`. */
  function EnrolledIds<T>(wraps: seq<KeyWrap<T>>): (ids: seq<string>) {
    if wraps == [] then []
    else (if wraps[0].PrfWrap? then [Canonical(wraps[0].credentialId)] else []) + EnrolledIds(wraps[1..])
  }
}
