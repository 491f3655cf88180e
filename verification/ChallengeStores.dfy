/**
 * The two stores of backend/internal/auth/challenge_store.go and the login of
 * backend/internal/auth/nostr.go that runs over the shared one. Each method is
 * proved to be the steps of `Challenges` it stands for.
 */
module ChallengeStores {
  import opened Bytes
  import opened Challenges

  datatype StoreError = DuplicateChallenge

  /** The auth_challenges table: id is its key and value is unique. */
  class PgChallengeStore {
    var rows: Rows

    /** The key and the unique constraint of the table. */
    ghost predicate Keyed()
      reads this
    {
      && (forall id :: id in rows ==> rows[id].id == id)
      && (forall id, k :: id in rows && k in rows && rows[id].value == rows[k].value ==> id == k)
    }

    /** Prunes what expired more than an hour ago, then inserts unless that would repeat an id or a value. */
    method Put(c: Challenge, now: Time) returns (r: Result<(), StoreError>)
      requires Keyed()
      modifies this
      ensures Keyed()
      ensures r.Err? <==> exists id :: id in old(rows) && old(rows)[id].expiresAt >= now - 3600
                                       && (id == c.id || old(rows)[id].value == c.value)
      ensures forall id :: id in rows <==> (r.Ok? && id == c.id) || (id in old(rows) && old(rows)[id].expiresAt >= now - 3600)
      ensures forall id :: id in rows ==> rows[id] == if r.Ok? && id == c.id then c else old(rows)[id]
    {
      rows := map id | id in rows && !(rows[id].expiresAt < now - HOUR) :: rows[id];
      assert forall id :: id in old(rows) && old(rows)[id].expiresAt >= now - 3600 ==> id in rows && rows[id] == old(rows)[id];
      if id :| id in rows && (id == c.id || rows[id].value == c.value) {
        assert rows[id] == old(rows)[id];
        return Err(DuplicateChallenge);
      }
      rows := rows[c.id := c];
      r := Ok(());
    }

    method Lookup(value: string) returns (found: Option<Challenge>)
      ensures FoundBy(rows, value, found)
    {
      if id :| id in rows && rows[id].value == value {
        return Some(rows[id]);
      }
      found := None;
    }

    method Consume(id: Id) returns (removed: bool)
      modifies this
      ensures rows == old(rows) - {id} && removed == (id in old(rows))
      ensures old(Keyed()) ==> Keyed()
    {
      removed := id in rows;
      rows := rows - {id};
    }
  }

  class MemoryChallengeStore {
    var m: Rows

    method Put(c: Challenge)
      modifies this
      ensures m == old(m)[c.id := c]
    {
      m := m[c.id := c];
    }

    method Lookup(value: string) returns (found: Option<Challenge>)
      ensures FoundBy(m, value, found)
    {
      var left := m.Keys;
      while left != {}
        invariant left <= m.Keys
        invariant forall id :: id in m && id !in left ==> m[id].value != value
        decreases left
      {
        var id :| id in left;
        if m[id].value == value {
          return Some(m[id]);
        }
        left := left - {id};
      }
      found := None;
    }

    method Consume(id: Id) returns (removed: bool)
      modifies this
      ensures m == old(m) - {id} && removed == (id in old(m))
    {
      if id !in m {
        return false;
      }
      m := m - {id};
      removed := true;
    }
  }

  ghost predicate FoundBy(rows: Rows, value: string, found: Option<Challenge>) {
    match found
    case Some(c) => exists id :: id in rows && rows[id] == c && c.value == value
    case None => forall id :: id in rows ==> rows[id].value != value
  }

  /** Among honestly issued rows a lookup has only one answer. */
  lemma FoundByIsFind(rows: Rows, issued: Rows, value: string, found: Option<Challenge>)
    requires IssuedOk(issued) && StoreOk(rows, issued)
    ensures FoundBy(rows, value, found) <==> found == Find(rows, value)
  {
  }

  // ---------------------------------------------------------------- the login

  /** The signed event: what the login reads of it, and whether the rest of it verifies. */
  datatype Event = Event(kind: int, pubkey: string, challenge: string, createdAt: Time, signed: bool)

  datatype LoginError = Malformed | InvalidCredentials | InvalidChallenge | ChallengeExpired

  const KIND: int := 22242
  const TOLERANCE: int := 300

  /** `AuthenticateWithNostr` undisturbed, up to the admission. */
  method AuthenticateWithNostr(store: PgChallengeStore, pubkey: string, e: Event, now: Time)
    returns (r: Result<Challenge, LoginError>)
    requires store.Keyed()
    modifies store
    ensures store.Keyed()
    // Admitted: exactly a well-formed, fresh, signed event on an unexpired challenge of its own public key.
    ensures r.Ok? <==>
      && pubkey != "" && e.kind == 22242 && e.pubkey == pubkey && e.challenge != ""
      && e.signed && -300 <= now - e.createdAt <= 300
      && exists id :: id in old(store.rows) && old(store.rows)[id].value == e.challenge
                   && old(store.rows)[id].pubkey == pubkey && now <= old(store.rows)[id].expiresAt
    ensures r.Ok? ==>
      && r.value.id in old(store.rows) && r.value == old(store.rows)[r.value.id]
      && r.value.value == e.challenge && r.value.pubkey == pubkey && now <= r.value.expiresAt
      && store.rows == old(store.rows) - {r.value.id}
    // Refused: the source's errors, in its order; only an expired challenge is dropped.
    ensures r == Err(Malformed) <==> pubkey == "" || e.kind != 22242
    ensures r == Err(ChallengeExpired) <==>
      && pubkey != "" && e.kind == 22242 && e.pubkey == pubkey && e.challenge != ""
      && exists id :: id in old(store.rows) && old(store.rows)[id].value == e.challenge && old(store.rows)[id].expiresAt < now
    ensures r == Err(InvalidChallenge) <==>
      && pubkey != "" && e.kind == 22242 && e.pubkey == pubkey
      && (e.challenge == ""
          || forall id :: id in old(store.rows) && old(store.rows)[id].value == e.challenge ==>
               now <= old(store.rows)[id].expiresAt && old(store.rows)[id].pubkey != pubkey)
    ensures r == Err(ChallengeExpired) ==>
      forall id :: id in store.rows <==> id in old(store.rows) && old(store.rows)[id].value != e.challenge
    ensures r == Err(ChallengeExpired) ==> forall id :: id in store.rows ==> store.rows[id] == old(store.rows)[id]
    ensures r.Err? && r.error != ChallengeExpired ==> store.rows == old(store.rows)
  {
    if pubkey == "" || e.kind != KIND {
      return Err(Malformed);
    }
    if e.pubkey != pubkey {
      return Err(InvalidCredentials);
    }
    if e.challenge == "" {
      return Err(InvalidChallenge);
    }
    var found := store.Lookup(e.challenge);
    if found.None? {
      return Err(InvalidChallenge);
    }
    var c := found.value;
    assert c.id in store.rows && store.rows[c.id] == c;
    if now > c.expiresAt {
      var _ := store.Consume(c.id);
      return Err(ChallengeExpired);
    }
    if c.pubkey != pubkey {
      return Err(InvalidChallenge);
    }
    var diff := now - e.createdAt;
    if diff < -TOLERANCE || diff > TOLERANCE || !e.signed {
      return Err(InvalidCredentials);
    }
    var consumed := store.Consume(c.id);
    if !consumed {
      return Err(InvalidChallenge);
    }
    r := Ok(c);
  }
}
