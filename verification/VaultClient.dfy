/**
 * The classes behind the protocol: `Service` of backend/internal/vault/vault.go
 * and `VaultClient` of packages/vault-client/src/client.ts.
 *
 * Each method is proved to be the corresponding step of `SaveProtocol`.  What
 * the network does with a request is a parameter: `None` is a failed call.
 */
module VaultClients {
  import opened Bytes
  import opened SaveProtocol

  type UserId = nat

  datatype UpdateError = VaultNotFound | VaultConflict(expected: nat, got: nat)

  class Service {
    var vaults: map<UserId, Row>

    function Lookup(userID: UserId): Option<Row>
      reads this
    {
      if userID in vaults then Some(vaults[userID]) else None
    }

    method GetVault(userID: UserId) returns (r: Option<Row>)
      ensures r == Lookup(userID)
    {
      r := if userID in vaults then Some(vaults[userID]) else None;
    }

    /** One transaction: check the stored version, then write data and version. */
    method UpdateVault(userID: UserId, data: Vault, version: nat) returns (r: Result<Row, UpdateError>)
      modifies this
      ensures (Lookup(userID), if r.Ok? then Accepted(r.value.version) else Conflict)
           == SaveProtocol.UpdateVault(old(Lookup(userID)), data, version)
      ensures r.Ok? ==> Lookup(userID) == Some(r.value)
      ensures r == Err(VaultNotFound) <==> userID !in old(vaults)
      ensures r.Ok? <==> userID in old(vaults) && old(vaults)[userID].version == version
      ensures r.Ok? ==> vaults == old(vaults)[userID := Row(version + 1, data)]
      ensures r.Err? && r.error.VaultConflict? ==> r.error == VaultConflict(old(vaults)[userID].version, version)
      ensures r.Err? ==> vaults == old(vaults)
      ensures forall u :: u != userID ==> Lookup(u) == old(Lookup(u))
    {
      if userID !in vaults {
        return Err(VaultNotFound);
      }
      var currentVersion := vaults[userID].version;
      if currentVersion != version {
        return Err(VaultConflict(currentVersion, version));
      }
      var newVersion := version + 1;
      vaults := vaults[userID := Row(newVersion, data)];
      return Ok(Row(newVersion, data));
    }
  }

  datatype ClientError = VaultLocked | EntryNotFound | SaveFailed | FetchFailed | CannotOpen

  /** Where a client that has sent its save ends up: a lost answer leaves everything as it was. */
  ghost function Settle(c: Client, reply: Option<Reply>): Client {
    match reply
    case None => c.(status := Idle)
    case Some(answer) => EndSave(c, answer)
  }

  /** What each editing method does: refuse without a trace, or edit the session and save it. */
  ghost predicate Edited(id: ClientId, before: Client, after: Client, change: Change, reply: Option<Reply>,
                         error: Option<ClientError>)
  {
    match BeginEdit(id, before, change)
    case None => after == before && error == Some(if before.session.None? then VaultLocked else EntryNotFound)
    case Some(sent) =>
      after == Settle(sent, reply)
      && error == if reply.Some? && reply.value.Accepted? then None else Some(SaveFailed)
  }

  /** `after` is `before` with some entries left out. */
  ghost predicate InOrder(before: Vault, after: Vault) {
    if after == [] then true
    else
      && before != []
      && ((before[0] == after[0] && InOrder(before[1..], after[1..])) || InOrder(before[1..], after))
  }

  class VaultClient {
    const id: ClientId
    var session: Option<Vault>
    var vaultVersion: nat
    ghost var base: Vault
    ghost var edits: seq<Edit>
    ghost var made: nat

    ghost function View(): Client
      reads this
    {
      Client(session, vaultVersion, Idle, base, edits, made)
    }

    constructor (id: ClientId)
      ensures this.id == id && View() == NEW_CLIENT
    {
      this.id := id;
      session, vaultVersion := None, 0;
      base, edits, made := [], [], 0;
    }

    method Persist(reply: Option<Reply>) returns (saved: bool)
      requires session.Some?
      modifies this
      ensures View() == Settle(old(View()), reply)
      ensures saved <==> reply.Some? && reply.value.Accepted?
      ensures session == old(session) && vaultVersion == if saved then reply.value.version else old(vaultVersion)
    {
      if reply.None? || reply.value.Conflict? {
        return false;
      }
      vaultVersion := reply.value.version;
      base, edits := session.value, [];
      return true;
    }

    method CreateEntry(entry: Entry, reply: Option<Reply>) returns (error: Option<ClientError>)
      modifies this
      ensures Edited(id, old(View()), View(), Change.CreateEntry(entry), reply, error)
      ensures error == Some(VaultLocked) <==> old(session).None?
      ensures old(session).None? ==> session.None?
      ensures old(session).Some? ==> session == Some(old(session).value + [entry])
    {
      if session.None? {
        return Some(VaultLocked);
      }
      error := Store(session.value + [entry], Change.CreateEntry(entry), reply);
    }

    method UpdateEntry(entry: Entry, reply: Option<Reply>) returns (error: Option<ClientError>)
      modifies this
      ensures Edited(id, old(View()), View(), Change.UpdateEntry(entry), reply, error)
      ensures error == Some(VaultLocked) <==> old(session).None?
      ensures error == Some(EntryNotFound) <==> old(session).Some? && forall e :: e in old(session).value ==> e.id != entry.id
      ensures error == Some(VaultLocked) || error == Some(EntryNotFound) ==> session == old(session)
      ensures error != Some(VaultLocked) && error != Some(EntryNotFound) ==>
        && session.Some? && |session.value| == |old(session).value|
        && exists i :: 0 <= i < |session.value| && old(session).value[i].id == entry.id && session.value[i] == entry
             && (forall j :: 0 <= j < i ==> old(session).value[j].id != entry.id)
             && (forall j :: 0 <= j < |session.value| && j != i ==> session.value[j] == old(session).value[j])
    {
      if session.None? {
        return Some(VaultLocked);
      }
      var idx := FindIndex(session.value, entry.id);
      if idx == |session.value| {
        return Some(EntryNotFound);
      }
      error := Store(session.value[idx := entry], Change.UpdateEntry(entry), reply);
    }

    method DeleteEntry(entryId: Id, reply: Option<Reply>) returns (error: Option<ClientError>)
      modifies this
      ensures Edited(id, old(View()), View(), Change.DeleteEntry(entryId), reply, error)
      ensures error == Some(VaultLocked) <==> old(session).None?
      ensures error == Some(EntryNotFound) <==> old(session).Some? && forall e :: e in old(session).value ==> e.id != entryId
      ensures error == Some(VaultLocked) || error == Some(EntryNotFound) ==> session == old(session)
      ensures error != Some(VaultLocked) && error != Some(EntryNotFound) ==>
        && session.Some? && InOrder(old(session).value, session.value)
        && forall e :: multiset(session.value)[e] == if e.id == entryId then 0 else multiset(old(session).value)[e]
    {
      if session.None? {
        return Some(VaultLocked);
      }
      hide InOrder, Without, FindIndex;
      var entries := Without(session.value, entryId);
      WithoutCounts(session.value, entryId);
      WithoutInOrder(session.value, entryId);
      if |entries| == |session.value| {
        return Some(EntryNotFound);
      }
      error := Store(entries, Change.DeleteEntry(entryId), reply);
    }

    /** The common end of the three: `saveVault`, then `persist`. */
    method Store(data: Vault, ghost change: Change, reply: Option<Reply>) returns (error: Option<ClientError>)
      requires session.Some? && ApplyChange(session.value, change) == Some(data)
      modifies this
      ensures Edited(id, old(View()), View(), change, reply, error)
      ensures session == Some(data) && (error == None || error == Some(SaveFailed))
    {
      session := Some(data);
      edits := edits + [Edit(id, vaultVersion, made, change)];
      made := made + 1;
      var saved := Persist(reply);
      error := if saved then None else Some(SaveFailed);
    }

    /** `found` is the fetched row, `Some(None)` a 404, `None` a failed fetch. */
    method Unlock(found: Option<Option<Row>>, opening: Opening, reply: Option<Reply>) returns (error: Option<ClientError>)
      requires session.None?
      modifies this
      ensures found.None? ==> View() == old(View()) && error == Some(FetchFailed)
      ensures found == Some(None) ==> error == None && session == Some([]) && vaultVersion == old(vaultVersion)
      ensures found.Some? && found.value.Some? ==>
        && (error == Some(CannotOpen) <==> opening.WrongPassword?)
        && session == (if opening.WrongPassword? then None else Some(found.value.value.data))
        && vaultVersion == if opening.OpensMigrated? && reply.Some? && reply.value.Accepted? then reply.value.version
                           else found.value.value.version
      ensures found.Some? ==>
        var installed := InstallVault(id, old(View()), found.value, opening);
        View() == if installed.status.Saving? then Settle(installed, reply) else installed
    {
      if found.None? {
        return Some(FetchFailed);
      }
      if found.value.None? {
        session := Some([]);
        base, edits := [], [];
        return None;
      }
      var row := found.value.value;
      vaultVersion := row.version;
      if opening.WrongPassword? {
        return Some(CannotOpen);
      }
      session := Some(row.data);
      base, edits := row.data, [];
      if opening.OpensMigrated? {
        var saved := Persist(reply);
        if !saved {
          return Some(SaveFailed);
        }
      }
      return None;
    }

    method Lock()
      modifies this
      ensures View() == old(View()).(session := None, edits := [])
    {
      session := None;
      edits := [];
    }
  }

  lemma {:induction false} WithoutCounts(v: Vault, id: Id)
    ensures |Without(v, id)| == |v| <==> forall e :: e in v ==> e.id != id
    ensures forall e :: multiset(Without(v, id))[e] == if e.id == id then 0 else multiset(v)[e]
  {
    if v != [] {
      WithoutCounts(v[1..], id);
      assert v == [v[0]] + v[1..];
    }
  }

  lemma {:induction false} WithoutInOrder(v: Vault, id: Id)
    ensures InOrder(v, Without(v, id))
  {
    if v != [] {
      var kept := Without(v[1..], id);
      WithoutInOrder(v[1..], id);
      assert [] + kept == kept && ([v[0]] + kept)[1..] == kept;
    }
  }
}
