/**
 * Saving one vault from several clients: packages/vault-client/src/client.ts
 * against backend/internal/vault/vault.go, over a network that delays and drops
 * requests and responses.
 *
 * A client keeps `session` and `vaultVersion`; an unacknowledged edit stays in
 * its session, and a request it has given up on may still reach the server.
 * `base`, `edits` and the log are history: no step looks at them to decide.
 */
module SaveProtocol {
  import opened Bytes

  type Id = nat
  type ClientId = nat

  datatype Entry = Entry(id: Id, body: string)
  type Vault = seq<Entry>

  datatype Change = CreateEntry(entry: Entry) | UpdateEntry(entry: Entry) | DeleteEntry(id: Id)

  /** A change, with who made it, at which version, and its number among that client's changes. */
  datatype Edit = Edit(client: ClientId, at: nat, serial: nat, change: Change)

  // ---------------------------------------------------------------- edits on data

  /** Position of the first entry with `id`, or the length. */
  function FindIndex(v: Vault, id: Id): (i: nat)
    ensures i <= |v|
    ensures i < |v| ==> v[i].id == id
    ensures forall j :: 0 <= j < i ==> v[j].id != id
  {
    if v == [] || v[0].id == id then 0 else 1 + FindIndex(v[1..], id)
  }

  function Without(v: Vault, id: Id): (r: Vault)
    ensures |r| <= |v|
  {
    if v == [] then [] else (if v[0].id == id then [] else [v[0]]) + Without(v[1..], id)
  }

  /** `None` when the source throws `Entry not found` and changes nothing. */
  function ApplyChange(v: Vault, c: Change): Option<Vault> {
    match c
    case CreateEntry(e) => Some(v + [e])
    case UpdateEntry(e) =>
      var i := FindIndex(v, e.id);
      if i == |v| then None else Some(v[i := e])
    case DeleteEntry(id) =>
      var r := Without(v, id);
      if |r| == |v| then None else Some(r)
  }

  function ApplyAll(v: Vault, edits: seq<Edit>): Option<Vault> {
    if edits == [] then Some(v)
    else match ApplyAll(v, edits[..|edits| - 1])
      case None => None
      case Some(w) => ApplyChange(w, edits[|edits| - 1].change)
  }

  // ---------------------------------------------------------------- one client

  datatype Request = Request(client: ClientId, version: nat, data: Vault, base: Vault, edits: seq<Edit>)

  datatype Row = Row(version: nat, data: Vault)

  datatype Reply = Accepted(version: nat) | Conflict

  datatype Status =
    | Idle
    | Fetching
    | Fetched(found: Option<Row>)
    | Saving(request: Request)
    | Replied(sent: Request, reply: Reply)

  datatype Client = Client(
    session: Option<Vault>,
    vaultVersion: nat,
    status: Status,
    base: Vault,
    edits: seq<Edit>,
    made: nat)

  const NEW_CLIENT := Client(None, 0, Idle, [], [], 0)

  /** The PUT that `persist` sends for the current session. */
  function SaveRequest(id: ClientId, c: Client): Request
    requires c.session.Some?
  {
    Request(id, c.vaultVersion, c.session.value, c.base, c.edits)
  }

  /** `createEntry`, `updateEntry` or `deleteEntry` up to its PUT. */
  function BeginEdit(id: ClientId, c: Client, change: Change): Option<Client> {
    if c.session.None? then None
    else match ApplyChange(c.session.value, change)
      case None => None
      case Some(data) =>
        var edited := c.(session := Some(data), edits := c.edits + [Edit(id, c.vaultVersion, c.made, change)], made := c.made + 1);
        Some(edited.(status := Saving(SaveRequest(id, edited))))
  }

  /** What `persist` does with the answer. */
  function EndSave(c: Client, reply: Reply): Client {
    match reply
    case Accepted(version) =>
      c.(vaultVersion := version, status := Idle, edits := [],
         base := if c.session.Some? then c.session.value else c.base)
    case Conflict => c.(status := Idle)
  }

  datatype Opening = WrongPassword | Opens | OpensMigrated

  /** `unlock` with the fetched row: the version is stored before the password is tried. */
  function InstallVault(id: ClientId, c: Client, found: Option<Row>, opening: Opening): Client {
    match found
    case None => c.(session := Some([]), status := Idle, base := [], edits := [])
    case Some(row) =>
      var fetched := c.(vaultVersion := row.version, status := Idle);
      if opening.WrongPassword? then fetched
      else
        var unlocked := fetched.(session := Some(row.data), base := row.data, edits := []);
        if opening.OpensMigrated? then unlocked.(status := Saving(SaveRequest(id, unlocked))) else unlocked
  }

  // ---------------------------------------------------------------- the whole system

  /** How a stored version came about. */
  datatype LogItem = Registered(data: Vault) | Saved(edits: seq<Edit>) | Recovered(data: Vault)

  datatype System = System(row: Option<Row>, log: seq<LogItem>, clients: map<ClientId, Client>, inFlight: set<Request>)

  /** `UpdateVault`: check the version, then write, in one atomic step. */
  function UpdateVault(row: Option<Row>, data: Vault, version: nat): (Option<Row>, Reply) {
    if row.None? || row.value.version != version then (row, Conflict)
    else (Some(Row(version + 1, data)), Accepted(version + 1))
  }

  ghost predicate Init(s: System) {
    s.row == None && s.log == [] && s.inFlight == {} && forall c :: c in s.clients ==> s.clients[c] == NEW_CLIENT
  }

  datatype Event =
    | Register(data: Vault)
    | Recover(data: Vault)
    | StartUnlock(c: ClientId)
    | ServeGet(c: ClientId)
    | FinishUnlock(c: ClientId, opening: Opening)
    | StartEdit(c: ClientId, change: Change)
    | ServePut(r: Request)
    | FinishSave(c: ClientId)
    | GiveUp(c: ClientId)
    | DropRequest(r: Request)
    | Lock(c: ClientId)

  function Update(s: System, c: ClientId, client: Client): System {
    s.(clients := s.clients[c := client])
  }

  /** The request a client has just put on the network, if any. */
  function Sent(client: Client): set<Request> {
    if client.status.Saving? then {client.status.request} else {}
  }

  /** Serving a PUT; the reply reaches the client only if it still waits for this request. */
  function Serve(s: System, r: Request): System {
    var (row, reply) := UpdateVault(s.row, r.data, r.version);
    var waits := r.client in s.clients && s.clients[r.client].status == Saving(r);
    System(row,
           if reply.Accepted? then s.log + [Saved(r.edits)] else s.log,
           if waits then s.clients[r.client := s.clients[r.client].(status := Replied(r, reply))] else s.clients,
           s.inFlight - {r})
  }

  ghost predicate Step(s: System, e: Event, s': System) {
    match e
    case Register(data) =>
      s.row.None? && s' == s.(row := Some(Row(1, data)), log := s.log + [Registered(data)])
    case Recover(data) =>
      s.row.Some? && s' == s.(row := Some(Row(s.row.value.version + 1, data)), log := s.log + [Recovered(data)])
    case StartUnlock(c) =>
      c in s.clients && s.clients[c].status.Idle? && s.clients[c].session.None?
      && s' == Update(s, c, s.clients[c].(status := Fetching))
    case ServeGet(c) =>
      c in s.clients && s.clients[c].status.Fetching?
      && s' == Update(s, c, s.clients[c].(status := Fetched(s.row)))
    case FinishUnlock(c, opening) =>
      c in s.clients && s.clients[c].status.Fetched?
      && var client := InstallVault(c, s.clients[c], s.clients[c].status.found, opening);
         s' == Update(s, c, client).(inFlight := s.inFlight + Sent(client))
    case StartEdit(c, change) =>
      c in s.clients && s.clients[c].status.Idle? && BeginEdit(c, s.clients[c], change).Some?
      && var client := BeginEdit(c, s.clients[c], change).value;
         s' == Update(s, c, client).(inFlight := s.inFlight + Sent(client))
    case ServePut(r) => r in s.inFlight && s' == Serve(s, r)
    case FinishSave(c) =>
      c in s.clients && s.clients[c].status.Replied?
      && s' == Update(s, c, EndSave(s.clients[c], s.clients[c].status.reply))
    case GiveUp(c) =>
      c in s.clients && !s.clients[c].status.Idle? && s' == Update(s, c, s.clients[c].(status := Idle))
    case DropRequest(r) => s' == s.(inFlight := s.inFlight - {r})
    case Lock(c) =>
      c in s.clients && s.clients[c].status.Idle?
      && s' == Update(s, c, s.clients[c].(session := None, edits := []))
  }

  // ---------------------------------------------------------------- linear history

  /** The content the log amounts to: each save's edits, applied to the content it replaced. */
  function Replay(log: seq<LogItem>): Option<Vault> {
    if log == [] then None
    else match log[|log| - 1]
      case Registered(data) => Some(data)
      case Recovered(data) => Some(data)
      case Saved(edits) =>
        match Replay(log[..|log| - 1])
        case None => None
        case Some(v) => ApplyAll(v, edits)
  }

  /** Work based on version `version` of the log: its base is that version, its edits were made at it. */
  ghost predicate BasedOn(log: seq<LogItem>, version: nat, base: Vault, edits: seq<Edit>, data: Vault) {
    && version <= |log|
    && (version > 0 ==> Replay(log[..version]) == Some(base))
    && ApplyAll(base, edits) == Some(data)
    && EditsAt(edits, version)
  }

  /** Edits made at one version, no two the same. */
  ghost predicate EditsAt(edits: seq<Edit>, version: nat) {
    && (forall i :: 0 <= i < |edits| ==> edits[i].at == version)
    && (forall i, j :: 0 <= i < j < |edits| ==> edits[i].client == edits[j].client && edits[i].serial < edits[j].serial)
  }

  ghost predicate RequestOk(log: seq<LogItem>, r: Request) {
    BasedOn(log, r.version, r.base, r.edits, r.data)
  }

  ghost predicate ClientOk(log: seq<LogItem>, id: ClientId, c: Client) {
    && c.vaultVersion <= |log|
    && (c.session.Some? ==> BasedOn(log, c.vaultVersion, c.base, c.edits, c.session.value))
    && (forall i :: 0 <= i < |c.edits| ==> c.edits[i].client == id && c.edits[i].serial < c.made)
    && (match c.status
        case Fetched(None) => c.vaultVersion == 0 && c.session.None?
        case Fetched(Some(row)) => c.session.None? && 0 < row.version <= |log| && Replay(log[..row.version]) == Some(row.data)
        case Fetching => c.session.None?
        case Saving(r) => c.session.Some? && r == SaveRequest(id, c)
        case Replied(r, Accepted(v)) =>
          c.session.Some? && r == SaveRequest(id, c) && 0 < r.version && v == r.version + 1 <= |log|
          && log[r.version] == Saved(r.edits)
        case _ => true)
  }

  ghost predicate LogOk(log: seq<LogItem>) {
    forall i :: 0 <= i < |log| && log[i].Saved? ==> EditsAt(log[i].edits, i)
  }

  ghost predicate Invariant(s: System) {
    && (if s.log == [] then s.row == None
        else s.row.Some? && s.row.value.version == |s.log| && Replay(s.log) == Some(s.row.value.data))
    && LogOk(s.log)
    && (forall r :: r in s.inFlight ==> RequestOk(s.log, r))
    && (forall c :: c in s.clients ==> ClientOk(s.log, c, s.clients[c]))
  }

  lemma InitInvariant(s: System)
    requires Init(s)
    ensures Invariant(s)
  {
  }

  /** Appending to the log keeps every version it already had. */
  lemma BasedOnGrows(log: seq<LogItem>, item: LogItem, version: nat, base: Vault, edits: seq<Edit>, data: Vault)
    requires BasedOn(log, version, base, edits, data)
    ensures BasedOn(log + [item], version, base, edits, data)
  {
    hide Replay, ApplyAll, EditsAt;
    assert (log + [item])[..version] == log[..version];
  }

  lemma ClientOkGrows(log: seq<LogItem>, item: LogItem, id: ClientId, c: Client)
    requires ClientOk(log, id, c)
    ensures ClientOk(log + [item], id, c)
  {
    hide Replay, BasedOn;
    if c.session.Some? {
      BasedOnGrows(log, item, c.vaultVersion, c.base, c.edits, c.session.value);
    }
    if c.status.Fetched? && c.status.found.Some? {
      var v := c.status.found.value.version;
      assert (log + [item])[..v] == log[..v];
    }
  }

  lemma GrowAll(s: System, item: LogItem)
    requires Invariant(s)
    ensures forall r :: r in s.inFlight ==> RequestOk(s.log + [item], r)
    ensures forall c :: c in s.clients ==> ClientOk(s.log + [item], c, s.clients[c])
  {
    hide BasedOn, ClientOk, Replay;
    forall r | r in s.inFlight ensures RequestOk(s.log + [item], r) {
      assert RequestOk(s.log, r);
      BasedOnGrows(s.log, item, r.version, r.base, r.edits, r.data);
    }
    forall c | c in s.clients ensures ClientOk(s.log + [item], c, s.clients[c]) {
      ClientOkGrows(s.log, item, c, s.clients[c]);
    }
  }

  // ---------------------------------------------------------------- every step keeps the invariant

  lemma BeginEditOk(log: seq<LogItem>, id: ClientId, c: Client, change: Change)
    requires ClientOk(log, id, c) && BeginEdit(id, c, change).Some?
    ensures ClientOk(log, id, BeginEdit(id, c, change).value)
    ensures RequestOk(log, BeginEdit(id, c, change).value.status.request)
  {
    hide Replay, ApplyChange;
    var edited := BeginEdit(id, c, change).value;
    assert edited.edits[..|c.edits|] == c.edits;
  }

  lemma InstallOk(log: seq<LogItem>, id: ClientId, c: Client, opening: Opening)
    requires ClientOk(log, id, c) && c.status.Fetched?
    ensures ClientOk(log, id, InstallVault(id, c, c.status.found, opening))
    ensures forall r :: r in Sent(InstallVault(id, c, c.status.found, opening)) ==> RequestOk(log, r)
  {
    hide Replay;
  }

  lemma EndSaveOk(log: seq<LogItem>, id: ClientId, c: Client)
    requires ClientOk(log, id, c) && c.status.Replied?
    ensures ClientOk(log, id, EndSave(c, c.status.reply))
  {
    if c.status.reply.Accepted? {
      var r := c.status.sent;
      assert log[..r.version + 1][..r.version] == log[..r.version];
      assert Replay(log[..r.version + 1]) == Some(r.data);
    }
  }

  /** An accepted save replaces exactly the content it was edited from. */
  lemma AcceptedSave(s: System, r: Request)
    requires Invariant(s) && r in s.inFlight
    requires UpdateVault(s.row, r.data, r.version).1.Accepted?
    ensures s.row.Some? && r.base == s.row.value.data && r.version == s.row.value.version == |s.log|
    ensures ApplyAll(s.row.value.data, r.edits) == Some(r.data)
    ensures EditsAt(r.edits, |s.log|)
    ensures Replay(s.log + [Saved(r.edits)]) == Some(r.data)
  {
    hide EditsAt, ClientOk, LogOk;
    assert RequestOk(s.log, r);
    assert s.log[..|s.log|] == s.log;
    assert (s.log + [Saved(r.edits)])[..|s.log|] == s.log;
  }

  lemma {:induction false} ServeKeepsInvariant(s: System, r: Request)
    requires Invariant(s) && r in s.inFlight
    ensures Invariant(Serve(s, r))
  {
    hide Replay, ApplyAll, BasedOn, EditsAt;
    var s' := Serve(s, r);
    if UpdateVault(s.row, r.data, r.version).1.Accepted? {
      AcceptedSave(s, r);
      GrowAll(s, Saved(r.edits));
    }
    forall c | c in s'.clients
      ensures ClientOk(s'.log, c, s'.clients[c])
    {
      assert ClientOk(s'.log, c, s.clients[c]);
    }
  }

  lemma ClientStep(s: System, c: ClientId, client: Client, sent: set<Request>)
    requires Invariant(s) && c in s.clients
    requires ClientOk(s.log, c, client)
    requires forall r :: r in sent ==> RequestOk(s.log, r)
    ensures Invariant(Update(s, c, client).(inFlight := s.inFlight + sent))
  {
    hide ClientOk, RequestOk, Replay, LogOk;
  }

  lemma StepKeepsInvariant(s: System, e: Event, s': System)
    requires Invariant(s) && Step(s, e, s')
    ensures Invariant(s')
  {
    hide ClientOk, RequestOk, LogOk, Replay, UpdateVault;
    match e
    case Register(data) =>
      GrowAll(s, Registered(data));
      AppendPlain(s.log, Registered(data));
    case Recover(data) =>
      GrowAll(s, Recovered(data));
      AppendPlain(s.log, Recovered(data));
    case StartUnlock(c) =>
      IdleChange(s.log, c, s.clients[c], Fetching);
      ClientStep(s, c, s'.clients[c], {});
      assert s' == s'.(inFlight := s.inFlight + {});
    case ServeGet(c) =>
      ServeGetOk(s, c);
      ClientStep(s, c, s'.clients[c], {});
      assert s' == s'.(inFlight := s.inFlight + {});
    case FinishUnlock(c, opening) =>
      InstallOk(s.log, c, s.clients[c], opening);
      ClientStep(s, c, s'.clients[c], Sent(s'.clients[c]));
    case StartEdit(c, change) =>
      BeginEditOk(s.log, c, s.clients[c], change);
      ClientStep(s, c, s'.clients[c], Sent(s'.clients[c]));
    case ServePut(r) =>
      ServeKeepsInvariant(s, r);
    case FinishSave(c) =>
      EndSaveOk(s.log, c, s.clients[c]);
      ClientStep(s, c, s'.clients[c], {});
      assert s' == s'.(inFlight := s.inFlight + {});
    case GiveUp(c) =>
      IdleChange(s.log, c, s.clients[c], Idle);
      ClientStep(s, c, s'.clients[c], {});
      assert s' == s'.(inFlight := s.inFlight + {});
    case DropRequest(r) =>
    case Lock(c) =>
      LockOk(s.log, c, s.clients[c]);
      ClientStep(s, c, s'.clients[c], {});
      assert s' == s'.(inFlight := s.inFlight + {});
  }

  lemma AppendPlain(log: seq<LogItem>, item: LogItem)
    requires LogOk(log) && !item.Saved?
    ensures LogOk(log + [item])
    ensures Replay(log + [item]) == Some(item.data)
  {
  }

  lemma IdleChange(log: seq<LogItem>, id: ClientId, c: Client, status: Status)
    requires ClientOk(log, id, c)
    requires status.Idle? || (status.Fetching? && c.session.None?)
    ensures ClientOk(log, id, c.(status := status))
  {
  }

  lemma LockOk(log: seq<LogItem>, id: ClientId, c: Client)
    requires ClientOk(log, id, c) && c.status.Idle?
    ensures ClientOk(log, id, c.(session := None, edits := []))
  {
  }

  lemma ServeGetOk(s: System, c: ClientId)
    requires Invariant(s) && c in s.clients && s.clients[c].status.Fetching?
    ensures ClientOk(s.log, c, s.clients[c].(status := Fetched(s.row)))
  {
    assert ClientOk(s.log, c, s.clients[c]);
    assert s.log[..|s.log|] == s.log;
  }

  // ---------------------------------------------------------------- every run

  ghost predicate IsRun(run: seq<System>, events: seq<Event>) {
    && |run| == |events| + 1
    && Init(run[0])
    && forall i :: 0 <= i < |events| ==> Step(run[i], events[i], run[i + 1])
  }

  lemma {:induction false} RunKeepsInvariant(run: seq<System>, events: seq<Event>, n: nat)
    requires IsRun(run, events) && n <= |events|
    ensures Invariant(run[n])
  {
    hide Invariant, Step;
    if n == 0 {
      InitInvariant(run[0]);
    } else {
      RunKeepsInvariant(run, events, n - 1);
      StepKeepsInvariant(run[n - 1], events[n - 1], run[n]);
    }
  }

  /**
   * No lost update.  In every run the stored content is the accepted edits
   * replayed in version order, the version counts them, and a save that is
   * accepted was edited from exactly the content it replaces.
   */
  lemma NoLostUpdate(run: seq<System>, events: seq<Event>, n: nat)
    requires IsRun(run, events) && n <= |events|
    ensures run[n].row.Some? <==> run[n].log != []
    ensures run[n].row.Some? ==>
      run[n].row.value.version == |run[n].log| && Replay(run[n].log) == Some(run[n].row.value.data)
    ensures n < |events| && events[n].ServePut? && run[n].row != run[n + 1].row ==>
      var r := events[n].r;
      && run[n].row == Some(Row(r.version, r.base))
      && run[n + 1].row == Some(Row(r.version + 1, r.data))
      && ApplyAll(r.base, r.edits) == Some(r.data)
  {
    RunKeepsInvariant(run, events, n);
    if n < |events| && events[n].ServePut? && run[n].row != run[n + 1].row {
      assert Step(run[n], events[n], run[n + 1]);
      AcceptedSave(run[n], events[n].r);
    }
  }

  /** No edit takes effect twice, however requests are retried, delayed or dropped. */
  lemma {:induction false} EditsTakeEffectOnce(run: seq<System>, events: seq<Event>, n: nat, i: nat, j: nat, a: nat, b: nat)
    requires IsRun(run, events) && n <= |events|
    requires i < |run[n].log| && run[n].log[i].Saved? && a < |run[n].log[i].edits|
    requires j < |run[n].log| && run[n].log[j].Saved? && b < |run[n].log[j].edits|
    requires run[n].log[i].edits[a] == run[n].log[j].edits[b]
    ensures i == j && a == b
  {
    RunKeepsInvariant(run, events, n);
    var log := run[n].log;
    assert EditsAt(log[i].edits, i) && EditsAt(log[j].edits, j);
  }

  lemma {:induction false} LogOnlyGrows(run: seq<System>, events: seq<Event>, m: nat, n: nat)
    requires IsRun(run, events) && m <= n <= |events|
    ensures run[m].log <= run[n].log
  {
    if m < n {
      LogOnlyGrows(run, events, m, n - 1);
      assert Step(run[n - 1], events[n - 1], run[n]);
    }
  }

  /** Once a client is told its save was accepted, its edits are in the history for good. */
  lemma AcknowledgedIsDurable(run: seq<System>, events: seq<Event>, m: nat, n: nat, c: ClientId)
    requires IsRun(run, events) && m < n <= |events|
    requires events[m] == FinishSave(c) && c in run[m].clients
    requires run[m].clients[c].status.Replied? && run[m].clients[c].status.reply.Accepted?
    ensures var before := run[m].clients[c];
      && 0 < before.vaultVersion < |run[n].log|
      && run[n].log[before.vaultVersion] == Saved(before.edits)
  {
    RunKeepsInvariant(run, events, m);
    LogOnlyGrows(run, events, m, n);
    assert ClientOk(run[m].log, c, run[m].clients[c]);
  }
}
