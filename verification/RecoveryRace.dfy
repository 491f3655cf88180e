/**
 * Consuming and regenerating recovery codes (backend/internal/recovery/recovery.go)
 * in any interleaving, for any number of users and requests.
 *
 * A consume is a read and an update. A regeneration is a transaction: its delete
 * takes the rows committed when the statement starts, and its inserts show when it
 * commits. A consume may also mark a row that a pending regeneration has deleted;
 * the row locks of Postgres only make fewer runs possible.
 */
module RecoveryRace {
  import opened Bytes

  type User = nat
  type CodeId = nat
  type RequestId = nat
  type TxId = nat

  const NUM_CODES: nat := 8

  /** What a row was inserted with; `code` is its normalised text. */
  datatype Code = Code(user: User, code: string, batch: TxId)

  datatype Regeneration =
    | Deleted(user: User, doomed: set<CodeId>, seen: nat)
    | Committed

  datatype Consume =
    | Matched(id: CodeId, user: User, code: string)
    | Ended

  /** The last generation of a user: how many there were, its rows, and whether another committed since its delete. */
  datatype Generation = Generation(number: nat, rows: set<CodeId>, overlapped: bool)

  datatype State = State(
    rows: map<CodeId, bool>,
    issued: map<CodeId, Code>,
    consumes: map<RequestId, Consume>,
    regenerations: map<TxId, Regeneration>,
    generations: map<User, Generation>,
    log: seq<Consume>)

  const Start: State := State(map[], map[], map[], map[], map[], [])

  datatype Event =
    | Read(request: RequestId, user: User, code: string, found: Option<CodeId>)
    | MarkUsed(request: RequestId)
    | DeleteOld(tx: TxId, user: User)
    | Commit(tx: TxId, codes: map<CodeId, string>)

  // ---------------------------------------------------------------- steps

  /** The stored rows of a user, `used` or not. */
  function Stored(s: State, user: User): set<CodeId> {
    set id | id in s.rows && id in s.issued && s.issued[id].user == user
  }

  function GenerationOf(s: State, user: User): Generation {
    if user in s.generations then s.generations[user] else Generation(0, {}, false)
  }

  /** The row a consume's loop can stop at: any unused row of the user that the code matches, or none if there is none. */
  predicate Finds(s: State, user: User, code: string, found: Option<CodeId>) {
    match found
    case Some(id) => Usable(s, user, code, id)
    case None => forall id :: id in s.rows ==> !Usable(s, user, code, id)
  }

  predicate Usable(s: State, user: User, code: string, id: CodeId) {
    id in s.rows && !s.rows[id] && id in s.issued && s.issued[id].user == user && s.issued[id].code == code
  }

  function AfterRead(s: State, request: RequestId, user: User, code: string, found: Option<CodeId>): State {
    if request in s.consumes || !Finds(s, user, code, found) then s
    else s.(consumes := s.consumes[request := if found.Some? then Matched(found.value, user, code) else Ended])
  }

  /** The update with `used = false` in its WHERE. */
  function AfterMark(s: State, request: RequestId): State {
    if request !in s.consumes || s.consumes[request].Ended? then s
    else
      var c := s.consumes[request];
      var t := s.(consumes := s.consumes[request := Ended]);
      if c.id in s.rows && !s.rows[c.id] then t.(rows := s.rows[c.id := true], log := s.log + [c]) else t
  }

  function AfterDelete(s: State, tx: TxId, user: User): State {
    if tx in s.regenerations then s
    else s.(regenerations := s.regenerations[tx := Deleted(user, Stored(s, user), GenerationOf(s, user).number)])
  }

  /** Eight codes under ids drawn at random, which never repeat. */
  predicate Commits(s: State, tx: TxId, codes: map<CodeId, string>) {
    && tx in s.regenerations && s.regenerations[tx].Deleted?
    && |codes| == NUM_CODES && codes.Keys !! s.issued.Keys
  }

  function AfterCommit(s: State, tx: TxId, codes: map<CodeId, string>): State {
    if !Commits(s, tx, codes) then s
    else
      var d := s.regenerations[tx];
      var g := GenerationOf(s, d.user);
      s.(rows := (s.rows - d.doomed) + (map id | id in codes :: false),
         issued := s.issued + (map id | id in codes :: Code(d.user, codes[id], tx)),
         regenerations := s.regenerations[tx := Committed],
         generations := s.generations[d.user := Generation(g.number + 1, codes.Keys, g.number != d.seen)])
  }

  function Step(s: State, e: Event): State {
    match e
    case Read(request, user, code, found) => AfterRead(s, request, user, code, found)
    case MarkUsed(request) => AfterMark(s, request)
    case DeleteOld(tx, user) => AfterDelete(s, tx, user)
    case Commit(tx, codes) => AfterCommit(s, tx, codes)
  }

  function Run(s: State, events: seq<Event>): State
    decreases |events|
  {
    if events == [] then s else Run(Step(s, events[0]), events[1..])
  }

  // ---------------------------------------------------------------- what every run keeps

  ghost predicate RowsOk(s: State) {
    && s.rows.Keys <= s.issued.Keys
    && (forall r :: r in s.consumes && s.consumes[r].Matched? ==> HoldsCode(s.issued, s.consumes[r]))
    && (forall id :: id in s.issued ==> s.issued[id].batch in s.regenerations && s.regenerations[s.issued[id].batch].Committed?)
  }

  ghost predicate HoldsCode(issued: map<CodeId, Code>, c: Consume)
    requires c.Matched?
  {
    c.id in issued && issued[c.id].user == c.user && issued[c.id].code == c.code
  }

  /** Each logged consume is of another row; the stored rows marked used are those logged. */
  ghost predicate LogOk(s: State) {
    && (forall i :: 0 <= i < |s.log| ==> s.log[i].Matched? && HoldsCode(s.issued, s.log[i]))
    && (forall i, j :: 0 <= i < j < |s.log| ==> s.log[i].id != s.log[j].id)
    && (forall i :: 0 <= i < |s.log| && s.log[i].id in s.rows ==> s.rows[s.log[i].id])
    && (forall id :: id in s.rows && s.rows[id] ==> exists i :: 0 <= i < |s.log| && s.log[i].id == id)
  }

  function Batch(s: State, tx: TxId): set<CodeId> {
    set id | id in s.issued && s.issued[id].batch == tx
  }

  ghost predicate BatchesOk(s: State) {
    forall tx :: |Batch(s, tx)| <= NUM_CODES
  }

  ghost predicate GenerationOk(s: State, user: User) {
    var g := GenerationOf(s, user);
    if g.number == 0 then Stored(s, user) == {}
    else
      && |g.rows| == NUM_CODES && g.rows <= Stored(s, user)
      && if g.overlapped then |Stored(s, user)| >= 2 * NUM_CODES else Stored(s, user) == g.rows
  }

  /** A pending delete took all the rows the user has, unless another regeneration committed since, whose rows it left. */
  ghost predicate PendingOk(s: State, d: Regeneration)
    requires d.Deleted?
  {
    var g := GenerationOf(s, d.user);
    && (forall id :: id in d.doomed ==> id in s.issued && s.issued[id].user == d.user)
    && d.seen <= g.number
    && if d.seen == g.number then d.doomed == Stored(s, d.user) else d.doomed !! g.rows
  }

  ghost predicate GenerationsOk(s: State) {
    && (forall user :: GenerationOk(s, user))
    && forall tx :: tx in s.regenerations && s.regenerations[tx].Deleted? ==> PendingOk(s, s.regenerations[tx])
  }

  ghost predicate Invariant(s: State) {
    RowsOk(s) && LogOk(s) && BatchesOk(s) && GenerationsOk(s)
  }

  // ---------------------------------------------------------------- consumes

  lemma {:induction false} ReadKeepsInvariant(s: State, request: RequestId, user: User, code: string, found: Option<CodeId>)
    requires Invariant(s)
    ensures Invariant(AfterRead(s, request, user, code, found))
  {
    var t := AfterRead(s, request, user, code, found);
    SameRowsKeepGenerations(s, t);
    SameIssuedKeepBatches(s, t);
    hide GenerationsOk, BatchesOk;
  }

  /** Marking and reading leave the stored ids alone. */
  lemma {:induction false} SameRowsKeepGenerations(s: State, t: State)
    requires GenerationsOk(s)
    requires t.rows.Keys == s.rows.Keys && t.issued == s.issued
    requires t.regenerations == s.regenerations && t.generations == s.generations
    ensures GenerationsOk(t)
  {
    assert forall user :: Stored(t, user) == Stored(s, user);
    forall user ensures GenerationOk(t, user) {
      assert GenerationOk(s, user);
    }
    forall tx | tx in t.regenerations && t.regenerations[tx].Deleted? ensures PendingOk(t, t.regenerations[tx]) {
      assert PendingOk(s, s.regenerations[tx]);
    }
  }

  lemma SameIssuedKeepBatches(s: State, t: State)
    requires BatchesOk(s) && t.issued == s.issued
    ensures BatchesOk(t)
  {
    forall tx ensures |Batch(t, tx)| <= NUM_CODES {
      assert Batch(t, tx) == Batch(s, tx);
    }
  }

  lemma MarkKeepsInvariant(s: State, request: RequestId)
    requires Invariant(s)
    ensures Invariant(AfterMark(s, request))
  {
    var t := AfterMark(s, request);
    if request in s.consumes && s.consumes[request].Matched? {
      MarkKeepsLog(s, request);
      assert t.rows.Keys == s.rows.Keys;
      SameRowsKeepGenerations(s, t);
      SameIssuedKeepBatches(s, t);
      hide GenerationsOk, BatchesOk, LogOk;
    }
  }

  lemma MarkKeepsLog(s: State, request: RequestId)
    requires RowsOk(s) && LogOk(s) && request in s.consumes && s.consumes[request].Matched?
    ensures LogOk(AfterMark(s, request))
  {
    var c := s.consumes[request];
    var t := AfterMark(s, request);
    if c.id in s.rows && !s.rows[c.id] {
      assert t.log[|s.log|] == c;
      forall id | id in t.rows && t.rows[id] ensures exists i :: 0 <= i < |t.log| && t.log[i].id == id {
        if id != c.id {
          assert s.rows[id];
          var i :| 0 <= i < |s.log| && s.log[i].id == id;
          assert t.log[i] == s.log[i];
        }
      }
    }
  }

  // ---------------------------------------------------------------- regenerations

  lemma DeleteKeepsInvariant(s: State, tx: TxId, user: User)
    requires Invariant(s)
    ensures Invariant(AfterDelete(s, tx, user))
  {
    var t := AfterDelete(s, tx, user);
    SameIssuedKeepBatches(s, t);
    SameRowsKeepLog(s, t);
    DeleteKeepsGenerations(s, tx, user);
    hide LogOk, BatchesOk, GenerationsOk, Stored, GenerationOf;
  }

  lemma DeleteKeepsGenerations(s: State, tx: TxId, user: User)
    requires GenerationsOk(s)
    ensures GenerationsOk(AfterDelete(s, tx, user))
  {
    var t := AfterDelete(s, tx, user);
    assert forall u :: Stored(t, u) == Stored(s, u);
    forall u ensures GenerationOk(t, u) {
      assert GenerationOk(s, u);
    }
    forall r | r in t.regenerations && t.regenerations[r].Deleted? ensures PendingOk(t, t.regenerations[r]) {
      if r in s.regenerations {
        assert PendingOk(s, s.regenerations[r]);
      }
    }
  }

  lemma SameRowsKeepLog(s: State, t: State)
    requires LogOk(s) && t.rows == s.rows && t.issued == s.issued && t.log == s.log
    ensures LogOk(t)
  {
  }

  lemma CommitKeepsRows(s: State, tx: TxId, codes: map<CodeId, string>)
    requires RowsOk(s) && LogOk(s) && Commits(s, tx, codes)
    ensures RowsOk(AfterCommit(s, tx, codes)) && LogOk(AfterCommit(s, tx, codes))
  {
  }

  lemma CommitKeepsBatches(s: State, tx: TxId, codes: map<CodeId, string>)
    requires RowsOk(s) && BatchesOk(s) && Commits(s, tx, codes)
    ensures BatchesOk(AfterCommit(s, tx, codes))
  {
    var t := AfterCommit(s, tx, codes);
    forall b ensures |Batch(t, b)| <= NUM_CODES {
      if b == tx {
        assert Batch(t, b) == codes.Keys;
      } else {
        assert Batch(t, b) == Batch(s, b);
      }
    }
  }

  lemma CommitStored(s: State, tx: TxId, codes: map<CodeId, string>, user: User)
    requires RowsOk(s) && GenerationsOk(s) && Commits(s, tx, codes)
    ensures var d := s.regenerations[tx];
      Stored(AfterCommit(s, tx, codes), user)
        == if user == d.user then (Stored(s, user) - d.doomed) + codes.Keys else Stored(s, user)
  {
    assert PendingOk(s, s.regenerations[tx]);
  }

  lemma CommitGeneration(s: State, tx: TxId, codes: map<CodeId, string>, user: User)
    requires Commits(s, tx, codes)
    ensures var d, g := s.regenerations[tx], GenerationOf(s, user);
      GenerationOf(AfterCommit(s, tx, codes), user)
        == if user == d.user then Generation(g.number + 1, codes.Keys, g.number != d.seen) else g
  {
  }

  lemma CommitFacts(s: State, tx: TxId, codes: map<CodeId, string>)
    requires RowsOk(s) && GenerationsOk(s) && Commits(s, tx, codes)
    ensures tx in s.regenerations && s.regenerations[tx].Deleted? && PendingOk(s, s.regenerations[tx])
    ensures codes.Keys !! s.issued.Keys && |codes.Keys| == NUM_CODES
    ensures var t := AfterCommit(s, tx, codes);
      forall id :: id in s.issued ==> id in t.issued && t.issued[id] == s.issued[id]
  {
    assert |codes.Keys| == |codes|;
    assert PendingOk(s, s.regenerations[tx]);
  }

  lemma UseGenerations(s: State, user: User)
    requires RowsOk(s) && GenerationsOk(s)
    ensures GenerationOk(s, user) && Stored(s, user) <= s.issued.Keys
  {
  }

  lemma UsePending(s: State, r: TxId)
    requires GenerationsOk(s) && r in s.regenerations && s.regenerations[r].Deleted?
    ensures PendingOk(s, s.regenerations[r])
  {
  }

  lemma {:induction false} CommitKeepsGeneration(s: State, tx: TxId, codes: map<CodeId, string>, user: User)
    requires RowsOk(s) && GenerationsOk(s) && Commits(s, tx, codes)
    ensures GenerationOk(AfterCommit(s, tx, codes), user)
  {
    hide RowsOk, GenerationsOk, Stored, AfterCommit, Commits, GenerationOf;
    CommitFacts(s, tx, codes);
    CommitStored(s, tx, codes, user);
    CommitGeneration(s, tx, codes, user);
    UseGenerations(s, user);
    var d, g := s.regenerations[tx], GenerationOf(s, user);
    if user == d.user && g.number != d.seen {
      BothBatchesStay(Stored(s, user), d.doomed, g.rows, codes.Keys);
    }
  }

  lemma BothBatchesStay(stored: set<CodeId>, doomed: set<CodeId>, last: set<CodeId>, new_: set<CodeId>)
    requires last <= stored && last !! doomed && stored !! new_
    requires |last| == NUM_CODES && |new_| == NUM_CODES
    ensures |(stored - doomed) + new_| >= 2 * NUM_CODES
  {
    assert |last + new_| == 2 * NUM_CODES;
    SubsetSize(last + new_, (stored - doomed) + new_);
  }

  lemma SubsetSize<T>(a: set<T>, b: set<T>)
    requires a <= b
    ensures |a| <= |b|
  {
    assert b == a + (b - a);
  }

  lemma CommitKeepsPending(s: State, tx: TxId, codes: map<CodeId, string>, r: TxId)
    requires RowsOk(s) && GenerationsOk(s) && Commits(s, tx, codes)
    requires r != tx && r in s.regenerations && s.regenerations[r].Deleted?
    ensures PendingOk(AfterCommit(s, tx, codes), s.regenerations[r])
  {
    var d := s.regenerations[r];
    hide RowsOk, GenerationsOk, Stored, AfterCommit, Commits, GenerationOf;
    CommitFacts(s, tx, codes);
    CommitStored(s, tx, codes, d.user);
    CommitGeneration(s, tx, codes, d.user);
    UsePending(s, r);
  }

  lemma CommitKeepsInvariant(s: State, tx: TxId, codes: map<CodeId, string>)
    requires Invariant(s)
    ensures Invariant(AfterCommit(s, tx, codes))
  {
    if Commits(s, tx, codes) {
      var t := AfterCommit(s, tx, codes);
      CommitKeepsRows(s, tx, codes);
      CommitKeepsBatches(s, tx, codes);
      forall u ensures GenerationOk(t, u) {
        CommitKeepsGeneration(s, tx, codes, u);
      }
      forall r | r in t.regenerations && t.regenerations[r].Deleted? ensures PendingOk(t, t.regenerations[r]) {
        assert t.regenerations[tx].Committed?;
        CommitKeepsPending(s, tx, codes, r);
      }
      hide RowsOk, LogOk, BatchesOk, GenerationOk, PendingOk, AfterCommit;
    }
  }

  // ---------------------------------------------------------------- runs

  lemma {:induction false} StepKeepsInvariant(s: State, e: Event)
    requires Invariant(s)
    ensures Invariant(Step(s, e))
  {
    hide Invariant;
    match e
    case Read(request, user, code, found) => ReadKeepsInvariant(s, request, user, code, found);
    case MarkUsed(request) => MarkKeepsInvariant(s, request);
    case DeleteOld(tx, user) => DeleteKeepsInvariant(s, tx, user);
    case Commit(tx, codes) => CommitKeepsInvariant(s, tx, codes);
  }

  lemma {:induction false} RunKeepsInvariant(s: State, events: seq<Event>)
    requires Invariant(s)
    ensures Invariant(Run(s, events))
    decreases |events|
  {
    hide Invariant, Step;
    if events != [] {
      StepKeepsInvariant(s, events[0]);
      RunKeepsInvariant(Step(s, events[0]), events[1..]);
    }
  }

  lemma StartOk()
    ensures Invariant(Start)
  {
    assert forall tx :: Batch(Start, tx) == {};
    assert forall user :: Stored(Start, user) == {};
  }

  // ---------------------------------------------------------------- main results

  /** How many of the logged consumes are of rows in `ids`. */
  function Count(log: seq<Consume>, ids: set<CodeId>): nat {
    if log == [] then 0 else Count(log[1..], ids) + if log[0].Matched? && log[0].id in ids then 1 else 0
  }

  lemma {:induction false} CountDistinct(log: seq<Consume>, ids: set<CodeId>)
    requires forall i :: 0 <= i < |log| ==> log[i].Matched?
    requires forall i, j :: 0 <= i < j < |log| ==> log[i].id != log[j].id
    ensures Count(log, ids) <= |ids|
  {
    if log != [] {
      var id := log[0].id;
      CountDistinct(log[1..], ids - {id});
      CountWithout(log[1..], ids, id);
    }
  }

  lemma {:induction false} CountWithout(log: seq<Consume>, ids: set<CodeId>, id: CodeId)
    requires forall i :: 0 <= i < |log| ==> log[i].Matched? && log[i].id != id
    ensures Count(log, ids) == Count(log, ids - {id})
  {
    if log != [] {
      CountWithout(log[1..], ids, id);
    }
  }

  /**
   * In every interleaving each code is consumed at most once, by a request of its
   * user that presented it, so one generation lets at most eight consumes succeed.
   */
  lemma {:induction false} CodesUsedOnce(events: seq<Event>, tx: TxId)
    ensures var s := Run(Start, events);
      && (forall i :: 0 <= i < |s.log| ==> s.log[i].Matched? && HoldsCode(s.issued, s.log[i]))
      && (forall i, j :: 0 <= i < j < |s.log| ==> s.log[i].id != s.log[j].id)
      && Count(s.log, Batch(s, tx)) <= NUM_CODES
  {
    StartOk();
    RunKeepsInvariant(Start, events);
    var s := Run(Start, events);
    CountDistinct(s.log, Batch(s, tx));
    assert |Batch(s, tx)| <= NUM_CODES;
  }

  /**
   * Once generated, a user's codes number exactly eight if and only if no other
   * regeneration for the user committed between the last one's delete and its
   * commit; otherwise the rows of both stay, sixteen at least.
   */
  lemma EightCodesIff(events: seq<Event>, user: User)
    requires user in Run(Start, events).generations
    ensures var s := Run(Start, events);
      && (|Stored(s, user)| == NUM_CODES <==> !s.generations[user].overlapped)
      && (s.generations[user].overlapped ==> |Stored(s, user)| >= 2 * NUM_CODES)
  {
    StartOk();
    RunKeepsInvariant(Start, events);
    RunGenerated(Start, events);
    assert GenerationOk(Run(Start, events), user);
  }

  lemma {:induction false} RunGenerated(s: State, events: seq<Event>)
    requires forall user :: user in s.generations ==> s.generations[user].number >= 1
    ensures forall user :: user in Run(s, events).generations ==> Run(s, events).generations[user].number >= 1
    decreases |events|
  {
    if events != [] {
      RunGenerated(Step(s, events[0]), events[1..]);
    }
  }

  /** The stored codes already consumed, and those remaining. */
  function Used(s: State, user: User): set<CodeId> {
    set id | id in Stored(s, user) && id in s.rows && s.rows[id]
  }

  function Remaining(s: State, user: User): set<CodeId> {
    set id | id in Stored(s, user) && id in s.rows && !s.rows[id]
  }

  /** Used and remaining codes make up the stored ones, and the used ones are those consumed. */
  lemma {:induction false} UsedAndRemaining(events: seq<Event>, user: User)
    ensures var s := Run(Start, events);
      && |Used(s, user)| + |Remaining(s, user)| == |Stored(s, user)|
      && forall id :: id in Stored(s, user) ==> (id in Used(s, user) <==> exists i :: 0 <= i < |s.log| && s.log[i].Matched? && s.log[i].id == id)
  {
    StartOk();
    RunKeepsInvariant(Start, events);
    var s := Run(Start, events);
    assert Used(s, user) + Remaining(s, user) == Stored(s, user);
    assert Used(s, user) !! Remaining(s, user);
  }

  // ---------------------------------------------------------------- an overlap

  /** Two regenerations whose deletes both run before either commits. */
  function Overlap(user: User, one: map<CodeId, string>, two: map<CodeId, string>): seq<Event> {
    [DeleteOld(1, user), DeleteOld(2, user), Commit(1, one), Commit(2, two)]
  }

  /** They leave the codes of both stored. */
  lemma OverlapLeavesSixteen(user: User, one: map<CodeId, string>, two: map<CodeId, string>)
    requires |one| == NUM_CODES && |two| == NUM_CODES && one.Keys !! two.Keys
    ensures |Stored(Run(Start, Overlap(user, one, two)), user)| >= 2 * NUM_CODES
  {
    hide Step, Run, Stored;
    RunFour(Start, Overlap(user, one, two));
    DeletesOverlap(user);
    CommitsOverlap(user, one, two);
    EightCodesIff(Overlap(user, one, two), user);
  }

  function BothDeleted(user: User): State {
    Start.(regenerations := map[1 := Deleted(user, {}, 0), 2 := Deleted(user, {}, 0)])
  }

  lemma DeletesOverlap(user: User)
    ensures Step(Step(Start, DeleteOld(1, user)), DeleteOld(2, user)) == BothDeleted(user)
  {
    var s := Start.(regenerations := map[1 := Deleted(user, {}, 0)]);
    assert Stored(Start, user) == {} && Stored(s, user) == {};
    assert Step(Start, DeleteOld(1, user)) == s;
  }

  lemma CommitsOverlap(user: User, one: map<CodeId, string>, two: map<CodeId, string>)
    requires |one| == NUM_CODES && |two| == NUM_CODES && one.Keys !! two.Keys
    ensures var s := Step(Step(BothDeleted(user), Commit(1, one)), Commit(2, two));
      user in s.generations && s.generations[user].overlapped
  {
  }

  lemma RunFour(s: State, e: seq<Event>)
    requires |e| == 4
    ensures Run(s, e) == Step(Step(Step(Step(s, e[0]), e[1]), e[2]), e[3])
  {
    hide Step;
    var t := Step(s, e[0]);
    var u := Step(t, e[1]);
    var v := Step(u, e[2]);
    assert Run(s, e) == Run(t, e[1..]);
    assert e[1..][1..] == e[2..] && e[2..][1..] == e[3..] && e[3..][1..] == [];
    assert Run(t, e[1..]) == Run(u, e[2..]);
    assert Run(u, e[2..]) == Run(v, e[3..]);
    assert Run(v, e[3..]) == Run(Step(v, e[3]), []);
  }
}
