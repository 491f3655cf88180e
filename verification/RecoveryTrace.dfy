/**
 * Where consumed recovery codes come from: the events of the run behind each
 * successful consume, and that an honest consume succeeds.
 */
module RecoveryTraces {
  import opened Bytes
  import opened RecoveryRace

  // ---------------------------------------------------------------- what was done, and when

  ghost predicate DeletedAt(past: seq<Event>, a: int, tx: TxId, user: User) {
    0 <= a < |past| && past[a] == DeleteOld(tx, user)
  }

  ghost predicate StoredAt(past: seq<Event>, a: int, b: int, id: CodeId, c: Code) {
    && DeletedAt(past, a, c.batch, c.user) && a < b < |past|
    && past[b].Commit? && past[b].tx == c.batch && id in past[b].codes && past[b].codes[id] == c.code
  }

  ghost predicate ReadAt(past: seq<Event>, k: int, request: RequestId, c: Consume) {
    0 <= k < |past| && c.Matched? && past[k] == Read(request, c.user, c.code, Some(c.id))
  }

  ghost predicate ConsumedAt(past: seq<Event>, k: int, d: int, c: Consume) {
    0 <= k < d < |past| && past[d].MarkUsed? && ReadAt(past, k, past[d].request, c)
  }

  ghost predicate RegenerationTraced(past: seq<Event>, tx: TxId, d: Regeneration) {
    d.Deleted? ==> exists a :: DeletedAt(past, a, tx, d.user)
  }

  ghost predicate CodeTraced(past: seq<Event>, id: CodeId, c: Code) {
    exists a, b :: StoredAt(past, a, b, id, c)
  }

  ghost predicate RequestTraced(past: seq<Event>, request: RequestId, c: Consume) {
    c.Matched? ==> exists k :: ReadAt(past, k, request, c)
  }

  ghost predicate ConsumeTraced(past: seq<Event>, c: Consume) {
    exists k, d :: ConsumedAt(past, k, d, c)
  }

  ghost predicate Traced(past: seq<Event>, s: State) {
    && (forall tx :: tx in s.regenerations ==> RegenerationTraced(past, tx, s.regenerations[tx]))
    && (forall id :: id in s.issued ==> CodeTraced(past, id, s.issued[id]))
    && (forall r :: r in s.consumes ==> RequestTraced(past, r, s.consumes[r]))
    && (forall i :: 0 <= i < |s.log| ==> ConsumeTraced(past, s.log[i]))
  }

  lemma {:induction false} TracedLater(past: seq<Event>, e: Event, s: State)
    requires Traced(past, s)
    ensures Traced(past + [e], s)
  {
    forall tx | tx in s.regenerations ensures RegenerationTraced(past + [e], tx, s.regenerations[tx]) {
      var d := s.regenerations[tx];
      assert RegenerationTraced(past, tx, d);
      if d.Deleted? {
        var a :| DeletedAt(past, a, tx, d.user);
        assert DeletedAt(past + [e], a, tx, d.user);
      }
    }
    forall id | id in s.issued ensures CodeTraced(past + [e], id, s.issued[id]) {
      assert CodeTraced(past, id, s.issued[id]);
      var a, b :| StoredAt(past, a, b, id, s.issued[id]);
      assert StoredAt(past + [e], a, b, id, s.issued[id]);
    }
    forall r | r in s.consumes ensures RequestTraced(past + [e], r, s.consumes[r]) {
      var c := s.consumes[r];
      assert RequestTraced(past, r, c);
      if c.Matched? {
        var k :| ReadAt(past, k, r, c);
        assert ReadAt(past + [e], k, r, c);
      }
    }
    forall i | 0 <= i < |s.log| ensures ConsumeTraced(past + [e], s.log[i]) {
      assert ConsumeTraced(past, s.log[i]);
      var k, d :| ConsumedAt(past, k, d, s.log[i]);
      assert ConsumedAt(past + [e], k, d, s.log[i]);
    }
  }

  lemma {:induction false} ReadTraced(past: seq<Event>, s: State, e: Event)
    requires e.Read? && Traced(past + [e], s)
    ensures Traced(past + [e], Step(s, e))
  {
    var c := if e.found.Some? then Matched(e.found.value, e.user, e.code) else Ended;
    if e.found.Some? {
      assert ReadAt(past + [e], |past|, e.request, c);
    }
    assert RequestTraced(past + [e], e.request, c);
    hide RegenerationTraced, CodeTraced, RequestTraced, ConsumeTraced, Finds;
  }

  lemma {:induction false} MarkTraced(past: seq<Event>, s: State, e: Event)
    requires e.MarkUsed? && Traced(past, s) && Traced(past + [e], s)
    ensures Traced(past + [e], Step(s, e))
  {
    if e.request in s.consumes && s.consumes[e.request].Matched? {
      var c := s.consumes[e.request];
      assert RequestTraced(past, e.request, c);
      var k :| ReadAt(past, k, e.request, c);
      assert ConsumedAt(past + [e], k, |past|, c);
      assert ConsumeTraced(past + [e], c) && RequestTraced(past + [e], e.request, Consume.Ended);
      hide RegenerationTraced, CodeTraced, RequestTraced, ConsumeTraced;
    }
  }

  lemma DeleteTraced(past: seq<Event>, s: State, e: Event)
    requires e.DeleteOld? && Traced(past + [e], s)
    ensures Traced(past + [e], Step(s, e))
  {
    assert DeletedAt(past + [e], |past|, e.tx, e.user);
    hide CodeTraced, RequestTraced, ConsumeTraced, Stored, GenerationOf;
  }

  lemma CommitTraced(past: seq<Event>, s: State, e: Event)
    requires e.Commit? && Traced(past, s) && Traced(past + [e], s)
    ensures Traced(past + [e], Step(s, e))
  {
    if Commits(s, e.tx, e.codes) {
      var d := s.regenerations[e.tx];
      assert RegenerationTraced(past, e.tx, d);
      var a :| DeletedAt(past, a, e.tx, d.user);
      CodesTraced(past, a, e, d.user);
      assert RegenerationTraced(past + [e], e.tx, Committed);
      hide DeletedAt, RegenerationTraced, CodeTraced, RequestTraced, ConsumeTraced, GenerationOf, Commits;
    }
  }

  lemma CodesTraced(past: seq<Event>, a: int, e: Event, user: User)
    requires e.Commit? && DeletedAt(past, a, e.tx, user)
    ensures forall id :: id in e.codes ==> CodeTraced(past + [e], id, Code(user, e.codes[id], e.tx))
  {
    forall id | id in e.codes ensures CodeTraced(past + [e], id, Code(user, e.codes[id], e.tx)) {
      assert StoredAt(past + [e], a, |past|, id, Code(user, e.codes[id], e.tx));
    }
  }

  lemma {:induction false} RunTraced(past: seq<Event>, s: State, events: seq<Event>)
    requires Traced(past, s)
    ensures Traced(past + events, Run(s, events))
    decreases |events|
  {
    hide Traced, Step;
    if events == [] {
      assert past + events == past;
    } else {
      var e := events[0];
      TracedLater(past, e, s);
      match e {
        case Read(_, _, _, _) => ReadTraced(past, s, e);
        case MarkUsed(_) => MarkTraced(past, s, e);
        case DeleteOld(_, _) => DeleteTraced(past, s, e);
        case Commit(_, _) => CommitTraced(past, s, e);
      }
      RunTraced(past + [e], Step(s, e), events[1..]);
      assert past + [e] + events[1..] == past + events;
    }
  }

  /**
   * Behind every successful consume: a regeneration of that user stored the code under
   * that id, and a request read it there with exactly that code before marking it.
   */
  lemma ConsumesAreEarned(events: seq<Event>, i: nat) returns (a: nat, b: nat, k: nat, d: nat)
    requires i < |Run(Start, events).log|
    ensures var c := Run(Start, events).log[i];
      && c.Matched?
      && a < b < |events| && events[b].Commit? && events[a] == DeleteOld(events[b].tx, c.user)
      && c.id in events[b].codes && events[b].codes[c.id] == c.code
      && k < d < |events| && events[d].MarkUsed? && events[k] == Read(events[d].request, c.user, c.code, Some(c.id))
  {
    RunTraced([], Start, events);
    assert [] + events == events;
    CodesUsedOnce(events, 0);
    hide Run, Step, Invariant;
    var s := Run(Start, events);
    var c := s.log[i];
    assert ConsumeTraced(events, c) && CodeTraced(events, c.id, s.issued[c.id]);
    a, b :| StoredAt(events, a, b, c.id, s.issued[c.id]);
    k, d :| ConsumedAt(events, k, d, c);
  }

  // ---------------------------------------------------------------- honest requests succeed

  /** An unused stored code is consumed by the first of the user's requests that reads and marks it. */
  lemma HonestConsumeSucceeds(s: State, request: RequestId, id: CodeId)
    requires id in s.rows && id in s.issued && request !in s.consumes
    ensures var c := s.issued[id];
      var t := Step(Step(s, Read(request, c.user, c.code, Some(id))), MarkUsed(request));
      if s.rows[id] then t.log == s.log && t.rows == s.rows
      else t.log == s.log + [Matched(id, c.user, c.code)] && t.rows == s.rows[id := true]
  {
  }

  /** A regeneration that no other overlaps leaves the user exactly its own eight codes, unused and under its texts. */
  lemma RegenerationReplaces(s: State, tx: TxId, user: User, codes: map<CodeId, string>, id: CodeId)
    requires s.rows.Keys <= s.issued.Keys && tx !in s.regenerations
    requires |codes| == 8 && codes.Keys !! s.issued.Keys
    ensures var t := Step(Step(s, DeleteOld(tx, user)), Commit(tx, codes));
      && (id in codes ==> id in t.rows && !t.rows[id] && t.issued[id] == Code(user, codes[id], tx))
      && (id in s.rows ==> (id in t.rows <==> s.issued[id].user != user))
      && (id in s.rows && id in t.rows ==> t.rows[id] == s.rows[id] && t.issued[id] == s.issued[id])
      && (id in t.rows ==> id in codes || id in s.rows)
  {
    hide GenerationOf;
  }
}
