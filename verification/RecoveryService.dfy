/**
 * `Service` of backend/internal/recovery/recovery.go undisturbed: generating a
 * user's codes and consuming one. Codes are stored hashed with ideal scrypt, so a
 * row is known by the normalised code it accepts.
 */
module RecoveryServices {
  import opened Ascii
  import Base32
  import opened BitStrings
  import opened Bytes
  import opened ConvertBits
  import opened RecoveryCodes

  type User = nat
  type CodeId = nat

  const NUM_CODES: nat := 8

  datatype Row = Row(user: User, code: string, used: bool)

  /** What one code is drawn from: the row's id and eight random bytes. */
  datatype Draw = Draw(id: CodeId, bytes: seq<byte>)

  datatype ConsumeError = InvalidCode | CodeAlreadyUsed

  ghost predicate FreshDraws(rows: map<CodeId, Row>, draws: seq<Draw>) {
    && |draws| == NUM_CODES
    && (forall i :: 0 <= i < |draws| ==> |draws[i].bytes| == RANDOM_BYTES && draws[i].id !in rows)
    && (forall i, j :: 0 <= i < j < |draws| ==> draws[i].id != draws[j].id)
  }

  method ComputeCode(b: seq<byte>) returns (code: AsciiString)
    requires |b| == RANDOM_BYTES
    ensures code == GenerateCode(b)
  {
    hide Regroup, Spread, Gather, Fits, Base32.AlphabetChar;
    TextOfDigits(b);
    var w := Convert(b, 8, 5, true);
    var encoded: AsciiString := Base32.Text(w.value);
    var core: AsciiString := encoded[..CODE_LENGTH];
    var x: AsciiString, y: AsciiString, z: AsciiString := core[0..4], core[4..8], core[8..12];
    code := Dashed(x, y, z);
  }

  lemma TextOfDigits(b: seq<byte>)
    requires |b| == RANDOM_BYTES
    ensures Regroup(b, 8, 5, true).Ok?
    ensures var w := Regroup(b, 8, 5, true).value;
      && (forall i :: 0 <= i < |w| ==> 0 <= w[i] < 32)
      && |w| == 13 && Base32.Text(w)[..CODE_LENGTH] == Core(b)
  {
    PaddedBytesGather(b, 5);
    DigitsOfCode(b);
    assert Pow2(5) == 32;
  }

  /** The first `n` codes are stored under their ids, unused. */
  ghost predicate Inserted(rows: map<CodeId, Row>, user: User, draws: seq<Draw>, codes: seq<AsciiString>, n: nat)
    requires n <= |draws| && n == |codes|
  {
    forall k :: 0 <= k < n ==>
      && |draws[k].bytes| == RANDOM_BYTES && codes[k] == GenerateCode(draws[k].bytes)
      && draws[k].id in rows && rows[draws[k].id] == Row(user, NormalizeCode(codes[k]), false)
  }

  /** Nothing else of the user is stored, and the rows of other users are as before. */
  ghost predicate Replaced(before: map<CodeId, Row>, rows: map<CodeId, Row>, user: User, draws: seq<Draw>, n: nat)
    requires n <= |draws|
  {
    && (forall id :: id in rows && rows[id].user == user ==> exists k :: 0 <= k < n && draws[k].id == id)
    && (forall id :: id in rows && rows[id].user != user ==> id in before && rows[id] == before[id])
    && (forall id :: id in before && before[id].user != user ==> id in rows && rows[id] == before[id])
  }

  lemma InsertOne(before: map<CodeId, Row>, rows: map<CodeId, Row>, user: User, draws: seq<Draw>,
                  codes: seq<AsciiString>, code: AsciiString)
    requires FreshDraws(before, draws) && |codes| < |draws|
    requires Inserted(rows, user, draws, codes, |codes|) && Replaced(before, rows, user, draws, |codes|)
    requires code == GenerateCode(draws[|codes|].bytes)
    ensures var after := rows[draws[|codes|].id := Row(user, NormalizeCode(code), false)];
      Inserted(after, user, draws, codes + [code], |codes| + 1) && Replaced(before, after, user, draws, |codes| + 1)
  {
    hide GenerateCode, NormalizeCode;
    var n := |codes|;
    var after := rows[draws[n].id := Row(user, NormalizeCode(code), false)];
    forall id | id in after && after[id].user == user ensures exists k :: 0 <= k < n + 1 && draws[k].id == id {
      if id != draws[n].id {
        assert id in rows;
        var k :| 0 <= k < n && draws[k].id == id;
      }
    }
  }

  class Service {
    var rows: map<CodeId, Row>

    /** Replaces the user's codes by eight fresh ones, and no one else's. */
    method GenerateCodes(user: User, draws: seq<Draw>) returns (codes: seq<AsciiString>)
      requires FreshDraws(rows, draws)
      modifies this
      ensures |codes| == NUM_CODES
      ensures forall i :: 0 <= i < 8 ==> |draws[i].bytes| == 8 && codes[i] == GenerateCode(draws[i].bytes)
      ensures forall i :: 0 <= i < 8 ==> draws[i].id in rows && rows[draws[i].id] == Row(user, NormalizeCode(codes[i]), false)
      ensures forall id :: id in rows && rows[id].user == user ==> exists i :: 0 <= i < 8 && draws[i].id == id
      ensures forall id :: id in rows && rows[id].user != user ==> id in old(rows) && rows[id] == old(rows)[id]
      ensures forall id :: id in old(rows) && old(rows)[id].user != user ==> id in rows && rows[id] == old(rows)[id]
    {
      hide GenerateCode, NormalizeCode;
      rows := map id | id in rows && rows[id].user != user :: rows[id];
      codes := [];
      for i := 0 to NUM_CODES
        invariant |codes| == i
        invariant Inserted(rows, user, draws, codes, i)
        invariant Replaced(old(rows), rows, user, draws, i)
      {
        var code := ComputeCode(draws[i].bytes);
        InsertOne(old(rows), rows, user, draws, codes, code);
        codes := codes + [code];
        rows := rows[draws[i].id := Row(user, NormalizeCode(code), false)];
      }
    }

    ghost predicate ListsUnused(user: User, query: seq<CodeId>)
      reads this
    {
      && (forall i :: 0 <= i < |query| ==> query[i] in rows && rows[query[i]].user == user && !rows[query[i]].used)
      && (forall id :: id in rows && rows[id].user == user && !rows[id].used ==> exists i :: 0 <= i < |query| && query[i] == id)
    }

    /** Uses up one unused code of the user that the text spells; fails exactly when there is none. */
    method ConsumeCode(user: User, text: AsciiString, query: seq<CodeId>) returns (r: Result<CodeId, ConsumeError>)
      requires ListsUnused(user, query)
      modifies this
      ensures match r
        case Ok(id) =>
          && id in old(rows) && old(rows)[id] == Row(user, NormalizeCode(text), false)
          && rows == old(rows)[id := Row(user, NormalizeCode(text), true)]
        case Err(e) =>
          && e == InvalidCode && rows == old(rows)
          && forall id :: id in rows ==> rows[id] != Row(user, NormalizeCode(text), false)
    {
      var code := NormalizeCode(text);
      var matched: Option<CodeId> := None;
      var i := 0;
      while i < |query| && matched.None?
        invariant 0 <= i <= |query|
        invariant matched.None? ==> forall k :: 0 <= k < i ==> rows[query[k]].code != code
        invariant matched.Some? ==> matched.value in rows && rows[matched.value] == Row(user, code, false)
      {
        if rows[query[i]].code == code {
          matched := Some(query[i]);
        }
        i := i + 1;
      }
      if matched.None? {
        return Err(InvalidCode);
      }
      var id := matched.value;
      if rows[id].used {
        return Err(CodeAlreadyUsed);
      }
      rows := rows[id := rows[id].(used := true)];
      r := Ok(id);
    }
  }
}
