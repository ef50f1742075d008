/** The `audit` table as an object updated in place, each method proved against its function on values. */
module AuditTables {
  import opened ByteStrings
  import opened AuditEntries
  import opened HashChain
  import opened AuditLog

  /** The re-key loop at row `i`: what is done, followed by what re-linking the rest yields, is the goal. */
  ghost predicate RelinkSoFar(
    mac: Mac, key: Key32, goal: Result<seq<Row>, AuditError>, rows: seq<Row>, updated: seq<Row>, i: nat, previous: Digest)
    requires i <= |rows|
  {
    var rest := Relink(mac, key, rows[i..], previous);
    && |updated| == |rows| && updated[i..] == rows[i..]
    && goal == (if rest.Ok? then Ok(updated[..i] + rest.value) else rest)
    && (i > 0 ==> updated[i - 1].entryHash == previous)
  }

  lemma RelinkStarts(mac: Mac, key: Key32, rows: seq<Row>)
    ensures RelinkSoFar(mac, key, Relink(mac, key, rows, Genesis()), rows, rows, 0, Genesis())
  {
    var goal := Relink(mac, key, rows, Genesis());
    assert rows[0..] == rows;
    assert goal.Ok? ==> rows[..0] + goal.value == goal.value;
  }

  lemma RelinkSteps(
    mac: Mac, key: Key32, goal: Result<seq<Row>, AuditError>, rows: seq<Row>, updated: seq<Row>, i: nat, previous: Digest)
    requires i < |rows| && RelinkSoFar(mac, key, goal, rows, updated, i, previous)
    ensures updated[i] == rows[i]
    ensures match ReadEntry(rows[i])
      case Err(error) => goal == Err(error)
      case Ok(e) =>
        var hash := mac(key, previous + Canonical(e));
        RelinkSoFar(mac, key, goal, rows, updated[i := rows[i].(prevHash := previous, entryHash := hash)], i + 1, hash)
  {
    hide ReadEntry, Canonical;
    assert updated[i] == updated[i..][0] == rows[i..][0];
    assert rows[i..][1..] == rows[i + 1..];
    var content := ReadEntry(rows[i]);
    if content.Ok? {
      var hash := mac(key, previous + Canonical(content.value));
      var row := rows[i].(prevHash := previous, entryHash := hash);
      var after := updated[i := row];
      assert after[..i + 1] == updated[..i] + [row];
      assert after[i + 1..] == updated[i..][1..];
      var rest := Relink(mac, key, rows[i + 1..], hash);
      assert rest.Ok? ==> updated[..i] + ([row] + rest.value) == after[..i + 1] + rest.value;
    }
  }

  lemma RelinkEnds(
    mac: Mac, key: Key32, goal: Result<seq<Row>, AuditError>, rows: seq<Row>, updated: seq<Row>, previous: Digest)
    requires RelinkSoFar(mac, key, goal, rows, updated, |rows|, previous)
    ensures goal == Ok(updated) && |updated| == |rows|
    ensures rows != [] ==> updated[|rows| - 1].entryHash == previous
  {
    assert updated[..|rows|] + [] == updated;
  }

  class AuditTable {
    var rows: seq<Row>
    var anchor: Option<Bytes>
    var highWater: nat

    constructor ()
      ensures Contents() == EMPTY_LOG
    {
      rows, anchor, highWater := [], None, 0;
    }

    function Contents(): Log
      reads this
    {
      Log(rows, anchor, highWater)
    }

    method Append(mac: Mac, key: Key32, e: Entry) returns (r: Result<RowId, AuditError>)
      modifies this
      ensures match AuditLog.Append(mac, key, old(Contents()), e)
        case Ok(log) => Contents() == log && r == Ok(NextRowId(old(Contents())))
        case Err(error) => Contents() == old(Contents()) && r == Err(error)
    {
      hide Canonical, RowOf, LinkOf;
      var prev := Genesis();
      if rows != [] {
        var tail := rows[|rows| - 1].entryHash;
        if |tail| != 32 {
          return Err(InvalidHashLength);
        }
        prev := tail;
      }
      var entries := |rows|;
      var hash := mac(key, prev + Canonical(e));
      var id := NextRowId(Contents());
      if id > I64_MAX {
        return Err(Sqlite);
      }
      rows := rows + [RowOf(id, e, prev, hash)];
      highWater := id;
      anchor := Some(EncodeAnchor(mac, key, Anchor(entries + 1, hash)));
      return Ok(id);
    }

    method Verify(mac: Mac, key: Key32) returns (r: Result<Verdict, AuditError>)
      ensures r == AuditLog.Verify(mac, key, Contents())
    {
      hide LinkOf;
      var count := 0;
      var expectedSeq: U64 := 1;
      var expectedPrev := Genesis();
      ghost var links := Links(rows);
      while count < |rows|
        invariant count <= |rows|
        invariant Walk(mac, key, links, 1, Genesis()) == Walk(mac, key, links[count..], expectedSeq, expectedPrev)
      {
        assert links[count..][0] == LinkOf(rows[count]) && links[count..][1..] == links[count + 1..];
        match CheckLink(mac, key, LinkOf(rows[count]), expectedSeq, expectedPrev)
        case Failed(error) => return Err(error);
        case Stopped(verdict) => return Ok(verdict);
        case Clean(hash) =>
          count := count + 1;
          expectedSeq := Advance(expectedSeq, 1);
          expectedPrev := hash;
      }
      r := Judge(mac, key, count, expectedPrev, anchor);
    }

    method RekeyChain(mac: Mac, oldKey: Key32, newKey: Key32) returns (r: Result<nat, AuditError>)
      modifies this
      ensures match AuditLog.RekeyChain(mac, oldKey, newKey, old(Contents()))
        case Ok(log) => Contents() == log && r == Ok(|log.rows|)
        case Err(error) => Contents() == old(Contents()) && r == Err(error)
    {
      hide Canonical, LinkOf, ReadEntry, AuditLog.Verify, EncodeAnchor, Relink, RelinkSoFar, Genesis, Links, TailOf;
      var checked := Verify(mac, oldKey);
      if checked.Err? {
        return Err(checked.error);
      }
      if !checked.value.Valid? {
        return Err(RefusingToRekeyBrokenChain(checked.value));
      }
      var (updated, previous, i) := (rows, Genesis(), 0);
      ghost var goal := Relink(mac, newKey, rows, Genesis());
      RelinkStarts(mac, newKey, rows);
      while i < |rows|
        invariant unchanged(this)
        invariant i <= |rows| == |updated| && RelinkSoFar(mac, newKey, goal, rows, updated, i, previous)
      {
        RelinkSteps(mac, newKey, goal, rows, updated, i, previous);
        var content := ReadEntry(updated[i]);
        if content.Err? {
          return Err(content.error);
        }
        var hash := mac(newKey, previous + Canonical(content.value));
        updated := updated[i := updated[i].(prevHash := previous, entryHash := hash)];
        previous := hash;
        i := i + 1;
      }
      RelinkEnds(mac, newKey, goal, rows, updated, previous);
      if rows != [] {
        RekeyedTail(mac, oldKey, newKey, Contents());
      }
      rows := updated;
      if |updated| > 0 {
        anchor := Some(EncodeAnchor(mac, newKey, Anchor(|updated|, previous)));
      }
      return Ok(|updated|);
    }
  }
}
