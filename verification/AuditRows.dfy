/** Which rows of the `audit` table are entries, which are damaged and how, told from the columns alone. */
module AuditRows {
  import opened ByteStrings
  import opened AuditEntries
  import opened HashChain
  import opened TamperEvidence
  import opened AuditLog

  /** A nullable column holds a nullable number. */
  predicate SameNumber(column: Option<I64>, n: Option<int>) {
    match column
    case None => n.None?
    case Some(v) => n == Some(v)
  }

  /** The nine content columns spell this entry. */
  predicate Spells(r: Row, e: Entry) {
    && r.ts == e.ts
    && r.tokenPrefix == e.tokenPrefix
    && SameNumber(r.peerUid, e.peerUid)
    && SameNumber(r.peerPid, e.peerPid)
    && r.action == ActionName(e.action)
    && r.path == e.path
    && SameNumber(r.version, e.version)
    && r.outcome == OutcomeName(e.outcome)
    && r.detail == e.detail
  }

  predicate Numbered(r: Row) {
    0 <= r.seqNo && |r.prevHash| == 32 && |r.entryHash| == 32
  }

  predicate Is32Bit(n: Option<I64>) {
    n.Some? ==> 0 <= n.value <= 0xFFFF_FFFF
  }

  ghost predicate KnownAction(raw: string) {
    exists a: Action :: ActionName(a) == raw
  }

  ghost predicate KnownOutcome(raw: string) {
    exists o: Outcome :: OutcomeName(o) == raw
  }

  lemma ActionParses(raw: string)
    ensures ParseAction(raw).Some? <==> KnownAction(raw)
    ensures forall a :: ParseAction(raw) == Some(a) <==> ActionName(a) == raw
  {
    hide ActionName, ParseAction, OutcomeName, ParseOutcome;
    forall a: Action ensures ParseAction(raw) == Some(a) <==> ActionName(a) == raw {
      NamesRoundTrip(a, Success);
    }
  }

  lemma OutcomeParses(raw: string)
    ensures ParseOutcome(raw).Some? <==> KnownOutcome(raw)
    ensures forall o :: ParseOutcome(raw) == Some(o) <==> OutcomeName(o) == raw
  {
    hide ActionName, ParseAction, OutcomeName, ParseOutcome;
    forall o: Outcome ensures ParseOutcome(raw) == Some(o) <==> OutcomeName(o) == raw {
      NamesRoundTrip(Init, o);
    }
  }

  /** A row reads as an entry exactly when it is numbered and its columns spell that entry. */
  lemma ReadsExactly(r: Row, e: Entry)
    ensures ReadEntry(r) == Ok(e) <==> Numbered(r) && Spells(r, e)
    ensures LinkOf(r) == Link(r.seqNo, r.prevHash, r.entryHash, Canonical(e)) <== Numbered(r) && Spells(r, e)
  {
    hide ActionName, ParseAction, OutcomeName, ParseOutcome, Canonical;
    ActionParses(r.action);
    OutcomeParses(r.outcome);
  }

  /** Every other row is rejected for the first thing wrong with it, in the order the columns are read. */
  lemma RejectedExactly(r: Row)
    ensures LinkOf(r) == Damaged(None, NegativeSeq) <==> r.seqNo < 0
    ensures r.seqNo >= 0 ==>
      && (LinkOf(r) == Damaged(Some(r.seqNo), PrevHashLength) <==> |r.prevHash| != 32)
      && (LinkOf(r) == Damaged(Some(r.seqNo), EntryHashLength) <==> |r.prevHash| == 32 && |r.entryHash| != 32)
    ensures Numbered(r) ==>
      && (LinkOf(r) == Unreadable <==>
            !Is32Bit(r.peerUid) || !Is32Bit(r.peerPid) || (KnownAction(r.action) && !Is32Bit(r.version)))
      && (LinkOf(r) == Damaged(Some(r.seqNo), UnknownAction) <==>
            Is32Bit(r.peerUid) && Is32Bit(r.peerPid) && !KnownAction(r.action))
      && (LinkOf(r) == Damaged(Some(r.seqNo), InvalidVersion) <==>
            Is32Bit(r.peerUid) && Is32Bit(r.peerPid) && KnownAction(r.action) && r.version == Some(0))
      && (LinkOf(r) == Damaged(Some(r.seqNo), UnknownOutcome) <==>
            && Is32Bit(r.peerUid) && Is32Bit(r.peerPid) && KnownAction(r.action)
            && Is32Bit(r.version) && r.version != Some(0) && !KnownOutcome(r.outcome))
      && (LinkOf(r).Link? <==>
            && Is32Bit(r.peerUid) && Is32Bit(r.peerPid) && KnownAction(r.action)
            && Is32Bit(r.version) && r.version != Some(0) && KnownOutcome(r.outcome))
  {
    hide KnownAction, KnownOutcome, ParseAction, ParseOutcome, Canonical;
    ActionParses(r.action);
    OutcomeParses(r.outcome);
  }

  // ----- what the verifier makes of them -----

  lemma RejectedRowIsReported(mac: Mac, key: Key32, log: Log, i: nat, row: Row)
    requires Verifies(mac, key, log) && i < |log.rows| && !LinkOf(row).Link?
    ensures Verify(mac, key, log.(rows := log.rows[i := row]))
      == match LinkOf(row)
         case Damaged(None, what) => Ok(Corrupt(i + 1, what))
         case Damaged(Some(number), what) => Ok(Corrupt(number, what))
         case _ => Err(Sqlite)
  {
    hide LinkOf, VerifyLinks;
    DamagedIsNamed(mac, key, Links(log.rows), log.anchor, i, LinkOf(row));
    assert Links(log.rows[i := row]) == Links(log.rows)[i := LinkOf(row)];
  }

  lemma ValidRow(mac: Mac, key: Key32, log: Log, i: nat)
    requires Verifies(mac, key, log) && i < |log.rows|
    ensures log.rows[i].seqNo == i + 1 && Numbered(log.rows[i]) && LinkOf(log.rows[i]).Link?
    ensures ReadEntry(log.rows[i]).Ok? && Spells(log.rows[i], ReadEntry(log.rows[i]).value)
  {
    hide LinkOf, VerifyLinks, Spells, ReadEntry;
    ValidMeans(mac, key, Links(log.rows), log.anchor);
    ChainedRow(mac, key, log.rows, i);
    LinkIsEntry(log.rows[i]);
    ReadsExactly(log.rows[i], ReadEntry(log.rows[i]).value);
  }

  lemma LinkIsEntry(r: Row)
    requires LinkOf(r).Link?
    ensures ReadEntry(r).Ok? && Numbered(r)
  {
    hide Canonical, ParseContent;
  }

  /** A row renumbered below zero comes first in the order of numbers, and is reported there. */
  lemma NegativeNumberIsNamed(mac: Mac, key: Key32, log: Log, i: nat, n: I64)
    requires i < |log.rows| && n < 0
    ensures var moved := [log.rows[i].(seqNo := n)] + log.rows[..i] + log.rows[i + 1..];
      Verify(mac, key, log.(rows := moved)) == Ok(Corrupt(1, NegativeSeq))
  {
    var r := log.rows[i].(seqNo := n);
    RejectedExactly(r);
    hide LinkOf;
    var moved := [r] + log.rows[..i] + log.rows[i + 1..];
    assert Links(moved)[0] == LinkOf(r);
  }

  /** One column of one row of a valid log changed to something no entry has there. */
  lemma ChangedColumnIsNamed(mac: Mac, key: Key32, log: Log, i: nat, raw: string, n: I64, hash: Bytes)
    requires Verifies(mac, key, log) && i < |log.rows|
    ensures var (r, change) := (log.rows[i], (row: Row) => Verify(mac, key, log.(rows := log.rows[i := row])));
      && (|hash| != 32 ==> change(r.(prevHash := hash)) == Ok(Corrupt(i + 1, PrevHashLength)))
      && (|hash| != 32 ==> change(r.(entryHash := hash)) == Ok(Corrupt(i + 1, EntryHashLength)))
      && (!KnownAction(raw) ==> change(r.(action := raw)) == Ok(Corrupt(i + 1, UnknownAction)))
      && change(r.(version := Some(0))) == Ok(Corrupt(i + 1, InvalidVersion))
      && (!KnownOutcome(raw) ==> change(r.(outcome := raw)) == Ok(Corrupt(i + 1, UnknownOutcome)))
      && (!Is32Bit(Some(n)) ==>
            && change(r.(peerUid := Some(n))) == Err(Sqlite)
            && change(r.(peerPid := Some(n))) == Err(Sqlite)
            && change(r.(version := Some(n))) == Err(Sqlite))
  {
    hide LinkOf, Verifies, Verify, Spells, ReadEntry, KnownAction, KnownOutcome;
    var r := log.rows[i];
    ValidRow(mac, key, log, i);
    RejectedExactly(r);
    forall row: Row | !LinkOf(row).Link?
      ensures Verify(mac, key, log.(rows := log.rows[i := row]))
        == match LinkOf(row)
           case Damaged(None, what) => Ok(Corrupt(i + 1, what))
           case Damaged(Some(number), what) => Ok(Corrupt(number, what))
           case _ => Err(Sqlite)
    {
      RejectedRowIsReported(mac, key, log, i, row);
    }
    RejectedExactly(r.(prevHash := hash));
    RejectedExactly(r.(entryHash := hash));
    RejectedExactly(r.(action := raw));
    RejectedExactly(r.(version := Some(0)));
    RejectedExactly(r.(outcome := raw));
    RejectedExactly(r.(peerUid := Some(n)));
    RejectedExactly(r.(peerPid := Some(n)));
    RejectedExactly(r.(version := Some(n)));
  }

  // ----- a link gives the row back -----

  predicate ShortColumns(r: Row) {
    (r.tokenPrefix.Some? ==> |r.tokenPrefix.value| < 1279) && (r.path.Some? ==> |r.path.value| < 1279)
  }

  /** No two different rows give one link, as long as their text is short. */
  lemma SameLinkSameRow(r: Row, q: Row)
    requires LinkOf(r).Link? && LinkOf(r) == LinkOf(q) && ShortColumns(r) && ShortColumns(q)
    ensures r == q
  {
    hide LinkOf, ReadEntry, ActionName, OutcomeName;
    LinkIsEntry(r);
    LinkIsEntry(q);
    ReadsExactly(r, ReadEntry(r).value);
    ReadsExactly(q, ReadEntry(q).value);
    SameLinkSameEntry(r, q);
  }

  /**
   * Under one anchor a valid log is the only one: rows put in the place of its own verify only if every column of
   * every row is the same, or two of them collide.
   */
  lemma ValidLogIsUnique(mac: Mac, key: Key32, log: Log, rows: seq<Row>)
    requires Verifies(mac, key, log) && Verifies(mac, key, log.(rows := rows))
    requires forall i :: 0 <= i < |log.rows| ==> ShortColumns(log.rows[i])
    requires forall i :: 0 <= i < |rows| ==> ShortColumns(rows[i])
    ensures rows == log.rows || CollisionIn(mac, key, Links(log.rows), Links(rows))
  {
    hide LinkOf, VerifyLinks, ShortColumns;
    TamperEvident(mac, key, Links(log.rows), log.anchor, Links(rows));
    if Links(rows) == Links(log.rows) {
      assert |rows| == |Links(rows)| == |log.rows|;
      forall i | 0 <= i < |rows| ensures rows[i] == log.rows[i] {
        assert Links(rows)[i] == Links(log.rows)[i];
        ValidRow(mac, key, log, i);
        SameLinkSameRow(log.rows[i], rows[i]);
      }
    }
  }
}
