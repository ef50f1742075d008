/** The `audit` table and its anchor: parsing, appending, verifying and re-keying. */
module AuditLog {
  import opened ByteStrings
  import opened AuditEntries
  import opened HashChain
  import opened TamperEvidence

  /** One row of the `audit` table, columns as SQLite hands them over. */
  datatype Row = Row(
    seqNo: I64,
    ts: I64,
    tokenPrefix: Option<Text>,
    peerUid: Option<I64>,
    peerPid: Option<I64>,
    action: string,
    path: Option<Text>,
    version: Option<I64>,
    outcome: string,
    detail: Option<Text>,
    prevHash: Bytes,
    entryHash: Bytes)

  /** The table in `ORDER BY seq` order, the anchor row of `meta`, and the AUTOINCREMENT high-water mark. */
  datatype Log = Log(rows: seq<Row>, anchor: Option<Bytes>, highWater: nat)

  const EMPTY_LOG := Log([], None, 0)

  // ----- parsing a row -----

  predicate FitsU32(n: Option<I64>) {
    n.Some? ==> 0 <= n.value < U32_LIMIT
  }

  function AsU32(n: Option<I64>): Option<U32>
    requires FitsU32(n)
  {
    match n
    case Some(v) => Some(v)
    case None => None
  }

  function AsVersion(n: Option<I64>): Option<Version>
    requires FitsU32(n) && n != Some(0)
  {
    match n
    case Some(v) => Some(v)
    case None => None
  }

  datatype RowContent = Content(entry: Entry) | Bad(what: Defect) | OutOfRange

  /** The columns other than number and hashes, in the source's order of checks. */
  function ParseContent(r: Row): RowContent {
    if !FitsU32(r.peerUid) || !FitsU32(r.peerPid) then OutOfRange
    else if ParseAction(r.action).None? then Bad(UnknownAction)
    else if !FitsU32(r.version) then OutOfRange
    else if r.version == Some(0) then Bad(InvalidVersion)
    else if ParseOutcome(r.outcome).None? then Bad(UnknownOutcome)
    else
      Content(Entry(r.ts, r.tokenPrefix, AsU32(r.peerUid), AsU32(r.peerPid), ParseAction(r.action).value,
                    r.path, AsVersion(r.version), ParseOutcome(r.outcome).value, r.detail))
  }

  /** `parse_and_validate_row`: a column out of range is an SQL error, not a verdict. */
  function LinkOf(r: Row): Link {
    if r.seqNo < 0 then Damaged(None, NegativeSeq)
    else if |r.prevHash| != 32 then Damaged(Some(r.seqNo), PrevHashLength)
    else if |r.entryHash| != 32 then Damaged(Some(r.seqNo), EntryHashLength)
    else
      match ParseContent(r)
      case OutOfRange => Unreadable
      case Bad(what) => Damaged(Some(r.seqNo), what)
      case Content(e) => Link(r.seqNo, r.prevHash, r.entryHash, Canonical(e))
  }

  function ReadEntry(r: Row): Result<Entry, AuditError> {
    match LinkOf(r)
    case Unreadable => Err(Sqlite)
    case Damaged(_, what) => Err(CorruptEntry(what))
    case Link(_, _, _, _) => Ok(ParseContent(r).entry)
  }

  function Links(rows: seq<Row>): (r: seq<Link>)
    ensures |r| == |rows|
    ensures forall i :: 0 <= i < |rows| ==> r[i] == LinkOf(rows[i])
  {
    seq(|rows|, i requires 0 <= i < |rows| => LinkOf(rows[i]))
  }

  function WidenWord(n: Option<U32>): Option<I64> {
    match n
    case Some(v) => Some(v)
    case None => None
  }

  function RowOf(seqNo: RowId, e: Entry, prev: Digest, hash: Digest): Row {
    Row(seqNo, e.ts, e.tokenPrefix, WidenWord(e.peerUid), WidenWord(e.peerPid), ActionName(e.action),
        e.path, WidenWord(VersionWord(e.version)), OutcomeName(e.outcome), e.detail, prev, hash)
  }

  /** What `append` writes, the verifier reads back unchanged. */
  lemma RowOfReadsBack(seqNo: RowId, e: Entry, prev: Digest, hash: Digest)
    ensures ReadEntry(RowOf(seqNo, e, prev, hash)) == Ok(e)
    ensures LinkOf(RowOf(seqNo, e, prev, hash)) == Link(seqNo, prev, hash, Canonical(e))
  {
    hide ActionName, OutcomeName, ParseAction, ParseOutcome, Canonical;
    NamesRoundTrip(e.action, e.outcome);
    assert ParseContent(RowOf(seqNo, e, prev, hash)) == Content(e);
  }

  /** The hashed input of an entry and of an anchor never coincide: they differ in length. */
  lemma AnchorInputIsNoEntryInput(a: Anchor, prev: Digest, e: Entry)
    ensures |AnchorInput(a)| == 65 && |prev + Canonical(e)| >= 66
  {
    hide Canonical;
    CanonicalLength(e);
  }

  // ----- verify and append -----

  function Verify(mac: Mac, key: Key32, log: Log): Result<Verdict, AuditError> {
    VerifyLinks(mac, key, Links(log.rows), log.anchor)
  }

  predicate Verifies(mac: Mac, key: Key32, log: Log) {
    IsValid(Verify(mac, key, log))
  }

  /** AUTOINCREMENT: one more than any number ever used. */
  function NextRowId(log: Log): (n: int)
    ensures n > log.highWater && (log.rows != [] ==> n > log.rows[|log.rows| - 1].seqNo)
  {
    var last := if log.rows == [] then 0 else log.rows[|log.rows| - 1].seqNo;
    1 + if last > log.highWater then last else log.highWater
  }

  function Append(mac: Mac, key: Key32, log: Log, e: Entry): Result<Log, AuditError> {
    var prev := if log.rows == [] then Genesis() else log.rows[|log.rows| - 1].entryHash;
    if |prev| != 32 then Err(InvalidHashLength)
    else if NextRowId(log) > I64_MAX then Err(Sqlite)
    else
      var hash := mac(key, prev + Canonical(e));
      Ok(Log(log.rows + [RowOf(NextRowId(log), e, prev, hash)],
             Some(EncodeAnchor(mac, key, Anchor(|log.rows| + 1, hash))),
             NextRowId(log)))
  }

  /** What an append needs of the log: a tail hash of the right length and a row number left. */
  predicate CanAppend(log: Log) {
    (log.rows == [] || |log.rows[|log.rows| - 1].entryHash| == 32) && NextRowId(log) <= I64_MAX
  }

  lemma AppendSucceedsExactly(mac: Mac, key: Key32, log: Log, e: Entry)
    ensures Append(mac, key, log, e).Ok? <==> CanAppend(log)
  {
    hide Canonical, RowOf;
  }

  /** Whatever the log held, an append leaves an anchor that authenticates and counts the rows there now are. */
  lemma AppendAnchorsTheRows(mac: Mac, key: Key32, log: Log, e: Entry)
    requires Append(mac, key, log, e).Ok? && |log.rows| < U64_LIMIT - 1
    ensures var log' := Append(mac, key, log, e).value;
      && |log'.rows| == |log.rows| + 1
      && LoadAnchor(mac, key, log'.anchor) == Ok(Some(Anchor(|log'.rows|, log'.rows[|log.rows|].entryHash)))
  {
    hide Canonical, EncodeAnchor, DecodeAnchor;
    var log' := Append(mac, key, log, e).value;
    AnchorRoundTrips(mac, key, Anchor(|log'.rows|, log'.rows[|log.rows|].entryHash));
  }

  /** Appending again and again; an append that fails leaves the log as it was. */
  function AppendAll(mac: Mac, key: Key32, log: Log, entries: seq<Entry>): Log
    decreases |entries|
  {
    if entries == [] then log
    else
      var r := Append(mac, key, log, entries[0]);
      AppendAll(mac, key, if r.Ok? then r.value else log, entries[1..])
  }

  lemma AppendedLinks(mac: Mac, key: Key32, log: Log, e: Entry)
    requires Append(mac, key, log, e).Ok?
    ensures var (log', n) := (Append(mac, key, log, e).value, |log.rows|);
      && |log'.rows| == n + 1 && log'.rows[..n] == log.rows
      && Links(log'.rows) == Links(log.rows) + [LinkOf(log'.rows[n])]
      && log'.highWater == NextRowId(log) && NextRowId(log') == NextRowId(log) + 1
      && LinkOf(log'.rows[n]).Link?
      && LinkOf(log'.rows[n]).seqNo == log'.rows[n].seqNo == NextRowId(log)
      && ReadEntry(log'.rows[n]) == Ok(e)
  {
    var prev := if log.rows == [] then Genesis() else log.rows[|log.rows| - 1].entryHash;
    RowOfReadsBack(NextRowId(log), e, prev, mac(key, prev + Canonical(e)));
  }

  /** A valid log whose numbers have no hole at the end stays valid under appends. */
  lemma AppendKeepsValid(mac: Mac, key: Key32, log: Log, e: Entry)
    requires Verifies(mac, key, log) && NextRowId(log) <= I64_MAX
    ensures Append(mac, key, log, e).Ok?
    ensures var log' := Append(mac, key, log, e).value;
      && (Verifies(mac, key, log') <==> NextRowId(log) == |log.rows| + 1)
      && (NextRowId(log) != |log.rows| + 1 ==>
            Verify(mac, key, log') == Ok(Gap(|log.rows| + 1, NextRowId(log))))
  {
    hide Canonical, ParseContent, VerifyLinks, EncodeAnchor;
    var (links, n) := (Links(log.rows), |log.rows|);
    ValidMeans(mac, key, links, log.anchor);
    if n > 0 {
      assert Chained(mac, key, links, n - 1);
    }
    var log' := Append(mac, key, log, e).value;
    AppendedLinks(mac, key, log, e);
    RowOfReadsBack(NextRowId(log), e, TailOf(links), mac(key, TailOf(links) + Canonical(e)));
    ExtendedIsValid(mac, key, links, log.anchor, LinkOf(log'.rows[n]), log'.anchor);
  }

  /** The numbers used so far are exactly the rows: nothing was ever cut off the end. */
  predicate Dense(log: Log) {
    NextRowId(log) == |log.rows| + 1
  }

  /** Any number of appends to a valid log without a hole; one SQLite can no longer number is refused. */
  lemma {:induction false} AppendAllKeepsValid(mac: Mac, key: Key32, log: Log, entries: seq<Entry>)
    requires Verifies(mac, key, log) && Dense(log)
    ensures var log' := AppendAll(mac, key, log, entries);
      && Verifies(mac, key, log') && Dense(log')
      && log.rows <= log'.rows
    decreases |entries|
  {
    if entries != [] {
      if NextRowId(log) <= I64_MAX {
        AppendKeepsValid(mac, key, log, entries[0]);
        AppendedLinks(mac, key, log, entries[0]);
        AppendAllKeepsValid(mac, key, Append(mac, key, log, entries[0]).value, entries[1..]);
      } else {
        AppendAllKeepsValid(mac, key, log, entries[1..]);
      }
    }
  }

  /** A log written by appends alone verifies, and holds exactly the entries appended, in order. */
  lemma {:induction false} BuiltLogVerifies(mac: Mac, key: Key32, entries: seq<Entry>)
    requires |entries| <= I64_MAX
    ensures var log := AppendAll(mac, key, EMPTY_LOG, entries);
      && Verifies(mac, key, log) && |log.rows| == |entries| == log.highWater && Dense(log)
      && forall i :: 0 <= i < |entries| ==> ReadEntry(log.rows[i]) == Ok(entries[i])
  {
    hide Canonical, LinkOf, RowOf, VerifyLinks, ReadEntry, EncodeAnchor;
    if entries != [] {
      var n := |entries| - 1;
      var log := AppendAll(mac, key, EMPTY_LOG, entries[..n]);
      BuiltLogVerifies(mac, key, entries[..n]);
      AppendKeepsValid(mac, key, log, entries[n]);
      AppendedLinks(mac, key, log, entries[n]);
      assert entries == entries[..n] + [entries[n]];
      AppendAllSnoc(mac, key, EMPTY_LOG, entries[..n], entries[n]);
    } else {
      ValidMeans(mac, key, Links(EMPTY_LOG.rows), None);
    }
  }

  lemma {:induction false} AppendAllSnoc(mac: Mac, key: Key32, log: Log, entries: seq<Entry>, e: Entry)
    ensures var sofar := AppendAll(mac, key, log, entries);
      AppendAll(mac, key, log, entries + [e])
      == if Append(mac, key, sofar, e).Ok? then Append(mac, key, sofar, e).value else sofar
    decreases |entries|
  {
    if entries == [] {
      assert [e][1..] == [];
      assert entries + [e] == [e];
    } else {
      var r := Append(mac, key, log, entries[0]);
      assert (entries + [e])[1..] == entries[1..] + [e];
      AppendAllSnoc(mac, key, if r.Ok? then r.value else log, entries[1..], e);
    }
  }

  // ----- tampering, as the database shows it -----

  /** Two rows with one canonical content hold one entry, unless a column is absurdly long. */
  lemma SameLinkSameEntry(r: Row, q: Row)
    requires LinkOf(r).Link? && LinkOf(r) == LinkOf(q)
    requires ShorterThan(ReadEntry(r).value, 1279) && ShorterThan(ReadEntry(q).value, 1279)
    ensures ReadEntry(r) == ReadEntry(q) && r.seqNo == q.seqNo
    ensures r.prevHash == q.prevHash && r.entryHash == q.entryHash
  {
    hide Canonical, ParseAction, ParseOutcome, ActionName, OutcomeName;
    CanonicalInjective(ReadEntry(r).value, ReadEntry(q).value);
  }

  /**
   * Changing what one row says, with every column short, is reported as Modified at its number with the stored and
   * the computed hash, or the two hashed inputs of that row collide.
   */
  lemma ModifiedRowIsNamed(mac: Mac, key: Key32, log: Log, i: nat, row: Row)
    requires Verifies(mac, key, log) && i < |log.rows|
    requires row.seqNo == log.rows[i].seqNo && row.prevHash == log.rows[i].prevHash && row.entryHash == log.rows[i].entryHash
    requires ReadEntry(row).Ok? && ReadEntry(row) != ReadEntry(log.rows[i])
    requires ShorterThan(ReadEntry(row).value, 1279)
    requires ReadEntry(log.rows[i]).Ok? ==> ShorterThan(ReadEntry(log.rows[i]).value, 1279)
    ensures |row.prevHash| == 32 && |row.entryHash| == 32
    ensures
      || Verify(mac, key, log.(rows := log.rows[i := row]))
         == Ok(Modified(i + 1, row.entryHash, mac(key, row.prevHash + Canonical(ReadEntry(row).value))))
      || CollisionAt(mac, key, LinkOf(log.rows[i]), LinkOf(row))
  {
    hide Canonical, ParseContent, VerifyLinks;
    ValidMeans(mac, key, Links(log.rows), log.anchor);
    ChainedRow(mac, key, log.rows, i);
    var (before, after) := (LinkOf(log.rows[i]), LinkOf(row));
    if before.content == after.content {
      SameLinkSameEntry(row, log.rows[i]);
    }
    ModifiedIsNamed(mac, key, Links(log.rows), log.anchor, i, after.content);
    assert before.(content := after.content) == after;
    assert Links(log.rows[i := row]) == Links(log.rows)[i := after];
  }

  /** `rows` are the rows written for `entries`: numbers, hashes and canonical contents. */
  ghost predicate AsWritten(written: seq<Row>, rows: seq<Row>, entries: seq<Entry>) {
    && |rows| == |written| == |entries|
    && forall i :: 0 <= i < |rows| ==>
         && LinkOf(rows[i]) == LinkOf(written[i])
         && LinkOf(rows[i]).Link?
         && LinkOf(rows[i]).content == Canonical(entries[i])
  }

  /**
   * Rows written by appends, then replaced by any other rows under the last anchor: accepted only if
   * numbers, hashes and canonical contents are all those written, or two rows at one position collide.
   */
  lemma ReplacedRowsAreDetected(mac: Mac, key: Key32, entries: seq<Entry>, log: Log, rows: seq<Row>)
    requires |entries| <= I64_MAX && log == AppendAll(mac, key, EMPTY_LOG, entries)
    requires Verifies(mac, key, log.(rows := rows))
    ensures AsWritten(log.rows, rows, entries) || CollisionIn(mac, key, Links(log.rows), Links(rows))
  {
    BuiltLogVerifies(mac, key, entries);
    TamperEvident(mac, key, Links(log.rows), log.anchor, Links(rows));
    if Links(rows) == Links(log.rows) {
      SameLinksRowByRow(log.rows, rows, entries);
    }
  }

  lemma SameLinksRowByRow(written: seq<Row>, rows: seq<Row>, entries: seq<Entry>)
    requires Links(rows) == Links(written) && |written| == |entries|
    requires forall i :: 0 <= i < |entries| ==> ReadEntry(written[i]) == Ok(entries[i])
    ensures AsWritten(written, rows, entries)
  {
    assert |Links(rows)| == |rows| && |Links(written)| == |written|;
    forall i | 0 <= i < |rows|
      ensures LinkOf(rows[i]) == LinkOf(written[i])
      ensures LinkOf(rows[i]).Link? && LinkOf(rows[i]).content == Canonical(entries[i])
    {
      assert Links(rows)[i] == Links(written)[i];
      ReadEntryIsContent(written[i], entries[i]);
    }
  }

  lemma ReadEntryIsContent(r: Row, e: Entry)
    requires ReadEntry(r) == Ok(e)
    ensures LinkOf(r).Link? && LinkOf(r).content == Canonical(e)
  {
  }

  /** A row-level verdict survives any number of appends, word for word. */
  lemma {:induction false} BreaksSurviveAppends(mac: Mac, key: Key32, log: Log, entries: seq<Entry>)
    requires var r := Verify(mac, key, log); r.Ok? && RowLevel(r.value)
    ensures Verify(mac, key, AppendAll(mac, key, log, entries)) == Verify(mac, key, log)
    decreases |entries|
  {
    if entries != [] {
      var r := Append(mac, key, log, entries[0]);
      if r.Ok? {
        AppendedLinks(mac, key, log, entries[0]);
        var added := [LinkOf(r.value.rows[|log.rows|])];
        AppendsNeverRepair(mac, key, Links(log.rows), log.anchor, added, r.value.anchor);
        BreaksSurviveAppends(mac, key, r.value, entries[1..]);
      } else {
        BreaksSurviveAppends(mac, key, log, entries[1..]);
      }
    }
  }

  /** Cutting the tail and writing on shows as a gap at the first missing number, for ever. */
  lemma CutTailShowsAsGap(mac: Mac, key: Key32, written: seq<Entry>, kept: nat, more: seq<Entry>)
    requires kept < |written| < I64_MAX && more != []
    ensures var log := AppendAll(mac, key, EMPTY_LOG, written);
      && |log.rows| == |written|
      && Verify(mac, key, AppendAll(mac, key, log.(rows := log.rows[..kept]), more)) == Ok(Gap(kept + 1, |written| + 1))
  {
    hide Canonical, LinkOf, RowOf, Append, VerifyLinks, ReadEntry;
    BuiltLogVerifies(mac, key, written);
    var log := AppendAll(mac, key, EMPTY_LOG, written);
    var cut := log.(rows := log.rows[..kept]);
    FirstAppendAfterCut(mac, key, log, kept, more[0]);
    BreaksSurviveAppends(mac, key, Append(mac, key, cut, more[0]).value, more[1..]);
  }

  lemma FirstAppendAfterCut(mac: Mac, key: Key32, log: Log, kept: nat, e: Entry)
    requires Verifies(mac, key, log) && log.highWater == |log.rows|
    requires kept < |log.rows| < I64_MAX
    ensures var r := Append(mac, key, log.(rows := log.rows[..kept]), e);
      r.Ok? && Verify(mac, key, r.value) == Ok(Gap(kept + 1, |log.rows| + 1))
  {
    hide Canonical, ParseContent, RowOf, VerifyLinks, EncodeAnchor;
    var cut := log.(rows := log.rows[..kept]);
    ValidMeans(mac, key, Links(log.rows), log.anchor);
    assert Links(cut.rows) == Links(log.rows)[..kept];
    if kept > 0 {
      ChainedRow(mac, key, log.rows, kept - 1);
    }
    var cut' := Append(mac, key, cut, e).value;
    AppendedLinks(mac, key, cut, e);
    MisnumberedIsAGap(mac, key, Links(log.rows), kept, LinkOf(cut'.rows[kept]), cut'.anchor);
  }

  lemma ChainedRow(mac: Mac, key: Key32, rows: seq<Row>, i: nat)
    requires AllChained(mac, key, Links(rows)) && i < |rows|
    ensures LinkOf(rows[i]).Link? && rows[i].seqNo == i + 1
    ensures |rows[i].entryHash| == 32 && LinkOf(rows[i]).entryHash == rows[i].entryHash
  {
    assert Chained(mac, key, Links(rows), i);
  }

  // ----- re-keying -----

  /** Every hash recomputed under `key`, contents and order untouched. */
  function Relink(mac: Mac, key: Key32, rows: seq<Row>, prev: Digest): Result<seq<Row>, AuditError> {
    if rows == [] then Ok([])
    else
      match ReadEntry(rows[0])
      case Err(error) => Err(error)
      case Ok(e) =>
        var hash := mac(key, prev + Canonical(e));
        match Relink(mac, key, rows[1..], hash)
        case Err(error) => Err(error)
        case Ok(rest) => Ok([rows[0].(prevHash := prev, entryHash := hash)] + rest)
  }

  function RekeyChain(mac: Mac, oldKey: Key32, newKey: Key32, log: Log): Result<Log, AuditError> {
    match Verify(mac, oldKey, log)
    case Err(error) => Err(error)
    case Ok(verdict) =>
      if !verdict.Valid? then Err(RefusingToRekeyBrokenChain(verdict))
      else
        match Relink(mac, newKey, log.rows, Genesis())
        case Err(error) => Err(error)
        case Ok(rows) =>
          Ok(Log(rows,
                 if rows == [] then log.anchor
                 else Some(EncodeAnchor(mac, newKey, Anchor(|rows|, TailOf(Links(rows))))),
                 log.highWater))
  }

  /** All columns but the two hashes. */
  predicate SameContents(r: Row, q: Row) {
    q == r.(prevHash := q.prevHash, entryHash := q.entryHash)
  }

  lemma RelinkedRow(r: Row, prev: Digest, hash: Digest)
    requires LinkOf(r).Link?
    ensures LinkOf(r.(prevHash := prev, entryHash := hash))
         == Link(r.seqNo, prev, hash, Canonical(ReadEntry(r).value))
  {
    assert ParseContent(r.(prevHash := prev, entryHash := hash)) == ParseContent(r);
  }

  lemma {:induction false} RelinkWalksClean(mac: Mac, key: Key32, rows: seq<Row>, start: U64, prev: Digest)
    requires start + |rows| <= I64_MAX + 1
    requires forall i :: 0 <= i < |rows| ==> LinkOf(rows[i]).Link? && rows[i].seqNo == start + i
    ensures Relink(mac, key, rows, prev).Ok?
    ensures var rows' := Relink(mac, key, rows, prev).value;
      && |rows'| == |rows|
      && (forall i :: 0 <= i < |rows| ==> SameContents(rows[i], rows'[i]))
      && Walk(mac, key, Links(rows'), start, prev).Clean?
  {
    if rows != [] {
      var hash := mac(key, prev + Canonical(ReadEntry(rows[0]).value));
      RelinkedRow(rows[0], prev, hash);
      RelinkWalksClean(mac, key, rows[1..], start + 1, hash);
      var rest := Relink(mac, key, rows[1..], hash).value;
      var rows' := Relink(mac, key, rows, prev).value;
      assert rows'[1..] == rest;
      assert Links(rows')[1..] == Links(rest);
    }
  }

  /** Re-keying a valid log: same count, same contents, same order, valid under the new key. */
  lemma RekeyPreservesHistory(mac: Mac, oldKey: Key32, newKey: Key32, log: Log)
    requires Verifies(mac, oldKey, log)
    ensures RekeyChain(mac, oldKey, newKey, log).Ok?
    ensures var log' := RekeyChain(mac, oldKey, newKey, log).value;
      && Verifies(mac, newKey, log')
      && Verify(mac, newKey, log').value.entries == Verify(mac, oldKey, log).value.entries == |log.rows|
      && |log'.rows| == |log.rows|
      && (forall i :: 0 <= i < |log.rows| ==> SameContents(log.rows[i], log'.rows[i]))
      && NextRowId(log') == NextRowId(log) && log'.highWater == log.highWater
  {
    hide Canonical, LinkOf, ReadEntry, EncodeAnchor;
    ValidMeans(mac, oldKey, Links(log.rows), log.anchor);
    CleanMeansChained(mac, oldKey, Links(log.rows));
    forall i | 0 <= i < |log.rows| ensures LinkOf(log.rows[i]).Link? && log.rows[i].seqNo == 1 + i {
      ChainedRow(mac, oldKey, log.rows, i);
    }
    RelinkWalksClean(mac, newKey, log.rows, 1, Genesis());
    RelinkedVerifies(mac, newKey, Relink(mac, newKey, log.rows, Genesis()).value);
  }

  lemma RelinkedVerifies(mac: Mac, key: Key32, rows: seq<Row>)
    requires Walk(mac, key, Links(rows), 1, Genesis()).Clean?
    ensures VerifyLinks(mac, key, Links(rows),
                        if rows == [] then None else Some(EncodeAnchor(mac, key, Anchor(|rows|, TailOf(Links(rows))))))
         == Ok(Valid(|rows|, if rows == [] then None else Some(TailOf(Links(rows)))))
  {
    CleanMeansChained(mac, key, Links(rows));
    AnchorRoundTrips(mac, key, Anchor(|rows|, TailOf(Links(rows))));
  }

  /** A log that does not verify is never re-keyed: the call reports what it found. */
  lemma RekeyRefusesBrokenChains(mac: Mac, oldKey: Key32, newKey: Key32, log: Log)
    ensures RekeyChain(mac, oldKey, newKey, log).Ok? <==> Verifies(mac, oldKey, log)
    ensures var r := Verify(mac, oldKey, log);
      r.Ok? && !r.value.Valid? ==> RekeyChain(mac, oldKey, newKey, log) == Err(RefusingToRekeyBrokenChain(r.value))
  {
    if Verifies(mac, oldKey, log) {
      RekeyPreservesHistory(mac, oldKey, newKey, log);
    }
  }

  lemma RelinkedHead(mac: Mac, key: Key32, rows: seq<Row>, prev: Digest)
    requires rows != [] && LinkOf(rows[0]).Link? && Relink(mac, key, rows, prev).Ok?
    ensures var (r', c) := (Relink(mac, key, rows, prev).value, LinkOf(rows[0]).content);
      r' != [] && LinkOf(r'[0]) == Link(rows[0].seqNo, prev, mac(key, prev + c), c)
  {
    hide Canonical, ParseContent;
    RelinkedRow(rows[0], prev, mac(key, prev + LinkOf(rows[0]).content));
  }

  /** The retired key rejects the very first entry, unless it happens to agree with the new key there. */
  lemma RetiredKeyRejects(mac: Mac, oldKey: Key32, newKey: Key32, log: Log)
    requires Verifies(mac, oldKey, log) && log.rows != []
    ensures RekeyChain(mac, oldKey, newKey, log).Ok? && LinkOf(log.rows[0]).Link?
    ensures var (log', input) := (RekeyChain(mac, oldKey, newKey, log).value, Genesis() + LinkOf(log.rows[0]).content);
      mac(oldKey, input) != mac(newKey, input) ==>
        Verify(mac, oldKey, log') == Ok(Modified(1, mac(newKey, input), mac(oldKey, input)))
  {
    hide Canonical, ParseContent, RowOf;
    RekeyPreservesHistory(mac, oldKey, newKey, log);
    var log' := RekeyChain(mac, oldKey, newKey, log).value;
    ValidMeans(mac, oldKey, Links(log.rows), log.anchor);
    ChainedRow(mac, oldKey, log.rows, 0);
    RelinkedHead(mac, newKey, log.rows, Genesis());
    assert Links(log'.rows)[0] == LinkOf(log'.rows[0]);
    if mac(oldKey, Genesis() + LinkOf(log.rows[0]).content) != mac(newKey, Genesis() + LinkOf(log.rows[0]).content) {
      FirstLinkRejected(mac, oldKey, Links(log'.rows), log'.anchor);
    }
  }

  /** The running hash of the re-key loop is the tail of the re-linked chain. */
  lemma RekeyedTail(mac: Mac, oldKey: Key32, newKey: Key32, log: Log)
    requires Verifies(mac, oldKey, log) && log.rows != []
    ensures var r := RekeyChain(mac, oldKey, newKey, log);
      r.Ok? && |r.value.rows| == |log.rows| && TailOf(Links(r.value.rows)) == r.value.rows[|log.rows| - 1].entryHash
  {
    hide Canonical, LinkOf, Relink;
    RekeyPreservesHistory(mac, oldKey, newKey, log);
    var log' := RekeyChain(mac, oldKey, newKey, log).value;
    LastRowIsTail(mac, newKey, log');
  }

  lemma LastRowIsTail(mac: Mac, key: Key32, log: Log)
    requires Verifies(mac, key, log) && log.rows != []
    ensures TailOf(Links(log.rows)) == log.rows[|log.rows| - 1].entryHash
  {
    hide LinkOf, Judge, LoadAnchor;
    ValidMeans(mac, key, Links(log.rows), log.anchor);
    ChainedRow(mac, key, log.rows, |log.rows| - 1);
  }

  /** One append under a key other than the one a valid log is kept under, and what the log's own key makes of it. */
  lemma AppendUnderOtherKey(mac: Mac, kept: Key32, used: Key32, log: Log, e: Entry)
    requires Verifies(mac, kept, log) && Dense(log) && |log.rows| < I64_MAX
    ensures Append(mac, used, log, e).Ok?
    ensures var (input, r) := (TailOf(Links(log.rows)) + Canonical(e), Verify(mac, kept, Append(mac, used, log, e).value));
      && (mac(used, input) != mac(kept, input) ==>
            r == Ok(Modified(|log.rows| + 1, mac(used, input), mac(kept, input))))
      && (mac(used, input) == mac(kept, input) ==>
            var a := AnchorInput(Anchor(|log.rows| + 1, mac(used, input)));
            (IsValid(r) <==> mac(used, a) == mac(kept, a)))
  {
    hide Canonical, ParseContent, RowOf, VerifyLinks, EncodeAnchor;
    var (links, n) := (Links(log.rows), |log.rows|);
    if n > 0 {
      LastRowIsTail(mac, kept, log);
      ValidMeans(mac, kept, links, log.anchor);
      ChainedRow(mac, kept, log.rows, n - 1);
    }
    var log' := Append(mac, used, log, e).value;
    AppendedLinks(mac, used, log, e);
    RowOfReadsBack(n + 1, e, TailOf(links), mac(used, TailOf(links) + Canonical(e)));
    ExtendedUnderOtherKey(mac, kept, used, links, log.anchor, LinkOf(log'.rows[n]));
  }
}
